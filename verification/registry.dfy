/**
 The registry hive as the core sees it through its hive-reading library:
 an immutable tree of named keys, each holding named values. Cell and bin
 decoding is the library's business; a value arrives with its declared type,
 its payload, and the integers the library would decode from it.
 */
module Registry {
  import opened Bytes
  import opened Wrappers

  /** A value's payload: small data held in one cell, or big data spread over segments. */
  datatype Data = Small(bytes: seq<byte>) | Big

  /** The declared type of a value, as far as the core distinguishes them. */
  datatype ValueType = RegBinary | RegDWord | RegQWord | RegSz | OtherType

  /**
   One value of a key. `qword` and `dword` are what the library's
   `qword_data()` and `dword_data()` return for it: None when the library
   reports an error (wrong type or size).
   */
  datatype Value = Value(vtype: ValueType, data: Data, qword: Option<u64>, dword: Option<u32>)

  /** A key: its name, its values by name, and its subkeys in on-disk order. */
  datatype Key = Key(name: string, values: map<string, Value>, subkeys: seq<Key>)

  /** The first subkey called `name`, or None when there is none. */
  function Subkey(k: Key, name: string): (r: Option<Key>)
    ensures r.Some? ==> r.value in k.subkeys && r.value.name == name
    ensures r.None? <==> forall i :: 0 <= i < |k.subkeys| ==> k.subkeys[i].name != name
  {
    FirstNamed(k.subkeys, name)
  }

  function FirstNamed(ks: seq<Key>, name: string): (r: Option<Key>)
    ensures r.Some? ==> r.value in ks && r.value.name == name
    ensures r.None? <==> forall i :: 0 <= i < |ks| ==> ks[i].name != name
  {
    if |ks| == 0 then None
    else if ks[0].name == name then Some(ks[0])
    else FirstNamed(ks[1..], name)
  }

  /** The key reached by following `path` one subkey at a time, or None when a step is missing. */
  function Subpath(k: Key, path: seq<string>): (r: Option<Key>)
    ensures |path| == 0 ==> r == Some(k)
    ensures r.Some? && |path| > 0 ==> r.value.name == path[|path| - 1]
    decreases |path|
  {
    if |path| == 0 then Some(k)
    else
      match Subkey(k, path[0])
      case None => None
      case Some(child) => Subpath(child, path[1..])
  }

  /** The bytes of a small value called `name`, or None when it is absent or big. */
  function SmallData(k: Key, name: string): (r: Option<seq<byte>>)
    ensures r.Some? <==> name in k.values && k.values[name].data.Small?
  {
    if name in k.values && k.values[name].data.Small? then Some(k.values[name].data.bytes) else None
  }

  /** The subkeys of every key of `ks`, in order: the keys two levels below a parent whose subkeys are `ks`. */
  function Flatten(ks: seq<Key>): (r: seq<Key>)
    ensures forall i, j :: 0 <= i < |ks| && 0 <= j < |ks[i].subkeys| ==> ks[i].subkeys[j] in r
  {
    if |ks| == 0 then [] else ks[0].subkeys + Flatten(ks[1..])
  }

  /** Nothing but keys two levels down is in the flattening. */
  lemma {:induction false} FlattenOnly(ks: seq<Key>, leaf: Key)
    requires leaf in Flatten(ks)
    ensures exists i :: 0 <= i < |ks| && leaf in ks[i].subkeys
  {
    if leaf !in ks[0].subkeys {
      FlattenOnly(ks[1..], leaf);
      var i :| 0 <= i < |ks[1..]| && leaf in ks[1..][i].subkeys;
      assert ks[i + 1] == ks[1..][i];
    }
  }
}
