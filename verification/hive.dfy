/**
 `parse_reg` of src/hive.rs over an abstract registry tree: the display
 names under `Devices`, then one pairing record per eligible key under
 `Keys\<adapter>\<device>`, keyed by display name.
 */
module Hive {
  import opened Wrappers
  import opened Bytes
  import opened Text
  import opened Registry
  import opened Folds
  import Utf8
  import Bluetooth

  /** `ControlSet001\Services\BTHPORT\Parameters`, one step per subkey. */
  const ParametersPath: seq<string> := ["ControlSet001", "Services", "BTHPORT", "Parameters"]
  const DevicesPath: seq<string> := ParametersPath + ["Devices"]
  const KeysPath: seq<string> := ParametersPath + ["Keys"]

  // ----- display names -----

  /** The bytes before the first zero byte, or all of them when there is none. */
  function NameBytes(bs: seq<byte>): (r: seq<byte>)
    ensures |r| <= |bs| && r == bs[..|r|]
    ensures 0 !in r
    ensures |r| < |bs| ==> bs[|r|] == 0
  {
    if |bs| == 0 || bs[0] == 0 then [] else [bs[0]] + NameBytes(bs[1..])
  }

  /** The name bytes of a device key: from its small `Name` value; a big or missing one gives none. */
  function NameOf(k: Key): Option<seq<byte>> {
    match SmallData(k, "Name")
    case None => None
    case Some(bs) => Some(NameBytes(bs))
  }

  /** Every name the loop reads is UTF-8 (the source unwraps the conversion). */
  predicate NamesAreText(devs: seq<Key>) {
    forall i :: 0 <= i < |devs| && NameOf(devs[i]).Some? ==> Utf8.Decode(NameOf(devs[i]).value).Some?
  }

  /** Under the name-map loop, entry `i` inserts under its key name, when it has a name. */
  function NameKeys(devs: seq<Key>): (ks: seq<Option<string>>)
    ensures |ks| == |devs|
    ensures forall i :: 0 <= i < |devs| ==> (ks[i].Some? <==> NameOf(devs[i]).Some?)
    ensures forall i :: 0 <= i < |devs| && ks[i].Some? ==> ks[i].value == devs[i].name
  {
    seq(|devs|, i requires 0 <= i < |devs| => if NameOf(devs[i]).Some? then Some(devs[i].name) else None)
  }

  /** The text well-formed UTF-8 bytes encode. */
  function TextOf(bs: seq<byte>): (s: string)
    requires Utf8.Decode(bs).Some?
    ensures Utf8.Encode(s) == bs
  {
    Utf8.EncodeOfDecode(bs);
    Utf8.Decode(bs).value
  }

  /** The decoded display name of every entry (empty where it has none). */
  function NameValues(devs: seq<Key>): (vs: seq<string>)
    requires NamesAreText(devs)
    ensures |vs| == |devs|
    ensures forall i :: 0 <= i < |devs| && NameOf(devs[i]).Some? ==>
      Utf8.Encode(vs[i]) == NameOf(devs[i]).value
  {
    seq(|devs|, i requires 0 <= i < |devs| =>
      if NameOf(devs[i]).Some? then TextOf(NameOf(devs[i]).value) else "")
  }

  /** `bt_name_map`: device key name to display name, a later key replacing an earlier one. */
  function NameMap(devs: seq<Key>): map<string, string>
    requires NamesAreText(devs)
  {
    LastWins(map[], NameKeys(devs), NameValues(devs))
  }

  /**
   The name map has an entry for exactly the device keys that have a small
   `Name` value, and its entry is the UTF-8 text of the last such key's
   name bytes.
   */
  lemma NameMapEntries(devs: seq<Key>)
    requires NamesAreText(devs)
    ensures forall n :: n in NameMap(devs) <==> exists i :: 0 <= i < |devs| && devs[i].name == n && NameOf(devs[i]).Some?
    ensures forall n, i :: LastAt(NameKeys(devs), n, i) ==>
      n in NameMap(devs) && Utf8.Encode(NameMap(devs)[n]) == NameOf(devs[i]).value
  {
    var ks := NameKeys(devs);
    LastWinsDomain(map[], ks, NameValues(devs));
    forall n ensures n in NameMap(devs) <==> exists i :: 0 <= i < |devs| && devs[i].name == n && NameOf(devs[i]).Some? {
      if exists i :: 0 <= i < |devs| && devs[i].name == n && NameOf(devs[i]).Some? {
        var i :| 0 <= i < |devs| && devs[i].name == n && NameOf(devs[i]).Some?;
        assert ks[i] == Some(n);
      }
    }
    forall n, i | LastAt(ks, n, i)
      ensures n in NameMap(devs) && Utf8.Encode(NameMap(devs)[n]) == NameOf(devs[i]).value
    {
      LastWinsLast(map[], ks, NameValues(devs), n, i);
    }
  }

  /** A name stored NUL-terminated reads back as the text before the terminator. */
  lemma NameOfTerminated(s: string, rest: seq<byte>)
    requires '\0' !in s
    ensures NameBytes(Utf8.Encode(s) + [0] + rest) == Utf8.Encode(s)
    ensures Utf8.Decode(NameBytes(Utf8.Encode(s) + [0] + rest)) == Some(s)
  {
    Utf8.EncodeNoZero(s);
    NameBytesBeforeZero(Utf8.Encode(s), rest);
    Utf8.DecodeOfEncode(s);
  }

  lemma {:induction false} NameBytesBeforeZero(p: seq<byte>, rest: seq<byte>)
    requires 0 !in p
    ensures NameBytes(p + [0] + rest) == p
  {
    if |p| > 0 {
      assert p[0] in p;
      assert (p + [0] + rest)[1..] == p[1..] + [0] + rest;
      assert 0 !in p[1..] by {
        forall i | 0 <= i < |p| - 1 ensures p[1..][i] != 0 { assert p[1..][i] == p[i + 1]; }
      }
      NameBytesBeforeZero(p[1..], rest);
    }
  }

  // ----- pairing records -----

  /** The failures `parse_reg` propagates from reading a key's numbers. */
  datatype ParseError = BadERand | BadEdiv

  /**
   The `ERand` and `EDIV` numbers of a key, 0 when absent; a value that is
   present but that the library cannot read as a QWORD (DWORD) is an error,
   `ERand` being read first.
   */
  function Numbers(leaf: Key): (r: Result<(u64, u32), ParseError>)
    ensures r.Err? <==> (("ERand" in leaf.values && leaf.values["ERand"].qword.None?)
      || ("EDIV" in leaf.values && leaf.values["EDIV"].dword.None?))
    ensures r.Err? && "ERand" in leaf.values && leaf.values["ERand"].qword.None? ==> r.error == BadERand
    ensures r.Ok? ==> r.value.0 == (if "ERand" in leaf.values then leaf.values["ERand"].qword.value else 0)
    ensures r.Ok? ==> r.value.1 == (if "EDIV" in leaf.values then leaf.values["EDIV"].dword.value else 0)
  {
    var erand: Result<u64, ParseError> :=
      if "ERand" !in leaf.values then Ok(0)
      else if leaf.values["ERand"].qword.None? then Err(BadERand)
      else Ok(leaf.values["ERand"].qword.value);
    if erand.Err? then Err(erand.error)
    else
      var ediv: Result<u32, ParseError> :=
        if "EDIV" !in leaf.values then Ok(0)
        else if leaf.values["EDIV"].dword.None? then Err(BadEdiv)
        else Ok(leaf.values["EDIV"].dword.value);
      if ediv.Err? then Err(ediv.error) else Ok((erand.value, ediv.value))
  }

  /** The key's LTK as upper-case hexadecimal, or empty when there is no small `LTK` value. */
  function LtkOf(leaf: Key): (r: string)
    ensures SmallData(leaf, "LTK").None? ==> r == ""
    ensures SmallData(leaf, "LTK").Some? ==> |r| == 2 * |SmallData(leaf, "LTK").value|
    ensures forall i :: 0 <= i < |r| ==> IsUpperHexDigit(r[i])
  {
    match SmallData(leaf, "LTK")
    case None => ""
    case Some(bs) => Hex(bs)
  }

  /** The LTK string loses nothing: the key bytes read back from it. */
  lemma LtkOfBytes(leaf: Key)
    requires SmallData(leaf, "LTK").Some?
    ensures ParseHex(LtkOf(leaf)) == SmallData(leaf, "LTK").value
  {
    ParseHexOfHex(SmallData(leaf, "LTK").value);
  }

  /** A key yields a record when its LTK is non-empty and its name has a display name. */
  predicate Eligible(leaf: Key, names: map<string, string>) {
    LtkOf(leaf) != "" && leaf.name in names
  }

  /** The record of a key: MAC from its name, LTK in hexadecimal, numbers in decimal. */
  function Record(leaf: Key, erand: u64, ediv: u32): (r: Bluetooth.BtDeviceInfo)
    requires IsAscii(leaf.name)
    ensures forall i :: 0 <= i < |r.erand| ==> '0' <= r.erand[i] <= '9'
    ensures forall i :: 0 <= i < |r.ediv| ==> '0' <= r.ediv[i] <= '9'
    ensures ParseDecimal(r.erand) == erand && ParseDecimal(r.ediv) == ediv
  {
    ParseDecimalOfDecimal(erand);
    ParseDecimalOfDecimal(ediv);
    Bluetooth.BtDeviceInfo(Bluetooth.FmtMac(leaf.name), LtkOf(leaf), Decimal(erand), Decimal(ediv))
  }

  /** Every eligible key's name is ASCII, so its MAC can be formatted. */
  predicate MacsAscii(leaves: seq<Key>, names: map<string, string>) {
    forall i :: 0 <= i < |leaves| && Eligible(leaves[i], names) ==> IsAscii(leaves[i].name)
  }

  lemma MacsAsciiTail(leaves: seq<Key>, names: map<string, string>)
    requires |leaves| > 0 && MacsAscii(leaves, names)
    ensures MacsAscii(leaves[1..], names)
  {
    forall i | 0 <= i < |leaves| - 1 ensures leaves[1..][i] == leaves[i + 1] { }
  }

  /**
   The inner loop of `parse_reg` over the device keys, in order: a key
   whose numbers cannot be read aborts the whole parse; otherwise an
   eligible key inserts its record under its display name.
   */
  function RecordsLoop(acc: map<string, Bluetooth.BtDeviceInfo>, leaves: seq<Key>, names: map<string, string>)
    : Result<map<string, Bluetooth.BtDeviceInfo>, ParseError>
    requires MacsAscii(leaves, names)
    decreases |leaves|
  {
    if |leaves| == 0 then Ok(acc)
    else
      var leaf := leaves[0];
      match Numbers(leaf)
      case Err(e) => Err(e)
      case Ok((erand, ediv)) =>
        MacsAsciiTail(leaves, names);
        var acc' := if Eligible(leaf, names) then acc[names[leaf.name] := Record(leaf, erand, ediv)] else acc;
        RecordsLoop(acc', leaves[1..], names)
  }

  /** The display name each key inserts under, when eligible. */
  function RecordKeys(leaves: seq<Key>, names: map<string, string>): (ks: seq<Option<string>>)
    ensures |ks| == |leaves|
    ensures forall i :: 0 <= i < |leaves| ==> (ks[i].Some? <==> Eligible(leaves[i], names))
    ensures forall i :: 0 <= i < |leaves| && Eligible(leaves[i], names) ==> ks[i] == Some(names[leaves[i].name])
  {
    seq(|leaves|, i requires 0 <= i < |leaves| =>
      if Eligible(leaves[i], names) then Some(names[leaves[i].name]) else None)
  }

  /** The record each key inserts (a placeholder where it is not eligible or its numbers fail). */
  function RecordValues(leaves: seq<Key>, names: map<string, string>): (vs: seq<Bluetooth.BtDeviceInfo>)
    requires MacsAscii(leaves, names)
    ensures |vs| == |leaves|
    ensures forall i :: 0 <= i < |leaves| && Eligible(leaves[i], names) && Numbers(leaves[i]).Ok? ==>
      vs[i] == Record(leaves[i], Numbers(leaves[i]).value.0, Numbers(leaves[i]).value.1)
  {
    seq(|leaves|, i requires 0 <= i < |leaves| =>
      if Eligible(leaves[i], names) && Numbers(leaves[i]).Ok? then
        Record(leaves[i], Numbers(leaves[i]).value.0, Numbers(leaves[i]).value.1)
      else Bluetooth.BtDeviceInfo("", "", "", ""))
  }

  /** The first key whose numbers cannot be read. */
  function FirstBad(leaves: seq<Key>): (r: Option<nat>)
    ensures r.Some? ==> r.value < |leaves| && Numbers(leaves[r.value]).Err?
    ensures r.Some? ==> forall j :: 0 <= j < r.value ==> Numbers(leaves[j]).Ok?
    ensures r.None? ==> forall j :: 0 <= j < |leaves| ==> Numbers(leaves[j]).Ok?
  {
    if |leaves| == 0 then None
    else if Numbers(leaves[0]).Err? then Some(0)
    else
      match FirstBad(leaves[1..])
      case None => None
      case Some(k) => Some(k + 1)
  }

  /**
   The loop is the last-wins map over the eligible keys when every key's
   numbers can be read, and the error of the first key whose numbers
   cannot be read otherwise, whether or not that key is eligible.
   */
  lemma {:induction false} RecordsLoopIs(acc: map<string, Bluetooth.BtDeviceInfo>, leaves: seq<Key>, names: map<string, string>)
    requires MacsAscii(leaves, names)
    ensures FirstBad(leaves).None? ==>
      RecordsLoop(acc, leaves, names) == Ok(LastWins(acc, RecordKeys(leaves, names), RecordValues(leaves, names)))
    ensures FirstBad(leaves).Some? ==>
      RecordsLoop(acc, leaves, names) == Err(Numbers(leaves[FirstBad(leaves).value]).error)
    decreases |leaves|
  {
    if |leaves| > 0 && Numbers(leaves[0]).Ok? {
      MacsAsciiTail(leaves, names);
      var acc' := RecordsStep(acc, leaves, names);
      RecordsLoopIs(acc', leaves[1..], names);
      var rest := FirstBad(leaves[1..]);
      if rest.Some? {
        assert FirstBad(leaves) == Some(rest.value + 1);
        assert leaves[rest.value + 1] == leaves[1..][rest.value];
      } else {
        assert FirstBad(leaves).None?;
      }
    }
  }

  /** One turn of the loop is one insert of the generic fold, and leaves the rest of the sequences. */
  lemma RecordsStep(acc: map<string, Bluetooth.BtDeviceInfo>, leaves: seq<Key>, names: map<string, string>)
    returns (acc': map<string, Bluetooth.BtDeviceInfo>)
    requires MacsAscii(leaves, names) && |leaves| > 0 && Numbers(leaves[0]).Ok?
    ensures MacsAscii(leaves[1..], names)
    ensures RecordsLoop(acc, leaves, names) == RecordsLoop(acc', leaves[1..], names)
    ensures var ks := RecordKeys(leaves, names); var vs := RecordValues(leaves, names);
      && acc' == Put(acc, ks[0], vs[0])
      && ks[1..] == RecordKeys(leaves[1..], names)
      && vs[1..] == RecordValues(leaves[1..], names)
  {
    var leaf := leaves[0];
    var (erand, ediv) := Numbers(leaf).value;
    MacsAsciiTail(leaves, names);
    acc' := if Eligible(leaf, names) then acc[names[leaf.name] := Record(leaf, erand, ediv)] else acc;
    RecordKeysTail(leaves, names);
    RecordValuesTail(leaves, names);
  }

  lemma RecordKeysTail(leaves: seq<Key>, names: map<string, string>)
    requires |leaves| > 0
    ensures RecordKeys(leaves, names)[1..] == RecordKeys(leaves[1..], names)
  {
    var ks := RecordKeys(leaves, names);
    var ks' := RecordKeys(leaves[1..], names);
    forall i | 0 <= i < |ks'| ensures ks[1..][i] == ks'[i] {
      assert leaves[1..][i] == leaves[i + 1];
    }
  }

  lemma RecordValuesTail(leaves: seq<Key>, names: map<string, string>)
    requires |leaves| > 0 && MacsAscii(leaves, names)
    ensures MacsAscii(leaves[1..], names)
    ensures RecordValues(leaves, names)[1..] == RecordValues(leaves[1..], names)
  {
    MacsAsciiTail(leaves, names);
    var vs := RecordValues(leaves, names);
    var vs' := RecordValues(leaves[1..], names);
    forall i | 0 <= i < |vs'| ensures vs[1..][i] == vs'[i] {
      assert leaves[1..][i] == leaves[i + 1];
    }
  }

  /** Where `parse_reg` looks, and what it demands of the hive it reads. */
  predicate ParsableHive(root: Key) {
    && Subpath(root, DevicesPath).Some?
    && Subpath(root, KeysPath).Some?
    && NamesAreText(Subpath(root, DevicesPath).value.subkeys)
    && MacsAscii(Flatten(Subpath(root, KeysPath).value.subkeys), NameMap(Subpath(root, DevicesPath).value.subkeys))
  }

  /** The device keys `parse_reg` examines: the subkeys of each adapter key under `Keys`. */
  function Leaves(root: Key): seq<Key>
    requires Subpath(root, KeysPath).Some?
  {
    Flatten(Subpath(root, KeysPath).value.subkeys)
  }

  /** The name map `parse_reg` builds from `Devices`. */
  function Names(root: Key): map<string, string>
    requires Subpath(root, DevicesPath).Some? && NamesAreText(Subpath(root, DevicesPath).value.subkeys)
  {
    NameMap(Subpath(root, DevicesPath).value.subkeys)
  }

  /**
   `parse_reg` over the SYSTEM hive, None when the hive file does not
   exist: the records by display name, or the first number error.
   */
  function ParseReg(hive: Option<Key>): (r: Result<map<string, Bluetooth.BtDeviceInfo>, ParseError>)
    requires hive.Some? ==> ParsableHive(hive.value)
    ensures hive.None? ==> r == Ok(map[])
    ensures hive.Some? && r.Ok? ==> forall j :: 0 <= j < |Leaves(hive.value)| ==> Numbers(Leaves(hive.value)[j]).Ok?
  {
    match hive
    case None => Ok(map[])
    case Some(root) =>
      RecordsLoopIs(map[], Leaves(root), Names(root));
      RecordsLoop(map[], Leaves(root), Names(root))
  }

  /**
   The records `parse_reg` returns: one under each display name some
   eligible device key has, holding the last such key's record, and an
   error exactly when some examined key's numbers cannot be read.
   */
  lemma ParseRegRecords(root: Key)
    requires ParsableHive(root)
    ensures ParseReg(Some(root)).Err? <==> exists j :: 0 <= j < |Leaves(root)| && Numbers(Leaves(root)[j]).Err?
    ensures var r := ParseReg(Some(root)); var leaves := Leaves(root); var names := Names(root);
      r.Ok? ==> forall n :: n in r.value <==>
        exists i :: 0 <= i < |leaves| && Eligible(leaves[i], names) && names[leaves[i].name] == n
    ensures var r := ParseReg(Some(root)); var leaves := Leaves(root); var names := Names(root);
      r.Ok? ==> forall n, i :: LastAt(RecordKeys(leaves, names), n, i) ==>
        n in r.value && r.value[n] == Record(leaves[i], Numbers(leaves[i]).value.0, Numbers(leaves[i]).value.1)
  {
    var leaves := Leaves(root);
    var names := Names(root);
    RecordsLoopIs(map[], leaves, names);
    if FirstBad(leaves).None? {
      RecordsMap(leaves, names);
    }
  }

  /** The last-wins map of the records: one entry per display name, from the last eligible key. */
  lemma RecordsMap(leaves: seq<Key>, names: map<string, string>)
    requires MacsAscii(leaves, names)
    requires forall j :: 0 <= j < |leaves| ==> Numbers(leaves[j]).Ok?
    ensures var m := LastWins(map[], RecordKeys(leaves, names), RecordValues(leaves, names));
      forall n :: n in m <==> exists i :: 0 <= i < |leaves| && Eligible(leaves[i], names) && names[leaves[i].name] == n
    ensures var m := LastWins(map[], RecordKeys(leaves, names), RecordValues(leaves, names));
      forall n, i :: LastAt(RecordKeys(leaves, names), n, i) ==>
        n in m && m[n] == Record(leaves[i], Numbers(leaves[i]).value.0, Numbers(leaves[i]).value.1)
  {
    var ks := RecordKeys(leaves, names);
    var vs := RecordValues(leaves, names);
    LastWinsDomain(map[], ks, vs);
    forall n ensures n in LastWins(map[], ks, vs) <==>
      exists i :: 0 <= i < |leaves| && Eligible(leaves[i], names) && names[leaves[i].name] == n
    {
      if exists i :: 0 <= i < |leaves| && Eligible(leaves[i], names) && names[leaves[i].name] == n {
        var i :| 0 <= i < |leaves| && Eligible(leaves[i], names) && names[leaves[i].name] == n;
        assert ks[i] == Some(n);
      }
    }
    forall n, i | LastAt(ks, n, i)
      ensures n in LastWins(map[], ks, vs) && LastWins(map[], ks, vs)[n] == Record(leaves[i], Numbers(leaves[i]).value.0, Numbers(leaves[i]).value.1)
    {
      LastWinsLast(map[], ks, vs, n, i);
    }
  }

  /** Every record holds the formatted MAC of its key's name and a non-empty hexadecimal LTK. */
  lemma RecordShape(leaf: Key, erand: u64, ediv: u32)
    requires IsAscii(leaf.name) && LtkOf(leaf) != ""
    ensures var r := Record(leaf, erand, ediv);
      && r.mac == Bluetooth.FmtMac(leaf.name)
      && |r.ltk| > 0 && |r.ltk| % 2 == 0
      && (forall i :: 0 <= i < |r.ltk| ==> IsUpperHexDigit(r.ltk[i]))
      && (erand == 0 ==> r.erand == "0") && (ediv == 0 ==> r.ediv == "0")
  {
  }

  /** The device keys examined are exactly the keys two levels below `Keys`. */
  lemma LeavesAreDepthTwo(root: Key, leaf: Key)
    requires Subpath(root, KeysPath).Some?
    ensures var adapters := Subpath(root, KeysPath).value.subkeys;
      leaf in Leaves(root) <==> exists i :: 0 <= i < |adapters| && leaf in adapters[i].subkeys
  {
    var adapters := Subpath(root, KeysPath).value.subkeys;
    if leaf in Leaves(root) {
      FlattenOnly(adapters, leaf);
    }
    if exists i :: 0 <= i < |adapters| && leaf in adapters[i].subkeys {
      var i :| 0 <= i < |adapters| && leaf in adapters[i].subkeys;
      var j :| 0 <= j < |adapters[i].subkeys| && adapters[i].subkeys[j] == leaf;
    }
  }
}
