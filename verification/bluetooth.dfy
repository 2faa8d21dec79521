/**
 The Linux side of the migration (src/bluetooth.rs): the device record,
 reading and rewriting the `[LongTermKey]` section of a BlueZ `info` file,
 MAC formatting, and the reconciliation pass over one adapter's device
 directories.
 */
module Bluetooth {
  import opened Wrappers
  import opened Text
  import opened Folds

  /** The key material of one device, all as text ready for the `info` file. */
  datatype BtDeviceInfo = BtDeviceInfo(mac: string, ltk: string, erand: string, ediv: string)

  const LtkHeader: string := "[LongTermKey]"

  // ----- get_ltk -----

  /** A line that trims to `[LongTermKey]`. */
  predicate IsHeader(line: string) {
    Trim(line) == LtkHeader
  }

  /** A line that trims to the header begins with `[` or with whitespace. */
  lemma {:induction false} HeaderFirstChar(line: string)
    requires IsHeader(line)
    ensures |line| > 0 && (line[0] == '[' || IsWhitespace(line[0]))
  {
    var t := TrimStart(line);
    var e := TrimEnd(t);
    assert e == LtkHeader;
    assert e[0] == '[';
    assert t[0] == '[';
    TrimStartDropsWhitespace(line);
    if |t| < |line| {
      assert IsWhitespace(line[0]);
    } else {
      assert t == line;
    }
  }

  /** How `get_ltk` sees one line: the header test comes first, then the `Key=` test. */
  datatype LineKind = Header | KeyEntry(rest: string) | Other

  function KindOf(line: string): LineKind {
    if IsHeader(line) then Header
    else if StartsWith(line, "Key=") then KeyEntry(line[4..])
    else Other
  }

  function Kinds(ls: seq<string>): (r: seq<LineKind>)
    ensures |r| == |ls|
    ensures forall j :: 0 <= j < |ls| ==> r[j] == KindOf(ls[j])
  {
    seq(|ls|, j requires 0 <= j < |ls| => KindOf(ls[j]))
  }

  /** Some line before `i` is a header: the flag `get_ltk` sets and never clears. */
  ghost predicate AfterHeader(ks: seq<LineKind>, i: int) {
    exists j :: 0 <= j < i && j < |ks| && ks[j].Header?
  }

  /** Line `i` starts with `Key=` and comes after a header line. */
  ghost predicate IsKeyLine(ks: seq<LineKind>, i: int) {
    0 <= i < |ks| && AfterHeader(ks, i) && ks[i].KeyEntry?
  }

  /** Line `i` is the first key line. */
  ghost predicate IsFirstKeyLine(ks: seq<LineKind>, i: int) {
    IsKeyLine(ks, i) && forall m :: 0 <= m < i ==> !IsKeyLine(ks, m)
  }

  /** The header flag after line `i`. */
  lemma {:induction false} AfterHeaderStep(ks: seq<LineKind>, i: int)
    requires 0 <= i < |ks|
    ensures AfterHeader(ks, i + 1) <==> AfterHeader(ks, i) || ks[i].Header?
  {
    if AfterHeader(ks, i + 1) && !AfterHeader(ks, i) {
      var j :| 0 <= j < i + 1 && j < |ks| && ks[j].Header?;
      assert j == i;
    }
  }

  /** The loop of `get_ltk` from line `i`, with `inLtk` the header flag so far. */
  function GetLtkScan(ks: seq<LineKind>, i: nat, inLtk: bool): string
    requires i <= |ks|
    decreases |ks| - i
  {
    if i == |ks| then ""
    else match ks[i]
      case Header => GetLtkScan(ks, i + 1, true)
      case KeyEntry(rest) => if inLtk then rest else GetLtkScan(ks, i + 1, inLtk)
      case Other => GetLtkScan(ks, i + 1, inLtk)
  }

  /**
   `get_ltk`: the text after `Key=` on the first `Key=` line that follows a
   line trimming to `[LongTermKey]`, or "" when there is none.
   */
  function GetLtk(c: string): string {
    GetLtkScan(Kinds(Lines(c)), 0, false)
  }

  lemma {:induction false} GetLtkScanFinds(ks: seq<LineKind>, i: nat, inLtk: bool, m: int)
    requires i <= m < |ks|
    requires inLtk <==> AfterHeader(ks, i)
    requires IsKeyLine(ks, m)
    requires forall k :: i <= k < m ==> !IsKeyLine(ks, k)
    ensures GetLtkScan(ks, i, inLtk) == ks[m].rest
    decreases |ks| - i
  {
    AfterHeaderStep(ks, i);
    if ks[i].Header? {
      GetLtkScanFinds(ks, i + 1, true, m);
    } else if ks[i].KeyEntry? && inLtk {
      assert IsKeyLine(ks, i);
    } else {
      assert !IsKeyLine(ks, i);
      GetLtkScanFinds(ks, i + 1, inLtk, m);
    }
  }

  lemma {:induction false} GetLtkScanNone(ks: seq<LineKind>, i: nat, inLtk: bool)
    requires i <= |ks|
    requires inLtk <==> AfterHeader(ks, i)
    requires forall k :: i <= k < |ks| ==> !IsKeyLine(ks, k)
    ensures GetLtkScan(ks, i, inLtk) == ""
    decreases |ks| - i
  {
    if i < |ks| {
      AfterHeaderStep(ks, i);
      if ks[i].Header? {
        GetLtkScanNone(ks, i + 1, true);
      } else {
        assert !IsKeyLine(ks, i);
        GetLtkScanNone(ks, i + 1, inLtk);
      }
    }
  }

  /** `get_ltk` returns the rest of the first key line after a header. */
  lemma GetLtkFinds(c: string, m: int)
    requires IsFirstKeyLine(Kinds(Lines(c)), m)
    ensures StartsWith(Lines(c)[m], "Key=")
    ensures GetLtk(c) == Lines(c)[m][4..]
  {
    GetLtkScanFinds(Kinds(Lines(c)), 0, false, m);
  }

  /** `get_ltk` returns "" when no line is a key line after a header. */
  lemma GetLtkNone(c: string)
    requires forall k :: 0 <= k < |Lines(c)| ==> !IsKeyLine(Kinds(Lines(c)), k)
    ensures GetLtk(c) == ""
  {
    GetLtkScanNone(Kinds(Lines(c)), 0, false);
  }

  /** When some key line exists, a first one does. */
  lemma {:induction false} FirstKeyLineExists(ks: seq<LineKind>, i: int)
    requires IsKeyLine(ks, i)
    ensures exists m :: IsFirstKeyLine(ks, m)
    decreases i
  {
    if !IsFirstKeyLine(ks, i) {
      var m :| 0 <= m < i && IsKeyLine(ks, m);
      FirstKeyLineExists(ks, m);
    }
  }

  // ----- fmt_mac -----

  /** `as_bytes().chunks(2)` on ASCII text: pairs of characters, the last one possibly single. */
  function Chunks(s: string): (r: seq<string>)
    decreases |s|
  {
    if |s| == 0 then [] else if |s| <= 2 then [s] else [s[..2]] + Chunks(s[2..])
  }

  /** Each chunk upper-cased. */
  function UpperEach(parts: seq<string>): (r: seq<string>)
    ensures |r| == |parts|
    ensures forall k :: 0 <= k < |r| ==> r[k] == Upper(parts[k])
  {
    seq(|parts|, k requires 0 <= k < |parts| => Upper(parts[k]))
  }

  /**
   `fmt_mac` of src/bluetooth.rs: the name cut into two-character chunks,
   each upper-cased, joined by `:`. Every third character is a colon and the
   others are the input's characters upper-cased, in order; an odd-length
   name ends in a one-character chunk.
   */
  function FmtMac(mac: string): (r: string)
    requires IsAscii(mac)
    ensures |mac| == 0 ==> r == ""
    ensures |mac| > 0 ==> |r| == |mac| + (|mac| + 1) / 2 - 1
    ensures forall i :: 0 <= i < |r| ==>
      r[i] == if i % 3 == 2 then ':' else UpperChar(mac[2 * (i / 3) + i % 3])
  {
    FmtMacShape(mac);
    Join(UpperEach(Chunks(mac)), ":")
  }

  /** `r` is `mac` formatted: colons at every third place, upper-cased characters between. */
  ghost predicate Formatted(mac: string, r: string) {
    && (|mac| == 0 ==> r == "")
    && (|mac| > 0 ==> |r| == |mac| + (|mac| + 1) / 2 - 1)
    && forall i :: 0 <= i < |r| ==>
      r[i] == if i % 3 == 2 then ':' else UpperChar(mac[2 * (i / 3) + i % 3])
  }

  lemma {:induction false} FmtMacShape(mac: string)
    ensures Formatted(mac, Join(UpperEach(Chunks(mac)), ":"))
    decreases |mac|
  {
    if |mac| > 2 {
      var rest := mac[2..];
      FmtMacShape(rest);
      var rr := Join(UpperEach(Chunks(rest)), ":");
      assert Chunks(mac) == [mac[..2]] + Chunks(rest);
      assert UpperEach(Chunks(mac)) == [Upper(mac[..2])] + UpperEach(Chunks(rest));
      assert |Chunks(rest)| > 0;
      assert Join(UpperEach(Chunks(mac)), ":") == Upper(mac[..2]) + ":" + rr;
      FormattedCons(mac, rr);
    } else if |mac| > 0 {
      assert Chunks(mac) == [mac];
      assert UpperEach(Chunks(mac)) == [Upper(mac)];
      assert Join(UpperEach(Chunks(mac)), ":") == Upper(mac);
      FormattedShort(mac);
    } else {
      assert Join(UpperEach(Chunks(mac)), ":") == "";
    }
  }

  /** One chunk is the chunk upper-cased. */
  lemma FormattedShort(mac: string)
    requires 0 < |mac| <= 2
    ensures Formatted(mac, Upper(mac))
  {
    var r := Upper(mac);
    forall i | 0 <= i < |r|
      ensures r[i] == if i % 3 == 2 then ':' else UpperChar(mac[2 * (i / 3) + i % 3])
    {
      assert i / 3 == 0 && i % 3 == i;
    }
  }

  /** Two characters, a colon, then the rest formatted, is the whole formatted. */
  lemma FormattedCons(mac: string, rr: string)
    requires |mac| > 2 && Formatted(mac[2..], rr)
    ensures Formatted(mac, Upper(mac[..2]) + ":" + rr)
  {
    var r := Upper(mac[..2]) + ":" + rr;
    forall i | 0 <= i < |r|
      ensures r[i] == if i % 3 == 2 then ':' else UpperChar(mac[2 * (i / 3) + i % 3])
    {
      if i >= 3 {
        assert r[i] == rr[i - 3];
        assert (i - 3) / 3 == i / 3 - 1 && (i - 3) % 3 == i % 3;
      }
    }
  }

  // ----- update_bt_info -----

  /** `line.splitn(2, '=').next()`: the text before the first `=`, or the whole line. */
  function FieldName(line: string): (r: string)
    ensures |r| <= |line| && r == line[..|r|]
    ensures '=' !in r
    ensures |r| < |line| ==> line[|r|] == '='
  {
    if |line| == 0 || line[0] == '=' then "" else [line[0]] + FieldName(line[1..])
  }

  /** The replacement `update_bt_info` makes for a line of the `[LongTermKey]` section. */
  function ReplaceField(line: string, info: BtDeviceInfo): string {
    var f := FieldName(line);
    if f == "Key" then "Key=" + info.ltk
    else if f == "EDiv" then "EDiv=" + info.ediv
    else if f == "Rand" then "Rand=" + info.erand
    else line
  }

  /**
   Line `i` lies in the section `update_bt_info` rewrites: the last line at or
   before it that starts with `[` is exactly `[LongTermKey]`.
   */
  ghost predicate InLtkSection(ls: seq<string>, i: int) {
    exists j :: 0 <= j <= i < |ls| && ls[j] == LtkHeader
      && forall m :: j < m <= i ==> !StartsWith(ls[m], "[")
  }

  /** How the section state moves from one line to the next. */
  lemma {:induction false} SectionStep(ls: seq<string>, i: int)
    requires 0 <= i < |ls|
    ensures StartsWith(ls[i], "[") ==> (InLtkSection(ls, i) <==> ls[i] == LtkHeader)
    ensures !StartsWith(ls[i], "[") ==> (InLtkSection(ls, i) <==> i > 0 && InLtkSection(ls, i - 1))
  {
    if StartsWith(ls[i], "[") && ls[i] == LtkHeader {
      assert InLtkSection(ls, i);
    }
    if !StartsWith(ls[i], "[") && i > 0 && InLtkSection(ls, i - 1) {
      var j :| 0 <= j <= i - 1 < |ls| && ls[j] == LtkHeader
        && forall m :: j < m <= i - 1 ==> !StartsWith(ls[m], "[");
      assert InLtkSection(ls, i);
    }
    if !StartsWith(ls[i], "[") && InLtkSection(ls, i) {
      var j :| 0 <= j <= i < |ls| && ls[j] == LtkHeader
        && forall m :: j < m <= i ==> !StartsWith(ls[m], "[");
      assert j != i;
      assert InLtkSection(ls, i - 1);
    }
  }

  /** The line-by-line state machine of `update_bt_info`, from line `i` on. */
  function SectionLines(ls: seq<string>, i: nat, inLtk: bool, info: BtDeviceInfo): (r: seq<string>)
    requires i <= |ls|
    requires inLtk <==> (i > 0 && InLtkSection(ls, i - 1))
    ensures |r| == |ls| - i
    ensures forall k :: 0 <= k < |r| ==>
      r[k] == if InLtkSection(ls, i + k) then ReplaceField(ls[i + k], info) else ls[i + k]
    decreases |ls| - i
  {
    if i == |ls| then
      []
    else
      var now := if StartsWith(ls[i], "[") then ls[i] == LtkHeader else inLtk;
      SectionStep(ls, i);
      var rest := SectionLines(ls, i + 1, now, info);
      SectionCons(ls, i, info, now, rest);
      [if now then ReplaceField(ls[i], info) else ls[i]] + rest
  }

  /** `r` holds the lines of `ls` from `i` on, rewritten where they lie in the section. */
  ghost predicate SectionOut(ls: seq<string>, i: nat, info: BtDeviceInfo, r: seq<string>) {
    && |r| == |ls| - i
    && forall k :: 0 <= k < |r| ==>
      r[k] == if InLtkSection(ls, i + k) then ReplaceField(ls[i + k], info) else ls[i + k]
  }

  lemma SectionCons(ls: seq<string>, i: nat, info: BtDeviceInfo, now: bool, rest: seq<string>)
    requires i < |ls| && (now <==> InLtkSection(ls, i))
    requires SectionOut(ls, i + 1, info, rest)
    ensures SectionOut(ls, i, info, [if now then ReplaceField(ls[i], info) else ls[i]] + rest)
  {
    var r := [if now then ReplaceField(ls[i], info) else ls[i]] + rest;
    forall k | 0 <= k < |r|
      ensures r[k] == if InLtkSection(ls, i + k) then ReplaceField(ls[i + k], info) else ls[i + k]
    {
      if k > 0 {
        SectionTail(ls, i, info, rest, r, k);
      }
    }
  }

  lemma SectionTail(ls: seq<string>, i: nat, info: BtDeviceInfo, rest: seq<string>, r: seq<string>, k: nat)
    requires SectionOut(ls, i + 1, info, rest) && |r| == |rest| + 1 && r[1..] == rest && 0 < k < |r|
    ensures r[k] == if InLtkSection(ls, i + k) then ReplaceField(ls[i + k], info) else ls[i + k]
  {
    assert r[k] == rest[k - 1];
    assert i + 1 + (k - 1) == i + k;
  }

  /** The device record's fields hold no line break. */
  predicate SingleLine(info: BtDeviceInfo) {
    NoneContain([info.mac, info.ltk, info.erand, info.ediv], '\n')
      && NoneContain([info.mac, info.ltk, info.erand, info.ediv], '\r')
  }

  /** Every line `ReplaceField` produces from a line-break-free line is line-break free. */
  lemma ReplaceFieldSingleLine(line: string, info: BtDeviceInfo)
    requires SingleLine(info) && '\n' !in line && '\r' !in line
    ensures var r := ReplaceField(line, info); '\n' !in r && '\r' !in r
  {
    assert info.ltk == [info.mac, info.ltk, info.erand, info.ediv][1];
    assert info.erand == [info.mac, info.ltk, info.erand, info.ediv][2];
    assert info.ediv == [info.mac, info.ltk, info.erand, info.ediv][3];
  }

  /**
   `update_bt_info`: every line of `c` is written back followed by a line
   feed; inside the `[LongTermKey]` section the `Key`, `EDiv` and `Rand`
   lines take the record's values.
   */
  function UpdateBtInfo(c: string, info: BtDeviceInfo): (r: string)
    ensures c == "" ==> r == ""
    ensures c != "" ==> |r| > 0 && r[|r| - 1] == '\n'
  {
    UpdateBtInfoShape(c, info);
    Terminate(SectionLines(Lines(c), 0, false, info))
  }

  /**
   Read back line by line, the output of `update_bt_info` has the input's
   lines, with the section's `Key`, `EDiv` and `Rand` lines replaced and
   every other line as it was, each followed by a line feed.
   */
  lemma UpdateBtInfoLines(c: string, info: BtDeviceInfo)
    requires '\r' !in c && SingleLine(info)
    ensures var r := UpdateBtInfo(c, info); var ls := Lines(c);
      && |Lines(r)| == |ls|
      && (forall i :: 0 <= i < |ls| ==>
           Lines(r)[i] == if InLtkSection(ls, i) then ReplaceField(ls[i], info) else ls[i])
      && r == Terminate(Lines(r))
  {
    UpdateBtInfoShape(c, info);
  }

  lemma {:induction false} UpdateBtInfoShape(c: string, info: BtDeviceInfo)
    ensures var r := Terminate(SectionLines(Lines(c), 0, false, info));
      && (c == "" ==> r == "")
      && (c != "" ==> |r| > 0 && r[|r| - 1] == '\n')
      && ('\r' !in c && SingleLine(info) ==> Lines(r) == SectionLines(Lines(c), 0, false, info))
  {
    var ls := Lines(c);
    var out := SectionLines(ls, 0, false, info);
    if c != "" {
      NonEmptyHasLines(c);
    }
    if '\r' !in c && SingleLine(info) {
      LinesKeepOutCr(c);
      forall i | 0 <= i < |out| ensures '\n' !in out[i] && '\r' !in out[i] {
        ReplaceFieldSingleLine(ls[i], info);
      }
      LinesOfTerminate(out);
    }
  }

  /** A rewritten line starts with `[` exactly when the original does, and such lines are never rewritten. */
  lemma ReplaceFieldKeepsBracket(line: string, info: BtDeviceInfo)
    ensures StartsWith(ReplaceField(line, info), "[") <==> StartsWith(line, "[")
    ensures StartsWith(line, "[") ==> ReplaceField(line, info) == line
  {
    var f := FieldName(line);
    if f == "Key" || f == "EDiv" || f == "Rand" {
      assert line[0] == f[0];
    }
  }

  /** Rewriting a rewritten line changes nothing more. */
  lemma ReplaceFieldTwice(line: string, info: BtDeviceInfo)
    ensures ReplaceField(ReplaceField(line, info), info) == ReplaceField(line, info)
  {
    var f := FieldName(line);
    if f == "Key" {
      var r := "Key=" + info.ltk;
      assert r[3] == '=' && r[..3] == "Key";
      assert FieldName(r) == "Key";
    } else if f == "EDiv" {
      var r := "EDiv=" + info.ediv;
      assert r[4] == '=' && r[..4] == "EDiv";
      assert FieldName(r) == "EDiv";
    } else if f == "Rand" {
      var r := "Rand=" + info.erand;
      assert r[4] == '=' && r[..4] == "Rand";
      assert FieldName(r) == "Rand";
    }
  }

  /**
   Two files whose lines agree on which start with `[`, and agree wherever
   they do, have the same `[LongTermKey]` section.
   */
  lemma {:induction false} SectionAgree(a: seq<string>, b: seq<string>, i: int)
    requires |a| == |b| && 0 <= i < |a|
    requires forall k :: 0 <= k < |a| ==> (StartsWith(a[k], "[") <==> StartsWith(b[k], "["))
    requires forall k :: 0 <= k < |a| && StartsWith(a[k], "[") ==> a[k] == b[k]
    ensures InLtkSection(a, i) <==> InLtkSection(b, i)
    decreases i
  {
    SectionStep(a, i);
    SectionStep(b, i);
    if i > 0 {
      SectionAgree(a, b, i - 1);
    }
  }

  /** `update_bt_info` applied to its own output changes nothing. */
  lemma UpdateBtInfoIdempotent(c: string, info: BtDeviceInfo)
    requires '\r' !in c && SingleLine(info)
    ensures UpdateBtInfo(UpdateBtInfo(c, info), info) == UpdateBtInfo(c, info)
  {
    var ls := Lines(c);
    var r := UpdateBtInfo(c, info);
    var out := Lines(r);
    UpdateBtInfoLines(c, info);
    LinesKeepOutCr(c);
    forall k | 0 <= k < |out| ensures '\r' !in out[k] && (StartsWith(ls[k], "[") <==> StartsWith(out[k], "["))
      && (StartsWith(ls[k], "[") ==> ls[k] == out[k])
    {
      ReplaceFieldSingleLine(ls[k], info);
      ReplaceFieldKeepsBracket(ls[k], info);
    }
    TerminateKeepsOut(out, '\r');
    var r2 := UpdateBtInfo(r, info);
    UpdateBtInfoLines(r, info);
    forall k | 0 <= k < |out| ensures Lines(r2)[k] == out[k] {
      SectionAgree(out, ls, k);
      ReplaceFieldTwice(ls[k], info);
    }
    assert Lines(r2) == out;
  }

  /** Rewriting never makes or unmakes a header line. */
  lemma ReplaceFieldKeepsHeader(line: string, info: BtDeviceInfo)
    ensures IsHeader(ReplaceField(line, info)) <==> IsHeader(line)
  {
    var f := FieldName(line);
    var r := ReplaceField(line, info);
    if r != line {
      assert line[0] == f[0] && r[0] == f[0];
      assert f[0] == 'K' || f[0] == 'E' || f[0] == 'R';
      if IsHeader(line) {
        HeaderFirstChar(line);
      }
      if IsHeader(r) {
        HeaderFirstChar(r);
      }
    }
  }

  /** A rewritten line that starts with `Key=` is the record's key line. */
  lemma ReplaceFieldKeyEntry(line: string, info: BtDeviceInfo)
    requires StartsWith(ReplaceField(line, info), "Key=")
    ensures ReplaceField(line, info) == "Key=" + info.ltk
  {
    var f := FieldName(line);
    var r := ReplaceField(line, info);
    assert r[0] == 'K' && r[1] == 'e' && r[2] == 'y' && r[3] == '=';
    assert f == "Key";
  }

  /** A line starting with `Key=` is named `Key`. */
  lemma KeyLineField(line: string)
    requires StartsWith(line, "Key=")
    ensures FieldName(line) == "Key"
  {
    assert line[3] == '=' && line[..3] == "Key";
  }

  /** Rewriting never makes or unmakes a header line, and every key line it makes is the record's. */
  lemma KindOfReplaceField(line: string, info: BtDeviceInfo)
    ensures KindOf(ReplaceField(line, info)).Header? <==> KindOf(line).Header?
    ensures KindOf(ReplaceField(line, info)).KeyEntry? ==> KindOf(ReplaceField(line, info)) == KeyEntry(info.ltk)
    ensures KindOf(line).KeyEntry? ==> KindOf(ReplaceField(line, info)) == KeyEntry(info.ltk)
  {
    var r := ReplaceField(line, info);
    ReplaceFieldKeepsHeader(line, info);
    if StartsWith(r, "Key=") {
      ReplaceFieldKeyEntry(line, info);
    }
    if StartsWith(line, "Key=") {
      KeyLineField(line);
    }
  }

  lemma HeaderIsHeader()
    ensures IsHeader(LtkHeader)
  {
    var h := LtkHeader;
    assert h[0] == '[' && h[|h| - 1] == ']';
    assert !IsWhitespace(h[0]) && !IsWhitespace(h[|h| - 1]);
    TrimPlain(h);
  }

  /** Header lines are in the same places in two files whose lines agree on being headers. */
  lemma AfterHeaderAgree(a: seq<LineKind>, b: seq<LineKind>, i: int)
    requires |a| == |b|
    requires forall k :: 0 <= k < |a| ==> (a[k].Header? <==> b[k].Header?)
    ensures AfterHeader(a, i) <==> AfterHeader(b, i)
  {
    if AfterHeader(a, i) {
      var j :| 0 <= j < i && j < |a| && a[j].Header?;
      assert b[j].Header?;
    }
    if AfterHeader(b, i) {
      var j :| 0 <= j < i && j < |b| && b[j].Header?;
      assert a[j].Header?;
    }
  }

  /**
   The key read back from a rewritten file: `ks2` has its headers where `ks`
   has them, copies `ks` outside the section `sec`, holds only the key
   `ltk` on key lines inside it, and the first key line `m` of `ks` lies
   inside it.
   */
  lemma FirstKeyAfterRewrite(ks: seq<LineKind>, ks2: seq<LineKind>, sec: seq<bool>, m: int, ltk: string)
    requires |ks| == |ks2| == |sec|
    requires forall k :: 0 <= k < |ks| ==> (ks2[k].Header? <==> ks[k].Header?)
    requires forall k :: 0 <= k < |ks| && sec[k] && ks2[k].KeyEntry? ==> ks2[k] == KeyEntry(ltk)
    requires forall k :: 0 <= k < |ks| && !sec[k] ==> ks2[k] == ks[k]
    requires IsFirstKeyLine(ks, m) && sec[m] && ks2[m] == KeyEntry(ltk)
    ensures GetLtkScan(ks2, 0, false) == ltk
  {
    AfterHeaderAgree(ks, ks2, m);
    assert IsKeyLine(ks2, m);
    FirstKeyLineExists(ks2, m);
    var j :| IsFirstKeyLine(ks2, j);
    assert j <= m;
    AfterHeaderAgree(ks, ks2, j);
    if !sec[j] {
      assert IsKeyLine(ks, j);
    }
    GetLtkScanFinds(ks2, 0, false, j);
  }

  /** The first key line lies in the section opened by the first header when no `[` line comes between. */
  lemma FirstKeyInSection(ls: seq<string>, h: int, m: int)
    requires 0 <= h < |ls| && ls[h] == LtkHeader
    requires forall j :: 0 <= j < h ==> !IsHeader(ls[j])
    requires IsFirstKeyLine(Kinds(ls), m)
    requires forall j :: h < j <= m ==> !StartsWith(ls[j], "[")
    ensures InLtkSection(ls, m)
  {
    var ks := Kinds(ls);
    HeaderIsHeader();
    var j0 :| 0 <= j0 < m && j0 < |ks| && ks[j0].Header?;
    assert h <= j0;
  }

  /** How the kind of line `k` changes under `update_bt_info`. */
  lemma KindAfterUpdate(c: string, info: BtDeviceInfo, k: int)
    requires '\r' !in c && SingleLine(info) && 0 <= k < |Lines(c)|
    ensures |Lines(UpdateBtInfo(c, info))| == |Lines(c)|
    ensures var ks := Kinds(Lines(c)); var ks2 := Kinds(Lines(UpdateBtInfo(c, info)));
      && (ks2[k].Header? <==> ks[k].Header?)
      && (InLtkSection(Lines(c), k) && ks2[k].KeyEntry? ==> ks2[k] == KeyEntry(info.ltk))
      && (InLtkSection(Lines(c), k) && ks[k].KeyEntry? ==> ks2[k] == KeyEntry(info.ltk))
      && (!InLtkSection(Lines(c), k) ==> ks2[k] == ks[k])
  {
    var ls := Lines(c);
    var out := Lines(UpdateBtInfo(c, info));
    UpdateBtInfoLines(c, info);
    assert out[k] == if InLtkSection(ls, k) then ReplaceField(ls[k], info) else ls[k];
    KindOfReplaceField(ls[k], info);
  }

  /** The kinds of all lines under `update_bt_info`, with `sec` marking the section. */
  lemma KindsAfterUpdate(c: string, info: BtDeviceInfo, sec: seq<bool>)
    requires '\r' !in c && SingleLine(info)
    requires |sec| == |Lines(c)| && forall k :: 0 <= k < |sec| ==> (sec[k] <==> InLtkSection(Lines(c), k))
    ensures var ks := Kinds(Lines(c)); var ks2 := Kinds(Lines(UpdateBtInfo(c, info)));
      && |ks2| == |ks|
      && (forall k :: 0 <= k < |ks| ==> (ks2[k].Header? <==> ks[k].Header?))
      && (forall k :: 0 <= k < |ks| && sec[k] && ks2[k].KeyEntry? ==> ks2[k] == KeyEntry(info.ltk))
      && (forall k :: 0 <= k < |ks| && !sec[k] ==> ks2[k] == ks[k])
  {
    var ks := Kinds(Lines(c));
    var ks2 := Kinds(Lines(UpdateBtInfo(c, info)));
    UpdateBtInfoLines(c, info);
    forall k | 0 <= k < |ks|
      ensures (ks2[k].Header? <==> ks[k].Header?)
      ensures sec[k] && ks2[k].KeyEntry? ==> ks2[k] == KeyEntry(info.ltk)
      ensures !sec[k] ==> ks2[k] == ks[k]
    {
      KindAfterUpdate(c, info, k);
    }
  }

  /**
   Reading the key back after `update_bt_info` gives the record's key, when
   the first header line is exactly `[LongTermKey]` and the first key line
   after it comes before the next line starting with `[`.
   */
  lemma GetLtkOfUpdateBtInfo(c: string, info: BtDeviceInfo, h: int, m: int)
    requires '\r' !in c && SingleLine(info)
    requires 0 <= h < |Lines(c)| && Lines(c)[h] == LtkHeader
    requires forall j :: 0 <= j < h ==> !IsHeader(Lines(c)[j])
    requires IsFirstKeyLine(Kinds(Lines(c)), m)
    requires forall j :: h < j <= m ==> !StartsWith(Lines(c)[j], "[")
    ensures GetLtk(UpdateBtInfo(c, info)) == info.ltk
  {
    var ls := Lines(c);
    var sec := seq(|ls|, k requires 0 <= k < |ls| => InLtkSection(ls, k));
    FirstKeyInSection(ls, h, m);
    KindsAfterUpdate(c, info, sec);
    KindAfterUpdate(c, info, m);
    var ks := Kinds(ls);
    var ks2 := Kinds(Lines(UpdateBtInfo(c, info)));
    FirstKeyAfterRewrite(ks, ks2, sec, m, info.ltk);
  }

  // ----- read_device_info -----

  /** The text after `Name=` on the first piece starting with it, or None when no piece does. */
  function NameIn(pieces: seq<string>): Option<string> {
    match FirstWithPrefix(pieces, "Name=", 0)
    case None => None
    case Some(i) => Some(pieces[i][5..])
  }

  /** The name is absent exactly when no piece starts with `Name=`, and otherwise comes from the first that does. */
  lemma NameInFirst(pieces: seq<string>)
    ensures NameIn(pieces).None? <==> forall i :: 0 <= i < |pieces| ==> !StartsWith(pieces[i], "Name=")
    ensures NameIn(pieces).Some? ==> exists i :: (0 <= i < |pieces| && StartsWith(pieces[i], "Name=")
      && NameIn(pieces).value == pieces[i][5..] && (forall k :: 0 <= k < i ==> !StartsWith(pieces[k], "Name=")))
  {
  }

  /**
   The match of `(?m)^Name=(.*)$` in `read_device_info`: the rest of the
   first line, cut at line feeds only, that starts with `Name=`. The capture
   keeps a trailing carriage return, as `.` and `$` do not stop at one.
   */
  function ReadDeviceName(content: string): Option<string> {
    NameIn(Split(content, '\n'))
  }

  /** Pieces that agree on their `Name=` lines, with only non-`Name=` pieces after, give the same name. */
  lemma NameInAgree(a: seq<string>, b: seq<string>)
    requires |a| <= |b|
    requires forall i :: 0 <= i < |a| ==> (StartsWith(a[i], "Name=") <==> StartsWith(b[i], "Name="))
    requires forall i :: 0 <= i < |a| && StartsWith(a[i], "Name=") ==> a[i] == b[i]
    requires forall i :: |a| <= i < |b| ==> !StartsWith(b[i], "Name=")
    ensures NameIn(a) == NameIn(b)
  {
    var fa := FirstWithPrefix(a, "Name=", 0);
    var fb := FirstWithPrefix(b, "Name=", 0);
    if fa.Some? {
      assert fb.Some? && fb.value == fa.value;
    } else {
      assert fb.None?;
    }
  }

  /** Rewriting keeps `Name=` lines and makes no new ones. */
  lemma ReplaceFieldKeepsName(line: string, info: BtDeviceInfo)
    ensures StartsWith(ReplaceField(line, info), "Name=") <==> StartsWith(line, "Name=")
    ensures StartsWith(line, "Name=") ==> ReplaceField(line, info) == line
  {
    var f := FieldName(line);
    var r := ReplaceField(line, info);
    if r != line {
      assert line[0] == f[0] && r[0] == f[0];
      assert f[0] != 'N';
    }
  }

  /** Without carriage returns, the name is read from the lines. */
  lemma ReadDeviceNameOfLines(c: string)
    requires '\r' !in c
    ensures ReadDeviceName(c) == NameIn(Lines(c))
  {
    SplitOfLines(c);
    NameInPadded(Lines(c), Split(c, '\n'));
  }

  /** An empty piece after the lines changes no name. */
  lemma NameInPadded(ls: seq<string>, p: seq<string>)
    requires p == ls || p == ls + [""]
    ensures NameIn(p) == NameIn(ls)
  {
    if p != ls {
      assert forall i :: 0 <= i < |ls| ==> p[i] == ls[i];
      assert !StartsWith(p[|ls|], "Name=");
      NameInAgree(ls, p);
    }
  }

  /** The name of terminated lines is read from the lines. */
  lemma ReadDeviceNameOfTerminate(parts: seq<string>)
    requires NoneContain(parts, '\n')
    ensures ReadDeviceName(Terminate(parts)) == NameIn(parts)
  {
    SplitOfTerminate(parts);
    NameInAgree(parts, parts + [""]);
  }

  /** `update_bt_info` leaves the device name where `read_device_info` finds it. */
  lemma ReadDeviceNameOfUpdate(c: string, info: BtDeviceInfo)
    requires '\r' !in c && SingleLine(info)
    ensures ReadDeviceName(UpdateBtInfo(c, info)) == ReadDeviceName(c)
  {
    var ls := Lines(c);
    var r := UpdateBtInfo(c, info);
    var out := Lines(r);
    UpdateBtInfoLines(c, info);
    forall i | 0 <= i < |ls|
      ensures StartsWith(ls[i], "Name=") <==> StartsWith(out[i], "Name=")
      ensures StartsWith(ls[i], "Name=") ==> ls[i] == out[i]
    {
      ReplaceFieldKeepsName(ls[i], info);
    }
    NameInAgree(ls, out);
    ReadDeviceNameOfLines(c);
    ReadDeviceNameOfTerminate(out);
  }

  // ----- process_directories -----

  /** One entry of an adapter directory: its file name, whether it is a directory, and its `info` text. */
  datatype DeviceDir = DeviceDir(name: string, isDir: bool, info: string)

  /** One row of the update report: old directory name, new MAC, old key, new key. */
  datatype AuditEntry = AuditEntry(oldMac: string, newMac: string, oldLtk: string, newLtk: string)

  /** What one pass over an adapter directory leaves behind. */
  datatype Reconciled = Reconciled(dirs: seq<DeviceDir>, audit: map<string, AuditEntry>, hasUpdates: bool)

  /** `is_valid_device_directory`: a directory whose name contains a colon. */
  predicate IsValidDeviceDirectory(d: DeviceDir) {
    d.isDir && ':' in d.name
  }

  /** The display name a directory is matched by, when it is a candidate and its name has a record. */
  function MatchOf(d: DeviceDir, infos: map<string, BtDeviceInfo>): Option<string> {
    if IsValidDeviceDirectory(d) && ReadDeviceName(d.info).Some? && ReadDeviceName(d.info).value in infos
    then Some(ReadDeviceName(d.info).value)
    else None
  }

  /** The directory after `update_device_info`: `info` rewritten, renamed to the record's MAC. */
  function UpdatedDir(d: DeviceDir, info: BtDeviceInfo): DeviceDir {
    DeviceDir(info.mac, d.isDir, UpdateBtInfo(d.info, info))
  }

  /** The report row `update_device_info` records. */
  function AuditOf(d: DeviceDir, info: BtDeviceInfo): AuditEntry {
    AuditEntry(d.name, info.mac, GetLtk(d.info), info.ltk)
  }

  /** A directory after the pass: updated when matched, untouched otherwise. */
  function AfterPass(d: DeviceDir, infos: map<string, BtDeviceInfo>): DeviceDir {
    match MatchOf(d, infos)
    case None => d
    case Some(n) => UpdatedDir(d, infos[n])
  }

  /** The match of every entry. */
  function Matches(dirs: seq<DeviceDir>, infos: map<string, BtDeviceInfo>): (ms: seq<Option<string>>)
    ensures |ms| == |dirs|
    ensures forall i :: 0 <= i < |dirs| ==> ms[i] == MatchOf(dirs[i], infos)
  {
    seq(|dirs|, i requires 0 <= i < |dirs| => MatchOf(dirs[i], infos))
  }

  /** True if some entry matched. */
  function AnyMatch(ms: seq<Option<string>>): (r: bool)
    ensures r <==> exists i :: 0 <= i < |ms| && ms[i].Some?
  {
    if |ms| == 0 then false
    else
      assert forall i :: 0 <= i < |ms| - 1 ==> ms[..|ms| - 1][i] == ms[i];
      ms[|ms| - 1].Some? || AnyMatch(ms[..|ms| - 1])
  }

  /**
   `process_directories` over the entries in the order the directory listing
   gives them: every entry is handled on its own, a matched directory getting
   its `info` rewritten and its name changed to the record's MAC, any other
   entry left as it is; there are updates exactly when some entry matched.
   */
  function ProcessDirectories(dirs: seq<DeviceDir>, infos: map<string, BtDeviceInfo>): (r: Reconciled)
    ensures |r.dirs| == |dirs|
    ensures forall i :: 0 <= i < |dirs| && MatchOf(dirs[i], infos).None? ==> r.dirs[i] == dirs[i]
    ensures forall i :: 0 <= i < |dirs| && MatchOf(dirs[i], infos).Some? ==>
      r.dirs[i] == UpdatedDir(dirs[i], infos[MatchOf(dirs[i], infos).value])
    ensures r.hasUpdates <==> exists i :: 0 <= i < |dirs| && MatchOf(dirs[i], infos).Some?
  {
    var ms := Matches(dirs, infos);
    Reconciled(seq(|dirs|, i requires 0 <= i < |dirs| => AfterPass(dirs[i], infos)),
      LastWins(map[], ms, Rows(dirs, infos)), AnyMatch(ms))
  }

  /** The report row of every entry (a placeholder for an entry that did not match). */
  function Rows(dirs: seq<DeviceDir>, infos: map<string, BtDeviceInfo>): (rows: seq<AuditEntry>)
    ensures |rows| == |dirs|
    ensures forall i :: 0 <= i < |dirs| && MatchOf(dirs[i], infos).Some? ==>
      rows[i] == AuditOf(dirs[i], infos[MatchOf(dirs[i], infos).value])
  {
    seq(|dirs|, i requires 0 <= i < |dirs| =>
      match MatchOf(dirs[i], infos)
      case None => AuditEntry("", "", "", "")
      case Some(n) => AuditOf(dirs[i], infos[n]))
  }

  /**
   The report of `process_directories` has a row for exactly the display
   names some directory matched, and the row under such a name describes
   the last directory matched by it.
   */
  lemma ProcessDirectoriesAudit(dirs: seq<DeviceDir>, infos: map<string, BtDeviceInfo>)
    ensures var audit := ProcessDirectories(dirs, infos).audit;
      forall n :: n in audit <==> exists i :: 0 <= i < |dirs| && MatchOf(dirs[i], infos) == Some(n)
    ensures var audit := ProcessDirectories(dirs, infos).audit;
      forall n, i :: LastAt(Matches(dirs, infos), n, i) ==>
        n in infos && n in audit && audit[n] == AuditOf(dirs[i], infos[n])
  {
    AuditIsFold(dirs, infos);
    AuditDomain(dirs, infos);
    AuditLast(dirs, infos);
  }

  lemma AuditIsFold(dirs: seq<DeviceDir>, infos: map<string, BtDeviceInfo>)
    ensures ProcessDirectories(dirs, infos).audit == LastWins(map[], Matches(dirs, infos), Rows(dirs, infos))
  {
  }

  lemma AuditDomain(dirs: seq<DeviceDir>, infos: map<string, BtDeviceInfo>)
    ensures var audit := LastWins(map[], Matches(dirs, infos), Rows(dirs, infos));
      forall n :: n in audit <==> exists i :: 0 <= i < |dirs| && MatchOf(dirs[i], infos) == Some(n)
  {
    LastWinsDomain(map[], Matches(dirs, infos), Rows(dirs, infos));
  }

  lemma AuditLast(dirs: seq<DeviceDir>, infos: map<string, BtDeviceInfo>)
    ensures var audit := LastWins(map[], Matches(dirs, infos), Rows(dirs, infos));
      forall n, i :: LastAt(Matches(dirs, infos), n, i) ==>
        n in infos && n in audit && audit[n] == AuditOf(dirs[i], infos[n])
  {
    var ms := Matches(dirs, infos);
    var rows := Rows(dirs, infos);
    forall n, i | LastAt(ms, n, i)
      ensures n in infos && n in LastWins(map[], ms, rows) && LastWins(map[], ms, rows)[n] == AuditOf(dirs[i], infos[n])
    {
      LastWinsLast(map[], ms, rows, n, i);
    }
  }

  /** The contents a second pass can be trusted on: no carriage return anywhere, one-line record fields. */
  ghost predicate PlainInputs(dirs: seq<DeviceDir>, infos: map<string, BtDeviceInfo>) {
    && (forall i :: 0 <= i < |dirs| ==> '\r' !in dirs[i].info)
    && (forall n :: n in infos ==> SingleLine(infos[n]))
  }

  /** One directory handled twice ends where it did after the first time. */
  lemma AfterPassTwice(d: DeviceDir, infos: map<string, BtDeviceInfo>)
    requires '\r' !in d.info && forall n :: n in infos ==> SingleLine(infos[n])
    ensures AfterPass(AfterPass(d, infos), infos) == AfterPass(d, infos)
  {
    match MatchOf(d, infos)
    case None =>
    case Some(n) =>
      var info := infos[n];
      var d2 := UpdatedDir(d, info);
      ReadDeviceNameOfUpdate(d.info, info);
      UpdateBtInfoIdempotent(d.info, info);
      if IsValidDeviceDirectory(d2) {
        assert MatchOf(d2, infos) == Some(n);
      } else {
        assert MatchOf(d2, infos) == None;
      }
  }

  /**
   Running `process_directories` again with the same records over what the
   first run left behind changes no directory: every rewritten directory
   keeps its display name and its rewritten `info` is a fixed point.
   */
  lemma ProcessDirectoriesTwice(dirs: seq<DeviceDir>, infos: map<string, BtDeviceInfo>)
    requires PlainInputs(dirs, infos)
    ensures var once := ProcessDirectories(dirs, infos).dirs;
      ProcessDirectories(once, infos).dirs == once
  {
    var once := ProcessDirectories(dirs, infos).dirs;
    var twice := ProcessDirectories(once, infos).dirs;
    forall i | 0 <= i < |dirs| ensures twice[i] == once[i] {
      AfterPassTwice(dirs[i], infos);
    }
  }

  /** What `process_bth_device` does for one adapter directory. */
  datatype BthOutcome = BthOutcome(dirs: seq<DeviceDir>, report: Option<map<string, AuditEntry>>, restart: bool)

  /**
   `process_bth_device`: without updates nothing is reported and the
   service is not restarted; otherwise the report is shown and the
   service restarted.
   */
  function ProcessBthDevice(dirs: seq<DeviceDir>, infos: map<string, BtDeviceInfo>): (r: BthOutcome)
    ensures r.restart <==> exists i :: 0 <= i < |dirs| && MatchOf(dirs[i], infos).Some?
    ensures r.report.Some? <==> r.restart
    ensures r.dirs == ProcessDirectories(dirs, infos).dirs
    ensures r.restart ==> r.report == Some(ProcessDirectories(dirs, infos).audit)
  {
    var p := ProcessDirectories(dirs, infos);
    if !p.hasUpdates then BthOutcome(p.dirs, None, false)
    else BthOutcome(p.dirs, Some(p.audit), true)
  }

  /** An adapter directory that does not restart the service was left exactly as it was. */
  lemma NoRestartNoChange(dirs: seq<DeviceDir>, infos: map<string, BtDeviceInfo>)
    ensures !ProcessBthDevice(dirs, infos).restart ==> ProcessBthDevice(dirs, infos).dirs == dirs
  {
    var r := ProcessBthDevice(dirs, infos);
    if !r.restart {
      assert forall i :: 0 <= i < |dirs| ==> MatchOf(dirs[i], infos).None?;
      assert r.dirs == dirs;
    }
  }

  /** One entry of the Bluetooth state directory: an adapter, with its device entries. */
  datatype Adapter = Adapter(name: string, isDir: bool, devices: seq<DeviceDir>)

  /** What `process_bluetooth_devices` leaves behind: the adapters, and whether each restarted the service. */
  datatype BtRun = BtRun(adapters: seq<Adapter>, restarted: seq<bool>)

  /** One adapter entry after its pass: a directory is processed, any other entry skipped. */
  function AdapterPass(a: Adapter, infos: map<string, BtDeviceInfo>): Adapter {
    if a.isDir then Adapter(a.name, a.isDir, ProcessBthDevice(a.devices, infos).dirs) else a
  }

  /**
   `process_bluetooth_devices` with the records already read: with no
   record nothing happens at all; otherwise every adapter directory is
   processed in turn, and each one with an update restarts the service.
   */
  function ProcessBluetoothDevices(adapters: seq<Adapter>, infos: map<string, BtDeviceInfo>): (r: BtRun)
    ensures |r.adapters| == |adapters| && |r.restarted| == |adapters|
    ensures |infos| == 0 ==> r.adapters == adapters && forall i :: 0 <= i < |adapters| ==> !r.restarted[i]
    ensures forall i :: 0 <= i < |adapters| ==> r.adapters[i].name == adapters[i].name
    ensures forall i :: 0 <= i < |adapters| && !adapters[i].isDir ==> r.adapters[i] == adapters[i] && !r.restarted[i]
    ensures forall i :: 0 <= i < |adapters| && |infos| > 0 && adapters[i].isDir ==>
      r.adapters[i] == Adapter(adapters[i].name, true, ProcessDirectories(adapters[i].devices, infos).dirs)
    ensures forall i :: 0 <= i < |adapters| && |infos| > 0 && adapters[i].isDir ==>
      (r.restarted[i] <==> exists j :: 0 <= j < |adapters[i].devices| && MatchOf(adapters[i].devices[j], infos).Some?)
  {
    if |infos| == 0 then BtRun(adapters, seq(|adapters|, i => false))
    else
      BtRun(seq(|adapters|, i requires 0 <= i < |adapters| => AdapterPass(adapters[i], infos)),
        seq(|adapters|, i requires 0 <= i < |adapters| =>
          adapters[i].isDir && ProcessBthDevice(adapters[i].devices, infos).restart))
  }

  /**
   With no record, or no matched device, a run leaves every adapter as it
   was and restarts nothing.
   */
  lemma QuietRun(adapters: seq<Adapter>, infos: map<string, BtDeviceInfo>)
    requires forall i, j :: 0 <= i < |adapters| && 0 <= j < |adapters[i].devices| ==>
      MatchOf(adapters[i].devices[j], infos).None?
    ensures ProcessBluetoothDevices(adapters, infos).adapters == adapters
    ensures forall i :: 0 <= i < |adapters| ==> !ProcessBluetoothDevices(adapters, infos).restarted[i]
  {
    var r := ProcessBluetoothDevices(adapters, infos);
    forall i | 0 <= i < |adapters| ensures r.adapters[i] == adapters[i] {
      NoRestartNoChange(adapters[i].devices, infos);
    }
  }
}
