/**
 The older entry points of src/lib.rs: `fmt_mac` by index steps,
 `update_ltk`, the LTK map of the first `parse_reg`, and the line filter of
 `list_ntfs_mounts`.
 */
module Lib {
  import opened Wrappers
  import opened Bytes
  import opened Text
  import opened Registry
  import opened Folds
  import opened Bluetooth
  import Hive

  // ----- update_ltk -----

  /** A key the rewritten line can hold without splitting it. */
  predicate PlainKey(ltk: string) {
    '\n' !in ltk && '\r' !in ltk
  }

  /** The closure `update_ltk` maps over the lines from `i` on, with `inLtk` its section flag so far. */
  function LtkScan(ls: seq<string>, ks: seq<LineKind>, ltk: string, i: nat, inLtk: bool): seq<string>
    requires |ks| == |ls| && i <= |ls|
    decreases |ls| - i
  {
    if i == |ls| then []
    else match ks[i]
      case Header => [ls[i]] + LtkScan(ls, ks, ltk, i + 1, true)
      case KeyEntry(_) => [if inLtk then "Key=" + ltk else ls[i]] + LtkScan(ls, ks, ltk, i + 1, inLtk)
      case Other => [ls[i]] + LtkScan(ls, ks, ltk, i + 1, inLtk)
  }

  lemma {:induction false} LtkScanLines(ls: seq<string>, ks: seq<LineKind>, ltk: string, i: nat, inLtk: bool)
    requires |ks| == |ls| && i <= |ls| && (inLtk <==> AfterHeader(ks, i))
    ensures ScanOut(ls, ks, ltk, i, LtkScan(ls, ks, ltk, i, inLtk))
    decreases |ls| - i
  {
    if i < |ls| {
      AfterHeaderStep(ks, i);
      var inLtk' := inLtk || ks[i].Header?;
      LtkScanLines(ls, ks, ltk, i + 1, inLtk');
      var r := LtkScan(ls, ks, ltk, i, inLtk);
      var rest := LtkScan(ls, ks, ltk, i + 1, inLtk');
      assert r == [r[0]] + rest;
      assert r[0] == if IsKeyLine(ks, i) then "Key=" + ltk else ls[i];
      ScanCons(ls, ks, ltk, i, r[0], rest);
    }
  }

  /** `r` holds the lines of `ls` from `i` on, key lines replaced by `Key=<ltk>`. */
  ghost predicate ScanOut(ls: seq<string>, ks: seq<LineKind>, ltk: string, i: nat, r: seq<string>)
    requires |ks| == |ls|
  {
    && |r| == |ls| - i
    && forall k :: i <= k < |ls| ==> r[k - i] == if IsKeyLine(ks, k) then "Key=" + ltk else ls[k]
  }

  lemma ScanCons(ls: seq<string>, ks: seq<LineKind>, ltk: string, i: nat, head: string, rest: seq<string>)
    requires |ks| == |ls| && i < |ls|
    requires head == if IsKeyLine(ks, i) then "Key=" + ltk else ls[i]
    requires ScanOut(ls, ks, ltk, i + 1, rest)
    ensures ScanOut(ls, ks, ltk, i, [head] + rest)
  {
    var r := [head] + rest;
    forall k | i <= k < |ls| ensures r[k - i] == if IsKeyLine(ks, k) then "Key=" + ltk else ls[k] {
      if k > i {
        assert r[k - i] == rest[k - (i + 1)];
      }
    }
  }

  /** The lines `update_ltk` maps out of the input's lines, before they are joined again. */
  function UpdatedLines(ls: seq<string>, ltk: string): (r: seq<string>)
    ensures |r| == |ls|
  {
    LtkScanLines(ls, Kinds(ls), ltk, 0, false);
    LtkScan(ls, Kinds(ls), ltk, 0, false)
  }

  /**
   The lines `update_ltk` produces: as many as it was given, each line that
   starts with `Key=` after a line trimming to `[LongTermKey]` replaced by
   `Key=<ltk>`, every other line unchanged (the flag is never cleared).
   */
  lemma UpdatedLinesAre(ls: seq<string>, ltk: string)
    ensures var r := UpdatedLines(ls, ltk);
      forall k :: 0 <= k < |ls| ==> r[k] == if IsKeyLine(Kinds(ls), k) then "Key=" + ltk else ls[k]
  {
    var r := UpdatedLines(ls, ltk);
    LtkScanLines(ls, Kinds(ls), ltk, 0, false);
    assert forall k :: 0 <= k < |ls| ==> r[k] == r[k - 0];
  }

  /**
   `update_ltk` as written: the updated lines joined by line feeds, a line
   feed appended when the input ended with one and the joined text does not.
   */
  function UpdateLtk(c: string, ltk: string): string {
    var updated := Join(UpdatedLines(Lines(c), ltk), "\n");
    if EndsWith(c, "\n") && !EndsWith(updated, "\n") then updated + "\n" else updated
  }

  /** `update_ltk` keeping the input's trailing line feed in every case. */
  function UpdateLtkKeepingNewline(c: string, ltk: string): string {
    var updated := Join(UpdatedLines(Lines(c), ltk), "\n");
    if EndsWith(c, "\n") then updated + "\n" else updated
  }

  /** A rewritten key line is a key line holding the new key. */
  lemma KeyLineKind(ltk: string)
    ensures KindOf("Key=" + ltk) == KeyEntry(ltk)
  {
    var l := "Key=" + ltk;
    if IsHeader(l) {
      HeaderFirstChar(l);
    }
    assert StartsWith(l, "Key=");
    assert l[4..] == ltk;
  }

  /** Two line sequences with headers and key lines in the same places, the first possibly shorter. */
  ghost predicate SameShape(a: seq<LineKind>, b: seq<LineKind>) {
    |a| <= |b| && forall k :: 0 <= k < |a| ==> a[k].Header? == b[k].Header? && a[k].KeyEntry? == b[k].KeyEntry?
  }

  lemma SameShapeKeyLines(a: seq<LineKind>, b: seq<LineKind>)
    requires SameShape(a, b)
    ensures forall k :: 0 <= k < |a| ==> (IsKeyLine(a, k) <==> IsKeyLine(b, k))
  {
    forall k | 0 <= k < |a| ensures IsKeyLine(a, k) <==> IsKeyLine(b, k) {
      if AfterHeader(a, k) {
        var j :| 0 <= j < k && j < |a| && a[j].Header?;
        assert b[j].Header?;
      }
      if AfterHeader(b, k) {
        var j :| 0 <= j < k && j < |b| && b[j].Header?;
        assert a[j].Header?;
      }
    }
  }

  /** The updated lines, and any prefix of them, have the input's shape. */
  lemma UpdatedShape(ls: seq<string>, ltk: string, n: nat)
    requires n <= |ls|
    ensures SameShape(Kinds(UpdatedLines(ls, ltk)[..n]), Kinds(ls))
  {
    var out := UpdatedLines(ls, ltk);
    UpdatedLinesAre(ls, ltk);
    KeyLineKind(ltk);
    forall k | 0 <= k < n ensures out[..n][k] == out[k] { }
  }

  /** Updating updated lines, or a prefix of them, changes nothing. */
  lemma UpdatedLinesTwice(ls: seq<string>, ltk: string, n: nat)
    requires n <= |ls|
    ensures var p := UpdatedLines(ls, ltk)[..n]; UpdatedLines(p, ltk) == p
  {
    var out := UpdatedLines(ls, ltk);
    var p := out[..n];
    UpdatedShape(ls, ltk, n);
    SameShapeKeyLines(Kinds(p), Kinds(ls));
    var q := UpdatedLines(p, ltk);
    UpdatedLinesAre(ls, ltk);
    UpdatedLinesAre(p, ltk);
    forall k | 0 <= k < n ensures q[k] == p[k] {
      assert p[k] == out[k];
    }
  }

  /** The updated lines hold no line feed or carriage return the input and the key do not. */
  lemma UpdatedLinesPlain(ls: seq<string>, ltk: string)
    requires NoneContain(ls, '\n') && NoneContain(ls, '\r') && PlainKey(ltk)
    ensures NoneContain(UpdatedLines(ls, ltk), '\n') && NoneContain(UpdatedLines(ls, ltk), '\r')
  {
    var out := UpdatedLines(ls, ltk);
    UpdatedLinesAre(ls, ltk);
    forall k | 0 <= k < |out| ensures '\n' !in out[k] && '\r' !in out[k] {
      if IsKeyLine(Kinds(ls), k) {
        assert out[k] == "Key=" + ltk;
      }
    }
  }

  /** An updated line is empty exactly when the input line was. */
  lemma UpdatedEmpty(ls: seq<string>, ltk: string, k: int)
    requires 0 <= k < |ls|
    ensures UpdatedLines(ls, ltk)[k] == "" <==> ls[k] == ""
  {
    UpdatedLinesAre(ls, ltk);
    if IsKeyLine(Kinds(ls), k) {
      assert |("Key=" + ltk)| >= 4;
      assert ls[k] != "" by {
        assert KindOf(ls[k]).KeyEntry?;
      }
    }
  }

  /** The updated lines of `c`, the lines both versions join. */
  function Out(c: string, ltk: string): seq<string> {
    UpdatedLines(Lines(c), ltk)
  }

  /** The joined updated lines end with a line feed exactly when the input's last line is blank. */
  lemma JoinedEndsWithNewline(c: string, ltk: string)
    requires '\r' !in c && PlainKey(ltk)
    ensures var ls := Lines(c); var n := |ls|;
      EndsWith(Join(Out(c, ltk), "\n"), "\n") <==> n >= 2 && ls[n - 1] == ""
  {
    var ls := Lines(c);
    var out := Out(c, ltk);
    assert NoneContain(out, '\n') by {
      LinesKeepOutCr(c);
      UpdatedLinesPlain(ls, ltk);
    }
    if |ls| > 0 {
      UpdatedEmpty(ls, ltk, |ls| - 1);
    }
    JoinEndsWithBlank(ls, out);
  }

  /** Lines joined by line feeds end with one exactly when there are two or more and the last is blank. */
  lemma JoinEndsWithBlank(ls: seq<string>, out: seq<string>)
    requires |out| == |ls| && NoneContain(out, '\n')
    requires |ls| > 0 ==> (out[|ls| - 1] == "" <==> ls[|ls| - 1] == "")
    ensures EndsWith(Join(out, "\n"), "\n") <==> |ls| >= 2 && ls[|ls| - 1] == ""
  {
    JoinEndsWithNewline(out);
    EndsWithOne(Join(out, "\n"), '\n');
  }

  /** For text without carriage returns, ending in a blank line is ending in two line feeds. */
  lemma EndsInBlankLine(c: string)
    requires '\r' !in c
    ensures var ls := Lines(c); var n := |ls|;
      EndsWith(c, "\n\n") <==> EndsWith(c, "\n") && n >= 2 && ls[n - 1] == ""
  {
    var ls := Lines(c);
    var j := Join(ls, "\n");
    if EndsWith(c, "\n") {
      assert c == j + ['\n'] by {
        Reassemble(c);
        EndsWithOne(c, '\n');
      }
      assert EndsWith(c, "\n\n") <==> EndsWith(j, "\n") by {
        EndsWithSnoc(j, "\n", '\n');
      }
      assert EndsWith(j, "\n") <==> |ls| >= 2 && ls[|ls| - 1] == "" by {
        LinesKeepOutCr(c);
        JoinEndsWithNewline(ls);
        EndsWithOne(j, '\n');
      }
    } else if EndsWith(c, "\n\n") {
      EndsWithShorter(c, '\n', "\n");
    }
  }

  /** Two or more lines free of line feeds and carriage returns, the last one blank. */
  ghost predicate BlankLast(ls: seq<string>) {
    NoneContain(ls, '\n') && NoneContain(ls, '\r') && |ls| >= 2 && ls[|ls| - 1] == ""
  }

  /** Text without carriage returns ending in two line feeds has a blank last line. */
  lemma BlankLastOf(c: string)
    requires '\r' !in c && EndsWith(c, "\n\n")
    ensures BlankLast(Lines(c))
  {
    EndsInBlankLine(c);
    LinesKeepOutCr(c);
  }

  /** For text without carriage returns, ending in two blank lines is ending in three line feeds. */
  lemma EndsInTwoBlankLines(c: string)
    requires '\r' !in c
    ensures var ls := Lines(c); var n := |ls|;
      EndsWith(c, "\n\n\n") <==> EndsWith(c, "\n") && n >= 3 && ls[n - 1] == "" && ls[n - 2] == ""
  {
    var ls := Lines(c);
    var n := |ls|;
    EndsInBlankLine(c);
    if EndsWith(c, "\n\n") {
      TwoBlankLines(c);
    } else if EndsWith(c, "\n\n\n") {
      EndsWithShorter(c, '\n', "\n\n");
    }
  }

  lemma TwoBlankLines(c: string)
    requires '\r' !in c
    requires var ls := Lines(c); var n := |ls|; EndsWith(c, "\n") && n >= 2 && ls[n - 1] == ""
    ensures var ls := Lines(c); var n := |ls|;
      EndsWith(c, "\n\n\n") <==> n >= 3 && ls[n - 2] == ""
  {
    var ls := Lines(c);
    assert c == Join(ls, "\n") + "\n" by {
      Reassemble(c);
      EndsWithOne(c, '\n');
    }
    TwoBlankLinesOf(c, ls);
  }

  /** Lines ending in a blank one, joined and terminated: three final line feeds exactly when the line before the blank one is blank too. */
  lemma TwoBlankLinesOf(c: string, ls: seq<string>)
    requires NoneContain(ls, '\n') && |ls| >= 2 && ls[|ls| - 1] == ""
    requires c == Join(ls, "\n") + "\n"
    ensures var n := |ls|;
      EndsWith(c, "\n\n\n") <==> n >= 3 && ls[n - 2] == ""
  {
    var j := Join(ls[..|ls| - 1], "\n");
    JoinDropEmpty(ls, "\n");
    ThreeFeeds(j, c);
    InitEnding(ls);
  }

  /** Two line feeds after `j` make three exactly when `j` ends in one. */
  lemma ThreeFeeds(j: string, c: string)
    requires c == j + "\n" + "\n"
    ensures EndsWith(c, "\n\n\n") <==> |j| > 0 && j[|j| - 1] == '\n'
  {
    var n := |c|;
    assert c[n - 1] == '\n' && c[n - 2] == '\n';
    if |j| > 0 {
      assert c[n - 3] == j[|j| - 1];
      if j[|j| - 1] == '\n' {
        assert c[n - 3..] == "\n\n\n";
      }
    }
    if EndsWith(c, "\n\n\n") {
      assert c[n - 3] == c[n - 3..][0];
    }
  }

  /** Lines with a blank last one: those before it, joined, end in a line feed exactly when the second-last is blank and not the first. */
  lemma InitEnding(ls: seq<string>)
    requires NoneContain(ls, '\n') && |ls| >= 2
    ensures var n := |ls|; var j := Join(ls[..n - 1], "\n");
      (|j| > 0 && j[|j| - 1] == '\n') <==> n >= 3 && ls[n - 2] == ""
  {
    var n := |ls|;
    var init := ls[..n - 1];
    NoneContainPrefix(ls, '\n', n - 1);
    JoinEndsWithNewline(init);
    assert init[n - 2] == ls[n - 2];
  }

  /**
   The corrected `update_ltk` reads back as exactly the updated lines, and
   its output ends with a line feed exactly when its input does.
   */
  lemma KeepingNewlineShape(c: string, ltk: string)
    requires '\r' !in c && PlainKey(ltk)
    ensures Lines(UpdateLtkKeepingNewline(c, ltk)) == Out(c, ltk)
    ensures EndsWith(UpdateLtkKeepingNewline(c, ltk), "\n") <==> EndsWith(c, "\n")
  {
    assert NoneContain(Out(c, ltk), '\n') && NoneContain(Out(c, ltk), '\r') by {
      LinesKeepOutCr(c);
      UpdatedLinesPlain(Lines(c), ltk);
    }
    if EndsWith(c, "\n") {
      KeepingNewlineTerminated(c, ltk);
    } else if c == "" {
      assert Split("", '\n') == [""];
    } else {
      KeepingNewlineUnterminated(c, ltk);
    }
  }

  lemma KeepingNewlineTerminated(c: string, ltk: string)
    requires '\r' !in c && EndsWith(c, "\n")
    requires NoneContain(Out(c, ltk), '\n') && NoneContain(Out(c, ltk), '\r')
    ensures Lines(UpdateLtkKeepingNewline(c, ltk)) == Out(c, ltk)
    ensures EndsWith(UpdateLtkKeepingNewline(c, ltk), "\n")
  {
    var out := Out(c, ltk);
    assert |out| > 0 by {
      NonEmptyHasLines(c);
    }
    LinesOfTerminated(out);
    EndsWithOne(UpdateLtkKeepingNewline(c, ltk), '\n');
  }

  lemma KeepingNewlineUnterminated(c: string, ltk: string)
    requires '\r' !in c && !EndsWith(c, "\n") && c != ""
    requires NoneContain(Out(c, ltk), '\n') && NoneContain(Out(c, ltk), '\r')
    ensures Lines(UpdateLtkKeepingNewline(c, ltk)) == Out(c, ltk)
    ensures !EndsWith(UpdateLtkKeepingNewline(c, ltk), "\n")
  {
    var ls := Lines(c);
    var out := Out(c, ltk);
    LastLineNonEmpty(c);
    UpdatedEmpty(ls, ltk, |ls| - 1);
    JoinedUnterminated(out);
  }

  /** Text that does not end with a line feed has a non-empty last line. */
  lemma LastLineNonEmpty(c: string)
    requires '\r' !in c && !EndsWith(c, "\n") && c != ""
    ensures |Lines(c)| > 0 && Lines(c)[|Lines(c)| - 1] != ""
  {
    var ls := Lines(c);
    var n := |ls|;
    NonEmptyHasLines(c);
    assert c == Join(ls, "\n") by {
      Reassemble(c);
      EndsWithOne(c, '\n');
    }
    assert !(n >= 2 && ls[n - 1] == "") by {
      LinesKeepOutCr(c);
      JoinEndsWithNewline(ls);
      EndsWithOne(c, '\n');
    }
    assert !(n == 1 && ls[0] == "");
  }

  /** Lines joined by line feeds, the last one non-empty, read back as themselves and end without one. */
  lemma JoinedUnterminated(out: seq<string>)
    requires NoneContain(out, '\n') && NoneContain(out, '\r')
    requires |out| > 0 && out[|out| - 1] != ""
    ensures Lines(Join(out, "\n")) == out && !EndsWith(Join(out, "\n"), "\n")
  {
    LinesOfUnterminated(out);
    JoinEndsWithNewline(out);
    EndsWithOne(Join(out, "\n"), '\n');
  }

  /**
   `update_ltk` as written agrees with the corrected version unless the
   input ends in two line feeds, and then returns it less one final line feed.
   */
  lemma UpdateLtkDropsNewline(c: string, ltk: string)
    requires '\r' !in c && PlainKey(ltk)
    ensures !EndsWith(c, "\n\n") ==> UpdateLtk(c, ltk) == UpdateLtkKeepingNewline(c, ltk)
    ensures EndsWith(c, "\n\n") ==> UpdateLtk(c, ltk) + "\n" == UpdateLtkKeepingNewline(c, ltk)
  {
    JoinedEndsWithNewline(c, ltk);
    EndsInBlankLine(c);
  }

  /**
   The trailing line feed of `update_ltk` as written: kept exactly when the
   input does not end in two line feeds; otherwise the output holds one line
   feed fewer at the end.
   */
  lemma UpdateLtkTrailingNewline(c: string, ltk: string)
    requires '\r' !in c && PlainKey(ltk)
    ensures !EndsWith(c, "\n\n") ==> (EndsWith(UpdateLtk(c, ltk), "\n") <==> EndsWith(c, "\n"))
    ensures EndsWith(c, "\n\n") ==> UpdateLtk(c, ltk) + "\n" == UpdateLtkKeepingNewline(c, ltk)
  {
    UpdateLtkDropsNewline(c, ltk);
    KeepingNewlineShape(c, ltk);
  }

  /** The corrected `update_ltk` applied to its own output changes nothing. */
  lemma KeepingNewlineIdempotent(c: string, ltk: string)
    requires '\r' !in c && PlainKey(ltk)
    ensures UpdateLtkKeepingNewline(UpdateLtkKeepingNewline(c, ltk), ltk) == UpdateLtkKeepingNewline(c, ltk)
  {
    var r := UpdateLtkKeepingNewline(c, ltk);
    var out := Out(c, ltk);
    KeepingNewlineShape(c, ltk);
    UpdatedLinesTwice(Lines(c), ltk, |out|);
    assert out[..|out|] == out;
  }

  /** The corrected output holds no carriage return. */
  lemma KeepingNewlineNoCr(c: string, ltk: string)
    requires '\r' !in c && PlainKey(ltk)
    ensures '\r' !in UpdateLtkKeepingNewline(c, ltk)
  {
    LinesKeepOutCr(c);
    UpdatedLinesPlain(Lines(c), ltk);
    JoinKeepsOut(Out(c, ltk), "\n", '\r');
  }

  /** The corrected output ends in two line feeds exactly when its input does. */
  lemma KeepingNewlineNoBlank(c: string, ltk: string)
    requires '\r' !in c && PlainKey(ltk)
    ensures EndsWith(UpdateLtkKeepingNewline(c, ltk), "\n\n") <==> EndsWith(c, "\n\n")
  {
    var ls := Lines(c);
    var out := Out(c, ltk);
    var r := UpdateLtkKeepingNewline(c, ltk);
    if |ls| > 0 {
      UpdatedEmpty(ls, ltk, |ls| - 1);
    }
    KeepingNewlineNoCr(c, ltk);
    KeepingNewlineShape(c, ltk);
    SameLastLine(Lines(r), out, ls);
    SameBlankEnding(c, r);
  }

  /** Equal line sequences agree on their length and on whether the last line is blank. */
  lemma SameLastLine(a: seq<string>, b: seq<string>, ls: seq<string>)
    requires a == b && |b| == |ls|
    requires |ls| > 0 ==> (b[|ls| - 1] == "" <==> ls[|ls| - 1] == "")
    ensures |a| == |ls| && (|ls| > 0 ==> (a[|ls| - 1] == "" <==> ls[|ls| - 1] == ""))
  {
  }

  /**
   Two texts without carriage returns, with as many lines, the last blank in
   both or in neither, and a final line feed in both or in neither, end in
   two line feeds both or neither.
   */
  lemma SameBlankEnding(c: string, r: string)
    requires '\r' !in c && '\r' !in r
    requires |Lines(r)| == |Lines(c)|
    requires |Lines(c)| > 0 ==> (Lines(r)[|Lines(c)| - 1] == "" <==> Lines(c)[|Lines(c)| - 1] == "")
    requires EndsWith(r, "\n") <==> EndsWith(c, "\n")
    ensures EndsWith(r, "\n\n") <==> EndsWith(c, "\n\n")
  {
    EndsInBlankLine(r);
    EndsInBlankLine(c);
  }

  /** Input not ending in two line feeds: `update_ltk` as written is idempotent on it. */
  lemma UpdateLtkIdempotentPlain(c: string, ltk: string)
    requires '\r' !in c && PlainKey(ltk) && !EndsWith(c, "\n\n")
    ensures UpdateLtk(UpdateLtk(c, ltk), ltk) == UpdateLtk(c, ltk)
    ensures !EndsWith(c, "\n\n\n")
  {
    if EndsWith(c, "\n\n\n") {
      EndsWithShorter(c, '\n', "\n\n");
    }
    var r := UpdateLtkKeepingNewline(c, ltk);
    UpdateLtkDropsNewline(c, ltk);
    KeepingNewlineNoCr(c, ltk);
    KeepingNewlineNoBlank(c, ltk);
    UpdateLtkDropsNewline(r, ltk);
    KeepingNewlineIdempotent(c, ltk);
  }

  /**
   Input ending in two line feeds: the second application gives the first's
   result back exactly when the input does not end in three.
   */
  lemma UpdateLtkIdempotentBlank(c: string, ltk: string)
    requires '\r' !in c && PlainKey(ltk) && EndsWith(c, "\n\n")
    ensures UpdateLtk(UpdateLtk(c, ltk), ltk) == UpdateLtk(c, ltk) <==> !EndsWith(c, "\n\n\n")
  {
    var ls := Lines(c);
    var n := |ls|;
    assert n >= 2 && ls[n - 1] == "" by {
      EndsInBlankLine(c);
    }
    assert EndsWith(c, "\n\n\n") <==> n >= 3 && ls[n - 2] == "" by {
      TwoBlankLines(c);
    }
    assert UpdateLtk(c, ltk) == Join(Out(c, ltk), "\n") by {
      UpdateLtkDropsNewline(c, ltk);
    }
    LinesKeepOutCr(c);
    BlankLastLine(ls, ltk);
  }

  /**
   Lines whose last is blank, updated and joined: the join is the lines
   before the blank one joined and a line feed; a second `update_ltk` adds a
   line feed to those only when they do not already end with one, which is
   when the line before the blank one is blank too.
   */
  lemma BlankLastLine(ls: seq<string>, ltk: string)
    requires NoneContain(ls, '\n') && NoneContain(ls, '\r') && PlainKey(ltk)
    requires |ls| >= 2 && ls[|ls| - 1] == ""
    ensures var out := UpdatedLines(ls, ltk); var j := Join(out[..|ls| - 1], "\n");
      && Join(out, "\n") == j + "\n"
      && UpdateLtk(Join(out, "\n"), ltk) == (if EndsWith(j, "\n") then j else j + "\n")
      && (EndsWith(j, "\n") <==> |ls| >= 3 && ls[|ls| - 2] == "")
  {
    var out := UpdatedLines(ls, ltk);
    var j := Join(out[..|ls| - 1], "\n");
    assert BlankLast(ls);
    UpdatedBlankInit(ls, ltk);
    assert EndsWith(j, "\n") <==> |ls| >= 3 && ls[|ls| - 2] == "" by {
      BlankInitEnds(ls, ltk);
    }
    assert Join(out, "\n") == j + "\n" && UpdateLtk(Join(out, "\n"), ltk) == (if EndsWith(j, "\n") then j else j + "\n") by {
      SecondPassBlank(out, ltk);
    }
  }

  /** Updating lines with a blank last line: the blank line stays, and the lines before it are left alone by a second update. */
  lemma UpdatedBlankInit(ls: seq<string>, ltk: string)
    requires BlankLast(ls) && PlainKey(ltk)
    ensures var out := UpdatedLines(ls, ltk);
      BlankLast(out) && UpdatedLines(out[..|ls| - 1], ltk) == out[..|ls| - 1]
  {
    UpdatedBlankLast(ls, ltk);
    UpdatedLinesTwice(ls, ltk, |ls| - 1);
  }

  /** The updated lines before the blank last one end in a line feed, once joined, when the input's did. */
  lemma BlankInitEnds(ls: seq<string>, ltk: string)
    requires BlankLast(ls) && PlainKey(ltk)
    ensures var n := |ls|; var init := UpdatedLines(ls, ltk)[..n - 1];
      EndsWith(Join(init, "\n"), "\n") <==> n >= 3 && ls[n - 2] == ""
  {
    UpdatedLinesPlain(ls, ltk);
    UpdatedEmpty(ls, ltk, |ls| - 2);
    InitEnds(ls, UpdatedLines(ls, ltk));
  }

  /** Lines in step with `ls` on their second-last being blank: all but the last, joined, end in a line feed exactly when that line is blank and not the first. */
  lemma InitEnds(ls: seq<string>, out: seq<string>)
    requires |out| == |ls| >= 2 && NoneContain(out, '\n')
    requires out[|ls| - 2] == "" <==> ls[|ls| - 2] == ""
    ensures var n := |ls|;
      EndsWith(Join(out[..n - 1], "\n"), "\n") <==> n >= 3 && ls[n - 2] == ""
  {
    var n := |ls|;
    NoneContainPrefix(out, '\n', n - 1);
    JoinEndsWithBlank(ls[..n - 1], out[..n - 1]);
  }

  /**
   Updated lines whose last is blank, joined: the join is the lines before
   the blank one joined and a line feed, and a second `update_ltk` adds a
   line feed to those lines only when they do not already end with one.
   */
  lemma SecondPassBlank(out: seq<string>, ltk: string)
    requires NoneContain(out, '\n') && NoneContain(out, '\r')
    requires |out| >= 2 && out[|out| - 1] == ""
    requires UpdatedLines(out[..|out| - 1], ltk) == out[..|out| - 1]
    ensures var j := Join(out[..|out| - 1], "\n");
      && Join(out, "\n") == j + "\n"
      && UpdateLtk(Join(out, "\n"), ltk) == if EndsWith(j, "\n") then j else j + "\n"
  {
    var n := |out|;
    var init := out[..n - 1];
    var r := Join(out, "\n");
    assert r == Join(init, "\n") + "\n" by {
      JoinDropEmpty(out, "\n");
    }
    assert EndsWith(r, "\n") by {
      JoinEndsWithBlank(out, out);
    }
    assert Lines(r) == init by {
      LinesOfJoin(out);
    }
    SecondPass(r, init, ltk);
  }

  /** `update_ltk` on text ending with a line feed whose lines it leaves as they are. */
  lemma SecondPass(r: string, init: seq<string>, ltk: string)
    requires Lines(r) == init && EndsWith(r, "\n") && UpdatedLines(init, ltk) == init
    ensures var j := Join(init, "\n");
      UpdateLtk(r, ltk) == if EndsWith(j, "\n") then j else j + "\n"
  {
  }

  /**
   `update_ltk` as written is idempotent exactly on input that does not
   end in three line feeds.
   */
  lemma UpdateLtkIdempotentIff(c: string, ltk: string)
    requires '\r' !in c && PlainKey(ltk)
    ensures UpdateLtk(UpdateLtk(c, ltk), ltk) == UpdateLtk(c, ltk) <==> !EndsWith(c, "\n\n\n")
  {
    if EndsWith(c, "\n\n") {
      UpdateLtkIdempotentBlank(c, ltk);
    } else {
      UpdateLtkIdempotentPlain(c, ltk);
    }
  }

  /** A line that is first key line of the input is the first key line of any long enough prefix of the update. */
  lemma GetLtkOfLines(r: string, ls: seq<string>, ltk: string, f: int, q: nat)
    requires q <= |ls| && Lines(r) == UpdatedLines(ls, ltk)[..q]
    requires IsFirstKeyLine(Kinds(ls), f) && f < q
    ensures GetLtk(r) == ltk
  {
    UpdatedPrefixKey(ls, ltk, f, q);
    GetLtkOfKeyAt(UpdatedLines(ls, ltk)[..q], f, ltk);
  }

  /** Line `f` of `p` is its first key line, and it holds `ltk`. */
  ghost predicate KeyAt(p: seq<string>, f: int, ltk: string) {
    IsFirstKeyLine(Kinds(p), f) && p[f] == "Key=" + ltk
  }

  lemma UpdatedPrefixKey(ls: seq<string>, ltk: string, f: int, q: nat)
    requires q <= |ls| && IsFirstKeyLine(Kinds(ls), f) && f < q
    ensures KeyAt(UpdatedLines(ls, ltk)[..q], f, ltk)
  {
    var p := UpdatedLines(ls, ltk)[..q];
    UpdatedShape(ls, ltk, q);
    SameShapeKeyLines(Kinds(p), Kinds(ls));
    UpdatedLinesAre(ls, ltk);
  }

  lemma GetLtkOfKeyAt(p: seq<string>, f: int, ltk: string)
    requires KeyAt(p, f, ltk)
    ensures GetLtkScan(Kinds(p), 0, false) == ltk
  {
    GetLtkScanFinds(Kinds(p), 0, false, f);
    KeyLineKind(ltk);
  }

  /** The empty line is neither a header nor a key line. */
  lemma EmptyLineKind()
    ensures KindOf("") == Other
  {
    assert Trim("") == "";
  }

  /** A key line is never empty. */
  lemma KeyLineNotEmpty(ls: seq<string>, f: int)
    requires IsKeyLine(Kinds(ls), f)
    ensures ls[f] != ""
  {
    assert KindOf(ls[f]).KeyEntry?;
    assert Trim("") == "";
  }

  /** Updating keeps a blank last line blank. */
  lemma UpdatedBlankLast(ls: seq<string>, ltk: string)
    requires BlankLast(ls) && PlainKey(ltk)
    ensures BlankLast(UpdatedLines(ls, ltk))
  {
    UpdatedLinesPlain(ls, ltk);
    UpdatedEmpty(ls, ltk, |ls| - 1);
  }

  /** Lines whose last is blank, joined, read back as the lines before it. */
  lemma LinesOfBlankLast(out: seq<string>)
    requires BlankLast(out)
    ensures Lines(Join(out, "\n")) == out[..|out| - 1]
  {
    LinesOfJoin(out);
  }

  /** Lines whose last is blank: `get_ltk` reads the new key back from the joined update. */
  lemma GetLtkBlank(ls: seq<string>, ltk: string, f: int)
    requires BlankLast(ls) && PlainKey(ltk)
    requires IsFirstKeyLine(Kinds(ls), f)
    ensures GetLtk(Join(UpdatedLines(ls, ltk), "\n")) == ltk
  {
    var out := UpdatedLines(ls, ltk);
    BlankPrefix(ls, ltk, f);
    GetLtkOfLines(Join(out, "\n"), ls, ltk, f, |ls| - 1);
  }

  /** Lines with a blank last line: the joined update reads back as all but its last line, the key line among them. */
  lemma BlankPrefix(ls: seq<string>, ltk: string, f: int)
    requires BlankLast(ls) && PlainKey(ltk)
    requires IsFirstKeyLine(Kinds(ls), f)
    ensures f < |ls| - 1
    ensures Lines(Join(UpdatedLines(ls, ltk), "\n")) == UpdatedLines(ls, ltk)[..|ls| - 1]
  {
    KeyLineNotEmpty(ls, f);
    UpdatedBlankLast(ls, ltk);
    LinesOfBlankLast(UpdatedLines(ls, ltk));
  }

  /**
   When the input has a key line after a header, `get_ltk` reads the new key
   back from the output of `update_ltk`, as written and corrected.
   */
  lemma GetLtkOfUpdateLtk(c: string, ltk: string, m: int)
    requires '\r' !in c && PlainKey(ltk)
    requires IsKeyLine(Kinds(Lines(c)), m)
    ensures GetLtk(UpdateLtkKeepingNewline(c, ltk)) == ltk
    ensures GetLtk(UpdateLtk(c, ltk)) == ltk
  {
    FirstKeyLineExists(Kinds(Lines(c)), m);
    var f :| IsFirstKeyLine(Kinds(Lines(c)), f);
    GetLtkKept(c, ltk, f);
    GetLtkWritten(c, ltk, f);
  }

  lemma GetLtkKept(c: string, ltk: string, f: int)
    requires '\r' !in c && PlainKey(ltk)
    requires IsFirstKeyLine(Kinds(Lines(c)), f)
    ensures GetLtk(UpdateLtkKeepingNewline(c, ltk)) == ltk
  {
    var ls := Lines(c);
    assert UpdatedLines(ls, ltk)[..|ls|] == UpdatedLines(ls, ltk);
    KeepingNewlineShape(c, ltk);
    GetLtkOfLines(UpdateLtkKeepingNewline(c, ltk), ls, ltk, f, |ls|);
  }

  lemma GetLtkWritten(c: string, ltk: string, f: int)
    requires '\r' !in c && PlainKey(ltk)
    requires IsFirstKeyLine(Kinds(Lines(c)), f)
    ensures GetLtk(UpdateLtk(c, ltk)) == ltk
  {
    if EndsWith(c, "\n\n") {
      GetLtkWrittenBlank(c, ltk, f);
    } else {
      UpdateLtkDropsNewline(c, ltk);
      GetLtkKept(c, ltk, f);
    }
  }

  lemma GetLtkWrittenBlank(c: string, ltk: string, f: int)
    requires '\r' !in c && PlainKey(ltk) && EndsWith(c, "\n\n")
    requires IsFirstKeyLine(Kinds(Lines(c)), f)
    ensures GetLtk(UpdateLtk(c, ltk)) == ltk
  {
    assert UpdateLtk(c, ltk) == Join(Out(c, ltk), "\n") by {
      UpdateLtkDropsNewline(c, ltk);
    }
    BlankLastOf(c);
    GetLtkBlank(Lines(c), ltk, f);
  }

  /**
   Without a key line after a header, the corrected `update_ltk` returns its
   input, and the version as written does too unless the input ends in two
   line feeds.
   */
  lemma UpdateLtkNoKeyLine(c: string, ltk: string)
    requires '\r' !in c && PlainKey(ltk)
    requires forall k :: 0 <= k < |Lines(c)| ==> !IsKeyLine(Kinds(Lines(c)), k)
    ensures UpdateLtkKeepingNewline(c, ltk) == c
    ensures !EndsWith(c, "\n\n") ==> UpdateLtk(c, ltk) == c
  {
    var ls := Lines(c);
    assert UpdatedLines(ls, ltk) == ls by {
      UpdatedLinesAre(ls, ltk);
    }
    Reassemble(c);
    EndsWithOne(c, '\n');
    UpdateLtkDropsNewline(c, ltk);
  }

  /** The header line itself is a header. */
  lemma HeaderKind()
    ensures KindOf(LtkHeader) == Header
  {
    TrimPlain(LtkHeader);
  }

  /** The lines of a key file: the header and one key line. */
  lemma ExampleLines(key: string)
    ensures var ks := Kinds([LtkHeader, "Key=" + key]);
      && ks == [Header, KeyEntry(key)]
      && !IsKeyLine(ks, 0) && IsKeyLine(ks, 1)
  {
    var ls := [LtkHeader, "Key=" + key];
    var ks := Kinds(ls);
    HeaderKind();
    KeyLineKind(key);
    assert ks[0] == Header && ks[1] == KeyEntry(key);
    assert ks == [Header, KeyEntry(key)];
    assert AfterHeader(ks, 1);
  }

  /** The updated lines of a key file: the key line holds the new key. */
  lemma UpdatedKeyFile(key: string, ltk: string)
    ensures UpdatedLines([LtkHeader, "Key=" + key], ltk) == [LtkHeader, "Key=" + ltk]
  {
    var ls := [LtkHeader, "Key=" + key];
    ExampleLines(key);
    UpdatedLinesAre(ls, ltk);
  }

  /** The same with a blank line after the key line, which stays as it is. */
  lemma UpdatedKeyFileBlank(key: string, ltk: string)
    ensures UpdatedLines([LtkHeader, "Key=" + key, ""], ltk) == [LtkHeader, "Key=" + ltk, ""]
  {
    ExampleLinesBlank(key);
    UpdatedThree([LtkHeader, "Key=" + key, ""], ltk);
  }

  /** The lines of a key file with a blank line last: only the middle line is a key line. */
  lemma ExampleLinesBlank(key: string)
    ensures var ks := Kinds([LtkHeader, "Key=" + key, ""]);
      !IsKeyLine(ks, 0) && IsKeyLine(ks, 1) && !IsKeyLine(ks, 2)
  {
    var ks := Kinds([LtkHeader, "Key=" + key, ""]);
    HeaderKind();
    KeyLineKind(key);
    EmptyLineKind();
    assert ks[0] == Header && ks[1] == KeyEntry(key) && ks[2] == Other;
    assert AfterHeader(ks, 1);
  }

  /** Three lines of which only the middle one is a key line. */
  lemma UpdatedThree(ls: seq<string>, ltk: string)
    requires |ls| == 3
    requires !IsKeyLine(Kinds(ls), 0) && IsKeyLine(Kinds(ls), 1) && !IsKeyLine(Kinds(ls), 2)
    ensures UpdatedLines(ls, ltk) == [ls[0], "Key=" + ltk, ls[2]]
  {
    UpdatedLinesAre(ls, ltk);
    var r := UpdatedLines(ls, ltk);
    assert r[0] == ls[0] && r[1] == "Key=" + ltk && r[2] == ls[2];
  }

  /** `update_ltk` on a key file ending with a line feed writes the new key and keeps the line feed. */
  lemma UpdateKeyFile(key: string, ltk: string)
    requires PlainKey(key) && PlainKey(ltk)
    ensures UpdateLtk(LtkHeader + "\n" + ("Key=" + key) + "\n", ltk) == LtkHeader + "\n" + ("Key=" + ltk) + "\n"
  {
    var ls := [LtkHeader, "Key=" + key];
    var c := LtkHeader + "\n" + ("Key=" + key) + "\n";
    JoinTwo(LtkHeader, "Key=" + key, "\n");
    assert c == Join(ls, "\n") + "\n";
    assert NoneContain(ls, '\n') && NoneContain(ls, '\r');
    LinesOfTerminated(ls);
    UpdatedKeyFile(key, ltk);
    var kl := "Key=" + ltk;
    var j := Join([LtkHeader, kl], "\n");
    JoinTwo(LtkHeader, kl, "\n");
    EndsWithOne(c, '\n');
    assert !EndsWith(j, "\n") by {
      EndsWithOne(j, '\n');
      assert j[|j| - 1] == kl[|kl| - 1];
      assert kl[|kl| - 1] in kl;
    }
  }

  /**
   The line feed `update_ltk` loses: on a key file that ends with a blank
   line, the blank line disappears, where the corrected version keeps it.
   */
  lemma UpdateKeyFileBlank(key: string, ltk: string)
    requires PlainKey(key) && PlainKey(ltk)
    ensures var c := LtkHeader + "\n" + ("Key=" + key) + "\n" + "\n";
      && UpdateLtk(c, ltk) == LtkHeader + "\n" + ("Key=" + ltk) + "\n"
      && UpdateLtkKeepingNewline(c, ltk) == LtkHeader + "\n" + ("Key=" + ltk) + "\n" + "\n"
  {
    var ls := [LtkHeader, "Key=" + key, ""];
    var c := LtkHeader + "\n" + ("Key=" + key) + "\n" + "\n";
    JoinThree(LtkHeader, "Key=" + key, "", "\n");
    assert c == Join(ls, "\n") + "\n";
    assert NoneContain(ls, '\n') && NoneContain(ls, '\r');
    LinesOfTerminated(ls);
    UpdatedKeyFileBlank(key, ltk);
    var j := Join([LtkHeader, "Key=" + ltk, ""], "\n");
    JoinThree(LtkHeader, "Key=" + ltk, "", "\n");
    assert j == LtkHeader + "\n" + ("Key=" + ltk) + "\n";
    EndsWithOne(c, '\n');
    EndsWithOne(j, '\n');
  }

  /** `update_ltk("[LongTermKey]\nKey=OldLTK\n", "NewLTK")` is `"[LongTermKey]\nKey=NewLTK\n"`. */
  lemma UpdateLtkExample()
    ensures UpdateLtk("[LongTermKey]\nKey=OldLTK\n", "NewLTK") == "[LongTermKey]\nKey=NewLTK\n"
  {
    ExampleKeysPlain();
    UpdateKeyFile("OldLTK", "NewLTK");
    OldKeyFile();
    NewKeyFile();
  }

  lemma ExampleKeysPlain()
    ensures PlainKey("OldLTK") && PlainKey("NewLTK")
  {
  }

  lemma OldKeyFile()
    ensures LtkHeader + "\n" + ("Key=" + "OldLTK") + "\n" == "[LongTermKey]\nKey=OldLTK\n"
  {
    KeyFileText("OldLTK");
  }

  lemma NewKeyFile()
    ensures LtkHeader + "\n" + ("Key=" + "NewLTK") + "\n" == "[LongTermKey]\nKey=NewLTK\n"
  {
    KeyFileText("NewLTK");
  }

  /** The key file of a six-character key, spelled out. */
  lemma KeyFileText(key: string)
    requires |key| == 6
    ensures LtkHeader + "\n" + ("Key=" + key) + "\n"
      == ['[', 'L', 'o', 'n', 'g', 'T', 'e', 'r', 'm', 'K', 'e', 'y', ']', '\n', 'K', 'e', 'y', '=',
          key[0], key[1], key[2], key[3], key[4], key[5], '\n']
  {
  }

  // ----- fmt_mac -----

  /**
   `(0..len).step_by(2).map(|i| &mac[i..i + 2])`: the two-character slices
   at even offsets. An odd length makes the last slice run past the end,
   which panics, so the length must be even.
   */
  function Pairs(mac: string): (r: seq<string>)
    requires |mac| % 2 == 0
    ensures |r| == |mac| / 2
    ensures forall k :: 0 <= k < |r| ==> r[k] == mac[2 * k..2 * k + 2]
  {
    seq(|mac| / 2, k requires 0 <= k < |mac| / 2 => mac[2 * k..2 * k + 2])
  }

  /**
   `fmt_mac` of src/lib.rs: the two-character slices upper-cased and joined
   by `:`, two characters and a colon for each slice but the last.
   */
  function FmtMac(mac: string): (r: string)
    requires IsAscii(mac) && |mac| % 2 == 0
    ensures |mac| == 0 ==> r == ""
    ensures |mac| > 0 ==> |r| == 3 * (|mac| / 2) - 1
  {
    StepsAreChunks(mac);
    FmtMacShape(mac);
    assert |mac| + (|mac| + 1) / 2 - 1 == 3 * (|mac| / 2) - 1;
    Join(UpperEach(Pairs(mac)), ":")
  }

  /**
   Every third character of the result is a colon and the others are the
   input's characters upper-cased, in order.
   */
  lemma FmtMacChars(mac: string)
    requires IsAscii(mac) && |mac| % 2 == 0
    ensures var r := FmtMac(mac);
      forall i :: 0 <= i < |r| ==> r[i] == if i % 3 == 2 then ':' else UpperChar(mac[2 * (i / 3) + i % 3])
  {
    StepsAreChunks(mac);
    FmtMacShape(mac);
  }

  /** On even lengths, slicing by steps of two is chunking by two. */
  lemma {:induction false} StepsAreChunks(mac: string)
    requires |mac| % 2 == 0
    ensures Pairs(mac) == Chunks(mac)
    decreases |mac|
  {
    if |mac| > 2 {
      StepsAreChunks(mac[2..]);
      var p := Pairs(mac);
      var q := Pairs(mac[2..]);
      assert p == [mac[..2]] + q by {
        forall k | 1 <= k < |p| ensures p[k] == q[k - 1] {
          assert mac[2..][2 * (k - 1)..2 * (k - 1) + 2] == mac[2 * k..2 * k + 2];
        }
      }
    } else if |mac| == 2 {
      assert Pairs(mac) == [mac[0..2]];
      assert mac[0..2] == mac;
    }
  }

  /** Both versions of `fmt_mac` agree on every even-length ASCII name. */
  lemma FmtMacAgrees(mac: string)
    requires IsAscii(mac) && |mac| % 2 == 0
    ensures FmtMac(mac) == Bluetooth.FmtMac(mac)
  {
    StepsAreChunks(mac);
  }

  /** `fmt_mac` of a two-character name is that name upper-cased. */
  lemma FmtMacPair(a: string)
    requires |a| == 2 && IsAscii(a)
    ensures FmtMac(a) == Upper(a)
  {
    assert a[0..2] == a;
    assert Pairs(a) == [a];
  }

  /** `fmt_mac` peels off the first two characters and a colon. */
  lemma FmtMacCons(a: string, b: string)
    requires |a| == 2 && IsAscii(a) && IsAscii(b) && |b| % 2 == 0 && |b| > 0
    ensures IsAscii(a + b) && FmtMac(a + b) == Upper(a) + ":" + FmtMac(b)
  {
    var s := a + b;
    assert IsAscii(s) by {
      forall i | 0 <= i < |s| ensures s[i] < '\U{80}' {
        if i >= 2 {
          assert s[i] == b[i - 2];
        }
      }
    }
    var p := Pairs(s);
    var q := Pairs(b);
    assert p == [a] + q by {
      assert s[0..2] == a;
      forall k | 1 <= k < |p| ensures p[k] == q[k - 1] {
        assert s[2 * k..2 * k + 2] == b[2 * (k - 1)..2 * (k - 1) + 2];
      }
    }
    var u := UpperEach(p);
    assert u == [Upper(a)] + UpperEach(q);
    assert u[1..] == UpperEach(q);
  }

  /** `fmt_mac` of six two-character slices, one at a time. */
  lemma FmtMacSix(p: seq<string>)
    requires |p| == 6 && forall k :: 0 <= k < 6 ==> |p[k]| == 2 && IsAscii(p[k])
    ensures var mac := p[0] + (p[1] + (p[2] + (p[3] + (p[4] + p[5]))));
      && IsAscii(mac) && |mac| % 2 == 0
      && FmtMac(mac) == Upper(p[0]) + ":" + (Upper(p[1]) + ":" + (Upper(p[2]) + ":"
           + (Upper(p[3]) + ":" + (Upper(p[4]) + ":" + Upper(p[5])))))
  {
    FmtMacPair(p[5]);
    FmtMacCons(p[4], p[5]);
    FmtMacCons(p[3], p[4] + p[5]);
    FmtMacCons(p[2], p[3] + (p[4] + p[5]));
    FmtMacCons(p[1], p[2] + (p[3] + (p[4] + p[5])));
    FmtMacCons(p[0], p[1] + (p[2] + (p[3] + (p[4] + p[5]))));
  }

  lemma ExampleMac()
    ensures "12" + ("34" + ("56" + ("78" + ("90" + "ab")))) == "1234567890ab"
  {
  }

  lemma ExampleUpper()
    ensures Upper("12") == "12" && Upper("34") == "34" && Upper("56") == "56"
    ensures Upper("78") == "78" && Upper("90") == "90" && Upper("ab") == "AB"
  {
  }

  lemma ExampleFormatted()
    ensures "12" + ":" + ("34" + ":" + ("56" + ":" + ("78" + ":" + ("90" + ":" + "AB")))) == "12:34:56:78:90:AB"
  {
  }

  /** `fmt_mac("1234567890ab")` is `"12:34:56:78:90:AB"`. */
  lemma FmtMacExample()
    ensures FmtMac("1234567890ab") == "12:34:56:78:90:AB"
  {
    var p := ["12", "34", "56", "78", "90", "ab"];
    FmtMacSix(p);
    ExampleMac();
    ExampleUpper();
    ExampleFormatted();
  }

  // ----- parse_reg (LTK map) -----

  /** The key has an `LTK` value of type REG_BINARY whose bytes sit in one cell. */
  predicate HasBinaryLtk(key: Key) {
    "LTK" in key.values && key.values["LTK"].vtype == RegBinary && key.values["LTK"].data.Small?
  }

  /** Every key that reaches `fmt_mac` has a name it can format without panicking. */
  predicate MacsFormattable(leaves: seq<Key>) {
    forall i :: 0 <= i < |leaves| && HasBinaryLtk(leaves[i]) ==> IsAscii(leaves[i].name) && |leaves[i].name| % 2 == 0
  }

  lemma MacsFormattableTail(leaves: seq<Key>)
    requires |leaves| > 0 && MacsFormattable(leaves)
    ensures MacsFormattable(leaves[1..])
  {
    forall i | 0 <= i < |leaves| - 1 ensures leaves[1..][i] == leaves[i + 1] { }
  }

  /**
   The key's LTK bytes as upper-case hexadecimal, two digits a byte; the bytes
   read back from it. The same `Hex` rendering as `Hive.LtkOf`, as both
   versions of `parse_reg` format the bytes with `{:02X}`.
   */
  function LtkHex(key: Key): (r: string)
    requires HasBinaryLtk(key)
    ensures |r| == 2 * |key.values["LTK"].data.bytes|
    ensures forall i :: 0 <= i < |r| ==> IsUpperHexDigit(r[i])
    ensures ParseHex(r) == key.values["LTK"].data.bytes
  {
    ParseHexOfHex(key.values["LTK"].data.bytes);
    Hex(key.values["LTK"].data.bytes)
  }

  /**
   The loop of the first `parse_reg` over the device keys, in order: a key
   with a REG_BINARY `LTK` in one cell inserts its hexadecimal LTK under
   its formatted name; every other key is skipped.
   */
  function LtkLoop(acc: map<string, string>, leaves: seq<Key>): map<string, string>
    requires MacsFormattable(leaves)
    decreases |leaves|
  {
    if |leaves| == 0 then acc
    else
      var key := leaves[0];
      MacsFormattableTail(leaves);
      var acc' := if HasBinaryLtk(key) then acc[FmtMac(key.name) := LtkHex(key)] else acc;
      LtkLoop(acc', leaves[1..])
  }

  /** The formatted name each key inserts under, when it has a binary LTK. */
  function LtkKeys(leaves: seq<Key>): (ks: seq<Option<string>>)
    requires MacsFormattable(leaves)
    ensures |ks| == |leaves|
    ensures forall i :: 0 <= i < |leaves| ==> (ks[i].Some? <==> HasBinaryLtk(leaves[i]))
    ensures forall i :: 0 <= i < |leaves| && HasBinaryLtk(leaves[i]) ==> ks[i] == Some(FmtMac(leaves[i].name))
  {
    seq(|leaves|, i requires 0 <= i < |leaves| =>
      if HasBinaryLtk(leaves[i]) then Some(FmtMac(leaves[i].name)) else None)
  }

  /** The LTK each key inserts (empty where it has none). */
  function LtkValues(leaves: seq<Key>): (vs: seq<string>)
    ensures |vs| == |leaves|
    ensures forall i :: 0 <= i < |leaves| && HasBinaryLtk(leaves[i]) ==> vs[i] == LtkHex(leaves[i])
  {
    seq(|leaves|, i requires 0 <= i < |leaves| => if HasBinaryLtk(leaves[i]) then LtkHex(leaves[i]) else "")
  }

  /** The loop is the last-wins fold of the keys and values above. */
  lemma {:induction false} LtkLoopIsLastWins(acc: map<string, string>, leaves: seq<Key>)
    requires MacsFormattable(leaves)
    ensures LtkLoop(acc, leaves) == LastWins(acc, LtkKeys(leaves), LtkValues(leaves))
    decreases |leaves|
  {
    if |leaves| > 0 {
      var key := leaves[0];
      MacsFormattableTail(leaves);
      var acc' := if HasBinaryLtk(key) then acc[FmtMac(key.name) := LtkHex(key)] else acc;
      var ks := LtkKeys(leaves);
      var vs := LtkValues(leaves);
      assert ks[1..] == LtkKeys(leaves[1..]) by {
        forall i | 0 <= i < |leaves| - 1 ensures ks[1..][i] == LtkKeys(leaves[1..])[i] {
          assert leaves[1..][i] == leaves[i + 1];
        }
      }
      assert vs[1..] == LtkValues(leaves[1..]) by {
        forall i | 0 <= i < |leaves| - 1 ensures vs[1..][i] == LtkValues(leaves[1..])[i] {
          assert leaves[1..][i] == leaves[i + 1];
        }
      }
      assert acc' == Put(acc, ks[0], vs[0]);
      LtkLoopIsLastWins(acc', leaves[1..]);
    }
  }

  /** What the first `parse_reg` demands of the hive: the `Keys` path exists, and the names it formats are fit. */
  predicate LtkHive(root: Key) {
    Subpath(root, Hive.KeysPath).Some? && MacsFormattable(Hive.Leaves(root))
  }

  /** The first `parse_reg`: the LTK map built from every key two levels below `Keys`. */
  function LtkMap(root: Key): map<string, string>
    requires LtkHive(root)
  {
    LtkLoop(map[], Hive.Leaves(root))
  }

  /**
   The LTK map has an entry for exactly the formatted names of the device
   keys with a binary LTK, and each entry holds the LTK, in hexadecimal, of
   the last key that formats to its name.
   */
  lemma LtkMapEntries(root: Key)
    requires LtkHive(root)
    ensures var leaves := Hive.Leaves(root);
      forall n :: n in LtkMap(root) <==>
        exists i :: 0 <= i < |leaves| && HasBinaryLtk(leaves[i]) && FmtMac(leaves[i].name) == n
    ensures var leaves := Hive.Leaves(root);
      forall n, i :: LastAt(LtkKeys(leaves), n, i) ==>
        n in LtkMap(root) && LtkMap(root)[n] == LtkHex(leaves[i])
  {
    var leaves := Hive.Leaves(root);
    var ks := LtkKeys(leaves);
    var vs := LtkValues(leaves);
    LtkLoopIsLastWins(map[], leaves);
    LastWinsDomain(map[], ks, vs);
    forall n ensures n in LtkMap(root) <==>
      exists i :: 0 <= i < |leaves| && HasBinaryLtk(leaves[i]) && FmtMac(leaves[i].name) == n
    {
      if exists i :: 0 <= i < |leaves| && HasBinaryLtk(leaves[i]) && FmtMac(leaves[i].name) == n {
        var i :| 0 <= i < |leaves| && HasBinaryLtk(leaves[i]) && FmtMac(leaves[i].name) == n;
        assert ks[i] == Some(n);
      }
    }
    forall n, i | LastAt(ks, n, i)
      ensures n in LtkMap(root) && LtkMap(root)[n] == LtkHex(leaves[i])
    {
      LastWinsLast(map[], ks, vs, n, i);
    }
  }

  // ----- list_ntfs_mounts -----

  /** The file-system types kept, compared after lower-casing. */
  predicate IsNtfsType(t: string) {
    Lower(t) == "ntfs" || Lower(t) == "ntfs3"
  }

  /** A type is kept exactly when it spells `ntfs` or `ntfs3` in any mix of cases. */
  lemma NtfsTypeIff(t: string)
    ensures IsNtfsType(t) <==>
      && (|t| == 4 || (|t| == 5 && t[4] == '3'))
      && LowerChar(t[0]) == 'n' && LowerChar(t[1]) == 't' && LowerChar(t[2]) == 'f' && LowerChar(t[3]) == 's'
  {
    var l := Lower(t);
    if |t| == 4 || |t| == 5 {
      assert l[0] == LowerChar(t[0]) && l[1] == LowerChar(t[1]) && l[2] == LowerChar(t[2]) && l[3] == LowerChar(t[3]);
      if |t| == 5 {
        assert l[4] == LowerChar(t[4]);
      }
    }
  }

  /**
   One line of the `mount` listing: the device (first field) and the mount
   point (third field) when the line has more than four fields and the fifth,
   the type, is NTFS.
   */
  function MountOf(line: string): (r: Option<(string, string)>)
    ensures r.Some? ==> IsToken(r.value.0) && IsToken(r.value.1)
  {
    var parts := SplitWhitespace(line);
    if |parts| > 4 && IsNtfsType(parts[4]) then Some((parts[0], parts[2])) else None
  }

  /** The mount a line contributes: none or one. */
  function MountSeq(line: string): seq<(string, string)> {
    match MountOf(line)
    case Some(m) => [m]
    case None => []
  }

  /** The NTFS mounts of the listed lines, in line order. */
  function MountsOf(lines: seq<string>): (r: seq<(string, string)>)
    ensures |r| <= |lines|
  {
    if |lines| == 0 then [] else MountSeq(lines[0]) + MountsOf(lines[1..])
  }

  /** `list_ntfs_mounts` over the captured output of `mount`. */
  function ListNtfsMounts(output: string): seq<(string, string)> {
    MountsOf(Lines(output))
  }

  /** Filtering a listing in two pieces filters each piece. */
  lemma {:induction false} MountsOfAppend(a: seq<string>, b: seq<string>)
    ensures MountsOf(a + b) == MountsOf(a) + MountsOf(b)
  {
    if |a| == 0 {
      assert a + b == b;
    } else {
      var h := MountSeq(a[0]);
      assert (a + b)[0] == a[0];
      assert (a + b)[1..] == a[1..] + b;
      assert MountsOf(a + b) == h + MountsOf(a[1..] + b);
      MountsOfAppend(a[1..], b);
      assert h + (MountsOf(a[1..]) + MountsOf(b)) == (h + MountsOf(a[1..])) + MountsOf(b);
    }
  }

  /** Some line of the listing is an NTFS mount of `m`. */
  ghost predicate MountedBy(lines: seq<string>, m: (string, string)) {
    exists i :: 0 <= i < |lines| && MountOf(lines[i]) == Some(m)
  }

  /** A pair is reported exactly when some line of the listing is an NTFS mount of it. */
  lemma {:induction false} MountsOfMember(lines: seq<string>, m: (string, string))
    ensures m in MountsOf(lines) <==> exists i :: 0 <= i < |lines| && MountOf(lines[i]) == Some(m)
  {
    MountsOfMemberBy(lines, m);
  }

  lemma {:induction false} MountsOfMemberBy(lines: seq<string>, m: (string, string))
    ensures m in MountsOf(lines) <==> MountedBy(lines, m)
  {
    if |lines| > 0 {
      MountsOfMemberBy(lines[1..], m);
      MountedByCons(lines, m);
      assert m in MountSeq(lines[0]) <==> MountOf(lines[0]) == Some(m);
    }
  }

  lemma MountedByCons(lines: seq<string>, m: (string, string))
    requires |lines| > 0
    ensures MountedBy(lines, m) <==> MountOf(lines[0]) == Some(m) || MountedBy(lines[1..], m)
  {
    if MountedBy(lines, m) {
      var i :| 0 <= i < |lines| && MountOf(lines[i]) == Some(m);
      if i > 0 {
        assert lines[1..][i - 1] == lines[i];
      }
    }
    if MountedBy(lines[1..], m) {
      var i :| 0 <= i < |lines[1..]| && MountOf(lines[1..][i]) == Some(m);
      assert lines[i + 1] == lines[1..][i];
    }
  }

  /** A line as `mount` prints it: `<device> on <dir> type <type> <options>`, fields separated by single spaces. */
  function MountLine(device: string, dir: string, fstype: string, options: string): string {
    Join([device, "on", dir, "type", fstype, options], " ")
  }

  /** Such a line is kept exactly when its type is NTFS, and then gives its device and mount point. */
  lemma MountOfLine(device: string, dir: string, fstype: string, options: string)
    requires IsToken(device) && IsToken(dir) && IsToken(fstype) && IsToken(options)
    ensures MountOf(MountLine(device, dir, fstype, options)) ==
      if IsNtfsType(fstype) then Some((device, dir)) else None
  {
    var ws := [device, "on", dir, "type", fstype, options];
    assert IsToken("on") && IsToken("type");
    assert AllTokens(ws) by {
      assert forall i :: 0 <= i < 6 ==> ws[i] in {device, "on", dir, "type", fstype, options};
    }
    SplitWhitespaceOfJoin(ws);
  }

  /** An `ntfs3` mount is reported whatever the case of its type. */
  lemma MountExampleNtfs()
    ensures MountOf(MountLine("/dev/sda2", "/mnt/win", "NTFS3", "(rw)")) == Some(("/dev/sda2", "/mnt/win"))
  {
    ExampleTokens();
    UpperNtfs3();
    MountOfLine("/dev/sda2", "/mnt/win", "NTFS3", "(rw)");
  }

  lemma UpperNtfs3()
    ensures IsNtfsType("NTFS3")
  {
    NtfsTypeIff("NTFS3");
  }

  /** A FUSE mount, the way `ntfs-3g` shows up, is not. */
  lemma MountExampleFuse()
    ensures MountOf(MountLine("/dev/sda2", "/mnt/win", "fuseblk", "(rw)")) == None
  {
    ExampleTokens();
    FuseNotNtfs();
    MountOfLine("/dev/sda2", "/mnt/win", "fuseblk", "(rw)");
  }

  lemma FuseNotNtfs()
    ensures !IsNtfsType("fuseblk")
  {
    NtfsTypeIff("fuseblk");
  }

  lemma ExampleTokens()
    ensures IsToken("/dev/sda2") && IsToken("/mnt/win") && IsToken("NTFS3") && IsToken("fuseblk") && IsToken("(rw)")
  {
  }
}
