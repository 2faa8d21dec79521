/**
 The Rust `str` operations the core relies on, restated over `seq<char>`:
 prefix tests, `split`, `lines`, `join`, `trim`, `split_whitespace` and
 ASCII case mapping.
 */
module Text {
  import opened Wrappers

  /** `str::starts_with` with a string pattern. */
  predicate StartsWith(s: string, p: string) {
    |p| <= |s| && s[..|p|] == p
  }

  /** `str::ends_with` with a string pattern. */
  predicate EndsWith(s: string, p: string) {
    |p| <= |s| && s[|s| - |p|..] == p
  }

  /** True if no element of `parts` contains `c`. */
  predicate NoneContain(parts: seq<string>, c: char) {
    forall i :: 0 <= i < |parts| ==> c !in parts[i]
  }

  /** The parts with `sep` between neighbours, as `[String]::join`. */
  function Join(parts: seq<string>, sep: string): string {
    if |parts| == 0 then ""
    else if |parts| == 1 then parts[0]
    else parts[0] + sep + Join(parts[1..], sep)
  }

  /** Every part followed by a line feed, as a loop of `push_str(part); push('\n')` builds it. */
  function Terminate(parts: seq<string>): (r: string)
    ensures |parts| == 0 ==> r == ""
    ensures |parts| > 0 ==> r == Join(parts, "\n") + "\n"
  {
    if |parts| == 0 then "" else parts[0] + "\n" + Terminate(parts[1..])
  }

  /** The pieces of `s` between occurrences of `sep`, as `str::split` with a char pattern. */
  function Split(s: string, sep: char): (r: seq<string>)
    ensures |r| >= 1
    ensures NoneContain(r, sep)
  {
    if |s| == 0 then [""]
    else
      var rest := Split(s[1..], sep);
      if s[0] == sep then [""] + rest else [[s[0]] + rest[0]] + rest[1..]
  }

  /** `join` undoes `split`. */
  lemma {:induction false} JoinOfSplit(s: string, sep: char)
    ensures Join(Split(s, sep), [sep]) == s
  {
    if |s| > 0 {
      var rest := Split(s[1..], sep);
      JoinOfSplit(s[1..], sep);
      if s[0] != sep && |rest| > 1 {
        assert [s[0]] + rest[0] + [sep] + Join(rest[1..], [sep]) == [s[0]] + (rest[0] + [sep] + Join(rest[1..], [sep]));
      }
    }
  }

  /** Removes one trailing carriage return. */
  function StripCr(line: string): (r: string)
    ensures '\r' !in line ==> r == line
  {
    if |line| > 0 && line[|line| - 1] == '\r' then line[..|line| - 1] else line
  }

  /** Each piece with one trailing carriage return removed. */
  function StripEach(pieces: seq<string>): (r: seq<string>)
    ensures |r| == |pieces|
    ensures forall i :: 0 <= i < |r| ==> r[i] == StripCr(pieces[i])
  {
    if |pieces| == 0 then [] else [StripCr(pieces[0])] + StripEach(pieces[1..])
  }

  /**
   `str::lines`: the pieces between line feeds, each piece that a line feed
   ends losing one trailing carriage return, and a final empty piece dropped.
   */
  function Lines(s: string): (r: seq<string>)
    ensures NoneContain(r, '\n')
  {
    var p := Split(s, '\n');
    var last := p[|p| - 1];
    StripEach(p[..|p| - 1]) + (if |last| == 0 then [] else [last])
  }

  /** Stripping carriage returns changes nothing when there are none. */
  lemma {:induction false} StripEachNoCr(pieces: seq<string>)
    requires NoneContain(pieces, '\r')
    ensures StripEach(pieces) == pieces
  {
  }

  /** The lines of a string whose pieces before the last have no carriage return: those pieces, and the last unless empty. */
  lemma LinesOfSplit(s: string, p: seq<string>)
    requires p == Split(s, '\n') && NoneContain(p[..|p| - 1], '\r')
    ensures Lines(s) == p[..|p| - 1] + (if |p[|p| - 1]| == 0 then [] else [p[|p| - 1]])
  {
    StripEachNoCr(p[..|p| - 1]);
  }

  lemma {:induction false} SplitKeepsOut(s: string, sep: char, x: char)
    requires x !in s
    ensures NoneContain(Split(s, sep), x)
  {
    if |s| > 0 {
      SplitKeepsOut(s[1..], sep, x);
    }
  }

  /** A string without carriage returns splits into its lines with none either. */
  lemma {:induction false} LinesKeepOutCr(s: string)
    requires '\r' !in s
    ensures NoneContain(Lines(s), '\r')
  {
    SplitKeepsOut(s, '\n', '\r');
  }

  lemma {:induction false} JoinSnoc(parts: seq<string>, x: string, sep: string)
    requires |parts| >= 1
    ensures Join(parts + [x], sep) == Join(parts, sep) + sep + x
  {
    if |parts| > 1 {
      assert (parts + [x])[1..] == parts[1..] + [x];
      JoinSnoc(parts[1..], x, sep);
    }
  }

  /** Two parts joined. */
  lemma JoinTwo(a: string, b: string, sep: string)
    ensures Join([a, b], sep) == a + sep + b
  {
    assert [a, b][1..] == [b];
  }

  /** Three parts joined. */
  lemma JoinThree(a: string, b: string, c: string, sep: string)
    ensures Join([a, b, c], sep) == a + sep + b + sep + c
  {
    assert [a, b, c][1..] == [b, c];
    JoinTwo(b, c, sep);
  }

  /** Joining parts whose last is empty is joining the others and adding one separator. */
  lemma JoinDropEmpty(parts: seq<string>, sep: string)
    requires |parts| >= 2 && parts[|parts| - 1] == ""
    ensures Join(parts, sep) == Join(parts[..|parts| - 1], sep) + sep
  {
    var init := parts[..|parts| - 1];
    assert parts == init + [""];
    JoinSnoc(init, "", sep);
  }

  /** `split` undoes `join` on parts that do not contain the separator. */
  lemma {:induction false} SplitOfJoin(parts: seq<string>, sep: char)
    requires |parts| >= 1
    requires NoneContain(parts, sep)
    ensures Split(Join(parts, [sep]), sep) == parts
  {
    if |parts| == 1 {
      SplitOfPlain(parts[0], sep);
    } else {
      SplitOfJoin(parts[1..], sep);
      SplitPrefix(parts[0], Join(parts[1..], [sep]), sep);
      assert [parts[0]] + parts[1..] == parts;
    }
  }

  lemma {:induction false} SplitOfPlain(s: string, sep: char)
    requires sep !in s
    ensures Split(s, sep) == [s]
  {
    if |s| > 0 {
      SplitOfPlain(s[1..], sep);
      assert [s[0]] + s[1..] == s;
    }
  }

  lemma {:induction false} SplitPrefix(a: string, b: string, sep: char)
    requires sep !in a
    ensures Split(a + [sep] + b, sep) == [a] + Split(b, sep)
  {
    if |a| == 0 {
      assert a + [sep] + b == [sep] + b;
      assert ([sep] + b)[1..] == b;
    } else {
      assert (a + [sep] + b)[1..] == a[1..] + [sep] + b;
      SplitPrefix(a[1..], b, sep);
      assert [a[0]] + a[1..] == a;
    }
  }

  /** The last piece of a split is empty exactly when the string is empty or ends with the separator. */
  lemma {:induction false} SplitLastEmpty(s: string, sep: char)
    ensures var p := Split(s, sep); p[|p| - 1] == "" <==> (|s| == 0 || s[|s| - 1] == sep)
  {
    if |s| > 0 {
      SplitLastEmpty(s[1..], sep);
    }
  }

  /** A string with a final line feed: its lines followed by one line feed. */
  lemma {:induction false} LinesOfTerminated(parts: seq<string>)
    requires |parts| >= 1
    requires NoneContain(parts, '\n') && NoneContain(parts, '\r')
    ensures Lines(Join(parts, "\n") + "\n") == parts
  {
    var q := parts + [""];
    JoinSnoc(parts, "", "\n");
    assert Join(parts, "\n") + "\n" == Join(q, "\n");
    SplitOfJoin(q, '\n');
    assert q[..|parts|] == parts;
    LinesOfSplit(Join(q, "\n"), q);
  }

  /** A string without a final line feed: exactly its lines. */
  lemma {:induction false} LinesOfUnterminated(parts: seq<string>)
    requires |parts| == 0 || parts[|parts| - 1] != ""
    requires NoneContain(parts, '\n') && NoneContain(parts, '\r')
    ensures Lines(Join(parts, "\n")) == parts
  {
    if |parts| > 0 {
      var n := |parts|;
      var j := Join(parts, "\n");
      SplitOfJoin(parts, '\n');
      NoneContainPrefix(parts, '\r', n - 1);
      LinesOfSplit(j, parts);
      assert parts[..n - 1] + [parts[n - 1]] == parts;
    } else {
      assert Split("", '\n') == [""];
    }
  }

  /** Terminated lines read back as the same lines. */
  lemma {:induction false} LinesOfTerminate(parts: seq<string>)
    requires NoneContain(parts, '\n') && NoneContain(parts, '\r')
    ensures Lines(Terminate(parts)) == parts
  {
    if |parts| > 0 {
      LinesOfTerminated(parts);
    }
  }

  /** Lines joined by line feeds read back as the same lines, less a final empty one. */
  lemma {:induction false} LinesOfJoin(parts: seq<string>)
    requires NoneContain(parts, '\n') && NoneContain(parts, '\r')
    ensures var n := |parts|;
      Lines(Join(parts, "\n")) == if n > 0 && parts[n - 1] == "" then parts[..n - 1] else parts
  {
    var n := |parts|;
    if n > 0 && parts[n - 1] == "" {
      var init := parts[..n - 1];
      if n == 1 {
        assert Split("", '\n') == [""];
      } else {
        assert parts == init + [""];
        JoinSnoc(init, "", "\n");
        assert Join(parts, "\n") == Join(init, "\n") + "\n";
        assert NoneContain(init, '\n') && NoneContain(init, '\r');
        LinesOfTerminated(init);
      }
    } else {
      LinesOfUnterminated(parts);
    }
  }

  /** A string is its lines joined by line feeds, plus the final line feed if it had one. */
  lemma {:induction false} Reassemble(s: string)
    requires '\r' !in s
    ensures s == Join(Lines(s), "\n") + (if |s| > 0 && s[|s| - 1] == '\n' then "\n" else "")
  {
    var p := Split(s, '\n');
    SplitKeepsOut(s, '\n', '\r');
    NoneContainPrefix(p, '\r', |p| - 1);
    LinesOfSplit(s, p);
    JoinOfSplit(s, '\n');
    SplitLastEmpty(s, '\n');
    ReassembleOf(s, p, Lines(s));
  }

  lemma ReassembleOf(s: string, p: seq<string>, ls: seq<string>)
    requires |p| >= 1 && Join(p, "\n") == s
    requires ls == p[..|p| - 1] + (if |p[|p| - 1]| == 0 then [] else [p[|p| - 1]])
    requires p[|p| - 1] == "" <==> (|s| == 0 || s[|s| - 1] == '\n')
    ensures s == Join(ls, "\n") + (if |s| > 0 && s[|s| - 1] == '\n' then "\n" else "")
  {
    var n := |p|;
    var init := p[..n - 1];
    assert p == init + [p[n - 1]];
    if p[n - 1] == "" {
      assert ls == init;
      if n == 1 {
        assert s == "";
      } else {
        JoinSnoc(init, "", "\n");
        assert s == Join(init, "\n") + "\n";
      }
    } else {
      assert ls == p;
    }
  }

  /** Lines joined by line feeds end in one exactly when there are two or more and the last is empty. */
  lemma {:induction false} JoinEndsWithNewline(parts: seq<string>)
    requires NoneContain(parts, '\n')
    ensures var j := Join(parts, "\n");
      (|j| > 0 && j[|j| - 1] == '\n') <==> (|parts| >= 2 && parts[|parts| - 1] == "")
  {
    if |parts| == 1 {
      assert '\n' !in parts[0];
    } else if |parts| >= 2 {
      var rest := parts[1..];
      JoinEndsWithNewline(rest);
      if |rest| == 1 {
        assert '\n' !in rest[0];
      }
    }
  }

  /** A prefix of parts free of `c` is free of it too. */
  lemma NoneContainPrefix(parts: seq<string>, c: char, k: nat)
    requires k <= |parts| && NoneContain(parts, c)
    ensures NoneContain(parts[..k], c)
  {
    assert forall i :: 0 <= i < k ==> parts[..k][i] == parts[i];
  }

  /** Rust's `char::is_whitespace`: the Unicode White_Space property. */
  predicate IsWhitespace(c: char) {
    || ('\t' <= c <= '\r') || c == ' ' || c == '\U{85}' || c == '\U{A0}' || c == '\U{1680}'
    || ('\U{2000}' <= c <= '\U{200A}') || c == '\U{2028}' || c == '\U{2029}'
    || c == '\U{202F}' || c == '\U{205F}' || c == '\U{3000}'
  }

  /** `str::trim_start`: drops the leading whitespace. */
  function TrimStart(s: string): (r: string)
    ensures |r| <= |s| && r == s[|s| - |r|..]
    ensures |r| > 0 ==> !IsWhitespace(r[0])
  {
    if |s| > 0 && IsWhitespace(s[0]) then TrimStart(s[1..]) else s
  }

  /** What `trim_start` drops is all whitespace. */
  lemma {:induction false} TrimStartDropsWhitespace(s: string)
    ensures forall i :: 0 <= i < |s| - |TrimStart(s)| ==> IsWhitespace(s[i])
    decreases |s|
  {
    if |s| > 0 && IsWhitespace(s[0]) {
      TrimStartDropsWhitespace(s[1..]);
      assert forall i :: 1 <= i < |s| - |TrimStart(s)| ==> s[i] == s[1..][i - 1];
    }
  }

  /** `str::trim_end`: drops the trailing whitespace. */
  function TrimEnd(s: string): (r: string)
    ensures |r| <= |s| && r == s[..|r|]
    ensures |r| > 0 ==> !IsWhitespace(r[|r| - 1])
  {
    if |s| > 0 && IsWhitespace(s[|s| - 1]) then TrimEnd(s[..|s| - 1]) else s
  }

  /** `str::trim`: drops leading and trailing whitespace. */
  function Trim(s: string): string {
    TrimEnd(TrimStart(s))
  }

  /** Text that neither begins nor ends with whitespace is its own trim. */
  lemma TrimPlain(s: string)
    requires |s| > 0 && !IsWhitespace(s[0]) && !IsWhitespace(s[|s| - 1])
    ensures Trim(s) == s
  {
  }

  /** The longest prefix free of whitespace. */
  function Word(s: string): (r: string)
    ensures |r| <= |s| && r == s[..|r|]
    ensures forall i :: 0 <= i < |r| ==> !IsWhitespace(r[i])
    ensures |r| < |s| ==> IsWhitespace(s[|r|])
  {
    if |s| == 0 || IsWhitespace(s[0]) then "" else [s[0]] + Word(s[1..])
  }

  /** A non-empty run of non-whitespace characters. */
  predicate IsToken(w: string) {
    |w| > 0 && forall j :: 0 <= j < |w| ==> !IsWhitespace(w[j])
  }

  /** `str::split_whitespace`: the maximal whitespace-free runs, in order. */
  function SplitWhitespace(s: string): (r: seq<string>)
    ensures forall i :: 0 <= i < |r| ==> IsToken(r[i])
    decreases |s|
  {
    var t := TrimStart(s);
    if |t| == 0 then
      []
    else
      var w := Word(t);
      [w] + SplitWhitespace(t[|w|..])
  }

  /** A token followed by whitespace is the word at the front. */
  lemma {:induction false} WordOfToken(w: string, rest: string)
    requires IsToken(w)
    requires |rest| == 0 || IsWhitespace(rest[0])
    ensures Word(w + rest) == w
    decreases |w|
  {
    assert (w + rest)[0] == w[0];
    if |w| > 1 {
      assert IsToken(w[1..]) by {
        forall j | 0 <= j < |w[1..]| ensures !IsWhitespace(w[1..][j]) { assert w[1..][j] == w[j + 1]; }
      }
      WordOfToken(w[1..], rest);
      assert (w + rest)[1..] == w[1..] + rest;
      assert [w[0]] + w[1..] == w;
    } else {
      assert (w + rest)[1..] == rest;
      assert [w[0]] == w;
    }
  }

  /** Splitting a token, a space and more text gives the token first. */
  lemma SplitWhitespaceCons(w: string, rest: string)
    requires IsToken(w)
    ensures SplitWhitespace(w + " " + rest) == [w] + SplitWhitespace(rest)
  {
    var s := w + " " + rest;
    assert s == w + (" " + rest);
    assert s[0] == w[0];
    assert TrimStart(s) == s;
    WordOfToken(w, " " + rest);
    assert s[|w|..] == " " + rest;
    assert (" " + rest)[1..] == rest;
    assert TrimStart(" " + rest) == TrimStart(rest);
  }

  /** A single token splits into itself. */
  lemma SplitWhitespaceToken(w: string)
    requires IsToken(w)
    ensures SplitWhitespace(w) == [w]
  {
    assert TrimStart(w) == w;
    WordOfToken(w, "");
    assert w + "" == w;
    assert w[|w|..] == "";
  }

  /** Every part is a token. */
  ghost predicate AllTokens(ws: seq<string>) {
    forall i :: 0 <= i < |ws| ==> IsToken(ws[i])
  }

  lemma AllTokensTail(ws: seq<string>)
    requires |ws| > 0 && AllTokens(ws)
    ensures IsToken(ws[0]) && AllTokens(ws[1..])
  {
    assert forall i :: 0 <= i < |ws| - 1 ==> ws[1..][i] == ws[i + 1];
  }

  /** Tokens joined by single spaces split back into the same tokens. */
  lemma {:induction false} SplitWhitespaceOfJoin(ws: seq<string>)
    requires AllTokens(ws)
    ensures SplitWhitespace(Join(ws, " ")) == ws
  {
    if |ws| == 0 {
      assert TrimStart("") == "";
    } else if |ws| == 1 {
      SplitWhitespaceToken(ws[0]);
    } else {
      AllTokensTail(ws);
      SplitWhitespaceOfJoin(ws[1..]);
      JoinCons(ws, " ");
      SplitWhitespaceCons(ws[0], Join(ws[1..], " "));
      assert [ws[0]] + ws[1..] == ws;
    }
  }

  lemma JoinCons(ws: seq<string>, sep: string)
    requires |ws| > 1
    ensures Join(ws, sep) == ws[0] + sep + Join(ws[1..], sep)
  {
  }

  /** True if every character is ASCII. */
  predicate IsAscii(s: string) {
    forall i :: 0 <= i < |s| ==> s[i] < '\U{80}'
  }

  /** ASCII upper-casing of one character. */
  function UpperChar(c: char): char {
    if 'a' <= c <= 'z' then (c as int - 32) as char else c
  }

  /** ASCII lower-casing of one character. */
  function LowerChar(c: char): char {
    if 'A' <= c <= 'Z' then (c as int + 32) as char else c
  }

  /** `str::to_uppercase` restricted to ASCII text. */
  function Upper(s: string): (r: string)
    ensures |r| == |s|
    ensures forall i :: 0 <= i < |s| ==> r[i] == UpperChar(s[i])
  {
    seq(|s|, i requires 0 <= i < |s| => UpperChar(s[i]))
  }

  /** `str::to_lowercase` restricted to ASCII text. */
  function Lower(s: string): (r: string)
    ensures |r| == |s|
    ensures forall i :: 0 <= i < |s| ==> r[i] == LowerChar(s[i])
  {
    seq(|s|, i requires 0 <= i < |s| => LowerChar(s[i]))
  }

  /** The first index from `i` on whose element starts with `prefix`, or None when there is none. */
  function FirstWithPrefix(parts: seq<string>, prefix: string, i: nat): (r: Option<nat>)
    requires i <= |parts|
    ensures r.Some? ==> i <= r.value < |parts| && StartsWith(parts[r.value], prefix)
    ensures r.Some? ==> forall m :: i <= m < r.value ==> !StartsWith(parts[m], prefix)
    ensures r.None? ==> forall m :: i <= m < |parts| ==> !StartsWith(parts[m], prefix)
    decreases |parts| - i
  {
    if i == |parts| then None
    else if StartsWith(parts[i], prefix) then Some(i)
    else FirstWithPrefix(parts, prefix, i + 1)
  }

  /** Splitting terminated lines gives the lines and one empty piece after them. */
  lemma {:induction false} SplitOfTerminate(parts: seq<string>)
    requires NoneContain(parts, '\n')
    ensures Split(Terminate(parts), '\n') == parts + [""]
  {
    if |parts| > 0 {
      JoinSnoc(parts, "", "\n");
      assert Terminate(parts) == Join(parts + [""], "\n");
      assert NoneContain(parts + [""], '\n');
      SplitOfJoin(parts + [""], '\n');
    }
  }

  /** Without carriage returns, the split pieces are the lines, perhaps with one empty piece after them. */
  lemma {:induction false} SplitOfLines(s: string)
    requires '\r' !in s
    ensures Split(s, '\n') == Lines(s) || Split(s, '\n') == Lines(s) + [""]
  {
    var p := Split(s, '\n');
    SplitKeepsOut(s, '\n', '\r');
    NoneContainPrefix(p, '\r', |p| - 1);
    LinesOfSplit(s, p);
    PiecesOfLines(p, Lines(s));
  }

  lemma PiecesOfLines(p: seq<string>, ls: seq<string>)
    requires |p| >= 1 && ls == p[..|p| - 1] + (if |p[|p| - 1]| == 0 then [] else [p[|p| - 1]])
    ensures p == ls || p == ls + [""]
  {
    assert p == p[..|p| - 1] + [p[|p| - 1]];
  }

  /** Terminating lines adds no character other than line feeds. */
  lemma {:induction false} TerminateKeepsOut(parts: seq<string>, x: char)
    requires x != '\n' && NoneContain(parts, x)
    ensures x !in Terminate(parts)
  {
    if |parts| > 0 {
      TerminateKeepsOut(parts[1..], x);
      assert x !in parts[0];
    }
  }

  /** Ending with one character is having it last. */
  lemma EndsWithOne(s: string, x: char)
    ensures EndsWith(s, [x]) <==> |s| > 0 && s[|s| - 1] == x
  {
  }

  /** A common last character can be dropped from both sides of a suffix test. */
  lemma EndsWithSnoc(s: string, p: string, x: char)
    ensures EndsWith(s + [x], p + [x]) <==> EndsWith(s, p)
  {
    var t := s + [x];
    if EndsWith(t, p + [x]) {
      assert t[|t| - |p| - 1..|t| - 1] == s[|s| - |p|..];
    }
    if EndsWith(s, p) {
      assert t[|t| - |p| - 1..] == s[|s| - |p|..] + [x];
    }
  }

  /** A string ending with `x` followed by `p` ends with `p`. */
  lemma EndsWithShorter(s: string, x: char, p: string)
    requires EndsWith(s, [x] + p)
    ensures EndsWith(s, p)
  {
    assert s[|s| - |p|..] == s[|s| - |p| - 1..][1..];
  }

  /** Joining adds no character but the separator's. */
  lemma {:induction false} JoinKeepsOut(parts: seq<string>, sep: string, x: char)
    requires x !in sep && NoneContain(parts, x)
    ensures x !in Join(parts, sep)
  {
    if |parts| > 1 {
      JoinKeepsOut(parts[1..], sep, x);
      assert x !in parts[0];
    } else if |parts| == 1 {
      assert x !in parts[0];
    }
  }

  /** A non-empty string has at least one line. */
  lemma {:induction false} NonEmptyHasLines(s: string)
    requires s != ""
    ensures |Lines(s)| > 0
  {
    var p := Split(s, '\n');
    JoinOfSplit(s, '\n');
    if |p| == 1 {
      assert Join(p, "\n") == p[0];
    }
  }
}
