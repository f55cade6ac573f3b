/**
  The JavaScript string built-ins that the FASTA parser uses, as functions on
  sequences of code points: the `\s` character class, `trim`, `split` on a
  character run and on a line break, `join("")`, `replace(/\s+/g, "")` and
  `toUpperCase` (on ASCII letters).
 */
module JsStrings {

  /** A code point matched by `\s` in an ECMAScript regular expression.
      String.prototype.trim removes exactly the same set: the WhiteSpace code
      points (tab, vertical tab, form feed, space, no-break space, the byte
      order mark and the other space separators) and the LineTerminator code
      points (line feed, carriage return, line and paragraph separator). */
  predicate IsSpace(c: char) {
    c == '\t' || c == '\n' || c == '\U{B}' || c == '\U{C}' || c == '\r' || c == ' '
    || c == '\U{A0}' || c == '\U{1680}' || ('\U{2000}' <= c <= '\U{200A}')
    || c == '\U{2028}' || c == '\U{2029}' || c == '\U{202F}' || c == '\U{205F}'
    || c == '\U{3000}' || c == '\U{FEFF}'
  }

  predicate IsLowerAscii(c: char) {
    'a' <= c <= 'z'
  }

  predicate IsUpperAscii(c: char) {
    'A' <= c <= 'Z'
  }

  /** `s` neither starts nor ends with whitespace. */
  predicate IsTrimmed(s: string) {
    s == [] || (!IsSpace(s[0]) && !IsSpace(s[|s| - 1]))
  }

  /** Every code point of `t` occurs in `s`. */
  predicate CharsFrom(t: string, s: string) {
    forall x | x in t :: x in s
  }

  predicate NoSpace(s: string) {
    forall i | 0 <= i < |s| :: !IsSpace(s[i])
  }

  predicate NoLowerAscii(s: string) {
    forall i | 0 <= i < |s| :: !IsLowerAscii(s[i])
  }

  /** Index of the first `c` in `s`, or |s| when `s` has none. */
  function IndexOf(s: string, c: char): (k: nat)
    ensures k <= |s|
    ensures forall i | 0 <= i < k :: s[i] != c
    ensures k < |s| ==> s[k] == c
    ensures k == |s| <==> c !in s
    decreases |s|
  {
    if s == [] then 0
    else
      var k := IndexOf(s[..|s| - 1], c);
      if k < |s| - 1 then k
      else if s[|s| - 1] == c then |s| - 1
      else assert s == s[..|s| - 1] + [s[|s| - 1]]; |s|
  }

  /** Index just past the run of `c` that starts at index `i` of `s`; `i`
      itself when `s` has no `c` there. */
  function RunEnd(s: string, c: char, i: nat): (e: nat)
    requires i <= |s|
    ensures i <= e <= |s|
    ensures forall j | i <= j < e :: s[j] == c
    ensures e < |s| ==> s[e] != c
    decreases |s| - i
  {
    if i == |s| || s[i] != c then i else RunEnd(s, c, i + 1)
  }

  /** Index of the first whitespace code point of `s`, or |s|. */
  function IndexOfSpace(s: string): (k: nat)
    ensures k <= |s|
    ensures forall i | 0 <= i < k :: !IsSpace(s[i])
    ensures k < |s| ==> IsSpace(s[k])
  {
    if s == [] || IsSpace(s[0]) then 0 else 1 + IndexOfSpace(s[1..])
  }

  /** Number of whitespace code points `s` starts with. */
  function LeadingSpace(s: string): (n: nat)
    ensures n <= |s|
    ensures forall i | 0 <= i < n :: IsSpace(s[i])
    ensures n < |s| ==> !IsSpace(s[n])
  {
    if s == [] || !IsSpace(s[0]) then 0 else 1 + LeadingSpace(s[1..])
  }

  /** Number of whitespace code points `s` ends with. */
  function TrailingSpace(s: string): (n: nat)
    ensures n <= |s|
    ensures forall i | |s| - n <= i < |s| :: IsSpace(s[i])
    ensures n < |s| ==> !IsSpace(s[|s| - n - 1])
  {
    if s == [] || !IsSpace(s[|s| - 1]) then 0 else 1 + TrailingSpace(s[..|s| - 1])
  }

  /** `s.trim()`: `s` without its leading and trailing whitespace. The result
      is empty exactly when `s` is all whitespace, and a string that neither
      starts nor ends with whitespace is left as it is. */
  function Trim(s: string): (t: string)
    ensures IsTrimmed(t)
    ensures t == [] <==> forall i | 0 <= i < |s| :: IsSpace(s[i])
    ensures IsTrimmed(s) ==> t == s
    ensures CharsFrom(t, s)
    ensures exists i | 0 <= i <= |s| - |t| ::
      && s[i..][..|t|] == t
      && (forall j | 0 <= j < i :: IsSpace(s[j]))
      && (forall j | i + |t| <= j < |s| :: IsSpace(s[j]))
  {
    var n := LeadingSpace(s);
    var u := s[n..];
    TrimWithin(s, n, TrailingSpace(u));
    u[..|u| - TrailingSpace(u)]
  }

  /** Whitespace that ends `s[n..]` ends `s`. */
  lemma TrimWithin(s: string, n: nat, m: nat)
    requires n + m <= |s|
    requires forall i | |s| - n - m <= i < |s| - n :: IsSpace(s[n..][i])
    ensures forall j | n + (|s| - n - m) <= j < |s| :: IsSpace(s[j])
  {
    forall j | n + (|s| - n - m) <= j < |s| ensures IsSpace(s[j]) {
      assert s[j] == s[n..][j - n];
    }
  }

  /** `s.split(/c+/)` for the one-character pattern `c`: the pieces of `s`
      between maximal runs of `c`. A run at the start or at the end yields an
      empty first or last piece, and the empty string splits into one empty
      piece. */
  function SplitOnRuns(s: string, c: char): (pieces: seq<string>)
    ensures |pieces| >= 1
    ensures forall k | 0 <= k < |pieces| :: c !in pieces[k]
    decreases |s|
  {
    var k := IndexOf(s, c);
    if k == |s| then [s]
    else
      var e := RunEnd(s, c, k);
      [s[..k]] + SplitOnRuns(s[e..], c)
  }

  /** `pieces.join(c)`: the pieces with one `c` between neighbours. */
  function JoinWith(pieces: seq<string>, c: char): string
    decreases |pieces|
  {
    if |pieces| == 0 then []
    else if |pieces| == 1 then pieces[0]
    else pieces[0] + ([c] + JoinWith(pieces[1..], c))
  }

  /** `s` with every maximal run of `c` replaced by a single `c`. */
  function CollapseRuns(s: string, c: char): string {
    CollapseFrom(s, c, 0)
  }

  /** `CollapseRuns(s[i..], c)`, read off `s` from index `i` on. */
  function CollapseFrom(s: string, c: char, i: nat): string
    requires i <= |s|
    decreases |s| - i
  {
    if i == |s| then []
    else if s[i] == c then [c] + CollapseFrom(s, c, RunEnd(s, c, i))
    else [s[i]] + CollapseFrom(s, c, i + 1)
  }

  /** A stretch without `c` passes through unchanged. */
  lemma {:induction false} CollapsePrefix(s: string, c: char, i: nat, k: nat)
    requires i <= k <= |s|
    requires forall j | i <= j < k :: s[j] != c
    ensures CollapseFrom(s, c, i) == s[i..k] + CollapseFrom(s, c, k)
    decreases k - i
  {
    if i == k {
      assert s[i..k] == [];
    } else {
      CollapsePrefix(s, c, i + 1, k);
      ConsSlice(s, i, k, CollapseFrom(s, c, k));
    }
  }

  /** The element at `i` followed by the slice after it is the slice from `i`. */
  lemma ConsSlice<T>(s: seq<T>, i: nat, k: nat, x: seq<T>)
    requires i < k <= |s|
    ensures [s[i]] + (s[i + 1..k] + x) == s[i..k] + x
  {
    assert s[i..k] == [s[i]] + s[i + 1..k];
  }

  /** A run of `c` starting at `i` collapses to one `c`. */
  lemma CollapseRun(s: string, c: char, i: nat)
    requires i < |s| && s[i] == c
    ensures CollapseFrom(s, c, i) == [c] + CollapseFrom(s, c, RunEnd(s, c, i))
  {
  }

  /** Collapsing a suffix of `s` from index `i` is collapsing `s` from
      index `j + i`. */
  lemma {:induction false} CollapseShift(s: string, c: char, j: nat, i: nat)
    requires j + i <= |s|
    ensures CollapseFrom(s[j..], c, i) == CollapseFrom(s, c, j + i)
    decreases |s| - j - i
  {
    if j + i < |s| {
      assert s[j..][i] == s[j + i];
      if s[j + i] == c {
        RunEndShift(s, c, j, i);
        CollapseShift(s, c, j, RunEnd(s[j..], c, i));
      } else {
        CollapseShift(s, c, j, i + 1);
      }
    }
  }

  /** A run ends at the same place in `s` and in a suffix of `s`. */
  lemma RunEndShift(s: string, c: char, j: nat, i: nat)
    requires j + i <= |s|
    ensures j + RunEnd(s[j..], c, i) == RunEnd(s, c, j + i)
  {
  }

  /** Joining a head onto at least one more piece. */
  lemma JoinWithCons(head: string, tail: seq<string>, c: char)
    requires tail != []
    ensures JoinWith([head] + tail, c) == head + ([c] + JoinWith(tail, c))
  {
    DropCons(head, tail);
  }

  /** `split(/c+/)` is undone by joining with one `c`, up to the length of
      each run: the pieces rejoined give `s` with every run of `c` collapsed
      to a single `c`. As no piece contains `c`, this fixes the pieces. */
  lemma {:induction false} SplitOnRunsJoin(s: string, c: char)
    ensures JoinWith(SplitOnRuns(s, c), c) == CollapseRuns(s, c)
    decreases |s|
  {
    var k := IndexOf(s, c);
    CollapsePrefix(s, c, 0, k);
    assert s[0..k] == s[..k];
    if k == |s| {
      assert s[..k] + [] == s;
    } else {
      var e := RunEnd(s, c, k);
      var rest := s[e..];
      calc {
        JoinWith(SplitOnRuns(s, c), c);
        { SplitOnRunsUnfold(s, c, k, e);
          JoinWithCons(s[..k], SplitOnRuns(rest, c), c); }
        s[..k] + ([c] + JoinWith(SplitOnRuns(rest, c), c));
        { SplitOnRunsJoin(rest, c);
          assert JoinWith(SplitOnRuns(rest, c), c) == CollapseFrom(rest, c, 0); }
        s[..k] + ([c] + CollapseFrom(rest, c, 0));
        { CollapseShift(s, c, e, 0); }
        s[..k] + ([c] + CollapseFrom(s, c, e));
        { CollapseRun(s, c, k); }
        s[..k] + CollapseFrom(s, c, k);
        CollapseRuns(s, c);
      }
    }
  }

  /** One step of `split(/c+/)` on a text that contains `c`: the piece
      before the first `c`, then the pieces after the run it starts. */
  lemma SplitOnRunsUnfold(s: string, c: char, k: nat, e: nat)
    requires k == IndexOf(s, c) && k < |s| && e == RunEnd(s, c, k)
    ensures SplitOnRuns(s, c) == [s[..k]] + SplitOnRuns(s[e..], c)
  {
  }

  lemma ConsIndex<T>(x: T, r: seq<T>, j: nat)
    requires j <= |r|
    ensures ([x] + r)[j] == if j == 0 then x else r[j - 1]
  {
  }

  /** Every piece of `split(/c+/)` is made of code points of the input. */
  lemma SplitOnRunsChars(s: string, c: char)
    ensures forall k | 0 <= k < |SplitOnRuns(s, c)| :: CharsFrom(SplitOnRuns(s, c)[k], s)
  {
    forall j | 0 <= j < |SplitOnRuns(s, c)| ensures CharsFrom(SplitOnRuns(s, c)[j], s) {
      SplitOnRunsPiece(s, c, j);
    }
  }

  lemma {:induction false} SplitOnRunsPiece(s: string, c: char, j: nat)
    requires j < |SplitOnRuns(s, c)|
    ensures CharsFrom(SplitOnRuns(s, c)[j], s)
    decreases |s|
  {
    var k := IndexOf(s, c);
    if k == |s| {
      assert SplitOnRuns(s, c)[j] == s;
    } else {
      var e := RunEnd(s, c, k);
      var rest := s[e..];
      SplitOnRunsUnfold(s, c, k, e);
      ConsIndex(s[..k], SplitOnRuns(rest, c), j);
      if j == 0 {
        PrefixChars(s, k);
      } else {
        SplitOnRunsPiece(rest, c, j - 1);
        SuffixChars(s, e);
        CharsFromTrans(SplitOnRuns(rest, c)[j - 1], rest, s);
      }
    }
  }

  lemma PrefixChars(s: string, k: nat)
    requires k <= |s|
    ensures CharsFrom(s[..k], s)
  {
    forall x | x in s[..k] ensures x in s {
      var i :| 0 <= i < k && s[..k][i] == x;
      assert s[i] == x;
    }
  }

  lemma SuffixChars(s: string, k: nat)
    requires k <= |s|
    ensures CharsFrom(s[k..], s)
  {
    forall x | x in s[k..] ensures x in s {
      var i :| 0 <= i < |s| - k && s[k..][i] == x;
      assert s[k + i] == x;
    }
  }

  lemma CharsFromTrans(t: string, u: string, s: string)
    requires CharsFrom(t, u) && CharsFrom(u, s)
    ensures CharsFrom(t, s)
  {}

  /** A line without the carriage return that ends it, if any. */
  function DropCarriageReturn(line: string): (r: string)
    ensures r <= line
    ensures line == r || line == r + "\r"
    ensures line == r + "\r" <==> (line != [] && line[|line| - 1] == '\r')
  {
    if line != [] && line[|line| - 1] == '\r' then line[..|line| - 1] else line
  }

  /** `s.split(/\r?\n/)`: the lines of `s` without their line breaks, where a
      line break is a line feed with an optional carriage return before it. */
  function SplitLines(s: string): (lines: seq<string>)
    ensures |lines| >= 1
    ensures forall k | 0 <= k < |lines| :: '\n' !in lines[k]
    decreases |s|
  {
    var k := IndexOf(s, '\n');
    if k == |s| then [s]
    else [DropCarriageReturn(s[..k])] + SplitLines(s[k + 1..])
  }

  /** Every line holds only code points of the text it was split from. */
  lemma SplitLinesChars(s: string)
    ensures forall k | 0 <= k < |SplitLines(s)| :: CharsFrom(SplitLines(s)[k], s)
  {
    forall j | 0 <= j < |SplitLines(s)| ensures CharsFrom(SplitLines(s)[j], s) {
      SplitLinesLine(s, j);
    }
  }

  lemma {:induction false} SplitLinesLine(s: string, j: nat)
    requires j < |SplitLines(s)|
    ensures CharsFrom(SplitLines(s)[j], s)
    decreases |s|
  {
    var k := IndexOf(s, '\n');
    if k == |s| {
      assert SplitLines(s)[j] == s;
    } else {
      var rest := s[k + 1..];
      var line := DropCarriageReturn(s[..k]);
      SplitLinesUnfold(s, k);
      if j == 0 {
        PrefixChars(s, k);
        CharsFromTrans(line, s[..k], s);
      } else {
        SplitLinesLine(rest, j - 1);
        assert SplitLines(s)[j] == SplitLines(s)[1..][j - 1];
        SuffixChars(s, k + 1);
        CharsFromTrans(SplitLines(rest)[j - 1], rest, s);
      }
    }
  }

  /** `pieces.join("")`. */
  function Concat(pieces: seq<string>): (s: string)
    ensures |pieces| == 1 ==> s == pieces[0]
  {
    if pieces == [] then [] else pieces[0] + Concat(pieces[1..])
  }

  /** `s.replace(/\s+/g, "")`: `s` with every whitespace code point removed,
      the others kept in order. */
  function StripSpace(s: string): (t: string)
    ensures NoSpace(t)
    ensures |t| <= |s|
    ensures NoSpace(s) ==> t == s
    ensures CharsFrom(t, s)
  {
    if s == [] then []
    else (if IsSpace(s[0]) then [] else [s[0]]) + StripSpace(s[1..])
  }

  /** Removing whitespace distributes over concatenation. */
  lemma {:induction false} StripSpaceAppend(a: string, b: string)
    ensures StripSpace(a + b) == StripSpace(a) + StripSpace(b)
  {
    if a == [] {
      assert a + b == b;
    } else {
      assert (a + b)[0] == a[0];
      assert (a + b)[1..] == a[1..] + b;
      StripSpaceAppend(a[1..], b);
      var h := if IsSpace(a[0]) then [] else [a[0]];
      assert h + (StripSpace(a[1..]) + StripSpace(b)) == (h + StripSpace(a[1..])) + StripSpace(b);
    }
  }

  /** Dropping the first element of a sequence built by prepending one. */
  lemma DropCons<T>(x: T, r: seq<T>)
    ensures ([x] + r)[1..] == r
  {
  }

  /** The lines after the first are the lines of the text after the first
      line feed; there are none when the text has no line feed. */
  lemma LinesAfterFirst(s: string)
    ensures IndexOf(s, '\n') == |s| ==> SplitLines(s)[1..] == []
    ensures IndexOf(s, '\n') < |s| ==> SplitLines(s)[1..] == SplitLines(s[IndexOf(s, '\n') + 1..])
  {
    var k := IndexOf(s, '\n');
    if k < |s| {
      LinesAfterBreak(s, k);
    } else {
      LinesNoBreak(s);
    }
  }

  lemma LinesNoBreak(s: string)
    requires IndexOf(s, '\n') == |s|
    ensures SplitLines(s)[1..] == []
  {
    assert |SplitLines(s)| == 1;
  }

  lemma LinesAfterBreak(s: string, k: nat)
    requires k == IndexOf(s, '\n') && k < |s|
    ensures SplitLines(s)[1..] == SplitLines(s[k + 1..])
  {
    SplitLinesUnfold(s, k);
  }

  lemma SplitLinesUnfold(s: string, k: nat)
    requires k == IndexOf(s, '\n') && k < |s|
    ensures |SplitLines(s)| == 1 + |SplitLines(s[k + 1..])|
    ensures SplitLines(s)[0] == DropCarriageReturn(s[..k])
    ensures SplitLines(s)[1..] == SplitLines(s[k + 1..])
  {}

  /** `join("")` of a line followed by more lines. */
  lemma ConcatCons(line: string, rest: seq<string>)
    ensures Concat([line] + rest) == line + Concat(rest)
  {
    DropCons(line, rest);
  }

  /** Stripping whitespace around a whitespace code point at `k` joins
      the stripped text before it and the stripped text after it. */
  lemma StripAroundSpace(s: string, k: nat)
    requires k < |s| && IsSpace(s[k])
    ensures StripSpace(s) == StripSpace(s[..k]) + StripSpace(s[k + 1..])
  {
    SplitAt(s, k);
    StripSpaceAppend(s[..k], [s[k]] + s[k + 1..]);
    StripLeadingSpace(s[k], s[k + 1..]);
  }

  /** A sequence is its prefix, the element at `k` and its suffix. */
  lemma SplitAt<T>(s: seq<T>, k: nat)
    requires k < |s|
    ensures s == s[..k] + ([s[k]] + s[k + 1..])
  {
  }

  /** A leading whitespace code point is removed. */
  lemma StripLeadingSpace(c: char, t: string)
    requires IsSpace(c)
    ensures StripSpace([c] + t) == StripSpace(t)
  {
    DropCons(c, t);
  }

  /** The carriage return a line break drops is whitespace. */
  lemma StripCarriageReturn(line: string)
    ensures StripSpace(DropCarriageReturn(line)) == StripSpace(line)
  {
    var r := DropCarriageReturn(line);
    if r != line {
      StripSpaceAppend(r, "\r");
      assert StripSpace("\r") == [];
    }
  }

  /** Splitting into lines and joining them again removes only line breaks,
      which are whitespace: once whitespace is stripped, nothing differs. */
  lemma {:induction false} StripSpaceLines(s: string)
    ensures StripSpace(Concat(SplitLines(s))) == StripSpace(s)
    decreases |s|
  {
    var k := IndexOf(s, '\n');
    if k < |s| {
      var line := DropCarriageReturn(s[..k]);
      var rest := SplitLines(s[k + 1..]);
      ConcatCons(line, rest);
      StripSpaceAppend(line, Concat(rest));
      StripSpaceLines(s[k + 1..]);
      StripAroundSpace(s, k);
      StripCarriageReturn(s[..k]);
    }
  }

  /** `toUpperCase` on one code point, restricted to the ASCII letters. */
  function UpperChar(c: char): (u: char)
    ensures !IsLowerAscii(u)
    ensures IsLowerAscii(c) ==> IsUpperAscii(u) && u as int + 32 == c as int
    ensures !IsLowerAscii(c) ==> u == c
  {
    if IsLowerAscii(c) then (c as int - 32) as char else c
  }

  /** `s.toUpperCase()` on ASCII letters: the result has the length of `s`,
      no lower-case ASCII letter, and differs from `s` only where `s` has one. */
  function ToUpper(s: string): (t: string)
    ensures |t| == |s|
    ensures NoLowerAscii(t)
    ensures forall i | 0 <= i < |s| :: t[i] == UpperChar(s[i])
    ensures NoLowerAscii(s) ==> t == s
    ensures NoSpace(s) ==> NoSpace(t)
    ensures forall x | x in t && !IsUpperAscii(x) :: x in s
  {
    seq(|s|, i requires 0 <= i < |s| => UpperChar(s[i]))
  }

  /** `s.split(/\s+/)[0]`: the longest prefix of `s` without whitespace. */
  function FirstToken(s: string): (t: string)
    ensures t <= s
    ensures NoSpace(t)
    ensures |t| < |s| ==> IsSpace(s[|t|])
  {
    s[..IndexOfSpace(s)]
  }

  /** A prefix of `s` followed in `s` by whitespace has the same first
      whitespace position as `s`. */
  lemma {:induction false} IndexOfSpacePrefix(t: string, s: string)
    requires t <= s && |t| < |s| && IsSpace(s[|t|])
    ensures IndexOfSpace(t) == IndexOfSpace(s)
  {
    if t != [] && !IsSpace(t[0]) {
      assert s[0] == t[0];
      IndexOfSpacePrefix(t[1..], s[1..]);
    }
  }

  /** The first token of the first line is the first token of the text:
      a line break is whitespace. */
  lemma FirstTokenFirstLine(s: string)
    ensures FirstToken(SplitLines(s)[0]) == FirstToken(s)
  {
    var k := IndexOf(s, '\n');
    if k < |s| {
      var line := DropCarriageReturn(s[..k]);
      assert line <= s && |line| < |s| && IsSpace(s[|line|]);
      IndexOfSpacePrefix(line, s);
    }
  }
}
