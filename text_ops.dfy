/** Python `str` operations the publishing scripts rely on, on `seq<char>`:
    `startswith`, `endswith`, `"sep".join`, `replace` (defined through a
    leftmost `find` and a non-overlapping `split`, which the scripts do not
    call themselves), `splitlines`, and the decimal rendering of a
    non-negative `int`. */
module TextOps {

  datatype Option<+T> = None | Some(value: T)

  predicate StartsWith(s: string, p: string) {
    |p| <= |s| && s[..|p|] == p
  }

  predicate EndsWith(s: string, p: string) {
    |p| <= |s| && s[|s| - |p|..] == p
  }

  /** `p` occurs in `s` starting at index `i`. */
  predicate OccursAt(s: string, p: string, i: nat) {
    i + |p| <= |s| && s[i..i + |p|] == p
  }

  /** Python's `p in s`. */
  ghost predicate Contains(s: string, p: string) {
    exists i: nat :: OccursAt(s, p, i)
  }

  /** The first index at or after `k` where `p` occurs (Python's `s.find(p, k)`). */
  function FindFrom(s: string, p: string, k: nat): (r: Option<nat>)
    requires |p| > 0
    ensures r.Some? ==> k <= r.value && OccursAt(s, p, r.value)
    decreases |s| - k
  {
    if k + |p| > |s| then None
    else if s[k..k + |p|] == p then Some(k)
    else FindFrom(s, p, k + 1)
  }

  /** `FindFrom` misses no earlier occurrence, and reports none only when there is none. */
  lemma {:induction false} FindFromFirst(s: string, p: string, k: nat)
    requires |p| > 0
    ensures FindFrom(s, p, k).Some? ==> forall i: nat :: k <= i < FindFrom(s, p, k).value ==> !OccursAt(s, p, i)
    ensures FindFrom(s, p, k).None? ==> forall i: nat :: k <= i ==> !OccursAt(s, p, i)
    decreases |s| - k
  {
    if k + |p| <= |s| && s[k..k + |p|] != p {
      FindFromFirst(s, p, k + 1);
    }
  }

  function Find(s: string, p: string): Option<nat>
    requires |p| > 0
  {
    FindFrom(s, p, 0)
  }

  /** Python's `s.split(p)`: cut at the leftmost occurrence, then split the rest. */
  function Split(s: string, p: string): (parts: seq<string>)
    requires |p| > 0
    ensures |parts| >= 1
    decreases |s|
  {
    match Find(s, p)
    case None => [s]
    case Some(i) => [s[..i]] + Split(s[i + |p|..], p)
  }

  /** Regrouping a concatenation. */
  lemma ConcatAssoc(a: string, b: string, c: string)
    ensures a + (b + c) == (a + b) + c
  {
  }

  lemma ConcatAssoc4(a: string, b: string, c: string, d: string)
    ensures a + (b + (c + d)) == (a + b + c) + d
  {
  }

  lemma ConcatEmpty(s: string)
    ensures s + "" == s && "" + s == s
  {
  }

  /** Python's `sep.join(parts)`. */
  function Join(parts: seq<string>, sep: string): string
  {
    if |parts| == 0 then ""
    else if |parts| == 1 then parts[0]
    else parts[0] + sep + Join(parts[1..], sep)
  }

  /** Python's `s.replace(p, r)` for a non-empty `p`: every occurrence, scanning
      left to right without overlap, is replaced. */
  function Replace(s: string, p: string, r: string): string
    requires |p| > 0
  {
    Join(Split(s, p), r)
  }

  // ---------------------------------------------------------------------------
  // Occurrences in concatenations

  lemma OccursInPrefix(a: string, b: string, p: string, i: nat)
    requires OccursAt(a, p, i)
    ensures OccursAt(a + b, p, i)
  {
    assert (a + b)[i..i + |p|] == a[i..i + |p|];
  }

  lemma OccursInSuffix(a: string, b: string, p: string, i: nat)
    requires OccursAt(b, p, i)
    ensures OccursAt(a + b, p, |a| + i)
  {
    assert (a + b)[|a| + i..|a| + i + |p|] == b[i..i + |p|];
  }

  /** An occurrence in `a + b` lies inside `a`, inside `b`, or straddles the seam. */
  lemma OccurrenceSplit(a: string, b: string, p: string, i: nat)
    requires OccursAt(a + b, p, i)
    ensures || (i + |p| <= |a| && OccursAt(a, p, i))
            || (i >= |a| && OccursAt(b, p, i - |a|))
            || (i < |a| < i + |p|)
  {
    if i + |p| <= |a| {
      assert (a + b)[i..i + |p|] == a[i..i + |p|];
    } else if i >= |a| {
      assert (a + b)[i..i + |p|] == b[i - |a|..i - |a| + |p|];
    }
  }

  /** A character of an occurrence equals the corresponding character of the pattern. */
  lemma OccursAtChar(s: string, p: string, i: nat, k: nat)
    requires OccursAt(s, p, i) && k < |p|
    ensures s[i + k] == p[k]
  {
    assert s[i..i + |p|][k] == s[i + k];
  }

  lemma NoOccurrenceInPrefix(a: string, b: string, p: string)
    requires !Contains(a + b, p)
    ensures !Contains(a, p)
  {
    if Contains(a, p) {
      var i: nat :| OccursAt(a, p, i);
      OccursInPrefix(a, b, p, i);
    }
  }

  lemma NoOccurrenceInSuffix(a: string, b: string, p: string)
    requires !Contains(a + b, p)
    ensures !Contains(b, p)
  {
    if Contains(b, p) {
      var i: nat :| OccursAt(b, p, i);
      OccursInSuffix(a, b, p, i);
    }
  }

  /** When the first character of `p` does not occur in `a`, no occurrence
      of `p` in `a + b` can start inside `a`. */
  lemma NoOccurrenceAfterForeignPrefix(a: string, b: string, p: string)
    requires |p| > 0 && p[0] !in a && !Contains(b, p)
    ensures !Contains(a + b, p)
  {
    if Contains(a + b, p) {
      var i: nat :| OccursAt(a + b, p, i);
      OccursAtChar(a + b, p, i, 0);
      if i >= |a| {
        OccurrenceSplit(a, b, p, i);
      }
    }
  }

  // ---------------------------------------------------------------------------
  // split / join / replace

  lemma FindNone(s: string, p: string)
    requires |p| > 0 && !Contains(s, p)
    ensures Find(s, p) == None
  {
    FindFromFirst(s, p, 0);
  }

  lemma FindFirstOccurrence(s: string, p: string, i: nat)
    requires |p| > 0 && OccursAt(s, p, i)
    requires forall k: nat :: k < i ==> !OccursAt(s, p, k)
    ensures Find(s, p) == Some(i)
  {
    FindFromFirst(s, p, 0);
  }

  /** Every piece that `split` returns is free of the separator. */
  lemma {:induction false} SplitPartsFree(s: string, p: string)
    requires |p| > 0
    ensures forall k :: 0 <= k < |Split(s, p)| ==> !Contains(Split(s, p)[k], p)
    decreases |s|
  {
    FindFromFirst(s, p, 0);
    match Find(s, p)
    case None =>
      assert Split(s, p) == [s];
    case Some(i) =>
      var rest := s[i + |p|..];
      SplitPartsFree(rest, p);
      assert Split(s, p) == [s[..i]] + Split(rest, p);
      PrefixBeforeFind(s, p, i);
  }

  /** Nothing before the first occurrence contains the separator. */
  lemma PrefixBeforeFind(s: string, p: string, i: nat)
    requires |p| > 0 && Find(s, p) == Some(i)
    ensures !Contains(s[..i], p)
  {
    FindFromFirst(s, p, 0);
    forall j: nat | j + |p| <= i
      ensures !OccursAt(s[..i], p, j)
    {
      assert !OccursAt(s, p, j);
      assert s[..i][j..j + |p|] == s[j..j + |p|];
    }
  }

  /** `split` and `join` on the same separator are inverse. */
  lemma {:induction false} JoinSplit(s: string, p: string)
    requires |p| > 0
    ensures Join(Split(s, p), p) == s
    decreases |s|
  {
    match Find(s, p)
    case None =>
      assert Split(s, p) == [s];
    case Some(i) =>
      var front, rest := s[..i], s[i + |p|..];
      SplitAt(s, p, i);
      JoinSplit(rest, p);
      JoinCons(front, Split(rest, p), p);
      assert Join(Split(s, p), p) == front + p + rest;
      SliceThree(s, i, i + |p|);
  }

  /** A text is its three slices around two cut points, in order. */
  lemma SliceThree(s: string, i: nat, j: nat)
    requires i <= j <= |s|
    ensures s == s[..i] + s[i..j] + s[j..]
  {
    assert s[..i] + s[i..j] == s[..j];
    assert s[..j] + s[j..] == s;
  }

  lemma SplitAt(s: string, p: string, i: nat)
    requires |p| > 0 && Find(s, p) == Some(i)
    ensures i + |p| <= |s| && s[i..i + |p|] == p
    ensures Split(s, p) == [s[..i]] + Split(s[i + |p|..], p)
  {
    assert OccursAt(s, p, i) by {
      assert FindFrom(s, p, 0) == Some(i);
    }
  }

  lemma JoinCons(x: string, tail: seq<string>, sep: string)
    requires |tail| >= 1
    ensures Join([x] + tail, sep) == x + sep + Join(tail, sep)
  {
    assert ([x] + tail)[1..] == tail;
  }

  /** Replacing a pattern that does not occur leaves the text unchanged. */
  lemma ReplaceAbsent(s: string, p: string, r: string)
    requires |p| > 0 && !Contains(s, p)
    ensures Replace(s, p, r) == s
  {
    FindNone(s, p);
  }

  /** When the first occurrence of `p` in `x + p + y` is the displayed one,
      `replace` swaps it and carries on with `y`. */
  lemma ReplaceFirst(x: string, p: string, y: string, r: string)
    requires |p| > 0
    requires forall k: nat :: k < |x| ==> !OccursAt(x + p + y, p, k)
    ensures Replace(x + p + y, p, r) == x + r + Replace(y, p, r)
  {
    var s := x + p + y;
    assert s[|x|..|x| + |p|] == p;
    FindFirstOccurrence(s, p, |x|);
    assert s[..|x|] == x;
    assert s[|x| + |p|..] == y;
    var tail := Split(y, p);
    assert Split(s, p) == [x] + tail;
  }

  /** `p` overlaps `r` when some placement of `p` across a copy of `r`
      agrees with it on every shared position. */
  ghost predicate Overlaps(p: string, r: string) {
    || (exists d: nat :: d < |p| && Agree(p[d..], r))
    || (exists e: nat :: 0 < e < |r| && Agree(r[e..], p))
  }

  /** One of the two strings is a prefix of the other. */
  predicate Agree(a: string, b: string) {
    if |a| <= |b| then b[..|a|] == a else a[..|b|] == b
  }

  /** Joining separator-free parts with a separator that `p` cannot overlap
      yields a text free of `p`. */
  lemma {:induction false} JoinFree(parts: seq<string>, sep: string, p: string)
    requires |p| > 0 && !Overlaps(p, sep)
    requires forall k :: 0 <= k < |parts| ==> !Contains(parts[k], p)
    ensures !Contains(Join(parts, sep), p)
    decreases |parts|
  {
    if |parts| == 0 {
      assert !OccursAt("", p, 0);
    } else if |parts| > 1 {
      var x, rest := parts[0], Join(parts[1..], sep);
      JoinFree(parts[1..], sep, p);
      assert Join(parts, sep) == x + (sep + rest);
      if Contains(x + (sep + rest), p) {
        var i: nat :| OccursAt(x + (sep + rest), p, i);
        OccurrenceSplit(x, sep + rest, p, i);
        if i + |p| <= |x| {
          assert Contains(x, p);
        } else if i >= |x| {
          var j := i - |x|;
          OccurrenceSplit(sep, rest, p, j);
          if j < |sep| {
            SeamAgrees(sep, rest, p, j);
          }
        } else {
          var d := |x| - i;
          assert d < |p|;
          CrossAgrees(x, sep + rest, p, i, sep);
        }
      }
    }
  }

  /** An occurrence of `p` starting inside the separator shows an overlap. */
  lemma SeamAgrees(sep: string, rest: string, p: string, j: nat)
    requires |p| > 0 && OccursAt(sep + rest, p, j) && j < |sep|
    ensures Overlaps(p, sep)
  {
    var s := sep + rest;
    var a := sep[j..];
    if |a| <= |p| {
      assert s[j..j + |a|] == a;
      assert p[..|a|] == a;
    } else {
      assert s[j..j + |p|] == sep[j..j + |p|];
      assert a[..|p|] == p;
    }
    if j == 0 {
      assert p[0..] == p && sep[0..] == sep;
      assert Agree(p[0..], sep);
    } else {
      assert Agree(sep[j..], p);
    }
  }

  /** An occurrence of `p` starting in `x` and reaching into `sep + rest`
      shows an overlap. */
  lemma CrossAgrees(x: string, t: string, p: string, i: nat, sep: string)
    requires |p| > 0 && OccursAt(x + t, p, i) && i < |x| < i + |p|
    requires StartsWith(t, sep)
    ensures Overlaps(p, sep)
  {
    var s := x + t;
    var d: nat := |x| - i;
    var a := p[d..];
    if |a| <= |sep| {
      assert forall k :: 0 <= k < |a| ==> a[k] == s[|x| + k] == sep[k] by {
        forall k | 0 <= k < |a| ensures a[k] == s[|x| + k] == sep[k] {
          OccursAtChar(s, p, i, d + k);
          assert s[|x| + k] == t[k] == t[..|sep|][k];
        }
      }
      assert sep[..|a|] == a;
    } else {
      assert forall k :: 0 <= k < |sep| ==> a[k] == s[|x| + k] == sep[k] by {
        forall k | 0 <= k < |sep| ensures a[k] == s[|x| + k] == sep[k] {
          OccursAtChar(s, p, i, d + k);
          assert s[|x| + k] == t[k] == t[..|sep|][k];
        }
      }
      assert a[..|sep|] == sep;
    }
    assert Agree(p[d..], sep);
  }

  /** After `replace`, the pattern no longer occurs, provided the
      replacement cannot overlap it. */
  lemma ReplaceRemoves(s: string, p: string, r: string)
    requires |p| > 0 && !Overlaps(p, r)
    ensures !Contains(Replace(s, p, r), p)
  {
    SplitPartsFree(s, p);
    JoinFree(Split(s, p), r, p);
  }

  /** Every piece of `split` is a piece of the original text, so a text free of
      `q` splits into pieces free of `q`. */
  lemma {:induction false} SplitKeepsAbsence(s: string, p: string, q: string)
    requires |p| > 0 && !Contains(s, q)
    ensures forall k :: 0 <= k < |Split(s, p)| ==> !Contains(Split(s, p)[k], q)
    decreases |s|
  {
    match Find(s, p)
    case None =>
    case Some(i) =>
      var rest := s[i + |p|..];
      assert s == s[..i] + s[i..];
      assert s[i..] == s[i..i + |p|] + rest;
      NoOccurrenceInPrefix(s[..i], s[i..], q);
      NoOccurrenceInSuffix(s[..i], s[i..], q);
      NoOccurrenceInSuffix(s[i..i + |p|], rest, q);
      SplitKeepsAbsence(rest, p, q);
      assert Split(s, p) == [s[..i]] + Split(rest, p);
  }

  /** A `replace` cannot create an occurrence of `q` when neither the old text
      nor the replacement can supply one. */
  lemma ReplaceKeepsAbsence(s: string, p: string, r: string, q: string)
    requires |p| > 0 && |q| > 0 && !Contains(s, q) && !Overlaps(q, r)
    ensures !Contains(Replace(s, p, r), q)
  {
    SplitKeepsAbsence(s, p, q);
    JoinFree(Split(s, p), r, q);
  }

  // ---------------------------------------------------------------------------
  // splitlines

  /** The characters Python's `str.splitlines` treats as line boundaries. */
  predicate IsLineBreak(c: char) {
    c == '\n' || c == '\r' || c == '\U{0B}' || c == '\U{0C}' || c == '\U{1C}' || c == '\U{1D}' ||
    c == '\U{1E}' || c == '\U{85}' || c == '\U{2028}' || c == '\U{2029}'
  }

  /** Index of the first line boundary at or after `k`, or `|s|`. */
  function BreakFrom(s: string, k: nat): (i: nat)
    requires k <= |s|
    ensures k <= i <= |s|
    ensures i < |s| ==> IsLineBreak(s[i])
    ensures forall j :: k <= j < i ==> !IsLineBreak(s[j])
    decreases |s| - k
  {
    if k == |s| || IsLineBreak(s[k]) then k else BreakFrom(s, k + 1)
  }

  /** Python's `s.splitlines()`: `\r\n` counts as one boundary and a final
      boundary does not start an empty line. */
  function SplitLines(s: string): (lines: seq<string>)
    ensures s == [] <==> lines == []
    decreases |s|
  {
    if s == [] then []
    else
      var i := BreakFrom(s, 0);
      if i == |s| then [s]
      else [s[..i]] + SplitLines(s[NextLineStart(s, i)..])
  }

  /** Where the line after the boundary at `i` starts: `\r\n` is one boundary. */
  function NextLineStart(s: string, i: nat): (next: nat)
    requires i < |s|
    ensures i < next <= |s|
  {
    if s[i] == '\r' && i + 1 < |s| && s[i + 1] == '\n' then i + 2 else i + 1
  }

  /** No line `splitlines` returns holds a line boundary. */
  lemma {:induction false} SplitLinesNoBreaks(s: string)
    ensures forall k, j :: 0 <= k < |SplitLines(s)| && 0 <= j < |SplitLines(s)[k]| ==> !IsLineBreak(SplitLines(s)[k][j])
    decreases |s|
  {
    if s != [] {
      var i := BreakFrom(s, 0);
      if i < |s| {
        var next := NextLineStart(s, i);
        SplitLinesNoBreaks(s[next..]);
        assert SplitLines(s) == [s[..i]] + SplitLines(s[next..]);
      }
    }
  }

  /** Every line boundary in `s` is a plain `\n`. */
  predicate OnlyNewlineBreaks(s: string) {
    forall k :: 0 <= k < |s| && IsLineBreak(s[k]) ==> s[k] == '\n'
  }

  /** `s` without its final `\n`, if it has one. */
  function DropFinalNewline(s: string): string {
    if s != [] && s[|s| - 1] == '\n' then s[..|s| - 1] else s
  }

  /** For text whose only breaks are `\n`, `"\n".join(s.splitlines())` gives the
      text back, less a final newline. */
  lemma {:induction false} SplitLinesJoin(s: string)
    requires OnlyNewlineBreaks(s)
    ensures Join(SplitLines(s), "\n") == DropFinalNewline(s)
    decreases |s|
  {
    if s != [] {
      var i := BreakFrom(s, 0);
      if i == |s| {
        assert SplitLines(s) == [s];
      } else {
        SplitLinesStep(s);
        var front, rest := s[..i], s[i + 1..];
        SliceThree(s, i, i + 1);
        assert s[i..i + 1] == "\n";
        if rest == [] {
          assert SplitLines(s) == [front];
        } else {
          OnlyNewlineBreaksSuffix(s, i + 1);
          SplitLinesJoin(rest);
          JoinCons(front, SplitLines(rest), "\n");
          DropFinalNewlineAppend(front + "\n", rest);
        }
      }
    }
  }

  lemma SplitLinesStep(s: string)
    requires s != [] && OnlyNewlineBreaks(s) && BreakFrom(s, 0) < |s|
    ensures var i := BreakFrom(s, 0);
      s[i] == '\n' && SplitLines(s) == [s[..i]] + SplitLines(s[i + 1..])
  {
    var i := BreakFrom(s, 0);
    assert s[i] == '\n' by {
      assert IsLineBreak(s[i]);
    }
    assert NextLineStart(s, i) == i + 1;
  }

  lemma OnlyNewlineBreaksSuffix(s: string, j: nat)
    requires OnlyNewlineBreaks(s) && j <= |s|
    ensures OnlyNewlineBreaks(s[j..])
  {
    forall k | 0 <= k < |s[j..]| && IsLineBreak(s[j..][k])
      ensures s[j..][k] == '\n'
    {
      assert s[j..][k] == s[j + k];
    }
  }

  lemma DropFinalNewlineAppend(a: string, b: string)
    requires b != []
    ensures DropFinalNewline(a + b) == a + DropFinalNewline(b)
  {
    assert (a + b)[|a + b| - 1] == b[|b| - 1];
    assert (a + b)[..|a + b| - 1] == a + b[..|b| - 1];
  }

  // ---------------------------------------------------------------------------
  // Decimal rendering

  predicate IsDigit(c: char) {
    '0' <= c <= '9'
  }

  function DigitChar(d: nat): (c: char)
    requires d < 10
    ensures IsDigit(c)
  {
    ['0', '1', '2', '3', '4', '5', '6', '7', '8', '9'][d]
  }

  function DigitValue(c: char): nat
    requires IsDigit(c)
  {
    (c as int - '0' as int) as nat
  }

  /** `str(n)` for a non-negative integer: decimal digits, no leading zero. */
  function Decimal(n: nat): (s: string)
    ensures |s| > 0
    ensures forall k :: 0 <= k < |s| ==> IsDigit(s[k])
  {
    if n < 10 then [DigitChar(n)] else Decimal(n / 10) + [DigitChar(n % 10)]
  }

  /** Reads a string of decimal digits back as a number. */
  function DecimalValue(s: string): nat
    requires forall k :: 0 <= k < |s| ==> IsDigit(s[k])
  {
    if s == [] then 0 else DecimalValue(s[..|s| - 1]) * 10 + DigitValue(s[|s| - 1])
  }

  lemma {:induction false} DecimalRoundTrip(n: nat)
    ensures DecimalValue(Decimal(n)) == n
  {
    var s := Decimal(n);
    if n < 10 {
      assert s[..0] == [];
    } else {
      DecimalRoundTrip(n / 10);
      assert s[..|s| - 1] == Decimal(n / 10);
    }
  }

  /** Different numbers render differently. */
  lemma DecimalInjective(m: nat, n: nat)
    requires Decimal(m) == Decimal(n)
    ensures m == n
  {
    DecimalRoundTrip(m);
    DecimalRoundTrip(n);
  }
}
