/** The code-block escape of the `Latex` class in md2respec.py. Code spans are
    swapped for numbered `<!--CODE_BLOCK_n-->` placeholders, the two math
    passes run on the escaped text, and the placeholders are swapped back.
    Each `re.sub` pass is given as a segmentation of its input into the text
    between matches and the matches themselves; the LaTeX converter is a
    function parameter. */
module CodeBlocks {
  import opened TextOps

  // ---------------------------------------------------------------------------
  // Placeholders

  const Lead: string := "<!--CODE_BLOCK_"
  const Tail: string := "-->"

  /** The placeholder `code_placeholder` writes when `n` blocks are stored. */
  function Placeholder(n: nat): (p: string)
    ensures |p| > 0
  {
    Lead + Decimal(n) + Tail
  }

  /** A placeholder opens with `<` and has no other `<`; the number sits
      between the fixed lead and the `-->` terminator. */
  lemma PlaceholderShape(n: nat)
    ensures |Placeholder(n)| == |Lead| + |Decimal(n)| + |Tail|
    ensures Placeholder(n)[0] == '<'
    ensures forall k :: 1 <= k < |Placeholder(n)| ==> Placeholder(n)[k] != '<'
    ensures forall k :: 0 <= k < |Decimal(n)| ==> Placeholder(n)[|Lead| + k] == Decimal(n)[k]
    ensures Placeholder(n)[|Lead| + |Decimal(n)|] == '-'
  {
    var d := Decimal(n);
    var p := Placeholder(n);
    forall k | 1 <= k < |p| ensures p[k] != '<' {
      if k < |Lead| {
        assert p[k] == Lead[k];
      } else if k < |Lead| + |d| {
        assert p[k] == d[k - |Lead|];
      } else {
        assert p[k] == Tail[k - |Lead| - |d|];
      }
    }
  }

  /** The number a placeholder carries reads back as its index. */
  lemma PlaceholderNumber(n: nat)
    ensures DecimalValue(Placeholder(n)[|Lead|..|Placeholder(n)| - |Tail|]) == n
  {
    assert Placeholder(n)[|Lead|..|Placeholder(n)| - |Tail|] == Decimal(n);
    DecimalRoundTrip(n);
  }

  /** Two placeholders found at the same position are the same placeholder:
      the digits of each run up to the `-` of its terminator. */
  lemma SamePosition(s: string, m: nat, n: nat, i: nat)
    requires OccursAt(s, Placeholder(m), i) && OccursAt(s, Placeholder(n), i)
    ensures m == n
  {
    var dm, dn := Decimal(m), Decimal(n);
    PlaceholderShape(m);
    PlaceholderShape(n);
    // the first `-` after the digits of the shorter number is common to both
    var k: nat := if |dm| <= |dn| then |Lead| + |dm| else |Lead| + |dn|;
    CommonPrefix(s, Placeholder(m), Placeholder(n), i, k);
    assert |dm| == |dn|;
    forall j | 0 <= j < |dm| ensures dm[j] == dn[j] {
      CommonPrefix(s, Placeholder(m), Placeholder(n), i, |Lead| + j);
    }
    assert dm == dn;
    DecimalInjective(m, n);
  }

  /** Two strings found at the same position agree where both are defined. */
  lemma CommonPrefix(s: string, p: string, q: string, i: nat, k: nat)
    requires OccursAt(s, p, i) && OccursAt(s, q, i) && k < |p| && k < |q|
    ensures p[k] == q[k]
  {
    OccursAtChar(s, p, i, k);
    OccursAtChar(s, q, i, k);
  }

  /** Placeholders are pairwise distinct and none occurs inside another. */
  lemma PlaceholdersDistinct(m: nat, n: nat)
    requires m != n
    ensures Placeholder(m) != Placeholder(n)
    ensures !Contains(Placeholder(m), Placeholder(n))
  {
    var pm, pn := Placeholder(m), Placeholder(n);
    assert OccursAt(pm, pm, 0);
    PlaceholderShape(m);
    PlaceholderShape(n);
    if Contains(pm, pn) {
      var i: nat :| OccursAt(pm, pn, i);
      OccursAtChar(pm, pn, i, 0);
      assert i == 0;
      SamePosition(pm, m, n, 0);
    }
  }

  /** Text that contains no placeholder numbered `n` or higher. */
  ghost predicate FreeFrom(t: string, n: nat) {
    forall j: nat :: j >= n ==> !Contains(t, Placeholder(j))
  }

  /** A placeholder cannot start inside text that precedes a `<`, unless it
      lies wholly inside that text. */
  lemma LedFree(g: string, x: string, j: nat)
    requires !Contains(g, Placeholder(j)) && !Contains(x, Placeholder(j))
    requires |x| > 0 && x[0] == '<'
    ensures !Contains(g + x, Placeholder(j))
  {
    var p := Placeholder(j);
    PlaceholderShape(j);
    if Contains(g + x, p) {
      var i: nat :| OccursAt(g + x, p, i);
      OccurrenceSplit(g, x, p, i);
      if i < |g| < i + |p| {
        OccursAtChar(g + x, p, i, |g| - i);
      }
    }
  }

  /** After placeholder `n`, placeholder `j` can only occur in what follows. */
  lemma PlaceholderThenFree(n: nat, r: string, j: nat)
    requires j != n && !Contains(r, Placeholder(j))
    ensures !Contains(Placeholder(n) + r, Placeholder(j))
  {
    var pn, pj := Placeholder(n), Placeholder(j);
    PlaceholderShape(n);
    PlaceholderShape(j);
    if Contains(pn + r, pj) {
      var i: nat :| OccursAt(pn + r, pj, i);
      OccursAtChar(pn + r, pj, i, 0);
      OccursInPrefix(pn, r, pn, 0);
      if i == 0 {
        SamePosition(pn + r, n, j, 0);
      } else if i >= |pn| {
        OccurrenceSplit(pn, r, pj, i);
      }
    }
  }

  /** No occurrence of a placeholder starts before text free of it. */
  lemma FirstOccurrenceAt(x: string, n: nat, y: string)
    requires !Contains(x, Placeholder(n))
    ensures forall k: nat :: k < |x| ==> !OccursAt(x + Placeholder(n) + y, Placeholder(n), k)
  {
    var p := Placeholder(n);
    var s := x + p + y;
    PlaceholderShape(n);
    forall k: nat | k < |x| ensures !OccursAt(s, p, k) {
      if OccursAt(s, p, k) {
        if k + |p| <= |x| {
          assert s[k..k + |p|] == x[k..k + |p|];
          assert OccursAt(x, p, k);
        } else {
          OccursAtChar(s, p, k, |x| - k);
        }
      }
    }
  }

  /** Replacing a placeholder that occurs once, between text free of it. */
  lemma ReplaceLone(front: string, j: nat, tail: string, w: string)
    requires !Contains(front, Placeholder(j)) && !Contains(tail, Placeholder(j))
    ensures Replace(front + Placeholder(j) + tail, Placeholder(j), w) == front + (w + tail)
  {
    var p := Placeholder(j);
    FirstOccurrenceAt(front, j, tail);
    ReplaceFirst(front, p, tail, w);
    ReplaceAbsent(tail, p, w);
    ConcatAssoc(front, w, tail);
  }

  // ---------------------------------------------------------------------------
  // Matches of one `re.sub` pass

  /** One match: `group(0)` and `group(1)`. For the single-backtick pattern
      `group(1)` is the opening backtick; the escape passes use only `group(0)`. */
  datatype Hit = Hit(whole: string, group: string)

  /** A pass's input cut into the text between matches and the matches. */
  datatype Matches = Matches(gaps: seq<string>, hits: seq<Hit>)
  type Segmentation = m: Matches | |m.gaps| == |m.hits| + 1 witness Matches([""], [])

  /** The regular-expression engine, for one pattern. */
  type Matcher = string -> Segmentation

  /** The `display` argument of the converter. */
  datatype Display = Inline | Block

  /** What `run` takes from outside: the five patterns' matches and
      `latex2mathml.converter.convert`. */
  datatype Externals = Externals(
    pre: Matcher, single: Matcher, triple: Matcher,
    dollar: Matcher, double: Matcher,
    convert: (string, Display) -> string)

  /** Text between pieces: `gaps[0] + pieces[0] + gaps[1] + ...`. */
  function Weave(gaps: seq<string>, pieces: seq<string>): string
    requires |gaps| == |pieces| + 1
    decreases |pieces|
  {
    if pieces == [] then gaps[0] else gaps[0] + pieces[0] + Weave(gaps[1..], pieces[1..])
  }

  function Wholes(hits: seq<Hit>): (r: seq<string>)
    ensures |r| == |hits|
  {
    seq(|hits|, i requires 0 <= i < |hits| => hits[i].whole)
  }

  /** The segmentation reassembles the pass's input. */
  predicate Splits(m: Segmentation, t: string) {
    Weave(m.gaps, Wholes(m.hits)) == t
  }

  /** The segmentation of a pass that matches nothing. */
  function NoMatch(t: string): (m: Segmentation)
    ensures Splits(m, t) && m.hits == []
  {
    Matches([t], [])
  }

  function Placeholders(n: nat, k: nat): (r: seq<string>)
    ensures |r| == k
  {
    seq(k, i requires 0 <= i < k => Placeholder(n + i))
  }

  /** `re.sub(pattern, self.code_placeholder, text)` with `n` blocks stored:
      every match becomes the next placeholder. */
  function Escape(m: Segmentation, n: nat): string {
    Weave(m.gaps, Placeholders(n, |m.hits|))
  }

  /** `re.sub(pattern, f, text)` where `f` reads `group(1)`. */
  function Substitute(m: Segmentation, f: string -> string): string {
    Weave(m.gaps, seq(|m.hits|, i requires 0 <= i < |m.hits| => f(m.hits[i].group)))
  }

  lemma PlaceholdersTail(n: nat, k: nat)
    requires k > 0
    ensures Placeholders(n, k)[1..] == Placeholders(n + 1, k - 1)
  {
  }

  lemma PlaceholdersFront(n: nat, k: nat)
    requires k > 0
    ensures Placeholders(n, k)[..k - 1] == Placeholders(n, k - 1)
  {
  }

  lemma WholesTail(hits: seq<Hit>)
    requires hits != []
    ensures Wholes(hits)[1..] == Wholes(hits[1..])
  {
  }

  lemma WholesFront(hits: seq<Hit>)
    requires hits != []
    ensures Wholes(hits)[..|hits| - 1] == Wholes(hits[..|hits| - 1])
  {
  }

  lemma {:induction false} WeaveSnoc(gaps: seq<string>, pieces: seq<string>)
    requires |gaps| == |pieces| + 1 && |pieces| > 0
    ensures Weave(gaps, pieces) ==
      Weave(gaps[..|gaps| - 1], pieces[..|pieces| - 1]) + pieces[|pieces| - 1] + gaps[|gaps| - 1]
    decreases |pieces|
  {
    if |pieces| == 1 {
      assert pieces[1..] == [] && gaps[1..] == [gaps[1]];
      assert pieces[..0] == [] && gaps[..1] == [gaps[0]];
    } else {
      WeaveSnoc(gaps[1..], pieces[1..]);
      assert gaps[1..][..|gaps| - 2] == gaps[..|gaps| - 1][1..];
      assert pieces[1..][..|pieces| - 2] == pieces[..|pieces| - 1][1..];
    }
  }

  /** Text free of a pattern has gaps free of it. */
  lemma {:induction false} GapsFree(gaps: seq<string>, pieces: seq<string>, q: string)
    requires |gaps| == |pieces| + 1 && !Contains(Weave(gaps, pieces), q)
    ensures forall i :: 0 <= i < |gaps| ==> !Contains(gaps[i], q)
    decreases |pieces|
  {
    if pieces != [] {
      var rest := Weave(gaps[1..], pieces[1..]);
      NoOccurrenceInPrefix(gaps[0] + pieces[0], rest, q);
      NoOccurrenceInPrefix(gaps[0], pieces[0], q);
      NoOccurrenceInSuffix(gaps[0] + pieces[0], rest, q);
      GapsFree(gaps[1..], pieces[1..], q);
      forall i | 1 <= i < |gaps| ensures !Contains(gaps[i], q) {
        assert gaps[i] == gaps[1..][i - 1];
      }
    }
  }

  lemma WeaveCons(gaps: seq<string>, n: nat, k: nat)
    requires |gaps| == k + 1 && k > 0
    ensures Weave(gaps, Placeholders(n, k)) ==
      gaps[0] + (Placeholder(n) + Weave(gaps[1..], Placeholders(n + 1, k - 1)))
  {
    PlaceholdersTail(n, k);
    WeaveConsAny(gaps, Placeholders(n, k));
  }

  lemma WeaveConsAny(gaps: seq<string>, pieces: seq<string>)
    requires |gaps| == |pieces| + 1 && pieces != []
    ensures Weave(gaps, pieces) == gaps[0] + (pieces[0] + Weave(gaps[1..], pieces[1..]))
  {
  }

  lemma Weave1(a: string, piece: string, b: string)
    ensures Weave([a, b], [piece]) == a + piece + b
  {
    assert [a, b][1..] == [b] && [piece][1..] == [];
  }

  /** Gaps free of placeholder `j`, woven with placeholders not numbered `j`,
      hold no placeholder `j`. */
  lemma {:induction false} WeaveFree(gaps: seq<string>, n: nat, k: nat, j: nat)
    requires |gaps| == k + 1
    requires forall i :: 0 <= i < |gaps| ==> !Contains(gaps[i], Placeholder(j))
    requires !(n <= j < n + k)
    ensures !Contains(Weave(gaps, Placeholders(n, k)), Placeholder(j))
    decreases k
  {
    if k > 0 {
      var rest := Weave(gaps[1..], Placeholders(n + 1, k - 1));
      WeaveCons(gaps, n, k);
      WeaveFree(gaps[1..], n + 1, k - 1, j);
      PlaceholderThenFree(n, rest, j);
      PlaceholderShape(n);
      LedFree(gaps[0], Placeholder(n) + rest, j);
    }
  }

  /** An escape pass brings in only the placeholders it writes. */
  lemma EscapeKeepsOthersOut(t: string, m: Segmentation, n: nat, j: nat)
    requires Splits(m, t) && !Contains(t, Placeholder(j)) && !(n <= j < n + |m.hits|)
    ensures !Contains(Escape(m, n), Placeholder(j))
  {
    GapsFree(m.gaps, Wholes(m.hits), Placeholder(j));
    WeaveFree(m.gaps, n, |m.hits|, j);
  }

  /** Text without placeholders from `n` on, escaped from `n` on, has no
      placeholders past the ones the pass wrote. */
  lemma EscapeFreeFrom(t: string, m: Segmentation, n: nat)
    requires Splits(m, t) && FreeFrom(t, n)
    ensures FreeFrom(Escape(m, n), n + |m.hits|)
  {
    forall j: nat | j >= n + |m.hits| ensures !Contains(Escape(m, n), Placeholder(j)) {
      EscapeKeepsOthersOut(t, m, n, j);
    }
  }

  /** A pass that matches nothing leaves its input as it is. */
  lemma IdlePass(t: string, m: Segmentation, n: nat, f: string -> string)
    requires Splits(m, t) && m.hits == []
    ensures Escape(m, n) == t && Substitute(m, f) == t && Entries(n, m.hits) == []
  {
    assert Placeholders(n, 0) == [] && Wholes(m.hits) == [];
    assert seq(|m.hits|, i requires 0 <= i < |m.hits| => f(m.hits[i].group)) == [];
  }

  // ---------------------------------------------------------------------------
  // The dictionary

  /** `code_blocks`: keys and values in insertion order. */
  type Store = seq<(string, string)>

  /** The `i`-th key is placeholder `i`. */
  predicate ValidStore(d: Store) {
    forall i :: 0 <= i < |d| ==> d[i].0 == Placeholder(i)
  }

  predicate Keyed(d: Store) {
    forall i :: 0 <= i < |d| ==> |d[i].0| > 0
  }

  /** `d[key] = value`: overwrite the entry of a present key in place,
      otherwise append a new entry. */
  function Assign(d: Store, key: string, value: string): (r: Store)
    ensures |r| >= |d|
  {
    if d == [] then [(key, value)]
    else if d[0].0 == key then [(key, value)] + d[1..]
    else [d[0]] + Assign(d[1..], key, value)
  }

  /** The entries a pass stores, from `n` on. */
  function Entries(n: nat, hits: seq<Hit>): (r: Store)
    ensures |r| == |hits|
  {
    seq(|hits|, i requires 0 <= i < |hits| => (Placeholder(n + i), hits[i].whole))
  }

  lemma EntriesKeyed(n: nat, hits: seq<Hit>)
    ensures Keyed(Entries(n, hits))
  {
  }

  lemma EntriesCons(n: nat, hits: seq<Hit>)
    requires hits != []
    ensures Entries(n, hits) == [(Placeholder(n), hits[0].whole)] + Entries(n + 1, hits[1..])
  {
  }

  lemma EntriesFront(n: nat, hits: seq<Hit>)
    requires hits != []
    ensures Entries(n, hits)[..|hits| - 1] == Entries(n, hits[..|hits| - 1])
  {
  }

  lemma EntriesSnoc(n: nat, hits: seq<Hit>, i: nat)
    requires i < |hits|
    ensures Entries(n, hits[..i + 1]) == Entries(n, hits[..i]) + [(Placeholder(n + i), hits[i].whole)]
  {
  }

  /** A key not yet present is appended. */
  lemma {:induction false} AssignFresh(d: Store, key: string, value: string)
    requires forall i :: 0 <= i < |d| ==> d[i].0 != key
    ensures Assign(d, key, value) == d + [(key, value)]
    decreases |d|
  {
    if d != [] {
      AssignFresh(d[1..], key, value);
      assert d == [d[0]] + d[1..];
    }
  }

  /** The next placeholder is never a key of a valid dictionary, so storing
      under it appends and keeps the dictionary valid. */
  lemma StoreNext(d: Store, value: string)
    requires ValidStore(d)
    ensures Assign(d, Placeholder(|d|), value) == d + [(Placeholder(|d|), value)]
    ensures ValidStore(d + [(Placeholder(|d|), value)])
  {
    forall i | 0 <= i < |d| ensures d[i].0 != Placeholder(|d|) {
      PlaceholdersDistinct(i, |d|);
    }
    AssignFresh(d, Placeholder(|d|), value);
  }

  lemma ValidKeyed(d: Store)
    requires ValidStore(d)
    ensures Keyed(d)
  {
  }

  // ---------------------------------------------------------------------------
  // Restoring

  /** The restore loop of `run`: one `replace` per entry, in insertion order. */
  function Restore(t: string, d: Store): string
    requires Keyed(d)
    decreases |d|
  {
    if d == [] then t else Replace(Restore(t, d[..|d| - 1]), d[|d| - 1].0, d[|d| - 1].1)
  }

  /** The restore loop run from the newest entry back to the oldest. */
  function RestoreReverse(t: string, d: Store): string
    requires Keyed(d)
    decreases |d|
  {
    if d == [] then t else RestoreReverse(Replace(t, d[|d| - 1].0, d[|d| - 1].1), d[..|d| - 1])
  }

  /** Restoring in insertion order restores the older entries first. */
  lemma {:induction false} RestoreAppend(t: string, d1: Store, d2: Store)
    requires Keyed(d1) && Keyed(d2)
    ensures Keyed(d1 + d2)
    ensures Restore(t, d1 + d2) == Restore(Restore(t, d1), d2)
    decreases |d2|
  {
    if d2 == [] {
      assert d1 + d2 == d1;
    } else {
      var d := d1 + d2;
      assert d[..|d| - 1] == d1 + d2[..|d2| - 1];
      RestoreAppend(t, d1, d2[..|d2| - 1]);
    }
  }

  /** Restoring newest first restores the newer entries first. */
  lemma {:induction false} RestoreReverseAppend(t: string, d1: Store, d2: Store)
    requires Keyed(d1) && Keyed(d2)
    ensures Keyed(d1 + d2)
    ensures RestoreReverse(t, d1 + d2) == RestoreReverse(RestoreReverse(t, d2), d1)
    decreases |d2|
  {
    if d2 == [] {
      assert d1 + d2 == d1;
    } else {
      var d := d1 + d2;
      var last := d2[|d2| - 1];
      assert d[..|d| - 1] == d1 + d2[..|d2| - 1];
      RestoreReverseAppend(Replace(t, last.0, last.1), d1, d2[..|d2| - 1]);
    }
  }

  /** Keys absent from the text leave it unchanged, in either order. */
  lemma {:induction false} RestoreAbsent(t: string, d: Store)
    requires Keyed(d)
    requires forall i :: 0 <= i < |d| ==> !Contains(t, d[i].0)
    ensures Restore(t, d) == t && RestoreReverse(t, d) == t
    decreases |d|
  {
    if d != [] {
      var last := d[|d| - 1];
      RestoreAbsent(t, d[..|d| - 1]);
      ReplaceAbsent(t, last.0, last.1);
    }
  }

  /** Restoring a single entry is one `replace`. */
  lemma RestoreSingle(t: string, key: string, value: string)
    requires |key| > 0
    ensures Restore(t, [(key, value)]) == Replace(t, key, value)
    ensures RestoreReverse(t, [(key, value)]) == Replace(t, key, value)
  {
    assert [(key, value)][..0] == [];
  }

  /** Restoring, in insertion order, the entries of one escape pass puts back
      what the pass matched; `a` is text already restored in front. */
  lemma {:induction false} ForwardPass(a: string, gaps: seq<string>, hits: seq<Hit>, n: nat)
    requires |gaps| == |hits| + 1
    requires FreeFrom(a + Weave(gaps, Wholes(hits)), n)
    ensures Restore(a + Weave(gaps, Placeholders(n, |hits|)), Entries(n, hits)) == a + Weave(gaps, Wholes(hits))
    decreases |hits|
  {
    if hits == [] {
      assert Placeholders(n, 0) == [] && Wholes(hits) == [] && Entries(n, hits) == [];
    } else {
      ForwardStep(a, gaps, hits, n);
      ForwardPass(a + gaps[0] + hits[0].whole, gaps[1..], hits[1..], n + 1);
    }
  }

  /** Restoring the first entry of a pass moves its block into the restored
      text in front. */
  lemma ForwardStep(a: string, gaps: seq<string>, hits: seq<Hit>, n: nat)
    requires |gaps| == |hits| + 1 && hits != []
    requires FreeFrom(a + Weave(gaps, Wholes(hits)), n)
    ensures Restore(a + Weave(gaps, Placeholders(n, |hits|)), Entries(n, hits)) ==
      Restore((a + gaps[0] + hits[0].whole) + Weave(gaps[1..], Placeholders(n + 1, |hits| - 1)), Entries(n + 1, hits[1..]))
    ensures a + Weave(gaps, Wholes(hits)) == (a + gaps[0] + hits[0].whole) + Weave(gaps[1..], Wholes(hits[1..]))
    ensures FreeFrom((a + gaps[0] + hits[0].whole) + Weave(gaps[1..], Wholes(hits[1..])), n + 1)
  {
    var p, w := Placeholder(n), hits[0].whole;
    var front := a + gaps[0];
    var rest := Weave(gaps[1..], Placeholders(n + 1, |hits| - 1));
    ForwardShapeP(a, gaps, n, |hits|);
    ForwardShapeW(a, gaps, hits);
    assert !Contains(a + Weave(gaps, Wholes(hits)), p);
    ForwardFree(a, gaps, hits, p);
    WeaveFree(gaps[1..], n + 1, |hits| - 1, n);
    ReplaceLone(front, n, rest, w);
    ConcatAssoc(front, w, rest);
    EntriesCons(n, hits);
    RestoreSingle(front + p + rest, p, w);
    RestoreAppend(front + p + rest, [(p, w)], Entries(n + 1, hits[1..]));
  }

  lemma ForwardShapeP(a: string, gaps: seq<string>, n: nat, k: nat)
    requires |gaps| == k + 1 && k > 0
    ensures a + Weave(gaps, Placeholders(n, k)) ==
      (a + gaps[0]) + Placeholder(n) + Weave(gaps[1..], Placeholders(n + 1, k - 1))
  {
    WeaveCons(gaps, n, k);
    ConcatAssoc4(a, gaps[0], Placeholder(n), Weave(gaps[1..], Placeholders(n + 1, k - 1)));
  }

  lemma ForwardShapeW(a: string, gaps: seq<string>, hits: seq<Hit>)
    requires |gaps| == |hits| + 1 && hits != []
    ensures a + Weave(gaps, Wholes(hits)) ==
      (a + gaps[0] + hits[0].whole) + Weave(gaps[1..], Wholes(hits[1..]))
    ensures a + Weave(gaps, Wholes(hits)) ==
      (a + gaps[0]) + (hits[0].whole + Weave(gaps[1..], Wholes(hits[1..])))
  {
    var later := Weave(gaps[1..], Wholes(hits[1..]));
    WeaveConsAny(gaps, Wholes(hits));
    WholesTail(hits);
    ConcatAssoc4(a, gaps[0], hits[0].whole, later);
    ConcatAssoc(a, gaps[0], hits[0].whole + later);
  }

  lemma ForwardFree(a: string, gaps: seq<string>, hits: seq<Hit>, q: string)
    requires |gaps| == |hits| + 1 && hits != []
    requires !Contains(a + Weave(gaps, Wholes(hits)), q)
    ensures !Contains(a + gaps[0], q)
    ensures forall i :: 1 <= i < |gaps| ==> !Contains(gaps[i], q)
  {
    var w := hits[0].whole;
    var later := Weave(gaps[1..], Wholes(hits[1..]));
    ForwardShapeW(a, gaps, hits);
    NoOccurrenceInPrefix(a + gaps[0], w + later, q);
    NoOccurrenceInSuffix(a + gaps[0] + w, later, q);
    GapsFree(gaps[1..], Wholes(hits[1..]), q);
    forall i | 1 <= i < |gaps| ensures !Contains(gaps[i], q) {
      assert gaps[i] == gaps[1..][i - 1];
    }
  }

  /** Restoring, newest first, the entries of one escape pass puts back what
      the pass matched; `b` is text already restored behind. */
  lemma {:induction false} ReversePass(gaps: seq<string>, hits: seq<Hit>, n: nat, b: string)
    requires |gaps| == |hits| + 1
    requires FreeFrom(Weave(gaps, Wholes(hits)) + b, n)
    ensures RestoreReverse(Weave(gaps, Placeholders(n, |hits|)) + b, Entries(n, hits)) == Weave(gaps, Wholes(hits)) + b
    decreases |hits|
  {
    if hits == [] {
      assert Placeholders(n, 0) == [] && Wholes(hits) == [] && Entries(n, hits) == [];
    } else {
      var k := |hits|;
      var p, w := Placeholder(n + k - 1), hits[k - 1].whole;
      var front := Weave(gaps[..k], Placeholders(n, k - 1));
      var tail := gaps[k] + b;
      var x := Weave(gaps, Placeholders(n, k)) + b;
      var es := Entries(n, hits);
      ReverseShapeP(gaps, n, k, b);
      ReverseShapeW(gaps, hits, b);
      assert !Contains(Weave(gaps, Wholes(hits)) + b, p);
      ReverseFree(gaps, hits, b, p);
      WeaveFree(gaps[..k], n, k - 1, n + k - 1);
      ReplaceLone(front, n + k - 1, tail, w);
      EntriesFront(n, hits);
      EntriesKeyed(n, hits);
      EntriesKeyed(n, hits[..k - 1]);
      assert es[k - 1] == (p, w);
      assert RestoreReverse(x, es) == RestoreReverse(front + (w + tail), Entries(n, hits[..k - 1]));
      ReversePass(gaps[..k], hits[..k - 1], n, w + tail);
    }
  }

  lemma ReverseShapeP(gaps: seq<string>, n: nat, k: nat, b: string)
    requires |gaps| == k + 1 && k > 0
    ensures Weave(gaps, Placeholders(n, k)) + b ==
      Weave(gaps[..k], Placeholders(n, k - 1)) + Placeholder(n + k - 1) + (gaps[k] + b)
  {
    var ps := Placeholders(n, k);
    var front := Weave(gaps[..k], Placeholders(n, k - 1));
    WeaveSnoc(gaps, ps);
    PlaceholdersFront(n, k);
    assert ps[k - 1] == Placeholder(n + k - 1);
    assert Weave(gaps, ps) == front + Placeholder(n + k - 1) + gaps[k];
    ConcatAssoc(front + Placeholder(n + k - 1), gaps[k], b);
  }

  lemma ReverseShapeW(gaps: seq<string>, hits: seq<Hit>, b: string)
    requires |gaps| == |hits| + 1 && hits != []
    ensures var k := |hits|;
      Weave(gaps, Wholes(hits)) + b ==
        (Weave(gaps[..k], Wholes(hits[..k - 1])) + hits[k - 1].whole) + (gaps[k] + b)
    ensures var k := |hits|;
      Weave(gaps, Wholes(hits)) + b ==
        Weave(gaps[..k], Wholes(hits[..k - 1])) + (hits[k - 1].whole + (gaps[k] + b))
  {
    var k := |hits|;
    var earlier := Weave(gaps[..k], Wholes(hits[..k - 1]));
    WeaveSnoc(gaps, Wholes(hits));
    WholesFront(hits);
    ConcatAssoc(earlier + hits[k - 1].whole, gaps[k], b);
    ConcatAssoc(earlier, hits[k - 1].whole, gaps[k] + b);
  }

  lemma ReverseFree(gaps: seq<string>, hits: seq<Hit>, b: string, q: string)
    requires |gaps| == |hits| + 1 && hits != []
    requires !Contains(Weave(gaps, Wholes(hits)) + b, q)
    ensures forall i :: 0 <= i < |hits| ==> !Contains(gaps[i], q)
    ensures !Contains(gaps[|hits|] + b, q)
  {
    var k := |hits|;
    ReverseShapeW(gaps, hits, b);
    NoOccurrenceInPrefix(Weave(gaps, Wholes(hits)), b, q);
    GapsFree(gaps, Wholes(hits), q);
    NoOccurrenceInSuffix(Weave(gaps[..k], Wholes(hits[..k - 1])) + hits[k - 1].whole, gaps[k] + b, q);
  }

  // ---------------------------------------------------------------------------
  // The whole of `run`

  /** One escape pass: the escaped text and the dictionary after it. */
  function EscapePass(t: string, f: Matcher, d: Store): (r: (string, Store))
    ensures |r.1| == |d| + |f(t).hits| && r.1[..|d|] == d
    ensures ValidStore(d) ==> ValidStore(r.1)
  {
    var m := f(t);
    (Escape(m, |d|), d + Entries(|d|, m.hits))
  }

  /** The text and dictionary after the `<pre>` pass, the single-backtick pass
      and the triple-backtick pass. */
  function Stage1(text: string, x: Externals, d: Store): (string, Store) {
    EscapePass(text, x.pre, d)
  }

  function Stage2(text: string, x: Externals, d: Store): (string, Store) {
    var (t1, d1) := Stage1(text, x, d);
    EscapePass(t1, x.single, d1)
  }

  function Stage3(text: string, x: Externals, d: Store): (string, Store) {
    var (t2, d2) := Stage2(text, x, d);
    EscapePass(t2, x.triple, d2)
  }

  /** The single-dollar pass, then the double-dollar pass, which first drops
      every literal backslash-n from the matched formula. */
  function MathPasses(t: string, x: Externals): string {
    var t4 := Substitute(x.dollar(t), g => x.convert(g, Inline));
    Substitute(x.double(t4), g => x.convert(Replace(g, "\\n", ""), Block))
  }

  /** What `run` returns and the dictionary it leaves: the dictionary only
      grows, and the blocks stored before stay as they were. */
  function RunSpec(text: string, x: Externals, d: Store): (r: (string, Store))
    requires ValidStore(d)
    ensures ValidStore(r.1) && |r.1| >= |d| && r.1[..|d|] == d
  {
    var (t3, d3) := Stage3(text, x, d);
    ValidKeyed(d3);
    (Restore(MathPasses(t3, x), d3), d3)
  }

  /** `run` with the restore loop taken newest entry first. */
  function RunFixed(text: string, x: Externals, d: Store): (r: (string, Store))
    requires ValidStore(d)
    ensures ValidStore(r.1) && |r.1| >= |d| && r.1[..|d|] == d
  {
    var (t3, d3) := Stage3(text, x, d);
    ValidKeyed(d3);
    (RestoreReverse(MathPasses(t3, x), d3), d3)
  }

  /** Each pass's segmentation reassembles that pass's input. */
  predicate EscapesSplit(text: string, x: Externals, d: Store) {
    Splits(x.pre(text), text) &&
    Splits(x.single(Stage1(text, x, d).0), Stage1(text, x, d).0) &&
    Splits(x.triple(Stage2(text, x, d).0), Stage2(text, x, d).0)
  }

  /** Neither math pass matches anything. */
  predicate MathIdle(text: string, x: Externals, d: Store) {
    var t3 := Stage3(text, x, d).0;
    Splits(x.dollar(t3), t3) && x.dollar(t3).hits == [] &&
    Splits(x.double(t3), t3) && x.double(t3).hits == []
  }

  lemma MathIdleUnchanged(text: string, x: Externals, d: Store)
    requires MathIdle(text, x, d)
    ensures MathPasses(Stage3(text, x, d).0, x) == Stage3(text, x, d).0
  {
    var t3 := Stage3(text, x, d).0;
    IdlePass(t3, x.dollar(t3), 0, g => x.convert(g, Inline));
    IdlePass(t3, x.double(t3), 0, g => x.convert(Replace(g, "\\n", ""), Block));
  }

  // ---------------------------------------------------------------------------
  // Round trips

  /** One escape pass, then the insertion-order restore of the whole
      dictionary, gives back unmarked text. */
  lemma OnePassForward(t: string, m: Segmentation, d: Store)
    requires ValidStore(d) && FreeFrom(t, 0) && Splits(m, t)
    ensures Keyed(d + Entries(|d|, m.hits))
    ensures Restore(Escape(m, |d|), d + Entries(|d|, m.hits)) == t
  {
    var n := |d|;
    var e, es := Escape(m, n), Entries(n, m.hits);
    forall i | 0 <= i < n ensures !Contains(e, d[i].0) {
      EscapeKeepsOthersOut(t, m, n, i);
    }
    ValidKeyed(d);
    EntriesKeyed(n, m.hits);
    RestoreAbsent(e, d);
    RestoreAppend(e, d, es);
    assert Restore(e, d + es) == Restore(e, es);
    ConcatEmpty(t);
    ConcatEmpty(e);
    assert FreeFrom("" + Weave(m.gaps, Wholes(m.hits)), n);
    ForwardPass("", m.gaps, m.hits, n);
  }

  /** The code as written gives back unmarked text when at most one of the
      three escape passes matches and the math passes match nothing. */
  lemma RunRoundTripOnePass(text: string, x: Externals, d: Store)
    requires ValidStore(d) && FreeFrom(text, 0)
    requires EscapesSplit(text, x, d) && MathIdle(text, x, d)
    requires var hits1 := |x.pre(text).hits|;
             var hits2 := |x.single(Stage1(text, x, d).0).hits|;
             var hits3 := |x.triple(Stage2(text, x, d).0).hits|;
             (hits1 == 0 && hits2 == 0) || (hits1 == 0 && hits3 == 0) || (hits2 == 0 && hits3 == 0)
    ensures RunSpec(text, x, d).0 == text
  {
    var (t1, d1) := Stage1(text, x, d);
    var (t2, d2) := Stage2(text, x, d);
    var (t3, d3) := Stage3(text, x, d);
    var m1, m2, m3 := x.pre(text), x.single(t1), x.triple(t2);
    MathIdleUnchanged(text, x, d);
    if m1.hits == [] && m2.hits == [] {
      IdlePass(text, m1, |d|, s => s);
      IdlePass(t1, m2, |d1|, s => s);
      assert t2 == text && d2 == d;
      OnePassForward(text, m3, d);
    } else if m1.hits == [] && m3.hits == [] {
      IdlePass(text, m1, |d|, s => s);
      assert t1 == text && d1 == d;
      OnePassForward(text, m2, d);
      IdlePass(t2, m3, |d2|, s => s);
      assert t3 == t2 && d3 == d2;
    } else {
      OnePassForward(text, m1, d);
      IdlePass(t1, m2, |d1|, s => s);
      IdlePass(t2, m3, |d2|, s => s);
      assert t3 == t1 && d3 == d1;
    }
  }

  /** Undoing one escape pass newest first gives back the pass's input. */
  lemma PassUndone(t: string, m: Segmentation, d: Store)
    requires ValidStore(d) && Splits(m, t) && FreeFrom(t, |d|)
    ensures Keyed(d + Entries(|d|, m.hits))
    ensures RestoreReverse(Escape(m, |d|), d + Entries(|d|, m.hits)) == RestoreReverse(t, d)
  {
    var n := |d|;
    var e, es := Escape(m, n), Entries(n, m.hits);
    ValidKeyed(d);
    EntriesKeyed(n, m.hits);
    RestoreReverseAppend(e, d, es);
    assert Weave(m.gaps, Wholes(m.hits)) + "" == t by { ConcatEmpty(t); }
    assert Weave(m.gaps, Placeholders(n, |m.hits|)) + "" == e by { ConcatEmpty(e); }
    ReversePass(m.gaps, m.hits, n, "");
  }

  /** With the restore loop taken newest first, `run` gives back unmarked
      text whatever the nesting of the escapes, when the math passes match
      nothing. */
  lemma RunFixedRoundTrip(text: string, x: Externals, d: Store)
    requires ValidStore(d) && FreeFrom(text, 0)
    requires EscapesSplit(text, x, d) && MathIdle(text, x, d)
    ensures RunFixed(text, x, d).0 == text
  {
    var (t1, d1) := Stage1(text, x, d);
    var (t2, d2) := Stage2(text, x, d);
    var (t3, d3) := Stage3(text, x, d);
    var m1, m2, m3 := x.pre(text), x.single(t1), x.triple(t2);
    MathIdleUnchanged(text, x, d);
    EscapeFreeFrom(text, m1, |d|);
    EscapeFreeFrom(t1, m2, |d1|);
    PassUndone(t2, m3, d2);
    PassUndone(t1, m2, d1);
    PassUndone(text, m1, d);
    RestoreAbsent(text, d);
  }

  // ---------------------------------------------------------------------------
  // Two runs, and nested escapes

  /** A matcher that matches nothing, and a converter that changes nothing. */
  const Idle: Externals := Externals(NoMatch, NoMatch, NoMatch, NoMatch, NoMatch, (s, _) => s)

  /** The dictionary outlives a run: a later text that holds an earlier
      run's placeholder gets that run's block. */
  lemma StaleBlockRestored()
    ensures RunSpec(Placeholder(0), Idle, [(Placeholder(0), "x")]).0 == "x"
  {
    var p := Placeholder(0);
    var d := [(p, "x")];
    IdlePass(p, NoMatch(p), 1, s => s);
    assert Idle.pre(p) == Idle.single(p) == Idle.triple(p) == NoMatch(p);
    assert d + [] == d;
    assert Stage1(p, Idle, d) == (p, d);
    assert Stage2(p, Idle, d) == (p, d);
    assert Stage3(p, Idle, d) == (p, d);
    assert MathPasses(p, Idle) == p by {
      IdlePass(p, NoMatch(p), 0, g => Idle.convert(g, Inline));
      IdlePass(p, NoMatch(p), 0, g => Idle.convert(Replace(g, "\\n", ""), Block));
    }
    ReplaceFirst("", p, "", "x");
    ReplaceAbsent("", p, "x");
    assert "" + p + "" == p;
    assert d[..0] == [];
  }

  const NestedText: string := "`<pre>x</pre>`"

  /** The `<pre>` pattern matches the element inside the backticks; the
      single-backtick pattern then matches the backticks around its
      placeholder. */
  function NestedPre(t: string): Segmentation {
    if t == NestedText then Matches(["`", "`"], [Hit("<pre>x</pre>", "x")]) else NoMatch(t)
  }

  function NestedSingle(t: string): Segmentation {
    if t == "`" + Placeholder(0) + "`" then Matches(["", ""], [Hit(t, "`")]) else NoMatch(t)
  }

  const Nested: Externals := Externals(NestedPre, NestedSingle, NoMatch, NoMatch, NoMatch, (s, _) => s)

  /** Text without placeholders. */
  lemma NestedTextUnmarked()
    ensures FreeFrom(NestedText, 0)
  {
    forall j: nat ensures !Contains(NestedText, Placeholder(j)) {
      var p := Placeholder(j);
      PlaceholderShape(j);
      assert p[1] == '!';
    }
  }

  lemma NestedStage1()
    ensures Stage1(NestedText, Nested, []) ==
      ("`" + Placeholder(0) + "`", [(Placeholder(0), "<pre>x</pre>")])
  {
    var p0, w0 := Placeholder(0), "<pre>x</pre>";
    assert Nested.pre(NestedText) == Matches(["`", "`"], [Hit(w0, "x")]);
    assert Wholes([Hit(w0, "x")]) == [w0];
    assert Placeholders(0, 1) == [p0];
    assert Entries(0, [Hit(w0, "x")]) == [(p0, w0)];
    Weave1("`", w0, "`");
    Weave1("`", p0, "`");
    assert [] + [(p0, w0)] == [(p0, w0)];
  }

  lemma NestedStage2()
    ensures Stage2(NestedText, Nested, []) ==
      (Placeholder(1), [(Placeholder(0), "<pre>x</pre>"), (Placeholder(1), "`" + Placeholder(0) + "`")])
  {
    var p0, p1, t1 := Placeholder(0), Placeholder(1), "`" + Placeholder(0) + "`";
    NestedStage1();
    assert Nested.single(t1) == Matches(["", ""], [Hit(t1, "`")]);
    assert Wholes([Hit(t1, "`")]) == [t1];
    assert Placeholders(1, 1) == [p1];
    assert Entries(1, [Hit(t1, "`")]) == [(p1, t1)];
    Weave1("", p1, "");
    Weave1("", t1, "");
    ConcatEmpty(p1);
    ConcatEmpty(t1);
    assert EscapePass(t1, Nested.single, [(p0, "<pre>x</pre>")]).0 == p1;
    assert [(p0, "<pre>x</pre>")] + [(p1, t1)] == [(p0, "<pre>x</pre>"), (p1, t1)];
  }

  lemma NestedStage3()
    ensures Stage3(NestedText, Nested, []) ==
      (Placeholder(1), [(Placeholder(0), "<pre>x</pre>"), (Placeholder(1), "`" + Placeholder(0) + "`")])
  {
    var p1 := Placeholder(1);
    var d2 := [(Placeholder(0), "<pre>x</pre>"), (p1, "`" + Placeholder(0) + "`")];
    NestedStage1();
    NestedStage2();
    IdlePass(p1, NoMatch(p1), 2, s => s);
    assert Nested.triple(p1) == NoMatch(p1);
    assert d2 + [] == d2;
  }

  lemma NestedSplits()
    ensures EscapesSplit(NestedText, Nested, []) && MathIdle(NestedText, Nested, [])
  {
    NestedStage1();
    NestedStage2();
    NestedStage3();
    NestedPreSplits();
    NestedSingleSplits();
    NestedLaterPassesIdle();
  }

  lemma NestedPreSplits()
    ensures Splits(Nested.pre(NestedText), NestedText)
  {
    var w0 := "<pre>x</pre>";
    assert Nested.pre(NestedText) == Matches(["`", "`"], [Hit(w0, "x")]);
    assert Wholes([Hit(w0, "x")]) == [w0];
    Weave1("`", w0, "`");
    assert "`" + w0 + "`" == NestedText;
  }

  lemma NestedSingleSplits()
    ensures Splits(Nested.single("`" + Placeholder(0) + "`"), "`" + Placeholder(0) + "`")
  {
    var t1 := "`" + Placeholder(0) + "`";
    assert Nested.single(t1) == Matches(["", ""], [Hit(t1, "`")]);
    assert Wholes([Hit(t1, "`")]) == [t1];
    Weave1("", t1, "");
    ConcatEmpty(t1);
  }

  lemma NestedLaterPassesIdle()
    ensures Splits(Nested.triple(Placeholder(1)), Placeholder(1)) && Nested.triple(Placeholder(1)).hits == []
    ensures Splits(Nested.dollar(Placeholder(1)), Placeholder(1)) && Nested.dollar(Placeholder(1)).hits == []
    ensures Splits(Nested.double(Placeholder(1)), Placeholder(1)) && Nested.double(Placeholder(1)).hits == []
  {
    var p1 := Placeholder(1);
    assert Nested.triple(p1) == NoMatch(p1) && Nested.dollar(p1) == NoMatch(p1) && Nested.double(p1) == NoMatch(p1);
  }

  /** Insertion order: block 0 is not in the text yet, block 1 brings
      placeholder 0 back. */
  lemma NestedRestore()
    ensures Restore(Placeholder(1), [(Placeholder(0), "<pre>x</pre>"), (Placeholder(1), "`" + Placeholder(0) + "`")])
      == "`" + Placeholder(0) + "`"
  {
    var p0, p1, w0, t1 := Placeholder(0), Placeholder(1), "<pre>x</pre>", "`" + Placeholder(0) + "`";
    var d1 := [(p0, w0)];
    var d2 := [(p0, w0), (p1, t1)];
    PlaceholdersDistinct(1, 0);
    ReplaceAbsent(p1, p0, w0);
    RestoreSingle(p1, p0, w0);
    assert d2[..1] == d1;
    ReplaceFirst("", p1, "", t1);
    ReplaceAbsent("", p1, t1);
    ConcatEmpty(p1);
    ConcatEmpty(t1);
  }

  /** `` `<pre>x</pre>` ``: the `<pre>` element is stored as block 0, the
      backticks around placeholder 0 as block 1; restoring in insertion order
      leaves placeholder 0 in the output, restoring newest first does not. */
  lemma NestedEscapeLeavesPlaceholder()
    ensures FreeFrom(NestedText, 0)
    ensures EscapesSplit(NestedText, Nested, []) && MathIdle(NestedText, Nested, [])
    ensures RunSpec(NestedText, Nested, []).0 == "`" + Placeholder(0) + "`"
    ensures RunSpec(NestedText, Nested, []).0 != NestedText
    ensures RunFixed(NestedText, Nested, []).0 == NestedText
  {
    NestedTextUnmarked();
    NestedSplits();
    NestedRunSpec();
    NestedOutputDiffers();
    RunFixedRoundTrip(NestedText, Nested, []);
  }

  lemma NestedRunSpec()
    ensures RunSpec(NestedText, Nested, []).0 == "`" + Placeholder(0) + "`"
  {
    NestedStage3();
    NestedSplits();
    MathIdleUnchanged(NestedText, Nested, []);
    NestedRestore();
  }

  lemma NestedOutputDiffers()
    ensures "`" + Placeholder(0) + "`" != NestedText
  {
    PlaceholderShape(0);
    assert ("`" + Placeholder(0) + "`")[2] == '!' && NestedText[2] == 'p';
  }

  // ---------------------------------------------------------------------------
  // The class

  /** A `Latex` object. Its `code_blocks` attribute belongs to the class: one
      dictionary, shared by every object and never cleared, so this object
      stands for the class's state. */
  class Latex {
    var codeBlocks: Store

    predicate Valid()
      reads this
    {
      ValidStore(codeBlocks)
    }

    /** The class attribute as first defined: `code_blocks = {}`. This object
        stands for the class, not for one instance: Python's `Latex()` shares
        the class dictionary and leaves it as it is, so every later `Latex()`
        of the script corresponds to reusing this one object, never to a new
        one. */
    constructor ()
      ensures Valid() && codeBlocks == []
    {
      codeBlocks := [];
    }

    /** `code_placeholder`: the next placeholder, numbered by how many blocks
        are stored, keys the whole match. */
    method CodePlaceholder(hit: Hit) returns (placeholder: string)
      modifies this
      ensures placeholder == Placeholder(|old(codeBlocks)|)
      ensures codeBlocks == Assign(old(codeBlocks), placeholder, hit.whole)
      ensures old(Valid()) ==> Valid() && codeBlocks == old(codeBlocks) + [(placeholder, hit.whole)]
    {
      ghost var before := codeBlocks;
      placeholder := Placeholder(|codeBlocks|);
      codeBlocks := Assign(codeBlocks, placeholder, hit.whole);
      if ValidStore(before) {
        StoreNext(before, hit.whole);
      }
    }

    /** `re.sub(pattern, self.code_placeholder, text)`: the callback runs on
        each match from left to right. */
    method SubPlaceholders(m: Segmentation) returns (text: string)
      modifies this
      requires Valid()
      ensures Valid()
      ensures text == Escape(m, |old(codeBlocks)|)
      ensures codeBlocks == old(codeBlocks) + Entries(|old(codeBlocks)|, m.hits)
    {
      ghost var before := codeBlocks;
      ghost var n := |codeBlocks|;
      text := m.gaps[0];
      var i := 0;
      assert m.gaps[..1] == [m.gaps[0]] && Placeholders(n, 0) == [];
      assert Entries(n, m.hits[..0]) == [];
      while i < |m.hits|
        invariant 0 <= i <= |m.hits|
        invariant Valid() && |codeBlocks| == n + i
        invariant codeBlocks == before + Entries(n, m.hits[..i])
        invariant text == Weave(m.gaps[..i + 1], Placeholders(n, i))
      {
        var placeholder := CodePlaceholder(m.hits[i]);
        text := text + placeholder + m.gaps[i + 1];
        EntriesSnoc(n, m.hits, i);
        WeaveSnoc(m.gaps[..i + 2], Placeholders(n, i + 1));
        assert m.gaps[..i + 2][..i + 1] == m.gaps[..i + 1];
        PlaceholdersFront(n, i + 1);
        i := i + 1;
      }
      assert m.gaps[..i + 1] == m.gaps && m.hits[..i] == m.hits;
    }

    /** The loop at the end of `run`: `replace` each key by its block, in
        insertion order. */
    method RestoreBlocks(text: string) returns (result: string)
      requires Valid()
      ensures result == Restore(text, codeBlocks)
    {
      result := text;
      var i := 0;
      while i < |codeBlocks|
        invariant 0 <= i <= |codeBlocks|
        invariant result == Restore(text, codeBlocks[..i])
      {
        result := Replace(result, codeBlocks[i].0, codeBlocks[i].1);
        assert codeBlocks[..i + 1][..i] == codeBlocks[..i];
        i := i + 1;
      }
      assert codeBlocks[..i] == codeBlocks;
    }

    /** `run`: three escape passes, two math passes, and the restore loop. */
    method Run(text: string, x: Externals) returns (result: string)
      modifies this
      requires Valid()
      ensures Valid()
      ensures (result, codeBlocks) == RunSpec(text, x, old(codeBlocks))
    {
      var t := SubPlaceholders(x.pre(text));
      t := SubPlaceholders(x.single(t));
      t := SubPlaceholders(x.triple(t));
      t := MathPasses(t, x);
      result := RestoreBlocks(t);
    }
  }
}
