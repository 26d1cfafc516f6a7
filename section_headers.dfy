/** `apply_section_headers` in md2respec.py: a one-pass scan over the lines of
    the rendered HTML that keeps one number of state, the current section level,
    and inserts `<section>` / `</section>` lines before header lines. */
module SectionHeaders {
  import opened TextOps

  const OpenTag: string := "<section>"
  const CloseTag: string := "</section>"

  /** A line of the output: a tag the scan inserted, or a line of the input. */
  datatype Item = Open | Close | Line(text: string)

  function TagText(item: Item): string {
    match item
    case Open => OpenTag
    case Close => CloseTag
    case Line(s) => s
  }

  /** The output lines as the strings that get joined. */
  function Render(items: seq<Item>): (r: seq<string>)
    ensures |r| == |items|
    ensures forall k :: 0 <= k < |items| ==> r[k] == TagText(items[k])
  {
    seq(|items|, k requires 0 <= k < |items| => TagText(items[k]))
  }

  /** Python's `[s] * n`. */
  function Repeat(s: string, n: nat): (r: seq<string>)
    ensures |r| == n
    ensures forall k :: 0 <= k < n ==> r[k] == s
  {
    seq(n, _ => s)
  }

  function Closes(n: nat): (r: seq<Item>)
    ensures |r| == n
    ensures forall k :: 0 <= k < n ==> r[k] == Close
  {
    seq(n, _ => Close)
  }

  /** `re.match(r"<h(\d)>", line)`: the digit's value when the line starts with
      `<h`, one decimal digit and `>`. */
  function MatchHeader(line: string): Option<nat> {
    if |line| >= 4 && line[0] == '<' && line[1] == 'h' && IsDigit(line[2]) && line[3] == '>'
    then Some(DigitValue(line[2]))
    else None
  }

  /** The level the scan reads from a line, if it reads one at all. */
  function HeaderLevel(line: string): Option<nat> {
    if StartsWith(line, "<h") then MatchHeader(line) else None
  }

  /** The tags inserted before `line` when the current level is `level`. */
  function Inserted(line: string, level: nat): seq<Item> {
    match HeaderLevel(line)
    case None => []
    case Some(h) =>
      if h > level then [Open]
      else if h < level then Closes(level - h)
      else []
  }

  /** The level after `line`. */
  function NextLevel(line: string, level: nat): nat {
    match HeaderLevel(line)
    case None => level
    case Some(h) => h
  }

  /** The level after the whole scan. */
  function LevelAfter(lines: seq<string>, level: nat): nat
    decreases |lines|
  {
    if lines == [] then level else LevelAfter(lines[1..], NextLevel(lines[0], level))
  }

  /** The output of the scan, from level `level`, before the final closing tags. */
  function Body(lines: seq<string>, level: nat): seq<Item>
    decreases |lines|
  {
    if lines == [] then []
    else Inserted(lines[0], level) + [Line(lines[0])] + Body(lines[1..], NextLevel(lines[0], level))
  }

  /** The output of the scan, from level `level`: every line preceded by the tags
      its header inserts, then one closing tag per section still open. */
  function Nest(lines: seq<string>, level: nat): seq<Item>
    decreases |lines|
  {
    if lines == [] then Closes(level)
    else Inserted(lines[0], level) + [Line(lines[0])] + Nest(lines[1..], NextLevel(lines[0], level))
  }

  /** The scan itself, as the source runs it: `splitlines`, the loop that
      appends to `new_lines` and updates `section_level`, the final closing
      tags, and `"\n".join`. */
  method ApplySectionHeaders(html: string) returns (result: string)
    ensures result == Join(Render(Nest(SplitLines(html), 0)), "\n")
  {
    var lines := SplitLines(html);
    var newLines: seq<string> := [];
    var sectionLevel: nat := 0;
    var i := 0;
    while i < |lines|
      invariant 0 <= i <= |lines|
      invariant newLines == Render(Body(lines[..i], 0))
      invariant sectionLevel == LevelAfter(lines[..i], 0)
    {
      var line := lines[i];
      ghost var linesBefore, levelBefore := newLines, sectionLevel;
      InsertedRendered(line, levelBefore);
      if StartsWith(line, "<h") {
        var m := MatchHeader(line);
        if m.Some? {
          var level := m.value;
          if level > sectionLevel {
            newLines := newLines + [OpenTag];
            sectionLevel := level;
          } else if level < sectionLevel {
            newLines := newLines + Repeat(CloseTag, sectionLevel - level);
            sectionLevel := level;
          }
        }
      }
      LoopStep(lines, i, linesBefore, levelBefore, newLines, sectionLevel);
      newLines := newLines + [line];
      i := i + 1;
    }
    LoopExit(lines, newLines, sectionLevel);
    newLines := newLines + Repeat(CloseTag, sectionLevel);
    result := Join(newLines, "\n");
  }

  /** The loop body of `ApplySectionHeaders` keeps its invariant: after the
      tags for line `i` and the line itself, the output and the level are
      those of the first `i + 1` lines. */
  lemma LoopStep(lines: seq<string>, i: nat, before: seq<string>, levelBefore: nat, after: seq<string>, level: nat)
    requires i < |lines|
    requires before == Render(Body(lines[..i], 0)) && levelBefore == LevelAfter(lines[..i], 0)
    requires after == before + Render(Inserted(lines[i], levelBefore))
    requires level == NextLevel(lines[i], levelBefore)
    ensures after + [lines[i]] == Render(Body(lines[..i + 1], 0))
    ensures level == LevelAfter(lines[..i + 1], 0)
  {
    ScanStep(lines[..i], lines[i]);
    assert lines[..i + 1] == lines[..i] + [lines[i]];
  }

  /** After the loop, the closing tags complete the output of `Nest`. */
  lemma LoopExit(lines: seq<string>, body: seq<string>, level: nat)
    requires body == Render(Body(lines[..|lines|], 0)) && level == LevelAfter(lines[..|lines|], 0)
    ensures body + Repeat(CloseTag, level) == Render(Nest(lines, 0))
  {
    assert lines[..|lines|] == lines;
    ClosesAtEnd(lines, 0);
    RenderCloses(level);
    RenderAppend(Body(lines, 0), Closes(level));
  }

  /** One turn of the loop of `ApplySectionHeaders`, on the rendered output. */
  lemma ScanStep(prefix: seq<string>, line: string)
    ensures Render(Body(prefix, 0)) + Render(Inserted(line, LevelAfter(prefix, 0))) + [line]
      == Render(Body(prefix + [line], 0))
    ensures NextLevel(line, LevelAfter(prefix, 0)) == LevelAfter(prefix + [line], 0)
  {
    var ins := Inserted(line, LevelAfter(prefix, 0));
    BodySnoc(prefix, line, 0);
    LevelAfterSnoc(prefix, line, 0);
    RenderAppend(Body(prefix, 0), ins);
    RenderAppend(Body(prefix, 0) + ins, [Line(line)]);
  }

  /** Scanning one more line extends the output by that line's tags and the line. */
  lemma {:induction false} BodySnoc(lines: seq<string>, line: string, level: nat)
    ensures Body(lines + [line], level) ==
      Body(lines, level) + Inserted(line, LevelAfter(lines, level)) + [Line(line)]
    decreases |lines|
  {
    if lines == [] {
      assert [line][1..] == [];
    } else {
      var next := NextLevel(lines[0], level);
      assert (lines + [line])[1..] == lines[1..] + [line];
      BodySnoc(lines[1..], line, next);
    }
  }

  /** What the loop body appends before a line, and the level it leaves. */
  lemma InsertedRendered(line: string, level: nat)
    ensures Render(Inserted(line, level)) ==
      match HeaderLevel(line)
      case None => []
      case Some(h) => if h > level then [OpenTag] else if h < level then Repeat(CloseTag, level - h) else []
    ensures HeaderLevel(line) == (if StartsWith(line, "<h") then MatchHeader(line) else None)
  {
    match HeaderLevel(line)
    case None =>
    case Some(h) =>
      if h < level { RenderCloses(level - h); }
  }

  lemma RenderCloses(n: nat)
    ensures Render(Closes(n)) == Repeat(CloseTag, n)
  {
  }

  lemma RenderAppend(a: seq<Item>, b: seq<Item>)
    ensures Render(a + b) == Render(a) + Render(b)
  {
  }

  // ---------------------------------------------------------------------------
  // What the output contains

  /** The input lines carried by the items, in order. */
  function Lines(items: seq<Item>): seq<string>
    decreases |items|
  {
    if items == [] then []
    else (if items[0].Line? then [items[0].text] else []) + Lines(items[1..])
  }

  lemma {:induction false} LinesAppend(a: seq<Item>, b: seq<Item>)
    ensures Lines(a + b) == Lines(a) + Lines(b)
    decreases |a|
  {
    if a == [] {
      assert a + b == b;
    } else {
      assert (a + b)[0] == a[0];
      assert (a + b)[1..] == a[1..] + b;
      LinesAppend(a[1..], b);
    }
  }

  lemma {:induction false} LinesOfTags(tags: seq<Item>)
    requires forall k :: 0 <= k < |tags| ==> !tags[k].Line?
    ensures Lines(tags) == []
    decreases |tags|
  {
    if tags != [] {
      LinesOfTags(tags[1..]);
    }
  }

  /** Every input line appears in the output exactly once and in its original
      order; everything else in the output is an inserted tag. */
  lemma {:induction false} NestKeepsLines(lines: seq<string>, level: nat)
    ensures Lines(Nest(lines, level)) == lines
    decreases |lines|
  {
    if lines == [] {
      LinesOfTags(Closes(level));
    } else {
      var tags := Inserted(lines[0], level);
      var rest := Nest(lines[1..], NextLevel(lines[0], level));
      NestKeepsLines(lines[1..], NextLevel(lines[0], level));
      LinesOfTags(tags);
      LinesAppend(tags + [Line(lines[0])], rest);
      LinesAppend(tags, [Line(lines[0])]);
      assert Lines([Line(lines[0])]) == [lines[0]];
    }
  }

  /** An inserted `<section>` stands immediately before a header line, and so
      at most one stands before any header. */
  lemma {:induction false} OpenPrecedesHeader(lines: seq<string>, level: nat)
    ensures forall k :: 0 <= k < |Nest(lines, level)| && Nest(lines, level)[k] == Open ==>
      k + 1 < |Nest(lines, level)| && Nest(lines, level)[k + 1].Line? &&
      HeaderLevel(Nest(lines, level)[k + 1].text).Some?
    decreases |lines|
  {
    if lines != [] {
      var line := lines[0];
      var tags := Inserted(line, level);
      var rest := Nest(lines[1..], NextLevel(line, level));
      OpenPrecedesHeader(lines[1..], NextLevel(line, level));
      var out := Nest(lines, level);
      assert out == tags + [Line(line)] + rest;
      forall k | 0 <= k < |out| && out[k] == Open
        ensures k + 1 < |out| && out[k + 1].Line? && HeaderLevel(out[k + 1].text).Some?
      {
        if k < |tags| {
          assert tags == [Open];
          assert out[k + 1] == Line(line);
        } else {
          assert k > |tags|;
          assert out[k] == rest[k - |tags| - 1];
          assert out[k + 1] == rest[k - |tags|];
        }
      }
    }
  }

  /** The output ends with one closing tag per section still open after the
      last line, and the part before them ends with the last input line. */
  lemma {:induction false} ClosesAtEnd(lines: seq<string>, level: nat)
    ensures Nest(lines, level) == Body(lines, level) + Closes(LevelAfter(lines, level))
    ensures lines != [] ==> Body(lines, level)[|Body(lines, level)| - 1] == Line(lines[|lines| - 1])
    decreases |lines|
  {
    if lines != [] {
      var next := NextLevel(lines[0], level);
      ClosesAtEnd(lines[1..], next);
      if |lines| > 1 {
        assert lines[1..][|lines| - 2] == lines[|lines| - 1];
      }
    }
  }

  /** The last header line in `lines`, if there is one. */
  function LastHeader(lines: seq<string>): Option<nat>
    decreases |lines|
  {
    if lines == [] then None
    else if HeaderLevel(lines[|lines| - 1]).Some? then HeaderLevel(lines[|lines| - 1])
    else LastHeader(lines[..|lines| - 1])
  }

  /** Around any line of the input, the output holds, right before that line,
      exactly the tags its header calls for at the level the earlier lines
      reached, and after it the output for the later lines. */
  lemma TagsBeforeLine(lines: seq<string>, k: nat, level: nat)
    requires k < |lines|
    ensures Nest(lines, level) ==
      Body(lines[..k], level) + Inserted(lines[k], LevelAfter(lines[..k], level)) + [Line(lines[k])]
      + Nest(lines[k + 1..], LevelAfter(lines[..k + 1], level))
  {
    var front, back := lines[..k + 1], lines[k + 1..];
    var mid := LevelAfter(front, level);
    assert lines == front + back;
    assert front == lines[..k] + [lines[k]];
    BodyAppend(front, back, level);
    LevelAfterAppend(front, back, level);
    BodySnoc(lines[..k], lines[k], level);
    ClosesAtEnd(lines, level);
    ClosesAtEnd(back, mid);
    ItemsRegroup(Body(front, level), Body(back, mid), Closes(LevelAfter(back, mid)));
  }

  lemma ItemsRegroup(a: seq<Item>, b: seq<Item>, c: seq<Item>)
    ensures a + b + c == a + (b + c)
  {
  }

  /** Scanning two pieces one after the other is scanning the first and then
      the second from the level the first reached. */
  lemma {:induction false} BodyAppend(a: seq<string>, b: seq<string>, level: nat)
    ensures Body(a + b, level) == Body(a, level) + Body(b, LevelAfter(a, level))
    decreases |a|
  {
    if a == [] {
      assert a + b == b;
    } else {
      var next := NextLevel(a[0], level);
      assert (a + b)[1..] == a[1..] + b;
      BodyAppend(a[1..], b, next);
    }
  }

  lemma {:induction false} LevelAfterAppend(a: seq<string>, b: seq<string>, level: nat)
    ensures LevelAfter(a + b, level) == LevelAfter(b, LevelAfter(a, level))
    decreases |a|
  {
    if a == [] {
      assert a + b == b;
    } else {
      assert (a + b)[1..] == a[1..] + b;
      LevelAfterAppend(a[1..], b, NextLevel(a[0], level));
    }
  }

  lemma {:induction false} LevelIsLastHeader(lines: seq<string>, level: nat)
    ensures LevelAfter(lines, level) == match LastHeader(lines) case Some(h) => h case None => level
    decreases |lines|
  {
    if lines != [] {
      var n := |lines|;
      LevelAfterSnoc(lines[..n - 1], lines[n - 1], level);
      assert lines[..n - 1] + [lines[n - 1]] == lines;
      LevelIsLastHeader(lines[..n - 1], level);
    }
  }

  lemma {:induction false} LevelAfterSnoc(lines: seq<string>, line: string, level: nat)
    ensures LevelAfter(lines + [line], level) == NextLevel(line, LevelAfter(lines, level))
    decreases |lines|
  {
    if lines == [] {
      assert [line][1..] == [];
    } else {
      assert (lines + [line])[1..] == lines[1..] + [line];
      LevelAfterSnoc(lines[1..], line, NextLevel(lines[0], level));
    }
  }

  /** With no header line in the input, the scan only re-joins the lines. */
  lemma {:induction false} NoHeadersNoTags(lines: seq<string>, level: nat)
    requires forall k :: 0 <= k < |lines| ==> HeaderLevel(lines[k]).None?
    ensures Render(Nest(lines, level)) == lines + Repeat(CloseTag, level)
    decreases |lines|
  {
    if lines != [] {
      NoHeadersNoTags(lines[1..], level);
      RenderAppend([Line(lines[0])], Nest(lines[1..], level));
      assert [lines[0]] + lines[1..] == lines;
    }
  }

  lemma NoHeadersUnchanged(html: string)
    requires forall k :: 0 <= k < |SplitLines(html)| ==> HeaderLevel(SplitLines(html)[k]).None?
    ensures Join(Render(Nest(SplitLines(html), 0)), "\n") == Join(SplitLines(html), "\n")
  {
    NoHeadersNoTags(SplitLines(html), 0);
    assert Repeat(CloseTag, 0) == [];
    assert SplitLines(html) + [] == SplitLines(html);
  }

  // ---------------------------------------------------------------------------
  // Counting tags

  function Count(items: seq<Item>, x: Item): nat {
    multiset(items)[x]
  }

  lemma {:induction false} ClosesCount(n: nat)
    ensures Count(Closes(n), Close) == n && Count(Closes(n), Open) == 0
  {
    if n > 0 {
      ClosesCount(n - 1);
      assert Closes(n) == Closes(n - 1) + [Close];
    }
  }

  /** How many headers raise the level, and by how much in total. */
  function Rises(lines: seq<string>, level: nat): nat
    decreases |lines|
  {
    if lines == [] then 0
    else
      var rise := match HeaderLevel(lines[0]) case Some(h) => if h > level then 1 else 0 case None => 0;
      rise + Rises(lines[1..], NextLevel(lines[0], level))
  }

  function RiseTotal(lines: seq<string>, level: nat): nat
    decreases |lines|
  {
    if lines == [] then 0
    else
      var rise := match HeaderLevel(lines[0]) case Some(h) => if h > level then h - level else 0 case None => 0;
      rise + RiseTotal(lines[1..], NextLevel(lines[0], level))
  }

  /** The scan inserts one `<section>` per rise, and closes every level it
      rose through plus the starting level. */
  lemma {:induction false} TagCounts(lines: seq<string>, level: nat)
    ensures Count(Nest(lines, level), Open) == Rises(lines, level)
    ensures Count(Nest(lines, level), Close) == level + RiseTotal(lines, level)
    decreases |lines|
  {
    if lines == [] {
      ClosesCount(level);
    } else {
      var line := lines[0];
      var next := NextLevel(line, level);
      TagCounts(lines[1..], next);
      NestCons(lines, level);
      InsertedCounts(line, level);
    }
  }

  /** The tags inserted before one line: an opening tag when the level rises,
      one closing tag per level it falls. */
  lemma InsertedCounts(line: string, level: nat)
    ensures var next := NextLevel(line, level);
      Count(Inserted(line, level), Open) == (if next > level then 1 else 0) &&
      Count(Inserted(line, level), Close) == (if next < level then level - next else 0)
  {
    match HeaderLevel(line)
    case None =>
    case Some(h) =>
      if h < level { ClosesCount(level - h); }
  }

  /** Every header that raises the level raises it by exactly one. */
  predicate UnitRises(lines: seq<string>, level: nat)
    decreases |lines|
  {
    lines == [] ||
    ((match HeaderLevel(lines[0]) case Some(h) => h > level ==> h == level + 1 case None => true) &&
     UnitRises(lines[1..], NextLevel(lines[0], level)))
  }

  lemma {:induction false} RiseBounds(lines: seq<string>, level: nat)
    ensures Rises(lines, level) <= RiseTotal(lines, level)
    ensures Rises(lines, level) == RiseTotal(lines, level) <==> UnitRises(lines, level)
    decreases |lines|
  {
    if lines != [] {
      RiseBounds(lines[1..], NextLevel(lines[0], level));
    }
  }

  /** The scan inserts as many `<section>` as `</section>` lines exactly when
      every rise in level, starting from level 0, is by one. */
  lemma TagsBalanceIffUnitRises(lines: seq<string>)
    ensures Count(Nest(lines, 0), Open) == Count(Nest(lines, 0), Close) <==> UnitRises(lines, 0)
  {
    TagCounts(lines, 0);
    RiseBounds(lines, 0);
  }

  // ---------------------------------------------------------------------------
  // Nesting

  /** Read left to right from `depth` open sections, no `</section>` closes a
      section that is not open, and every section is closed at the end. */
  predicate WellNested(items: seq<Item>, depth: nat)
    decreases |items|
  {
    if items == [] then depth == 0
    else match items[0]
      case Open => WellNested(items[1..], depth + 1)
      case Close => depth > 0 && WellNested(items[1..], depth - 1)
      case Line(_) => WellNested(items[1..], depth)
  }

  lemma {:induction false} WellNestedCounts(items: seq<Item>, depth: nat)
    requires WellNested(items, depth)
    ensures Count(items, Close) == Count(items, Open) + depth
    decreases |items|
  {
    if items != [] {
      assert items == [items[0]] + items[1..];
      match items[0]
      case Open => WellNestedCounts(items[1..], depth + 1);
      case Close => WellNestedCounts(items[1..], depth - 1);
      case Line(_) => WellNestedCounts(items[1..], depth);
    }
  }

  lemma {:induction false} WellNestedAfterCloses(n: nat, rest: seq<Item>, depth: nat)
    requires n <= depth && WellNested(rest, depth - n)
    ensures WellNested(Closes(n) + rest, depth)
    decreases n
  {
    if n == 0 {
      assert Closes(n) + rest == rest;
    } else {
      assert (Closes(n) + rest)[0] == Close;
      assert (Closes(n) + rest)[1..] == Closes(n - 1) + rest;
      WellNestedAfterCloses(n - 1, rest, depth - 1);
    }
  }

  /** The scan's output from a non-empty input: the tags of the first line,
      then that line and the rest of the scan. */
  lemma NestCons(lines: seq<string>, level: nat)
    requires lines != []
    ensures Nest(lines, level) ==
      Inserted(lines[0], level) + ([Line(lines[0])] + Nest(lines[1..], NextLevel(lines[0], level)))
  {
  }

  /** With unit rises the sections nest: the open sections always number the
      current level. */
  lemma {:induction false} UnitRisesNest(lines: seq<string>, level: nat)
    requires UnitRises(lines, level)
    ensures WellNested(Nest(lines, level), level)
    decreases |lines|
  {
    if lines == [] {
      WellNestedAfterCloses(level, [], level);
      assert Closes(level) + [] == Closes(level);
    } else {
      var line := lines[0];
      var next := NextLevel(line, level);
      UnitRisesNest(lines[1..], next);
      var rest := [Line(line)] + Nest(lines[1..], next);
      assert WellNested(rest, next);
      NestCons(lines, level);
      match HeaderLevel(line)
      case None =>
        assert Nest(lines, level) == [] + rest;
      case Some(h) =>
        if h > level {
          assert Nest(lines, level) == [Open] + rest;
        } else if h < level {
          WellNestedAfterCloses(level - h, rest, level);
        } else {
          assert Nest(lines, level) == [] + rest;
        }
    }
  }

  /** The doc-comment's "nested sections" holds exactly when every rise in
      level is by one: a jump (say from h1 to h3) leaves the output unbalanced. */
  lemma NestedIffUnitRises(lines: seq<string>)
    ensures WellNested(Nest(lines, 0), 0) <==> UnitRises(lines, 0)
  {
    TagsBalanceIffUnitRises(lines);
    if UnitRises(lines, 0) {
      UnitRisesNest(lines, 0);
    }
    if WellNested(Nest(lines, 0), 0) {
      WellNestedCounts(Nest(lines, 0), 0);
    }
  }

  /** `<h1>` then `<h3>`: the scan's output, line by line. */
  lemma JumpNest()
    ensures Nest(["<h1>", "<h3>"], 0) == [Open, Line("<h1>"), Open, Line("<h3>"), Close, Close, Close]
  {
    assert HeaderLevel("<h1>") == Some(1);
    assert HeaderLevel("<h3>") == Some(3);
    assert ["<h1>", "<h3>"][1..] == ["<h3>"];
    assert ["<h3>"][1..] == [];
    assert Nest([], 3) == [Close, Close, Close];
  }

  /** `<h1>` then `<h3>`: two `<section>` lines, three `</section>` lines, so
      the sections do not nest. */
  lemma JumpUnbalanced()
    ensures Count(Nest(["<h1>", "<h3>"], 0), Open) == 2
    ensures Count(Nest(["<h1>", "<h3>"], 0), Close) == 3
    ensures !WellNested(Nest(["<h1>", "<h3>"], 0), 0)
  {
    var lines := ["<h1>", "<h3>"];
    assert HeaderLevel("<h1>") == Some(1);
    assert HeaderLevel("<h3>") == Some(3);
    assert lines[1..] == ["<h3>"];
    assert ["<h3>"][1..] == [];
    assert Rises(["<h3>"], 1) == 1 && RiseTotal(["<h3>"], 1) == 2;
    assert Rises(lines, 0) == 2 && RiseTotal(lines, 0) == 3;
    TagCounts(lines, 0);
    NestedIffUnitRises(lines);
  }

  /** Lines that start like a header but are not `<h` digit `>` pass through
      without tags and leave the level alone. */
  lemma NonHeadersPassThrough(level: nat)
    ensures Nest(["<hr />"], level) == [Line("<hr />")] + Closes(level)
    ensures Nest(["<h2 id=\"x\">"], level) == [Line("<h2 id=\"x\">")] + Closes(level)
    ensures Nest(["<h2>"], 0) == [Open, Line("<h2>"), Close, Close]
  {
    assert HeaderLevel("<hr />") == None;
    assert HeaderLevel("<h2 id=\"x\">") == None;
    assert HeaderLevel("<h2>") == Some(2);
    assert ["<hr />"][1..] == [];
    assert ["<h2 id=\"x\">"][1..] == [];
    assert ["<h2>"][1..] == [];
  }

  // ---------------------------------------------------------------------------
  // The evidently intended scan: open one section per level risen

  function InsertedNested(line: string, level: nat): seq<Item> {
    match HeaderLevel(line)
    case None => []
    case Some(h) =>
      if h > level then Opens(h - level)
      else if h < level then Closes(level - h)
      else []
  }

  function Opens(n: nat): (r: seq<Item>)
    ensures |r| == n
    ensures forall k :: 0 <= k < n ==> r[k] == Open
  {
    seq(n, _ => Open)
  }

  function NestFixed(lines: seq<string>, level: nat): seq<Item>
    decreases |lines|
  {
    if lines == [] then Closes(level)
    else InsertedNested(lines[0], level) + [Line(lines[0])] + NestFixed(lines[1..], NextLevel(lines[0], level))
  }

  lemma {:induction false} WellNestedAfterOpens(n: nat, rest: seq<Item>, depth: nat)
    requires WellNested(rest, depth + n)
    ensures WellNested(Opens(n) + rest, depth)
    decreases n
  {
    if n == 0 {
      assert Opens(n) + rest == rest;
    } else {
      assert (Opens(n) + rest)[0] == Open;
      assert (Opens(n) + rest)[1..] == Opens(n - 1) + rest;
      WellNestedAfterOpens(n - 1, rest, depth + 1);
    }
  }

  lemma WellNestedAfterLine(line: string, rest: seq<Item>, depth: nat)
    requires WellNested(rest, depth)
    ensures WellNested([Line(line)] + rest, depth)
  {
    assert ([Line(line)] + rest)[1..] == rest;
  }

  lemma NestFixedCons(lines: seq<string>, level: nat)
    requires lines != []
    ensures NestFixed(lines, level) ==
      InsertedNested(lines[0], level) + ([Line(lines[0])] + NestFixed(lines[1..], NextLevel(lines[0], level)))
  {
  }

  /** Opening one section per level risen nests for every input. */
  lemma {:induction false} NestFixedWellNested(lines: seq<string>, level: nat)
    ensures WellNested(NestFixed(lines, level), level)
    decreases |lines|
  {
    if lines == [] {
      WellNestedAfterCloses(level, [], level);
      assert Closes(level) + [] == Closes(level);
    } else {
      var line := lines[0];
      var next := NextLevel(line, level);
      NestFixedWellNested(lines[1..], next);
      WellNestedAfterLine(line, NestFixed(lines[1..], next), next);
      WellNestedAfterInserted(line, level, [Line(line)] + NestFixed(lines[1..], next));
      NestFixedCons(lines, level);
    }
  }

  /** The tags the corrected scan inserts lead from `level` to the line's
      own level. */
  lemma WellNestedAfterInserted(line: string, level: nat, rest: seq<Item>)
    requires WellNested(rest, NextLevel(line, level))
    ensures WellNested(InsertedNested(line, level) + rest, level)
  {
    match HeaderLevel(line)
    case None =>
      assert [] + rest == rest;
    case Some(h) =>
      if h > level {
        WellNestedAfterOpens(h - level, rest, level);
      } else if h < level {
        WellNestedAfterCloses(level - h, rest, level);
      } else {
        assert [] + rest == rest;
      }
  }

  /** The corrected scan, like the original, keeps every input line in order. */
  lemma {:induction false} NestFixedKeepsLines(lines: seq<string>, level: nat)
    ensures Lines(NestFixed(lines, level)) == lines
    decreases |lines|
  {
    if lines == [] {
      LinesOfTags(Closes(level));
    } else {
      var line := lines[0];
      var next := NextLevel(line, level);
      NestFixedKeepsLines(lines[1..], next);
      var tail := NestFixed(lines[1..], next);
      var tags := InsertedNested(line, level);
      NestFixedCons(lines, level);
      LinesOfTags(tags);
      LinesAppend(tags, [Line(line)] + tail);
      LinesAppend([Line(line)], tail);
      assert Lines([Line(line)]) == [line];
      assert lines == [line] + lines[1..];
    }
  }

  /** Where every rise is by one, the corrected scan is the original one. */
  lemma {:induction false} NestFixedAgrees(lines: seq<string>, level: nat)
    requires UnitRises(lines, level)
    ensures NestFixed(lines, level) == Nest(lines, level)
    decreases |lines|
  {
    if lines != [] {
      var line := lines[0];
      NestFixedAgrees(lines[1..], NextLevel(line, level));
      NestFixedCons(lines, level);
      NestCons(lines, level);
      match HeaderLevel(line)
      case None =>
      case Some(h) =>
        if h == level + 1 { assert Opens(1) == [Open]; }
    }
  }

}
