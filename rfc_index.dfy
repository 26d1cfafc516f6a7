/** The entry list `generate_rfc_page` in gen_index.py builds before it
    renders the index page. It walks `source/`, keeps the files whose name
    ends in `.md` and records, for each, the front matter and modification
    date read from that file and a link obtained by rewriting `source/` to
    `rfcs/` and `.md` to `.html`. The walk itself is given as the sequence of
    (directory, file names) pairs `os.walk` yields. */
module RfcIndex {
  import opened TextOps

  /** One step of `os.walk`: a directory path and the names of its files. */
  datatype Directory = Directory(root: string, files: seq<string>)

  /** The part of an index entry this model keeps. The script's entry holds
      no path: `path` stands for the file its title, abstract, status,
      short name, editor and date are read from. `link` is the entry's link. */
  datatype Entry = Entry(path: string, link: string)

  // ---------------------------------------------------------------------------
  // Paths and links

  /** `os.path.join` for two POSIX components: an absolute second part wins;
      otherwise a `/` is put between the parts unless the first is empty or
      already ends in one. */
  function PathJoin(root: string, name: string): (path: string)
    ensures EndsWith(path, name)
    ensures StartsWith(name, "/") ==> path == name
    ensures !StartsWith(name, "/") ==> StartsWith(path, root)
  {
    if StartsWith(name, "/") then name
    else if root == [] || EndsWith(root, "/") then root + name
    else root + "/" + name
  }

  /** The link of a walked markdown file: every `source/` becomes `rfcs/`,
      then every `.md` becomes `.html`. */
  function Link(path: string): (link: string)
    ensures !Contains(link, "source/") && !Contains(link, ".md")
  {
    var moved := Replace(path, "source/", "rfcs/");
    LinkSeparators();
    ReplaceRemoves(path, "source/", "rfcs/");
    ReplaceKeepsAbsence(moved, ".md", ".html", "source/");
    ReplaceRemoves(moved, ".md", ".html");
    Replace(moved, ".md", ".html")
  }

  /** No placement of a pattern the rewrite removes agrees with a text it
      writes, so neither rewrite can create an occurrence of either pattern. */
  lemma LinkSeparators()
    ensures !Overlaps("source/", "rfcs/")
    ensures !Overlaps("source/", ".html")
    ensures !Overlaps("source/", ".md")
    ensures !Overlaps(".md", ".html")
  {
    NoOverlap("source/", "rfcs/");
    NoOverlap("source/", ".html");
    NoOverlap("source/", ".md");
    NoOverlap(".md", ".html");
  }

  /** A sufficient condition for `!Overlaps(p, r)` that the verifier can
      check character by character. */
  lemma NoOverlap(p: string, r: string)
    requires |p| > 0 && |r| > 0
    requires forall d :: 0 <= d < |p| ==> Clash(p, r, d)
    requires forall e :: 0 < e < |r| ==> Clash(r, p, e)
    ensures !Overlaps(p, r)
  {
    forall d: nat | d < |p| ensures !Agree(p[d..], r) {
      assert Clash(p, r, d);
      if p[d] == r[0] {
        assert p[d..][1] != r[1];
      } else {
        assert p[d..][0] != r[0];
      }
    }
    forall e: nat | 0 < e < |r| ensures !Agree(r[e..], p) {
      assert Clash(r, p, e);
      if r[e] == p[0] {
        assert r[e..][1] != p[1];
      } else {
        assert r[e..][0] != p[0];
      }
    }
  }

  /** `a[i..]` and `b` differ in their first or second character. */
  predicate Clash(a: string, b: string, i: nat)
    requires i < |a| && |b| > 0
  {
    a[i] != b[0] || (i + 1 < |a| && 1 < |b| && a[i + 1] != b[1])
  }

  /** The intended rewrite: a file `source/<rel>.md` links to `rfcs/<rel>.html`
      when `rel` itself holds neither pattern. */
  lemma LinkCanonical(rel: string)
    requires !Contains(rel, "source/") && !Contains(rel, ".md")
    ensures Link("source/" + rel + ".md") == "rfcs/" + rel + ".html"
  {
    var tail := rel + ".md";
    OneLevelFree(rel);
    MovePrefix(tail);
    assert "source/" + tail == "source/" + rel + ".md";
    var x := "rfcs/" + rel;
    assert "rfcs/" + tail == x + ".md" + "";
    NoOccurrenceAfterForeignPrefix("rfcs/", rel, ".md");
    RewriteMd(x, "");
    ReplaceAbsent("", ".md", ".html");
    assert x + ".html" + "" == "rfcs/" + rel + ".html";
  }

  lemma OneLevelFree(rel: string)
    requires !Contains(rel, "source/")
    ensures !Contains(rel + ".md", "source/")
  {
    LinkSeparators();
    ConcatEmpty(rel + ".md");
    assert Join([rel, ""], ".md") == rel + ".md" + "";
    JoinFree([rel, ""], ".md", "source/");
  }

  /** A text free of `source/` behind the leading `source/` only has that
      one rewritten. */
  lemma MovePrefix(tail: string)
    requires !Contains(tail, "source/")
    ensures Replace("source/" + tail, "source/", "rfcs/") == "rfcs/" + tail
  {
    ReplaceAbsent(tail, "source/", "rfcs/");
    ReplaceFirst("", "source/", tail, "rfcs/");
    assert "" + "source/" + tail == "source/" + tail;
    assert "" + "rfcs/" + tail == "rfcs/" + tail;
  }

  /** The first `.md` after a `.md`-free text is the next one rewritten. */
  lemma RewriteMd(x: string, y: string)
    requires !Contains(x, ".md")
    ensures Replace(x + ".md" + y, ".md", ".html") == x + ".html" + Replace(y, ".md", ".html")
  {
    forall k: nat | k < |x| ensures !OccursAt(x + ".md" + y, ".md", k) {
      MdNotBefore(x, y, k);
    }
    ReplaceFirst(x, ".md", y, ".html");
  }

  /** In `x + ".md" + y` with `x` free of `.md`, no occurrence starts inside `x`. */
  lemma MdNotBefore(x: string, y: string, k: nat)
    requires !Contains(x, ".md") && k < |x|
    ensures !OccursAt(x + ".md" + y, ".md", k)
  {
    var s := x + ".md" + y;
    assert s == x + (".md" + y);
    if OccursAt(s, ".md", k) {
      OccurrenceSplit(x, ".md" + y, ".md", k);
      if k + 3 > |x| {
        OccursAtChar(s, ".md", k, |x| - k);
      }
    }
  }

  /** The rewrite is global, not anchored: with a `.md` inside a directory
      name, `source/<a>.md<b>.md` links to `rfcs/<a>.html<b>.html`. */
  lemma LinkRewritesEveryMatch(a: string, b: string)
    requires !Contains(a, "source/") && !Contains(a, ".md")
    requires !Contains(b, "source/") && !Contains(b, ".md")
    ensures Link("source/" + a + ".md" + b + ".md") == "rfcs/" + a + ".html" + b + ".html"
  {
    var tail := a + ".md" + b + ".md";
    TwoLevelsFree(a, b);
    MovePrefix(tail);
    assert "source/" + tail == "source/" + a + ".md" + b + ".md";
    var x := "rfcs/" + a;
    assert "rfcs/" + tail == x + ".md" + (b + ".md");
    NoOccurrenceAfterForeignPrefix("rfcs/", a, ".md");
    RewriteMd(x, b + ".md");
    ConcatEmpty(b + ".md");
    RewriteMd(b, "");
    ReplaceAbsent("", ".md", ".html");
    ConcatEmpty(b + ".html");
    ConcatAssoc(x + ".html", b, ".html");
  }

  lemma TwoLevelsFree(a: string, b: string)
    requires !Contains(a, "source/") && !Contains(b, "source/")
    ensures !Contains(a + ".md" + b + ".md", "source/")
  {
    LinkSeparators();
    JoinCons(a, [b, ""], ".md");
    JoinCons(b, [""], ".md");
    ConcatEmpty(b + ".md");
    assert Join([a, b, ""], ".md") == a + ".md" + (b + ".md");
    JoinFree([a, b, ""], ".md", "source/");
    ConcatAssoc(a + ".md", b, ".md");
  }

  /** The concrete case: `source/a.md.d/b.md` links to `rfcs/a.html.d/b.html`. */
  lemma LinkRewritesInnerMatches()
    ensures Link("source/a.md.d/b.md") == "rfcs/a.html.d/b.html"
  {
    var a, b := "a", ".d/b";
    assert !Contains(b, ".md") by {
      forall i: nat ensures !OccursAt(b, ".md", i) {
        if OccursAt(b, ".md", i) {
          OccursAtChar(b, ".md", i, 1);
        }
      }
    }
    LinkRewritesEveryMatch(a, b);
    assert "source/" + a + ".md" + b + ".md" == "source/a.md.d/b.md";
    assert "rfcs/" + a + ".html" + b + ".html" == "rfcs/a.html.d/b.html";
  }

  // ---------------------------------------------------------------------------
  // The entry list

  /** The file names the `endswith(".md")` test keeps, in walk order. */
  function MdFiles(files: seq<string>): (md: seq<string>)
    ensures |md| <= |files|
    ensures forall k :: 0 <= k < |md| ==> EndsWith(md[k], ".md")
  {
    if files == [] then []
    else (if EndsWith(files[0], ".md") then [files[0]] else []) + MdFiles(files[1..])
  }

  /** The entry for one kept file of directory `root`. */
  function EntryFor(root: string, name: string): Entry {
    var path := PathJoin(root, name);
    Entry(path, Link(path))
  }

  /** The entries one directory contributes: one per kept file, in order. */
  function DirEntries(dir: Directory): (entries: seq<Entry>)
    ensures |entries| == |MdFiles(dir.files)|
  {
    var md := MdFiles(dir.files);
    seq(|md|, k requires 0 <= k < |md| => EntryFor(dir.root, md[k]))
  }

  /** The entries of a whole walk, directory after directory. */
  function WalkEntries(walk: seq<Directory>): seq<Entry> {
    if walk == [] then [] else DirEntries(walk[0]) + WalkEntries(walk[1..])
  }

  /** The `os.walk` loop of `generate_rfc_page`: for every directory and every
      file in it, a markdown file appends one entry. */
  method GenerateRfcEntries(walk: seq<Directory>) returns (rfcs: seq<Entry>)
    ensures rfcs == WalkEntries(walk)
  {
    rfcs := [];
    var i := 0;
    while i < |walk|
      invariant 0 <= i <= |walk|
      invariant rfcs == WalkEntries(walk[..i])
    {
      var root, files := walk[i].root, walk[i].files;
      var j := 0;
      while j < |files|
        invariant 0 <= j <= |files|
        invariant rfcs == WalkEntries(walk[..i]) + DirEntries(Directory(root, files[..j]))
      {
        var file := files[j];
        FileStep(WalkEntries(walk[..i]), root, files, j, rfcs);
        if EndsWith(file, ".md") {
          var filepath := PathJoin(root, file);
          rfcs := rfcs + [Entry(filepath, Link(filepath))];
        }
        j := j + 1;
      }
      DirStep(walk, i, rfcs);
      i := i + 1;
    }
    assert walk[..i] == walk;
  }

  /** The inner loop keeps its invariant: a markdown file appends its entry,
      any other file nothing. */
  lemma FileStep(done: seq<Entry>, root: string, files: seq<string>, j: nat, rfcs: seq<Entry>)
    requires j < |files| && rfcs == done + DirEntries(Directory(root, files[..j]))
    ensures rfcs + (if EndsWith(files[j], ".md") then [EntryFor(root, files[j])] else [])
      == done + DirEntries(Directory(root, files[..j + 1]))
  {
    DirEntriesSnoc(root, files[..j], files[j]);
    assert files[..j + 1] == files[..j] + [files[j]];
  }

  /** The outer loop keeps its invariant once a directory's files are done. */
  lemma DirStep(walk: seq<Directory>, i: nat, rfcs: seq<Entry>)
    requires i < |walk|
    requires rfcs == WalkEntries(walk[..i]) + DirEntries(Directory(walk[i].root, walk[i].files[..|walk[i].files|]))
    ensures rfcs == WalkEntries(walk[..i + 1])
  {
    assert walk[i].files[..|walk[i].files|] == walk[i].files;
    WalkEntriesSnoc(walk[..i], walk[i]);
    assert walk[..i + 1] == walk[..i] + [walk[i]];
  }

  // ---------------------------------------------------------------------------
  // Properties of the entry list

  /** Filtering distributes over concatenation. */
  lemma {:induction false} MdFilesAppend(a: seq<string>, b: seq<string>)
    ensures MdFiles(a + b) == MdFiles(a) + MdFiles(b)
  {
    if a == [] {
      assert a + b == b;
    } else {
      assert (a + b)[1..] == a[1..] + b;
      MdFilesAppend(a[1..], b);
    }
  }

  /** Every markdown file of the directory is kept exactly as often as it is
      listed, and no other file is kept. */
  lemma {:induction false} MdFilesCount(files: seq<string>)
    ensures forall f :: multiset(MdFiles(files))[f] == if EndsWith(f, ".md") then multiset(files)[f] else 0
  {
    if files != [] {
      MdFilesCount(files[1..]);
      assert files == [files[0]] + files[1..];
    }
  }

  /** A file name is among the kept ones exactly when it is listed and ends in `.md`. */
  lemma MdFilesMembers(files: seq<string>, f: string)
    ensures f in MdFiles(files) <==> f in files && EndsWith(f, ".md")
  {
    MdFilesCount(files);
    assert f in MdFiles(files) <==> multiset(MdFiles(files))[f] > 0;
    assert f in files <==> multiset(files)[f] > 0;
  }

  /** One more file: a markdown file adds its entry at the end, any other
      file adds nothing. */
  lemma DirEntriesSnoc(root: string, files: seq<string>, name: string)
    ensures DirEntries(Directory(root, files + [name])) ==
      DirEntries(Directory(root, files)) + (if EndsWith(name, ".md") then [EntryFor(root, name)] else [])
  {
    MdFilesAppend(files, [name]);
    assert MdFiles([name]) == if EndsWith(name, ".md") then [name] else [];
  }

  /** The entries of two walks one after the other are those of each, in order. */
  lemma {:induction false} WalkEntriesAppend(a: seq<Directory>, b: seq<Directory>)
    ensures WalkEntries(a + b) == WalkEntries(a) + WalkEntries(b)
  {
    if a == [] {
      assert a + b == b;
    } else {
      assert (a + b)[1..] == a[1..] + b;
      WalkEntriesAppend(a[1..], b);
    }
  }

  lemma WalkEntriesSnoc(walk: seq<Directory>, dir: Directory)
    ensures WalkEntries(walk + [dir]) == WalkEntries(walk) + DirEntries(dir)
  {
    WalkEntriesAppend(walk, [dir]);
  }

  /** A directory without markdown files contributes nothing. */
  lemma NoMarkdownNoEntries(dir: Directory)
    requires forall k :: 0 <= k < |dir.files| ==> !EndsWith(dir.files[k], ".md")
    ensures DirEntries(dir) == []
  {
    if |MdFiles(dir.files)| > 0 {
      var f := MdFiles(dir.files)[0];
      MdFilesMembers(dir.files, f);
    }
  }

  /** Every entry's path ends in `.md` and its link is the rewrite of that
      path, holding neither `source/` nor `.md`. */
  lemma {:induction false} EntriesAreMarkdown(walk: seq<Directory>)
    ensures forall e :: e in WalkEntries(walk) ==>
      EndsWith(e.path, ".md") && e.link == Link(e.path)
      && !Contains(e.link, "source/") && !Contains(e.link, ".md")
  {
    if walk != [] {
      EntriesAreMarkdown(walk[1..]);
      var md := MdFiles(walk[0].files);
      forall e | e in DirEntries(walk[0]) ensures EndsWith(e.path, ".md") && e.link == Link(e.path) {
        var k :| 0 <= k < |md| && e == EntryFor(walk[0].root, md[k]);
        EndsWithTail(walk[0].root, md[k]);
      }
    }
  }

  /** The entries are exactly the kept files of the walk: each one is a
      markdown file of some walked directory, joined to that directory, and
      every such file has its entry. */
  lemma {:induction false} EntriesAreWalkedFiles(walk: seq<Directory>)
    ensures forall e :: e in WalkEntries(walk) ==>
      exists d, f :: d in walk && f in MdFiles(d.files) && e == EntryFor(d.root, f)
    ensures forall d, f :: d in walk && f in MdFiles(d.files) ==> EntryFor(d.root, f) in WalkEntries(walk)
  {
    if walk != [] {
      var dir, rest := walk[0], walk[1..];
      EntriesAreWalkedFiles(rest);
      var md := MdFiles(dir.files);
      assert WalkEntries(walk) == DirEntries(dir) + WalkEntries(rest);
      forall e | e in WalkEntries(walk)
        ensures exists d, f :: d in walk && f in MdFiles(d.files) && e == EntryFor(d.root, f)
      {
        if e in DirEntries(dir) {
          var k :| 0 <= k < |md| && DirEntries(dir)[k] == e;
          assert md[k] in MdFiles(dir.files) && e == EntryFor(dir.root, md[k]);
        } else {
          assert e in WalkEntries(rest);
          var d, f :| d in rest && f in MdFiles(d.files) && e == EntryFor(d.root, f);
          assert d in walk;
        }
      }
      forall d, f | d in walk && f in MdFiles(d.files)
        ensures EntryFor(d.root, f) in WalkEntries(walk)
      {
        if d == dir {
          var k :| 0 <= k < |md| && md[k] == f;
          assert DirEntries(dir)[k] == EntryFor(d.root, f);
        } else {
          assert d in rest;
        }
      }
    }
  }

  /** A joined path ends in `.md` when the file name does. */
  lemma EndsWithTail(root: string, name: string)
    requires EndsWith(name, ".md")
    ensures EndsWith(PathJoin(root, name), ".md")
  {
    var p := PathJoin(root, name);
    assert p[|p| - |name|..] == name;
    assert p[|p| - 3..] == name[|name| - 3..];
  }

  /** The number of entries is the number of walked markdown files. */
  lemma {:induction false} EntryCount(walk: seq<Directory>)
    ensures |WalkEntries(walk)| == MarkdownCount(walk)
  {
    if walk != [] {
      EntryCount(walk[1..]);
      MdFilesLength(walk[0].files);
    }
  }

  lemma {:induction false} MdFilesLength(files: seq<string>)
    ensures |MdFiles(files)| == CountMarkdown(files)
  {
    if files != [] {
      MdFilesLength(files[1..]);
    }
  }

  /** How many walked files end in `.md`, counted independently of the filter. */
  function MarkdownCount(walk: seq<Directory>): nat {
    if walk == [] then 0 else CountMarkdown(walk[0].files) + MarkdownCount(walk[1..])
  }

  function CountMarkdown(files: seq<string>): nat {
    if files == [] then 0
    else (if EndsWith(files[0], ".md") then 1 else 0) + CountMarkdown(files[1..])
  }
}
