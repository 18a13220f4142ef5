/**
 * `generate_tree` of utils/utils.py: render a directory as indented text
 * lines, one per visible entry, in sorted name order, recursing into
 * subdirectories.
 *
 * The directory is given as a tree of entries (what `os.listdir` and
 * `os.path.isdir` would report), and the ignore rules as a predicate on the
 * entry's path relative to the root (what `spec.match_file` answers; a
 * missing spec is the predicate that matches nothing).
 */
module TreeUtils {

  datatype Entry = File(name: string) | Dir(name: string, children: seq<Entry>)

  /** One rendered line: the indentation prefix, the connector and the entry name. */
  datatype Line = Line(prefix: string, connector: string, name: string)

  const LastConnector: string := "└── "
  const MiddleConnector: string := "├── "
  const LastExtension: string := "    "
  const MiddleExtension: string := "│   "

  // ------------------------------------------------------------------
  // Python's string order and sorted()
  // ------------------------------------------------------------------

  /** Lexicographic order by code point, as Python compares `str`. */
  predicate NameLe(a: string, b: string) {
    a == [] || (b != [] && (a[0] < b[0] || (a[0] == b[0] && NameLe(a[1..], b[1..]))))
  }

  lemma {:induction false} NameLeTotal(a: string, b: string)
    ensures NameLe(a, b) || NameLe(b, a)
  {
    if a != [] && b != [] && a[0] == b[0] {
      NameLeTotal(a[1..], b[1..]);
    }
  }

  lemma {:induction false} NameLeTransitive(a: string, b: string, c: string)
    requires NameLe(a, b) && NameLe(b, c)
    ensures NameLe(a, c)
  {
    if a != [] && b != [] && c != [] && a[0] == b[0] && b[0] == c[0] {
      NameLeTransitive(a[1..], b[1..], c[1..]);
    }
  }

  lemma {:induction false} NameLeAntisymmetric(a: string, b: string)
    requires NameLe(a, b) && NameLe(b, a)
    ensures a == b
  {
    if a != [] && b != [] {
      NameLeAntisymmetric(a[1..], b[1..]);
      assert a == [a[0]] + a[1..];
      assert b == [b[0]] + b[1..];
    }
  }

  predicate SortedByName(s: seq<Entry>) {
    forall i, j :: 0 <= i < j < |s| ==> NameLe(s[i].name, s[j].name)
  }

  /** Every entry of `s` sorts at or after `x`. */
  predicate LowerBound(x: string, s: seq<Entry>) {
    forall i :: 0 <= i < |s| ==> NameLe(x, s[i].name)
  }

  /** Put `e` in front of the first entry it does not sort after. */
  function Insert(e: Entry, s: seq<Entry>): (r: seq<Entry>)
    ensures multiset(r) == multiset(s) + multiset{e}
  {
    if s == [] then [e]
    else if NameLe(e.name, s[0].name) then [e] + s
    else
      assert s == [s[0]] + s[1..];
      [s[0]] + Insert(e, s[1..])
  }

  lemma InsertLowerBound(x: string, e: Entry, s: seq<Entry>)
    requires NameLe(x, e.name) && LowerBound(x, s)
    ensures LowerBound(x, Insert(e, s))
  {
    var r := Insert(e, s);
    forall i | 0 <= i < |r|
      ensures NameLe(x, r[i].name)
    {
      assert r[i] in multiset(r);
      if r[i] != e {
        assert r[i] in s;
      }
    }
  }

  lemma {:induction false} InsertSorted(e: Entry, s: seq<Entry>)
    requires SortedByName(s)
    ensures SortedByName(Insert(e, s))
  {
    if s == [] {
    } else if NameLe(e.name, s[0].name) {
      var r := [e] + s;
      forall i, j | 0 <= i < j < |r|
        ensures NameLe(r[i].name, r[j].name)
      {
        if i == 0 && j > 1 {
          NameLeTransitive(e.name, s[0].name, s[j - 1].name);
        }
      }
    } else {
      InsertSorted(e, s[1..]);
      NameLeTotal(e.name, s[0].name);
      InsertLowerBound(s[0].name, e, s[1..]);
      var rest := Insert(e, s[1..]);
      var r := [s[0]] + rest;
      forall i, j | 0 <= i < j < |r|
        ensures NameLe(r[i].name, r[j].name)
      {
        if i > 0 {
          assert r[i] == rest[i - 1] && r[j] == rest[j - 1];
        }
      }
    }
  }

  /** Python's `sorted` on a directory's entries, by name. */
  function SortByName(s: seq<Entry>): (r: seq<Entry>)
    ensures multiset(r) == multiset(s)
  {
    if s == [] then []
    else
      assert s == s[..|s| - 1] + [s[|s| - 1]];
      Insert(s[|s| - 1], SortByName(s[..|s| - 1]))
  }

  /** `sorted` returns the entries in name order, as a permutation of its input. */
  lemma {:induction false} SortByNameSorted(s: seq<Entry>)
    ensures SortedByName(SortByName(s))
  {
    if s != [] {
      SortByNameSorted(s[..|s| - 1]);
      InsertSorted(s[|s| - 1], SortByName(s[..|s| - 1]));
    }
  }

  // ------------------------------------------------------------------
  // The listing of one directory
  // ------------------------------------------------------------------

  predicate Hidden(e: Entry) {
    |e.name| > 0 && e.name[0] == '.'
  }

  /** The dot filter: drop the entries whose name starts with ".". */
  function Visible(s: seq<Entry>): (r: seq<Entry>)
    ensures forall e :: e in r <==> e in s && !Hidden(e)
  {
    if s == [] then []
    else
      assert forall e :: e in s <==> e == s[0] || e in s[1..];
      if Hidden(s[0]) then Visible(s[1..]) else [s[0]] + Visible(s[1..])
  }

  /** The dot filter keeps the order of what it keeps. */
  lemma {:induction false} VisibleSorted(s: seq<Entry>)
    requires SortedByName(s)
    ensures SortedByName(Visible(s))
  {
    if s != [] {
      VisibleSorted(s[1..]);
      var rest := Visible(s[1..]);
      if !Hidden(s[0]) {
        var r := [s[0]] + rest;
        forall i, j | 0 <= i < j < |r|
          ensures NameLe(r[i].name, r[j].name)
        {
          if i == 0 {
            assert r[j] in s[1..];
            var k :| 0 <= k < |s[1..]| && s[1..][k] == r[j];
            assert s[k + 1] == r[j];
          } else {
            assert r[i] == rest[i - 1] && r[j] == rest[j - 1];
          }
        }
      }
    }
  }

  /** The entries `generate_tree` walks for one directory: sorted by name, hidden ones dropped. */
  function Listing(children: seq<Entry>): (r: seq<Entry>)
    ensures forall e :: e in r <==> e in children && !Hidden(e)
  {
    var sorted := SortByName(children);
    assert forall e :: e in sorted <==> e in multiset(sorted);
    Visible(sorted)
  }

  /** The listing is in name order and holds exactly the visible children. */
  lemma ListingSorted(children: seq<Entry>)
    ensures SortedByName(Listing(children))
  {
    SortByNameSorted(children);
    VisibleSorted(SortByName(children));
  }

  function RelPath(rel: string, name: string): string {
    if rel == "" then name else rel + "/" + name
  }

  function Connector(index: nat, count: nat): string {
    if index == count - 1 then LastConnector else MiddleConnector
  }

  function Extension(index: nat, count: nat): string {
    if index == count - 1 then LastExtension else MiddleExtension
  }

  // ------------------------------------------------------------------
  // The lines of a tree
  // ------------------------------------------------------------------

  /** The lines `generate_tree(d, prefix)` emits, in order. */
  function TreeLines(d: Entry, prefix: string, ignored: string -> bool, rel: string): seq<Line>
    requires d.Dir?
    decreases d, 2
  {
    var entries := Listing(d.children);
    LinesUpTo(d, entries, |entries|, prefix, ignored, rel)
  }

  /** The lines of the first n entries of the directory's listing. */
  function LinesUpTo(d: Entry, entries: seq<Entry>, n: nat, prefix: string, ignored: string -> bool, rel: string): seq<Line>
    requires d.Dir? && n <= |entries|
    requires forall e :: e in entries ==> e in d.children
    decreases d, 1, n
  {
    if n == 0 then []
    else LinesUpTo(d, entries, n - 1, prefix, ignored, rel) + EntryLines(d, entries, n - 1, prefix, ignored, rel)
  }

  /**
   * The lines of entry k: none when the ignore rules match it; otherwise
   * its own line, then its subtree's lines when it is a directory.
   */
  function EntryLines(d: Entry, entries: seq<Entry>, k: nat, prefix: string, ignored: string -> bool, rel: string): seq<Line>
    requires d.Dir? && k < |entries|
    requires forall e :: e in entries ==> e in d.children
    decreases d, 0
  {
    var e := entries[k];
    assert e in d.children;
    var path := RelPath(rel, e.name);
    if ignored(path) then []
    else
      [Line(prefix, Connector(k, |entries|), e.name)]
      + (if e.Dir? then TreeLines(e, prefix + Extension(k, |entries|), ignored, path) else [])
  }

  function LineText(l: Line): string {
    l.prefix + l.connector + l.name + "\n"
  }

  function Render(lines: seq<Line>): string {
    if lines == [] then "" else Render(lines[..|lines| - 1]) + LineText(lines[|lines| - 1])
  }

  lemma {:induction false} RenderAppend(a: seq<Line>, b: seq<Line>)
    ensures Render(a + b) == Render(a) + Render(b)
  {
    if b == [] {
      assert a + b == a;
    } else {
      var init := b[..|b| - 1];
      var last := b[|b| - 1];
      assert (a + b)[..|a + b| - 1] == a + init;
      assert (a + b)[|a + b| - 1] == last;
      RenderAppend(a, init);
      calc {
        Render(a + b);
        Render(a + init) + LineText(last);
        (Render(a) + Render(init)) + LineText(last);
        Render(a) + (Render(init) + LineText(last));
        Render(a) + Render(b);
      }
    }
  }

  // ------------------------------------------------------------------
  // generate_tree
  // ------------------------------------------------------------------

  /** `generate_tree`: the text is the rendering of the tree's lines. */
  method GenerateTree(d: Entry, prefix: string, ignored: string -> bool, rel: string) returns (tree: string)
    requires d.Dir?
    ensures tree == Render(TreeLines(d, prefix, ignored, rel))
    decreases d, 1
  {
    tree := "";
    var entries := Listing(d.children);
    var index := 0;
    while index < |entries|
      invariant 0 <= index <= |entries|
      invariant tree == Render(LinesUpTo(d, entries, index, prefix, ignored, rel))
    {
      var text := EmitEntry(d, entries, index, prefix, ignored, rel);
      RenderAppend(LinesUpTo(d, entries, index, prefix, ignored, rel), EntryLines(d, entries, index, prefix, ignored, rel));
      tree := tree + text;
      index := index + 1;
    }
  }

  /** One pass of the `generate_tree` loop: skip an ignored entry, else its line, then its subtree. */
  method EmitEntry(d: Entry, entries: seq<Entry>, index: nat, prefix: string, ignored: string -> bool, rel: string)
    returns (text: string)
    requires d.Dir? && index < |entries|
    requires forall e :: e in entries ==> e in d.children
    ensures text == Render(EntryLines(d, entries, index, prefix, ignored, rel))
    decreases d, 0
  {
    var entry := entries[index];
    assert entry in d.children;
    var path := RelPath(rel, entry.name);
    if ignored(path) {
      return "";
    }
    var connector := if index == |entries| - 1 then LastConnector else MiddleConnector;
    text := prefix + connector + entry.name + "\n";
    var own := [Line(prefix, connector, entry.name)];
    assert Render(own) == text by {
      assert own[..0] == [];
    }
    if entry.Dir? {
      var extension := if index == |entries| - 1 then LastExtension else MiddleExtension;
      var sub := GenerateTree(entry, prefix + extension, ignored, path);
      RenderAppend(own, TreeLines(entry, prefix + extension, ignored, path));
      text := text + sub;
    }
  }

  // ------------------------------------------------------------------
  // What the rendered tree looks like
  // ------------------------------------------------------------------

  /** Line l of directory d's rendering, seen from d: a nested line sits under a longer prefix, a direct one is entry k's. */
  ghost predicate LineShape(l: Line, entries: seq<Entry>, prefix: string, ignored: string -> bool, rel: string) {
    && !(|l.name| > 0 && l.name[0] == '.')
    && ((|l.prefix| > |prefix| && l.prefix[..|prefix|] == prefix)
        || (l.prefix == prefix
            && exists k :: 0 <= k < |entries| && l.connector == Connector(k, |entries|) && l.name == entries[k].name
                           && !ignored(RelPath(rel, entries[k].name))))
  }

  /**
   * Every line of a directory's rendering is either a direct line, carrying
   * the directory's own prefix and the connector of a visible, non-ignored
   * entry's index in the dot-filtered listing, or a nested line whose prefix
   * extends it; no line names a hidden entry.
   */
  lemma TreeLinesShape(d: Entry, prefix: string, ignored: string -> bool, rel: string)
    requires d.Dir?
    ensures forall l :: l in TreeLines(d, prefix, ignored, rel) ==> LineShape(l, Listing(d.children), prefix, ignored, rel)
    decreases d, 2
  {
    var entries := Listing(d.children);
    LinesUpToShape(d, entries, |entries|, prefix, ignored, rel);
  }

  lemma {:induction false} LinesUpToShape(d: Entry, entries: seq<Entry>, n: nat, prefix: string, ignored: string -> bool, rel: string)
    requires d.Dir? && n <= |entries|
    requires forall e :: e in entries ==> e in d.children && !Hidden(e)
    ensures forall l :: l in LinesUpTo(d, entries, n, prefix, ignored, rel) ==> LineShape(l, entries, prefix, ignored, rel)
    decreases d, 1, n
  {
    if n > 0 {
      LinesUpToShape(d, entries, n - 1, prefix, ignored, rel);
      EntryLinesShape(d, entries, n - 1, prefix, ignored, rel);
    }
  }

  lemma EntryLinesShape(d: Entry, entries: seq<Entry>, k: nat, prefix: string, ignored: string -> bool, rel: string)
    requires d.Dir? && k < |entries|
    requires forall e :: e in entries ==> e in d.children && !Hidden(e)
    ensures forall l :: l in EntryLines(d, entries, k, prefix, ignored, rel) ==> LineShape(l, entries, prefix, ignored, rel)
    decreases d, 0
  {
    var e := entries[k];
    assert e in d.children;
    var path := RelPath(rel, e.name);
    if !ignored(path) {
      var own := Line(prefix, Connector(k, |entries|), e.name);
      assert LineShape(own, entries, prefix, ignored, rel);
      if e.Dir? {
        var inner := prefix + Extension(k, |entries|);
        TreeLinesShape(e, inner, ignored, path);
        forall l | l in TreeLines(e, inner, ignored, path)
          ensures LineShape(l, entries, prefix, ignored, rel)
        {
          assert LineShape(l, Listing(e.children), inner, ignored, path);
          NestedPrefix(l.prefix, prefix, Extension(k, |entries|));
        }
      }
    }
  }

  /**
   * The lines under a subdirectory's own line extend the prefix: by "    "
   * under the last entry of the listing, and by "│   " under any other.
   * The entry's own line comes first, with the directory's prefix.
   */
  lemma EntrySubtreeUnderExtension(d: Entry, entries: seq<Entry>, k: nat, prefix: string, ignored: string -> bool, rel: string)
    requires d.Dir? && k < |entries|
    requires forall e :: e in entries ==> e in d.children
    ensures var lines := EntryLines(d, entries, k, prefix, ignored, rel);
            var ext := if k == |entries| - 1 then LastExtension else MiddleExtension;
            && (|lines| > 0 ==> lines[0].prefix == prefix && lines[0].name == entries[k].name)
            && forall j :: 1 <= j < |lines| ==>
                 |lines[j].prefix| >= |prefix + ext| && lines[j].prefix[..|prefix + ext|] == prefix + ext
  {
    var e := entries[k];
    assert e in d.children;
    var path := RelPath(rel, e.name);
    var lines := EntryLines(d, entries, k, prefix, ignored, rel);
    if !ignored(path) && e.Dir? {
      var inner := prefix + Extension(k, |entries|);
      var sub := TreeLines(e, inner, ignored, path);
      assert lines == [Line(prefix, Connector(k, |entries|), e.name)] + sub;
      TreeLinesShape(e, inner, ignored, path);
      forall j | 1 <= j < |lines|
        ensures |lines[j].prefix| >= |inner| && lines[j].prefix[..|inner|] == inner
      {
        assert lines[j] == sub[j - 1];
        assert LineShape(sub[j - 1], Listing(e.children), inner, ignored, path);
      }
    }
  }

  /** A prefix at or under `prefix + ext`, for a non-empty `ext`, lies strictly under `prefix`. */
  lemma NestedPrefix(p: string, prefix: string, ext: string)
    requires |ext| > 0
    requires (|p| > |prefix + ext| && p[..|prefix + ext|] == prefix + ext) || p == prefix + ext
    ensures |p| > |prefix| && p[..|prefix|] == prefix
  {
    assert p[..|prefix + ext|][..|prefix|] == p[..|prefix|];
    assert (prefix + ext)[..|prefix|] == prefix;
  }

  /**
   * The corner connector goes to the entry at the last index of the
   * dot-filtered listing; when the ignore rules skip that entry, no line of
   * the directory gets the corner.
   */
  lemma CornerOnlyForLastEntry(d: Entry, prefix: string, ignored: string -> bool, rel: string)
    requires d.Dir?
    ensures var entries := Listing(d.children);
            forall l :: l in TreeLines(d, prefix, ignored, rel) && l.prefix == prefix && l.connector == LastConnector ==>
              |entries| > 0 && l.name == entries[|entries| - 1].name && !ignored(RelPath(rel, entries[|entries| - 1].name))
  {
    var entries := Listing(d.children);
    TreeLinesShape(d, prefix, ignored, rel);
    forall l | l in TreeLines(d, prefix, ignored, rel) && l.prefix == prefix && l.connector == LastConnector
      ensures |entries| > 0 && l.name == entries[|entries| - 1].name && !ignored(RelPath(rel, entries[|entries| - 1].name))
    {
      assert LineShape(l, entries, prefix, ignored, rel);
      var k :| 0 <= k < |entries| && l.connector == Connector(k, |entries|) && l.name == entries[k].name
               && !ignored(RelPath(rel, entries[k].name));
    }
  }

  lemma SkippedLastEntryMeansNoCorner(d: Entry, prefix: string, ignored: string -> bool, rel: string)
    requires d.Dir?
    requires var entries := Listing(d.children); |entries| > 0 && ignored(RelPath(rel, entries[|entries| - 1].name))
    ensures forall l :: l in TreeLines(d, prefix, ignored, rel) && l.prefix == prefix ==> l.connector != LastConnector
  {
    CornerOnlyForLastEntry(d, prefix, ignored, rel);
  }

  // ------------------------------------------------------------------
  // Line count
  // ------------------------------------------------------------------

  /** The entries of the tree the walk visits: visible, not ignored, counted through every subdirectory. */
  function Visited(d: Entry, ignored: string -> bool, rel: string): nat
    requires d.Dir?
    decreases d, 2
  {
    var entries := Listing(d.children);
    VisitedUpTo(d, entries, |entries|, ignored, rel)
  }

  function VisitedUpTo(d: Entry, entries: seq<Entry>, n: nat, ignored: string -> bool, rel: string): nat
    requires d.Dir? && n <= |entries|
    requires forall e :: e in entries ==> e in d.children
    decreases d, 1, n
  {
    if n == 0 then 0
    else
      var e := entries[n - 1];
      assert e in d.children;
      var path := RelPath(rel, e.name);
      VisitedUpTo(d, entries, n - 1, ignored, rel)
      + (if ignored(path) then 0 else 1 + (if e.Dir? then Visited(e, ignored, path) else 0))
  }

  /** One line per visited entry, whatever the starting prefix. */
  lemma TreeLinesCount(d: Entry, prefix: string, ignored: string -> bool, rel: string)
    requires d.Dir?
    ensures |TreeLines(d, prefix, ignored, rel)| == Visited(d, ignored, rel)
    decreases d, 2
  {
    var entries := Listing(d.children);
    LinesUpToCount(d, entries, |entries|, prefix, ignored, rel);
  }

  lemma {:induction false} LinesUpToCount(d: Entry, entries: seq<Entry>, n: nat, prefix: string, ignored: string -> bool, rel: string)
    requires d.Dir? && n <= |entries|
    requires forall e :: e in entries ==> e in d.children
    ensures |LinesUpTo(d, entries, n, prefix, ignored, rel)| == VisitedUpTo(d, entries, n, ignored, rel)
    decreases d, 1, n
  {
    if n > 0 {
      LinesUpToCount(d, entries, n - 1, prefix, ignored, rel);
      var e := entries[n - 1];
      assert e in d.children;
      var path := RelPath(rel, e.name);
      if !ignored(path) && e.Dir? {
        TreeLinesCount(e, prefix + Extension(n - 1, |entries|), ignored, path);
      }
    }
  }

  function NewlineCount(s: string): nat {
    if s == [] then 0 else NewlineCount(s[..|s| - 1]) + (if s[|s| - 1] == '\n' then 1 else 0)
  }

  lemma {:induction false} NewlineCountAppend(a: string, b: string)
    ensures NewlineCount(a + b) == NewlineCount(a) + NewlineCount(b)
  {
    if b == [] {
      assert a + b == a;
    } else {
      assert (a + b)[..|a + b| - 1] == a + b[..|b| - 1];
      NewlineCountAppend(a, b[..|b| - 1]);
    }
  }

  lemma {:induction false} NoNewlineCount(s: string)
    requires '\n' !in s
    ensures NewlineCount(s) == 0
  {
    if s != [] {
      assert s[|s| - 1] in s;
      assert forall c :: c in s[..|s| - 1] ==> c in s;
      NoNewlineCount(s[..|s| - 1]);
    }
  }

  /** Rendering puts exactly one newline per line when no part of a line holds one. */
  lemma {:induction false} RenderNewlines(lines: seq<Line>)
    requires forall l :: l in lines ==> '\n' !in l.prefix + l.connector + l.name
    ensures NewlineCount(Render(lines)) == |lines|
  {
    if lines != [] {
      var l := lines[|lines| - 1];
      assert forall x :: x in lines[..|lines| - 1] ==> x in lines;
      RenderNewlines(lines[..|lines| - 1]);
      NewlineCountAppend(Render(lines[..|lines| - 1]), LineText(l));
      NewlineCountAppend(l.prefix + l.connector + l.name, "\n");
      NoNewlineCount(l.prefix + l.connector + l.name);
      assert "\n"[..0] == [];
    }
  }

  /** No entry name anywhere in the tree contains a newline. */
  ghost predicate CleanNames(d: Entry) {
    d.Dir? ==> forall e :: e in d.children ==> '\n' !in e.name && CleanNames(e)
  }

  lemma TreeLinesClean(d: Entry, prefix: string, ignored: string -> bool, rel: string)
    requires d.Dir? && CleanNames(d) && '\n' !in prefix
    ensures forall l :: l in TreeLines(d, prefix, ignored, rel) ==> '\n' !in l.prefix + l.connector + l.name
    decreases d, 2
  {
    var entries := Listing(d.children);
    LinesUpToClean(d, entries, |entries|, prefix, ignored, rel);
  }

  lemma {:induction false} LinesUpToClean(d: Entry, entries: seq<Entry>, n: nat, prefix: string, ignored: string -> bool, rel: string)
    requires d.Dir? && CleanNames(d) && '\n' !in prefix && n <= |entries|
    requires forall e :: e in entries ==> e in d.children
    ensures forall l :: l in LinesUpTo(d, entries, n, prefix, ignored, rel) ==> '\n' !in l.prefix + l.connector + l.name
    decreases d, 1, n
  {
    if n > 0 {
      LinesUpToClean(d, entries, n - 1, prefix, ignored, rel);
      var e := entries[n - 1];
      assert e in d.children;
      var path := RelPath(rel, e.name);
      if !ignored(path) {
        var ext := Extension(n - 1, |entries|);
        assert '\n' !in Connector(n - 1, |entries|) && '\n' !in ext;
        if e.Dir? {
          TreeLinesClean(e, prefix + ext, ignored, path);
        }
      }
    }
  }

  /**
   * The text `generate_tree` returns has one newline per visited entry of
   * the whole tree (entries neither hidden nor matched by the ignore rules),
   * given no entry name and no starting prefix contains a newline.
   */
  lemma GenerateTreeLineCount(d: Entry, prefix: string, ignored: string -> bool, rel: string)
    requires d.Dir? && CleanNames(d) && '\n' !in prefix
    ensures NewlineCount(Render(TreeLines(d, prefix, ignored, rel))) == Visited(d, ignored, rel)
  {
    TreeLinesClean(d, prefix, ignored, rel);
    RenderNewlines(TreeLines(d, prefix, ignored, rel));
    TreeLinesCount(d, prefix, ignored, rel);
  }
}
