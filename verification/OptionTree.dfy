/** The tree of select options built from the distinct rows of a column chain. Models
    src/loaders/select-options.ts. */
module OptionTree {

  import opened Wrappers

  /** One level of a row: the code, and the label read with it if any. */
  datatype Cell = Cell(code: Option<string>, text: Option<string>)

  type Row = seq<Cell>

  /** From a root value to a node. */
  type Path = seq<string>

  datatype Node = Node(value: string, text: string, children: seq<Node>)

  datatype Result<T> = Ok(value: T) | TooLarge

  // ----- The paths of a row -----

  /** The codes before the first NULL. */
  function Leading(row: Row): Path {
    if row == [] || row[0].code.None? then [] else [row[0].code.value] + Leading(row[1..])
  }

  /** Every node the row passes through, with its label. */
  datatype Entry = Entry(path: Path, text: string)

  function LabelOf(c: Cell): string
    requires c.code.Some?
  {
    if c.text.Some? then c.text.value else c.code.value
  }

  /** The first entry of a path is kept. */
  function Added(entries: seq<Entry>, e: Entry): seq<Entry> {
    if Has(entries, e.path) then entries else entries + [e]
  }

  predicate Has(entries: seq<Entry>, p: Path) {
    exists i | 0 <= i < |entries| :: entries[i].path == p
  }

  /** The entries once the n first levels of the row are read. */
  function AddedLevels(entries: seq<Entry>, row: Row, n: nat): seq<Entry>
    requires n <= |Leading(row)|
  {
    if n == 0 then entries
    else Added(AddedLevels(entries, row, n - 1), EntryAt(row, n))
  }

  function EntryAt(row: Row, n: nat): Entry
    requires 0 < n <= |Leading(row)|
  {
    LeadingPrefix(row, n - 1);
    Entry(Leading(row)[..n], LabelOf(row[n - 1]))
  }

  lemma {:induction false} LeadingPrefix(row: Row, i: nat)
    requires i < |Leading(row)|
    ensures |Leading(row)| <= |row| && row[i].code == Some(Leading(row)[i])
  {
    if i > 0 {
      LeadingPrefix(row[1..], i - 1);
    } else if |Leading(row)| > 1 {
      LeadingPrefix(row[1..], 0);
    }
  }

  /** The nodes of the rows, in the order in which they are first met. */
  function Entries(rows: seq<Row>): seq<Entry> {
    if rows == [] then []
    else AddedLevels(Entries(rows[..|rows| - 1]), rows[|rows| - 1], |Leading(rows[|rows| - 1])|)
  }

  ghost predicate DistinctPaths(entries: seq<Entry>) {
    forall i, j | 0 <= i < j < |entries| :: entries[i].path != entries[j].path
  }

  lemma {:induction false} AddedLevelsMeaning(entries: seq<Entry>, row: Row, n: nat, p: Path)
    requires n <= |Leading(row)|
    ensures Has(AddedLevels(entries, row, n), p) <==> Has(entries, p) || (0 < |p| <= n && p == Leading(row)[..|p|])
    ensures entries <= AddedLevels(entries, row, n)
    ensures DistinctPaths(entries) ==> DistinctPaths(AddedLevels(entries, row, n))
  {
    if n > 0 {
      AddedLevelsMeaning(entries, row, n - 1, p);
      var before, e := AddedLevels(entries, row, n - 1), EntryAt(row, n);
      var after := Added(before, e);
      if !Has(before, e.path) {
        assert forall i | 0 <= i < |before| :: after[i] == before[i];
        assert after[|before|] == e;
      }
      assert Has(after, p) <==> Has(before, p) || p == e.path;
    }
  }

  /** The nodes of a tree are exactly the non-empty prefixes of the leading values of its
      rows, each once. */
  lemma {:induction false} NodesArePrefixes(rows: seq<Row>, p: Path)
    ensures Has(Entries(rows), p) <==> p != [] && exists i | 0 <= i < |rows| :: p <= Leading(rows[i])
    ensures DistinctPaths(Entries(rows))
  {
    if rows != [] {
      var before, last := rows[..|rows| - 1], rows[|rows| - 1];
      NodesArePrefixes(before, p);
      AddedLevelsMeaning(Entries(before), last, |Leading(last)|, p);
      assert forall i | 0 <= i < |before| :: rows[i] == before[i];
      assert p <= Leading(last) <==> |p| <= |Leading(last)| && p == Leading(last)[..|p|];
      if p != [] && p <= Leading(last) {
        assert p <= Leading(rows[|rows| - 1]);
      }
    }
  }

  /** More rows only add nodes after the others: every node stands, and takes its label,
      where its path is first met. */
  lemma {:induction false} EntriesGrow(rows: seq<Row>, n: nat)
    requires n <= |rows|
    ensures Entries(rows[..n]) <= Entries(rows)
  {
    if n == |rows| {
      assert rows[..n] == rows;
    } else {
      var before, last := rows[..|rows| - 1], rows[|rows| - 1];
      EntriesGrow(before, n);
      assert before[..n] == rows[..n];
      AddedLevelsMeaning(Entries(before), last, |Leading(last)|, []);
    }
  }

  lemma {:induction false} NewEntry(entries: seq<Entry>, row: Row, n: nat, k: nat) returns (m: nat)
    requires n <= |Leading(row)| && |entries| <= k < |AddedLevels(entries, row, n)|
    ensures 0 < m <= n && AddedLevels(entries, row, n)[k] == EntryAt(row, m)
    ensures !Has(entries, Leading(row)[..m])
  {
    var before := AddedLevels(entries, row, n - 1);
    AddedLevelsMeaning(entries, row, n - 1, Leading(row)[..n]);
    if k < |before| {
      m := NewEntry(entries, row, n - 1, k);
    } else {
      m := n;
    }
  }

  /** A node that a row adds is labelled by that row, no earlier one passing through it. */
  lemma LabelOfLastRow(before: seq<Row>, last: Row, k: nat)
    requires |Entries(before)| <= k < |AddedLevels(Entries(before), last, |Leading(last)|)|
    ensures var e := AddedLevels(Entries(before), last, |Leading(last)|)[k];
            && 0 < |e.path| <= |last| && e.path <= Leading(last)
            && (forall j | 0 <= j < |before| :: !(e.path <= Leading(before[j])))
            && e.text == if last[|e.path| - 1].text.Some? then last[|e.path| - 1].text.value else e.path[|e.path| - 1]
  {
    var m := NewEntry(Entries(before), last, |Leading(last)|, k);
    NotMetBefore(before, Leading(last)[..m]);
    LabelAt(last, m);
  }

  lemma NotMetBefore(rows: seq<Row>, p: Path)
    requires p != [] && !Has(Entries(rows), p)
    ensures forall j | 0 <= j < |rows| :: !(p <= Leading(rows[j]))
  {
    NodesArePrefixes(rows, p);
  }

  lemma LabelAt(row: Row, m: nat)
    requires 0 < m <= |Leading(row)|
    ensures m <= |row| && EntryAt(row, m).path == Leading(row)[..m]
    ensures EntryAt(row, m).text == if row[m - 1].text.Some? then row[m - 1].text.value else Leading(row)[m - 1]
  {
    LeadingPrefix(row, m - 1);
  }

  /** A node is labelled by the first row that passes through it: the text read with the
      value, or the value itself. */
  lemma {:induction false} LabelOfFirstRow(rows: seq<Row>, k: nat) returns (i: nat)
    requires k < |Entries(rows)|
    ensures i < |rows|
    ensures var p := Entries(rows)[k].path;
            && 0 < |p| <= |rows[i]| && p <= Leading(rows[i])
            && (forall j | 0 <= j < i :: !(p <= Leading(rows[j])))
            && Entries(rows)[k].text == if rows[i][|p| - 1].text.Some? then rows[i][|p| - 1].text.value else p[|p| - 1]
  {
    var before, last := rows[..|rows| - 1], rows[|rows| - 1];
    AddedLevelsMeaning(Entries(before), last, |Leading(last)|, []);
    if k < |Entries(before)| {
      i := LabelOfFirstRow(before, k);
      assert forall j | 0 <= j < |before| :: rows[j] == before[j];
    } else {
      i := |rows| - 1;
      LabelOfLastRow(before, last, k);
      assert forall j | 0 <= j < |before| :: rows[j] == before[j];
    }
  }

  // ----- Building -----

  /** Reads the levels of one row down to its first NULL, creating the missing nodes. */
  method AddRow(entries: seq<Entry>, row: Row, maxNodes: nat) returns (r: Result<seq<Entry>>)
    requires |entries| <= maxNodes
    ensures var all := AddedLevels(entries, row, |Leading(row)|);
            r == if |all| <= maxNodes then Ok(all) else TooLarge
  {
    var nodes, path, index := entries, [], 0;
    while index < |row|
      invariant index <= |row| && index <= |Leading(row)| && path == Leading(row)[..index]
      invariant nodes == AddedLevels(entries, row, index) && |nodes| <= maxNodes
    {
      LeadingStops(row, index);
      var cell := row[index];
      if cell.code.None? {
        return Ok(nodes);
      }
      path := path + [cell.code.value];
      assert path == Leading(row)[..index + 1];
      assert EntryAt(row, index + 1) == Entry(path, LabelOf(cell));
      if !Has(nodes, path) {
        if |nodes| + 1 > maxNodes {
          LevelsGrow(entries, row, index + 1, |Leading(row)|);
          return TooLarge;
        }
        nodes := nodes + [Entry(path, LabelOf(cell))];
      }
      index := index + 1;
    }
    LeadingStops(row, index);
    r := Ok(nodes);
  }

  /** The leading values end at the first NULL or at the last level. */
  lemma {:induction false} LeadingStops(row: Row, i: nat)
    requires i <= |Leading(row)|
    ensures |Leading(row)| <= |row|
    ensures i < |row| && row[i].code.Some? ==> i < |Leading(row)| && Leading(row)[i] == row[i].code.value
    ensures i == |row| || row[i].code.None? ==> |Leading(row)| == i
  {
    if row != [] && row[0].code.Some? {
      if i > 0 {
        LeadingStops(row[1..], i - 1);
      } else {
        LeadingStops(row[1..], 0);
      }
    }
  }

  lemma {:induction false} LevelsGrow(entries: seq<Entry>, row: Row, n: nat, m: nat)
    requires n <= m <= |Leading(row)|
    ensures |AddedLevels(entries, row, n)| <= |AddedLevels(entries, row, m)|
  {
    if n < m {
      LevelsGrow(entries, row, n, m - 1);
    }
  }

  /** The nodes of all the rows, unless there are more than allowed. */
  method BuildEntries(rows: seq<Row>, maxNodes: nat) returns (r: Result<seq<Entry>>)
    ensures r == if |Entries(rows)| <= maxNodes then Ok(Entries(rows)) else TooLarge
  {
    var nodes: seq<Entry> := [];
    for i := 0 to |rows|
      invariant nodes == Entries(rows[..i]) && |nodes| <= maxNodes
    {
      assert rows[..i + 1][..i] == rows[..i];
      EntriesGrow(rows, i + 1);
      var next := AddRow(nodes, rows[i], maxNodes);
      if next.TooLarge? {
        return TooLarge;
      }
      nodes := next.value;
    }
    assert rows[..|rows|] == rows;
    r := Ok(nodes);
  }

  // ----- Rendering -----

  ghost predicate AtMostDeep(entries: seq<Entry>, h: nat) {
    forall i | 0 <= i < |entries| :: |entries[i].path| <= h
  }

  predicate IsChild(e: Entry, parent: Path) {
    |e.path| == |parent| + 1 && parent <= e.path
  }

  /** The nodes under a parent, each with what is under it, in the order of the entries. */
  function Render(all: seq<Entry>, todo: seq<Entry>, parent: Path, ghost h: nat): seq<Node>
    requires AtMostDeep(all, h) && AtMostDeep(todo, h) && |parent| <= h
    decreases h - |parent|, |todo|
  {
    if todo == [] then []
    else if IsChild(todo[0], parent)
    then [Node(todo[0].path[|parent|], todo[0].text, Render(all, all, todo[0].path, h))] + Render(all, todo[1..], parent, h)
    else Render(all, todo[1..], parent, h)
  }

  /** The paths from a root to every node of a forest. */
  function NodePaths(nodes: seq<Node>, parent: Path): set<Path>
    decreases nodes
  {
    if nodes == [] then {}
    else
      var p := parent + [nodes[0].value];
      {p} + NodePaths(nodes[0].children, p) + NodePaths(nodes[1..], parent)
  }

  ghost predicate Closed(entries: seq<Entry>) {
    forall p: Path, k | Has(entries, p) && 0 < k <= |p| :: Has(entries, p[..k])
  }

  /** A node of the forest is an entry below the parent, through one of its children. */
  ghost predicate Under(all: seq<Entry>, todo: seq<Entry>, parent: Path, p: Path) {
    Has(all, p) && |p| > |parent| && parent <= p && Has(todo, p[..|parent| + 1])
  }

  lemma {:induction false} RenderedPaths(all: seq<Entry>, todo: seq<Entry>, parent: Path, h: nat, p: Path)
    requires AtMostDeep(all, h) && AtMostDeep(todo, h) && |parent| <= h
    requires Closed(all) && forall e | e in todo :: e in all
    ensures p in NodePaths(Render(all, todo, parent, h), parent) <==> Under(all, todo, parent, p)
    decreases h - |parent|, |todo|
  {
    if todo != [] {
      var e, rest := todo[0], todo[1..];
      RenderedPaths(all, rest, parent, h, p);
      if |p| > |parent| && parent <= p {
        HasFirst(todo, p[..|parent| + 1]);
      }
      if IsChild(e, parent) {
        RenderedPaths(all, all, e.path, h, p);
        ChildPaths(all, e, parent, p);
        var nodes := Render(all, todo, parent, h);
        assert parent + [nodes[0].value] == e.path;
        assert nodes[1..] == Render(all, rest, parent, h);
      }
    }
  }

  lemma HasFirst(todo: seq<Entry>, p: Path)
    requires todo != []
    ensures Has(todo, p) <==> todo[0].path == p || Has(todo[1..], p)
  {
    assert forall i | 0 <= i < |todo[1..]| :: todo[1..][i] == todo[i + 1];
    if Has(todo, p) && todo[0].path != p {
      var i :| 0 <= i < |todo| && todo[i].path == p;
      assert todo[1..][i - 1] == todo[i];
    }
  }

  /** The node of an entry and what is under it: the entries its path leads to. */
  lemma ChildPaths(all: seq<Entry>, e: Entry, parent: Path, p: Path)
    requires e in all && IsChild(e, parent) && Closed(all)
    ensures (p == e.path || Under(all, all, e.path, p)) <==> Has(all, p) && e.path <= p
  {
    assert exists i | 0 <= i < |all| :: all[i].path == e.path;
    if Has(all, p) && |p| > |e.path| && e.path <= p {
      assert Has(all, p[..|e.path| + 1]);
    }
    if e.path <= p && |p| == |e.path| {
      assert p == e.path;
    }
  }

  /** The forest of all the rows: its paths are the non-empty prefixes of the leading
      values of the rows. */
  function Tree(rows: seq<Row>, ghost h: nat): seq<Node>
    requires AtMostDeep(Entries(rows), h)
  {
    Render(Entries(rows), Entries(rows), [], h)
  }

  lemma EntriesClosed(rows: seq<Row>)
    ensures Closed(Entries(rows))
  {
    forall p: Path, k | Has(Entries(rows), p) && 0 < k <= |p| ensures Has(Entries(rows), p[..k]) {
      NodesArePrefixes(rows, p);
      NodesArePrefixes(rows, p[..k]);
      var i :| 0 <= i < |rows| && p <= Leading(rows[i]);
      assert p[..k] <= Leading(rows[i]);
    }
  }

  lemma TreePaths(rows: seq<Row>, h: nat, p: Path)
    requires AtMostDeep(Entries(rows), h)
    ensures p in NodePaths(Tree(rows, h), []) <==> p != [] && exists i | 0 <= i < |rows| :: p <= Leading(rows[i])
  {
    EntriesClosed(rows);
    RenderedPaths(Entries(rows), Entries(rows), [], h, p);
    NodesArePrefixes(rows, p);
    if p != [] && Has(Entries(rows), p) {
      assert Has(Entries(rows), p[..1]);
    }
  }

  function ChildrenOf(todo: seq<Entry>, parent: Path): (r: seq<Entry>)
    ensures forall e | e in r :: e in todo && IsChild(e, parent)
  {
    if todo == [] then []
    else (if IsChild(todo[0], parent) then [todo[0]] else []) + ChildrenOf(todo[1..], parent)
  }

  /** Siblings keep the order of the entries: that in which the rows first meet them. */
  lemma {:induction false} SiblingsInOrder(all: seq<Entry>, todo: seq<Entry>, parent: Path, h: nat, i: nat)
    requires AtMostDeep(all, h) && AtMostDeep(todo, h) && |parent| <= h
    ensures |Render(all, todo, parent, h)| == |ChildrenOf(todo, parent)|
    ensures i < |ChildrenOf(todo, parent)| ==>
              var e := ChildrenOf(todo, parent)[i];
              |e.path| <= h && IsChild(e, parent)
              && Render(all, todo, parent, h)[i] == Node(e.path[|parent|], e.text, Render(all, all, e.path, h))
  {
    if todo != [] {
      var first := IsChild(todo[0], parent);
      SiblingsInOrder(all, todo[1..], parent, h, if first && i > 0 then i - 1 else i);
      assert Render(all, todo, parent, h)
          == (if first then [Node(todo[0].path[|parent|], todo[0].text, Render(all, all, todo[0].path, h))] else [])
             + Render(all, todo[1..], parent, h);
    }
  }

  lemma {:induction false} LevelsDepth(entries: seq<Entry>, row: Row, n: nat, h: nat)
    requires n <= |Leading(row)| <= h && AtMostDeep(entries, h)
    ensures AtMostDeep(AddedLevels(entries, row, n), h)
  {
    if n > 0 {
      LevelsDepth(entries, row, n - 1, h);
    }
  }

  lemma {:induction false} EntriesDepth(rows: seq<Row>, h: nat)
    requires forall i | 0 <= i < |rows| :: |rows[i]| == h
    ensures AtMostDeep(Entries(rows), h)
  {
    if rows != [] {
      var before, last := rows[..|rows| - 1], rows[|rows| - 1];
      EntriesDepth(before, h);
      LeadingStops(last, 0);
      LevelsDepth(Entries(before), last, |Leading(last)|, h);
    }
  }

  method BuildOptionTree(rows: seq<Row>, maxNodes: nat, ghost h: nat) returns (r: Result<seq<Node>>)
    requires forall i | 0 <= i < |rows| :: |rows[i]| == h
    ensures AtMostDeep(Entries(rows), h)
    ensures r == if |Entries(rows)| <= maxNodes then Ok(Tree(rows, h)) else TooLarge
  {
    EntriesDepth(rows, h);
    var entries := BuildEntries(rows, maxNodes);
    if entries.TooLarge? {
      return TooLarge;
    }
    r := Ok(Render(entries.value, entries.value, [], h));
  }

  // ----- The cap on the rows -----

  predicate DistinctRows(rows: seq<Row>) {
    forall i, j | 0 <= i < j < |rows| :: rows[i] != rows[j]
  }

  /** A NULL is only followed by NULLs. */
  predicate TrailingNulls(row: Row) {
    |Leading(row)| <= |row| && forall i | |Leading(row)| <= i < |row| :: row[i].code.None?
  }

  predicate SameCodes(a: Row, b: Row) {
    |a| == |b| && forall i | 0 <= i < |a| :: a[i].code == b[i].code
  }

  /** A code path determines its labels. */
  predicate TextsFollowCodes(rows: seq<Row>) {
    forall i, j | 0 <= i < j < |rows| && SameCodes(rows[i], rows[j]) :: rows[i] == rows[j]
  }

  lemma SameLeadingSameCodes(a: Row, b: Row)
    requires |a| == |b| && TrailingNulls(a) && TrailingNulls(b) && Leading(a) == Leading(b)
    ensures SameCodes(a, b)
  {
    forall i | 0 <= i < |a| ensures a[i].code == b[i].code {
      if i < |Leading(a)| {
        LeadingPrefix(a, i);
        LeadingPrefix(b, i);
      }
    }
  }

  /** Each row ends on a node of its own. */
  ghost predicate DistinctEnds(rows: seq<Row>) {
    (forall i | 0 <= i < |rows| :: Leading(rows[i]) != [])
    && forall i, j | 0 <= i < j < |rows| :: Leading(rows[i]) != Leading(rows[j])
  }

  lemma DistinctRowsDistinctEnds(rows: seq<Row>, h: nat)
    requires DistinctRows(rows) && TextsFollowCodes(rows)
    requires forall i | 0 <= i < |rows| :: |rows[i]| == h && TrailingNulls(rows[i]) && Leading(rows[i]) != []
    ensures DistinctEnds(rows)
  {
    forall i, j | 0 <= i < j < |rows| ensures Leading(rows[i]) != Leading(rows[j]) {
      if Leading(rows[i]) == Leading(rows[j]) {
        SameLeadingSameCodes(rows[i], rows[j]);
      }
    }
  }

  function Ends(rows: seq<Row>): set<Path> {
    set i | 0 <= i < |rows| :: Leading(rows[i])
  }

  function PathsOf(entries: seq<Entry>): set<Path> {
    set i | 0 <= i < |entries| :: entries[i].path
  }

  lemma {:induction false} EndsCount(rows: seq<Row>)
    requires DistinctEnds(rows)
    ensures |Ends(rows)| == |rows|
  {
    if rows != [] {
      var before, last := rows[..|rows| - 1], rows[|rows| - 1];
      EndsCount(before);
      assert forall i | 0 <= i < |before| :: rows[i] == before[i];
      assert Ends(rows) == Ends(before) + {Leading(last)};
    }
  }

  lemma {:induction false} PathsCount(entries: seq<Entry>)
    requires DistinctPaths(entries)
    ensures |PathsOf(entries)| == |entries|
  {
    if entries != [] {
      var before := entries[..|entries| - 1];
      assert forall i | 0 <= i < |before| :: entries[i] == before[i];
      PathsCount(before);
      assert PathsOf(entries) == PathsOf(before) + {entries[|entries| - 1].path};
    }
  }

  /** The non-empty prefixes of the leading values of the rows. */
  function Prefixes(rows: seq<Row>): set<Path> {
    set i, n | 0 <= i < |rows| && 0 < n <= |Leading(rows[i])| :: Leading(rows[i])[..n]
  }

  /** A tree has as many nodes as its rows have different non-empty leading prefixes. */
  lemma NodeCount(rows: seq<Row>)
    ensures PathsOf(Entries(rows)) == Prefixes(rows)
    ensures |Entries(rows)| == |Prefixes(rows)|
  {
    forall p ensures p in PathsOf(Entries(rows)) <==> p in Prefixes(rows) {
      NodesArePrefixes(rows, p);
      assert p in PathsOf(Entries(rows)) <==> Has(Entries(rows), p);
      if p in Prefixes(rows) {
        var i, n :| 0 <= i < |rows| && 0 < n <= |Leading(rows[i])| && p == Leading(rows[i])[..n];
        assert p <= Leading(rows[i]);
      }
      if p != [] && exists i | 0 <= i < |rows| :: p <= Leading(rows[i]) {
        var i :| 0 <= i < |rows| && p <= Leading(rows[i]);
        assert p == Leading(rows[i])[..|p|];
      }
    }
    NodesArePrefixes(rows, []);
    PathsCount(Entries(rows));
  }

  lemma {:induction false} Smaller<T>(a: set<T>, b: set<T>)
    requires a <= b
    ensures |a| <= |b|
  {
    if a != {} {
      var x :| x in a;
      Smaller(a - {x}, b - {x});
    }
  }

  /** Rows that each end on a node of their own are no more than the nodes. */
  lemma RowsWithinNodes(rows: seq<Row>)
    requires DistinctEnds(rows)
    ensures |rows| <= |Entries(rows)|
  {
    EndsCount(rows);
    NodeCount(rows);
    EndsArePrefixes(rows);
    assert [] !in Ends(rows);
    assert Ends(rows) - {[]} == Ends(rows);
    Smaller(Ends(rows), Prefixes(rows));
  }

  /** A row that has a first value ends on a node. */
  lemma EndsArePrefixes(rows: seq<Row>)
    ensures Ends(rows) - {[]} <= Prefixes(rows)
  {
    forall p | p in Ends(rows) - {[]} ensures p in Prefixes(rows) {
      var i :| 0 <= i < |rows| && Leading(rows[i]) == p;
      assert p == Leading(rows[i])[..|p|];
    }
  }

  /** The query stops after maxNodes + 1 rows, and as many rows are refused unread. When
      each row ends on a node of its own, the cap refuses no tree that is small enough. */
  method LoadOptionTree(all: seq<Row>, maxNodes: nat, ghost h: nat) returns (r: Result<seq<Node>>)
    requires forall i | 0 <= i < |all| :: |all[i]| == h
    ensures AtMostDeep(Entries(all), h)
    ensures r == if |all| <= maxNodes && |Entries(all)| <= maxNodes then Ok(Tree(all, h)) else TooLarge
    ensures DistinctEnds(all) ==> r == if |Entries(all)| <= maxNodes then Ok(Tree(all, h)) else TooLarge
  {
    EntriesDepth(all, h);
    var rows := if |all| <= maxNodes + 1 then all else all[..maxNodes + 1];
    if DistinctEnds(all) {
      RowsWithinNodes(all);
    }
    if |rows| > maxNodes {
      return TooLarge;
    }
    r := BuildOptionTree(rows, maxNodes, h);
  }

  predicate Fits(all: seq<Row>, maxNodes: nat) {
    |Entries(all)| <= maxNodes
  }

  predicate Capped(all: seq<Row>, maxNodes: nat) {
    |all| > maxNodes
  }

  /** The rows that end on the node of another row, or on none. */
  function Surplus(rows: seq<Row>): int {
    |rows| - |Ends(rows) - {[]}|
  }

  /** The nodes that rows pass through and none ends on. */
  function PassedOnly(rows: seq<Row>): set<Path> {
    Prefixes(rows) - Ends(rows)
  }

  /** The cap refuses no tree that fits, whatever the bound, exactly when the rows without
      an end of their own are no more than the nodes on which no row ends. */
  lemma CapIsExactIff(all: seq<Row>)
    ensures (forall maxNodes | Fits(all, maxNodes) :: !Capped(all, maxNodes)) <==> Surplus(all) <= |PassedOnly(all)|
  {
    NodeCount(all);
    EndsArePrefixes(all);
    var ends := Ends(all) - {[]};
    assert [] !in Prefixes(all);
    assert Prefixes(all) == ends + PassedOnly(all) && ends !! PassedOnly(all);
    assert |Prefixes(all)| == |ends| + |PassedOnly(all)|;
    assert Fits(all, |Entries(all)|);
  }

  /** With a NULL between two values, two rows can end on one node: a tree of one node is
      then refused under a bound of one. */
  lemma InnerNullIsRefused(a: string, x: string, y: string)
    requires x != y
    ensures var rows := [InnerNull(a, x), InnerNull(a, y)];
            DistinctRows(rows) && Entries(rows) == [Entry([a], a)] && Fits(rows, 1) && Capped(rows, 1)
  {
    var r1, r2 := InnerNull(a, x), InnerNull(a, y);
    assert r1[2] != r2[2];
    var none: seq<Entry> := [];
    OneNode(r1, a, none);
    OneNode(r2, a, [Entry([a], a)]);
    assert [r1, r2][..1] == [r1] && [r1][..0] == [];
    assert !Has(none, [a]);
    assert Entries([r1]) == [Entry([a], a)];
    assert Entries([r1, r2]) == AddedLevels(Entries([r1]), r2, 1);
  }

  function InnerNull(a: string, x: string): Row {
    [Cell(Some(a), None), Cell(None, None), Cell(Some(x), None)]
  }

  lemma OneNode(row: Row, a: string, entries: seq<Entry>)
    requires |row| > 1 && row[0] == Cell(Some(a), None) && row[1].code.None?
    ensures |Leading(row)| == 1
    ensures AddedLevels(entries, row, 1) == Added(entries, Entry([a], a))
    ensures entries == [Entry([a], a)] ==> AddedLevels(entries, row, 1) == entries
  {
    assert Leading(row[1..]) == [];
    assert Leading(row) == [a];
    assert AddedLevels(entries, row, 0) == entries;
    assert EntryAt(row, 1) == Entry([a], a);
    if entries == [Entry([a], a)] {
      assert entries[0].path == [a];
    }
  }
}
