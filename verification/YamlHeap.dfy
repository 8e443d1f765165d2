/** The in-place merge of utils/yaml_merge.go on mutable nodes. A shape is a ghost map of
    a tree: which object stands where, and which objects (`fp`) the subtree owns. */
module YamlHeap {
  import T = YamlTree

  datatype Value = Text(text: string) | Nested(node: MappingNode)

  datatype Shape = Leaf(text: string) | Branch(m: MapShape)

  datatype MapShape = MapShape(node: MappingNode, entries: seq<EntryShape>, fp: set<object>)

  datatype EntryShape = EntryShape(entry: EntryNode, column: int, value: Shape, fp: set<object>)

  // ---------- The tree a shape denotes ----------

  ghost function View(s: Shape): T.Node {
    match s
    case Leaf(t) => T.Scalar(t)
    case Branch(m) => T.Mapping(Views(m.entries), m.node.flow)
  }

  ghost function ViewItem(e: EntryShape): T.Item {
    T.Item(e.entry.key, e.column, View(e.value))
  }

  ghost function Views(es: seq<EntryShape>): (r: seq<T.Item>)
    ensures |r| == |es|
    ensures forall i :: 0 <= i < |es| ==> r[i] == ViewItem(es[i])
  {
    if es == [] then [] else Views(es[..|es| - 1]) + [ViewItem(es[|es| - 1])]
  }

  ghost function ShiftShape(s: Shape, diff: int): Shape {
    match s
    case Leaf(_) => s
    case Branch(m) => Branch(m.(entries := ShiftShapes(m.entries, diff)))
  }

  ghost function ShiftEntry(e: EntryShape, diff: int): EntryShape {
    EntryShape(e.entry, e.column + diff, ShiftShape(e.value, diff), e.fp)
  }

  ghost function ShiftShapes(es: seq<EntryShape>, diff: int): (r: seq<EntryShape>)
    ensures |r| == |es|
    ensures forall i :: 0 <= i < |es| ==> r[i] == ShiftEntry(es[i], diff)
  {
    if es == [] then [] else ShiftShapes(es[..|es| - 1], diff) + [ShiftEntry(es[|es| - 1], diff)]
  }

  // ---------- The heap agrees with a shape, and nothing is shared ----------

  ghost predicate ValidEntry(e: EntryShape)
    reads e.fp
    decreases e
  {
    && e.entry in e.fp
    && e.entry.column == e.column
    && match e.value
       case Leaf(t) => e.entry.value == Text(t)
       case Branch(m) => e.entry.value == Nested(m.node) && m.fp <= e.fp && e.entry !in m.fp && ValidMap(m)
  }

  ghost predicate Apart(es: seq<EntryShape>) {
    forall i, j :: 0 <= i < j < |es| ==> es[i].fp !! es[j].fp
  }

  ghost predicate ValidMap(m: MapShape)
    reads m.fp
    decreases m
  {
    && m.node in m.fp
    && |m.node.values| == |m.entries|
    && Apart(m.entries)
    && forall i :: 0 <= i < |m.entries| ==>
         && m.node.values[i] == m.entries[i].entry
         && m.entries[i].fp <= m.fp && m.node !in m.entries[i].fp
         && ValidEntry(m.entries[i])
  }

  class EntryNode {
    const key: string
    var column: int
    const value: Value

    constructor (key: string, column: int, value: Value)
      ensures this.key == key && this.column == column && this.value == value
    {
      this.key, this.column, this.value := key, column, value;
    }

    /** AddColumn of a key/value node: this key and everything below it. */
    method AddColumn(diff: int, ghost e: EntryShape)
      requires e.entry == this && ValidEntry(e)
      modifies e.fp
      ensures ValidEntry(ShiftEntry(e, diff))
      decreases e
    {
      column := column + diff;
      if value.Nested? {
        value.node.AddColumnBelow(diff, e.value.m);
      }
    }
  }

  class MappingNode {
    const flow: bool
    var values: seq<EntryNode>

    constructor (values: seq<EntryNode>, flow: bool)
      ensures this.values == values && this.flow == flow
    {
      this.values, this.flow := values, flow;
    }

    /** AddColumn of a mapping: every entry in turn. */
    method AddColumnBelow(diff: int, ghost m: MapShape)
      requires m.node == this && ValidMap(m)
      modifies m.fp
      ensures ValidMap(m.(entries := ShiftShapes(m.entries, diff)))
      decreases m
    {
      ghost var es, shifted := m.entries, ShiftShapes(m.entries, diff);
      for k := 0 to |values|
        invariant values == old(values)
        invariant forall i :: 0 <= i < k ==> ValidEntry(shifted[i])
        invariant forall i :: k <= i < |es| ==> ValidEntry(es[i])
      {
        values[k].AddColumn(diff, es[k]);
      }
    }

    function StartColumn(): int
      reads this, values
    {
      if |values| > 0 then values[0].column else 1
    }
  }

  // ---------- mergeMappings ----------

  /** `existing` holds the last index of every key of `items`, and no other key. */
  ghost predicate Indexes(existing: map<string, nat>, items: seq<T.Item>) {
    && (forall key :: key in existing ==> existing[key] == T.Find(items, key))
    && (forall key :: key !in existing ==> T.Find(items, key) < 0)
  }

  /** Moving a shape moves its view. */
  lemma {:induction false} ViewsShift(es: seq<EntryShape>, diff: int)
    ensures Views(ShiftShapes(es, diff)) == T.ShiftItems(Views(es), diff)
  {
    forall i | 0 <= i < |es|
      ensures Views(ShiftShapes(es, diff))[i] == T.ShiftItems(Views(es), diff)[i]
    {
      ViewShift(es[i], diff);
    }
  }

  lemma {:induction false} ViewShift(e: EntryShape, diff: int)
    ensures ViewItem(ShiftEntry(e, diff)) == T.ShiftItem(ViewItem(e), diff)
  {
    if e.value.Branch? { ViewsShift(e.value.m.entries, diff); }
  }

  lemma {:induction false} MovedView(e: EntryShape, diff: int)
    ensures ViewItem(if diff != 0 then ShiftEntry(e, diff) else e) == T.ShiftItem(ViewItem(e), diff)
  {
    if diff != 0 {
      ViewShift(e, diff);
    } else if e.value.Branch? {
      T.ShiftByZero(Views(e.value.m.entries));
    }
  }

  lemma {:induction false} ViewsSnoc(es: seq<EntryShape>, x: EntryShape)
    ensures Views(es + [x]) == Views(es) + [ViewItem(x)]
  {
    assert (es + [x])[..|es|] == es;
  }

  lemma {:induction false} ViewsUpdate(es: seq<EntryShape>, i: nat, x: EntryShape)
    requires i < |es|
    ensures Views(es[i := x]) == Views(es)[i := ViewItem(x)]
  {
  }

  lemma {:induction false} BelowView(at: EntryShape, below: MapShape, e: EntryShape, fp: set<object>)
    requires at.value.Branch? && e.value.Branch? && below.node == at.value.m.node
    requires Views(below.entries) == T.Merge(Views(at.value.m.entries), Views(e.value.m.entries))
    ensures ViewItem(at.(value := Branch(below), fp := fp)) == T.MergeItem(ViewItem(at), ViewItem(e))
  {
  }

  /** The destination's keys stay where `existing` says, however much is merged. */
  lemma {:induction false} IndexesStay(existing: map<string, nat>, d: seq<T.Item>, s: seq<T.Item>, j: nat)
    requires j <= |s| && Indexes(existing, d)
    ensures Indexes(existing, T.MergeFirst(d, s, j)[..|d|])
  {
    T.PrefixKept(d, s, j);
    forall key
      ensures T.Find(T.MergeFirst(d, s, j)[..|d|], key) == T.Find(d, key)
    {
      T.SameFind(T.MergeFirst(d, s, j)[..|d|], d, key);
    }
  }

  /** The loop that fills `existing`. */
  method IndexKeys(dest: MappingNode, ghost d: MapShape) returns (existing: map<string, nat>)
    requires d.node == dest && ValidMap(d)
    ensures Indexes(existing, Views(d.entries))
  {
    existing := map[];
    ghost var items := Views(d.entries);
    for i := 0 to |dest.values|
      invariant Indexes(existing, items[..i])
    {
      assert items[..i + 1] == items[..i] + [items[i]];
      forall key { T.FindSnoc(items[..i], items[i], key); }
      existing := existing[dest.values[i].key := i];
    }
    assert items[..|dest.values|] == items;
  }

  /** One source entry: move it in, merge below it, or drop it. */
  method MergeOne(dest: MappingNode, existing: map<string, nat>, srcMV: EntryNode,
                  ghost d: MapShape, ghost n: nat, ghost e: EntryShape)
    returns (ghost r: MapShape)
    requires d.node == dest && ValidMap(d) && e.entry == srcMV && ValidEntry(e) && d.fp !! e.fp
    requires n <= |d.entries| && Indexes(existing, Views(d.entries)[..n])
    modifies d.fp, e.fp
    ensures r.node == dest && ValidMap(r) && r.fp <= d.fp + e.fp
    ensures Views(r.entries) == T.MergeEntry(Views(d.entries), n, ViewItem(e))
    decreases e, 1
  {
    var key := srcMV.key;
    if key !in existing {
      r := MoveIn(dest, srcMV, d, e);
    } else {
      var idx := existing[key];
      if dest.values[idx].value.Nested? && srcMV.value.Nested? {
        r := MergeBelow(dest, idx, srcMV, d, e);
      } else {
        r := d;
        assert Views(d.entries)[idx := ViewItem(d.entries[idx])] == Views(d.entries);
      }
    }
  }

  /** A valid mapping again, after an owned entry joined the end of its list. */
  lemma {:induction false} Joined(d: MapShape, x: EntryShape)
    requires d.node in d.fp && d.fp !! x.fp && Apart(d.entries)
    requires d.node.values == EntryNodes(d.entries) + [x.entry]
    requires forall i :: 0 <= i < |d.entries| ==> Owned(d, d.entries[i])
    requires ValidEntry(x)
    ensures ValidMap(MapShape(d.node, d.entries + [x], d.fp + x.fp))
  {
  }

  ghost predicate Owned(d: MapShape, e: EntryShape)
    reads e.fp
  {
    e.fp <= d.fp && d.node !in e.fp && ValidEntry(e)
  }

  ghost function EntryNodes(es: seq<EntryShape>): seq<EntryNode> {
    seq(|es|, i requires 0 <= i < |es| => es[i].entry)
  }

  lemma {:induction false} Opened(d: MapShape)
    requires ValidMap(d)
    ensures d.node.values == EntryNodes(d.entries)
    ensures forall i :: 0 <= i < |d.entries| ==> Owned(d, d.entries[i])
  {
  }

  /** A valid mapping again, after one entry changed below and took in new objects. */
  lemma {:induction false} Replaced(d: MapShape, idx: nat, x: EntryShape, fp: set<object>)
    requires d.node in d.fp && d.fp !! fp && Apart(d.entries) && idx < |d.entries|
    requires d.node.values == EntryNodes(d.entries)
    requires forall i :: 0 <= i < |d.entries| ==> d.entries[i].fp <= d.fp && d.node !in d.entries[i].fp
    requires forall i :: 0 <= i < |d.entries| && i != idx ==> ValidEntry(d.entries[i])
    requires ValidEntry(x) && x.entry == d.entries[idx].entry && x.fp == d.entries[idx].fp + fp
    ensures ValidMap(MapShape(d.node, d.entries[idx := x], d.fp + fp))
  {
  }

  method MoveIn(dest: MappingNode, srcMV: EntryNode, ghost d: MapShape, ghost e: EntryShape) returns (ghost r: MapShape)
    requires d.node == dest && ValidMap(d) && e.entry == srcMV && ValidEntry(e) && d.fp !! e.fp
    modifies d.fp, e.fp
    ensures r.node == dest && ValidMap(r) && r.fp <= d.fp + e.fp
    ensures var items := Views(d.entries);
            Views(r.entries) == items + [T.ShiftItem(ViewItem(e), T.StartColumn(items) - e.column)]
  {
    var destCol := dest.StartColumn();
    var srcCol := srcMV.column;
    ghost var moved := MoveColumns(srcMV, destCol - srcCol, e);
    Opened(d);
    dest.values := dest.values + [srcMV];
    Joined(d, moved);
    r := MapShape(dest, d.entries + [moved], d.fp + e.fp);
    ViewsSnoc(d.entries, moved);
  }

  /** AddColumn, skipped when the columns already agree. */
  method MoveColumns(srcMV: EntryNode, colDiff: int, ghost e: EntryShape) returns (ghost moved: EntryShape)
    requires e.entry == srcMV && ValidEntry(e)
    modifies e.fp
    ensures moved.entry == srcMV && moved.fp == e.fp && ValidEntry(moved)
    ensures ViewItem(moved) == T.ShiftItem(ViewItem(e), colDiff)
  {
    moved := e;
    if colDiff != 0 {
      srcMV.AddColumn(colDiff, e);
      moved := ShiftEntry(e, colDiff);
    }
    MovedView(e, colDiff);
  }

  method MergeBelow(dest: MappingNode, idx: nat, srcMV: EntryNode, ghost d: MapShape, ghost e: EntryShape)
    returns (ghost r: MapShape)
    requires d.node == dest && ValidMap(d) && e.entry == srcMV && ValidEntry(e) && d.fp !! e.fp
    requires idx < |d.entries| && d.entries[idx].value.Branch? && e.value.Branch?
    modifies d.fp, e.fp
    ensures r.node == dest && ValidMap(r) && r.fp <= d.fp + e.fp
    ensures var items := Views(d.entries);
            Views(r.entries) == items[idx := T.MergeItem(items[idx], ViewItem(e))]
    decreases e, 0
  {
    ghost var at := d.entries[idx];
    Opened(d);
    ghost var below := MergeMappings(dest.values[idx].value.node, srcMV.value.node, at.value.m, e.value.m);
    ghost var at' := at.(value := Branch(below), fp := at.fp + e.fp);
    Replaced(d, idx, at', e.fp);
    r := MapShape(dest, d.entries[idx := at'], d.fp + e.fp);
    BelowView(at, below, e, at.fp + e.fp);
    ViewsUpdate(d.entries, idx, at');
  }

  /** The source entries from `j` on are intact and not yet owned by the destination. */
  ghost predicate Remaining(r: MapShape, s: MapShape, j: nat)
    reads s.fp
  {
    forall k :: j <= k < |s.entries| ==>
      s.entries[k].fp <= s.fp && ValidEntry(s.entries[k]) && r.fp !! s.entries[k].fp && s.node !in s.entries[k].fp
  }

  /** After `j` source entries: `r` is the destination, holding the merge so far and
      owning no object outside `own`; the remaining source entries are intact. */
  ghost predicate Merged(r: MapShape, d: seq<T.Item>, s: MapShape, j: nat, own: set<object>)
    requires j <= |s.entries|
    reads r.fp, s.fp, s.node
  {
    && ValidMap(r) && r.fp <= own && s.node !in r.fp
    && s.node.values == EntryNodes(s.entries) && Remaining(r, s, j)
    && Views(r.entries) == T.MergeFirst(d, Views(s.entries), j)
  }

  /** One turn of the loop over the source; `d` is the destination at the start. */
  method MergeTurn(dest: MappingNode, existing: map<string, nat>, source: MappingNode, j: nat,
                   ghost d: seq<T.Item>, ghost r: MapShape, ghost s: MapShape, ghost own: set<object>)
    returns (ghost r': MapShape)
    requires r.node == dest && s.node == source && j < |s.entries| && Apart(s.entries) && s.fp <= own
    requires Merged(r, d, s, j, own) && Indexes(existing, d)
    modifies r.fp, s.entries[j].fp
    ensures r'.node == dest && Merged(r', d, s, j + 1, own)
    decreases s, 0
  {
    IndexesStay(existing, d, Views(s.entries), j);
    r' := MergeOne(dest, existing, source.values[j], r, |d|, s.entries[j]);
  }

  /** The loop over the source. */
  method MergeEntries(dest: MappingNode, existing: map<string, nat>, source: MappingNode,
                      ghost d: seq<T.Item>, ghost r: MapShape, ghost s: MapShape, ghost own: set<object>)
    returns (ghost r': MapShape)
    requires r.node == dest && s.node == source && Apart(s.entries) && s.fp <= own
    requires Merged(r, d, s, 0, own) && Indexes(existing, d)
    modifies own
    ensures r'.node == dest && Merged(r', d, s, |s.entries|, own)
    decreases s, 1
  {
    r' := r;
    for j := 0 to |source.values|
      invariant |source.values| == |s.entries|
      invariant r'.node == dest && Merged(r', d, s, j, own)
    {
      r' := MergeTurn(dest, existing, source, j, d, r', s, own);
    }
  }

  /** mergeMappings: `dest` ends up as the merge of the two trees; what moved in is owned
      by it from then on. */
  method MergeMappings(dest: MappingNode, source: MappingNode, ghost d: MapShape, ghost s: MapShape)
    returns (ghost r: MapShape)
    requires d.node == dest && ValidMap(d) && s.node == source && ValidMap(s) && d.fp !! s.fp
    modifies d.fp, s.fp
    ensures r.node == dest && ValidMap(r) && r.fp <= d.fp + s.fp
    ensures Views(r.entries) == T.Merge(Views(d.entries), Views(s.entries))
    decreases s, 2
  {
    var existing := IndexKeys(dest, d);
    Opened(s);
    r := MergeEntries(dest, existing, source, Views(d.entries), d, s, d.fp + s.fp);
  }
}
