/** YAML mappings as values, and the merge of utils/yaml_merge.go on them. Only what
    the merge looks at is kept: keys, key columns and nested mappings, and besides
    whether a mapping is in flow style, written in braces. Every other node (scalar,
    sequence, alias) is a Scalar. */
module YamlTree {

  datatype Node = Scalar(text: string) | Mapping(items: seq<Item>, flow: bool)

  datatype Item = Item(key: string, column: int, value: Node)

  /** The index that `existing` holds for a key: the last one, or -1. */
  function Find(items: seq<Item>, key: string): (i: int)
    ensures -1 <= i < |items|
    ensures i >= 0 ==> items[i].key == key
  {
    FindBelow(items, key, |items|)
  }

  function FindBelow(items: seq<Item>, key: string, n: nat): (i: int)
    requires n <= |items|
    ensures -1 <= i < n
    ensures i >= 0 ==> items[i].key == key
  {
    if n == 0 then -1
    else if items[n - 1].key == key then n - 1
    else FindBelow(items, key, n - 1)
  }

  function StartColumn(items: seq<Item>): int {
    if items != [] then items[0].column else 1
  }

  /** AddColumn: every key column of the subtree moves. */
  function ShiftNode(n: Node, diff: int): Node {
    match n
    case Scalar(_) => n
    case Mapping(items, flow) => Mapping(ShiftItems(items, diff), flow)
  }

  function ShiftItem(item: Item, diff: int): Item {
    Item(item.key, item.column + diff, ShiftNode(item.value, diff))
  }

  function ShiftItems(items: seq<Item>, diff: int): (r: seq<Item>)
    ensures |r| == |items|
    ensures forall k :: 0 <= k < |items| ==> r[k] == ShiftItem(items[k], diff)
  {
    if items == [] then []
    else ShiftItems(items[..|items| - 1], diff) + [ShiftItem(items[|items| - 1], diff)]
  }

  lemma ShiftedItem(item: Item, diff: int)
    ensures var r := ShiftItem(item, diff);
            && r.key == item.key && r.column == item.column + diff
            && (item.value.Scalar? ==> r.value == item.value)
            && (item.value.Mapping? ==> r.value == Mapping(ShiftItems(item.value.items, diff), item.value.flow))
  {
  }

  /** A shift by zero is no shift. */
  lemma {:induction false} ShiftByZero(items: seq<Item>)
    ensures ShiftItems(items, 0) == items
  {
    forall i | 0 <= i < |items| ensures ShiftItems(items, 0)[i] == items[i] {
      ShiftedItem(items[i], 0);
      if items[i].value.Mapping? { ShiftByZero(items[i].value.items); }
    }
  }

  /** A destination entry meeting a source entry of the same key. */
  function MergeItem(d: Item, src: Item): (r: Item)
    ensures r.key == d.key && r.column == d.column
    decreases src, 0
  {
    if d.value.Mapping? && src.value.Mapping? then
      d.(value := Mapping(Merge(d.value.items, src.value.items), d.value.flow))
    else d
  }

  /** What one source entry does to the destination built so far; `n` is the length of
      the destination when `existing` was filled. */
  function MergeEntry(acc: seq<Item>, n: nat, src: Item): (r: seq<Item>)
    requires n <= |acc|
    ensures |r| >= |acc|
    decreases src, 1
  {
    var i := Find(acc[..n], src.key);
    if i < 0 then acc + [ShiftItem(src, StartColumn(acc) - src.column)]
    else acc[i := MergeItem(acc[i], src)]
  }

  /** The destination after the first `j` source entries. */
  function MergeFirst(dest: seq<Item>, source: seq<Item>, j: nat): (acc: seq<Item>)
    requires j <= |source|
    ensures |acc| >= |dest|
    decreases source, j
  {
    if j == 0 then dest else MergeEntry(MergeFirst(dest, source, j - 1), |dest|, source[j - 1])
  }

  /** mergeMappings. */
  function Merge(dest: seq<Item>, source: seq<Item>): seq<Item>
    decreases source, |source| + 1
  {
    MergeFirst(dest, source, |source|)
  }

  lemma {:induction false} FindBelowIsLast(items: seq<Item>, key: string, n: nat, k: nat)
    requires k < n <= |items| && items[k].key == key
    ensures FindBelow(items, key, n) >= k
  {
    if items[n - 1].key != key { FindBelowIsLast(items, key, n - 1, k); }
  }

  /** Find returns the last occurrence, and -1 only when there is none. */
  lemma {:induction false} FindIsLast(items: seq<Item>, key: string, k: nat)
    requires k < |items| && items[k].key == key
    ensures Find(items, key) >= k
  {
    FindBelowIsLast(items, key, |items|, k);
  }

  predicate SameKeys(a: seq<Item>, b: seq<Item>) {
    |a| == |b| && forall i :: 0 <= i < |a| ==> a[i].key == b[i].key
  }

  lemma {:induction false} SameFindBelow(a: seq<Item>, b: seq<Item>, key: string, n: nat)
    requires n <= |a| && n <= |b| && forall i :: 0 <= i < n ==> a[i].key == b[i].key
    ensures FindBelow(a, key, n) == FindBelow(b, key, n)
  {
    if n > 0 { SameFindBelow(a, b, key, n - 1); }
  }

  lemma {:induction false} SameFind(a: seq<Item>, b: seq<Item>, key: string)
    requires SameKeys(a, b)
    ensures Find(a, key) == Find(b, key)
  {
    SameFindBelow(a, b, key, |a|);
  }

  lemma {:induction false} FindSnoc(items: seq<Item>, x: Item, key: string)
    ensures Find(items + [x], key) == if x.key == key then |items| else Find(items, key)
  {
    SameFindBelow(items + [x], items, key, |items|);
  }

  predicate UniqueTop(items: seq<Item>) {
    forall i, j :: 0 <= i < j < |items| ==> items[i].key != items[j].key
  }

  /** No mapping of the tree repeats a key. */
  predicate Unique(items: seq<Item>) {
    && UniqueTop(items)
    && (forall i :: 0 <= i < |items| && items[i].value.Mapping? ==> Unique(items[i].value.items))
  }

  /** Merging keeps the destination's keys and columns in place, whatever the source. */
  lemma {:induction false} PrefixKept(dest: seq<Item>, source: seq<Item>, j: nat)
    requires j <= |source|
    ensures var acc := MergeFirst(dest, source, j);
            && SameKeys(acc[..|dest|], dest)
            && (forall i :: 0 <= i < |dest| ==> acc[i].column == dest[i].column)
            && StartColumn(acc) == StartColumn(dest)
  {
    if j > 0 {
      PrefixKept(dest, source, j - 1);
    }
  }

  /** What stands under `key` once the source entries `seen` are merged: the
      destination's own entry with mappings merged, else the source's entry moved to
      the destination's column, else nothing. */
  ghost predicate EntryUnder(dest: seq<Item>, seen: seq<Item>, acc: seq<Item>, key: string) {
    var i, k, at := Find(dest, key), Find(seen, key), Find(acc, key);
    if i >= 0 then at == i && acc[i] == (if k >= 0 then MergeItem(dest[i], seen[k]) else dest[i])
    else if k >= 0 then at >= |dest| && acc[at] == ShiftItem(seen[k], StartColumn(dest) - seen[k].column)
    else at < 0
  }

  /** A source entry whose key the destination lacks is appended. */
  lemma {:induction false} AppendStep(dest: seq<Item>, seen: seq<Item>, acc: seq<Item>, src: Item, key: string)
    requires |dest| <= |acc| && StartColumn(acc) == StartColumn(dest)
    requires EntryUnder(dest, seen, acc, key)
    requires Find(dest, src.key) < 0
    ensures EntryUnder(dest, seen + [src], acc + [ShiftItem(src, StartColumn(acc) - src.column)], key)
  {
    FindSnoc(seen, src, key);
    FindSnoc(acc, ShiftItem(src, StartColumn(acc) - src.column), key);
  }

  /** A source entry whose key the destination has merges into that entry or is dropped. */
  lemma {:induction false} MeetStep(dest: seq<Item>, seen: seq<Item>, acc: seq<Item>, src: Item, key: string)
    requires |dest| <= |acc|
    requires EntryUnder(dest, seen, acc, key)
    requires EntryUnder(dest, seen, acc, src.key)
    requires Find(dest, src.key) >= 0 && Find(seen, src.key) < 0
    ensures var d := Find(dest, src.key);
            EntryUnder(dest, seen + [src], acc[d := MergeItem(acc[d], src)], key)
  {
    var d := Find(dest, src.key);
    var m := MergeItem(acc[d], src);
    var acc' := acc[d := m];
    FindSnoc(seen, src, key);
    SameFind(acc', acc, key);
    var at := Find(acc, key);
    if key == src.key {
      assert acc'[d] == m && (seen + [src])[|seen|] == src;
    } else {
      assert at >= 0 ==> acc'[at] == acc[at];
      assert forall k :: 0 <= k < |seen| ==> (seen + [src])[k] == seen[k];
    }
  }

  lemma {:induction false} EntryStep(dest: seq<Item>, seen: seq<Item>, acc: seq<Item>, src: Item, key: string)
    requires |dest| <= |acc| && StartColumn(acc) == StartColumn(dest)
    requires Find(acc[..|dest|], src.key) == Find(dest, src.key)
    requires EntryUnder(dest, seen, acc, key)
    requires EntryUnder(dest, seen, acc, src.key)
    requires Find(seen, src.key) < 0
    ensures EntryUnder(dest, seen + [src], MergeEntry(acc, |dest|, src), key)
  {
    if Find(dest, src.key) < 0 {
      AppendStep(dest, seen, acc, src, key);
    } else {
      MeetStep(dest, seen, acc, src, key);
    }
  }

  lemma {:induction false} NotSeen(source: seq<Item>, j: nat)
    requires j < |source| && UniqueTop(source)
    ensures Find(source[..j], source[j].key) < 0
  {
  }

  lemma {:induction false} PrefixFinds(dest: seq<Item>, source: seq<Item>, j: nat, key: string)
    requires j <= |source|
    ensures var acc := MergeFirst(dest, source, j);
            StartColumn(acc) == StartColumn(dest) && Find(acc[..|dest|], key) == Find(dest, key)
  {
    PrefixKept(dest, source, j);
    SameFind(MergeFirst(dest, source, j)[..|dest|], dest, key);
  }

  /** The entry under every key after `j` source entries. */
  lemma {:induction false} EntryAfter(dest: seq<Item>, source: seq<Item>, j: nat, key: string)
    requires j <= |source| && UniqueTop(source)
    ensures EntryUnder(dest, source[..j], MergeFirst(dest, source, j), key)
  {
    if j > 0 {
      var seen, src, acc := source[..j - 1], source[j - 1], MergeFirst(dest, source, j - 1);
      assert source[..j] == seen + [src];
      NotSeen(source, j - 1);
      PrefixFinds(dest, source, j - 1, src.key);
      EntryAfter(dest, source, j - 1, key);
      EntryAfter(dest, source, j - 1, src.key);
      EntryStep(dest, seen, acc, src, key);
    }
  }

  lemma {:induction false} EntryInMerge(dest: seq<Item>, source: seq<Item>, key: string)
    requires UniqueTop(source)
    ensures EntryUnder(dest, source, Merge(dest, source), key)
  {
    EntryAfter(dest, source, |source|, key);
    assert source[..|source|] == source;
  }
}
