/** What a merge means: key order, values under every path, idempotence,
    associativity and indentation. */
module YamlMeaning {
  import opened Outcomes
  import opened YamlTree

  // ---------- Keys ----------

  function Keys(items: seq<Item>): (r: seq<string>)
    ensures |r| == |items|
  {
    seq(|items|, i requires 0 <= i < |items| => items[i].key)
  }

  /** Of the first `j` source keys those the destination lacks, in source order. */
  function MissingKeys(dest: seq<Item>, source: seq<Item>, j: nat): seq<string>
    requires j <= |source|
  {
    if j == 0 then []
    else MissingKeys(dest, source, j - 1) + (if Find(dest, source[j - 1].key) < 0 then [source[j - 1].key] else [])
  }

  lemma {:induction false} SameKeysList(a: seq<Item>, b: seq<Item>)
    requires SameKeys(a, b)
    ensures Keys(a) == Keys(b)
  {
  }

  lemma {:induction false} KeysSnoc(items: seq<Item>, x: Item)
    ensures Keys(items + [x]) == Keys(items) + [x.key]
  {
  }

  lemma {:induction false} KeysEntry(acc: seq<Item>, n: nat, src: Item)
    requires n <= |acc|
    ensures Keys(MergeEntry(acc, n, src)) == Keys(acc) + (if Find(acc[..n], src.key) < 0 then [src.key] else [])
  {
    if Find(acc[..n], src.key) < 0 {
      KeysSnoc(acc, ShiftItem(src, StartColumn(acc) - src.column));
    } else {
      SameKeysList(MergeEntry(acc, n, src), acc);
    }
  }

  lemma {:induction false} KeysAfter(dest: seq<Item>, source: seq<Item>, j: nat)
    requires j <= |source|
    ensures Keys(MergeFirst(dest, source, j)) == Keys(dest) + MissingKeys(dest, source, j)
  {
    if j > 0 {
      var acc, src := MergeFirst(dest, source, j - 1), source[j - 1];
      KeysAfter(dest, source, j - 1);
      PrefixKept(dest, source, j - 1);
      SameFind(acc[..|dest|], dest, src.key);
      KeysEntry(acc, |dest|, src);
      var added := if Find(dest, src.key) < 0 then [src.key] else [];
      assert (Keys(dest) + MissingKeys(dest, source, j - 1)) + added == Keys(dest) + (MissingKeys(dest, source, j - 1) + added);
    }
  }

  /** Destination keys in their order, then the missing source keys in source order. */
  lemma {:induction false} KeyOrder(dest: seq<Item>, source: seq<Item>)
    ensures Keys(Merge(dest, source)) == Keys(dest) + MissingKeys(dest, source, |source|)
  {
    KeysAfter(dest, source, |source|);
  }

  lemma {:induction false} FindUnique(items: seq<Item>, k: nat)
    requires UniqueTop(items) && k < |items|
    ensures Find(items, items[k].key) == k
  {
    FindIsLast(items, items[k].key, k);
  }

  // ---------- Where an item of the merge comes from ----------

  /** Item `at` of a merge is a destination item met by the source entry of its key, or
      the moved source item of its key. */
  lemma {:induction false} Origin(dest: seq<Item>, source: seq<Item>, at: nat)
    requires UniqueTop(dest) && UniqueTop(source)
    requires at < |Merge(dest, source)|
    ensures UniqueTop(Merge(dest, source))
    ensures var m, key := Merge(dest, source)[at], Merge(dest, source)[at].key;
            var i, k := Find(dest, key), Find(source, key);
            if i >= 0 then i == at && m == (if k >= 0 then MergeItem(dest[i], source[k]) else dest[i])
            else k >= 0 && m == ShiftItem(source[k], StartColumn(dest) - source[k].column)
  {
    var m := Merge(dest, source);
    MergeUniqueTop(dest, source);
    FindUnique(m, at);
    EntryInMerge(dest, source, m[at].key);
  }

  /** Appending an entry under a new key keeps keys distinct; merging in place too. */
  lemma {:induction false} EntryUniqueTop(acc: seq<Item>, n: nat, src: Item)
    requires UniqueTop(acc) && n <= |acc|
    requires Find(acc[..n], src.key) < 0 ==> Find(acc, src.key) < 0
    ensures UniqueTop(MergeEntry(acc, n, src))
  {
    if Find(acc[..n], src.key) < 0 {
      forall i | 0 <= i < |acc| ensures acc[i].key != src.key {
        if acc[i].key == src.key { FindIsLast(acc, src.key, i); }
      }
    } else {
      assert SameKeys(MergeEntry(acc, n, src), acc);
    }
  }

  lemma {:induction false} MergeUniqueTopAfter(dest: seq<Item>, source: seq<Item>, j: nat)
    requires UniqueTop(dest) && UniqueTop(source) && j <= |source|
    ensures UniqueTop(MergeFirst(dest, source, j))
  {
    if j > 0 {
      var acc, src, seen := MergeFirst(dest, source, j - 1), source[j - 1], source[..j - 1];
      MergeUniqueTopAfter(dest, source, j - 1);
      PrefixKept(dest, source, j - 1);
      SameFind(acc[..|dest|], dest, src.key);
      EntryAfter(dest, source, j - 1, src.key);
      assert forall i :: 0 <= i < |seen| ==> seen[i].key != src.key;
      EntryUniqueTop(acc, |dest|, src);
    }
  }

  lemma {:induction false} MergeUniqueTop(dest: seq<Item>, source: seq<Item>)
    requires UniqueTop(dest) && UniqueTop(source)
    ensures UniqueTop(Merge(dest, source))
  {
    MergeUniqueTopAfter(dest, source, |source|);
  }

  lemma {:induction false} ShiftUnique(items: seq<Item>, diff: int)
    requires Unique(items)
    ensures Unique(ShiftItems(items, diff))
  {
    forall i | 0 <= i < |items| && ShiftItems(items, diff)[i].value.Mapping?
      ensures Unique(ShiftItems(items, diff)[i].value.items)
    {
      ShiftedItem(items[i], diff);
      ShiftUnique(items[i].value.items, diff);
    }
  }

  /** Merging two trees without repeated keys gives a tree without repeated keys. */
  lemma {:induction false} UniquePreserved(dest: seq<Item>, source: seq<Item>)
    requires Unique(dest) && Unique(source)
    ensures Unique(Merge(dest, source))
    decreases source, 1
  {
    var m := Merge(dest, source);
    MergeUniqueTop(dest, source);
    forall at | 0 <= at < |m| && m[at].value.Mapping?
      ensures Unique(m[at].value.items)
    {
      UniqueItem(dest, source, at);
    }
  }

  lemma {:induction false} UniqueItem(dest: seq<Item>, source: seq<Item>, at: nat)
    requires Unique(dest) && Unique(source)
    requires at < |Merge(dest, source)| && Merge(dest, source)[at].value.Mapping?
    ensures Unique(Merge(dest, source)[at].value.items)
    decreases source, 0
  {
    var key := Merge(dest, source)[at].key;
    Origin(dest, source, at);
    var i, k := Find(dest, key), Find(source, key);
    if i < 0 {
      ShiftedItem(source[k], StartColumn(dest) - source[k].column);
      ShiftUnique(source[k].value.items, StartColumn(dest) - source[k].column);
    } else if k >= 0 && dest[i].value.Mapping? && source[k].value.Mapping? {
      UniquePreserved(dest[i].value.items, source[k].value.items);
    }
  }

  // ---------- Values under paths ----------

  datatype Kind = IsScalar(text: string) | IsMapping

  function KindOf(n: Node): Kind { if n.Scalar? then IsScalar(n.text) else IsMapping }

  /** What stands at a path, if anything. The empty path is the root mapping. */
  function At(items: seq<Item>, path: seq<string>): Option<Kind> {
    if path == [] then Some(IsMapping)
    else
      var i := Find(items, path[0]);
      if i < 0 then None
      else if |path| == 1 then Some(KindOf(items[i].value))
      else if items[i].value.Mapping? then At(items[i].value.items, path[1..])
      else None
  }

  /** Some proper prefix of the path is a scalar. */
  predicate Blocked(items: seq<Item>, path: seq<string>) {
    if |path| <= 1 then false
    else
      var i := Find(items, path[0]);
      i >= 0 && (items[i].value.Scalar? || Blocked(items[i].value.items, path[1..]))
  }

  function Override(a: Option<Kind>, blocked: bool, b: Option<Kind>): Option<Kind> {
    if a.Some? then a else if blocked then None else b
  }

  lemma {:induction false} ShiftFind(items: seq<Item>, diff: int, key: string)
    ensures Find(ShiftItems(items, diff), key) == Find(items, key)
  {
    SameFind(ShiftItems(items, diff), items, key);
  }

  lemma {:induction false} ShiftMeaning(items: seq<Item>, diff: int, path: seq<string>)
    ensures At(ShiftItems(items, diff), path) == At(items, path)
    decreases path
  {
    if path != [] {
      ShiftFind(items, diff, path[0]);
      var i := Find(items, path[0]);
      if i >= 0 { ShiftedItem(items[i], diff); }
      if i >= 0 && |path| > 1 && items[i].value.Mapping? {
        ShiftMeaning(items[i].value.items, diff, path[1..]);
      }
    }
  }

  /** The merge is the destination wherever the destination says something, nothing
      below a destination scalar, and the source everywhere else. */
  lemma {:induction false} MergeMeaning(dest: seq<Item>, source: seq<Item>, path: seq<string>)
    requires Unique(source)
    ensures At(Merge(dest, source), path) == Override(At(dest, path), Blocked(dest, path), At(source, path))
    decreases path
  {
    if path != [] {
      var m := Merge(dest, source);
      EntryInMerge(dest, source, path[0]);
      var i, k := Find(dest, path[0]), Find(source, path[0]);
      if k >= 0 { ShiftedItem(source[k], StartColumn(dest) - source[k].column); }
      if |path| > 1 {
        if i >= 0 {
          if k >= 0 && dest[i].value.Mapping? && source[k].value.Mapping? {
            MergeMeaning(dest[i].value.items, source[k].value.items, path[1..]);
          } else if dest[i].value.Mapping? {
            Below(dest[i].value.items, path[1..]);
          }
        } else if k >= 0 && source[k].value.Mapping? {
          ShiftMeaning(source[k].value.items, StartColumn(dest) - source[k].column, path[1..]);
        }
      }
    }
  }

  /** With nothing on the other side an override is the destination itself. */
  lemma Below(items: seq<Item>, path: seq<string>)
    ensures Override(At(items, path), Blocked(items, path), None) == At(items, path)
  {
  }

  /** A non-mapping value of the destination survives every merge. */
  lemma {:induction false} ScalarsSurvive(dest: seq<Item>, source: seq<Item>, path: seq<string>)
    requires Unique(source) && At(dest, path).Some?
    ensures At(Merge(dest, source), path) == At(dest, path)
  {
    MergeMeaning(dest, source, path);
  }

  // ---------- Merging twice ----------

  /** Every source key is in the destination, and again below common mappings. */
  predicate Covers(dest: seq<Item>, source: seq<Item>)
    decreases source
  {
    forall k :: 0 <= k < |source| ==> CoversItem(dest, source[k])
  }

  predicate CoversItem(dest: seq<Item>, src: Item)
    decreases src
  {
    var i := Find(dest, src.key);
    i >= 0 && (dest[i].value.Mapping? && src.value.Mapping? ==> Covers(dest[i].value.items, src.value.items))
  }

  /** Merging a source that adds nothing changes nothing. */
  lemma {:induction false} CoveredIsNoOp(dest: seq<Item>, source: seq<Item>, j: nat)
    requires Covers(dest, source) && j <= |source|
    ensures MergeFirst(dest, source, j) == dest
    decreases source, j
  {
    if j > 0 {
      CoveredIsNoOp(dest, source, j - 1);
      CoveredEntry(dest, source[j - 1]);
    }
  }

  lemma {:induction false} CoveredEntry(dest: seq<Item>, src: Item)
    requires CoversItem(dest, src)
    ensures MergeEntry(dest, |dest|, src) == dest
    decreases src
  {
    assert dest[..|dest|] == dest;
    var i := Find(dest, src.key);
    if dest[i].value.Mapping? && src.value.Mapping? {
      CoveredIsNoOp(dest[i].value.items, src.value.items, |src.value.items|);
    }
    assert MergeItem(dest[i], src) == dest[i];
  }

  lemma {:induction false} ShiftCovers(items: seq<Item>, diff: int)
    requires Unique(items)
    ensures Covers(ShiftItems(items, diff), items)
  {
    forall k | 0 <= k < |items|
      ensures CoversItem(ShiftItems(items, diff), items[k])
    {
      ShiftFind(items, diff, items[k].key);
      FindUnique(items, k);
      ShiftedItem(items[k], diff);
      if items[k].value.Mapping? { ShiftCovers(items[k].value.items, diff); }
    }
  }

  lemma {:induction false} MergeCovers(dest: seq<Item>, source: seq<Item>)
    requires Unique(source)
    ensures Covers(Merge(dest, source), source)
    decreases source, 1
  {
    forall k | 0 <= k < |source|
      ensures CoversItem(Merge(dest, source), source[k])
    {
      MergeCoversItem(dest, source, k);
    }
  }

  lemma {:induction false} MergeCoversItem(dest: seq<Item>, source: seq<Item>, k: nat)
    requires Unique(source) && k < |source|
    ensures CoversItem(Merge(dest, source), source[k])
    decreases source, 0
  {
    var src := source[k];
    EntryInMerge(dest, source, src.key);
    FindUnique(source, k);
    var i := Find(dest, src.key);
    if i >= 0 && dest[i].value.Mapping? && src.value.Mapping? {
      MergeCovers(dest[i].value.items, src.value.items);
    } else if i < 0 && src.value.Mapping? {
      ShiftedItem(src, StartColumn(dest) - src.column);
      ShiftCovers(src.value.items, StartColumn(dest) - src.column);
    }
  }

  /** Merging the same source twice is merging it once, down to columns and order. */
  lemma {:induction false} MergeTwice(dest: seq<Item>, source: seq<Item>)
    requires Unique(source)
    ensures Merge(Merge(dest, source), source) == Merge(dest, source)
  {
    MergeCovers(dest, source);
    CoveredIsNoOp(Merge(dest, source), source, |source|);
  }

  // ---------- Three trees ----------

  ghost predicate ScalarAt(items: seq<Item>, path: seq<string>, n: nat) {
    0 < n < |path| && At(items, path[..n]).Some? && At(items, path[..n]).value.IsScalar?
  }

  /** `b` has a scalar at `path[..n]` where `a` has a mapping, while `c` reaches below it
      to a path at which `a` says nothing. */
  ghost predicate Conflict(a: seq<Item>, b: seq<Item>, c: seq<Item>, path: seq<string>, n: nat) {
    && ScalarAt(b, path, n)
    && At(a, path[..n]) == Some(IsMapping)
    && At(c, path).Some?
    && At(a, path).None? && !Blocked(a, path)
  }

  ghost predicate SameMeaning(x: seq<Item>, y: seq<Item>) {
    forall path :: At(x, path) == At(y, path)
  }

  /** A path is blocked just when a scalar stands at one of its proper prefixes. */
  lemma {:induction false} BlockedAt(items: seq<Item>, path: seq<string>) returns (n: nat)
    requires Blocked(items, path)
    ensures ScalarAt(items, path, n)
    decreases path
  {
    var i := Find(items, path[0]);
    if items[i].value.Scalar? {
      n := 1;
    } else {
      var m := BlockedAt(items[i].value.items, path[1..]);
      n := m + 1;
      assert path[..n][1..] == path[1..][..m];
    }
  }

  lemma {:induction false} BlockedFrom(items: seq<Item>, path: seq<string>, n: nat)
    requires ScalarAt(items, path, n)
    ensures Blocked(items, path)
    decreases path
  {
    if n > 1 {
      var i := Find(items, path[0]);
      assert path[..n][1..] == path[1..][..n - 1];
      BlockedFrom(items[i].value.items, path[1..], n - 1);
    }
  }

  /** No path can be both blocked and present. */
  lemma {:induction false} BlockedIsAbsent(items: seq<Item>, path: seq<string>)
    requires Blocked(items, path)
    ensures At(items, path).None?
    decreases path
  {
    var i := Find(items, path[0]);
    if items[i].value.Mapping? { BlockedIsAbsent(items[i].value.items, path[1..]); }
  }

  /** A path runs into at most one scalar. */
  lemma {:induction false} OneScalar(items: seq<Item>, path: seq<string>, n: nat, m: nat)
    requires ScalarAt(items, path, n) && ScalarAt(items, path, m)
    ensures n == m
  {
    var lo, hi := if n < m then n else m, if n < m then m else n;
    if lo < hi {
      assert path[..hi][..lo] == path[..lo];
      BlockedFrom(items, path[..hi], lo);
      BlockedIsAbsent(items, path[..hi]);
    }
  }

  /** Blocking in a merge, at a path that `a` neither has nor blocks. */
  lemma {:induction false} BlockedInMerge(a: seq<Item>, b: seq<Item>, path: seq<string>)
    requires Unique(b) && !Blocked(a, path)
    ensures Blocked(Merge(a, b), path) <==> exists n: nat :: ScalarAt(b, path, n) && At(a, path[..n]).None?
  {
    var m := Merge(a, b);
    if Blocked(m, path) {
      var n := BlockedAt(m, path);
      MergeMeaning(a, b, path[..n]);
      if ScalarAt(a, path, n) { BlockedFrom(a, path, n); }
      assert ScalarAt(b, path, n) && At(a, path[..n]).None?;
    }
    if n: nat :| ScalarAt(b, path, n) && At(a, path[..n]).None? {
      MergeMeaning(a, b, path[..n]);
      if Blocked(a, path[..n]) {
        var k := BlockedAt(a, path[..n]);
        assert path[..n][..k] == path[..k];
        BlockedFrom(a, path, k);
      }
      BlockedFrom(m, path, n);
    }
  }

  /** The two groupings agree at a path unless it is in conflict there. */
  lemma {:induction false} AssociatesAt(a: seq<Item>, b: seq<Item>, c: seq<Item>, path: seq<string>)
    requires Unique(b) && Unique(c)
    ensures At(Merge(Merge(a, b), c), path) == At(Merge(a, Merge(b, c)), path)
       <==> !exists n: nat :: Conflict(a, b, c, path, n)
  {
    UniquePreserved(b, c);
    MergeMeaning(Merge(a, b), c, path);
    MergeMeaning(a, b, path);
    MergeMeaning(a, Merge(b, c), path);
    MergeMeaning(b, c, path);
    if Blocked(a, path) {
      var n := BlockedAt(a, path);
      ScalarsSurvive(a, b, path[..n]);
      BlockedFrom(Merge(a, b), path, n);
    } else if At(a, path).None? {
      BlockedInMerge(a, b, path);
      if Blocked(b, path) {
        BlockedIsAbsent(b, path);
        var n := BlockedAt(b, path);
        assert ScalarAt(b, path, n);
        if ScalarAt(a, path, n) { BlockedFrom(a, path, n); }
        forall m: nat | ScalarAt(b, path, m) ensures m == n { OneScalar(b, path, m, n); }
        if At(a, path[..n]).Some? && At(c, path).Some? {
          assert Conflict(a, b, c, path, n);
        }
      } else {
        forall m: nat | ScalarAt(b, path, m) ensures false { BlockedFrom(b, path, m); }
      }
    }
  }

  /** Grouping does not matter exactly when no path is in conflict: a mapping of `a`
      over a scalar of `b` with a value of `c` below. */
  lemma {:induction false} Associativity(a: seq<Item>, b: seq<Item>, c: seq<Item>)
    requires Unique(b) && Unique(c)
    ensures SameMeaning(Merge(Merge(a, b), c), Merge(a, Merge(b, c)))
       <==> !exists path, n: nat :: Conflict(a, b, c, path, n)
  {
    forall path
      ensures At(Merge(Merge(a, b), c), path) == At(Merge(a, Merge(b, c)), path)
         <==> !exists n: nat :: Conflict(a, b, c, path, n)
    {
      AssociatesAt(a, b, c, path);
    }
    if path, n: nat :| Conflict(a, b, c, path, n) {
      assert At(Merge(Merge(a, b), c), path) != At(Merge(a, Merge(b, c)), path);
    }
  }

  /** A conflict: with `k: {x: 1}`, `k: s` and `k: {y: 2}` only the first grouping drops
      what stands under k.y. */
  lemma {:induction false} GroupingMatters()
    ensures var a := [Item("k", 1, Mapping([Item("x", 3, Scalar("1"))], false))];
            var b := [Item("k", 1, Scalar("s"))];
            var c := [Item("k", 1, Mapping([Item("y", 3, Scalar("2"))], false))];
            && Unique(a) && Unique(b) && Unique(c) && Conflict(a, b, c, ["k", "y"], 1)
            && !SameMeaning(Merge(Merge(a, b), c), Merge(a, Merge(b, c)))
  {
    var x, y := [Item("x", 3, Scalar("1"))], [Item("y", 3, Scalar("2"))];
    var a := [Item("k", 1, Mapping(x, false))];
    var b := [Item("k", 1, Scalar("s"))];
    var c := [Item("k", 1, Mapping(y, false))];
    var path := ["k", "y"];
    assert Unique(x) && Unique(y);
    FindUnique(a, 0);
    FindUnique(b, 0);
    FindUnique(c, 0);
    FindUnique(y, 0);
    assert path[1..] == ["y"] && path[..1] == ["k"];
    assert At(y, ["y"]) == Some(IsScalar("2")) && At(x, ["y"]).None? && !Blocked(x, ["y"]);
    assert Conflict(a, b, c, path, 1);
    Associativity(a, b, c);
  }

  // ---------- Indentation ----------

  /** Every mapping is column-aligned and strictly deeper than its key. */
  predicate Aligned(items: seq<Item>)
    decreases items, 0
  {
    forall i :: 0 <= i < |items| ==>
      && items[i].column == StartColumn(items)
      && (items[i].value.Mapping? ==> Nested(items[i].column, items[i].value.items))
  }

  predicate Nested(column: int, children: seq<Item>)
    decreases children, 1
  {
    Aligned(children) && (children != [] ==> StartColumn(children) > column)
  }

  /** Columns of a parsed document start at 1. */
  predicate Positive(items: seq<Item>) {
    forall i :: 0 <= i < |items| ==>
      items[i].column >= 1 && (items[i].value.Mapping? ==> Positive(items[i].value.items))
  }

  /** No empty mapping of the destination meets a non-empty mapping of the source. */
  predicate NoEmptyMeet(dest: seq<Item>, source: seq<Item>)
    decreases source
  {
    forall k :: 0 <= k < |source| ==> NoEmptyMeetItem(dest, source[k])
  }

  predicate NoEmptyMeetItem(dest: seq<Item>, src: Item)
    decreases src
  {
    var i := Find(dest, src.key);
    i >= 0 && dest[i].value.Mapping? && src.value.Mapping? ==>
      && (dest[i].value.items == [] ==> src.value.items == [])
      && NoEmptyMeet(dest[i].value.items, src.value.items)
  }

  lemma {:induction false} ShiftAligned(items: seq<Item>, diff: int)
    requires Aligned(items)
    ensures Aligned(ShiftItems(items, diff))
    ensures items != [] ==> StartColumn(ShiftItems(items, diff)) == StartColumn(items) + diff
  {
    var r := ShiftItems(items, diff);
    forall i | 0 <= i < |r|
      ensures r[i].column == StartColumn(r)
      ensures r[i].value.Mapping? ==> Nested(r[i].column, r[i].value.items)
    {
      ShiftedItem(items[i], diff);
      ShiftedItem(items[0], diff);
      if items[i].value.Mapping? { ShiftAligned(items[i].value.items, diff); }
    }
    if items != [] { ShiftedItem(items[0], diff); }
  }

  lemma {:induction false} MergeStart(dest: seq<Item>, source: seq<Item>)
    requires UniqueTop(source)
    ensures StartColumn(Merge(dest, source)) == StartColumn(dest)
    ensures Merge(dest, source) == [] <==> dest == [] && source == []
  {
    PrefixKept(dest, source, |source|);
    if source != [] { EntryInMerge(dest, source, source[0].key); FindIsLast(source, source[0].key, 0); }
  }

  lemma {:induction false} MovedNested(src: Item, diff: int)
    requires src.value.Mapping? ==> Nested(src.column, src.value.items)
    ensures var m := ShiftItem(src, diff);
            m.column == src.column + diff && (m.value.Mapping? ==> Nested(m.column, m.value.items))
  {
    ShiftedItem(src, diff);
    if src.value.Mapping? { ShiftAligned(src.value.items, diff); }
  }

  /** An item of the merge sits at the destination's column, strictly above its children. */
  lemma {:induction false} ItemAligned(dest: seq<Item>, source: seq<Item>, at: nat)
    requires Aligned(dest) && Aligned(source) && Unique(dest) && Unique(source) && Positive(dest)
    requires NoEmptyMeet(dest, source) && at < |Merge(dest, source)|
    ensures var m := Merge(dest, source)[at];
            m.column == StartColumn(dest) && (m.value.Mapping? ==> Nested(m.column, m.value.items))
    decreases source, 0
  {
    var key := Merge(dest, source)[at].key;
    Origin(dest, source, at);
    var i, k := Find(dest, key), Find(source, key);
    if i < 0 {
      MovedNested(source[k], StartColumn(dest) - source[k].column);
    } else if k >= 0 && dest[i].value.Mapping? && source[k].value.Mapping? {
      assert NoEmptyMeetItem(dest, source[k]);
      MeetNested(dest[i], source[k]);
    }
  }

  lemma {:induction false} MeetNested(d: Item, src: Item)
    requires d.value.Mapping? && src.value.Mapping?
    requires Nested(d.column, d.value.items) && Aligned(src.value.items)
    requires Unique(d.value.items) && Unique(src.value.items) && Positive(d.value.items)
    requires d.value.items == [] ==> src.value.items == []
    requires NoEmptyMeet(d.value.items, src.value.items)
    ensures Nested(d.column, Merge(d.value.items, src.value.items))
    decreases src
  {
    AlignedMerge(d.value.items, src.value.items);
    MergeStart(d.value.items, src.value.items);
  }

  /** In an aligned merge a mapping that met an entry of the source is aligned too, and
      was not an empty one filled at column 1. */
  lemma {:induction false} MeetAligned(dest: seq<Item>, source: seq<Item>, k: nat)
    requires Aligned(dest) && Aligned(source) && Unique(dest) && Unique(source) && Positive(dest)
    requires Aligned(Merge(dest, source)) && k < |source|
    ensures NoEmptyMeetItem(dest, source[k])
    decreases source, 0
  {
    var src := source[k];
    var i := Find(dest, src.key);
    EntryInMerge(dest, source, src.key);
    FindUnique(source, k);
    if i >= 0 && dest[i].value.Mapping? && src.value.Mapping? {
      var d, s := dest[i].value.items, src.value.items;
      assert Merge(dest, source)[i] == MergeItem(dest[i], src);
      assert Nested(dest[i].column, Merge(d, s));
      AlignedMerge(d, s);
      MergeStart(d, s);
    }
  }

  /** Merging aligned, strictly nested trees gives one exactly when no empty mapping of
      the destination receives keys: those land at column 1. */
  lemma {:induction false} AlignedMerge(dest: seq<Item>, source: seq<Item>)
    requires Aligned(dest) && Aligned(source) && Unique(dest) && Unique(source) && Positive(dest)
    ensures Aligned(Merge(dest, source)) <==> NoEmptyMeet(dest, source)
    decreases source, 1
  {
    var m := Merge(dest, source);
    MergeStart(dest, source);
    if NoEmptyMeet(dest, source) {
      forall at | 0 <= at < |m|
        ensures m[at].column == StartColumn(m)
        ensures m[at].value.Mapping? ==> Nested(m[at].column, m[at].value.items)
      {
        ItemAligned(dest, source, at);
      }
    }
    if Aligned(m) {
      forall k | 0 <= k < |source| ensures NoEmptyMeetItem(dest, source[k]) {
        MeetAligned(dest, source, k);
      }
    }
  }

  /** An empty mapping that receives a key: it lands at column 1, no deeper than its
      parent. */
  lemma {:induction false} EmptyMeetMisaligns()
    ensures var d := [Item("a", 1, Mapping([], true))];
            var s := [Item("a", 1, Mapping([Item("b", 3, Scalar("x"))], false))];
            && Aligned(d) && Aligned(s) && Unique(d) && Unique(s) && Positive(d)
            && !NoEmptyMeet(d, s) && !Aligned(Merge(d, s))
  {
    var below := [Item("b", 3, Scalar("x"))];
    var d := [Item("a", 1, Mapping([], true))];
    var s := [Item("a", 1, Mapping(below, false))];
    assert Aligned(below) && Nested(1, below) && Unique(below);
    assert Aligned([]) && Nested(1, []) && Unique([]);
    FindUnique(d, 0);
    assert !NoEmptyMeetItem(d, s[0]);
    AlignedMerge(d, s);
  }

  /** Keys that join a mapping without entries all land at column 1. */
  lemma {:induction false} LandsAtColumnOne(source: seq<Item>, j: nat)
    requires j <= |source| && UniqueTop(source)
    ensures |MergeFirst([], source, j)| == j
    ensures forall k :: 0 <= k < j ==> MergeFirst([], source, j)[k].key == source[k].key && MergeFirst([], source, j)[k].column == 1
  {
    if j > 0 {
      LandsAtColumnOne(source, j - 1);
      ShiftedItem(source[j - 1], StartColumn(MergeFirst([], source, j - 1)) - source[j - 1].column);
    }
  }
}
