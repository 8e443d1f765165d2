/** Trees that YAML can be written for, flow and block style mixed, and which merges stay
    among them. */
module YamlStyle {
  import opened YamlTree
  import opened YamlMeaning

  /** Every mapping of the tree is in flow style, so that it fits between braces. */
  predicate Inline(n: Node)
    decreases n
  {
    n.Mapping? ==> n.flow && forall i :: 0 <= i < |n.items| ==> Inline(n.items[i].value)
  }

  /** The entry sits at the column of its mapping, and a block mapping below it strictly
      deeper. */
  predicate Placed(item: Item, column: int)
    decreases item
  {
    && item.column == column
    && Styled(item.value)
    && (item.value.Mapping? && !item.value.flow ==> StartColumn(item.value.items) > column)
  }

  /** In flow style nothing below is in block style and columns do not matter. A block
      mapping has entries, all at one column. */
  predicate Styled(n: Node)
    decreases n
  {
    n.Mapping? ==>
      if n.flow then Inline(n)
      else n.items != [] && forall i :: 0 <= i < |n.items| ==> Placed(n.items[i], StartColumn(n.items))
  }

  // ---------- Moving a tree ----------

  lemma {:induction false} ShiftInline(n: Node, diff: int)
    ensures Inline(ShiftNode(n, diff)) <==> Inline(n)
  {
    if n.Mapping? {
      var m := ShiftNode(n, diff);
      forall i | 0 <= i < |n.items|
        ensures Inline(m.items[i].value) <==> Inline(n.items[i].value)
      {
        assert m.items[i] == ShiftItem(n.items[i], diff);
        ShiftInline(n.items[i].value, diff);
      }
    }
  }

  lemma {:induction false} ShiftStart(items: seq<Item>, diff: int)
    requires items != []
    ensures StartColumn(ShiftItems(items, diff)) == StartColumn(items) + diff
  {
    ShiftedItem(items[0], diff);
  }

  lemma {:induction false} ShiftStyled(n: Node, diff: int)
    requires Styled(n)
    ensures Styled(ShiftNode(n, diff))
  {
    if n.Mapping? {
      if n.flow {
        ShiftInline(n, diff);
      } else {
        var items := ShiftItems(n.items, diff);
        ShiftStart(n.items, diff);
        forall i | 0 <= i < |items|
          ensures Placed(items[i], StartColumn(items))
        {
          ShiftPlaced(n.items[i], StartColumn(n.items), diff);
        }
      }
    }
  }

  lemma {:induction false} ShiftPlaced(item: Item, column: int, diff: int)
    requires Placed(item, column)
    ensures Placed(ShiftItem(item, diff), column + diff)
    decreases item
  {
    ShiftStyled(item.value, diff);
    if item.value.Mapping? && !item.value.flow { ShiftStart(item.value.items, diff); }
  }

  // ---------- Merging ----------

  /** No entry with a block mapping in it moves into a flow mapping of the destination. */
  predicate Fits(d: Node, source: seq<Item>)
    requires d.Mapping?
    decreases source
  {
    forall k :: 0 <= k < |source| ==> FitsItem(d, source[k])
  }

  predicate FitsItem(d: Node, src: Item)
    requires d.Mapping?
    decreases src
  {
    var i := Find(d.items, src.key);
    if i < 0 then d.flow ==> Inline(src.value)
    else d.items[i].value.Mapping? && src.value.Mapping? ==> Fits(d.items[i].value, src.value.items)
  }

  function MergeNode(d: Node, s: Node): Node
    requires d.Mapping? && s.Mapping?
  {
    Mapping(Merge(d.items, s.items), d.flow)
  }

  /** Merging two trees that can be written gives one exactly when no block mapping moves
      between braces. */
  lemma {:induction false} StyledMerge(d: Node, s: Node)
    requires d.Mapping? && s.Mapping? && Styled(d) && Styled(s) && Unique(d.items) && Unique(s.items)
    ensures Styled(MergeNode(d, s)) <==> Fits(d, s.items)
    decreases s, 1
  {
    MergeStart(d.items, s.items);
    var m := MergeNode(d, s);
    if Fits(d, s.items) {
      forall at | 0 <= at < |m.items|
        ensures if d.flow then Inline(m.items[at].value) else Placed(m.items[at], StartColumn(m.items))
      {
        MergedItem(d, s, at);
      }
    }
    if Styled(m) {
      forall k | 0 <= k < |s.items| ensures FitsItem(d, s.items[k]) {
        MustFit(d, s, k);
      }
    }
  }

  lemma {:induction false} MergedItem(d: Node, s: Node, at: nat)
    requires d.Mapping? && s.Mapping? && Styled(d) && Styled(s) && Unique(d.items) && Unique(s.items)
    requires Fits(d, s.items) && at < |Merge(d.items, s.items)|
    ensures var item := Merge(d.items, s.items)[at];
            if d.flow then Inline(item.value) else Placed(item, StartColumn(d.items))
    decreases s, 0
  {
    var key := Merge(d.items, s.items)[at].key;
    Origin(d.items, s.items, at);
    var i, k := Find(d.items, key), Find(s.items, key);
    if i < 0 {
      assert FitsItem(d, s.items[k]);
      EntryStyled(s, k);
      MovedItem(d, s.items[k]);
    } else {
      EntryStyled(d, i);
      if k >= 0 && d.items[i].value.Mapping? && s.items[k].value.Mapping? {
        assert FitsItem(d, s.items[k]);
        EntryStyled(s, k);
        StyledMerge(d.items[i].value, s.items[k].value);
        MergeStart(d.items[i].value.items, s.items[k].value.items);
      }
    }
  }

  lemma {:induction false} EntryStyled(n: Node, i: nat)
    requires n.Mapping? && Styled(n) && i < |n.items|
    ensures Styled(n.items[i].value)
    ensures if n.flow then Inline(n.items[i].value) else Placed(n.items[i], StartColumn(n.items))
  {
    if !n.flow { assert Placed(n.items[i], StartColumn(n.items)); }
  }

  /** An entry that moves in is as well placed there as it was. */
  lemma {:induction false} MovedItem(d: Node, src: Item)
    requires d.Mapping? && Styled(d) && (d.flow ==> Inline(src.value))
    requires Placed(src, src.column) || Inline(src.value)
    ensures var item := ShiftItem(src, StartColumn(d.items) - src.column);
            if d.flow then Inline(item.value) else Placed(item, StartColumn(d.items))
  {
    var diff := StartColumn(d.items) - src.column;
    if d.flow {
      ShiftInline(src.value, diff);
    } else {
      ShiftPlaced(src, src.column, diff);
    }
  }

  /** When the merge can be written, each source entry fitted. */
  lemma {:induction false} MustFit(d: Node, s: Node, k: nat)
    requires d.Mapping? && s.Mapping? && Styled(d) && Styled(s) && Unique(d.items) && Unique(s.items)
    requires Styled(MergeNode(d, s)) && k < |s.items|
    ensures FitsItem(d, s.items[k])
    decreases s, 0
  {
    var src, m := s.items[k], MergeNode(d, s);
    EntryInMerge(d.items, s.items, src.key);
    FindUnique(s.items, k);
    var i, at := Find(d.items, src.key), Find(m.items, src.key);
    EntryStyled(m, at);
    EntryStyled(s, k);
    if i < 0 {
      ShiftInline(src.value, StartColumn(d.items) - src.column);
    } else if d.items[i].value.Mapping? && src.value.Mapping? {
      EntryStyled(d, i);
      assert m.items[at].value == MergeNode(d.items[i].value, src.value);
      StyledMerge(d.items[i].value, src.value);
    }
  }

  /** A block mapping does move between braces: `a: {}` and `a:` with a mapping of a
      mapping below it. */
  lemma {:induction false} BlockBetweenBraces()
    ensures var d := Mapping([Item("a", 1, Mapping([], true))], false);
            var s := Mapping([Item("a", 1, Mapping([Item("b", 3, Mapping([Item("c", 5, Scalar("x"))], false))], false))], false);
            Styled(d) && Styled(s) && Unique(d.items) && Unique(s.items) && !Fits(d, s.items) && !Styled(MergeNode(d, s))
  {
    var c := Mapping([Item("c", 5, Scalar("x"))], false);
    var b := Mapping([Item("b", 3, c)], false);
    var d := Mapping([Item("a", 1, Mapping([], true))], false);
    var s := Mapping([Item("a", 1, b)], false);
    assert Styled(c) && Placed(b.items[0], 3) && Styled(b) && Placed(s.items[0], 1) && Styled(s);
    assert Inline(d.items[0].value) && Placed(d.items[0], 1) && Styled(d);
    assert Unique(c.items) && Unique(b.items);
    FindIsLast(d.items, "a", 0);
    assert Find([], "b") < 0 && !Inline(c);
    assert !FitsItem(d.items[0].value, b.items[0]);
    assert !Fits(d.items[0].value, b.items);
    assert !FitsItem(d, s.items[0]);
    StyledMerge(d, s);
  }
}
