/** Splitting and joining of strings on a separator (Go's strings.Split and strings.Join). */
module Text {

  predicate Free(s: string, sep: char) { sep !in s }

  /** strings.Split: always at least one part, none of which contains the separator. */
  function Split(s: string, sep: char): (parts: seq<string>)
    ensures |parts| >= 1
  {
    if s == "" then [""]
    else
      var rest := Split(s[1..], sep);
      if s[0] == sep then [""] + rest else [[s[0]] + rest[0]] + rest[1..]
  }

  /** strings.Join. */
  function Join(parts: seq<string>, sep: char): string {
    if parts == [] then ""
    else if |parts| == 1 then parts[0]
    else parts[0] + [sep] + Join(parts[1..], sep)
  }

  lemma {:induction false} SplitParts(s: string, sep: char)
    ensures forall k :: 0 <= k < |Split(s, sep)| ==> Free(Split(s, sep)[k], sep)
  {
    if s != "" {
      SplitParts(s[1..], sep);
      var rest := Split(s[1..], sep);
      assert Free(rest[0], sep);
      assert s[0] != sep ==> Free([s[0]] + rest[0], sep);
    }
  }

  lemma {:induction false} SplitFree(s: string, sep: char)
    requires Free(s, sep)
    ensures Split(s, sep) == [s]
  {
    if s != "" {
      SplitFree(s[1..], sep);
      assert [s[0]] + s[1..] == s;
    }
  }

  /** A first part stays the first part when more parts follow. */
  lemma {:induction false} SplitCons(c: char, parts: seq<string>, more: seq<string>)
    requires parts != []
    ensures [[c] + (parts + more)[0]] + (parts + more)[1..] == ([[c] + parts[0]] + parts[1..]) + more
    ensures [""] + (parts + more) == ([""] + parts) + more
  {
  }

  lemma {:induction false} SplitAppend(a: string, b: string, sep: char)
    ensures Split(a + [sep] + b, sep) == Split(a, sep) + Split(b, sep)
  {
    var s := a + [sep] + b;
    if a == "" {
      assert s[1..] == b;
    } else {
      assert s[0] == a[0] && s[1..] == a[1..] + [sep] + b;
      SplitAppend(a[1..], b, sep);
      SplitCons(a[0], Split(a[1..], sep), Split(b, sep));
    }
  }

  /** Joining what a split produced gives the string back. */
  lemma {:induction false} JoinSplit(s: string, sep: char)
    ensures Join(Split(s, sep), sep) == s
  {
    if s != "" {
      var rest := Split(s[1..], sep);
      JoinSplit(s[1..], sep);
      if s[0] == sep {
        assert ([""] + rest)[1..] == rest;
      } else {
        assert ([[s[0]] + rest[0]] + rest[1..])[1..] == rest[1..];
        assert [s[0]] + s[1..] == s;
      }
    }
  }

  /** Splitting a join gives the splits of the parts, one after the other. */
  lemma {:induction false} SplitJoin(parts: seq<string>, sep: char)
    requires parts != []
    ensures Split(Join(parts, sep), sep) == SplitAll(parts, sep)
  {
    if |parts| > 1 {
      SplitAppend(parts[0], Join(parts[1..], sep), sep);
      SplitJoin(parts[1..], sep);
    }
  }

  function SplitAll(parts: seq<string>, sep: char): seq<string> {
    if parts == [] then [] else Split(parts[0], sep) + SplitAll(parts[1..], sep)
  }

  lemma {:induction false} SplitAllFree(parts: seq<string>, sep: char)
    requires forall k :: 0 <= k < |parts| ==> Free(parts[k], sep)
    ensures SplitAll(parts, sep) == parts
  {
    if parts != [] {
      SplitFree(parts[0], sep);
      assert forall k :: 0 <= k < |parts[1..]| ==> parts[1..][k] == parts[k + 1];
      SplitAllFree(parts[1..], sep);
      assert [parts[0]] + parts[1..] == parts;
    }
  }

  // ---------- Trimming ----------

  predicate All(s: string, drop: char -> bool) {
    forall k :: 0 <= k < |s| ==> drop(s[k])
  }

  /** strings.TrimLeftFunc */
  function TrimLeft(s: string, drop: char -> bool): (r: string)
    ensures |r| <= |s| && r == s[|s| - |r|..] && All(s[..|s| - |r|], drop)
    ensures r != "" ==> !drop(r[0])
  {
    if s != "" && drop(s[0]) then
      var r := TrimLeft(s[1..], drop);
      var n := |s| - |r|;
      assert s[1..][n - 1..] == s[n..];
      assert s[..n] == [s[0]] + s[1..][..n - 1];
      r
    else s
  }

  /** strings.TrimRightFunc */
  function TrimRight(s: string, drop: char -> bool): (r: string)
    ensures r <= s && All(s[|r|..], drop)
    ensures r != "" ==> !drop(r[|r| - 1])
  {
    if s != "" && drop(s[|s| - 1]) then TrimRight(s[..|s| - 1], drop) else s
  }

  function Trim(s: string, drop: char -> bool): string {
    TrimRight(TrimLeft(s, drop), drop)
  }

  lemma {:induction false} TrimLeftStops(left: string, rest: string, drop: char -> bool)
    requires All(left, drop) && rest != "" && !drop(rest[0])
    ensures TrimLeft(left + rest, drop) == rest
  {
    if left == "" {
      assert left + rest == rest;
    } else {
      assert (left + rest)[1..] == left[1..] + rest;
      TrimLeftStops(left[1..], rest, drop);
    }
  }

  lemma {:induction false} TrimRightStops(rest: string, right: string, drop: char -> bool)
    requires All(right, drop) && rest != "" && !drop(rest[|rest| - 1])
    ensures TrimRight(rest + right, drop) == rest
  {
    if right == "" {
      assert rest + right == rest;
    } else {
      var n := |right| - 1;
      assert (rest + right)[..|rest| + n] == rest + right[..n];
      TrimRightStops(rest, right[..n], drop);
    }
  }

  /** A core without droppable ends is what trimming finds, whatever droppable text
      surrounds it. */
  lemma {:induction false} TrimIsCore(left: string, core: string, right: string, drop: char -> bool)
    requires All(left, drop) && All(right, drop)
    requires core != "" && !drop(core[0]) && !drop(core[|core| - 1])
    ensures Trim(left + core + right, drop) == core
  {
    assert left + core + right == left + (core + right);
    TrimLeftStops(left, core + right, drop);
    TrimRightStops(core, right, drop);
  }

  /** Trimming leaves nothing exactly when everything is droppable; otherwise it leaves a
      text with the same first kept character and no droppable ends. */
  lemma {:induction false} TrimMeaning(s: string, drop: char -> bool)
    ensures Trim(s, drop) == "" <==> All(s, drop)
    ensures Trim(s, drop) != "" ==>
              var r := Trim(s, drop); var t := TrimLeft(s, drop);
              t != "" && r[0] == t[0] && !drop(r[0]) && !drop(r[|r| - 1])
  {
    var t := TrimLeft(s, drop);
    var r := TrimRight(t, drop);
    var n := |s| - |t|;
    if t == "" {
      assert s[..n] == s;
    } else {
      assert t[0] == s[n];
      assert !drop(s[n]);
      assert t[0..] == t;
      if r == "" {
        assert false;
      }
      assert r[0] == t[0];
    }
  }

  /** unicode.IsSpace */
  predicate IsSpace(c: char) {
    var u := c as int;
    || 0x9 <= u <= 0xd || u == 0x20 || u == 0x85 || u == 0xa0 || u == 0x1680
    || 0x2000 <= u <= 0x200a || u == 0x2028 || u == 0x2029 || u == 0x202f || u == 0x205f || u == 0x3000
  }

  /** The twenty-five white space characters of Unicode, one by one. */
  lemma SpacesExactly(c: char)
    ensures IsSpace(c) <==>
            c as int in {9, 10, 11, 12, 13, 32, 133, 160, 5760, 8192, 8193, 8194, 8195, 8196, 8197, 8198, 8199, 8200,
                         8201, 8202, 8232, 8233, 8239, 8287, 12288}
  {
  }

  /** strings.TrimSpace */
  function TrimSpace(s: string): string {
    Trim(s, IsSpace)
  }

  lemma {:induction false} BlankIsTrimmedAway(s: string)
    ensures All(s, IsSpace) <==> TrimSpace(s) == ""
  {
    TrimMeaning(s, IsSpace);
  }
}
