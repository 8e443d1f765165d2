/** A parser and a printer that meet everything YamlDocument asks of them, so that its
    theorems are about something: a prefix-free notation for files, with a parser that
    accepts what was printed from well-formed files and nothing else. */
module YamlPrinter {
  import opened Outcomes
  import opened YamlTree
  import opened YamlMeaning
  import opened YamlStyle
  import opened YamlDocument

  // ---------- A notation that can be read back ----------

  function Str(s: string): string {
    if s == "" then "." else ['x', s[0]] + Str(s[1..])
  }

  function Nat(n: nat): string {
    if n == 0 then "." else "x" + Nat(n - 1)
  }

  function Sign(n: int): char { if n < 0 then '-' else '+' }

  function Magnitude(n: int): nat { if n < 0 then -n else n }

  function Int(n: int): string {
    [Sign(n)] + Nat(Magnitude(n))
  }

  function Tree(n: Node): string
    decreases n, 1
  {
    [Kind(n)] + Body(n)
  }

  function Kind(n: Node): char { if n.Scalar? then 's' else if n.flow then 'f' else 'b' }

  function Body(n: Node): string
    decreases n, 0
  {
    if n.Scalar? then Str(n.text) else Entries(n.items)
  }

  function Entries(items: seq<Item>): string
    decreases items, 0
  {
    if items == [] then "."
    else "x" + (Str(items[0].key) + (Int(items[0].column) + (Tree(items[0].value) + Entries(items[1..]))))
  }

  function Docs(docs: seq<Option<Node>>): string {
    if docs == [] then "."
    else Doc(docs[0]) + Docs(docs[1..])
  }

  function Doc(doc: Option<Node>): string {
    [DocMark(doc)] + if doc.Some? then Tree(doc.value) else ""
  }

  function DocMark(doc: Option<Node>): char { if doc.None? then 'n' else 'd' }

  function Print(file: File): string { Docs(file.docs) + Str(file.layout) }

  /** Concatenations with one-character heads agree just when heads and rests do. */
  lemma {:induction false} Tail(c: char, a: string, d: char, b: string)
    requires [c] + a == [d] + b
    ensures c == d && a == b
  {
    assert ([c] + a)[0] == ([d] + b)[0];
    assert ([c] + a)[1..] == a && ([d] + b)[1..] == b;
  }

  lemma {:induction false} Mark(c: char, x: string, a: string, d: char, y: string, b: string)
    requires [c] + x + a == [d] + y + b
    ensures c == d && x + a == y + b
  {
    assert [c] + x + a == [c] + (x + a) && [d] + y + b == [d] + (y + b);
    Tail(c, x + a, d, y + b);
  }

  lemma {:induction false} StrReads(s: string, a: string, t: string, b: string)
    requires Str(s) + a == Str(t) + b
    ensures s == t && a == b
  {
    assert (Str(s) + a)[0] == if s == "" then '.' else 'x';
    assert (Str(t) + b)[0] == if t == "" then '.' else 'x';
    if s == "" {
      Tail('.', a, '.', b);
    } else {
      assert Str(s) + a == ['x'] + ([s[0]] + (Str(s[1..]) + a));
      assert Str(t) + b == ['x'] + ([t[0]] + (Str(t[1..]) + b));
      Tail('x', [s[0]] + (Str(s[1..]) + a), 'x', [t[0]] + (Str(t[1..]) + b));
      Tail(s[0], Str(s[1..]) + a, t[0], Str(t[1..]) + b);
      StrReads(s[1..], a, t[1..], b);
      assert s == [s[0]] + s[1..] && t == [t[0]] + t[1..];
    }
  }

  lemma {:induction false} NatReads(n: nat, a: string, m: nat, b: string)
    requires Nat(n) + a == Nat(m) + b
    ensures n == m && a == b
  {
    assert (Nat(n) + a)[0] == if n == 0 then '.' else 'x';
    assert (Nat(m) + b)[0] == if m == 0 then '.' else 'x';
    if n == 0 {
      Tail('.', a, '.', b);
    } else {
      assert Nat(n) + a == ['x'] + (Nat(n - 1) + a);
      assert Nat(m) + b == ['x'] + (Nat(m - 1) + b);
      Tail('x', Nat(n - 1) + a, 'x', Nat(m - 1) + b);
      NatReads(n - 1, a, m - 1, b);
    }
  }

  lemma {:induction false} IntReads(n: int, a: string, m: int, b: string)
    requires Int(n) + a == Int(m) + b
    ensures n == m && a == b
  {
    Mark(Sign(n), Nat(Magnitude(n)), a, Sign(m), Nat(Magnitude(m)), b);
    NatReads(Magnitude(n), a, Magnitude(m), b);
  }

  lemma {:induction false} TreeReads(n: Node, a: string, m: Node, b: string)
    requires Tree(n) + a == Tree(m) + b
    ensures n == m && a == b
    decreases n
  {
    Mark(Kind(n), Body(n), a, Kind(m), Body(m), b);
    if n.Scalar? { StrReads(n.text, a, m.text, b); } else { EntriesRead(n.items, a, m.items, b); }
  }

  lemma {:induction false} EntriesRead(s: seq<Item>, a: string, t: seq<Item>, b: string)
    requires Entries(s) + a == Entries(t) + b
    ensures s == t && a == b
    decreases s
  {
    assert (Entries(s) + a)[0] == if s == [] then '.' else 'x';
    assert (Entries(t) + b)[0] == if t == [] then '.' else 'x';
    if s == [] {
      Tail('.', a, '.', b);
    } else {
      EntryStarts(s, a);
      EntryStarts(t, b);
      Tail('x', Rest(s, a), 'x', Rest(t, b));
      StrReads(s[0].key, AfterKey(s, a), t[0].key, AfterKey(t, b));
      IntReads(s[0].column, AfterColumn(s, a), t[0].column, AfterColumn(t, b));
      TreeReads(s[0].value, Entries(s[1..]) + a, t[0].value, Entries(t[1..]) + b);
      EntriesRead(s[1..], a, t[1..], b);
      assert s == [s[0]] + s[1..] && t == [t[0]] + t[1..];
    }
  }

  /** The notation of a non-empty list after its mark, its first key, its first column. */
  function Rest(s: seq<Item>, a: string): string
    requires s != []
  {
    Str(s[0].key) + AfterKey(s, a)
  }

  function AfterKey(s: seq<Item>, a: string): string
    requires s != []
  {
    Int(s[0].column) + AfterColumn(s, a)
  }

  function AfterColumn(s: seq<Item>, a: string): string
    requires s != []
  {
    Tree(s[0].value) + (Entries(s[1..]) + a)
  }

  lemma {:induction false} EntryStarts(s: seq<Item>, a: string)
    requires s != []
    ensures Entries(s) + a == ['x'] + Rest(s, a)
  {
    Regroup(Str(s[0].key), Int(s[0].column), Tree(s[0].value), Entries(s[1..]), a);
  }

  lemma {:induction false} Regroup(k: string, c: string, v: string, r: string, a: string)
    ensures "x" + (k + (c + (v + r))) + a == ['x'] + (k + (c + (v + (r + a))))
  {
    assert (v + r) + a == v + (r + a);
    assert (c + (v + r)) + a == c + ((v + r) + a);
    assert (k + (c + (v + r))) + a == k + ((c + (v + r)) + a);
  }

  lemma {:induction false} DocReads(s: Option<Node>, a: string, t: Option<Node>, b: string)
    requires Doc(s) + a == Doc(t) + b
    ensures s == t && a == b
  {
    var x, y := if s.Some? then Tree(s.value) else "", if t.Some? then Tree(t.value) else "";
    Mark(DocMark(s), x, a, DocMark(t), y, b);
    if s.Some? {
      TreeReads(s.value, a, t.value, b);
    } else {
      assert x + a == a && y + b == b;
    }
  }

  lemma {:induction false} DocsHead(s: seq<Option<Node>>, a: string)
    ensures (Docs(s) + a)[0] == if s == [] then '.' else DocMark(s[0])
    ensures s != [] ==> Docs(s) + a == Doc(s[0]) + (Docs(s[1..]) + a)
  {
    if s != [] {
      assert Doc(s[0])[0] == DocMark(s[0]);
      assert Doc(s[0]) + Docs(s[1..]) + a == Doc(s[0]) + (Docs(s[1..]) + a);
    }
  }

  lemma {:induction false} DocsRead(s: seq<Option<Node>>, a: string, t: seq<Option<Node>>, b: string)
    requires Docs(s) + a == Docs(t) + b
    ensures s == t && a == b
  {
    DocsHead(s, a);
    DocsHead(t, b);
    if s == [] {
      Tail('.', a, '.', b);
    } else {
      DocReads(s[0], Docs(s[1..]) + a, t[0], Docs(t[1..]) + b);
      DocsRead(s[1..], a, t[1..], b);
      assert s == [s[0]] + s[1..] && t == [t[0]] + t[1..];
    }
  }

  // ---------- The parser ----------

  /** What the parser accepts. */
  ghost predicate WellFormed(file: File) {
    file.docs != [] && file.docs[0].Some? && file.docs[0].value.Mapping? ==> Writable(file.docs[0].value)
  }

  ghost function Parse(text: string): Option<File> {
    if exists file: File :: WellFormed(file) && Print(file) + "\n" == text then
      var file: File :| WellFormed(file) && Print(file) + "\n" == text;
      Some(file)
    else None
  }

  lemma {:induction false} ParsePrinted(file: File)
    requires WellFormed(file)
    ensures Parse(Print(file) + "\n") == Some(file)
  {
    var text := Print(file) + "\n";
    assert WellFormed(file) && Print(file) + "\n" == text;
    var back := Parse(text).value;
    assert Print(file) + "\n" == Docs(file.docs) + (Str(file.layout) + "\n");
    assert Print(back) + "\n" == Docs(back.docs) + (Str(back.layout) + "\n");
    DocsRead(file.docs, Str(file.layout) + "\n", back.docs, Str(back.layout) + "\n");
    StrReads(file.layout, "\n", back.layout, "\n");
  }

  /** A printed file that has a document is no empty text. */
  lemma {:induction false} PrintedIsNotEmpty(file: File)
    requires file.docs != []
    ensures !IsEmpty(Print(file) + "\n")
  {
    var text := Print(file) + "\n";
    DocsHead(file.docs, Str(file.layout) + "\n");
    assert text == Docs(file.docs) + (Str(file.layout) + "\n");
    EmptyIsOnlyComments(text);
  }

  /** The assumptions of DocumentMeaning and MergeYAMLTwice can be met together, by a
      parser and printer that represent every mapping that can be written. */
  lemma {:induction false} AssumptionsHold() returns (yaml: Yaml)
    ensures yaml.Sound()
    ensures forall n :: Writable(n) ==> exists text :: !IsEmpty(text) && yaml.Root(text) == Some(n)
  {
    yaml := Yaml(text => Parse(text), file => Print(file));
    forall text, n
      ensures yaml.PrintsBackWith(text, n)
    {
      if Parse(text).Some? && Parse(text).value.docs != [] && Writable(n) {
        var file := yaml.WithRoot(Parse(text).value, n);
        ParsePrinted(file);
        PrintedIsNotEmpty(file);
        SameTreeItself(n);
      }
    }
    forall text ensures yaml.ParsesWell(text) {
    }
    forall n | Writable(n)
      ensures exists text :: !IsEmpty(text) && yaml.Root(text) == Some(n)
    {
      var file := File([Some(n)], "");
      ParsePrinted(file);
      PrintedIsNotEmpty(file);
      assert yaml.Root(Print(file) + "\n") == Some(n);
    }
  }
}
