/** MergeYAML on texts (utils/yaml_merge.go): the shortcuts for empty documents and the
    general path meet one specification. Parsing and printing are parameters; a parsed
    file keeps what the merge looks at. */
module YamlDocument {
  import opened Outcomes
  import Text
  import opened YamlTree
  import opened YamlMeaning
  import opened YamlStyle

  // ---------- isEmptyYAML ----------

  predicate Comment(line: string) {
    line != "" && line[0] == '#'
  }

  /** The loop body's test, on one line. */
  predicate Harmless(line: string) {
    var trimmed := Text.TrimSpace(line);
    trimmed == "" || Comment(trimmed)
  }

  predicate IsEmpty(data: string) {
    var s := Text.TrimSpace(data);
    s == "" || AllHarmless(Text.Split(s, '\n'))
  }

  predicate AllHarmless(lines: seq<string>) {
    lines == [] || (Harmless(lines[0]) && AllHarmless(lines[1..]))
  }

  method IsEmptyYAML(data: string) returns (empty: bool)
    ensures empty <==> IsEmpty(data)
  {
    var s := Text.TrimSpace(data);
    if s == "" { return true; }
    var lines := Text.Split(s, '\n');
    for n := 0 to |lines|
      invariant AllHarmless(lines) == AllHarmless(lines[n..])
    {
      assert lines[n..][1..] == lines[n + 1..];
      var trimmed := Text.TrimSpace(lines[n]);
      if trimmed != "" && !Comment(trimmed) {
        return false;
      }
    }
    empty := true;
  }

  /** Reads a text once, character by character: nothing but white space and comments.
      `margin` means that only white space was seen since the line began. */
  predicate OnlyComments(s: string, margin: bool) {
    if s == "" then true
    else if s[0] == '\n' then OnlyComments(s[1..], true)
    else if !margin then OnlyComments(s[1..], false)
    else if Text.IsSpace(s[0]) then OnlyComments(s[1..], true)
    else s[0] == '#' && OnlyComments(s[1..], false)
  }

  lemma {:induction false} HarmlessLine(line: string)
    ensures Harmless(line) <==> var t := Text.TrimLeft(line, Text.IsSpace); t == "" || t[0] == '#'
  {
    Text.TrimMeaning(line, Text.IsSpace);
  }

  /** A longer line is judged by its first character unless that is white space. */
  lemma {:induction false} HarmlessCons(c: char, line: string)
    ensures Harmless([c] + line) <==> if Text.IsSpace(c) then Harmless(line) else c == '#'
  {
    HarmlessLine([c] + line);
    HarmlessLine(line);
    assert ([c] + line)[1..] == line;
  }

  lemma {:induction false} LinesAreRead(s: string)
    ensures OnlyComments(s, true) <==> AllHarmless(Text.Split(s, '\n'))
    ensures OnlyComments(s, false) <==> AllHarmless(Text.Split(s, '\n')[1..])
  {
    HarmlessLine("");
    if s != "" {
      LinesAreRead(s[1..]);
      var rest := Text.Split(s[1..], '\n');
      HarmlessCons(s[0], rest[0]);
      if s[0] == '\n' {
        assert ([""] + rest)[1..] == rest;
      } else {
        assert ([[s[0]] + rest[0]] + rest[1..])[1..] == rest[1..];
      }
    }
  }

  lemma {:induction false} LeadingSpace(s: string)
    ensures OnlyComments(s, true) <==> OnlyComments(Text.TrimLeft(s, Text.IsSpace), true)
  {
    if s != "" && Text.IsSpace(s[0]) {
      LeadingSpace(s[1..]);
    }
  }

  lemma {:induction false} LastSpace(s: string, c: char, margin: bool)
    requires Text.IsSpace(c)
    ensures OnlyComments(s + [c], margin) <==> OnlyComments(s, margin)
  {
    if s == "" {
      assert s + [c] == [c];
      assert OnlyComments("", true) && OnlyComments("", false);
    } else {
      assert (s + [c])[1..] == s[1..] + [c];
      LastSpace(s[1..], c, true);
      LastSpace(s[1..], c, false);
    }
  }

  lemma {:induction false} TrailingSpace(s: string)
    ensures OnlyComments(s, true) <==> OnlyComments(Text.TrimRight(s, Text.IsSpace), true)
  {
    if s != "" && Text.IsSpace(s[|s| - 1]) {
      assert s == s[..|s| - 1] + [s[|s| - 1]];
      LastSpace(s[..|s| - 1], s[|s| - 1], true);
      TrailingSpace(s[..|s| - 1]);
    }
  }

  /** isEmptyYAML, with its trims and splits, accepts exactly the texts that the one-pass
      reading accepts: comments and white space. */
  lemma {:induction false} EmptyIsOnlyComments(data: string)
    ensures IsEmpty(data) <==> OnlyComments(data, true)
  {
    var t := Text.TrimLeft(data, Text.IsSpace);
    LeadingSpace(data);
    TrailingSpace(t);
    LinesAreRead(Text.TrimSpace(data));
  }

  // ---------- MergeYAML ----------

  /** A parsed file: its documents' bodies, where there is one, and all that the merge does
      not look at, comments among it. */
  datatype File = File(docs: seq<Option<Node>>, layout: string)

  datatype MergeError = DestUnparsable | SourceUnparsable | BadDestRoot | BadSourceRoot

  datatype Yaml = Yaml(parse: string -> Option<File>, render: File -> string)
  {
    /** getRootMapping */
    function RootMapping(file: File): (r: Option<Node>)
      ensures r.Some? ==> r.value.Mapping? && file.docs != [] && file.docs[0] == r
    {
      if file.docs == [] then None
      else if file.docs[0].None? then None
      else if file.docs[0].value.Scalar? then None
      else file.docs[0]
    }

    function MergeYAML(dest: string, source: string): Result<string, MergeError> {
      if IsEmpty(source) then Ok(dest)
      else if IsEmpty(dest) then
        if parse(source).None? then Err(SourceUnparsable) else Ok(source)
      else if parse(dest).None? then Err(DestUnparsable)
      else if parse(source).None? then Err(SourceUnparsable)
      else
        var d, s := RootMapping(parse(dest).value), RootMapping(parse(source).value);
        if d.None? then Err(BadDestRoot)
        else if s.None? then Err(BadSourceRoot)
        else Ok(render(WithRoot(parse(dest).value, MergeNode(d.value, s.value))) + "\n")
    }

    /** A file with its first document replaced. */
    function WithRoot(file: File, n: Node): File
      requires file.docs != []
    {
      file.(docs := file.docs[0 := Some(n)])
    }

    /** The mapping a text stands for. An empty document stands for a mapping without
        entries that anything may be moved into. */
    function Root(text: string): (r: Option<Node>)
      ensures r.Some? ==> r.value.Mapping?
    {
      if IsEmpty(text) then Some(Mapping([], false))
      else if parse(text).None? then None
      else RootMapping(parse(text).value)
    }

    // ---------- What is asked of the parser and the printer ----------

    /** A parsed file, given a root that can be written, prints to a text that parses back
        to the same tree, at whatever columns, and that prints as itself from then on. */
    ghost predicate PrintsBackWith(text: string, n: Node) {
      parse(text).Some? && parse(text).value.docs != [] && Writable(n) ==>
        var file := WithRoot(parse(text).value, n);
        var printed := render(file) + "\n";
        && !IsEmpty(printed) && parse(printed).Some?
        && RootMapping(parse(printed).value).Some? && SameTree(RootMapping(parse(printed).value).value, n)
        && render(parse(printed).value) == render(file)
    }

    ghost predicate PrintsBack() {
      forall text, n :: PrintsBackWith(text, n)
    }

    /** The parser refuses a repeated key and yields only what YAML can be written for:
        block mappings indented as they must be, and none between braces. */
    ghost predicate ParsesWell(text: string) {
      parse(text).Some? && RootMapping(parse(text).value).Some? ==> Writable(RootMapping(parse(text).value).value)
    }

    ghost predicate Sound() {
      PrintsBack() && forall text :: ParsesWell(text)
    }

    lemma {:induction false} RootIsWritable(text: string)
      requires Sound() && !IsEmpty(text) && Root(text).Some?
      ensures Writable(Root(text).value)
    {
      assert ParsesWell(text);
    }

    lemma {:induction false} RootIsUnique(text: string)
      requires Sound() && Root(text).Some?
      ensures Unique(Root(text).value.items)
    {
      if !IsEmpty(text) { RootIsWritable(text); }
    }

    // ---------- The branches ----------

    /** The general path prints the merged mapping into the destination's file. */
    lemma {:induction false} GeneralPath(dest: string, source: string)
      requires PrintsBack() && !IsEmpty(dest) && !IsEmpty(source) && Root(dest).Some? && Root(source).Some?
      requires Writable(MergeNode(Root(dest).value, Root(source).value))
      ensures var r, m := MergeYAML(dest, source), MergeNode(Root(dest).value, Root(source).value);
              && r.Ok? && !IsEmpty(r.value) && Root(r.value).Some? && SameTree(Root(r.value).value, m)
              && parse(r.value).Some? && RootMapping(parse(r.value).value).Some?
              && render(parse(r.value).value) + "\n" == r.value
    {
      assert PrintsBackWith(dest, MergeNode(Root(dest).value, Root(source).value));
    }

    /** The shortcuts: an empty source gives the destination, else an empty destination
        gives the source. */
    lemma {:induction false} Shortcuts(dest: string, source: string)
      requires Root(dest).Some? && Root(source).Some?
      ensures IsEmpty(source) ==> MergeYAML(dest, source) == Ok(dest) && Root(source).value.items == []
      ensures !IsEmpty(source) && IsEmpty(dest) ==> MergeYAML(dest, source) == Ok(source) && Root(dest).value.items == []
    {
    }

    /** When a merge is refused: an unusable source always, except beside an empty
        destination, where it only has to parse; an unusable destination unless the source
        is empty. */
    lemma {:induction false} MergeYAMLFails(dest: string, source: string)
      ensures MergeYAML(dest, source).Err? <==>
              if IsEmpty(source) then false
              else if IsEmpty(dest) then parse(source).None?
              else Root(dest).None? || Root(source).None?
    {
    }

    // ---------- What every merge means ----------

    /** The trees of two texts merge to one that can be written exactly when no block
        mapping moves between braces. */
    lemma {:induction false} MergeIsWritable(dest: string, source: string)
      requires Sound() && !IsEmpty(dest) && !IsEmpty(source) && Root(dest).Some? && Root(source).Some?
      ensures Writable(MergeNode(Root(dest).value, Root(source).value)) <==> Fits(Root(dest).value, Root(source).value.items)
    {
      RootIsWritable(dest);
      RootIsWritable(source);
      StyledMerge(Root(dest).value, Root(source).value);
      UniquePreserved(Root(dest).value.items, Root(source).value.items);
    }

    /** Two texts that stand for mappings always merge. As long as no block mapping moves
        between braces the merge stands for the merged mapping: whichever branch was taken,
        under every path it has what the destination says, else what the source says. */
    lemma {:induction false} DocumentMeaning(dest: string, source: string, path: seq<string>)
      requires Sound() && Root(dest).Some? && Root(source).Some?
      requires Fits(Root(dest).value, Root(source).value.items)
      ensures MergeYAML(dest, source).Ok?
      ensures var d, s := Root(dest).value.items, Root(source).value.items;
              var r := Root(MergeYAML(dest, source).value);
              r.Some? && At(r.value.items, path) == Override(At(d, path), Blocked(d, path), At(s, path))
    {
      var d, s := Root(dest).value, Root(source).value;
      RootIsUnique(source);
      Shortcuts(dest, source);
      NothingBelow(d.items, path);
      NothingBelow(s.items, path);
      if !IsEmpty(source) && !IsEmpty(dest) {
        MergeIsWritable(dest, source);
        GeneralPath(dest, source);
        SameTreeMeans(Root(MergeYAML(dest, source).value).value, MergeNode(d, s), path);
        MergeMeaning(d.items, s.items, path);
      }
    }

    /** Merging the same source again changes nothing: never the tree the text stands for,
        and not even the text when the destination was not empty. */
    lemma {:induction false} MergeYAMLTwice(dest: string, source: string)
      requires Sound() && Root(dest).Some? && Root(source).Some?
      requires Fits(Root(dest).value, Root(source).value.items)
      ensures MergeYAML(dest, source).Ok?
      ensures var once := MergeYAML(dest, source).value;
              var twice := MergeYAML(once, source);
              && twice.Ok? && Root(once).Some? && Root(twice.value).Some?
              && SameTree(Root(twice.value).value, Root(once).value)
              && (!IsEmpty(dest) ==> twice.value == once)
    {
      Shortcuts(dest, source);
      RootIsUnique(source);
      SameTreeItself(Root(dest).value);
      if !IsEmpty(source) {
        if IsEmpty(dest) {
          RootIsWritable(source);
          MergeItself(Root(source).value.items);
          GeneralPath(source, source);
        } else {
          MergeIsWritable(dest, source);
          GeneralPath(dest, source);
          var once := MergeYAML(dest, source).value;
          MergedBefore(Root(once).value, Root(dest).value, Root(source).value);
          PrintedTwice(once, source);
          SameTreeItself(Root(once).value);
        }
      }
    }

    /** A printed merge that the source adds nothing to prints as itself. */
    lemma {:induction false} PrintedTwice(once: string, source: string)
      requires !IsEmpty(once) && !IsEmpty(source) && Root(once).Some? && Root(source).Some?
      requires MergeNode(Root(once).value, Root(source).value) == Root(once).value
      requires render(parse(once).value) + "\n" == once
      ensures MergeYAML(once, source) == Ok(once)
    {
      RootAgain(parse(once).value, Root(once).value);
    }

    lemma {:induction false} RootAgain(file: File, n: Node)
      requires file.docs != [] && file.docs[0] == Some(n)
      ensures WithRoot(file, n) == file
    {
      assert file.docs[0 := Some(n)] == file.docs;
    }
  }

  /** A tree that is a merge up to columns has everything of the source already. */
  lemma {:induction false} MergedBefore(m: Node, d: Node, s: Node)
    requires m.Mapping? && d.Mapping? && s.Mapping? && Unique(s.items) && SameTree(m, MergeNode(d, s))
    ensures MergeNode(m, s) == m
  {
    MergeCovers(d.items, s.items);
    SameTreeCovers(m.items, MergeNode(d, s).items, s.items);
    CoveredIsNoOp(m.items, s.items, |s.items|);
  }

  /** A mapping without repeated keys that can be written. */
  predicate Writable(n: Node) {
    n.Mapping? && Styled(n) && Unique(n.items)
  }

  // ---------- Trees up to columns ----------

  /** The same keys, texts and styles, in the same order. */
  predicate SameTree(a: Node, b: Node)
    decreases a
  {
    if a.Scalar? then a == b
    else
      && b.Mapping? && a.flow == b.flow && SameKeys(a.items, b.items)
      && forall i :: 0 <= i < |a.items| ==> SameTree(a.items[i].value, b.items[i].value)
  }

  lemma {:induction false} SameTreeItself(a: Node)
    ensures SameTree(a, a)
  {
    if a.Mapping? {
      forall i | 0 <= i < |a.items| ensures SameTree(a.items[i].value, a.items[i].value) {
        SameTreeItself(a.items[i].value);
      }
    }
  }

  lemma {:induction false} SameTreeMeans(a: Node, b: Node, path: seq<string>)
    requires a.Mapping? && SameTree(a, b)
    ensures At(a.items, path) == At(b.items, path)
    decreases path
  {
    if path != [] {
      SameFind(a.items, b.items, path[0]);
      var i := Find(a.items, path[0]);
      if i >= 0 {
        assert SameTree(a.items[i].value, b.items[i].value);
        if |path| > 1 && a.items[i].value.Mapping? {
          SameTreeMeans(a.items[i].value, b.items[i].value, path[1..]);
        }
      }
    }
  }

  lemma {:induction false} SameTreeCovers(a: seq<Item>, b: seq<Item>, source: seq<Item>)
    requires SameKeys(a, b) && forall i :: 0 <= i < |a| ==> SameTree(a[i].value, b[i].value)
    requires Covers(b, source)
    ensures Covers(a, source)
    decreases source
  {
    forall k | 0 <= k < |source| ensures CoversItem(a, source[k]) {
      assert CoversItem(b, source[k]);
      SameFind(a, b, source[k].key);
      var i := Find(a, source[k].key);
      assert SameTree(a[i].value, b[i].value);
      if a[i].value.Mapping? && source[k].value.Mapping? {
        SameTreeCovers(a[i].value.items, b[i].value.items, source[k].value.items);
      }
    }
  }

  lemma {:induction false} MergeItself(items: seq<Item>)
    requires Unique(items)
    ensures Merge(items, items) == items
  {
    ShiftCovers(items, 0);
    ShiftByZero(items);
    CoveredIsNoOp(items, items, |items|);
  }

  /** The empty mapping says nothing below its root. */
  lemma {:induction false} NothingBelow(items: seq<Item>, path: seq<string>)
    ensures Override(At(items, path), Blocked(items, path), At([], path)) == At(items, path)
    ensures Override(At([], path), Blocked([], path), At(items, path)) == At(items, path)
  {
  }
}
