/** The line loop of `getSchemaFieldInfo`, which reads a FlatBuffers `.fbs` schema into a
    table name and the `(name, type)` pairs of its table bodies. */
module Schema {
  import opened Wrappers
  import opened PyStr
  import opened LogModel

  /** The loop variables: inside a body or not, the last table name seen, the pairs so far. */
  datatype ScanState = ScanState(inTable: bool, tableName: string, fields: seq<SchemaEntry>)

  const Start := ScanState(false, "", [])

  /** One iteration of the loop over the schema's lines. */
  function SchemaStep(st: ScanState, line: string): (r: Result<ScanState, Crash>)
    // pairs are only ever appended, at most one per line
    ensures r.Ok? ==> st.fields <= r.value.fields && |r.value.fields| <= |st.fields| + 1
    // a pair is only read inside a body, and the line does not change the body state
    ensures r.Ok? && |r.value.fields| == |st.fields| + 1 ==> st.inTable && r.value.inTable
    // a commented body line is dropped, even when it also holds `}`
    ensures st.inTable && !Contains(line, "table") && Contains(line, "//") ==> r == Ok(st)
    // a `table` line opens a body only when `{` is a token of its own
    ensures Contains(line, "table") && r.Ok? && r.value.inTable ==>
              !st.inTable && "{" in Split(Strip(line), ' ')
    // only a `table` line renames the table
    ensures r.Ok? && r.value.tableName != st.tableName ==> Contains(line, "table")
  {
    if Contains(line, "table") then
      var toks := Split(Strip(line), ' ');
      var k := IndexOf(toks, "table");
      if k == -1 then Err(TableKeywordNotToken(line))
      else if k + 1 >= |toks| then Err(TableNameMissing(line))
      else
        var named := st.(tableName := toks[k + 1]);
        if !st.inTable && "{" in toks then Ok(named.(inTable := true))
        else if st.inTable then Err(TableLineInBody(line))
        else Ok(named)
    else if !st.inTable && Contains(line, "{") then Ok(st.(inTable := true))
    else if !st.inTable then Ok(st)
    else
      var body := Strip(line);
      assert Contains(line, "//") ==> Contains(body, "//") by { StripKeepsToken(line, "//"); }
      if Contains(body, "//") then Ok(st)
      else if Contains(body, "}") then Ok(st.(inTable := false))
      else if body == "" then Ok(st)
      else
        var parts := Split(RStrip(body, Is(';')), ':');
        if |parts| < 2 then Err(SchemaFieldWithoutColon(line))
        else Ok(st.(fields := st.fields + [SchemaEntry(parts[0], parts[1])]))
  }

  /** In a body, a line that, stripped, holds `}` but no `//` closes the body. */
  lemma BodyCloseStep(st: ScanState, line: string)
    requires st.inTable && !Contains(line, "table")
    requires !Contains(Strip(line), "//") && Contains(Strip(line), "}")
    ensures SchemaStep(st, line) == Ok(st.(inTable := false))
  {
  }

  /** Any other non-blank body line is the pair around its first `:` once `;` is stripped off
      its end; a line without `:` raises. */
  lemma BodyPairStep(st: ScanState, line: string)
    requires st.inTable && !Contains(line, "table") && Strip(line) != ""
    requires !Contains(Strip(line), "//") && !Contains(Strip(line), "}")
    ensures var core := RStrip(Strip(line), Is(';'));
            var parts := Split(core, ':');
            && (':' !in core ==> SchemaStep(st, line) == Err(SchemaFieldWithoutColon(line)))
            && (':' in core ==> |parts| >= 2 && SchemaStep(st, line) == Ok(st.(fields := st.fields + [SchemaEntry(parts[0], parts[1])])))
  {
    SplitSeparated(RStrip(Strip(line), Is(';')), ':');
  }

  /** Stripping white space keeps every occurrence of a token without white space in it. */
  lemma StripKeepsToken(line: string, tok: string)
    requires forall c :: c in tok ==> !IsSpace(c)
    requires |tok| > 0
    ensures Contains(line, tok) ==> Contains(Strip(line), tok)
  {
    if Contains(line, tok) {
      var pad, tail := StripParts(line);
      assert tok[0] in tok && tok[|tok| - 1] in tok;
      ContainsWithin(pad, Strip(line), tail, tok);
    }
  }

  /** The whole loop, from a given state. */
  function SchemaScan(st: ScanState, lines: seq<string>): Result<ScanState, Crash>
    decreases |lines|
  {
    if |lines| == 0 then Ok(st)
    else
      var next :- SchemaStep(st, lines[0]);
      SchemaScan(next, lines[1..])
  }

  /** Scanning two blocks of lines is scanning the first and then the second from where it ended. */
  lemma {:induction false} SchemaScanAppend(st: ScanState, a: seq<string>, b: seq<string>)
    ensures SchemaScan(st, a + b) ==
              (match SchemaScan(st, a)
               case Ok(mid) => SchemaScan(mid, b)
               case Err(e) => Err(e))
    decreases |a|
  {
    if |a| > 0 {
      assert (a + b)[0] == a[0];
      assert (a + b)[1..] == a[1..] + b;
      match SchemaStep(st, a[0])
      case Ok(next) => SchemaScanAppend(next, a[1..], b);
      case Err(_) =>
    } else {
      assert a + b == b;
    }
  }

  /** `getSchemaFieldInfo`: `("", ())` when there is no schema file, else the last table
      name and every body pair in file order. */
  function GetSchemaFieldInfo(file: Option<seq<string>>): (r: Result<(string, seq<SchemaEntry>), Crash>)
    ensures file.None? ==> r == Ok(("", []))
  {
    match file
    case None => Ok(("", []))
    case Some(lines) =>
      var st :- SchemaScan(Start, lines);
      Ok((st.tableName, st.fields))
  }

  // ---------------------------------------------------------------------------
  // A table written out as `table <name> {`, `<field>:<type>;` lines and `}`, each line
  // ending in white space such as the newline `readlines` keeps and the pair lines indented,
  // reads back as its name and its pairs.

  function TableLine(name: string): string {
    "table " + name + " {"
  }

  function EntryLine(e: SchemaEntry): string {
    e.name + ":" + e.fbsType + ";"
  }

  /** The pair lines of a body, each indented by `indent` and ended by `nl`. */
  function EntryLines(es: seq<SchemaEntry>, indent: string, nl: string): seq<string> {
    if |es| == 0 then [] else [indent + EntryLine(es[0]) + nl] + EntryLines(es[1..], indent, nl)
  }

  /** A whole table; `TableLines(name, es, "", "")` is the table without indentation or newlines. */
  function TableLines(name: string, es: seq<SchemaEntry>, indent: string, nl: string): seq<string> {
    [TableLine(name) + nl] + EntryLines(es, indent, nl) + ["}" + nl]
  }

  /** A table name with no space in it. */
  predicate PlainTableName(name: string) {
    ' ' !in name
  }

  /** A pair whose line the loop reads back unchanged: no `:` in either half, nothing for
      `strip` or `rstrip(";")` to remove, and none of `table`, `//`, `}` in the line. */
  predicate PlainEntry(e: SchemaEntry) {
    && ':' !in e.name && ':' !in e.fbsType
    && (|e.name| == 0 || !IsSpace(e.name[0]))
    && (|e.fbsType| == 0 || e.fbsType[|e.fbsType| - 1] != ';')
    && !Contains(EntryLine(e), "table")
    && !Contains(EntryLine(e), "//")
    && !Contains(EntryLine(e), "}")
  }

  lemma TableLineStep(st: ScanState, name: string, nl: string)
    requires !st.inTable && PlainTableName(name) && AllSpace(nl)
    ensures SchemaStep(st, TableLine(name) + nl) == Ok(ScanState(true, name, st.fields))
  {
    var line := TableLine(name) + nl;
    var toks := Split(Strip(line), ' ');
    TableLineRead(name, nl);
    assert toks[0] == "table" && toks[1] == name && toks[2] == "{";
    assert IndexOf(toks, "table") == 0;
    assert "{" in toks;
  }

  /** A `table` line ended by white space holds `table`, and its stripped tokens are the
      keyword, the name and `{`. */
  lemma TableLineRead(name: string, nl: string)
    requires PlainTableName(name) && AllSpace(nl)
    ensures Contains(TableLine(name) + nl, "table")
    ensures Split(Strip(TableLine(name) + nl), ' ') == ["table", name, "{"]
  {
    var head := TableLine(name);
    var line := head + nl;
    assert OccursAt(line, "table", 0) by {
      assert line[..5] == head[..5] == "table";
    }
    StripPadded("", head, nl);
    assert "" + head + nl == line;
    TableLineSplit(name);
  }

  lemma TableLineSplit(name: string)
    requires PlainTableName(name)
    ensures Split(TableLine(name), ' ') == ["table", name, "{"]
  {
    var toks := ["table", name, "{"];
    assert Join(toks[2..], " ") == "{";
    assert Join(toks[1..], " ") == name + " " + "{";
    assert Join(toks, " ") == TableLine(name);
    SplitJoin(toks, ' ');
  }

  /** With its `;` taken off, an entry line splits at `:` into the name and the type. */
  lemma EntryLineFields(e: SchemaEntry)
    requires PlainEntry(e)
    ensures Split(RStrip(EntryLine(e), Is(';')), ':') == [e.name, e.fbsType]
  {
    var line := EntryLine(e);
    var core := e.name + ":" + e.fbsType;
    assert RStrip(line, Is(';')) == core by {
      assert line == core + ";";
      assert core[|core| - 1] != ';';
      assert line[..|line| - 1] == core;
    }
    assert Join([e.name, e.fbsType], ":") == core;
    SplitJoin([e.name, e.fbsType], ':');
  }

  /** An entry line as `readlines` yields it, indented and ending in a newline or other white
      space, adds its pair just as the bare line does. */
  lemma IndentedEntryLineStep(st: ScanState, e: SchemaEntry, pad: string, tail: string)
    requires st.inTable && PlainEntry(e)
    requires AllSpace(pad) && AllSpace(tail)
    ensures SchemaStep(st, pad + EntryLine(e) + tail) == Ok(st.(fields := st.fields + [e]))
  {
    var line := pad + EntryLine(e) + tail;
    IndentedEntryLine(e, pad, tail);
    EntryLineFields(e);
    SplitSeparated(RStrip(EntryLine(e), Is(';')), ':');
    BodyPairStep(st, line);
  }

  /** Stripped, an indented entry line is the entry line, and the padding adds no `table`. */
  lemma IndentedEntryLine(e: SchemaEntry, pad: string, tail: string)
    requires PlainEntry(e)
    requires AllSpace(pad) && AllSpace(tail)
    ensures Strip(pad + EntryLine(e) + tail) == EntryLine(e)
    ensures !Contains(pad + EntryLine(e) + tail, "table")
  {
    var entry := EntryLine(e);
    assert entry[|entry| - 1] == ';';
    assert entry[0] == (if |e.name| > 0 then e.name[0] else ':');
    StripPadded(pad, entry, tail);
    if Contains(pad + entry + tail, "table") {
      ContainsWithin(pad, entry, tail, "table");
    }
  }

  lemma CloseLineStep(st: ScanState, nl: string)
    requires st.inTable && AllSpace(nl)
    ensures SchemaStep(st, "}" + nl) == Ok(st.(inTable := false))
  {
    var line := "}" + nl;
    assert Strip(line) == "}" by {
      StripPadded("", "}", nl);
      assert "" + "}" + nl == line;
    }
    if Contains(line, "table") {
      assert "" + "}" + nl == line;
      ContainsWithin("", "}", nl, "table");
      assert false;
    }
    assert Contains("}", "}") by { assert OccursAt("}", "}", 0); }
    BodyCloseStep(st, line);
  }

  lemma AppendFirst<T>(a: seq<T>, b: seq<T>)
    requires |b| > 0
    ensures a + [b[0]] + b[1..] == a + b
  {
  }

  lemma EntryLinesCons(st: ScanState, es: seq<SchemaEntry>, indent: string, nl: string)
    requires st.inTable && |es| > 0 && PlainEntry(es[0]) && AllSpace(indent) && AllSpace(nl)
    ensures SchemaScan(st, EntryLines(es, indent, nl)) ==
              SchemaScan(st.(fields := st.fields + [es[0]]), EntryLines(es[1..], indent, nl))
  {
    var lines := EntryLines(es, indent, nl);
    IndentedEntryLineStep(st, es[0], indent, nl);
    assert lines[0] == indent + EntryLine(es[0]) + nl;
    assert lines[1..] == EntryLines(es[1..], indent, nl);
  }

  lemma {:induction false} EntryLinesScan(st: ScanState, es: seq<SchemaEntry>, indent: string, nl: string)
    requires st.inTable && AllSpace(indent) && AllSpace(nl)
    requires forall i :: 0 <= i < |es| ==> PlainEntry(es[i])
    ensures SchemaScan(st, EntryLines(es, indent, nl)) == Ok(st.(fields := st.fields + es))
    decreases |es|
  {
    if |es| > 0 {
      var next := st.(fields := st.fields + [es[0]]);
      EntryLinesCons(st, es, indent, nl);
      assert forall i :: 0 <= i < |es[1..]| ==> PlainEntry(es[1..][i]);
      EntryLinesScan(next, es[1..], indent, nl);
      AppendFirst(st.fields, es);
    } else {
      assert st.fields + es == st.fields;
    }
  }

  /** A table reads back as its name and its pairs, appended to those read so far, however
      its pair lines are indented and whatever white space ends its lines. */
  lemma TableRoundTrip(st: ScanState, name: string, es: seq<SchemaEntry>, indent: string, nl: string)
    requires !st.inTable && PlainTableName(name) && AllSpace(indent) && AllSpace(nl)
    requires forall i :: 0 <= i < |es| ==> PlainEntry(es[i])
    ensures SchemaScan(st, TableLines(name, es, indent, nl)) == Ok(ScanState(false, name, st.fields + es))
  {
    var open := ScanState(true, name, st.fields);
    var head := TableLine(name) + nl;
    var body := EntryLines(es, indent, nl);
    TableLineStep(st, name, nl);
    assert TableLines(name, es, indent, nl) == [head] + (body + ["}" + nl]);
    SchemaScanAppend(st, [head], body + ["}" + nl]);
    assert SchemaScan(st, [head]) == Ok(open) by {
      assert [head][1..] == [];
    }
    SchemaScanAppend(open, body, ["}" + nl]);
    EntryLinesScan(open, es, indent, nl);
    CloseLineStep(open.(fields := st.fields + es), nl);
    assert ["}" + nl][1..] == [];
  }

  /** Two tables in one file are not nested or flattened: their pairs are concatenated in
      file order and the table name is the one on the last `table` line. */
  lemma TwoTablesConcatenate(n1: string, e1: seq<SchemaEntry>, n2: string, e2: seq<SchemaEntry>,
                             indent: string, nl: string)
    requires PlainTableName(n1) && PlainTableName(n2) && AllSpace(indent) && AllSpace(nl)
    requires forall i :: 0 <= i < |e1| ==> PlainEntry(e1[i])
    requires forall i :: 0 <= i < |e2| ==> PlainEntry(e2[i])
    ensures GetSchemaFieldInfo(Some(TableLines(n1, e1, indent, nl) + TableLines(n2, e2, indent, nl))) == Ok((n2, e1 + e2))
  {
    var t1 := TableLines(n1, e1, indent, nl);
    var t2 := TableLines(n2, e2, indent, nl);
    var mid := ScanState(false, n1, e1);
    TableRoundTrip(Start, n1, e1, indent, nl);
    assert Start.fields + e1 == e1;
    TableRoundTrip(mid, n2, e2, indent, nl);
    SchemaScanAppend(Start, t1, t2);
    ScanGivesInfo(t1 + t2, ScanState(false, n2, e1 + e2));
  }

  /** A file whose scan ends in `st` reads as the last table name and the pairs of `st`. */
  lemma ScanGivesInfo(lines: seq<string>, st: ScanState)
    requires SchemaScan(Start, lines) == Ok(st)
    ensures GetSchemaFieldInfo(Some(lines)) == Ok((st.tableName, st.fields))
  {
  }
}
