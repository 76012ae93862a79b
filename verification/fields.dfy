/** The fields of the `messageT(...)` constructors of a log-type header: `getTypeAndName`
    and `getMessageFieldInfo`, with the schema alignment and the type check they perform. */
module Fields {
  import opened Wrappers
  import opened PyStr
  import opened LogModel
  import opened Correspond
  import opened Values

  // ---------------------------------------------------------------------------
  // One declaration: `[const] <type> [& | *] <name>[,][)]` split on single spaces.

  /** `getTypeAndName`: the type token after an optional `const`, with ` *` appended when a
      lone `*` follows it, and the token after that with trailing `)` and then `,` removed.
      Indexing past the tokens raises. */
  function GetTypeAndName(toks: seq<string>): (r: Result<(string, string), Crash>)
    ensures r.Ok? ==> |r.value.1| == 0 || r.value.1[|r.value.1| - 1] != ','
    ensures r.Err? ==> r.error == DeclarationTooShort(toks)
    ensures r.Err? <==> |toks| <= NameIndex(toks)
    ensures r.Ok? ==> r.value.1 == RStrip(RStrip(toks[NameIndex(toks)], Is(')')), Is(','))
  {
    if |toks| == 0 then Err(DeclarationTooShort(toks))
    else
      var q := if toks[0] == "const" then 1 else 0;
      if q + 1 >= |toks| then Err(DeclarationTooShort(toks))
      else
        var marker := toks[q + 1];
        var cType := if marker == "*" then toks[q] + " " + marker else toks[q];
        var nameIdx := if marker == "&" || marker == "*" then q + 2 else q + 1;
        if nameIdx >= |toks| then Err(DeclarationTooShort(toks))
        else Ok((cType, RStrip(RStrip(toks[nameIdx], Is(')')), Is(','))))
  }

  /** Where `getTypeAndName` looks for the name: after the type, which follows an optional
      leading `const`, and after a lone `&` or `*` when one follows the type. */
  function NameIndex(toks: seq<string>): nat {
    var q := if |toks| > 0 && toks[0] == "const" then 1 else 0;
    if q + 1 < |toks| && (toks[q + 1] == "&" || toks[q + 1] == "*") then q + 2 else q + 1
  }

  /** How a declared parameter is passed. */
  datatype Passing = ByValue | ByReference | ByPointer

  /** A constructor parameter as written: `commas` and `parens` count the `,` and `)` that follow
      the name on its token. */
  datatype Decl = Decl(isConst: bool, cType: string, passing: Passing, name: string, commas: nat, parens: nat)

  function Repeat(c: char, n: nat): (r: string)
    ensures |r| == n && forall i :: 0 <= i < n ==> r[i] == c
  {
    seq(n, i => c)
  }

  /** The tokens of a declaration: commas come before closing parentheses on the name token. */
  function DeclTokens(d: Decl): seq<string> {
    Lead(d.isConst) + [d.cType] + Marker(d.passing) + [NameToken(d)]
  }

  function Lead(isConst: bool): seq<string> {
    if isConst then ["const"] else []
  }

  function Marker(p: Passing): seq<string> {
    match p
    case ByValue => []
    case ByReference => ["&"]
    case ByPointer => ["*"]
  }

  function NameToken(d: Decl): string {
    d.name + Repeat(',', d.commas) + Repeat(')', d.parens)
  }

  /** A declaration `getTypeAndName` reads back: a non-`const` type when `const` is absent,
      a name token that is not itself `&` or `*`, and a name that does not end in `,` or `)`. */
  predicate WellFormedDecl(d: Decl) {
    && (!d.isConst ==> d.cType != "const")
    && (d.passing == ByValue ==> NameToken(d) != "&" && NameToken(d) != "*")
    && (|d.name| == 0 || (d.name[|d.name| - 1] != ',' && d.name[|d.name| - 1] != ')'))
  }

  /** The type `getTypeAndName` reports: a pointer keeps its `*`, a reference drops its `&`. */
  function DeclType(d: Decl): string {
    if d.passing == ByPointer then d.cType + " *" else d.cType
  }

  /** `rstrip(c)` removes exactly the run of `c` appended to a text not ending in `c`. */
  lemma RStripRun(prefix: string, c: char, n: nat)
    requires |prefix| == 0 || prefix[|prefix| - 1] != c
    ensures RStrip(prefix + Repeat(c, n), Is(c)) == prefix
  {
    var s := prefix + Repeat(c, n);
    var r := RStrip(s, Is(c));
    assert |r| >= |prefix| by {
      if |prefix| > 0 {
        assert s[|prefix| - 1] == prefix[|prefix| - 1];
      }
    }
  }

  lemma StripSuffixes(name: string, commas: nat, parens: nat)
    requires |name| == 0 || (name[|name| - 1] != ',' && name[|name| - 1] != ')')
    ensures RStrip(RStrip(name + Repeat(',', commas) + Repeat(')', parens), Is(')')), Is(',')) == name
  {
    var withCommas := name + Repeat(',', commas);
    LastOfRun(name, ',', commas, ')');
    RStripRun(withCommas, ')', parens);
    RStripRun(name, ',', commas);
  }

  lemma LastOfRun(prefix: string, c: char, n: nat, d: char)
    requires c != d && (|prefix| == 0 || prefix[|prefix| - 1] != d)
    ensures var s := prefix + Repeat(c, n); |s| == 0 || s[|s| - 1] != d
  {
    var s := prefix + Repeat(c, n);
    if n > 0 {
      assert s[|s| - 1] == c;
    } else {
      assert s == prefix;
    }
  }

  /** Every well-formed declaration reads back as its type and its bare name. */
  lemma TypeAndNameRoundTrip(d: Decl)
    requires WellFormedDecl(d)
    ensures GetTypeAndName(DeclTokens(d)) == Ok((DeclType(d), d.name))
  {
    StripSuffixes(d.name, d.commas, d.parens);
    TokensRead(d.isConst, d.cType, d.passing, NameToken(d), []);
    assert DeclTokens(d) + [] == DeclTokens(d);
  }

  /** A declaration cut off before its name raises, whatever its type and marker. */
  lemma NamelessDeclRaises(isConst: bool, cType: string, p: Passing)
    ensures GetTypeAndName(Lead(isConst) + [cType] + Marker(p)) == Err(DeclarationTooShort(Lead(isConst) + [cType] + Marker(p)))
  {
    var toks := Lead(isConst) + [cType] + Marker(p);
    assert |toks| <= NameIndex(toks) by {
      if isConst {
        assert toks[0] == "const";
      }
      if p != ByValue {
        assert toks[|toks| - 1] == Marker(p)[0];
      }
    }
  }

  /** The parameter `const std::string & msg )` of a one-field constructor, split on spaces. */
  lemma ConstReferenceExample()
    ensures GetTypeAndName(["const", "std::string", "&", "msg", ")"]) == Ok(("std::string", "msg"))
  {
    TokensRead(true, "std::string", ByReference, "msg", [")"]);
    ConstReferenceTokens();
    assert RStrip("msg", Is(')')) == "msg";
    assert RStrip("msg", Is(',')) == "msg";
  }

  lemma ConstReferenceTokens()
    ensures Lead(true) + ["std::string"] + Marker(ByReference) + ["msg"] + [")"] == ["const", "std::string", "&", "msg", ")"]
  {
    assert Lead(true) == ["const"] && Marker(ByReference) == ["&"];
  }

  /** The tokens `[const] <type> [marker] <name token>` read back as the type, extended by
      ` *` for a pointer, and the name token without its trailing `)` and `,`, whatever tokens
      follow the name token. */
  lemma TokensRead(isConst: bool, cType: string, p: Passing, nameTok: string, extra: seq<string>)
    requires !isConst ==> cType != "const"
    requires p == ByValue ==> nameTok != "&" && nameTok != "*"
    ensures GetTypeAndName(Lead(isConst) + [cType] + Marker(p) + [nameTok] + extra)
            == Ok((if p == ByPointer then cType + " *" else cType, RStrip(RStrip(nameTok, Is(')')), Is(','))))
  {
    if p == ByValue {
      UnmarkedRead(isConst, cType, nameTok, extra);
    } else {
      var m := if p == ByPointer then "*" else "&";
      Regroup(Lead(isConst), cType, m, nameTok, extra);
      MarkedRead(isConst, cType, m, nameTok, extra);
      PointerSpelling(cType);
    }
  }

  lemma Regroup(lead: seq<string>, a: string, b: string, c: string, extra: seq<string>)
    ensures lead + [a] + [b] + [c] + extra == lead + [a, b, c] + extra
  {
  }

  lemma UnmarkedRead(isConst: bool, cType: string, nameTok: string, extra: seq<string>)
    requires !isConst ==> cType != "const"
    requires nameTok != "&" && nameTok != "*"
    ensures GetTypeAndName(Lead(isConst) + [cType] + Marker(ByValue) + [nameTok] + extra)
            == Ok((cType, RStrip(RStrip(nameTok, Is(')')), Is(','))))
  {
    var toks := Lead(isConst) + [cType] + Marker(ByValue) + [nameTok] + extra;
    var q := if isConst then 1 else 0;
    assert toks[0] == (if isConst then "const" else cType);
    assert toks[q] == cType && toks[q + 1] == nameTok;
  }

  lemma MarkedRead(isConst: bool, cType: string, m: string, nameTok: string, extra: seq<string>)
    requires !isConst ==> cType != "const"
    requires m == "&" || m == "*"
    ensures GetTypeAndName(Lead(isConst) + [cType, m, nameTok] + extra)
            == Ok((if m == "*" then cType + " " + m else cType, RStrip(RStrip(nameTok, Is(')')), Is(','))))
  {
    var toks := Lead(isConst) + [cType, m, nameTok] + extra;
    var q := if isConst then 1 else 0;
    assert toks[0] == (if isConst then "const" else cType);
    assert toks[q] == cType && toks[q + 1] == m && toks[q + 2] == nameTok;
  }

  lemma PointerSpelling(t: string)
    ensures t + " " + "*" == t + " *"
  {
    assert " " + "*" == " *";
  }

  // ---------------------------------------------------------------------------
  // The element type of a `std::vector<...>` field.

  /** A text that contains a separator-free `sub` has a piece, once split, that contains it. */
  lemma {:induction false} SplitKeepsToken(s: string, sep: char, sub: string)
    requires |sub| > 0 && sep !in sub && Contains(s, sub)
    ensures exists k :: 0 <= k < |Split(s, sep)| && Contains(Split(s, sep)[k], sub)
    decreases |s|
  {
    var i :| 0 <= i <= |s| - |sub| && OccursAt(s, sub, i);
    if i == 0 {
      assert s == sub + s[|sub|..];
      SplitPrefix(sub, s[|sub|..], sep);
      assert OccursAt(Split(s, sep)[0], sub, 0);
      assert Contains(Split(s, sep)[0], sub);
    } else {
      assert OccursAt(s[1..], sub, i - 1) by {
        assert s[1..][i - 1..i - 1 + |sub|] == s[i..i + |sub|];
      }
      SplitKeepsToken(s[1..], sep, sub);
      var rest := Split(s[1..], sep);
      var k :| 0 <= k < |rest| && Contains(rest[k], sub);
      var w := SplitKeepsPiece(s, sep, sub, k);
      assert Contains(Split(s, sep)[w], sub);
    }
  }

  /** A piece of the split of `s[1..]` that contains `sub` lives on in a piece of the split
      of `s`. */
  lemma SplitKeepsPiece(s: string, sep: char, sub: string, k: nat) returns (w: nat)
    requires |s| > 0 && k < |Split(s[1..], sep)| && Contains(Split(s[1..], sep)[k], sub)
    ensures w < |Split(s, sep)| && Contains(Split(s, sep)[w], sub)
  {
    var rest := Split(s[1..], sep);
    if s[0] == sep {
      w := k + 1;
      assert Split(s, sep) == [""] + rest;
    } else if k == 0 {
      w := 0;
      ContainsAfter([s[0]], rest[0], sub);
      assert Split(s, sep)[0] == [s[0]] + rest[0];
    } else {
      w := k;
      assert Split(s, sep) == [[s[0]] + rest[0]] + rest[1..];
    }
  }

  lemma ContainsBefore(a: string, b: string, sub: string)
    requires Contains(a, sub)
    ensures Contains(a + b, sub)
  {
    var i :| 0 <= i <= |a| - |sub| && OccursAt(a, sub, i);
    assert (a + b)[i..i + |sub|] == a[i..i + |sub|];
    assert OccursAt(a + b, sub, i);
  }

  lemma ContainsAfter(a: string, b: string, sub: string)
    requires Contains(b, sub)
    ensures Contains(a + b, sub)
  {
    var i :| 0 <= i <= |b| - |sub| && OccursAt(b, sub, i);
    assert (a + b)[|a| + i..|a| + i + |sub|] == b[i..i + |sub|];
    assert OccursAt(a + b, sub, |a| + i);
  }

  /** The first piece that contains `sub`. */
  function FirstWith(pieces: seq<string>, sub: string): (r: nat)
    requires exists k :: 0 <= k < |pieces| && Contains(pieces[k], sub)
    ensures r < |pieces| && Contains(pieces[r], sub)
    ensures forall k :: 0 <= k < r ==> !Contains(pieces[k], sub)
  {
    if Contains(pieces[0], sub) then 0
    else
      assert exists k :: 0 <= k < |pieces[1..]| && Contains(pieces[1..][k], sub) by {
        var k :| 0 <= k < |pieces| && Contains(pieces[k], sub);
        assert pieces[1..][k - 1] == pieces[k];
      }
      1 + FirstWith(pieces[1..], sub)
  }

  /** The `vectorType` of a field whose type names `std::vector`: the `<`-piece after the first
      piece naming `std::vector`, with `>` stripped from both ends. */
  function VectorElementType(t: string): (r: Result<string, Crash>)
    requires Contains(t, "std::vector")
    ensures r.Ok? ==> |r.value| == 0 || (r.value[0] != '>' && r.value[|r.value| - 1] != '>')
    ensures r.Ok? ==> '<' !in r.value
    ensures r.Err? ==> r.error == VectorWithoutArgument(t)
    ensures r.Err? <==> forall k :: 0 <= k < |Split(t, '<')| - 1 ==> !Contains(Split(t, '<')[k], "std::vector")
  {
    var pieces := Split(t, '<');
    SplitPieces(t, '<');
    SplitKeepsToken(t, '<', "std::vector");
    var k := FirstWith(pieces, "std::vector");
    if k + 1 >= |pieces| then Err(VectorWithoutArgument(t))
    else
      StripWhereKeepsOut(pieces[k + 1], Is('>'), '<');
      Ok(StripWhere(pieces[k + 1], Is('>')))
  }

  /** A plainly written vector type `<prefix><<element>>` yields its element type. */
  lemma VectorTypeRoundTrip(prefix: string, elem: string)
    requires '<' !in prefix && Contains(prefix, "std::vector")
    requires '<' !in elem && |elem| > 0 && elem[0] != '>' && elem[|elem| - 1] != '>'
    ensures Contains(prefix + "<" + elem + ">", "std::vector")
            && VectorElementType(prefix + "<" + elem + ">") == Ok(elem)
  {
    var t := prefix + "<" + elem + ">";
    assert t == prefix + ("<" + elem + ">");
    ContainsBefore(prefix, "<" + elem + ">", "std::vector");
    assert Split(t, '<') == [prefix, elem + ">"] by {
      assert Join([prefix, elem + ">"], "<") == t;
      SplitJoin([prefix, elem + ">"], '<');
    }
    var closed := elem + ">";
    assert LStrip(closed, Is('>')) == closed;
    assert RStrip(closed, Is('>')) == elem by {
      assert closed[..|closed| - 1] == elem;
    }
  }

  // ---------------------------------------------------------------------------
  // One line of a `messageT(...)` block.

  /** What the closing-parenthesis check decides for a line. */
  datatype LineKind =
    | Continuing  // no `)`, or only one inside a comment: parse and go on
    | Closing     // a `)` that closes the block: parse this line, then stop
    | Finished    // nothing but `)` after white space: stop without parsing

  function KindOf(line: string): (r: LineKind)
    ensures !Contains(line, ")") ==> r == Continuing
    ensures r == Finished ==> Contains(line, ")") && forall c :: c in Strip(line) ==> c == ')'
  {
    if !Contains(line, ")") then Continuing
    else if Contains(line, "//") && Find(line, ")") > Find(line, "//") then Continuing
    else if StripWhere(Strip(line), Is(')')) == "" then
      StripWhereEmpty(Strip(line), Is(')'));
      Finished
    else Closing
  }

  /** A `)` that only appears after `//` leaves the block open. */
  lemma CommentedParenContinues(code: string, comment: string)
    requires '/' !in code && ')' !in code && Contains(comment, ")")
    ensures KindOf(code + "//" + comment) == Continuing
  {
    var line := code + "//" + comment;
    assert line[..|code|] == code;
    assert OccursAt(line, "//", |code|);
    FirstOccurrence(line, "//", |code|);
    var i :| 0 <= i <= |comment| - 1 && OccursAt(comment, ")", i);
    var at := |code| + 2 + i;
    assert comment[i..i + 1] == ")" && comment[i] == ')';
    assert line[at] == ')';
    assert line[at..at + 1] == [line[at]];
    assert OccursAt(line, ")", at);
    NoParenBefore(code, comment);
  }

  lemma NoParenBefore(code: string, comment: string)
    requires ')' !in code
    ensures forall j :: 0 <= j < |code| + 2 ==> !OccursAt(code + "//" + comment, ")", j)
  {
    var line := code + "//" + comment;
    forall j | 0 <= j < |code| + 2 ensures !OccursAt(line, ")", j) {
      assert j + 1 <= |line|;
      assert line[j..j + 1][0] == line[j];
      if j < |code| {
        assert line[j] == code[j];
        assert code[j] in code;
      } else {
        assert line[j] == '/';
      }
    }
  }

  /** A line of nothing but `)`, however indented and whatever white space ends it, ends
      the block without contributing a field. */
  lemma BareParenFinishes(pad: string, n: nat, tail: string)
    requires n >= 1 && AllSpace(pad) && AllSpace(tail)
    ensures KindOf(pad + Repeat(')', n) + tail) == Finished
  {
    var parens := Repeat(')', n);
    var line := pad + parens + tail;
    assert line[|pad|..|pad| + 1] == [parens[0]] == ")";
    assert OccursAt(line, ")", |pad|);
    assert '/' !in pad && '/' !in parens && '/' !in tail;
    MissingFirstChar(line, "//");
    StripPadded(pad, parens, tail);
    var l := LStrip(parens, Is(')'));
  }

  const Opening := "messageT("

  /** The part of a line holding declarations: after `messageT(` when present, before `//`
      when present, empty when the comment starts first. */
  function Segment(line: string): (r: string)
    ensures |r| <= |line|
    ensures !Contains(line, Opening) && !Contains(line, "//") ==> r == line
    // everything after the first `messageT(` is kept when there is no comment
    ensures Contains(line, Opening) && !Contains(line, "//") ==>
              line == line[..Find(line, Opening) + |Opening|] + r
    // everything before the first `//` is kept when there is no `messageT(`
    ensures !Contains(line, Opening) && Contains(line, "//") ==> line == r + line[Find(line, "//")..]
    // with both, the text between them is kept, and nothing when the comment starts first
    ensures Contains(line, Opening) && Contains(line, "//") ==>
              if Find(line, Opening) + |Opening| <= Find(line, "//")
              then line == line[..Find(line, Opening) + |Opening|] + r + line[Find(line, "//")..]
              else r == ""
  {
    var start := if Contains(line, Opening) then Find(line, Opening) + |Opening| else 0;
    var end := if Contains(line, "//") then Find(line, "//") else |line|;
    Slice(line, start, end)
  }

  /** `[part.strip().split(" ") for part in segment.strip().rstrip(",").split(",")]` */
  function Declarations(segment: string): (r: seq<seq<string>>)
    ensures |r| >= 1
    ensures forall j :: 0 <= j < |r| ==> |r[j]| >= 1
  {
    var parts := Split(RStrip(Strip(segment), Is(',')), ',');
    seq(|parts|, j requires 0 <= j < |parts| => Split(Strip(parts[j]), ' '))
  }

  // ---------------------------------------------------------------------------
  // Fields, their schema entries and the mismatch diagnostics.

  /** The schema entry the field counted `k` in a block is paired with. */
  function SchemaAt(schema: seq<SchemaEntry>, k: nat): Option<SchemaEntry> {
    if |schema| == 0 || k >= |schema| then None else Some(schema[k])
  }

  /** The diagnostic for a field, if its schema type and native type do not correspond. */
  function MismatchOf(f: FieldShape): (r: Option<Mismatch>)
    ensures r.Some? <==> f.schema.Some? && !TypesCorrespond(f.schema.value.fbsType, f.nativeType)
    ensures r.Some? ==> r.value == Mismatch(f.name, f.schema.value.fbsType, f.nativeType)
  {
    match f.schema
    case None => None
    case Some(e) => if TypesCorrespond(e.fbsType, f.nativeType) then None else Some(Mismatch(f.name, e.fbsType, f.nativeType))
  }

  function Diagnostics(m: Option<Mismatch>): seq<Mismatch> {
    match m
    case None => []
    case Some(x) => [x]
  }

  /** The diagnostics a list of fields gives rise to, in field order. */
  function MismatchesOf(fs: seq<FieldShape>): seq<Mismatch>
    decreases |fs|
  {
    if |fs| == 0 then [] else Diagnostics(MismatchOf(fs[0])) + MismatchesOf(fs[1..])
  }

  lemma {:induction false} MismatchesOfAppend(a: seq<FieldShape>, b: seq<FieldShape>)
    ensures MismatchesOf(a + b) == MismatchesOf(a) + MismatchesOf(b)
    decreases |a|
  {
    if |a| == 0 {
      assert a + b == b;
    } else {
      assert (a + b)[0] == a[0];
      assert (a + b)[1..] == a[1..] + b;
      MismatchesOfAppend(a[1..], b);
    }
  }

  /** A declaration read from its text alone: its type, name, element type and what
      `makeTestVal` will do for it. */
  datatype DeclRead = DeclRead(nativeType: string, name: string, vectorType: Option<string>, value: ValueKind)

  /** The part of reading a declaration that depends on its tokens only: type and name, then
      the element type of a `std::vector`, in the order the code reads them. */
  function ReadDeclTokens(toks: seq<string>): (r: Result<DeclRead, Crash>)
    ensures r.Ok? ==> GetTypeAndName(toks) == Ok((r.value.nativeType, r.value.name))
    ensures r.Ok? ==> (r.value.vectorType.Some? <==> Contains(r.value.nativeType, "std::vector"))
    ensures r.Ok? && r.value.vectorType.Some? ==> VectorElementType(r.value.nativeType) == Ok(r.value.vectorType.value)
    ensures r.Ok? ==> Consistent(r.value)
    ensures r.Err? <==> GetTypeAndName(toks).Err?
                        || (Contains(GetTypeAndName(toks).value.0, "std::vector") && VectorElementType(GetTypeAndName(toks).value.0).Err?)
  {
    var tn :- GetTypeAndName(toks);
    var (cType, name) := tn;
    var vectorType :- if Contains(cType, "std::vector") then
                        var e :- VectorElementType(cType); Ok(Some(e))
                      else Ok(None);
    Ok(DeclRead(cType, name, vectorType, ValueKindOf(cType, vectorType)))
  }

  /** The test value a declaration read gets is decided by its own types. */
  ghost predicate Consistent(d: DeclRead) {
    d.value == ValueKindOf(d.nativeType, d.vectorType)
  }

  ghost predicate AllConsistent(items: seq<Result<DeclRead, Crash>>) {
    forall j :: 0 <= j < |items| && items[j].Ok? ==> Consistent(items[j].value)
  }

  /** A declaration paired with the schema entry it is counted against. */
  function DeclShape(d: DeclRead, schema: seq<SchemaEntry>, count: nat): FieldShape {
    FieldShape(d.nativeType, d.name, d.vectorType, SchemaAt(schema, count))
  }

  /** The exception reading a declaration raises, if any: its text, a schema with fewer
      entries than the block has fields, or `makeTestVal`; the draws cannot change it. */
  function FieldCrash(d: Result<DeclRead, Crash>, schema: seq<SchemaEntry>, count: nat): (r: Option<Crash>)
    ensures d.Err? ==> r == Some(d.error)
    ensures d.Ok? && |schema| > 0 && count >= |schema| ==> r == Some(SchemaExhausted(d.value.name))
    ensures d.Ok? && (|schema| == 0 || count < |schema|) ==> r == ValueCrash(d.value.value)
  {
    match d
    case Err(e) => Some(e)
    case Ok(dr) => if |schema| > 0 && count >= |schema| then Some(SchemaExhausted(dr.name)) else ValueCrash(dr.value)
  }

  /** One declaration of a block, paired with schema entry `count` and given a test value. */
  function ParseField(d: Result<DeclRead, Crash>, schema: seq<SchemaEntry>, count: nat, rng: Entropy, addr: seq<nat>)
    : (r: Result<Field, Crash>)
    ensures r.Ok? ==> d.Ok? && ShapeOf(r.value) == DeclShape(d.value, schema, count)
    ensures r.Ok? ==> (|schema| > 0 ==> count < |schema|)
    ensures r.Err? <==> FieldCrash(d, schema, count).Some?
    ensures r.Err? ==> r.error == FieldCrash(d, schema, count).value
  {
    var dr :- d;
    if |schema| > 0 && count >= |schema| then Err(SchemaExhausted(dr.name))
    else
      var tv :- DrawValue(dr.value, rng, addr);
      Ok(Field(dr.nativeType, dr.name, dr.vectorType, SchemaAt(schema, count), tv))
  }

  /** The test value given to a declaration is one `makeTestVal` can produce for it. */
  lemma ParseFieldValue(d: Result<DeclRead, Crash>, schema: seq<SchemaEntry>, count: nat, rng: Entropy, addr: seq<nat>)
    requires d.Ok? ==> Consistent(d.value)
    ensures var r := ParseField(d, schema, count, rng, addr);
            r.Ok? ==> ValidTestVal(r.value.nativeType, r.value.vectorType, r.value.testVal)
  {
  }

  /** The declarations of one line from the `j`-th on, paired with consecutive schema entries. */
  function ParseDecls(items: seq<Result<DeclRead, Crash>>, j: nat, schema: seq<SchemaEntry>, count: nat, rng: Entropy, addr: seq<nat>)
    : Result<seq<Field>, Crash>
    requires j <= |items|
    decreases |items| - j
  {
    if j == |items| then Ok([])
    else
      var f :- ParseField(items[j], schema, count, rng, addr + [j]);
      var rest :- ParseDecls(items, j + 1, schema, count + 1, rng, addr);
      Ok([f] + rest)
  }

  /** The declarations before the first one whose first token holds `//`: the line's
      declaration loop stops there. */
  function UpToComment(decls: seq<seq<string>>): (r: seq<seq<string>>)
    ensures r <= decls
    ensures forall j :: 0 <= j < |r| ==> !(|r[j]| > 0 && Contains(r[j][0], "//"))
    ensures |r| < |decls| ==> |decls[|r|]| > 0 && Contains(decls[|r|][0], "//")
    decreases |decls|
  {
    if |decls| == 0 then []
    else if |decls[0]| > 0 && Contains(decls[0][0], "//") then []
    else [decls[0]] + UpToComment(decls[1..])
  }

  /** What the loop body needs of a line: its closing kind and its declarations, read. */
  datatype LineInfo = LineInfo(kind: LineKind, decls: seq<Result<DeclRead, Crash>>)

  function Classify(line: string): (r: LineInfo)
    ensures r.kind == KindOf(line)
    ensures var ds := UpToComment(Declarations(Segment(line)));
            |r.decls| == |ds| && forall j :: 0 <= j < |ds| ==> r.decls[j] == ReadDeclTokens(ds[j])
    ensures AllConsistent(r.decls)
  {
    var ds := UpToComment(Declarations(Segment(line)));
    LineInfo(KindOf(line), seq(|ds|, j requires 0 <= j < |ds| => ReadDeclTokens(ds[j])))
  }

  function LineInfos(lines: seq<string>): (r: seq<LineInfo>)
    ensures |r| == |lines| && forall i :: 0 <= i < |lines| ==> r[i] == Classify(lines[i])
    ensures forall i :: 0 <= i < |r| ==> AllConsistent(r[i].decls)
  {
    seq(|lines|, i requires 0 <= i < |lines| => Classify(lines[i]))
  }

  /** The lines of one `messageT(...)` block, from line `idx` on, with `count` fields of the
      block read before it; draws for line `idx` are taken at `addr + [idx]`. */
  function ScanBlock(infos: seq<LineInfo>, idx: nat, schema: seq<SchemaEntry>, count: nat, rng: Entropy, addr: seq<nat>)
    : Result<seq<Field>, Crash>
    decreases |infos| - idx
  {
    if idx >= |infos| then Ok([])
    else
      var kind := infos[idx].kind;
      if kind == Finished then Ok([])
      else
        var here :- ParseDecls(infos[idx].decls, 0, schema, count, rng, addr + [idx]);
        if kind == Closing then Ok(here)
        else
          var rest :- ScanBlock(infos, idx + 1, schema, count + |here|, rng, addr);
          Ok(here + rest)
  }

  /** The blocks opened at `starts`, one field list each, each counting its schema entries
      from the first; block `i` draws at `addr + [i]`. */
  function ReadBlocks(starts: seq<nat>, infos: seq<LineInfo>, schema: seq<SchemaEntry>, rng: Entropy, addr: seq<nat>)
    : (r: Result<seq<seq<Field>>, Crash>)
    ensures r.Ok? ==> |r.value| == |starts|
    decreases |starts|
  {
    if |starts| == 0 then Ok([])
    else
      var front :- ReadBlocks(starts[..|starts| - 1], infos, schema, rng, addr);
      var last :- ScanBlock(infos, starts[|starts| - 1], schema, 0, rng, addr + [|starts| - 1]);
      Ok(front + [last])
  }

  /** The lines that open a `messageT(` block, in order. */
  function BlockStarts(lines: seq<string>): (r: seq<nat>)
    ensures forall i :: 0 <= i < |r| ==> r[i] < |lines| && Contains(lines[r[i]], Opening)
    ensures forall i, j :: 0 <= i < j < |r| ==> r[i] < r[j]
    ensures forall n :: 0 <= n < |lines| && Contains(lines[n], Opening) ==> n in r
    decreases |lines|
  {
    if |lines| == 0 then []
    else
      var front := BlockStarts(lines[..|lines| - 1]);
      assert forall n :: 0 <= n < |lines| - 1 ==> lines[..|lines| - 1][n] == lines[n];
      if Contains(lines[|lines| - 1], Opening) then front + [|lines| - 1] else front
  }

  // ---------------------------------------------------------------------------
  // Every test value read is one `makeTestVal` can produce for its field.

  ghost predicate ValidValues(fs: seq<Field>) {
    forall k :: 0 <= k < |fs| ==> ValidTestVal(fs[k].nativeType, fs[k].vectorType, fs[k].testVal)
  }

  lemma ValidValuesJoin(a: seq<Field>, b: seq<Field>)
    requires ValidValues(a) && ValidValues(b)
    ensures ValidValues(a + b)
  {
    var fs := a + b;
    forall k | |a| <= k < |fs|
      ensures ValidTestVal(fs[k].nativeType, fs[k].vectorType, fs[k].testVal)
    {
      assert fs[k] == b[k - |a|];
    }
  }

  lemma {:induction false} ParseDeclsValues(items: seq<Result<DeclRead, Crash>>, j: nat, schema: seq<SchemaEntry>, count: nat,
                                            rng: Entropy, addr: seq<nat>)
    requires j <= |items| && AllConsistent(items)
    ensures var r := ParseDecls(items, j, schema, count, rng, addr); r.Ok? ==> ValidValues(r.value)
    decreases |items| - j
  {
    if j < |items| {
      var f := ParseField(items[j], schema, count, rng, addr + [j]);
      ParseDeclsValues(items, j + 1, schema, count + 1, rng, addr);
      var rest := ParseDecls(items, j + 1, schema, count + 1, rng, addr);
      if f.Ok? && rest.Ok? {
        ParseFieldValue(items[j], schema, count, rng, addr + [j]);
        ValidValuesJoin([f.value], rest.value);
      }
    }
  }

  lemma {:induction false} ScanBlockValues(infos: seq<LineInfo>, idx: nat, schema: seq<SchemaEntry>, count: nat,
                                           rng: Entropy, addr: seq<nat>)
    requires forall i :: 0 <= i < |infos| ==> AllConsistent(infos[i].decls)
    ensures ScanBlock(infos, idx, schema, count, rng, addr).Ok? ==> ValidValues(ScanBlock(infos, idx, schema, count, rng, addr).value)
    decreases |infos| - idx
  {
    var r := ScanBlock(infos, idx, schema, count, rng, addr);
    if idx >= |infos| || infos[idx].kind == Finished {
      assert r == Ok([]);
    } else {
      var here := ParseDecls(infos[idx].decls, 0, schema, count, rng, addr + [idx]);
      ParseDeclsValues(infos[idx].decls, 0, schema, count, rng, addr + [idx]);
      if here.Err? {
        assert r.Err?;
      } else if infos[idx].kind == Closing {
        assert r == Ok(here.value);
      } else {
        var rest := ScanBlock(infos, idx + 1, schema, count + |here.value|, rng, addr);
        ScanBlockValues(infos, idx + 1, schema, count + |here.value|, rng, addr);
        if rest.Ok? {
          ValidValuesJoin(here.value, rest.value);
          assert r == Ok(here.value + rest.value);
        } else {
          assert r.Err?;
        }
      }
    }
  }

  lemma {:induction false} ReadBlocksValues(starts: seq<nat>, infos: seq<LineInfo>, schema: seq<SchemaEntry>, rng: Entropy, addr: seq<nat>)
    requires forall i :: 0 <= i < |infos| ==> AllConsistent(infos[i].decls)
    ensures var r := ReadBlocks(starts, infos, schema, rng, addr);
            r.Ok? ==> forall i :: 0 <= i < |starts| ==> ValidValues(r.value[i])
    decreases |starts|
  {
    if |starts| > 0 {
      var front := starts[..|starts| - 1];
      var at := addr + [|starts| - 1];
      ReadBlocksValues(front, infos, schema, rng, addr);
      ScanBlockValues(infos, starts[|starts| - 1], schema, 0, rng, at);
    }
  }

  // ---------------------------------------------------------------------------
  // The same reading with the test values left out: no draw is made, so the result is a
  // function of the text alone.

  /** The fields, from the `count`-th of a block on, are paired with consecutive schema
      entries and do not run past the schema's end. */
  ghost predicate Aligned(shapes: seq<FieldShape>, schema: seq<SchemaEntry>, count: nat) {
    && (forall k :: 0 <= k < |shapes| ==> shapes[k].schema == SchemaAt(schema, count + k))
    && (|schema| > 0 && |shapes| > 0 ==> count + |shapes| <= |schema|)
  }

  lemma AlignedJoin(a: seq<FieldShape>, b: seq<FieldShape>, schema: seq<SchemaEntry>, count: nat)
    requires Aligned(a, schema, count) && Aligned(b, schema, count + |a|)
    ensures Aligned(a + b, schema, count)
  {
    forall k | |a| <= k < |a + b|
      ensures (a + b)[k].schema == SchemaAt(schema, count + k)
    {
      assert (a + b)[k] == b[k - |a|];
    }
  }

  function DeclsOutline(items: seq<Result<DeclRead, Crash>>, j: nat, schema: seq<SchemaEntry>, count: nat): (r: Result<seq<FieldShape>, Crash>)
    requires j <= |items|
    ensures r.Ok? ==> Aligned(r.value, schema, count) && |r.value| == |items| - j
    decreases |items| - j
  {
    if j == |items| then Ok([])
    else match FieldCrash(items[j], schema, count)
      case Some(e) => Err(e)
      case None =>
        var sh := DeclShape(items[j].value, schema, count);
        var rest :- DeclsOutline(items, j + 1, schema, count + 1);
        assert Aligned([sh], schema, count);
        AlignedJoin([sh], rest, schema, count);
        Ok([sh] + rest)
  }

  function BlockOutline(infos: seq<LineInfo>, idx: nat, schema: seq<SchemaEntry>, count: nat): (r: Result<seq<FieldShape>, Crash>)
    ensures r.Ok? ==> Aligned(r.value, schema, count)
    decreases |infos| - idx
  {
    if idx >= |infos| || infos[idx].kind == Finished then Ok([])
    else
      var here :- DeclsOutline(infos[idx].decls, 0, schema, count);
      if infos[idx].kind == Closing then Ok(here)
      else
        var rest :- BlockOutline(infos, idx + 1, schema, count + |here|);
        AlignedJoin(here, rest, schema, count);
        Ok(here + rest)
  }

  function BlocksOutline(starts: seq<nat>, infos: seq<LineInfo>, schema: seq<SchemaEntry>)
    : (r: Result<seq<seq<FieldShape>>, Crash>)
    ensures r.Ok? ==> |r.value| == |starts|
    ensures r.Ok? ==> forall i :: 0 <= i < |starts| ==> Aligned(r.value[i], schema, 0)
    decreases |starts|
  {
    if |starts| == 0 then Ok([])
    else
      var front :- BlocksOutline(starts[..|starts| - 1], infos, schema);
      var last :- BlockOutline(infos, starts[|starts| - 1], schema, 0);
      Ok(front + [last])
  }

  // ---------------------------------------------------------------------------
  // Reading with test values agrees with the outline: the random source decides the test
  // values and nothing else.

  function OutlineOf(r: Result<seq<Field>, Crash>): Result<seq<FieldShape>, Crash> {
    match r
    case Ok(fs) => Ok(ShapesOf(fs))
    case Err(e) => Err(e)
  }

  lemma ShapesOfAppend(a: seq<Field>, b: seq<Field>)
    ensures ShapesOf(a + b) == ShapesOf(a) + ShapesOf(b)
  {
  }

  lemma {:induction false} ParseDeclsOutline(items: seq<Result<DeclRead, Crash>>, j: nat, schema: seq<SchemaEntry>, count: nat,
                                             rng: Entropy, addr: seq<nat>)
    requires j <= |items|
    ensures OutlineOf(ParseDecls(items, j, schema, count, rng, addr)) == DeclsOutline(items, j, schema, count)
    decreases |items| - j
  {
    if j < |items| {
      var f := ParseField(items[j], schema, count, rng, addr + [j]);
      if f.Ok? {
        ParseDeclsOutline(items, j + 1, schema, count + 1, rng, addr);
        var rest := ParseDecls(items, j + 1, schema, count + 1, rng, addr);
        if rest.Ok? {
          ShapesOfAppend([f.value], rest.value);
          assert ShapesOf([f.value]) == [DeclShape(items[j].value, schema, count)];
        }
      }
    }
  }

  lemma {:induction false} ScanBlockOutline(infos: seq<LineInfo>, idx: nat, schema: seq<SchemaEntry>, count: nat,
                                            rng: Entropy, addr: seq<nat>)
    ensures OutlineOf(ScanBlock(infos, idx, schema, count, rng, addr)) == BlockOutline(infos, idx, schema, count)
    decreases |infos| - idx
  {
    if idx < |infos| && infos[idx].kind != Finished {
      var decls := infos[idx].decls;
      ParseDeclsOutline(decls, 0, schema, count, rng, addr + [idx]);
      var here := ParseDecls(decls, 0, schema, count, rng, addr + [idx]);
      if here.Ok? && infos[idx].kind == Continuing {
        var next := count + |here.value|;
        ScanBlockOutline(infos, idx + 1, schema, next, rng, addr);
        var rest := ScanBlock(infos, idx + 1, schema, next, rng, addr);
        if rest.Ok? {
          ShapesOfAppend(here.value, rest.value);
        }
      }
    }
  }

  function BlocksShape(r: Result<seq<seq<Field>>, Crash>): Result<seq<seq<FieldShape>>, Crash> {
    match r
    case Ok(v) => Ok(VariantShapes(v))
    case Err(e) => Err(e)
  }

  lemma AppendBlockShape(f: seq<seq<Field>>, l: seq<Field>)
    ensures VariantShapes(f + [l]) == VariantShapes(f) + [ShapesOf(l)]
  {
  }

  lemma {:induction false} ReadBlocksOutline(starts: seq<nat>, infos: seq<LineInfo>, schema: seq<SchemaEntry>, rng: Entropy, addr: seq<nat>)
    ensures BlocksShape(ReadBlocks(starts, infos, schema, rng, addr)) == BlocksOutline(starts, infos, schema)
    decreases |starts|
  {
    if |starts| > 0 {
      var front := starts[..|starts| - 1];
      var at := addr + [|starts| - 1];
      ReadBlocksOutline(front, infos, schema, rng, addr);
      ScanBlockOutline(infos, starts[|starts| - 1], schema, 0, rng, at);
      var f := ReadBlocks(front, infos, schema, rng, addr);
      var l := ScanBlock(infos, starts[|starts| - 1], schema, 0, rng, at);
      if f.Ok? && l.Ok? {
        AppendBlockShape(f.value, l.value);
      }
    }
  }

  /** The diagnostics of all blocks, block after block, field after field. */
  function AllMismatches(blocks: seq<seq<FieldShape>>): seq<Mismatch>
    decreases |blocks|
  {
    if |blocks| == 0 then [] else AllMismatches(blocks[..|blocks| - 1]) + MismatchesOf(blocks[|blocks| - 1])
  }

  /** `getMessageFieldInfo`: one field list per `messageT(` line given, with the diagnostics
      printed while reading them. Apart from the test values, which are ones `makeTestVal`
      can produce, the fields are the outline read from the text alone: each block's fields
      are paired with the schema entries from the first. */
  function GetMessageFieldInfo(starts: seq<nat>, lines: seq<string>, schema: seq<SchemaEntry>, rng: Entropy, addr: seq<nat>)
    : (r: Result<(seq<seq<Field>>, seq<Mismatch>), Crash>)
    ensures OutlineResult(r) == BlocksOutline(starts, LineInfos(lines), schema)
    ensures r.Ok? ==> |r.value.0| == |starts| && forall i :: 0 <= i < |starts| ==> ValidValues(r.value.0[i])
    ensures r.Ok? ==> forall i :: 0 <= i < |starts| ==> Aligned(ShapesOf(r.value.0[i]), schema, 0)
    ensures r.Ok? ==> r.value.1 == AllMismatches(VariantShapes(r.value.0))
  {
    var infos := LineInfos(lines);
    ReadBlocksOutline(starts, infos, schema, rng, addr);
    ReadBlocksValues(starts, infos, schema, rng, addr);
    var blocks :- ReadBlocks(starts, infos, schema, rng, addr);
    Ok((blocks, AllMismatches(VariantShapes(blocks))))
  }

  function OutlineResult(r: Result<(seq<seq<Field>>, seq<Mismatch>), Crash>): Result<seq<seq<FieldShape>>, Crash> {
    match r
    case Ok(v) => Ok(VariantShapes(v.0))
    case Err(e) => Err(e)
  }

  /** The random source decides the test values and nothing else: the fields read, their
      schema pairing, the diagnostics and any exception are the same for every outcome. */
  lemma MessageFieldInfoShape(starts: seq<nat>, lines: seq<string>, schema: seq<SchemaEntry>,
                              rng1: Entropy, rng2: Entropy, addr: seq<nat>)
    ensures var r1 := GetMessageFieldInfo(starts, lines, schema, rng1, addr);
            var r2 := GetMessageFieldInfo(starts, lines, schema, rng2, addr);
            OutlineResult(r1) == OutlineResult(r2) && (r1.Ok? ==> r1.value.1 == r2.value.1)
  {
  }
}
