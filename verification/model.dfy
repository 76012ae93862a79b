/** The records the generator builds for one log type and hands to the template renderer. */
module LogModel {
  import opened Wrappers

  /** The exception the Python code raises at a given point. Any of them ends the run. */
  datatype Crash =
    | EmptyNameWord(name: string)                 // `word[0]` on an empty `_`-separated word: IndexError
    | TableKeywordNotToken(line: string)          // `list.index("table")` finds no such token: ValueError
    | TableNameMissing(line: string)              // `line[tableIdx + 1]` past the end: IndexError
    | TableLineInBody(line: string)               // a `table` line inside a body calls `.strip()` on a list: AttributeError
    | SchemaFieldWithoutColon(line: string)       // `lineParts[1]` of a body line without `:`: IndexError
    | DeclarationTooShort(tokens: seq<string>)    // `getTypeAndName` indexes past the tokens: IndexError
    | VectorWithoutArgument(nativeType: string)   // `typeParts[vectorIdx + 1]` past the end: IndexError
    | SchemaExhausted(fieldName: string)          // `schemaFieldInfo[fieldCount]` past the end: IndexError
    | VectorTypeMissing(nativeType: string)       // `fieldDict["vectorType"]` never set: KeyError
    | WidthDigitMissing(nativeType: string)       // `typeParts[0][-1]` or `[-2]` past the start: IndexError
    | WidthNotDigit(nativeType: string)           // `int(...)` of a non-digit: ValueError
    | FractionalBound(nativeType: string)         // `random.randint` with the bound -0.5 of a 0-bit signed type
    | EmptyRange(lo: int, hi: int)                // `random.randint` with its bounds the wrong way round: ValueError
    | FileMissing(fileName: string)               // `open` of a header the type directory lacks: FileNotFoundError

  /** One `(name, type)` pair of a FlatBuffers table body, both as raw text. */
  datatype SchemaEntry = SchemaEntry(name: string, fbsType: string)

  /** One synthesized literal of a scalar type. `Decimal` is the opaque text of
      `str(round(random.random(), places))`. */
  datatype Scalar =
    | IntLit(value: int)
    | StrLit(chars: string)
    | TrueLit
    | Decimal(places: nat, text: string)
    | EmptyBraces

  /** The `testVal` of a field: a scalar literal, or the brace list built for a vector. */
  datatype TestVal = Single(scalar: Scalar) | Vector(elems: seq<Scalar>)

  /** One field of a `messageT(...)` declaration, with its aligned schema entry when a schema exists. */
  datatype Field = Field(
    nativeType: string,
    name: string,
    vectorType: Option<string>,
    schema: Option<SchemaEntry>,
    testVal: TestVal)

  /** The diagnostic printed when a field's schema type and native type do not correspond. */
  datatype Mismatch = Mismatch(fieldName: string, schemaType: string, nativeType: string)

  /** The dictionary passed to the template for one generated test file. */
  datatype TestInfo = TestInfo(
    name: string,
    genTestFname: string,
    className: string,
    classVarName: string,
    baseType: string,
    hasGeneratedHfile: bool,
    schemaTableName: string,
    messageTypes: seq<seq<Field>>)

  /** The random source. Each draw is addressed by a path naming the record, the message
      variant, the line, the field and the element it is for, so that distinct draws read
      distinct addresses. `pick` stands for `randint` and `choices`; `decimal(a, p)` is the
      text of `str(round(random.random(), p))`. */
  datatype Entropy = Entropy(pick: seq<nat> -> nat, decimal: (seq<nat>, nat) -> string)

  /** The structure of a field, everything but its random test value. */
  datatype FieldShape = FieldShape(
    nativeType: string,
    name: string,
    vectorType: Option<string>,
    schema: Option<SchemaEntry>)

  function ShapeOf(f: Field): FieldShape {
    FieldShape(f.nativeType, f.name, f.vectorType, f.schema)
  }

  function ShapesOf(fs: seq<Field>): (r: seq<FieldShape>)
    ensures |r| == |fs|
    ensures forall i :: 0 <= i < |fs| ==> r[i] == ShapeOf(fs[i])
  {
    seq(|fs|, i requires 0 <= i < |fs| => ShapeOf(fs[i]))
  }

  function VariantShapes(vs: seq<seq<Field>>): (r: seq<seq<FieldShape>>)
    ensures |r| == |vs|
    ensures forall i :: 0 <= i < |vs| ==> r[i] == ShapesOf(vs[i])
  {
    seq(|vs|, i requires 0 <= i < |vs| => ShapesOf(vs[i]))
  }

  /** A model with its random test values forgotten. */
  datatype InfoShape = InfoShape(
    name: string,
    genTestFname: string,
    className: string,
    classVarName: string,
    baseType: string,
    hasGeneratedHfile: bool,
    schemaTableName: string,
    messageTypes: seq<seq<FieldShape>>)

  function InfoShapeOf(t: TestInfo): InfoShape {
    InfoShape(t.name, t.genTestFname, t.className, t.classVarName, t.baseType,
              t.hasGeneratedHfile, t.schemaTableName, VariantShapes(t.messageTypes))
  }

  function InfoShapes(ts: seq<TestInfo>): (r: seq<InfoShape>)
    ensures |r| == |ts|
    ensures forall i :: 0 <= i < |ts| ==> r[i] == InfoShapeOf(ts[i])
  {
    seq(|ts|, i requires 0 <= i < |ts| => InfoShapeOf(ts[i]))
  }
}
