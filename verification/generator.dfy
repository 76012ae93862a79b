/** The generator's two passes: every concrete log-type header of the type directory, in
    sorted order, is read into a test record or set aside; then every log type that inherits
    a base type's fields gets a record built from the base header. */
module Generator {
  import opened Wrappers
  import opened PyStr
  import opened LogModel
  import opened Markers
  import opened Schema
  import opened Fields
  import opened Names
  import opened Listing
  import opened Registry

  /** What the generator reads: the type directory's path and listing, the header files
      in it by file name, the schema files by log name, and the log names that have a
      generated `.h` file. */
  datatype Env = Env(
    typesDir: string,
    listing: seq<string>,
    headers: map<string, seq<string>>,
    schemas: map<string, seq<string>>,
    generated: set<string>)

  /** `open(...).readlines()` of a header of the type directory. */
  function HeaderLines(env: Env, file: string): (r: Result<seq<string>, Crash>)
    ensures r.Ok? <==> file in env.headers
    ensures r.Ok? ==> r.value == env.headers[file]
    ensures r.Err? ==> r.error == FileMissing(file)
  {
    if file in env.headers then Ok(env.headers[file]) else Err(FileMissing(file))
  }

  /** The schema file `getSchemaFieldInfo` opens for a log name, if it exists. */
  function SchemaFile(env: Env, name: string): Option<seq<string>> {
    if name in env.schemas then Some(env.schemas[name]) else None
  }

  /** `baseType` of a record built from a concrete header. */
  const DefaultBase := "flatbuffer_log"

  // ---------------------------------------------------------------------------
  // The first pass.

  /** What reading one header leaves: the record to render, if any, the dictionary of base
      types, and the diagnostics printed. */
  datatype Made = Made(info: Option<TestInfo>, registry: seq<Family>, mismatches: seq<Mismatch>)

  /** The record of a concrete log type, named after its header. */
  ghost predicate Concrete(env: Env, t: TestInfo) {
    && t.genTestFname == TestFileName(t.name)
    && t.className == ConcreteClassName(t.name)
    && ConcreteClassVarName(t.name) == Ok(t.classVarName)
    && t.baseType == DefaultBase
    && t.hasGeneratedHfile == (t.name in env.generated)
    && |t.messageTypes| >= 1
  }

  /** `makeTestInfoDict`: a header with both markers and `messageT(` lines becomes a record;
      a header without the markers only claims its name as a key of the dictionary; a header
      with the markers but no `messageT(` line is registered under the base it includes. */
  function MakeTestInfo(env: Env, file: string, reg: seq<Family>, rng: Entropy, addr: seq<nat>)
    : (r: Result<Made, Crash>)
    // a record is made only from a concrete header, and is named after it
    ensures r.Ok? && r.value.info.Some? ==>
              && file in env.headers && HasLogMarkers(env.headers[file])
              && |BlockStarts(env.headers[file])| > 0
              && r.value.info.value.name == RecordName(env.typesDir + "/" + file)
              && Concrete(env, r.value.info.value)
              && r.value.registry == reg
    // a header without the markers claims its name as a key, and nothing more
    ensures r.Ok? && file in env.headers && !HasLogMarkers(env.headers[file]) ==>
              r.value == Made(None, Ensure(reg, RecordName(env.typesDir + "/" + file)), [])
    // a marked header without `messageT(` joins the set of the base it includes
    ensures r.Ok? && file in env.headers && HasLogMarkers(env.headers[file]) && |BlockStarts(env.headers[file])| == 0 ==>
              r.value == Made(None, AddDerived(reg, GetBaseType(env.headers[file]), RecordName(env.typesDir + "/" + file)), [])
    // the header opens, and the variable name needs no empty word, before anything else
    ensures file !in env.headers ==> r == Err(FileMissing(file))
    ensures file in env.headers && ConcreteClassVarName(RecordName(env.typesDir + "/" + file)).Err? ==>
              r == Err(EmptyNameWord(RecordName(env.typesDir + "/" + file)))
    // a marked header with `messageT(` lines is rendered unless reading it raises
    ensures r.Ok? && file in env.headers && HasLogMarkers(env.headers[file]) && |BlockStarts(env.headers[file])| > 0 ==>
              r.value.info.Some?
    // it raises exactly when the header is missing, the variable name needs an empty word,
    // or a marked header's schema or `messageT(` blocks cannot be read
    ensures r.Err? <==>
              (|| file !in env.headers
               || var name := RecordName(env.typesDir + "/" + file);
                  var lines := env.headers[file];
                  var schema := GetSchemaFieldInfo(SchemaFile(env, name));
                  || ConcreteClassVarName(name).Err?
                  || (HasLogMarkers(lines) &&
                      (|| schema.Err?
                       || (|BlockStarts(lines)| > 0 &&
                           GetMessageFieldInfo(BlockStarts(lines), lines, schema.value.1, rng, addr).Err?))))
  {
    var lines :- HeaderLines(env, file);
    var name := RecordName(env.typesDir + "/" + file);
    var className := ConcreteClassName(name);
    var classVarName :- ConcreteClassVarName(name);
    var hasGenerated := name in env.generated;
    if !HasLogMarkers(lines) then Ok(Made(None, Ensure(reg, name), []))
    else
      var starts := BlockStarts(lines);
      var schema :- GetSchemaFieldInfo(SchemaFile(env, name));
      if |starts| == 0 then Ok(Made(None, AddDerived(reg, GetBaseType(lines), name), []))
      else
        var read :- GetMessageFieldInfo(starts, lines, schema.1, rng, addr);
        var info := TestInfo(name, TestFileName(name), className, classVarName, DefaultBase,
                             hasGenerated, schema.0, read.0);
        Ok(Made(Some(info), reg, read.1))
  }

  /** How the first pass reads a header file: against the dictionary built so far, drawing
      at the given address. */
  type HeaderReader = (string, seq<Family>, seq<nat>) -> Result<Made, Crash>

  /** `makeTestInfoDict` on the type directory, with a given random source. */
  function ReadHeader(env: Env, rng: Entropy): HeaderReader {
    (file, reg, addr) => MakeTestInfo(env, file, reg, rng, addr)
  }

  /** The state of a run: the records rendered so far, in order, the diagnostics printed,
      the dictionary of base types, and the exception that ended the run, if any. */
  datatype Run = Run(rendered: seq<TestInfo>, mismatches: seq<Mismatch>, registry: seq<Family>, crash: Option<Crash>)

  function Rendered(info: Option<TestInfo>): seq<TestInfo> {
    match info
    case None => []
    case Some(t) => [t]
  }

  /** One name of the sorted listing: skipped unless it contains `.hpp`, else read. */
  function Step1(read: HeaderReader, file: string, i: nat, before: Run): (r: Run)
    requires before.crash.None?
    ensures before.rendered <= r.rendered && before.mismatches <= r.mismatches
    ensures !Contains(file, ".hpp") ==> r == before
  {
    if !Contains(file, ".hpp") then before
    else
      match read(file, before.registry, [0, i])
      case Err(e) => before.(crash := Some(e))
      case Ok(m) => Run(before.rendered + Rendered(m.info), before.mismatches + m.mismatches, m.registry, None)
  }

  /** The first pass over the given names; name `i` draws at `[0, i]`. An exception ends it. */
  function Pass1(read: HeaderReader, files: seq<string>): (r: Run)
    ensures |r.rendered| <= |files|
    decreases |files|
  {
    if |files| == 0 then Run([], [], [], None)
    else
      var before := Pass1(read, files[..|files| - 1]);
      if before.crash.Some? then before
      else Step1(read, files[|files| - 1], |files| - 1, before)
  }

  // ---------------------------------------------------------------------------
  // The second pass.

  /** The record of a log type that inherits the fields of the base `base`. */
  ghost predicate Inherited(env: Env, base: string, t: TestInfo) {
    && t.genTestFname == TestFileName(t.name)
    && DerivedClassName(t.name) == Ok(t.className)
    && DerivedClassVarName(t.name) == Ok(t.classVarName)
    && t.baseType == base
    && t.hasGeneratedHfile == (t.name in env.generated)
    && (Contains(base, "empty_log") ==> t.messageTypes == [[]])
  }

  /** `makeInheritedTypeInfoDict`: the base header is opened first; the record takes its
      fields from the base header and the base's schema, except that a base naming
      `empty_log` gives one message type without fields. */
  function MakeInheritedTypeInfo(env: Env, base: string, name: string, rng: Entropy, addr: seq<nat>)
    : (r: Result<(TestInfo, seq<Mismatch>), Crash>)
    ensures r.Ok? ==> Inherited(env, base, r.value.0) && r.value.0.name == name
    ensures base + ".hpp" !in env.headers ==> r == Err(FileMissing(base + ".hpp"))
    ensures r.Ok? && Contains(base, "empty_log") ==> r.value.1 == []
    ensures base + ".hpp" in env.headers && DerivedClassName(name).Err? ==> r == Err(EmptyNameWord(name))
    // it raises exactly when the base header is missing, the class name needs an empty
    // word, the base's schema cannot be read, or, short of `empty_log`, its blocks cannot
    ensures r.Err? <==>
              (|| base + ".hpp" !in env.headers
               || DerivedClassName(name).Err?
               || var lines := env.headers[base + ".hpp"];
                  var schema := GetSchemaFieldInfo(SchemaFile(env, base));
                  || schema.Err?
                  || (!Contains(base, "empty_log") &&
                      GetMessageFieldInfo(BlockStarts(lines), lines, schema.value.1, rng, addr).Err?))
  {
    var lines :- HeaderLines(env, base + ".hpp");
    var className :- DerivedClassName(name);
    var classVarName := VarNameOfClass(className);
    var hasGenerated := name in env.generated;
    var starts := BlockStarts(lines);
    var schema :- GetSchemaFieldInfo(SchemaFile(env, base));
    if Contains(base, "empty_log") then
      Ok((TestInfo(name, TestFileName(name), className, classVarName, base, hasGenerated, schema.0, [[]]), []))
    else
      var read :- GetMessageFieldInfo(starts, lines, schema.1, rng, addr);
      Ok((TestInfo(name, TestFileName(name), className, classVarName, base, hasGenerated, schema.0, read.0), read.1))
  }

  /** A record's fields are those read from `lines` against `schema`: the table name is the
      schema's, the `messageT(` blocks have the shapes the schema alignment gives, and the
      diagnostics are those of every misaligned field, in order. */
  ghost predicate ReadFrom(t: TestInfo, mismatches: seq<Mismatch>, lines: seq<string>,
                           schema: Result<(string, seq<SchemaEntry>), Crash>) {
    && schema.Ok?
    && t.schemaTableName == schema.value.0
    && BlocksOutline(BlockStarts(lines), LineInfos(lines), schema.value.1) == Ok(VariantShapes(t.messageTypes))
    && mismatches == AllMismatches(VariantShapes(t.messageTypes))
  }

  /** A concrete record holds the blocks of its own header, read against its own schema. */
  lemma ConcreteRecordRead(env: Env, file: string, reg: seq<Family>, rng: Entropy, addr: seq<nat>)
    ensures var r := MakeTestInfo(env, file, reg, rng, addr);
            r.Ok? && r.value.info.Some? ==>
              && file in env.headers && r.value.info.value.name == RecordName(env.typesDir + "/" + file)
              && ReadFrom(r.value.info.value, r.value.mismatches, env.headers[file],
                          GetSchemaFieldInfo(SchemaFile(env, RecordName(env.typesDir + "/" + file))))
  {
    var r := MakeTestInfo(env, file, reg, rng, addr);
    if r.Ok? && r.value.info.Some? {
      var lines := env.headers[file];
      var name := RecordName(env.typesDir + "/" + file);
      var schema := GetSchemaFieldInfo(SchemaFile(env, name));
      var read := GetMessageFieldInfo(BlockStarts(lines), lines, schema.value.1, rng, addr);
      assert read.Ok?;
    }
  }

  /** An inheriting record holds the blocks of its base's header, read against the base's
      schema; only a base naming `empty_log` gives one empty block instead. */
  lemma InheritedRecordRead(env: Env, base: string, name: string, rng: Entropy, addr: seq<nat>)
    ensures var r := MakeInheritedTypeInfo(env, base, name, rng, addr);
            var schema := GetSchemaFieldInfo(SchemaFile(env, base));
            r.Ok? ==>
              && base + ".hpp" in env.headers && schema.Ok?
              && r.value.0.schemaTableName == schema.value.0
              && (!Contains(base, "empty_log") ==> ReadFrom(r.value.0, r.value.1, env.headers[base + ".hpp"], schema))
  {
    var r := MakeInheritedTypeInfo(env, base, name, rng, addr);
    if r.Ok? {
      var lines := env.headers[base + ".hpp"];
      var schema := GetSchemaFieldInfo(SchemaFile(env, base));
      if !Contains(base, "empty_log") {
        var read := GetMessageFieldInfo(BlockStarts(lines), lines, schema.value.1, rng, addr);
        assert read.Ok?;
      }
    }
  }

  /** An inheriting record has the structure of its base's own record: the same table name,
      blocks of the same shapes and the same diagnostics, whatever the draws. */
  lemma InheritedLikeBase(env: Env, base: string, name: string, reg: seq<Family>, rng: Entropy,
                          addr: seq<nat>, addr': seq<nat>)
    requires '/' !in base && '.' !in base && (|base| == 0 || !IsSpace(base[0]))
    requires !Contains(base, "empty_log")
    ensures var own := MakeTestInfo(env, base + ".hpp", reg, rng, addr);
            var derived := MakeInheritedTypeInfo(env, base, name, rng, addr');
            own.Ok? && own.value.info.Some? && derived.Ok? ==>
              && derived.value.0.schemaTableName == own.value.info.value.schemaTableName
              && VariantShapes(derived.value.0.messageTypes) == VariantShapes(own.value.info.value.messageTypes)
              && derived.value.1 == own.value.mismatches
  {
    RecordNameOfHeader(env.typesDir, base);
    ConcreteRecordRead(env, base + ".hpp", reg, rng, addr);
    InheritedRecordRead(env, base, name, rng, addr');
  }

  /** How the second pass reads an inheriting log type: the base it inherits from and its
      name, drawing at the given address. */
  type InheritReader = (string, string, seq<nat>) -> Result<(TestInfo, seq<Mismatch>), Crash>

  /** `makeInheritedTypeInfoDict` on the type directory, with a given random source. */
  function ReadInherited(env: Env, rng: Entropy): InheritReader {
    (base, name, addr) => MakeInheritedTypeInfo(env, base, name, rng, addr)
  }

  /** One inheriting log type of a base. */
  function Step2(inherit: InheritReader, base: string, name: string, addr: seq<nat>, before: Run): (r: Run)
    requires before.crash.None?
    ensures before.rendered <= r.rendered && before.mismatches <= r.mismatches && r.registry == before.registry
    ensures r.crash.None? <==> inherit(base, name, addr).Ok?
    ensures r.crash.None? ==> r.rendered == before.rendered + [inherit(base, name, addr).value.0]
    ensures r.crash.Some? ==> r.rendered == before.rendered
  {
    match inherit(base, name, addr)
    case Err(e) => before.(crash := Some(e))
    case Ok(made) => Run(before.rendered + [made.0], before.mismatches + made.1, before.registry, None)
  }

  /** The first `n` inheriting log types of a family, the `j`-th drawing at `[1, f, j]`. */
  function FamilyRun(inherit: InheritReader, fam: Family, f: nat, n: nat, before: Run): (r: Run)
    requires n <= |fam.derived|
    ensures before.rendered <= r.rendered && r.registry == before.registry
    decreases n
  {
    if n == 0 then before
    else
      var mid := FamilyRun(inherit, fam, f, n - 1, before);
      if mid.crash.Some? then mid
      else Step2(inherit, fam.base, fam.derived[n - 1], [1, f, n - 1], mid)
  }

  /** The second pass over the first `k` keys of the dictionary, in insertion order. */
  function Pass2(inherit: InheritReader, reg: seq<Family>, k: nat, start: Run): (r: Run)
    requires k <= |reg|
    ensures start.rendered <= r.rendered && r.registry == start.registry
    decreases k
  {
    if k == 0 then start
    else
      var mid := Pass2(inherit, reg, k - 1, start);
      if mid.crash.Some? then mid
      else FamilyRun(inherit, reg[k - 1], k - 1, |reg[k - 1].derived|, mid)
  }

  /** The two passes with the given readers: the first over the given names, then, unless it
      raised, the second over the dictionary it built. */
  function Passes(read: HeaderReader, inherit: InheritReader, files: seq<string>): (r: Run)
    ensures Pass1(read, files).rendered <= r.rendered
  {
    var first := Pass1(read, files);
    if first.crash.Some? then first
    else Pass2(inherit, first.registry, |first.registry|, first)
  }

  /** `main` without the template: both passes over the sorted listing of the type directory. */
  function Generate(env: Env, rng: Entropy): Run {
    Passes(ReadHeader(env, rng), ReadInherited(env, rng), Sort(env.listing))
  }

  /** No record after the `k`-th is written to the same file. */
  predicate LastOfItsFile(rendered: seq<TestInfo>, k: nat)
    requires k < |rendered|
  {
    forall m :: k < m < |rendered| ==> rendered[m].genTestFname != rendered[k].genTestFname
  }

  /** The generated-tests directory after the run: each record is written to its file, a
      later record replacing an earlier one of the same file name. */
  function Written(rendered: seq<TestInfo>): (r: map<string, TestInfo>)
    ensures forall k :: 0 <= k < |rendered| ==> rendered[k].genTestFname in r
    ensures forall f :: f in r ==> r[f].genTestFname == f && r[f] in rendered
    ensures |rendered| > 0 ==> r[rendered[|rendered| - 1].genTestFname] == rendered[|rendered| - 1]
    decreases |rendered|
  {
    if |rendered| == 0 then map[]
    else
      var last := rendered[|rendered| - 1];
      var front := Written(rendered[..|rendered| - 1]);
      assert forall k :: 0 <= k < |rendered| - 1 ==> rendered[k] == rendered[..|rendered| - 1][k];
      front[last.genTestFname := last]
  }

  /** Every file holds the last record written to it. */
  lemma {:induction false} WrittenLastWins(rendered: seq<TestInfo>)
    ensures forall k :: 0 <= k < |rendered| && LastOfItsFile(rendered, k) ==>
              Written(rendered)[rendered[k].genTestFname] == rendered[k]
    decreases |rendered|
  {
    if |rendered| > 0 {
      var before := rendered[..|rendered| - 1];
      var last := rendered[|rendered| - 1];
      WrittenLastWins(before);
      assert Written(rendered) == Written(before)[last.genTestFname := last];
      forall k | 0 <= k < |rendered| - 1 && LastOfItsFile(rendered, k)
        ensures Written(rendered)[rendered[k].genTestFname] == rendered[k]
      {
        LastOfItsFilePrefix(rendered, k);
      }
    }
  }

  /** A record last of its file stays so without the final record, and is not of its file. */
  lemma LastOfItsFilePrefix(rendered: seq<TestInfo>, k: nat)
    requires k < |rendered| - 1 && LastOfItsFile(rendered, k)
    ensures rendered[..|rendered| - 1][k] == rendered[k]
    ensures LastOfItsFile(rendered[..|rendered| - 1], k)
    ensures rendered[k].genTestFname != rendered[|rendered| - 1].genTestFname
  {
    var before := rendered[..|rendered| - 1];
    forall m | k < m < |before| ensures before[m].genTestFname != before[k].genTestFname {
      assert before[m] == rendered[m];
    }
  }

  // ---------------------------------------------------------------------------
  // What the records of a run are.

  /** The names every record carries, whichever pass made it: its output file, and the
      variable name made of the lower-cased initials of its words. */
  ghost predicate Named(t: TestInfo) {
    t.genTestFname == TestFileName(t.name) && ConcreteClassVarName(t.name) == Ok(t.classVarName)
  }

  /** Every record a first-pass reader renders is the record of a concrete log type. */
  ghost predicate ReadsConcrete(env: Env, read: HeaderReader) {
    forall file, reg, addr :: read(file, reg, addr).Ok? && read(file, reg, addr).value.info.Some? ==>
      Concrete(env, read(file, reg, addr).value.info.value)
  }

  lemma ReadHeaderConcrete(env: Env, rng: Entropy)
    ensures ReadsConcrete(env, ReadHeader(env, rng))
  {
    forall file, reg, addr | ReadHeader(env, rng)(file, reg, addr).Ok? && ReadHeader(env, rng)(file, reg, addr).value.info.Some?
      ensures Concrete(env, ReadHeader(env, rng)(file, reg, addr).value.info.value)
    {
      assert ReadHeader(env, rng)(file, reg, addr) == MakeTestInfo(env, file, reg, rng, addr);
    }
  }

  lemma ReadConcrete(env: Env, read: HeaderReader, file: string, reg: seq<Family>, addr: seq<nat>)
    requires ReadsConcrete(env, read)
    ensures read(file, reg, addr).Ok? && read(file, reg, addr).value.info.Some? ==>
              Concrete(env, read(file, reg, addr).value.info.value)
  {
  }

  lemma {:induction false} Pass1Concrete(env: Env, read: HeaderReader, files: seq<string>)
    requires ReadsConcrete(env, read)
    ensures forall k :: 0 <= k < |Pass1(read, files).rendered| ==> Concrete(env, Pass1(read, files).rendered[k])
    decreases |files|
  {
    if |files| > 0 {
      var n := |files|;
      Pass1Concrete(env, read, files[..n - 1]);
      var before := Pass1(read, files[..n - 1]);
      if before.crash.None? && Contains(files[n - 1], ".hpp") {
        var m := read(files[n - 1], before.registry, [0, n - 1]);
        if m.Ok? {
          var r := Step1(read, files[n - 1], n - 1, before);
          assert r.rendered == before.rendered + Rendered(m.value.info);
          ReadConcrete(env, read, files[n - 1], before.registry, [0, n - 1]);
          forall k | 0 <= k < |r.rendered| ensures Concrete(env, r.rendered[k]) {
            if k < |before.rendered| {
              assert r.rendered[k] == before.rendered[k];
            } else {
              assert r.rendered[k] == m.value.info.value;
            }
          }
        }
      }
    }
  }

  /** Every record a second-pass reader renders carries the name it was asked for and
      inherits from the base it was asked for. */
  ghost predicate ReadsInherited(env: Env, inherit: InheritReader) {
    forall base, name, addr :: inherit(base, name, addr).Ok? ==>
      inherit(base, name, addr).value.0.name == name && Inherited(env, base, inherit(base, name, addr).value.0)
  }

  lemma ReadInheritedInherited(env: Env, rng: Entropy)
    ensures ReadsInherited(env, ReadInherited(env, rng))
  {
    forall base, name, addr | ReadInherited(env, rng)(base, name, addr).Ok?
      ensures ReadInherited(env, rng)(base, name, addr).value.0.name == name
      ensures Inherited(env, base, ReadInherited(env, rng)(base, name, addr).value.0)
    {
      assert ReadInherited(env, rng)(base, name, addr) == MakeInheritedTypeInfo(env, base, name, rng, addr);
    }
  }

  /** The (base, log type) pairs the second pass visits, in order: the keys of the dictionary
      in insertion order, and each key's set in its order. */
  function Schedule(reg: seq<Family>): (r: seq<(string, string)>)
    decreases |reg|
  {
    if |reg| == 0 then []
    else Schedule(reg[..|reg| - 1]) + FamilyPairs(reg[|reg| - 1])
  }

  function FamilyPairs(fam: Family): (r: seq<(string, string)>)
    ensures |r| == |fam.derived| && forall j :: 0 <= j < |r| ==> r[j] == (fam.base, fam.derived[j])
  {
    seq(|fam.derived|, j requires 0 <= j < |fam.derived| => (fam.base, fam.derived[j]))
  }

  /** The records a run added after `before`, as (base, name) pairs, follow `pairs` from its
      start, all of them when no exception was raised. */
  ghost predicate Follows(env: Env, before: Run, r: Run, pairs: seq<(string, string)>) {
    && before.rendered <= r.rendered
    && |r.rendered| - |before.rendered| <= |pairs|
    && (r.crash.None? ==> |r.rendered| - |before.rendered| == |pairs|)
    && forall j :: 0 <= j < |r.rendered| - |before.rendered| ==>
         r.rendered[|before.rendered| + j].name == pairs[j].1 && Inherited(env, pairs[j].0, r.rendered[|before.rendered| + j])
  }

  lemma {:induction false} FamilyRunFollows(env: Env, inherit: InheritReader, fam: Family, f: nat, n: nat, before: Run)
    requires ReadsInherited(env, inherit) && before.crash.None? && n <= |fam.derived|
    ensures Follows(env, before, FamilyRun(inherit, fam, f, n, before), FamilyPairs(fam)[..n])
    decreases n
  {
    if n > 0 {
      var pairs := FamilyPairs(fam);
      var pair := (fam.base, fam.derived[n - 1]);
      assert pairs[..n] == pairs[..n - 1] + [pair];
      FamilyRunFollows(env, inherit, fam, f, n - 1, before);
      var mid := FamilyRun(inherit, fam, f, n - 1, before);
      if mid.crash.Some? {
        FollowsStop(env, before, mid, pairs[..n - 1], [pair]);
      } else {
        var r := Step2(inherit, fam.base, fam.derived[n - 1], [1, f, n - 1], mid);
        if r.crash.None? {
          FollowsExtend(env, before, mid, r, pairs[..n - 1], pair);
        } else {
          FollowsStop(env, before, r, pairs[..n - 1], [pair]);
        }
      }
    }
  }

  /** One more record, made for the next pair, extends a run that follows the pairs. */
  lemma FollowsExtend(env: Env, before: Run, mid: Run, r: Run, p: seq<(string, string)>, pair: (string, string))
    requires Follows(env, before, mid, p) && mid.crash.None? && r.crash.None?
    requires |r.rendered| == |mid.rendered| + 1 && mid.rendered <= r.rendered
    requires r.rendered[|mid.rendered|].name == pair.1 && Inherited(env, pair.0, r.rendered[|mid.rendered|])
    ensures Follows(env, before, r, p + [pair])
  {
    forall j | 0 <= j < |r.rendered| - |before.rendered|
      ensures r.rendered[|before.rendered| + j].name == (p + [pair])[j].1
      ensures Inherited(env, (p + [pair])[j].0, r.rendered[|before.rendered| + j])
    {
      if j < |p| {
        assert r.rendered[|before.rendered| + j] == mid.rendered[|before.rendered| + j];
      }
    }
  }

  lemma FollowsJoin(env: Env, a: Run, b: Run, c: Run, p: seq<(string, string)>, q: seq<(string, string)>)
    requires Follows(env, a, b, p) && b.crash.None? && Follows(env, b, c, q)
    ensures Follows(env, a, c, p + q)
  {
    assert a.rendered <= c.rendered;
    forall j | 0 <= j < |c.rendered| - |a.rendered|
      ensures c.rendered[|a.rendered| + j].name == (p + q)[j].1
      ensures Inherited(env, (p + q)[j].0, c.rendered[|a.rendered| + j])
    {
      if j < |p| {
        assert c.rendered[|a.rendered| + j] == b.rendered[|a.rendered| + j];
      } else {
        assert c.rendered[|a.rendered| + j] == c.rendered[|b.rendered| + (j - |p|)];
      }
    }
  }

  lemma FollowsStop(env: Env, a: Run, b: Run, p: seq<(string, string)>, q: seq<(string, string)>)
    requires Follows(env, a, b, p) && b.crash.Some?
    ensures Follows(env, a, b, p + q)
  {
  }

  /** The second pass renders the inheriting log types in the order of the dictionary, each
      inheriting from its key; unless an exception ends it, it renders every one of them. */
  lemma {:induction false} Pass2Follows(env: Env, inherit: InheritReader, reg: seq<Family>, k: nat, start: Run)
    requires ReadsInherited(env, inherit) && start.crash.None? && k <= |reg|
    ensures Follows(env, start, Pass2(inherit, reg, k, start), Schedule(reg[..k]))
    decreases k
  {
    if k > 0 {
      Pass2Follows(env, inherit, reg, k - 1, start);
      assert reg[..k][..k - 1] == reg[..k - 1];
      var mid := Pass2(inherit, reg, k - 1, start);
      var fam := reg[k - 1];
      assert Schedule(reg[..k]) == Schedule(reg[..k - 1]) + FamilyPairs(fam);
      if mid.crash.None? {
        FamilyRunFollows(env, inherit, fam, k - 1, |fam.derived|, mid);
        assert FamilyPairs(fam)[..|fam.derived|] == FamilyPairs(fam);
        FollowsJoin(env, start, mid, FamilyRun(inherit, fam, k - 1, |fam.derived|, mid), Schedule(reg[..k - 1]), FamilyPairs(fam));
      } else {
        FollowsStop(env, start, mid, Schedule(reg[..k - 1]), FamilyPairs(fam));
      }
    }
  }

  lemma ConcreteNamed(env: Env, t: TestInfo)
    requires Concrete(env, t)
    ensures Named(t)
  {
  }

  lemma InheritedNamed(env: Env, base: string, t: TestInfo)
    requires Inherited(env, base, t)
    ensures Named(t)
  {
    ClassVarNamesAgree(t.name);
    var c := DerivedClassName(t.name).value;
    assert DerivedClassVarName(t.name) == Ok(VarNameOfClass(c));
  }

  /** Whatever pass renders it, a record's output file is named after it and its variable
      name is the lower-cased initials of its words. */
  lemma {:induction false} PassesNamed(env: Env, read: HeaderReader, inherit: InheritReader, files: seq<string>)
    requires ReadsConcrete(env, read) && ReadsInherited(env, inherit)
    ensures var r := Passes(read, inherit, files); forall k :: 0 <= k < |r.rendered| ==> Named(r.rendered[k])
  {
    var first := Pass1(read, files);
    Pass1Concrete(env, read, files);
    forall k | 0 <= k < |first.rendered| ensures Named(first.rendered[k]) {
      ConcreteNamed(env, first.rendered[k]);
    }
    if first.crash.None? {
      var reg := first.registry;
      Pass2Follows(env, inherit, reg, |reg|, first);
      var r := Pass2(inherit, reg, |reg|, first);
      assert reg[..|reg|] == reg;
      forall k | 0 <= k < |r.rendered| ensures Named(r.rendered[k]) {
        if k < |first.rendered| {
          assert r.rendered[k] == first.rendered[k];
        } else {
          var j := k - |first.rendered|;
          InheritedNamed(env, Schedule(reg)[j].0, r.rendered[k]);
        }
      }
    }
  }

  lemma GenerateNamed(env: Env, rng: Entropy)
    ensures var r := Generate(env, rng); forall k :: 0 <= k < |r.rendered| ==> Named(r.rendered[k])
  {
    ReadHeaderConcrete(env, rng);
    ReadInheritedInherited(env, rng);
    PassesNamed(env, ReadHeader(env, rng), ReadInherited(env, rng), Sort(env.listing));
  }

  /** After a first pass that raised nothing, the run renders the first pass's records and
      then one record per pair of the dictionary's schedule, in order, named after the log
      type and inheriting from the base; an exception in the second pass cuts the schedule
      short. */
  lemma PassesSchedule(env: Env, read: HeaderReader, inherit: InheritReader, files: seq<string>)
    requires ReadsInherited(env, inherit)
    ensures var first := Pass1(read, files);
            first.crash.None? ==> Follows(env, first, Passes(read, inherit, files), Schedule(first.registry))
  {
    var first := Pass1(read, files);
    if first.crash.None? {
      Pass2Follows(env, inherit, first.registry, |first.registry|, first);
      assert first.registry[..|first.registry|] == first.registry;
    }
  }

  // ---------------------------------------------------------------------------
  // What the random source decides.

  /** A run with its random test values forgotten. */
  datatype RunShape = RunShape(rendered: seq<InfoShape>, mismatches: seq<Mismatch>, registry: seq<Family>, crash: Option<Crash>)

  function ShapeOfRun(r: Run): RunShape {
    RunShape(InfoShapes(r.rendered), r.mismatches, r.registry, r.crash)
  }

  lemma InfoShapesAppend(a: seq<TestInfo>, b: seq<TestInfo>)
    ensures InfoShapes(a + b) == InfoShapes(a) + InfoShapes(b)
  {
    assert forall i :: 0 <= i < |a + b| ==> InfoShapes(a + b)[i] == (InfoShapes(a) + InfoShapes(b))[i];
  }

  /** Two readings of a header that differ at most in their test values. */
  predicate SameMade(a: Result<Made, Crash>, b: Result<Made, Crash>) {
    && a.Ok? == b.Ok?
    && (a.Err? ==> a.error == b.error)
    && (a.Ok? ==> && a.value.registry == b.value.registry
                  && a.value.mismatches == b.value.mismatches
                  && a.value.info.Some? == b.value.info.Some?
                  && (a.value.info.Some? ==> InfoShapeOf(a.value.info.value) == InfoShapeOf(b.value.info.value)))
  }

  predicate SameInherited(a: Result<(TestInfo, seq<Mismatch>), Crash>, b: Result<(TestInfo, seq<Mismatch>), Crash>) {
    && a.Ok? == b.Ok?
    && (a.Err? ==> a.error == b.error)
    && (a.Ok? ==> InfoShapeOf(a.value.0) == InfoShapeOf(b.value.0) && a.value.1 == b.value.1)
  }

  /** Reading a header twice with different random sources reads the same fields, registers
      the same names, prints the same diagnostics and fails alike. */
  lemma MakeTestInfoShape(env: Env, file: string, reg: seq<Family>, rng1: Entropy, rng2: Entropy, addr: seq<nat>)
    ensures SameMade(MakeTestInfo(env, file, reg, rng1, addr), MakeTestInfo(env, file, reg, rng2, addr))
  {
    var a := MakeTestInfo(env, file, reg, rng1, addr);
    var b := MakeTestInfo(env, file, reg, rng2, addr);
    if file !in env.headers {
      assert a == b;
      return;
    }
    var lines := env.headers[file];
    var name := RecordName(env.typesDir + "/" + file);
    var classVarName := ConcreteClassVarName(name);
    var schema := GetSchemaFieldInfo(SchemaFile(env, name));
    var starts := BlockStarts(lines);
    if classVarName.Err? || !HasLogMarkers(lines) || schema.Err? || |starts| == 0 {
      assert a == b;
      return;
    }
    var read1 := GetMessageFieldInfo(starts, lines, schema.value.1, rng1, addr);
    var read2 := GetMessageFieldInfo(starts, lines, schema.value.1, rng2, addr);
    MessageFieldInfoShape(starts, lines, schema.value.1, rng1, rng2, addr);
    if read1.Err? {
      assert a == Err(read1.error) && b == Err(read2.error);
    } else {
      var info1 := TestInfo(name, TestFileName(name), ConcreteClassName(name), classVarName.value, DefaultBase,
                            name in env.generated, schema.value.0, read1.value.0);
      var info2 := info1.(messageTypes := read2.value.0);
      assert a == Ok(Made(Some(info1), reg, read1.value.1));
      assert b == Ok(Made(Some(info2), reg, read2.value.1));
    }
  }

  lemma MakeInheritedTypeInfoShape(env: Env, base: string, name: string, rng1: Entropy, rng2: Entropy, addr: seq<nat>)
    ensures SameInherited(MakeInheritedTypeInfo(env, base, name, rng1, addr), MakeInheritedTypeInfo(env, base, name, rng2, addr))
  {
    var a := MakeInheritedTypeInfo(env, base, name, rng1, addr);
    var b := MakeInheritedTypeInfo(env, base, name, rng2, addr);
    var className := DerivedClassName(name);
    var schema := GetSchemaFieldInfo(SchemaFile(env, base));
    if base + ".hpp" !in env.headers || className.Err? || schema.Err? || Contains(base, "empty_log") {
      assert a == b;
      return;
    }
    var lines := env.headers[base + ".hpp"];
    var starts := BlockStarts(lines);
    var read1 := GetMessageFieldInfo(starts, lines, schema.value.1, rng1, addr);
    var read2 := GetMessageFieldInfo(starts, lines, schema.value.1, rng2, addr);
    MessageFieldInfoShape(starts, lines, schema.value.1, rng1, rng2, addr);
    if read1.Err? {
      assert a == Err(read1.error) && b == Err(read2.error);
    } else {
      var info1 := TestInfo(name, TestFileName(name), className.value, VarNameOfClass(className.value), base,
                            name in env.generated, schema.value.0, read1.value.0);
      var info2 := info1.(messageTypes := read2.value.0);
      assert a == Ok((info1, read1.value.1));
      assert b == Ok((info2, read2.value.1));
    }
  }

  /** Always true; it is there only to serve as the trigger of the quantified agreement of two
      readers below. A proof that needs the readers to agree on one call asserts `Asked` of
      that call's arguments, and the solver then instantiates the agreement for that call
      alone instead of for every reader call in scope, which keeps those proofs cheap. */
  predicate Asked<A, B, C>(a: A, b: B, c: C) {
    true
  }

  ghost predicate SameHeaderReaders(read1: HeaderReader, read2: HeaderReader) {
    forall file, reg, addr {:trigger Asked(file, reg, addr)} :: SameMade(read1(file, reg, addr), read2(file, reg, addr))
  }

  ghost predicate SameInheritReaders(inherit1: InheritReader, inherit2: InheritReader) {
    forall base, name, addr {:trigger Asked(base, name, addr)} :: SameInherited(inherit1(base, name, addr), inherit2(base, name, addr))
  }

  lemma ReadersShape(env: Env, rng1: Entropy, rng2: Entropy)
    ensures SameHeaderReaders(ReadHeader(env, rng1), ReadHeader(env, rng2))
    ensures SameInheritReaders(ReadInherited(env, rng1), ReadInherited(env, rng2))
  {
    forall file, reg, addr | Asked(file, reg, addr)
      ensures SameMade(ReadHeader(env, rng1)(file, reg, addr), ReadHeader(env, rng2)(file, reg, addr))
    {
      MakeTestInfoShape(env, file, reg, rng1, rng2, addr);
    }
    forall base, name, addr | Asked(base, name, addr)
      ensures SameInherited(ReadInherited(env, rng1)(base, name, addr), ReadInherited(env, rng2)(base, name, addr))
    {
      MakeInheritedTypeInfoShape(env, base, name, rng1, rng2, addr);
    }
  }

  lemma Step1Shape(read1: HeaderReader, read2: HeaderReader, file: string, i: nat, b1: Run, b2: Run)
    requires SameHeaderReaders(read1, read2)
    requires b1.crash.None? && ShapeOfRun(b1) == ShapeOfRun(b2)
    ensures ShapeOfRun(Step1(read1, file, i, b1)) == ShapeOfRun(Step1(read2, file, i, b2))
  {
    if Contains(file, ".hpp") {
      var a := read1(file, b1.registry, [0, i]);
      var b := read2(file, b2.registry, [0, i]);
      assert Asked(file, b1.registry, [0, i]);
      if a.Ok? {
        InfoShapesAppend(b1.rendered, Rendered(a.value.info));
        InfoShapesAppend(b2.rendered, Rendered(b.value.info));
        assert InfoShapes(Rendered(a.value.info)) == InfoShapes(Rendered(b.value.info));
      }
    }
  }

  lemma {:induction false} Pass1Shape(read1: HeaderReader, read2: HeaderReader, files: seq<string>)
    requires SameHeaderReaders(read1, read2)
    ensures ShapeOfRun(Pass1(read1, files)) == ShapeOfRun(Pass1(read2, files))
    decreases |files|
  {
    if |files| > 0 {
      Pass1Shape(read1, read2, files[..|files| - 1]);
      var b1 := Pass1(read1, files[..|files| - 1]);
      var b2 := Pass1(read2, files[..|files| - 1]);
      if b1.crash.None? {
        Step1Shape(read1, read2, files[|files| - 1], |files| - 1, b1, b2);
      }
    }
  }

  lemma Step2Shape(inherit1: InheritReader, inherit2: InheritReader, base: string, name: string, addr: seq<nat>, b1: Run, b2: Run)
    requires SameInheritReaders(inherit1, inherit2)
    requires b1.crash.None? && ShapeOfRun(b1) == ShapeOfRun(b2)
    ensures ShapeOfRun(Step2(inherit1, base, name, addr, b1)) == ShapeOfRun(Step2(inherit2, base, name, addr, b2))
  {
    var a := inherit1(base, name, addr);
    var b := inherit2(base, name, addr);
    assert Asked(base, name, addr);
    if a.Ok? {
      InfoShapesAppend(b1.rendered, [a.value.0]);
      InfoShapesAppend(b2.rendered, [b.value.0]);
    }
  }

  lemma {:induction false} FamilyRunShape(inherit1: InheritReader, inherit2: InheritReader, fam: Family, f: nat, n: nat, b1: Run, b2: Run)
    requires SameInheritReaders(inherit1, inherit2)
    requires n <= |fam.derived|
    requires ShapeOfRun(b1) == ShapeOfRun(b2)
    ensures ShapeOfRun(FamilyRun(inherit1, fam, f, n, b1)) == ShapeOfRun(FamilyRun(inherit2, fam, f, n, b2))
    decreases n
  {
    if n > 0 {
      FamilyRunShape(inherit1, inherit2, fam, f, n - 1, b1, b2);
      var m1 := FamilyRun(inherit1, fam, f, n - 1, b1);
      var m2 := FamilyRun(inherit2, fam, f, n - 1, b2);
      assert m1.crash == m2.crash;
      if m1.crash.None? {
        Step2Shape(inherit1, inherit2, fam.base, fam.derived[n - 1], [1, f, n - 1], m1, m2);
        assert FamilyRun(inherit1, fam, f, n, b1) == Step2(inherit1, fam.base, fam.derived[n - 1], [1, f, n - 1], m1);
        assert FamilyRun(inherit2, fam, f, n, b2) == Step2(inherit2, fam.base, fam.derived[n - 1], [1, f, n - 1], m2);
      } else {
        assert FamilyRun(inherit1, fam, f, n, b1) == m1 && FamilyRun(inherit2, fam, f, n, b2) == m2;
      }
    }
  }

  lemma {:induction false} Pass2Shape(inherit1: InheritReader, inherit2: InheritReader, reg: seq<Family>, k: nat, s1: Run, s2: Run)
    requires SameInheritReaders(inherit1, inherit2)
    requires k <= |reg|
    requires ShapeOfRun(s1) == ShapeOfRun(s2)
    ensures ShapeOfRun(Pass2(inherit1, reg, k, s1)) == ShapeOfRun(Pass2(inherit2, reg, k, s2))
    decreases k
  {
    if k > 0 {
      Pass2Shape(inherit1, inherit2, reg, k - 1, s1, s2);
      Pass2StepShape(inherit1, inherit2, reg, k, s1, s2);
    }
  }

  /** One more family keeps two second passes alike. */
  lemma Pass2StepShape(inherit1: InheritReader, inherit2: InheritReader, reg: seq<Family>, k: nat, s1: Run, s2: Run)
    requires SameInheritReaders(inherit1, inherit2)
    requires 0 < k <= |reg|
    requires ShapeOfRun(Pass2(inherit1, reg, k - 1, s1)) == ShapeOfRun(Pass2(inherit2, reg, k - 1, s2))
    ensures ShapeOfRun(Pass2(inherit1, reg, k, s1)) == ShapeOfRun(Pass2(inherit2, reg, k, s2))
  {
    var m1 := Pass2(inherit1, reg, k - 1, s1);
    var m2 := Pass2(inherit2, reg, k - 1, s2);
    assert m1.crash == m2.crash;
    if m1.crash.None? {
      var fam := reg[k - 1];
      FamilyRunShape(inherit1, inherit2, fam, k - 1, |fam.derived|, m1, m2);
      assert Pass2(inherit1, reg, k, s1) == FamilyRun(inherit1, fam, k - 1, |fam.derived|, m1);
      assert Pass2(inherit2, reg, k, s2) == FamilyRun(inherit2, fam, k - 1, |fam.derived|, m2);
    } else {
      assert Pass2(inherit1, reg, k, s1) == m1 && Pass2(inherit2, reg, k, s2) == m2;
    }
  }

  /** The random source decides the test values and nothing else: which files are generated,
      for which log types, with which names and fields, the diagnostics printed and the
      exception that ends the run are the same whatever it draws. */
  lemma GenerateShape(env: Env, rng1: Entropy, rng2: Entropy)
    ensures ShapeOfRun(Generate(env, rng1)) == ShapeOfRun(Generate(env, rng2))
  {
    ReadersShape(env, rng1, rng2);
    var files := Sort(env.listing);
    var read1 := ReadHeader(env, rng1);
    var read2 := ReadHeader(env, rng2);
    Pass1Shape(read1, read2, files);
    var f1 := Pass1(read1, files);
    var f2 := Pass1(read2, files);
    if f1.crash.None? {
      Pass2Shape(ReadInherited(env, rng1), ReadInherited(env, rng2), f1.registry, |f1.registry|, f1, f2);
    }
  }

  // ---------------------------------------------------------------------------
  // The dictionary of base types.

  /** A first-pass reader keeps every key of the dictionary and every name of a set unique. */
  ghost predicate KeepsWellFormed(read: HeaderReader) {
    forall file, reg, addr :: WellFormed(reg) && read(file, reg, addr).Ok? ==> WellFormed(read(file, reg, addr).value.registry)
  }

  lemma MakeTestInfoWellFormed(env: Env, file: string, reg: seq<Family>, rng: Entropy, addr: seq<nat>)
    requires WellFormed(reg)
    ensures MakeTestInfo(env, file, reg, rng, addr).Ok? ==> WellFormed(MakeTestInfo(env, file, reg, rng, addr).value.registry)
  {
    if file in env.headers {
      var lines := env.headers[file];
      var name := RecordName(env.typesDir + "/" + file);
      if !HasLogMarkers(lines) {
        EnsureWellFormed(reg, name);
      } else if |BlockStarts(lines)| == 0 {
        AddDerivedWellFormed(reg, GetBaseType(lines), name);
      }
    }
  }

  lemma ReadHeaderWellFormed(env: Env, rng: Entropy)
    ensures KeepsWellFormed(ReadHeader(env, rng))
  {
    forall file, reg, addr | WellFormed(reg) && ReadHeader(env, rng)(file, reg, addr).Ok?
      ensures WellFormed(ReadHeader(env, rng)(file, reg, addr).value.registry)
    {
      MakeTestInfoWellFormed(env, file, reg, rng, addr);
    }
  }

  lemma {:induction false} Pass1WellFormed(read: HeaderReader, files: seq<string>)
    requires KeepsWellFormed(read)
    ensures WellFormed(Pass1(read, files).registry)
    decreases |files|
  {
    if |files| == 0 {
      assert Bases([]) == [];
    } else {
      Pass1WellFormed(read, files[..|files| - 1]);
      var before := Pass1(read, files[..|files| - 1]);
      if before.crash.None? && Contains(files[|files| - 1], ".hpp") {
        var m := read(files[|files| - 1], before.registry, [0, |files| - 1]);
        assert WellFormed(before.registry) && m.Ok? ==> WellFormed(m.value.registry);
      }
    }
  }

  /** The pair names a key of the dictionary and a name of its set. */
  ghost predicate InRegistry(reg: seq<Family>, pair: (string, string)) {
    exists i :: 0 <= i < |reg| && reg[i].base == pair.0 && pair.1 in reg[i].derived
  }

  /** Every pair of the schedule pairs a key of the dictionary with a name of its set. */
  lemma {:induction false} ScheduleFrom(reg: seq<Family>)
    ensures forall j :: 0 <= j < |Schedule(reg)| ==> InRegistry(reg, Schedule(reg)[j])
    decreases |reg|
  {
    if |reg| > 0 {
      var front := reg[..|reg| - 1];
      ScheduleFrom(front);
      forall j | 0 <= j < |Schedule(reg)| ensures InRegistry(reg, Schedule(reg)[j]) {
        if j < |Schedule(front)| {
          assert InRegistry(front, Schedule(front)[j]);
          var i :| 0 <= i < |front| && front[i].base == Schedule(front)[j].0 && Schedule(front)[j].1 in front[i].derived;
          assert reg[i] == front[i];
        } else {
          var last := reg[|reg| - 1];
          assert Schedule(reg)[j] == (last.base, last.derived[j - |Schedule(front)|]);
          assert last.derived[j - |Schedule(front)|] in last.derived;
        }
      }
    }
  }

  /** In a well-formed dictionary the second pass meets every (base, log type) pair once. */
  lemma {:induction false} ScheduleNoRepeats(reg: seq<Family>)
    requires WellFormed(reg)
    ensures forall a, b :: 0 <= a < b < |Schedule(reg)| ==> Schedule(reg)[a] != Schedule(reg)[b]
    decreases |reg|
  {
    if |reg| > 0 {
      var front := reg[..|reg| - 1];
      var last := reg[|reg| - 1];
      assert WellFormed(front) by {
        forall i, j | 0 <= i < j < |front| ensures Bases(front)[i] != Bases(front)[j] {
          assert Bases(reg)[i] != Bases(reg)[j];
        }
      }
      ScheduleNoRepeats(front);
      ScheduleFrom(front);
      var s := Schedule(reg);
      var n := |Schedule(front)|;
      forall a, b | 0 <= a < b < |s| ensures s[a] != s[b] {
        if b >= n && a < n {
          assert InRegistry(front, Schedule(front)[a]);
          var i :| 0 <= i < |front| && front[i].base == Schedule(front)[a].0 && Schedule(front)[a].1 in front[i].derived;
          assert Bases(reg)[i] != Bases(reg)[|reg| - 1];
        } else if a >= n {
          assert s[a] == (last.base, last.derived[a - n]) && s[b] == (last.base, last.derived[b - n]);
        }
      }
    }
  }

  /** The dictionary a run leaves has each base type once, and each set each name once; so
      the second pass renders no (base, log type) pair twice. */
  lemma GenerateWellFormed(env: Env, rng: Entropy)
    ensures WellFormed(Generate(env, rng).registry)
    ensures var reg := Generate(env, rng).registry;
            forall a, b :: 0 <= a < b < |Schedule(reg)| ==> Schedule(reg)[a] != Schedule(reg)[b]
  {
    ReadHeaderWellFormed(env, rng);
    Pass1WellFormed(ReadHeader(env, rng), Sort(env.listing));
    ScheduleNoRepeats(Generate(env, rng).registry);
  }
}
