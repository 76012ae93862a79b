/** The names the generator derives from a log type's name: the record name read from a
    header path, the output file, and the class and variable names the template uses, in
    their two forms (a concrete log type, and a type that inherits a base type's fields). */
module Names {
  import opened Wrappers
  import opened PyStr
  import opened LogModel

  // ---------------------------------------------------------------------------
  // The record name and the output file.

  /** `path.split("/")[-1].strip().split(".")[0]` */
  function RecordName(path: string): (r: string)
    ensures '/' !in r && '.' !in r
  {
    var file := Strip(LastPiece(path));
    var r := Split(file, '.')[0];
    assert '/' !in r && '.' !in r by {
      SplitPieces(path, '/');
      StripWhereKeepsOut(LastPiece(path), IsSpace, '/');
      SplitChars(file, '.', '/');
      SplitPieces(file, '.');
    }
    r
  }

  /** `path.split("/")[-1]` */
  function LastPiece(path: string): string {
    var pieces := Split(path, '/');
    pieces[|pieces| - 1]
  }

  /** `f"{name}_generated_tests.cpp"` */
  function TestFileName(name: string): string {
    name + "_generated_tests.cpp"
  }

  /** Joining one more piece appends the separator and the piece. */
  lemma {:induction false} JoinAppend(xs: seq<string>, x: string, sep: string)
    requires |xs| >= 1
    ensures Join(xs + [x], sep) == Join(xs, sep) + sep + x
    decreases |xs|
  {
    if |xs| == 1 {
      assert (xs + [x])[1..] == [x];
    } else {
      assert (xs + [x])[1..] == xs[1..] + [x];
      JoinAppend(xs[1..], x, sep);
    }
  }

  /** The header `<dir>/<stem>.hpp` is read as the record `stem`, for a stem without `/`
      or `.` that does not start with white space. */
  lemma RecordNameOfHeader(dir: string, stem: string)
    requires '/' !in stem && '.' !in stem && (|stem| == 0 || !IsSpace(stem[0]))
    ensures RecordName(dir + "/" + (stem + ".hpp")) == stem
  {
    var file := stem + ".hpp";
    HeaderFileChars(stem);
    LastPieceOfPath(dir, file);
    HeaderFileStrip(stem);
    RecordNameOfLast(dir + "/" + file, file);
    HeaderFileStem(stem);
  }

  /** A path whose last `/`-piece has nothing to strip is read as that piece's first
      `.`-piece. */
  lemma RecordNameOfLast(path: string, file: string)
    requires LastPiece(path) == file && Strip(file) == file
    ensures RecordName(path) == Split(file, '.')[0]
  {
  }

  /** The last `/`-separated piece of `<dir>/<file>` is `file`. */
  lemma LastPieceOfPath(dir: string, file: string)
    requires '/' !in file
    ensures LastPiece(dir + "/" + file) == file
  {
    var ds := Split(dir, '/');
    SplitPieces(dir, '/');
    JoinSplit(dir, '/');
    JoinAppend(ds, file, "/");
    assert forall i :: 0 <= i < |ds + [file]| ==> '/' !in (ds + [file])[i];
    SplitJoin(ds + [file], '/');
  }

  /** `<stem>.hpp` holds no `/`, and starts and ends with a character that is not white
      space. */
  lemma HeaderFileChars(stem: string)
    requires '/' !in stem && '.' !in stem && (|stem| == 0 || !IsSpace(stem[0]))
    ensures '/' !in stem + ".hpp"
    ensures (stem + ".hpp")[|stem + ".hpp"| - 1] == 'p'
    ensures !IsSpace((stem + ".hpp")[0])
  {
    var file := stem + ".hpp";
    assert forall i :: 0 <= i < |file| ==> file[i] == (if i < |stem| then stem[i] else ".hpp"[i - |stem|]);
  }

  /** `<stem>.hpp` has no white space to strip. */
  lemma HeaderFileStrip(stem: string)
    requires '/' !in stem && '.' !in stem && (|stem| == 0 || !IsSpace(stem[0]))
    ensures Strip(stem + ".hpp") == stem + ".hpp"
  {
    HeaderFileChars(stem);
    StripUnchanged(stem + ".hpp");
  }

  /** The first `.`-separated piece of `<stem>.hpp` is the stem. */
  lemma HeaderFileStem(stem: string)
    requires '.' !in stem
    ensures Split(stem + ".hpp", '.')[0] == stem
  {
    SplitPrefix(stem, ".hpp", '.');
    assert Split(".hpp", '.')[0] == "";
  }

  // ---------------------------------------------------------------------------
  // Class and variable names.

  /** The `_`-separated words of a name. */
  function Words(name: string): (r: seq<string>)
    ensures |r| >= 1 && forall i :: 0 <= i < |r| ==> '_' !in r[i]
  {
    SplitPieces(name, '_');
    Split(name, '_')
  }

  /** `[word[0] for word in words]` joined: the first character of every word, failing at the
      first empty word as `word[0]` does. */
  function Initials(words: seq<string>, name: string): (r: Result<string, Crash>)
    ensures r.Ok? <==> forall i :: 0 <= i < |words| ==> |words[i]| > 0
    ensures r.Ok? ==> |r.value| == |words| && forall i :: 0 <= i < |words| ==> r.value[i] == words[i][0]
    ensures r.Err? ==> r.error == EmptyNameWord(name)
    decreases |words|
  {
    if |words| == 0 then Ok("")
    else if |words[0]| == 0 then Err(EmptyNameWord(name))
    else
      var rest :- Initials(words[1..], name);
      assert forall i :: 1 <= i < |words| ==> words[i] == words[1..][i - 1];
      Ok([words[0][0]] + rest)
  }

  /** The class name of a concrete log type: `C` followed by every word capitalized, the
      underscores dropped. */
  function ConcreteClassName(name: string): (r: string)
    ensures |r| >= 1 && r[0] == 'C'
  {
    "C" + Concat(CapitalizedWords(name))
  }

  function CapitalizedWords(name: string): (r: seq<string>)
    ensures |r| == |Words(name)| && forall i :: 0 <= i < |r| ==> r[i] == Capitalize(Words(name)[i])
  {
    var ws := Words(name);
    seq(|ws|, i requires 0 <= i < |ws| => Capitalize(ws[i]))
  }

  /** Read case-blind, the concrete class name is `c` followed by the name with its
      underscores removed, and it holds no underscore of its own. */
  lemma ConcreteClassNameContent(name: string)
    ensures LowerStr(ConcreteClassName(name)) == "c" + LowerStr(Concat(Words(name)))
    ensures '_' !in ConcreteClassName(name)
  {
    var cs := CapitalizedWords(name);
    var r := ConcreteClassName(name);
    assert r == "C" + Concat(cs);
    LowerConcat(cs, Words(name));
    LowerStrAppend("C", Concat(cs));
    LowerOfC();
    forall i | 0 <= i < |cs| ensures '_' !in cs[i] {
      CapitalizeNoUnderscore(Words(name)[i]);
    }
    NoUnderscoreConcat(cs);
    assert '_' !in "C";
  }

  lemma LowerOfC()
    ensures LowerStr("C") == "c"
  {
    assert LowerStr("C")[0] == Lower('C') == 'c';
  }

  lemma {:induction false} LowerConcat(cs: seq<string>, ws: seq<string>)
    requires |cs| == |ws| && forall i :: 0 <= i < |cs| ==> cs[i] == Capitalize(ws[i])
    ensures LowerStr(Concat(cs)) == LowerStr(Concat(ws))
    decreases |cs|
  {
    if |cs| > 0 {
      LowerConcat(cs[1..], ws[1..]);
      LowerCapitalize(ws[0]);
      LowerStrAppend(cs[0], Concat(cs[1..]));
      LowerStrAppend(ws[0], Concat(ws[1..]));
      ConcatCons(cs);
      ConcatCons(ws);
    }
  }

  lemma ConcatCons(xs: seq<string>)
    requires |xs| > 0
    ensures Concat(xs) == xs[0] + Concat(xs[1..])
  {
  }

  lemma LowerCapitalize(w: string)
    ensures LowerStr(Capitalize(w)) == LowerStr(w)
  {
    if |w| > 0 {
      LowerUpper(w[0]);
    }
  }

  /** Capitalizing keeps a word free of underscores, so the joined words are too. */
  lemma {:induction false} NoUnderscoreConcat(cs: seq<string>)
    requires forall i :: 0 <= i < |cs| ==> '_' !in cs[i]
    ensures '_' !in Concat(cs)
    decreases |cs|
  {
    if |cs| > 0 {
      assert forall i :: 0 <= i < |cs[1..]| ==> cs[1..][i] == cs[i + 1];
      NoUnderscoreConcat(cs[1..]);
      ConcatCons(cs);
    }
  }

  /** Capitalizing changes letters only, so it adds no `_`. */
  lemma CapitalizeNoUnderscore(w: string)
    requires '_' !in w
    ensures '_' !in Capitalize(w)
  {
    var r := Capitalize(w);
    forall k | 0 <= k < |r| ensures r[k] != '_' {
      assert w[k] in w;
    }
  }


  /** The variable name of a concrete log type: the lower-cased initials of its words. */
  function ConcreteClassVarName(name: string): (r: Result<string, Crash>)
    ensures r.Ok? <==> forall i :: 0 <= i < |Words(name)| ==> |Words(name)[i]| > 0
    ensures r.Ok? ==> |r.value| == |Words(name)|
                      && forall i :: 0 <= i < |r.value| ==> r.value[i] == Lower(Words(name)[i][0])
    ensures r.Err? ==> r.error == EmptyNameWord(name)
  {
    var initials :- Initials(Words(name), name);
    Ok(LowerStr(initials))
  }

  const ClassSuffix := "_Class"

  /** The class name of an inheriting log type: the upper-cased initials of its words
      followed by `_Class`. */
  function DerivedClassName(name: string): (r: Result<string, Crash>)
    ensures r.Ok? <==> forall i :: 0 <= i < |Words(name)| ==> |Words(name)[i]| > 0
    ensures r.Ok? ==> |r.value| == |Words(name)| + |ClassSuffix|
                      && r.value[|Words(name)|..] == ClassSuffix
                      && forall i :: 0 <= i < |Words(name)| ==> r.value[i] == Upper(Words(name)[i][0])
    ensures r.Err? ==> r.error == EmptyNameWord(name)
  {
    var initials :- Initials(Words(name), name);
    Ok(UpperStr(initials) + ClassSuffix)
  }

  /** The variable name of an inheriting log type: its class name up to the first `_`,
      lower-cased. */
  function DerivedClassVarName(name: string): Result<string, Crash> {
    var className :- DerivedClassName(name);
    Ok(VarNameOfClass(className))
  }

  /** `className.split("_")[0].lower()` */
  function VarNameOfClass(className: string): string {
    LowerStr(Split(className, '_')[0])
  }

  /** Both ways of naming a log type's variable agree: the inheriting form, which goes
      through the upper-cased class name, gives the concrete form's lower-cased initials,
      and both fail on the same names. */
  lemma ClassVarNamesAgree(name: string)
    ensures DerivedClassVarName(name) == ConcreteClassVarName(name)
  {
    var ws := Words(name);
    var initials := Initials(ws, name);
    if initials.Ok? {
      var i := initials.value;
      var u := UpperStr(i);
      assert '_' !in u by {
        forall k | 0 <= k < |u| ensures u[k] != '_' {
          assert i[k] == ws[k][0];
          assert ws[k][0] in ws[k];
        }
      }
      SplitPrefix(u, ClassSuffix, '_');
      assert Split(ClassSuffix, '_')[0] == "";
      assert u + "" == u;
      assert LowerStr(u) == LowerStr(i) by {
        forall k | 0 <= k < |i| ensures Lower(u[k]) == Lower(i[k]) {
          LowerUpper(i[k]);
        }
      }
    }
  }
}
