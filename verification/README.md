# Catch2 test generator for flatlogs log types, in Dafny

This project models the pure core of `generateTemplatedCatch2Tests.py`. That script reads the
C++ log-type headers of a types directory, and the FlatBuffers `.fbs` schema of each log type
when one exists. For each log type it builds the dictionary a Jinja2 template turns into a
Catch2 test file.

The model covers:

- **Concreteness.** `isValidLogType` decides whether a header carries both the `eventCode` and
  the `defaultLevel` markers.
- **Base type.** `getBaseType` reads the base type of an `#include` line.
- **Schema parsing.** The line loop of `getSchemaFieldInfo` reads the schema.
- **Field reading.** `getTypeAndName` and `getMessageFieldInfo` read the `messageT(...)` field
  lists, including the schema pairing and the `typesCorrespond` diagnostics.
- **Test values.** `getRandInt`, `getRandValFromType` and `makeTestVal` synthesize the values.
- **Names.** The record's name, output file, class name and variable name are derived in both
  forms, concrete and inheriting.
- **The two passes of `main`.**
  - Pass 1 walks the sorted listing through `makeTestInfoDict`, which fills the dictionary of
    base types.
  - Pass 2 builds a record with `makeInheritedTypeInfoDict` for every log type registered
    under a base.

How the Python program is represented:

- **Files.** The file system is an input value `Env`:
  - the listing of the types directory;
  - header lines by file name, as `readlines` gives them, newline included;
  - schema lines by log name;
  - the set of log names that have a generated `.h` file.
- **Exceptions.** An exception the Python code would raise is a `Crash` value, and it ends the
  run. The records rendered before it are kept.
- **Randomness.** Random draws come from an `Entropy` oracle. Each draw is addressed by a path,
  so two different draws never share an address:
  - the pass;
  - the record;
  - the message variant;
  - the line;
  - the declaration;
  - the vector element or the character.
- **Output.** The template step is left out. The output of a run is the sequence of records
  handed to the template (`Run.rendered`), plus the diagnostics printed for every header that
  was read to the end (see "## Left out" for those of a header whose reading raises).

The modules follow the script:

| module | models |
|---|---|
| `PyStr` | the `str` and `list` behaviour the script uses |
| `LogModel` | the records |
| `Correspond` | `typesCorrespond` |
| `Values` | value synthesis |
| `Fields` | `getTypeAndName` and `getMessageFieldInfo` |
| `Markers` | `isValidLogType` and `getBaseType` |
| `Schema` | `getSchemaFieldInfo` |
| `Names` | the derived names |
| `Listing` | `types.sort()` |
| `Registry` | `baseTypesDict` |
| `Generator` | `makeTestInfoDict`, `makeInheritedTypeInfoDict` and `main` |

Behaviour of the script worth noting, which the model keeps:

- **Schema tables.** Sub-tables are not flattened. Every table body is appended in file order,
  and the table name is the one on the last `table` line.
- **Type mismatches.** A mismatch is only printed. The field and the record are kept.
- **Dispatch order.** The check for `int` comes before the check for `bool`.
- **Decimals.** Floats are rounded to 5 places and doubles to 10.
- **Bit width.** The width is the digit just before `_t` when that digit is 8, and otherwise
  the digit before it. So:
  - `uint16_t` draws from [0, 1];
  - `int16_t` draws from [-1, 0];
  - `int32_t` draws from [-4, 3].
- **Unterminated field lists.** A field list that is never closed ends with the header's last
  line. The record is not rejected.
- **Exceptions.** An exception anywhere is not contained to its record. It ends the whole run.
  Examples are a missing base header, a too-short declaration and a schema with fewer entries
  than a block has fields.

## Model

All source paths are `src/tests/from_MagAOX/generateTemplatedCatch2Tests.py`.

| member | source | states |
|---|---|---|
| Correspond.TypesCorrespond | src/tests/from_MagAOX/generateTemplatedCatch2Tests.py:126-133 | the pair is accepted exactly when both sides fall in the same category: sequence (`[` / `vector`) first, then text (`string` / `string` or `char *`), everything else scalar |
| Values.BitWidth | src/tests/from_MagAOX/generateTemplatedCatch2Tests.py:248-252 | 8 without `_t`; otherwise the digit before `_t` must be a digit, and the width is 8 when it is `8`, else the digit two places before `_t`; it succeeds exactly when those characters exist and are digits, and raises otherwise |
| Values.IntBounds | src/tests/from_MagAOX/generateTemplatedCatch2Tests.py:245-258 | `uint` types get [0, 2^w - 1], all others [-2^(w-1), 2^(w-1) - 1]; the range always holds 2^w values; a signed width 0 raises |
| Values.IntBoundsExamples | src/tests/from_MagAOX/generateTemplatedCatch2Tests.py:245-258 | `uint8_t` gives [0, 255], `int8_t` and `int` give [-128, 127], `uint16_t` gives [0, 1], `int16_t` gives [-1, 0], `int32_t` gives [-4, 3] |
| Values.RandInt | src/tests/from_MagAOX/generateTemplatedCatch2Tests.py:257-260 | the drawn integer lies within the bounds |
| Values.RandText | src/tests/from_MagAOX/generateTemplatedCatch2Tests.py:266 | ten characters, each a lower-case letter or a digit |
| Values.TextEntropyDraws | src/tests/from_MagAOX/generateTemplatedCatch2Tests.py:266 | every ten-character string over that alphabet is drawn by some random source |
| Values.RandVal | src/tests/from_MagAOX/generateTemplatedCatch2Tests.py:262-275 | the literal is one the first matching branch (`int`, text, `bool`, `float`, `double`, else `{}`) can give; it raises exactly when an `int` type's range cannot be formed |
| Values.RandValComplete | src/tests/from_MagAOX/generateTemplatedCatch2Tests.py:262-275 | conversely, every literal valid for the type is produced by some random source |
| Values.DrawMany | src/tests/from_MagAOX/generateTemplatedCatch2Tests.py:280 | n draws, each admitted by the element type; it raises exactly when n > 0 and the element type raises |
| Values.MakeTestVal | src/tests/from_MagAOX/generateTemplatedCatch2Tests.py:278-283 | a `vector` type gives ten valid literals of its `vectorType`, any other type one valid literal of its own type; a `vector` type without an element type raises the `KeyError` |
| Values.IntTextRoundTrip | src/tests/from_MagAOX/generateTemplatedCatch2Tests.py:264 | `str(n)` of the drawn integer reads back as n |
| Fields.GetTypeAndName | src/tests/from_MagAOX/generateTemplatedCatch2Tests.py:213-228 | it raises exactly when there is no token at the name's place: after the type, which follows an optional `const`, and after a lone `&` or `*`; the name is that token with `)` and then `,` stripped off its end, so it never ends in `,` |
| Fields.TypeAndNameRoundTrip | src/tests/from_MagAOX/generateTemplatedCatch2Tests.py:213-228 | a declaration written `[const] T [&\|*] name,)` reads back as (T, name), with ` *` appended for a pointer and `&` dropped |
| Fields.TokensRead | src/tests/from_MagAOX/generateTemplatedCatch2Tests.py:215-226 | `const` moves the type index from 0 to 1, `&` is skipped, `*` is appended as ` *`, and `)` then `,` are stripped from the name, whatever tokens follow it |
| Fields.NamelessDeclRaises | src/tests/from_MagAOX/generateTemplatedCatch2Tests.py:216-226 | a declaration cut off after its type or its `&` / `*` raises |
| Fields.ConstReferenceExample | src/tests/from_MagAOX/generateTemplatedCatch2Tests.py:213-228 | `const std::string & msg )` reads as (`std::string`, `msg`) |
| Fields.VectorElementType | src/tests/from_MagAOX/generateTemplatedCatch2Tests.py:335-338 | the element type has no `<` and does not start or end with `>`; it raises exactly when the first `<`-piece naming `std::vector` is the last piece |
| Fields.VectorTypeRoundTrip | src/tests/from_MagAOX/generateTemplatedCatch2Tests.py:335-338 | `prefix<elem>` with `std::vector` in the prefix gives back `elem` |
| Fields.KindOf | src/tests/from_MagAOX/generateTemplatedCatch2Tests.py:306-314 | a line without `)` continues the block; a line that ends the block unparsed holds nothing but `)` after white space |
| Fields.CommentedParenContinues | src/tests/from_MagAOX/generateTemplatedCatch2Tests.py:307-310 | a `)` that only appears after `//` does not close the block |
| Fields.BareParenFinishes | src/tests/from_MagAOX/generateTemplatedCatch2Tests.py:311-312 | a line of nothing but `)`, with any white space before it and after it (indentation, the newline `readlines` keeps), ends the block without adding a field |
| Fields.Segment | src/tests/from_MagAOX/generateTemplatedCatch2Tests.py:318-320 | the kept segment is never longer than the line; it is the whole line without either marker, all after the first `messageT(`, all before the first `//`, the text between the two, or empty when the comment starts before the declarations |
| Fields.UpToComment | src/tests/from_MagAOX/generateTemplatedCatch2Tests.py:324-327 | the declarations kept are a prefix that stops exactly at the first whose first token holds `//` |
| Fields.MismatchOf | src/tests/from_MagAOX/generateTemplatedCatch2Tests.py:341-347 | a diagnostic (name, schema type, type) exists exactly when the field has a schema entry whose type does not correspond |
| Fields.ReadDeclTokens | src/tests/from_MagAOX/generateTemplatedCatch2Tests.py:330-339 | the type and name are `getTypeAndName`'s, `vectorType` is set exactly for `std::vector` types, and it fails exactly when one of those two steps raises |
| Fields.ParseField | src/tests/from_MagAOX/generateTemplatedCatch2Tests.py:330-353 | the field carries the declaration's type, name and vector type and the schema entry `count`; it raises exactly when the declaration, the schema index or `makeTestVal` raises |
| Fields.BlockStarts | src/tests/from_MagAOX/generateTemplatedCatch2Tests.py:186-189 | exactly the lines holding `messageT(`, in increasing order |
| Fields.GetMessageFieldInfo | src/tests/from_MagAOX/generateTemplatedCatch2Tests.py:292-359 | one field list per `messageT(` line; the k-th field of each list pairs with schema entry k; every field's test value is one `makeTestVal` can give; the diagnostics are those of every mismatched field in order |
| Fields.MessageFieldInfoShape | src/tests/from_MagAOX/generateTemplatedCatch2Tests.py:292-359 | the random source changes only test values: the fields, the schema pairing, the diagnostics and any exception are the same for every outcome |
| Fields.ReadBlocksValues | src/tests/from_MagAOX/generateTemplatedCatch2Tests.py:296-357 | every field of every block read holds a test value valid for its types, whether or not the types correspond |
| Fields.ReadBlocksOutline | src/tests/from_MagAOX/generateTemplatedCatch2Tests.py:296-357 | reading the blocks agrees, field for field, with a reading that draws nothing |
| Markers.MarkerInIsPatternFound | src/tests/from_MagAOX/generateTemplatedCatch2Tests.py:146-151 | the scan for a marker agrees with the regular expression `<prefix>[A-Za-z_0-9]*;` found anywhere in the line |
| Markers.IsValidLogType | src/tests/from_MagAOX/generateTemplatedCatch2Tests.py:140-159 | true exactly when some line has the `eventCode` pattern and some line, maybe another, has the `defaultLevel` pattern; the early return gives the full scan's answer |
| Markers.IncludeTarget | src/tests/from_MagAOX/generateTemplatedCatch2Tests.py:68-71 | a name exactly when the line matches `^#include "[a-z_]*\.hpp"$`, and the name is the one the `split` chain extracts |
| Markers.IncludeExtraction | src/tests/from_MagAOX/generateTemplatedCatch2Tests.py:71 | on a matching line, `strip().split('"')[1].split(".")[0]` gives exactly the matched name |
| Markers.GetBaseType | src/tests/from_MagAOX/generateTemplatedCatch2Tests.py:64-72 | `""` without any matching line, otherwise the name on the last matching line |
| Schema.SchemaStep | src/tests/from_MagAOX/generateTemplatedCatch2Tests.py:93-116 | pairs are only appended, at most one per line and only inside a body; a commented body line is dropped even with `}`; `{` opens a body on a `table` line only as a token of its own; only a `table` line renames the table |
| Schema.BodyCloseStep | src/tests/from_MagAOX/generateTemplatedCatch2Tests.py:102-109 | in a body, a line that holds no `table` and, stripped, holds `}` but no `//` closes the body |
| Schema.BodyPairStep | src/tests/from_MagAOX/generateTemplatedCatch2Tests.py:102-116 | any other non-blank body line adds the pair around its first `:` once `;` is stripped off its end, and a line without `:` raises |
| Schema.IndentedEntryLineStep | src/tests/from_MagAOX/generateTemplatedCatch2Tests.py:102-116 | an indented `name:type;` line ending in a newline, as read from the file, adds exactly that pair |
| Schema.TableLineStep | src/tests/from_MagAOX/generateTemplatedCatch2Tests.py:94-100 | outside a body, a line `table N {` ending in any white space, such as its newline, names the table N and opens a body, keeping the pairs read so far |
| Schema.CloseLineStep | src/tests/from_MagAOX/generateTemplatedCatch2Tests.py:102-109 | in a body, a `}` line ending in any white space closes the body and adds no pair |
| Schema.SchemaScanAppend | src/tests/from_MagAOX/generateTemplatedCatch2Tests.py:93-116 | scanning two runs of lines is scanning the first, then the second from where the first ended |
| Schema.GetSchemaFieldInfo | src/tests/from_MagAOX/generateTemplatedCatch2Tests.py:84-118 | no schema file gives `("", ())` |
| Schema.TableRoundTrip | src/tests/from_MagAOX/generateTemplatedCatch2Tests.py:93-116 | a table written `table N {`, `name:type;` lines and `}`, its pair lines indented by any white space and every line ended by any white space such as a newline, reads back as N and its pairs, in order |
| Schema.TwoTablesConcatenate | src/tests/from_MagAOX/generateTemplatedCatch2Tests.py:90-118 | two tables in one file, indented and ended by newlines as above, give the second table's name and both bodies' pairs, concatenated |
| Names.RecordName | src/tests/from_MagAOX/generateTemplatedCatch2Tests.py:168-169 | the name read from a path holds no `/` and no `.` |
| Names.RecordNameOfHeader | src/tests/from_MagAOX/generateTemplatedCatch2Tests.py:168-169 | the header `<dir>/<stem>.hpp` is read as `stem` |
| Names.ConcreteClassName | src/tests/from_MagAOX/generateTemplatedCatch2Tests.py:172 | the class name starts with `C` |
| Names.ConcreteClassNameContent | src/tests/from_MagAOX/generateTemplatedCatch2Tests.py:172 | case aside, the class name is `c` followed by the log name without its underscores, and it holds no `_` |
| Names.ConcreteClassVarName | src/tests/from_MagAOX/generateTemplatedCatch2Tests.py:173 | one lower-cased initial per `_`-separated word; it raises exactly when a word is empty |
| Names.DerivedClassName | src/tests/from_MagAOX/generateTemplatedCatch2Tests.py:371 | one upper-cased initial per word followed by `_Class`; it raises exactly when a word is empty |
| Names.ClassVarNamesAgree | src/tests/from_MagAOX/generateTemplatedCatch2Tests.py:371-372 | the inheriting variable name (class name up to `_`, lower-cased) equals the concrete one, and both raise on the same names |
| Listing.Sort | src/tests/from_MagAOX/generateTemplatedCatch2Tests.py:427-428 | the result is sorted by Python string order and is a permutation of the listing |
| Listing.SortIndependentOfListing | src/tests/from_MagAOX/generateTemplatedCatch2Tests.py:427-428 | two listings of the same names sort alike |
| Listing.SortedUnique | src/tests/from_MagAOX/generateTemplatedCatch2Tests.py:428 | two sorted lists of the same names are equal |
| Registry.Ensure | src/tests/from_MagAOX/generateTemplatedCatch2Tests.py:181-182 | existing keys keep their place and sets; a missing key is added last with an empty set |
| Registry.AddDerived | src/tests/from_MagAOX/generateTemplatedCatch2Tests.py:199-203 | after ensuring the key, the name joins that key's set and nothing else changes |
| Registry.AddDerivedWellFormed | src/tests/from_MagAOX/generateTemplatedCatch2Tests.py:199-203 | keys and set members stay unique |
| Generator.MakeTestInfo | src/tests/from_MagAOX/generateTemplatedCatch2Tests.py:163-208 | without the markers the name becomes a key; with the markers but no `messageT(` it joins the set of its included base; with both a record named after the header, with `flatbuffer_log` as base, is rendered unless reading raises; opening and naming fail first; it raises exactly when the header is missing, the variable name needs an empty word, or a marked header's schema, or its `messageT(` blocks when it has any, cannot be read |
| Generator.ConcreteRecordRead | src/tests/from_MagAOX/generateTemplatedCatch2Tests.py:185-207 | a concrete record holds the schema's table name, blocks shaped as its own header's `messageT(` lists read against its own schema, and the diagnostics of those blocks |
| Generator.MakeTestInfoShape | src/tests/from_MagAOX/generateTemplatedCatch2Tests.py:163-208 | two random sources give the same registry changes, diagnostics, record structure and exception |
| Generator.MakeTestInfoWellFormed | src/tests/from_MagAOX/generateTemplatedCatch2Tests.py:179-204 | keys and set members stay unique |
| Generator.MakeInheritedTypeInfo | src/tests/from_MagAOX/generateTemplatedCatch2Tests.py:361-391 | the record carries the asked-for name and base and the inheriting names; a base naming `empty_log` gives `[[]]` and no diagnostics; a missing base header raises first; it raises exactly when the base header is missing, the class name needs an empty word, the base's schema cannot be read, or, for a base not naming `empty_log`, the base's `messageT(` blocks cannot be read |
| Generator.MakeInheritedTypeInfoShape | src/tests/from_MagAOX/generateTemplatedCatch2Tests.py:361-391 | two random sources give the same record structure, diagnostics and exception |
| Generator.InheritedRecordRead | src/tests/from_MagAOX/generateTemplatedCatch2Tests.py:377-389 | an inheriting record holds the base schema's table name and, unless the base names `empty_log`, blocks shaped as the base header's `messageT(` lists read against the base's schema, with their diagnostics |
| Generator.InheritedLikeBase | src/tests/from_MagAOX/generateTemplatedCatch2Tests.py:185-207 | an inheriting record has the table name, block shapes and diagnostics of its base's own concrete record |
| Generator.Step1 | src/tests/from_MagAOX/generateTemplatedCatch2Tests.py:430-450 | a name without `.hpp` changes nothing; otherwise records and diagnostics are only appended |
| Generator.Pass1 | src/tests/from_MagAOX/generateTemplatedCatch2Tests.py:427-450 | at most one record per listed name |
| Generator.Pass1Concrete | src/tests/from_MagAOX/generateTemplatedCatch2Tests.py:430-450 | every first-pass record is a concrete log type's record |
| Generator.Step2 | src/tests/from_MagAOX/generateTemplatedCatch2Tests.py:458-470 | exactly the inheriting record is appended unless reading it raises |
| Generator.Pass2Follows | src/tests/from_MagAOX/generateTemplatedCatch2Tests.py:453-470 | the second pass renders one record per (base, name) pair in dictionary order, named after the log type and inheriting from the base; empty sets add nothing; an exception cuts the schedule short |
| Generator.PassesSchedule | src/tests/from_MagAOX/generateTemplatedCatch2Tests.py:453-470 | after a first pass without exception, the run follows the schedule of the dictionary the first pass built |
| Generator.GenerateNamed | src/tests/from_MagAOX/generateTemplatedCatch2Tests.py:427-470 | every rendered record's output file is `<name>_generated_tests.cpp` and its variable name is the lower-cased initials of its words |
| Generator.GenerateShape | src/tests/from_MagAOX/generateTemplatedCatch2Tests.py:427-470 | two runs on the same inputs, with the sets of derived names visited in the order the names were added, render the same records, fields, names and order, print the same diagnostics and fail alike; only test values differ |
| Generator.GenerateWellFormed | src/tests/from_MagAOX/generateTemplatedCatch2Tests.py:429-470 | the dictionary holds each base once and each log type once per base, so no (base, name) pair is visited twice |
| Generator.Written | src/tests/from_MagAOX/generateTemplatedCatch2Tests.py:448-450 | every rendered record has its file; each file holds a record rendered for it; the last record rendered wins its file |
| Generator.WrittenLastWins | src/tests/from_MagAOX/generateTemplatedCatch2Tests.py:448-470 | in both passes each file is opened with `"w"`, so every file holds the last record rendered for it, whichever pass rendered it |

## Left out

- Installing and loading Jinja2, and rendering the template (lines 51-57, 401-407, 445, 465):
  - this is a foreign library;
  - the model's output is the records that would be rendered.
- Path building, creating and clearing the output directory, and `os.listdir` (lines 79-82,
  234-237, 409-427):
  - the listing and the file contents are inputs;
  - a listed name the directory holds no header for makes `open` raise.
- `hasGeneratedHFile` (lines 233-243): modelled as a lookup in a set of log names, which is an
  input.
- `print` of `LOGNAME` and the Python version check with `exit` (lines 170, 368, 397-399):
  these are side effects only. The mismatch messages (lines 346-347) are returned as data, for
  every header whose reading completes.
- Diagnostics printed before an exception: when reading a header raises, the mismatch messages
  already printed for its earlier fields are not recorded. For example, with the schema
  `a:string;` and the header line `messageT( int a, int b )`, the script prints the mismatch
  for `a` and then raises an `IndexError` at line 342. The model records the crash alone.
- The random number generator (lines 260, 266, 271-273): it is an oracle of addressed draws,
  and the float and double texts are opaque strings.
  - Values.RandVal: states the number of decimal places requested, not that the text is a
    rounded number in [0, 1).
- Python's `set` iteration order: it depends on string hashing. The set of derived names is
  visited in the order the names were added.
- Generator.GenerateShape: the same order of records is promised for this fixed set order
  only. Under string-hash randomisation the script may render a base's inheriting records in
  a different order from one run to the next.
- Unicode: `capitalize`, `lower`, `upper` and `isspace` are ASCII-only, with `isspace`
  extended by the Latin-1 space characters. `PyStr.DigitValue` accepts only the ASCII digits,
  where `int()` at lines 250-252 accepts any Unicode decimal digit.
- Values.Draw: the `EmptyRange` error of `randint` with its bounds the wrong way round cannot
  arise from `IntBounds`. It is kept so that the kinds of scalar need no invariant.
- Generator.Pass2: its own contract only states that records are appended. What it appends is
  stated by Generator.Pass2Follows.
- Schema.GetSchemaFieldInfo: its own contract covers only the missing file. Parsing is stated
  line by line by Schema.SchemaStep, Schema.BodyCloseStep and Schema.BodyPairStep, and on whole
  tables, indented and ended by newlines, by Schema.TableRoundTrip.
- `src/tests/from_MagAOX/git_state_tests.cpp` and `src/tests/from_MagAOX/do_tests.cpp` are not
  part of this model. They are test harnesses over generated FlatBuffers accessors.
- `include/flatlogs/flatlogs.hpp` is not part of this model. It only aggregates includes.
