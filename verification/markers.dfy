/** Line-level recognisers of a log-type header: the two markers that make a log type
    concrete, and the `#include` line that names its base type. */
module Markers {
  import opened Wrappers
  import opened PyStr

  /** The literal part of the event-code pattern; `[A-Za-z_0-9]*;` follows it. */
  const EventCodePrefix := "flatlogs::eventCodeT eventCode = eventCodes::"

  /** The literal part of the default-level pattern; `[A-Za-z_0-9]*;` follows it. */
  const DefaultLevelPrefix := "flatlogs::logPrioT defaultLevel = flatlogs::logPrio::"

  /** Positions `a` up to `b` of `s` are all identifier characters. */
  ghost predicate IdentRun(s: string, a: int, b: int) {
    forall t :: a <= t < b && 0 <= t < |s| ==> IsIdentChar(s[t])
  }

  /** `[A-Za-z_0-9]*;` matches at position `k` of `s`, the run being `n` characters long. */
  ghost predicate RunThenSemicolon(s: string, k: nat, n: nat) {
    k + n < |s| && IdentRun(s, k, k + n) && s[k + n] == ';'
  }

  /** The pattern matches at position `i` of `line`, its identifier run being `n` characters long. */
  ghost predicate MatchAt(line: string, prefix: string, i: nat, n: nat) {
    OccursAt(line, prefix, i) && RunThenSemicolon(line, i + |prefix|, n)
  }

  /** `re.search(prefix + "[A-Za-z_0-9]*;", line)` finds a match: the regex semantics. */
  ghost predicate PatternFound(line: string, prefix: string) {
    exists i: nat, n: nat :: MatchAt(line, prefix, i, n)
  }

  /** The scanning form of `[A-Za-z_0-9]*;` at position `k`: skip identifier characters, then expect `;`. */
  predicate IdentThenSemicolon(s: string, k: nat)
    decreases |s| - k
  {
    k < |s| && (s[k] == ';' || (IsIdentChar(s[k]) && IdentThenSemicolon(s, k + 1)))
  }

  lemma {:induction false} IdentThenSemicolonMeansRun(s: string, k: nat)
    ensures IdentThenSemicolon(s, k) <==> exists n: nat :: RunThenSemicolon(s, k, n)
    decreases |s| - k
  {
    if k < |s| {
      IdentThenSemicolonMeansRun(s, k + 1);
      if IdentThenSemicolon(s, k) {
        if s[k] == ';' {
          assert RunThenSemicolon(s, k, 0);
        } else {
          var n: nat :| RunThenSemicolon(s, k + 1, n);
          assert RunThenSemicolon(s, k, n + 1);
        }
      }
      if n: nat :| RunThenSemicolon(s, k, n) {
        if n > 0 {
          assert IsIdentChar(s[k]) && s[k] != ';';
          assert RunThenSemicolon(s, k + 1, n - 1);
        }
      }
    } else {
      assert forall n: nat :: !RunThenSemicolon(s, k, n);
    }
  }

  /** The executable search the model uses for one marker pattern. */
  predicate MarkerIn(line: string, prefix: string) {
    exists i | 0 <= i <= |line| - |prefix| :: OccursAt(line, prefix, i) && IdentThenSemicolon(line, i + |prefix|)
  }

  /** The search agrees with the regex semantics. */
  lemma MarkerInIsPatternFound(line: string, prefix: string)
    ensures MarkerIn(line, prefix) <==> PatternFound(line, prefix)
  {
    if MarkerIn(line, prefix) {
      var i :| 0 <= i <= |line| - |prefix| && OccursAt(line, prefix, i) && IdentThenSemicolon(line, i + |prefix|);
      IdentThenSemicolonMeansRun(line, i + |prefix|);
      var n: nat :| RunThenSemicolon(line, i + |prefix|, n);
      assert MatchAt(line, prefix, i, n);
    }
    if PatternFound(line, prefix) {
      var i: nat, n: nat :| MatchAt(line, prefix, i, n);
      IdentThenSemicolonMeansRun(line, i + |prefix|);
      assert OccursAt(line, prefix, i) && IdentThenSemicolon(line, i + |prefix|);
    }
  }

  predicate IsEventCodeLine(line: string) {
    MarkerIn(line, EventCodePrefix)
  }

  predicate IsDefaultLevelLine(line: string) {
    MarkerIn(line, DefaultLevelPrefix)
  }

  /** The full-scan reading of `isValidLogType`: some line carries the event-code marker
      and some line, possibly another, carries the default-level marker. */
  predicate HasLogMarkers(lines: seq<string>) {
    (exists i | 0 <= i < |lines| :: IsEventCodeLine(lines[i]))
    && (exists j | 0 <= j < |lines| :: IsDefaultLevelLine(lines[j]))
  }

  /** `isValidLogType`: the loop with its early return, which gives the regex-level answer. */
  method IsValidLogType(lines: seq<string>) returns (valid: bool)
    ensures valid <==>
              ((exists i :: 0 <= i < |lines| && PatternFound(lines[i], EventCodePrefix))
               && (exists j :: 0 <= j < |lines| && PatternFound(lines[j], DefaultLevelPrefix)))
    ensures valid == HasLogMarkers(lines)
  {
    var hasEventCode := false;
    var hasDefaultLevel := false;
    for k := 0 to |lines|
      invariant hasEventCode <==> exists i :: 0 <= i < k && IsEventCodeLine(lines[i])
      invariant hasDefaultLevel <==> exists j :: 0 <= j < k && IsDefaultLevelLine(lines[j])
      invariant !(hasEventCode && hasDefaultLevel)
    {
      if IsEventCodeLine(lines[k]) {
        hasEventCode := true;
      }
      if IsDefaultLevelLine(lines[k]) {
        hasDefaultLevel := true;
      }
      if hasEventCode && hasDefaultLevel {
        valid := true;
        MarkersArePatterns(lines);
        return;
      }
    }
    valid := hasEventCode && hasDefaultLevel;
    MarkersArePatterns(lines);
  }

  lemma MarkersArePatterns(lines: seq<string>)
    ensures HasLogMarkers(lines) <==>
              ((exists i :: 0 <= i < |lines| && PatternFound(lines[i], EventCodePrefix))
               && (exists j :: 0 <= j < |lines| && PatternFound(lines[j], DefaultLevelPrefix)))
  {
    forall i | 0 <= i < |lines|
      ensures IsEventCodeLine(lines[i]) <==> PatternFound(lines[i], EventCodePrefix)
      ensures IsDefaultLevelLine(lines[i]) <==> PatternFound(lines[i], DefaultLevelPrefix)
    {
      MarkerInIsPatternFound(lines[i], EventCodePrefix);
      MarkerInIsPatternFound(lines[i], DefaultLevelPrefix);
    }
  }

  /** The header line `#include "<name>.hpp"`. */
  function IncludeLine(name: string): string {
    "#include \"" + name + ".hpp\""
  }

  /** A base name the pattern `[a-z_]*` admits. */
  predicate IsIncludeName(name: string) {
    forall c :: c in name ==> ('a' <= c <= 'z' || c == '_')
  }

  /** `re.search(r'^#include "[a-z_]*\.hpp"$', line)` accepts `line` naming `name`;
      `$` also matches in front of a final newline. */
  ghost predicate IncludeMatches(line: string, name: string) {
    IsIncludeName(name) && (line == IncludeLine(name) || line == IncludeLine(name) + "\n")
  }

  /** The line without the one final newline that `$` may stand in front of. */
  function Core(line: string): string {
    if |line| > 0 && line[|line| - 1] == '\n' then line[..|line| - 1] else line
  }

  lemma IncludeLineParts(name: string)
    ensures |IncludeLine(name)| == |name| + 15
    ensures IncludeLine(name)[..10] == "#include \""
    ensures IncludeLine(name)[|name| + 10..] == ".hpp\""
    ensures IncludeLine(name)[10..|name| + 10] == name
  {
  }

  lemma CoreOfMatch(line: string, name: string)
    requires IncludeMatches(line, name)
    ensures Core(line) == IncludeLine(name)
  {
    IncludeLineParts(name);
    if line != IncludeLine(name) {
      assert (IncludeLine(name) + "\n")[..|line| - 1] == IncludeLine(name);
    }
  }

  /** The text between `#include "` and `.hpp"` when the line has that shape. */
  function IncludeCandidate(line: string): Option<string> {
    var core := Core(line);
    if |core| >= 15 && core[..10] == "#include \"" && core[|core| - 5..] == ".hpp\""
    then Some(core[10..|core| - 5])
    else None
  }

  lemma CandidateOfMatch(line: string, name: string)
    requires IncludeMatches(line, name)
    ensures IncludeCandidate(line) == Some(name)
  {
    CoreOfMatch(line, name);
    IncludeLineParts(name);
  }

  lemma MatchOfCandidate(line: string)
    requires IncludeCandidate(line).Some?
    ensures Core(line) == IncludeLine(IncludeCandidate(line).value)
  {
    var core := Core(line);
    var name := core[10..|core| - 5];
    assert core == core[..10] + name + core[|core| - 5..];
  }

  /** `line.strip().split('"')[1].split(".")[0]`, the source's extraction of the base name. */
  function QuotedStem(line: string): string {
    var parts := Split(Strip(line), '"');
    if |parts| > 1 then Split(parts[1], '.')[0] else ""
  }

  /** The base name an `#include` line names: the regex decides whether the line counts,
      and the source's extraction then yields exactly the name the regex matched. */
  function IncludeTarget(line: string): (r: Option<string>)
    ensures r.Some? <==> exists name :: IncludeMatches(line, name)
    ensures r.Some? ==> IncludeMatches(line, r.value)
    ensures r.Some? ==> r.value == QuotedStem(line)
  {
    var c := IncludeCandidate(line);
    if c.Some? && IsIncludeName(c.value) then
      MatchOfCandidate(line);
      IncludeCoreLine(line);
      assert IncludeMatches(line, c.value);
      IncludeExtraction(line, c.value);
      c
    else
      assert forall name :: !IncludeMatches(line, name) by {
        forall name | IncludeMatches(line, name) ensures false {
          CandidateOfMatch(line, name);
        }
      }
      None
  }

  /** A line is its core, or its core and one final newline. */
  lemma IncludeCoreLine(line: string)
    ensures line == Core(line) || line == Core(line) + "\n"
  {
  }

  lemma StripOfMatch(line: string, name: string)
    requires IncludeMatches(line, name)
    ensures Strip(line) == IncludeLine(name)
  {
    var core := IncludeLine(name);
    IncludeLineParts(name);
    StripUnchanged(core);
    if line != core {
      assert line[0] == '#';
      assert LStrip(line, IsSpace) == line;
      assert line[..|line| - 1] == core;
      assert RStrip(line, IsSpace) == RStrip(core, IsSpace);
    }
  }

  lemma SplitOfIncludeLine(name: string)
    requires IsIncludeName(name)
    ensures Split(IncludeLine(name), '"') == ["#include ", name + ".hpp", ""]
  {
    var pieces := ["#include ", name + ".hpp", ""];
    assert Join(pieces[2..], "\"") == "";
    assert Join(pieces[1..], "\"") == name + ".hpp" + "\"" + "";
    assert Join(pieces, "\"") == "#include " + "\"" + (name + ".hpp" + "\"" + "");
    assert Join(pieces, "\"") == IncludeLine(name);
    assert '"' !in name;
    assert forall i :: 0 <= i < |pieces| ==> '"' !in pieces[i];
    SplitJoin(pieces, '"');
  }

  lemma SplitOfHeaderName(name: string)
    requires IsIncludeName(name)
    ensures Split(name + ".hpp", '.')[0] == name
  {
    assert Join([name, "hpp"], ".") == name + "." + "hpp";
    assert name + ".hpp" == Join([name, "hpp"], ".");
    assert '.' !in name;
    SplitJoin([name, "hpp"], '.');
  }

  /** `line.strip().split('"')[1].split(".")[0]` recovers the name of a matching line. */
  lemma IncludeExtraction(line: string, name: string)
    requires IncludeMatches(line, name)
    ensures QuotedStem(line) == name
  {
    StripOfMatch(line, name);
    SplitOfIncludeLine(name);
    SplitOfHeaderName(name);
  }

  /** Line `i` is the last line that `#include`s a base. */
  ghost predicate LastInclude(lines: seq<string>, i: int) {
    0 <= i < |lines| && IncludeTarget(lines[i]).Some?
    && forall j :: i < j < |lines| ==> IncludeTarget(lines[j]).None?
  }

  /** The loop of `getBaseType`: every matching line overwrites the answer so far. */
  function ScanIncludes(lines: seq<string>, current: string): string {
    if |lines| == 0 then current
    else
      var next := match IncludeTarget(lines[0]) case Some(name) => name case None => current;
      ScanIncludes(lines[1..], next)
  }

  lemma {:induction false} ScanIncludesLast(lines: seq<string>, current: string)
    ensures (forall i :: 0 <= i < |lines| ==> IncludeTarget(lines[i]).None?) ==> ScanIncludes(lines, current) == current
    ensures forall i :: LastInclude(lines, i) ==> ScanIncludes(lines, current) == IncludeTarget(lines[i]).value
  {
    if |lines| > 0 {
      var next := match IncludeTarget(lines[0]) case Some(name) => name case None => current;
      ScanIncludesLast(lines[1..], next);
      assert forall j :: 1 <= j < |lines| ==> lines[1..][j - 1] == lines[j];
      forall i | LastInclude(lines, i)
        ensures ScanIncludes(lines, current) == IncludeTarget(lines[i]).value
      {
        if i > 0 {
          assert LastInclude(lines[1..], i - 1);
        }
      }
    }
  }

  /** `getBaseType`: the name of the last `#include "x.hpp"` line, or "" when there is none. */
  function GetBaseType(lines: seq<string>): (r: string)
    ensures (forall i :: 0 <= i < |lines| ==> IncludeTarget(lines[i]).None?) ==> r == ""
    ensures forall i :: LastInclude(lines, i) ==> r == IncludeTarget(lines[i]).value
  {
    ScanIncludesLast(lines, "");
    ScanIncludes(lines, "")
  }
}
