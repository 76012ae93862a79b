/** The fragment of Python's `str` and `list` behaviour that the generator relies on,
    stated over `string` (a sequence of code points). */
module PyStr {
  import opened Wrappers

  /** `c.isspace()` restricted to the ASCII and Latin-1 range. */
  predicate IsSpace(c: char) {
    c == ' ' || (9 <= c as int <= 13) || (28 <= c as int <= 31) || c as int == 0x85 || c as int == 0xA0
  }

  /** Text made of white space only, such as indentation or a line's newline. */
  predicate AllSpace(s: string) {
    forall i :: 0 <= i < |s| ==> IsSpace(s[i])
  }

  /** The character class `[A-Za-z_0-9]`. */
  predicate IsIdentChar(c: char) {
    ('A' <= c <= 'Z') || ('a' <= c <= 'z') || ('0' <= c <= '9') || c == '_'
  }

  /** `sub` occurs in `s` starting at position `i`. */
  predicate OccursAt(s: string, sub: string, i: int) {
    0 <= i && i + |sub| <= |s| && s[i..i + |sub|] == sub
  }

  /** `sub in s` */
  predicate Contains(s: string, sub: string) {
    exists i | 0 <= i <= |s| - |sub| :: OccursAt(s, sub, i)
  }

  /** A text that lacks the first character of `sub` does not contain `sub`. */
  lemma MissingFirstChar(s: string, sub: string)
    requires |sub| > 0 && sub[0] !in s
    ensures !Contains(s, sub)
  {
    forall i | 0 <= i <= |s| - |sub| ensures !OccursAt(s, sub, i) {
      assert s[i] in s;
      assert s[i..i + |sub|][0] == s[i];
    }
  }

  /** `sub` is first found at `k` when its first character does not occur before `k`. */
  lemma FirstOccurrence(s: string, sub: string, k: nat)
    requires |sub| > 0 && OccursAt(s, sub, k) && sub[0] !in s[..k]
    ensures Find(s, sub) == k
  {
    forall j | 0 <= j < k ensures !OccursAt(s, sub, j) {
      assert s[j] == s[..k][j];
      assert s[j..j + |sub|][0] == s[j];
    }
  }

  /** `s.find(sub)`: the first position at which `sub` occurs, or -1. */
  function Find(s: string, sub: string): (r: int)
    ensures r == -1 <==> !Contains(s, sub)
    ensures r != -1 ==> OccursAt(s, sub, r) && forall j :: 0 <= j < r ==> !OccursAt(s, sub, j)
  {
    FindFrom(s, sub, 0)
  }

  function FindFrom(s: string, sub: string, i: nat): (r: int)
    requires forall j :: 0 <= j < i ==> !OccursAt(s, sub, j)
    ensures r == -1 ==> forall j :: !OccursAt(s, sub, j)
    ensures r != -1 ==> i <= r && OccursAt(s, sub, r) && forall j :: 0 <= j < r ==> !OccursAt(s, sub, j)
    decreases |s| - i
  {
    if i + |sub| > |s| then -1
    else if s[i..i + |sub|] == sub then i
    else FindFrom(s, sub, i + 1)
  }

  /** `s.lstrip(chars)`, the set of stripped characters given as a predicate. */
  function LStrip(s: string, drop: char -> bool): (r: string)
    ensures |r| <= |s| && r == s[|s| - |r|..]
    ensures |r| > 0 ==> !drop(r[0])
    ensures forall i :: 0 <= i < |s| - |r| ==> drop(s[i])
  {
    if |s| > 0 && drop(s[0]) then
      var r := LStrip(s[1..], drop);
      assert s[1..][|s| - 1 - |r|..] == s[|s| - |r|..];
      assert forall i :: 1 <= i < |s| - |r| ==> s[i] == s[1..][i - 1];
      r
    else s
  }

  /** `s.rstrip(chars)`, the set of stripped characters given as a predicate. */
  function RStrip(s: string, drop: char -> bool): (r: string)
    ensures |r| <= |s| && r == s[..|r|]
    ensures |r| > 0 ==> !drop(r[|r| - 1])
    ensures forall i :: |r| <= i < |s| ==> drop(s[i])
  {
    if |s| > 0 && drop(s[|s| - 1]) then
      var r := RStrip(s[..|s| - 1], drop);
      assert s[..|s| - 1][..|r|] == s[..|r|];
      r
    else s
  }

  /** `s.strip(chars)` */
  function StripWhere(s: string, drop: char -> bool): string {
    RStrip(LStrip(s, drop), drop)
  }

  /** A text that strips to nothing consists of stripped characters only. */
  lemma StripWhereEmpty(s: string, drop: char -> bool)
    requires StripWhere(s, drop) == ""
    ensures forall i :: 0 <= i < |s| ==> drop(s[i])
  {
    assert |LStrip(s, drop)| == 0;
  }

  /** Stripping adds no character. */
  lemma StripWhereKeepsOut(s: string, drop: char -> bool, c: char)
    requires c !in s
    ensures c !in StripWhere(s, drop)
  {
    var l := LStrip(s, drop);
    assert c !in l by {
      forall i | 0 <= i < |l| ensures l[i] != c {
        assert l[i] == s[|s| - |l| + i];
      }
    }
    var r := RStrip(l, drop);
    assert c !in r by {
      forall i | 0 <= i < |r| ensures r[i] != c {
        assert r[i] == l[i];
      }
    }
  }

  /** `s.strip()` */
  function Strip(s: string): string {
    StripWhere(s, IsSpace)
  }

  /** The one-character set `{c}` as a predicate, for `rstrip(",")` and the like. */
  function Is(c: char): char -> bool {
    x => x == c
  }

  /** A string whose first and last characters are not white space is its own `strip()`. */
  lemma StripUnchanged(s: string)
    requires |s| > 0 && !IsSpace(s[0]) && !IsSpace(s[|s| - 1])
    ensures Strip(s) == s
  {
  }

  /** White space around a text with non-space ends is exactly what `strip()` removes. */
  lemma StripPadded(pad: string, m: string, tail: string)
    requires AllSpace(pad) && AllSpace(tail)
    requires |m| > 0 && !IsSpace(m[0]) && !IsSpace(m[|m| - 1])
    ensures Strip(pad + m + tail) == m
  {
    AppendAssoc(pad, m, tail);
    LStripPadded(pad, m + tail);
    RStripPadded(m, tail);
  }

  lemma LStripPadded(pad: string, rest: string)
    requires AllSpace(pad) && |rest| > 0 && !IsSpace(rest[0])
    ensures LStrip(pad + rest, IsSpace) == rest
  {
    var s := pad + rest;
    var l := LStrip(s, IsSpace);
    assert s[|pad|] == rest[0];
    assert |s| - |l| <= |pad|;
    assert forall i :: 0 <= i < |pad| ==> s[i] == pad[i];
    assert l == s[|pad|..];
  }

  lemma RStripPadded(m: string, tail: string)
    requires AllSpace(tail) && |m| > 0 && !IsSpace(m[|m| - 1])
    ensures RStrip(m + tail, IsSpace) == m
  {
    var s := m + tail;
    var r := RStrip(s, IsSpace);
    assert s[|m| - 1] == m[|m| - 1];
    assert |r| >= |m|;
    assert forall i :: |m| <= i < |s| ==> s[i] == tail[i - |m|];
    assert r == s[..|m|];
  }

  /** What `strip()` removes is white space before and after what it keeps. */
  lemma StripParts(s: string) returns (pad: string, tail: string)
    ensures AllSpace(pad) && AllSpace(tail) && s == pad + Strip(s) + tail
  {
    var l := LStrip(s, IsSpace);
    pad := LStripParts(s);
    tail := RStripParts(l);
    AppendAssoc(pad, RStrip(l, IsSpace), tail);
  }

  lemma AppendAssoc<T>(a: seq<T>, b: seq<T>, c: seq<T>)
    ensures a + (b + c) == a + b + c
  {
  }

  lemma LStripParts(s: string) returns (pad: string)
    ensures AllSpace(pad) && s == pad + LStrip(s, IsSpace)
  {
    var l := LStrip(s, IsSpace);
    pad := s[..|s| - |l|];
    assert AllSpace(pad) by {
      forall i | 0 <= i < |pad| ensures IsSpace(pad[i]) {
        assert pad[i] == s[i];
      }
    }
    assert s == pad + l by {
      assert l == s[|s| - |l|..];
    }
  }

  lemma RStripParts(l: string) returns (tail: string)
    ensures AllSpace(tail) && l == RStrip(l, IsSpace) + tail
  {
    var r := RStrip(l, IsSpace);
    tail := l[|r|..];
    assert AllSpace(tail) by {
      forall i | 0 <= i < |tail| ensures IsSpace(tail[i]) {
        assert tail[i] == l[|r| + i];
      }
    }
    assert l == r + tail by {
      assert r == l[..|r|];
    }
  }

  /** An occurrence of `sub` in a padded text lies inside the text when the padding before
      lacks the first character of `sub` and the padding after lacks its last. */
  lemma ContainsWithin(pad: string, m: string, tail: string, sub: string)
    requires |sub| > 0 && Contains(pad + m + tail, sub)
    requires forall i :: 0 <= i < |pad| ==> pad[i] != sub[0]
    requires forall i :: 0 <= i < |tail| ==> tail[i] != sub[|sub| - 1]
    ensures Contains(m, sub)
  {
    var s := pad + m + tail;
    var i :| 0 <= i <= |s| - |sub| && OccursAt(s, sub, i);
    assert s[i] == sub[0];
    assert s[i + |sub| - 1] == sub[|sub| - 1];
    assert |pad| <= i && i + |sub| <= |pad| + |m|;
    assert m[i - |pad|..i - |pad| + |sub|] == s[i..i + |sub|];
    assert OccursAt(m, sub, i - |pad|);
  }

  /** `s.split(sep)` for a one-character separator: every piece, empty ones included. */
  function Split(s: string, sep: char): (r: seq<string>)
    ensures |r| >= 1
  {
    if |s| == 0 then [""]
    else
      var rest := Split(s[1..], sep);
      if s[0] == sep then [""] + rest
      else [[s[0]] + rest[0]] + rest[1..]
  }

  /** No piece of a split holds the separator. */
  lemma {:induction false} SplitPieces(s: string, sep: char)
    ensures forall i :: 0 <= i < |Split(s, sep)| ==> sep !in Split(s, sep)[i]
  {
    if |s| > 0 {
      SplitPieces(s[1..], sep);
      var rest := Split(s[1..], sep);
      if s[0] != sep {
        assert sep !in [s[0]] + rest[0];
        assert forall i :: 1 <= i < |Split(s, sep)| ==> Split(s, sep)[i] == rest[i];
      }
    }
  }

  /** Every piece of a split is made of characters of the split string. */
  lemma {:induction false} SplitChars(s: string, sep: char, c: char)
    requires c !in s
    ensures forall i :: 0 <= i < |Split(s, sep)| ==> c !in Split(s, sep)[i]
  {
    if |s| > 0 {
      assert c !in s[1..] by { assert forall k :: 0 <= k < |s[1..]| ==> s[1..][k] == s[k + 1]; }
      SplitChars(s[1..], sep, c);
    }
  }

  /** `sep.join(xs)` */
  function Join(xs: seq<string>, sep: string): string {
    if |xs| == 0 then ""
    else if |xs| == 1 then xs[0]
    else xs[0] + sep + Join(xs[1..], sep)
  }

  /** `"".join(xs)` */
  function Concat(xs: seq<string>): string {
    Join(xs, "")
  }

  /** Joining the pieces of a split with the separator gives back the string. */
  lemma {:induction false} JoinSplit(s: string, sep: char)
    ensures Join(Split(s, sep), [sep]) == s
  {
    if |s| > 0 {
      JoinSplit(s[1..], sep);
      var rest := Split(s[1..], sep);
      if s[0] == sep {
        assert Split(s, sep) == [""] + rest;
        assert ([""] + rest)[1..] == rest;
      } else {
        var r := [[s[0]] + rest[0]] + rest[1..];
        assert Split(s, sep) == r;
        if |rest| == 1 {
          assert Join(r, [sep]) == [s[0]] + rest[0];
        } else {
          assert r[1..] == rest[1..];
          assert Join(rest, [sep]) == rest[0] + [sep] + Join(rest[1..], [sep]);
          assert Join(r, [sep]) == [s[0]] + rest[0] + [sep] + Join(rest[1..], [sep]);
        }
        assert s == [s[0]] + s[1..];
      }
    }
  }

  /** Splitting a string with no separator in front of `tail` glues that prefix to the first piece. */
  lemma {:induction false} SplitPrefix(w: string, tail: string, sep: char)
    requires sep !in w
    ensures Split(w + tail, sep) == [w + Split(tail, sep)[0]] + Split(tail, sep)[1..]
  {
    if |w| > 0 {
      SplitPrefix(w[1..], tail, sep);
      assert (w + tail)[1..] == w[1..] + tail;
      assert (w + tail)[0] == w[0];
      assert [w[0]] + (w[1..] + Split(tail, sep)[0]) == w + Split(tail, sep)[0];
    } else {
      var t := Split(tail, sep);
      assert w + tail == tail;
      assert w + t[0] == t[0];
      assert [t[0]] + t[1..] == t;
    }
  }

  /** `split` yields a second piece exactly when the separator occurs. */
  lemma {:induction false} SplitSeparated(s: string, sep: char)
    ensures |Split(s, sep)| >= 2 <==> sep in s
  {
    if |s| > 0 {
      SplitSeparated(s[1..], sep);
      assert sep in s <==> s[0] == sep || sep in s[1..] by {
        assert s == [s[0]] + s[1..];
      }
    }
  }

  /** A leading separator splits off an empty piece. */
  lemma SplitAfterSep(tail: string, sep: char)
    ensures Split([sep] + tail, sep) == [""] + Split(tail, sep)
  {
    assert ([sep] + tail)[1..] == tail;
  }

  /** Splitting a join of separator-free pieces gives the pieces back. */
  lemma {:induction false} SplitJoin(xs: seq<string>, sep: char)
    requires |xs| >= 1
    requires forall i :: 0 <= i < |xs| ==> sep !in xs[i]
    ensures Split(Join(xs, [sep]), sep) == xs
  {
    if |xs| == 1 {
      SplitPrefix(xs[0], "", sep);
      assert xs[0] + "" == xs[0];
    } else {
      var tail := Join(xs[1..], [sep]);
      assert forall i :: 0 <= i < |xs[1..]| ==> xs[1..][i] == xs[i + 1];
      SplitJoin(xs[1..], sep);
      SplitAfterSep(tail, sep);
      SplitPrefix(xs[0], [sep] + tail, sep);
      assert Join(xs, [sep]) == xs[0] + ([sep] + tail);
      assert xs[0] + "" == xs[0];
      assert xs == [xs[0]] + xs[1..];
    }
  }

  /** `xs.index(x)`, or -1 where Python raises `ValueError`. */
  function IndexOf(xs: seq<string>, x: string): (r: int)
    ensures r == -1 <==> x !in xs
    ensures r != -1 ==> 0 <= r < |xs| && xs[r] == x && x !in xs[..r]
  {
    if |xs| == 0 then -1
    else if xs[0] == x then 0
    else
      var k := IndexOf(xs[1..], x);
      assert xs == [xs[0]] + xs[1..];
      if k == -1 then -1
      else
        assert xs[..k + 1] == [xs[0]] + xs[1..][..k];
        k + 1
  }

  /** Python's `s[a:b]` for non-negative bounds: clamped to the string, empty when `b <= a`. */
  function Slice(s: string, a: nat, b: nat): (r: string)
    ensures |r| <= |s|
  {
    if a < b && a < |s| then s[a..if b <= |s| then b else |s|] else ""
  }

  /** `c.lower()` and `c.upper()` for ASCII letters; every other character is left alone. */
  function Lower(c: char): char {
    if 'A' <= c <= 'Z' then (c as int + 32) as char else c
  }

  function Upper(c: char): char {
    if 'a' <= c <= 'z' then (c as int - 32) as char else c
  }

  function LowerStr(s: string): (r: string)
    ensures |r| == |s|
    ensures forall i :: 0 <= i < |s| ==> r[i] == Lower(s[i])
  {
    seq(|s|, i requires 0 <= i < |s| => Lower(s[i]))
  }

  function UpperStr(s: string): (r: string)
    ensures |r| == |s|
    ensures forall i :: 0 <= i < |s| ==> r[i] == Upper(s[i])
  {
    seq(|s|, i requires 0 <= i < |s| => Upper(s[i]))
  }

  /** `w.capitalize()`: first character upper case, the rest lower case. */
  function Capitalize(w: string): (r: string)
    ensures |r| == |w|
    ensures |w| > 0 ==> r[0] == Upper(w[0])
    ensures forall i :: 1 <= i < |w| ==> r[i] == Lower(w[i])
  {
    if |w| == 0 then "" else [Upper(w[0])] + LowerStr(w[1..])
  }

  lemma LowerUpper(c: char)
    ensures Lower(Upper(c)) == Lower(c)
  {
  }

  lemma LowerStrAppend(a: string, b: string)
    ensures LowerStr(a + b) == LowerStr(a) + LowerStr(b)
  {
  }

  /** The decimal digit a one-character string denotes under `int()`, ASCII digits only. */
  function DigitValue(c: char): (r: Option<nat>)
    ensures r.Some? <==> '0' <= c <= '9'
    ensures r.Some? ==> r.value < 10 && c as int == '0' as int + r.value
  {
    if '0' <= c <= '9' then Some(c as int - '0' as int) else None
  }
}
