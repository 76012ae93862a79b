/** Test-value synthesis: `getRandInt`, `getRandValFromType` and `makeTestVal`. The random
    draws come from an `Entropy` oracle; the model states which literals are possible. */
module Values {
  import opened Wrappers
  import opened PyStr
  import opened LogModel

  /** `string.ascii_lowercase + string.digits` */
  const Alphabet := "abcdefghijklmnopqrstuvwxyz0123456789"

  /** `k=10` in `random.choices`, and `range(10)` for vector elements. */
  const TextLength := 10
  const VectorLength := 10

  function Pow2(n: nat): (r: nat)
    ensures r >= 1
  {
    if n == 0 then 1 else 2 * Pow2(n - 1)
  }

  /** The prefix `type.split("_t")[0]`, the text in front of the first `_t`. */
  function WidthPrefix(t: string): string
    requires Contains(t, "_t")
  {
    t[..Find(t, "_t")]
  }

  /** The bit width `getRandInt` reads: 8 without `_t`; with `_t`, 8 when the character in
      front of it is the digit 8, and otherwise the digit two places in front of it. */
  function BitWidth(t: string): (r: Result<nat, Crash>)
    ensures !Contains(t, "_t") ==> r == Ok(8)
    ensures r.Ok? && Contains(t, "_t") ==>
              var p := Find(t, "_t");
              p >= 1 && '0' <= t[p - 1] <= '9'
              && (t[p - 1] == '8' ==> r.value == 8)
              && (t[p - 1] != '8' ==> p >= 2 && '0' <= t[p - 2] <= '9' && r.value == t[p - 2] as int - '0' as int)
    ensures r.Err? ==> Contains(t, "_t")
    ensures r.Ok? ==> r.value <= 9
    // it succeeds exactly when the digits it reads are in place
    ensures r.Ok? <==> (!Contains(t, "_t") ||
                        var p := Find(t, "_t");
                        p >= 1 && '0' <= t[p - 1] <= '9' && (t[p - 1] == '8' || (p >= 2 && '0' <= t[p - 2] <= '9')))
  {
    if !Contains(t, "_t") then Ok(8)
    else
      var head := WidthPrefix(t);
      if |head| == 0 then Err(WidthDigitMissing(t))
      else match DigitValue(head[|head| - 1])
        case None => Err(WidthNotDigit(t))
        case Some(last) =>
          if last == 8 then Ok(8)
          else if |head| < 2 then Err(WidthDigitMissing(t))
          else match DigitValue(head[|head| - 2])
            case None => Err(WidthNotDigit(t))
            case Some(tens) => Ok(tens)
  }

  /** The inclusive bounds handed to `random.randint`. */
  datatype Bounds = Bounds(lo: int, hi: int)

  /** `getRandInt` up to the draw: `[0, 2^w - 1]` for a type naming `uint`, else `[-2^(w-1), 2^(w-1) - 1]`. */
  function IntBounds(t: string): (r: Result<Bounds, Crash>)
    ensures r.Ok? ==> BitWidth(t).Ok? && r.value.lo <= r.value.hi
    ensures r.Ok? && Contains(t, "uint") ==> r.value == Bounds(0, Pow2(BitWidth(t).value) - 1)
    ensures r.Ok? && !Contains(t, "uint") ==>
              BitWidth(t).value >= 1
              && r.value == Bounds(-(Pow2(BitWidth(t).value - 1) as int), Pow2(BitWidth(t).value - 1) - 1)
    // either way the range holds 2^w values
    ensures r.Ok? ==> r.value.hi - r.value.lo + 1 == Pow2(BitWidth(t).value)
    ensures r.Err? <==> BitWidth(t).Err? || (!Contains(t, "uint") && BitWidth(t) == Ok(0))
  {
    var w :- BitWidth(t);
    if Contains(t, "uint") then Ok(Bounds(0, Pow2(w) - 1))
    else if w == 0 then Err(FractionalBound(t))
    else Ok(Bounds(-(Pow2(w - 1) as int), Pow2(w - 1) - 1))
  }

  /** A few type names and the ranges the code gives them: the width is read from the
      character two places before `_t`, so `uint16_t` gets the 1-bit range. */
  lemma IntBoundsExamples()
    ensures IntBounds("uint8_t") == Ok(Bounds(0, 255))
    ensures IntBounds("int8_t") == Ok(Bounds(-128, 127))
    ensures IntBounds("int") == Ok(Bounds(-128, 127))
    ensures IntBounds("uint16_t") == Ok(Bounds(0, 1))
    ensures IntBounds("int16_t") == Ok(Bounds(-1, 0))
    ensures IntBounds("int32_t") == Ok(Bounds(-4, 3))
  {
    Uint8Range();
    Int8Range();
    IntRange();
    Uint16Range();
    Int16Range();
    Int32Range();
  }

  lemma Uint8Range() ensures IntBounds("uint8_t") == Ok(Bounds(0, 255)) {
    Pow2Values();
    UnsignedExample("uint8_t", 5);
  }

  lemma Int8Range() ensures IntBounds("int8_t") == Ok(Bounds(-128, 127)) {
    Pow2Values();
    SignedExample("int8_t", 4);
  }

  lemma IntRange() ensures IntBounds("int") == Ok(Bounds(-128, 127)) {
    Pow2Values();
    MissingFirstChar("int", "uint");
    MissingFirstChar("int", "_t");
  }

  lemma Uint16Range() ensures IntBounds("uint16_t") == Ok(Bounds(0, 1)) {
    Pow2Values();
    UnsignedExample("uint16_t", 6);
  }

  lemma Int16Range() ensures IntBounds("int16_t") == Ok(Bounds(-1, 0)) {
    Pow2Values();
    SignedExample("int16_t", 5);
  }

  lemma Int32Range() ensures IntBounds("int32_t") == Ok(Bounds(-4, 3)) {
    Pow2Values();
    SignedExample("int32_t", 5);
  }

  lemma Pow2Values()
    ensures Pow2(1) == 2 && Pow2(2) == 4 && Pow2(7) == 128 && Pow2(8) == 256
  {
    assert Pow2(2) == 4;
    assert Pow2(4) == 16;
    assert Pow2(6) == 64;
  }

  lemma UnsignedExample(t: string, p: nat)
    requires |t| >= 4 && t[..4] == "uint" && OccursAt(t, "_t", p) && '_' !in t[..p]
    ensures Contains(t, "uint") && Find(t, "_t") == p
  {
    assert OccursAt(t, "uint", 0);
    FirstOccurrence(t, "_t", p);
  }

  lemma SignedExample(t: string, p: nat)
    requires 'u' !in t && OccursAt(t, "_t", p) && '_' !in t[..p]
    ensures !Contains(t, "uint") && Find(t, "_t") == p
  {
    MissingFirstChar(t, "uint");
    FirstOccurrence(t, "_t", p);
  }

  /** `random.randint(lo, hi)`, the draw taken from the oracle. */
  function RandInt(b: Bounds, rng: Entropy, addr: seq<nat>): (r: int)
    requires b.lo <= b.hi
    ensures b.lo <= r <= b.hi
  {
    b.lo + rng.pick(addr) % (b.hi - b.lo + 1)
  }

  /** `''.join(random.choices(ascii_lowercase + digits, k=10))` */
  function RandText(rng: Entropy, addr: seq<nat>): (r: string)
    ensures |r| == TextLength
    ensures forall c :: c in r ==> c in Alphabet
  {
    seq(TextLength, i requires 0 <= i < TextLength => Alphabet[rng.pick(addr + [i]) % |Alphabet|])
  }

  /** The branch `getRandValFromType` takes for a type; the checks run `int`, text, `bool`,
      `float`, `double`, in that order, so `"uint8_t"` and `"std::string"` never reach a later one. */
  datatype ScalarKind =
    | IntKind(bounds: Result<Bounds, Crash>)
    | TextKind
    | BoolKind
    | DecimalKind(places: nat)
    | BracesKind

  function ScalarKindOf(t: string): ScalarKind {
    if Contains(t, "int") then IntKind(IntBounds(t))
    else if Contains(t, "string") || Contains(t, "char *") then TextKind
    else if Contains(t, "bool") then BoolKind
    else if Contains(t, "float") then DecimalKind(5)
    else if Contains(t, "double") then DecimalKind(10)
    else BracesKind
  }

  /** The literals a branch can return, over every outcome of the draws. */
  ghost predicate Admits(k: ScalarKind, v: Scalar) {
    match k
    case IntKind(b) => b.Ok? && v.IntLit? && b.value.lo <= v.value <= b.value.hi
    case TextKind => v.StrLit? && |v.chars| == TextLength && forall c :: c in v.chars ==> c in Alphabet
    case BoolKind => v == TrueLit
    case DecimalKind(p) => v.Decimal? && v.places == p
    case BracesKind => v == EmptyBraces
  }

  /** The literals `getRandValFromType(t)` can return. */
  ghost predicate ValidScalar(t: string, v: Scalar) {
    Admits(ScalarKindOf(t), v)
  }

  /** The exception a branch raises: only an integer type whose range cannot be formed. */
  function ScalarCrash(k: ScalarKind): Option<Crash> {
    match k
    case IntKind(Err(e)) => Some(e)
    case IntKind(Ok(b)) => if b.lo <= b.hi then None else Some(EmptyRange(b.lo, b.hi))
    case _ => None
  }

  /** One draw in a given branch. */
  function Draw(k: ScalarKind, rng: Entropy, addr: seq<nat>): (r: Result<Scalar, Crash>)
    ensures r.Ok? ==> Admits(k, r.value)
    ensures r.Err? <==> ScalarCrash(k).Some?
    ensures r.Err? ==> r.error == ScalarCrash(k).value
  {
    match k
    case IntKind(b) =>
      var range :- b;
      if range.lo <= range.hi then Ok(IntLit(RandInt(range, rng, addr)))
      else Err(EmptyRange(range.lo, range.hi))
    case TextKind => Ok(StrLit(RandText(rng, addr)))
    case BoolKind => Ok(TrueLit)
    case DecimalKind(p) => Ok(Decimal(p, rng.decimal(addr, p)))
    case BracesKind => Ok(EmptyBraces)
  }

  /** `getRandValFromType`: a literal of the type's branch; only an integer type whose range
      cannot be formed raises, with the exception the range computation raises. */
  function RandVal(t: string, rng: Entropy, addr: seq<nat>): (r: Result<Scalar, Crash>)
    ensures r.Ok? ==> ValidScalar(t, r.value)
    ensures r.Err? <==> Contains(t, "int") && IntBounds(t).Err?
    ensures r.Err? ==> r.error == IntBounds(t).error
  {
    Draw(ScalarKindOf(t), rng, addr)
  }

  /** The position of an alphabet character. */
  function AlphabetIndex(c: char): (r: nat)
    requires c in Alphabet
    ensures r < |Alphabet| && Alphabet[r] == c
  {
    FirstIndex(Alphabet, c)
  }

  function FirstIndex(s: string, c: char): (r: nat)
    requires c in s
    ensures r < |s| && s[r] == c
  {
    if s[0] == c then 0 else assert c in s[1..]; 1 + FirstIndex(s[1..], c)
  }

  /** Every literal a branch admits is drawn by some outcome of the random source, so
      `Admits` is exactly the set of values a draw can return. */
  lemma DrawComplete(k: ScalarKind, v: Scalar, addr: seq<nat>)
    requires Admits(k, v)
    ensures exists rng :: Draw(k, rng, addr) == Ok(v)
  {
    match k
    case IntKind(b) =>
      var range := b.value;
      var n: nat := v.value - range.lo;
      var rng := Entropy(a => n, (a, p) => "");
      ModSmall(n, range.hi - range.lo + 1);
      assert Draw(k, rng, addr) == Ok(v);
    case TextKind =>
      var rng := TextEntropy(v.chars);
      TextEntropyDraws(v.chars, addr);
      assert Draw(k, rng, addr) == Ok(v);
    case DecimalKind(p) =>
      var rng := Entropy(a => 0, (a, p) => v.text);
      assert Draw(k, rng, addr) == Ok(v);
    case BoolKind =>
      assert Draw(k, Entropy(a => 0, (a, p) => ""), addr) == Ok(v);
    case BracesKind =>
      assert Draw(k, Entropy(a => 0, (a, p) => ""), addr) == Ok(v);
  }

  /** Every literal the model admits for a type is one `getRandValFromType` can return. */
  lemma RandValComplete(t: string, v: Scalar, addr: seq<nat>)
    requires ValidScalar(t, v)
    ensures exists rng :: RandVal(t, rng, addr) == Ok(v)
  {
    DrawComplete(ScalarKindOf(t), v, addr);
    var rng :| Draw(ScalarKindOf(t), rng, addr) == Ok(v);
    assert RandVal(t, rng, addr) == Ok(v);
  }

  /** The draws that spell out a given text: the draw for character `i` is its alphabet position. */
  function TextEntropy(chars: string): Entropy
    requires |chars| == TextLength && forall c :: c in chars ==> c in Alphabet
  {
    Entropy(a => if |a| > 0 && a[|a| - 1] < TextLength then AlphabetIndex(chars[a[|a| - 1]]) else 0,
            (a, p) => "")
  }

  lemma ModSmall(k: nat, m: nat)
    requires k < m
    ensures k % m == k
  {
  }

  lemma TextEntropyDraws(chars: string, addr: seq<nat>)
    requires |chars| == TextLength && forall c :: c in chars ==> c in Alphabet
    ensures RandText(TextEntropy(chars), addr) == chars
  {
    var rng := TextEntropy(chars);
    var text := RandText(rng, addr);
    forall i | 0 <= i < TextLength ensures text[i] == chars[i] {
      var a := addr + [i];
      assert a[|a| - 1] == i;
      var k := AlphabetIndex(chars[i]);
      assert rng.pick(a) == k;
      ModSmall(k, |Alphabet|);
    }
  }

  /** `[getRandValFromType(t) for i in range(n)]` in a given branch, element `i` drawn at `addr + [i]`. */
  function DrawMany(k: ScalarKind, rng: Entropy, addr: seq<nat>, n: nat): (r: Result<seq<Scalar>, Crash>)
    ensures r.Ok? ==> |r.value| == n && forall i :: 0 <= i < n ==> Admits(k, r.value[i])
    ensures r.Err? <==> n > 0 && ScalarCrash(k).Some?
    ensures r.Err? ==> r.error == ScalarCrash(k).value
  {
    if n == 0 then Ok([])
    else
      var front :- DrawMany(k, rng, addr, n - 1);
      var last :- Draw(k, rng, addr + [n - 1]);
      Ok(front + [last])
  }

  /** What `makeTestVal` does for a field: one literal, ten literals of the element type for
      a type naming `vector`, or the failed lookup of a `vector` type without an element type. */
  datatype ValueKind =
    | OneValue(scalar: ScalarKind)
    | VectorOf(elem: ScalarKind)
    | VectorUntyped(nativeType: string)

  function ValueKindOf(nativeType: string, vectorType: Option<string>): ValueKind {
    if Contains(nativeType, "vector") then
      match vectorType
      case None => VectorUntyped(nativeType)
      case Some(vt) => VectorOf(ScalarKindOf(vt))
    else OneValue(ScalarKindOf(nativeType))
  }

  ghost predicate AdmitsValue(k: ValueKind, tv: TestVal) {
    match k
    case OneValue(s) => tv.Single? && Admits(s, tv.scalar)
    case VectorOf(e) => tv.Vector? && |tv.elems| == VectorLength && forall i :: 0 <= i < |tv.elems| ==> Admits(e, tv.elems[i])
    case VectorUntyped(_) => false
  }

  function ValueCrash(k: ValueKind): Option<Crash> {
    match k
    case OneValue(s) => ScalarCrash(s)
    case VectorOf(e) => ScalarCrash(e)
    case VectorUntyped(t) => Some(VectorTypeMissing(t))
  }

  function DrawValue(k: ValueKind, rng: Entropy, addr: seq<nat>): (r: Result<TestVal, Crash>)
    ensures r.Ok? ==> AdmitsValue(k, r.value)
    ensures r.Err? <==> ValueCrash(k).Some?
    ensures r.Err? ==> r.error == ValueCrash(k).value
  {
    match k
    case OneValue(s) =>
      var v :- Draw(s, rng, addr);
      Ok(Single(v))
    case VectorOf(e) =>
      var elems :- DrawMany(e, rng, addr, VectorLength);
      Ok(Vector(elems))
    case VectorUntyped(t) => Err(VectorTypeMissing(t))
  }

  /** The test values `makeTestVal` can produce for a field. */
  ghost predicate ValidTestVal(nativeType: string, vectorType: Option<string>, tv: TestVal) {
    AdmitsValue(ValueKindOf(nativeType, vectorType), tv)
  }

  /** The exception, if any, `makeTestVal` raises for a field; it depends on the types alone. */
  function TestValCrash(nativeType: string, vectorType: Option<string>): Option<Crash> {
    ValueCrash(ValueKindOf(nativeType, vectorType))
  }

  /** `makeTestVal`: for a type naming `vector`, ten literals of the element type; otherwise
      one literal of the field's own type. A `vector` type without an element type read for
      it fails as the dictionary lookup of `vectorType` does. */
  function MakeTestVal(nativeType: string, vectorType: Option<string>, rng: Entropy, addr: seq<nat>)
    : (r: Result<TestVal, Crash>)
    ensures r.Ok? && Contains(nativeType, "vector") ==>
              vectorType.Some? && r.value.Vector? && |r.value.elems| == VectorLength
              && forall i :: 0 <= i < VectorLength ==> ValidScalar(vectorType.value, r.value.elems[i])
    ensures r.Ok? && !Contains(nativeType, "vector") ==> r.value.Single? && ValidScalar(nativeType, r.value.scalar)
    ensures Contains(nativeType, "vector") && vectorType.None? ==> r == Err(VectorTypeMissing(nativeType))
    ensures r.Err? <==> TestValCrash(nativeType, vectorType).Some?
    ensures r.Err? ==> r.error == TestValCrash(nativeType, vectorType).value
  {
    DrawValue(ValueKindOf(nativeType, vectorType), rng, addr)
  }

  // ---------------------------------------------------------------------------
  // The text of a test value, as the template receives it.

  function DigitChar(d: nat): char
    requires d < 10
  {
    ('0' as int + d) as char
  }

  /** `str(n)` for a natural number. */
  function NatText(n: nat): (r: string)
    ensures |r| > 0
    ensures AllDigits(r)
    decreases n
  {
    if n < 10 then [DigitChar(n)] else NatText(n / 10) + [DigitChar(n % 10)]
  }

  /** `str(n)` for an integer. */
  function IntText(n: int): string {
    if n < 0 then "-" + NatText(-n) else NatText(n)
  }

  predicate AllDigits(s: string) {
    forall i :: 0 <= i < |s| ==> '0' <= s[i] <= '9'
  }

  /** Reads a string of decimal digits back as a number. */
  function DigitsValue(s: string): nat
    requires AllDigits(s)
  {
    if |s| == 0 then 0
    else DigitsValue(s[..|s| - 1]) * 10 + (s[|s| - 1] as int - '0' as int)
  }

  /** Reads an optional `-` and decimal digits back as an integer. */
  function ParseInt(s: string): Option<int> {
    if |s| > 1 && s[0] == '-' && AllDigits(s[1..]) then Some(-(DigitsValue(s[1..]) as int))
    else if |s| > 0 && AllDigits(s) then Some(DigitsValue(s))
    else None
  }

  lemma {:induction false} NatTextValue(n: nat)
    ensures DigitsValue(NatText(n)) == n
    decreases n
  {
    if n >= 10 {
      NatTextValue(n / 10);
      var s := NatText(n);
      assert s[..|s| - 1] == NatText(n / 10);
      assert s[|s| - 1] == DigitChar(n % 10);
    }
  }

  /** The integer literal written into a test reads back as the drawn value. */
  lemma IntTextRoundTrip(n: int)
    ensures ParseInt(IntText(n)) == Some(n)
  {
    if n < 0 {
      NatTextValue(-n);
      ParseNegative(NatText(-n));
    } else {
      NatTextValue(n);
      ParseDigits(NatText(n));
    }
  }

  lemma ParseNegative(t: string)
    requires |t| > 0 && AllDigits(t)
    ensures ParseInt("-" + t) == Some(-(DigitsValue(t) as int))
  {
    assert ("-" + t)[1..] == t;
  }

  lemma ParseDigits(t: string)
    requires |t| > 0 && AllDigits(t)
    ensures ParseInt(t) == Some(DigitsValue(t))
  {
    assert t[0] != '-';
  }

  function ScalarText(v: Scalar): string {
    match v
    case IntLit(n) => IntText(n)
    case StrLit(chars) => "\"" + chars + "\""
    case TrueLit => "true"
    case Decimal(_, text) => text
    case EmptyBraces => "{}"
  }

  function ScalarTexts(vs: seq<Scalar>): (r: seq<string>)
    ensures |r| == |vs|
    ensures forall i :: 0 <= i < |vs| ==> r[i] == ScalarText(vs[i])
  {
    seq(|vs|, i requires 0 <= i < |vs| => ScalarText(vs[i]))
  }

  /** The `testVal` string: a vector's elements are joined by `,` inside `{ ` and ` }`. */
  function TestValText(tv: TestVal): string {
    match tv
    case Single(v) => ScalarText(v)
    case Vector(elems) => "{ " + Join(ScalarTexts(elems), ",") + " }"
  }
}
