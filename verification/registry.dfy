/** `baseTypesDict`: the base types met in the first pass, in the order the dictionary first
    saw them, each with the log types that inherit its fields. A Python `set` of derived
    names is kept as a list without repeats, in the order the names were added. */
module Registry {

  datatype Family = Family(base: string, derived: seq<string>)

  function Bases(reg: seq<Family>): (r: seq<string>)
    ensures |r| == |reg| && forall i :: 0 <= i < |reg| ==> r[i] == reg[i].base
  {
    seq(|reg|, i requires 0 <= i < |reg| => reg[i].base)
  }

  predicate NoRepeats(xs: seq<string>) {
    forall i, j :: 0 <= i < j < |xs| ==> xs[i] != xs[j]
  }

  /** The dictionary has each key once, and each set has each name once. */
  ghost predicate WellFormed(reg: seq<Family>) {
    NoRepeats(Bases(reg)) && forall i :: 0 <= i < |reg| ==> NoRepeats(reg[i].derived)
  }

  /** The position of a base type among the keys. */
  function FamilyIndex(reg: seq<Family>, base: string): (r: nat)
    requires base in Bases(reg)
    ensures r < |reg| && reg[r].base == base
    ensures forall i :: 0 <= i < r ==> reg[i].base != base
  {
    if reg[0].base == base then 0
    else
      assert base in Bases(reg[1..]) by {
        var k :| 0 <= k < |reg| && Bases(reg)[k] == base;
        assert Bases(reg[1..])[k - 1] == base;
      }
      1 + FamilyIndex(reg[1..], base)
  }

  /** `if base not in d: d[base] = set()` */
  function Ensure(reg: seq<Family>, base: string): (r: seq<Family>)
    // existing keys keep their place and their sets
    ensures |reg| <= |r| <= |reg| + 1 && r[..|reg|] == reg
    // a new key comes last, with an empty set
    ensures |r| == |reg| + 1 <==> base !in Bases(reg)
    ensures |r| == |reg| + 1 ==> r[|reg|] == Family(base, [])
    ensures base in Bases(r)
  {
    if base in Bases(reg) then reg
    else
      assert Bases(reg + [Family(base, [])])[|reg|] == base;
      reg + [Family(base, [])]
  }

  /** `d[base].add(name)` after `Ensure`: the name joins the base's set once; nothing else
      changes. */
  function AddDerived(reg: seq<Family>, base: string, name: string): (r: seq<Family>)
    ensures Bases(r) == Bases(Ensure(reg, base))
    ensures var k := FamilyIndex(Ensure(reg, base), base);
            && (forall i :: 0 <= i < |r| && i != k ==> r[i] == Ensure(reg, base)[i])
            && (forall x :: x in r[k].derived <==> x in Ensure(reg, base)[k].derived || x == name)
            && Ensure(reg, base)[k].derived <= r[k].derived
  {
    var e := Ensure(reg, base);
    var k := FamilyIndex(e, base);
    var known := e[k].derived;
    var r := e[k := Family(base, if name in known then known else known + [name])];
    assert Bases(r) == Bases(e);
    r
  }

  /** Adding a key or a name keeps every key and every name unique. */
  lemma EnsureWellFormed(reg: seq<Family>, base: string)
    requires WellFormed(reg)
    ensures WellFormed(Ensure(reg, base))
  {
    var r := Ensure(reg, base);
    if |r| == |reg| + 1 {
      forall i, j | 0 <= i < j < |r| ensures Bases(r)[i] != Bases(r)[j] {
        if j == |reg| {
          assert Bases(reg)[i] == Bases(r)[i];
        } else {
          assert Bases(reg)[i] == Bases(r)[i] && Bases(reg)[j] == Bases(r)[j];
        }
      }
      forall i | 0 <= i < |r| ensures NoRepeats(r[i].derived) {
        if i < |reg| {
          assert r[i] == reg[i];
        }
      }
    }
  }

  lemma AddDerivedWellFormed(reg: seq<Family>, base: string, name: string)
    requires WellFormed(reg)
    ensures WellFormed(AddDerived(reg, base, name))
  {
    EnsureWellFormed(reg, base);
    var e := Ensure(reg, base);
    var r := AddDerived(reg, base, name);
    var k := FamilyIndex(e, base);
    assert r == e[k := r[k]];
    forall i | 0 <= i < |r| ensures NoRepeats(r[i].derived) {
      if i == k {
        var known := e[k].derived;
        if name !in known {
          assert r[k].derived == known + [name];
          forall a, b | 0 <= a < b < |known| + 1 ensures r[k].derived[a] != r[k].derived[b] {
            if b == |known| {
              assert known[a] in known;
            }
          }
        }
      }
    }
  }
}
