// Ids of scalar types: packing a type's fields, and finding the type again by its id.
module ScalarTypes {
  import opened Bits
  import opened Wrappers

  datatype NanRepr = NONE | IEEE_754 | EXTD_RANGE_MAX_MIN

  datatype ScalarType = ScalarType(exponent: int, mantissa: int, signed: bool, bias: int,
                                   finiteValuesOnly: bool, nanRepr: NanRepr)

  function NanValue(n: NanRepr): nat {
    match n
    case NONE => 0
    case IEEE_754 => 1
    case EXTD_RANGE_MAX_MIN => 2
  }

  function BoolValue(b: bool): nat {
    if b then 1 else 0
  }

  /** Six numbers of 8, 8, 1, 32, 1 and 8 bits, side by side. */
  function Layout(e: nat, m: nat, s: nat, b: nat, f: nat, n: nat): nat {
    e + m * 0x100 + s * 0x1_0000 + b * 0x2_0000 + f * 0x2_0000_0000_0000 + n * 0x4_0000_0000_0000
  }

  function Packed(t: ScalarType): nat {
    Layout(t.exponent % 0x100, t.mantissa % 0x100, BoolValue(t.signed), t.bias % 0x1_0000_0000,
           BoolValue(t.finiteValuesOnly), NanValue(t.nanRepr))
  }

  lemma LayoutInjective(e: nat, m: nat, s: nat, b: nat, f: nat, n: nat,
                        e': nat, m': nat, s': nat, b': nat, f': nat, n': nat)
    requires e < 0x100 && m < 0x100 && s < 2 && b < 0x1_0000_0000 && f < 2 && n < 0x100
    requires e' < 0x100 && m' < 0x100 && s' < 2 && b' < 0x1_0000_0000 && f' < 2 && n' < 0x100
    requires Layout(e, m, s, b, f, n) == Layout(e', m', s', b', f', n')
    ensures e == e' && m == m' && s == s' && b == b' && f == f' && n == n'
  {
    var l4, l4' := e + m * 0x100 + s * 0x1_0000 + b * 0x2_0000, e' + m' * 0x100 + s' * 0x1_0000 + b' * 0x2_0000;
    Peel(l4 + f * 0x2_0000_0000_0000, l4' + f' * 0x2_0000_0000_0000, n, n', 0x4_0000_0000_0000);
    Peel(l4, l4', f, f', 0x2_0000_0000_0000);
    Peel(e + m * 0x100 + s * 0x1_0000, e' + m' * 0x100 + s' * 0x1_0000, b, b', 0x2_0000);
    Peel(e + m * 0x100, e' + m' * 0x100, s, s', 0x1_0000);
    Peel(e, e', m, m', 0x100);
  }

  lemma LayoutBound(e: nat, m: nat, s: nat, b: nat, f: nat, n: nat)
    requires e < 0x100 && m < 0x100 && s < 2 && b < 0x1_0000_0000 && f < 2 && n < 0x100
    ensures Layout(e, m, s, b, f, n) < 0x400_0000_0000_0000
  {
  }

  lemma Peel(x: nat, x': nat, n: nat, n': nat, k: nat)
    requires x < k && x' < k && x + n * k == x' + n' * k
    ensures x == x' && n == n'
  {
    assert (n - n') * k == x' - x && (n' - n) * k == x - x';
    if n > n' {
      AtLeast(k, n - n');
    } else if n < n' {
      AtLeast(k, n' - n);
    }
  }

  /** Two types that differ only by what the fields of an id cannot hold. */
  predicate Congruent(t: ScalarType, u: ScalarType) {
    && t.exponent % 0x100 == u.exponent % 0x100 && t.mantissa % 0x100 == u.mantissa % 0x100
    && t.bias % 0x1_0000_0000 == u.bias % 0x1_0000_0000
    && t.signed == u.signed && t.finiteValuesOnly == u.finiteValuesOnly && t.nanRepr == u.nanRepr
  }

  /** An id determines each of its fields, and nothing more. */
  lemma SameIdExact(t: ScalarType, u: ScalarType)
    ensures Packed(t) == Packed(u) <==> Congruent(t, u)
    ensures Packed(t) < Pow2(58)
  {
    hide Layout;
    LayoutBound(t.exponent % 0x100, t.mantissa % 0x100, BoolValue(t.signed), t.bias % 0x1_0000_0000,
                BoolValue(t.finiteValuesOnly), NanValue(t.nanRepr));
    if Packed(t) == Packed(u) {
      LayoutInjective(t.exponent % 0x100, t.mantissa % 0x100, BoolValue(t.signed), t.bias % 0x1_0000_0000,
                      BoolValue(t.finiteValuesOnly), NanValue(t.nanRepr),
                      u.exponent % 0x100, u.mantissa % 0x100, BoolValue(u.signed), u.bias % 0x1_0000_0000,
                      BoolValue(u.finiteValuesOnly), NanValue(u.nanRepr));
    }
    Widths();
    hide Pow2;
  }

  /** Where the fields stand in an id. */
  lemma FieldsOfId(t: ScalarType)
    ensures var id := Packed(t);
            && id % 0x100 == t.exponent % 0x100 && id / 0x100 % 0x100 == t.mantissa % 0x100
            && (id / 0x1_0000 % 2 == 1 <==> t.signed) && id / 0x2_0000 % 0x1_0000_0000 == t.bias % 0x1_0000_0000
            && (id / 0x2_0000_0000_0000 % 2 == 1 <==> t.finiteValuesOnly)
            && id / 0x4_0000_0000_0000 == NanValue(t.nanRepr)
  {
    var e, m, s := t.exponent % 0x100, t.mantissa % 0x100, BoolValue(t.signed);
    var b, f, n := t.bias % 0x1_0000_0000, BoolValue(t.finiteValuesOnly), NanValue(t.nanRepr);
    LayoutParts(e, m, s, b, f, n);
    hide Layout;
  }

  lemma LayoutParts(e: nat, m: nat, s: nat, b: nat, f: nat, n: nat)
    requires e < 0x100 && m < 0x100 && s < 2 && b < 0x1_0000_0000 && f < 2
    ensures var id := Layout(e, m, s, b, f, n);
            && id % 0x100 == e && id / 0x100 % 0x100 == m && id / 0x1_0000 % 2 == s
            && id / 0x2_0000 % 0x1_0000_0000 == b && id / 0x2_0000_0000_0000 % 2 == f && id / 0x4_0000_0000_0000 == n
  {
    var onF := f + n * 2;
    var onB := b + onF * 0x1_0000_0000;
    var onS := s + onB * 2;
    var onM := m + onS * 0x100;
    LowPart(e, onM, 0x100);
    LowPart(m, onS, 0x100);
    LowPart(e + m * 0x100, onS, 0x1_0000);
    LowPart(s, onB, 2);
    LowPart(e + m * 0x100 + s * 0x1_0000, onB, 0x2_0000);
    LowPart(b, onF, 0x1_0000_0000);
    LowPart(e + m * 0x100 + s * 0x1_0000 + b * 0x2_0000, onF, 0x2_0000_0000_0000);
    LowPart(f, n, 2);
    LowPart(e + m * 0x100 + s * 0x1_0000 + b * 0x2_0000 + f * 0x2_0000_0000_0000, n, 0x4_0000_0000_0000);
  }

  lemma LowPart(x: nat, y: nat, k: nat)
    requires x < k
    ensures (x + y * k) % k == x && (x + y * k) / k == y
  {
    var z := x + y * k;
    assert z == z % k + z / k * k;
    Peel(x, z % k, y, z / k, k);
  }

  /** Types whose fields have the width of an id's fields, with biases in one window of 32 bits. */
  predicate InWindow(t: ScalarType, low: int) {
    0 <= t.exponent < 0x100 && 0 <= t.mantissa < 0x100 && low <= t.bias < low + 0x1_0000_0000
  }

  lemma WindowInjective(t: ScalarType, u: ScalarType, low: int)
    requires InWindow(t, low) && InWindow(u, low) && Packed(t) == Packed(u)
    ensures t == u
  {
    hide Packed, Pow2;
    SameIdExact(t, u);
    SameResidue(t.bias, u.bias, low);
  }

  lemma SameResidue(a: int, b: int, low: int)
    requires low <= a < low + 0x1_0000_0000 && low <= b < low + 0x1_0000_0000
    requires a % 0x1_0000_0000 == b % 0x1_0000_0000
    ensures a == b
  {
  }

  /** One field: the low bits of the member, put above the bits that are there. */
  method OrAndAdvance(val: nat, offset: nat, member: int, width: nat) returns (val': nat, offset': nat)
    requires val < Pow2(offset)
    ensures offset' == offset + width && val' < Pow2(offset')
    ensures val' == val + member % Pow2(width) * Pow2(offset)
  {
    var field := And(member, Pow2(width) - 1);
    AndMask(member, width);
    OrDisjoint(val, field, offset);
    var both := Or(val, field * Pow2(offset));
    val', offset' := both, offset + width;
    Pow2Add(width, offset);
    DigitAbove(val, Pow2(offset), field, Pow2(width));
  }

  lemma Widths()
    ensures Pow2(0) == 1 && Pow2(1) == 2 && Pow2(8) == 0x100 && Pow2(16) == 0x1_0000 && Pow2(17) == 0x2_0000
    ensures Pow2(32) == 0x1_0000_0000 && Pow2(49) == 0x2_0000_0000_0000 && Pow2(50) == 0x4_0000_0000_0000
    ensures Pow2(58) == 0x400_0000_0000_0000
  {
    assert Pow2(8) == 0x100;
    Pow2Add(8, 8);
    Pow2Add(16, 16);
    Pow2Add(32, 17);
    Pow2Add(50, 8);
  }

  method ComputeId(t: ScalarType) returns (id: nat)
    ensures id == Packed(t)
  {
    hide Pow2;
    Widths();
    var val, offset := 0, 0;
    val, offset := OrAndAdvance(val, offset, t.exponent, 8);
    val, offset := OrAndAdvance(val, offset, t.mantissa, 8);
    val, offset := OrAndAdvance(val, offset, BoolValue(t.signed), 1);
    val, offset := OrAndAdvance(val, offset, t.bias, 32);
    val, offset := OrAndAdvance(val, offset, BoolValue(t.finiteValuesOnly), 1);
    val, offset := OrAndAdvance(val, offset, NanValue(t.nanRepr), 8);
    id := val;
  }

  // ---------- the registry ----------

  /** The registry after some types have been registered one after the other. */
  function After(types: map<nat, ScalarType>, ts: seq<ScalarType>): map<nat, ScalarType> {
    if ts == [] then types else After(types, ts[..|ts| - 1])[Packed(ts[|ts| - 1]) := ts[|ts| - 1]]
  }

  /** Every registered type is found again by its id. */
  ghost predicate FoundAgain(types: map<nat, ScalarType>, ts: seq<ScalarType>) {
    forall t | t in ts :: Packed(t) in types && types[Packed(t)] == t
  }

  /** No two different types have the same fields in an id. */
  ghost predicate NoneCongruent(ts: seq<ScalarType>) {
    forall t, u | t in ts && u in ts && Congruent(t, u) :: t == u
  }

  lemma {:induction false} NoneCongruentFound(types: map<nat, ScalarType>, ts: seq<ScalarType>)
    requires NoneCongruent(ts)
    ensures FoundAgain(After(types, ts), ts)
  {
    hide Packed, Congruent;
    if ts != [] {
      var front, last := ts[..|ts| - 1], ts[|ts| - 1];
      assert ts == front + [last];
      NoneCongruentFound(types, front);
      forall t | t in ts ensures Packed(t) in After(types, ts) && After(types, ts)[Packed(t)] == t {
        SameIdExact(t, last);
        assert t == last || t in front;
      }
    }
  }

  /** Ids lead back to their types exactly if no two registered types differ only in what an id cannot hold. */
  lemma FromIdExact(ts: seq<ScalarType>)
    ensures FoundAgain(After(map[], ts), ts) <==> NoneCongruent(ts)
  {
    hide Packed, Congruent, After;
    if NoneCongruent(ts) {
      NoneCongruentFound(map[], ts);
    }
    if FoundAgain(After(map[], ts), ts) {
      forall t, u | t in ts && u in ts && Congruent(t, u) ensures t == u {
        SameIdExact(t, u);
      }
    }
  }

  lemma WindowFromId(ts: seq<ScalarType>, low: int)
    requires forall t | t in ts :: InWindow(t, low)
    ensures FoundAgain(After(map[], ts), ts)
  {
    hide Packed, After;
    forall t, u | t in ts && u in ts && Congruent(t, u) ensures t == u {
      SameIdExact(t, u);
      WindowInjective(t, u, low);
    }
    FromIdExact(ts);
  }

  /** The global map of ids. */
  class Registry {
    var types: map<nat, ScalarType>

    constructor ()
      ensures types == map[]
    {
      types := map[];
    }

    /** None is the ValueError. */
    method FromId(id: int) returns (r: Option<ScalarType>)
      ensures r == if id >= 0 && id in types then Some(types[id]) else None
    {
      if id >= 0 && id in types {
        r := Some(types[id]);
      } else {
        r := None;
      }
    }
  }

  /** A type object; its id is computed and registered on first use. */
  class TypeObject {
    const value: ScalarType
    var cachedId: Option<nat>

    constructor (value: ScalarType)
      ensures this.value == value && cachedId == None
    {
      this.value := value;
      cachedId := None;
    }

    method Id(registry: Registry) returns (id: nat)
      requires cachedId.Some? ==> cachedId.value == Packed(value)
      modifies this, registry
      ensures id == Packed(value) && cachedId == Some(id)
      ensures registry.types == if old(cachedId).Some? then old(registry.types) else old(registry.types)[id := value]
    {
      if cachedId.Some? {
        return cachedId.value;
      }
      id := ComputeId(value);
      registry.types := registry.types[id := value];
      cachedId := Some(id);
    }
  }

  /** Types are created, and so registered, one after the other; then one of them is looked up. */
  method RegisterThenLookUp(ts: seq<ScalarType>, k: nat) returns (r: Option<ScalarType>)
    requires k < |ts|
    ensures NoneCongruent(ts) ==> r == Some(ts[k])
  {
    hide Packed, NoneCongruent;
    var registry := new Registry();
    var wanted := 0;
    for i := 0 to |ts|
      invariant registry.types == After(map[], ts[..i])
      invariant i > k ==> wanted == Packed(ts[k])
    {
      var t := new TypeObject(ts[i]);
      var id := t.Id(registry);
      assert ts[..i + 1][..i] == ts[..i];
      if i == k {
        wanted := id;
      }
    }
    assert ts[..|ts|] == ts;
    if NoneCongruent(ts) {
      NoneCongruentFound(map[], ts);
      assert ts[k] in ts;
    }
    r := registry.FromId(wanted);
  }
}
