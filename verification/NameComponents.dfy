/** Name components: canonical order, the comparison of wire encodings that stands in
    for it, successors, and numbers in components. */
module NameComponents {
  import opened Basics
  import opened LpPackets
  import opened Tlv

  const NAME_COMPONENT_MIN := 1
  const NAME_COMPONENT_MAX := 65535
  const IMPLICIT_SHA256_DIGEST := 1
  const PARAMETERS_SHA256_DIGEST := 2
  const GENERIC := 8
  const DIGEST_SIZE := 32

  datatype Component = Component(typ: nat, value: bytes)

  predicate IsDigestType(typ: nat) {
    typ == IMPLICIT_SHA256_DIGEST || typ == PARAMETERS_SHA256_DIGEST
  }

  /** `ensureValid`. */
  predicate Valid(c: Component) {
    NAME_COMPONENT_MIN <= c.typ <= NAME_COMPONENT_MAX && (IsDigestType(c.typ) ==> |c.value| == DIGEST_SIZE)
  }

  // ---- canonical order ----

  /** By TLV-TYPE, then TLV-LENGTH, then octet by octet. */
  function Canonical(a: Component, b: Component): (r: int)
    ensures -1 <= r <= 1
  {
    if a.typ != b.typ then Order(a.typ, b.typ)
    else if |a.value| != |b.value| then Order(|a.value|, |b.value|)
    else Lex(a.value, b.value)
  }

  lemma CanonicalIsTotalOrder(a: Component, b: Component, c: Component)
    ensures Canonical(a, b) == 0 <==> a == b
    ensures Canonical(a, b) == -Canonical(b, a)
    ensures Canonical(a, b) <= 0 && Canonical(b, c) <= 0 ==> Canonical(a, c) <= 0
  {
    LexFlip(a.value, b.value);
    if |a.value| == |b.value| {
      LexConcat(a.value, b.value, [], []);
      if |c.value| == |b.value| && Lex(a.value, b.value) <= 0 && Lex(b.value, c.value) <= 0 {
        LexTransitive(a.value, b.value, c.value);
      }
    }
  }

  // ---- the fast form: comparing wire encodings ----

  /** A TLV element whose TLV-TYPE and TLV-LENGTH are written in given sizes. */
  function EncodedAs(c: Component, typeSize: nat, lengthSize: nat): bytes {
    VarNumberOf(c.typ, typeSize) + (VarNumberOf(|c.value|, lengthSize) + c.value)
  }

  /** What `wireEncode` makes. */
  function Wire(c: Component): bytes {
    EncodedAs(c, SizeOfVarNumber(c.typ), SizeOfVarNumber(|c.value|))
  }

  predicate Encodable(c: Component) {
    Valid(c) && |c.value| < TWO64
  }

  /** Octet by octet over the shorter encoding is canonical order. */
  lemma WireOrder(a: Component, b: Component)
    requires Encodable(a) && Encodable(b)
    ensures Lex(Wire(a), Wire(b)) == Canonical(a, b)
  {
    hide VarNumber;
    VarNumberOrder(a.typ, b.typ, VarNumber(|a.value|) + a.value, VarNumber(|b.value|) + b.value);
    VarNumberOrder(|a.value|, |b.value|, a.value, b.value);
    WireParts(a);
    WireParts(b);
  }

  lemma WireParts(c: Component)
    ensures Wire(c) == VarNumber(c.typ) + (VarNumber(|c.value|) + c.value)
  {
  }

  lemma LeadsDiffer(n: nat, size: nat, x: bytes, y: bytes)
    requires Readable(n, size) && size != SizeOfVarNumber(n)
    ensures Lex(VarNumberOf(n, size) + x, VarNumber(n) + y) != 0
  {
    assert (VarNumberOf(n, size) + x)[0] == Lead(n, size);
    assert (VarNumber(n) + y)[0] == Lead(n, SizeOfVarNumber(n));
  }

  /** A received component keeps the encoding it came in. It compares as canonical
      order demands exactly when that encoding is the shortest; another encoding of the
      same component already compares as different from it. */
  lemma WireCompareExactly(c: Component, typeSize: nat, lengthSize: nat)
    requires Encodable(c) && Readable(c.typ, typeSize) && Readable(|c.value|, lengthSize)
    ensures (forall d :: Encodable(d) ==> Lex(EncodedAs(c, typeSize, lengthSize), Wire(d)) == Canonical(c, d))
            <==> typeSize == SizeOfVarNumber(c.typ) && lengthSize == SizeOfVarNumber(|c.value|)
  {
    var w := EncodedAs(c, typeSize, lengthSize);
    CanonicalIsTotalOrder(c, c, c);
    if typeSize != SizeOfVarNumber(c.typ) {
      LeadsDiffer(c.typ, typeSize, VarNumberOf(|c.value|, lengthSize) + c.value, VarNumber(|c.value|) + c.value);
      assert Lex(w, Wire(c)) != 0;
    } else if lengthSize != SizeOfVarNumber(|c.value|) {
      LeadsDiffer(|c.value|, lengthSize, c.value, c.value);
      LexConcat(VarNumber(c.typ), VarNumber(c.typ), VarNumberOf(|c.value|, lengthSize) + c.value,
                VarNumber(|c.value|) + c.value);
      assert Lex(w, Wire(c)) != 0;
    } else {
      forall d | Encodable(d)
        ensures Lex(w, Wire(d)) == Canonical(c, d)
      {
        WireOrder(c, d);
      }
    }
  }

  /** A Generic component with its TLV-TYPE written in three octets sorts after every
      component of type 9 in the shortest form. */
  lemma LongTypeSortsWrong(value: bytes, other: bytes)
    requires |value| < TWO64 && |other| < TWO64
    ensures Readable(GENERIC, 3) && Readable(|value|, SizeOfVarNumber(|value|))
    ensures Lex(EncodedAs(Component(GENERIC, value), 3, SizeOfVarNumber(|value|)), Wire(Component(9, other))) > 0
    ensures Canonical(Component(GENERIC, value), Component(9, other)) < 0
  {
    assert EncodedAs(Component(GENERIC, value), 3, SizeOfVarNumber(|value|))[0] == 253;
    assert Wire(Component(9, other))[0] == 9;
  }

  // ---- the slow form, and both together ----

  const TWO31 := 0x8000_0000
  const TWO32 := 0x1_0000_0000

  /** Conversion of a difference of types or lengths to a 32-bit `int`. */
  function Narrow(d: int): (r: int)
    ensures -TWO31 <= r < TWO31
  {
    (d + TWO31) % TWO32 - TWO31
  }

  /** Comparing the parts reads as many octets of the other value as this one has; that many
      are there unless the lengths differ by a positive multiple of 2^32. */
  predicate ReadsWithin(a: Component, b: Component) {
    a.typ == b.typ && Narrow(|a.value| - |b.value|) == 0 ==> |a.value| <= |b.value|
  }

  /** The order in which the parts are compared. */
  function PartsOrder(a: Component, b: Component): (r: int)
    ensures -1 <= r <= 1
  {
    if a.typ != b.typ then Sign(Narrow(a.typ - b.typ))
    else if Narrow(|a.value| - |b.value|) != 0 then Sign(Narrow(|a.value| - |b.value|))
    else Lex(a.value, b.value)
  }

  /** Whether a difference keeps its sign in 32 bits. */
  predicate KeepsSign(d: int) {
    d == 0 || (d > 0 && 0 < d % TWO32 < TWO31) || (d < 0 && d % TWO32 >= TWO31)
  }

  /** Comparing the parts is canonical order exactly when the difference of the types, or of the
      lengths, keeps its sign in 32 bits (or vanishes there and the octets decide the same);
      always for valid types and below 2^31 octets. */
  lemma PartsOrderExactly(a: Component, b: Component)
    requires ReadsWithin(a, b) && a.typ < TWO32 && b.typ < TWO32
    ensures var d := |a.value| - |b.value|;
      && (PartsOrder(a, b) == Canonical(a, b) <==>
            if a.typ != b.typ then KeepsSign(a.typ - b.typ)
            else KeepsSign(d) || (d < 0 && d % TWO32 == 0 && Lex(a.value, b.value) < 0))
      && (Valid(a) && Valid(b) && |a.value| < TWO31 && |b.value| < TWO31 ==> PartsOrder(a, b) == Canonical(a, b))
  {
    hide Narrow, Lex;
    NarrowSign(a.typ - b.typ);
    NarrowSign(|a.value| - |b.value|);
  }

  lemma NarrowSign(d: int)
    ensures Narrow(d) == 0 <==> d % TWO32 == 0
    ensures Narrow(d) > 0 <==> 0 < d % TWO32 < TWO31
    ensures Narrow(d) < 0 <==> d % TWO32 >= TWO31
    ensures -TWO31 <= d < TWO31 ==> Narrow(d) == d
  {
    var q, m := d / TWO32, d % TWO32;
    assert d + TWO31 == q * TWO32 + (m + TWO31);
    if m < TWO31 {
      RemainderIs(d + TWO31, q, m + TWO31);
    } else {
      RemainderIs(d + TWO31, q + 1, m - TWO31);
    }
  }

  lemma RemainderIs(n: int, q: int, m: int)
    requires n == q * TWO32 + m && 0 <= m < TWO32
    ensures n % TWO32 == m
  {
  }

  /** 2^31 octets more compare as fewer. */
  lemma LongValueSortsWrong(value: bytes)
    requires |value| == TWO31
    ensures var a, b := Component(GENERIC, value), Component(GENERIC, []);
      ReadsWithin(a, b) && Canonical(a, b) > 0 && PartsOrder(a, b) < 0
  {
  }

  /** A component as an object holds it: with the encoding it came in or was given, if any. */
  datatype Held = Held(comp: Component, wire: Option<bytes>)

  /** The order `compare` goes by. */
  function HeldOrder(a: Held, b: Held): (r: int)
    ensures -1 <= r <= 1
  {
    if a.wire.Some? && b.wire.Some? then Lex(a.wire.value, b.wire.value) else PartsOrder(a.comp, b.comp)
  }

  /** Without an encoding, or with the shortest. */
  predicate IsOrdinary(h: Held) {
    Encodable(h.comp) && |h.comp.value| < TWO31 && (h.wire.Some? ==> h.wire.value == Wire(h.comp))
  }

  lemma HeldOrderIsCanonical(a: Held, b: Held)
    requires IsOrdinary(a) && IsOrdinary(b)
    ensures ReadsWithin(a.comp, b.comp) && HeldOrder(a, b) == Canonical(a.comp, b.comp)
  {
    hide Wire, Canonical, Narrow;
    NarrowSign(|a.comp.value| - |b.comp.value|);
    PartsOrderExactly(a.comp, b.comp);
    WireOrder(a.comp, b.comp);
  }

  /** `Component::compare`: the wire encodings where both are present, else the parts. */
  method Compare(a: Held, b: Held) returns (r: int)
    requires a.wire == None || b.wire == None ==> ReadsWithin(a.comp, b.comp)
    requires a.comp.typ < TWO32 && b.comp.typ < TWO32
    ensures Sign(r) == HeldOrder(a, b)
    ensures IsOrdinary(a) && IsOrdinary(b) ==> Sign(r) == Canonical(a.comp, b.comp)
  {
    hide Wire, Encodable, Canonical, Narrow;
    if IsOrdinary(a) && IsOrdinary(b) {
      HeldOrderIsCanonical(a, b);
    }
    if a.wire.Some? && b.wire.Some? {
      var n := if |a.wire.value| < |b.wire.value| then |a.wire.value| else |b.wire.value|;
      LexShorter(a.wire.value, b.wire.value, n);
      r := MemCompare(a.wire.value, b.wire.value, n);
      return;
    }
    NarrowSign(a.comp.typ - b.comp.typ);
    var cmpType := Narrow(a.comp.typ - b.comp.typ);
    if cmpType != 0 {
      return cmpType;
    }
    var cmpSize := Narrow(|a.comp.value| - |b.comp.value|);
    if cmpSize != 0 {
      return cmpSize;
    }
    if |a.comp.value| == 0 {
      return 0;
    }
    LexShorter(a.comp.value, b.comp.value, |a.comp.value|);
    r := MemCompare(a.comp.value, b.comp.value, |a.comp.value|);
  }

  // ---- successors ----

  predicate AllOnes(s: bytes) {
    forall i :: 0 <= i < |s| ==> s[i] == 255
  }

  function Zeros(k: nat): (s: bytes)
    ensures |s| == k
  {
    seq(k, _ => 0)
  }

  lemma {:induction false} ValueOfZeros(k: nat)
    ensures Value(Zeros(k)) == 0
  {
    if k > 0 {
      ValueOfZeros(k - 1);
      assert Zeros(k)[..k - 1] == Zeros(k - 1);
    }
  }

  lemma {:induction false} AllOnesIsLargest(a: bytes, b: bytes)
    requires |a| == |b| && AllOnes(a)
    ensures Value(b) <= Value(a)
  {
    if a != [] {
      AllOnesIsLargest(a[..|a| - 1], b[..|a| - 1]);
    }
  }

  lemma {:induction false} RoomForOneMore(s: bytes)
    requires !AllOnes(s)
    ensures Fits(Value(s) + 1, |s|)
  {
    var k := |s| - 1;
    BigEndianOfValue(s[..k]);
    if s[k] == 255 {
      RoomForOneMore(s[..k]);
      assert (Value(s) + 1) / 256 == Value(s[..k]) + 1;
    } else {
      assert (Value(s) + 1) / 256 == Value(s[..k]);
    }
  }

  /** The next octet string: one more as a number of the same length, or the first of
      the next length. */
  function NextValue(v: bytes): bytes {
    if AllOnes(v) then Zeros(|v| + 1) else BigEndian(Value(v) + 1, |v|)
  }

  lemma {:induction false} Carry(p: bytes, q: bytes, ones: bytes)
    requires Value(q) == Value(p) + 1 && AllOnes(ones)
    ensures Value(q + Zeros(|ones|)) == Value(p + ones) + 1
  {
    var k := |ones|;
    if k == 0 {
      assert q + Zeros(0) == q && p + ones == p;
    } else {
      Carry(p, q, ones[..k - 1]);
      assert (p + ones)[..|p + ones| - 1] == p + ones[..k - 1];
      assert (q + Zeros(k))[..|q + Zeros(k)| - 1] == q + Zeros(k - 1);
    }
  }

  /** `getSuccessorImpl`: adds one from the last octet on, and appends an octet when
      the carry runs out of the front. */
  method GetSuccessorValue(v: bytes) returns (extended: bool, r: bytes)
    ensures extended <==> AllOnes(v)
    ensures r == NextValue(v)
  {
    hide Fits, Value, BigEndian;
    r := [];
    var isOverflow, i := true, |v|;
    while isOverflow && i > 0
      invariant 0 <= i <= |v| && |r| == |v| - i
      invariant isOverflow ==> (forall k :: i <= k < |v| ==> v[k] == 255) && r == Zeros(|v| - i)
      invariant !isOverflow ==> !AllOnes(v) && Value(v[..i] + r) == Value(v) + 1
    {
      var newValue: byte := (v[i - 1] as int + 1) % 256;
      Bump(v, i - 1);
      r := [newValue] + r;
      isOverflow := newValue == 0;
      i := i - 1;
    }
    r := v[..i] + r;
    if isOverflow {
      r := r + [0];
    } else {
      BigEndianOfValue(r);
    }
    return isOverflow, r;
  }

  lemma LastOctet(p: bytes, b: byte)
    requires b < 255
    ensures Value(p + [b + 1]) == Value(p + [b]) + 1
  {
    assert (p + [b])[..|p|] == p && (p + [b + 1])[..|p|] == p;
  }

  lemma Bump(v: bytes, i: nat)
    requires i < |v| && AllOnes(v[i + 1..])
    ensures v[i] < 255 ==> Value(v[..i] + ([v[i] + 1] + Zeros(|v| - i - 1))) == Value(v) + 1
  {
    hide Value, Zeros, AllOnes;
    if v[i] < 255 {
      BumpLast(v[..i], v[i], v[i + 1..]);
      assert v == v[..i] + ([v[i]] + v[i + 1..]);
    }
  }

  lemma BumpLast(p: bytes, b: byte, ones: bytes)
    requires b < 255 && AllOnes(ones)
    ensures Value(p + ([b + 1] + Zeros(|ones|))) == Value(p + ([b] + ones)) + 1
  {
    hide Value, AllOnes, Zeros;
    LastOctet(p, b);
    Carry(p + [b], p + [b + 1], ones);
    assert p + [b] + ones == p + ([b] + ones);
    assert p + [b + 1] + Zeros(|ones|) == p + ([b + 1] + Zeros(|ones|));
  }

  /** The least value of a type. */
  function MinValue(typ: nat): bytes {
    if IsDigestType(typ) then Zeros(DIGEST_SIZE) else []
  }

  function Successor(c: Component): Component {
    if IsDigestType(c.typ) && AllOnes(c.value) then Component(c.typ + 1, MinValue(c.typ + 1))
    else Component(c.typ, NextValue(c.value))
  }

  /** `Component::getSuccessor`. */
  method GetSuccessor(c: Component) returns (r: Component)
    requires Valid(c)
    ensures r == Successor(c)
  {
    var extended, value := GetSuccessorValue(c.value);
    if IsDigestType(c.typ) && extended {
      return Component(c.typ + 1, MinValue(c.typ + 1));
    }
    return Component(c.typ, value);
  }

  /** The successor of a component comes next: what is above the component is at or
      above the successor. */
  lemma SuccessorIsNext(c: Component, d: Component)
    requires Valid(c) && Valid(d)
    ensures Valid(Successor(c)) && Canonical(c, Successor(c)) < 0
    ensures Canonical(c, d) < 0 <==> Canonical(Successor(c), d) <= 0
  {
    hide Fits, Lex, Value;
    var s := Successor(c);
    if AllOnes(c.value) {
      if d.typ == c.typ && |d.value| == |c.value| {
        LexIsNumeric(c.value, d.value);
        AllOnesIsLargest(c.value, d.value);
      }
      if d.typ == s.typ && |d.value| == |s.value| {
        LexIsNumeric(s.value, d.value);
        ValueOfZeros(|s.value|);
        LexIsNumeric([], []);
      }
    } else {
      RoomForOneMore(c.value);
      ValueOfBigEndian(Value(c.value) + 1, |c.value|);
      LexIsNumeric(c.value, s.value);
      if d.typ == c.typ && |d.value| == |c.value| {
        LexIsNumeric(c.value, d.value);
        LexIsNumeric(s.value, d.value);
      }
    }
  }

  // ---- numbers in components ----

  /** Naming conventions: a marker octet in a Generic component, or a type of its own. */
  datatype Convention = MarkerConvention | TypedConvention

  datatype Kind = Kind(typ: nat, marker: byte)

  const VERSION := Kind(35, 0xFD)
  const SEGMENT := Kind(33, 0x00)
  const BYTE_OFFSET := Kind(34, 0xFB)
  const TIMESTAMP := Kind(36, 0xFC)
  const SEQUENCE_NUM := Kind(37, 0xFE)

  predicate IsKind(k: Kind) {
    k in {VERSION, SEGMENT, BYTE_OFFSET, TIMESTAMP, SEQUENCE_NUM}
  }

  function FromNumber(k: Kind, encoding: Convention, n: uint64): Component {
    if encoding == MarkerConvention then Component(GENERIC, [k.marker] + NonNegativeInteger(n))
    else Component(k.typ, NonNegativeInteger(n))
  }

  /** `toSegment` and its like; None where the source throws. */
  function ToNumber(k: Kind, decodeMarker: bool, decodeTyped: bool, c: Component): Option<nat> {
    if decodeMarker && c.typ == GENERIC then
      if |c.value| > 0 && IsNonNegativeIntegerSize(|c.value| - 1) && c.value[0] == k.marker
      then Some(Value(c.value[1..])) else None
    else if decodeTyped && c.typ == k.typ then
      if IsNonNegativeIntegerSize(|c.value|) then Some(Value(c.value)) else None
    else None
  }

  lemma NumberRoundTrip(k: Kind, encoding: Convention, decodeMarker: bool, decodeTyped: bool, n: uint64)
    requires IsKind(k)
    ensures Valid(FromNumber(k, encoding, n))
    ensures ToNumber(k, decodeMarker, decodeTyped, FromNumber(k, encoding, n)) ==
      if (if encoding == MarkerConvention then decodeMarker else decodeTyped) then Some(n) else None
  {
    hide NonNegativeInteger, Value;
    NonNegativeIntegerRoundTrip(n);
    assert ([k.marker] + NonNegativeInteger(n))[1..] == NonNegativeInteger(n);
  }

  /** A number of one kind is never taken for one of another. */
  lemma KindsDiffer(k: Kind, other: Kind, encoding: Convention, n: uint64)
    requires IsKind(k) && IsKind(other) && k != other
    ensures ToNumber(other, true, true, FromNumber(k, encoding, n)) == None
  {
    hide NonNegativeInteger, Value;
  }

  /** Segments, versions and the like sort by their numbers under both conventions. */
  lemma NumbersSort(k: Kind, encoding: Convention, n: uint64, m: uint64)
    ensures Canonical(FromNumber(k, encoding, n), FromNumber(k, encoding, m)) == Order(n, m)
  {
    NonNegativeIntegerOrder(n, m);
    LexConcat([k.marker], [k.marker], NonNegativeInteger(n), NonNegativeInteger(m));
  }
}
