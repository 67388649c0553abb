/** Networks in CIDR notation (section 3.1 of RFC 4632, section 2.3 of RFC 4291): the
    mask, the least and greatest address, and the test by comparing with both. */
module Cidr {
  import opened Basics

  type bits = seq<bool>

  /** An octet is its eight bits, the most significant first. */
  type octet = s: bits | |s| == 8 witness [false, false, false, false, false, false, false, false]

  const ZERO: octet := [false, false, false, false, false, false, false, false]

  /** An address of either family, as the octets it is sent in. */
  datatype Address = V4(octets: seq<octet>) | V6(octets: seq<octet>) {
    predicate Valid() {
      |octets| == Length()
    }

    function Length(): nat {
      if V4? then 4 else 16
    }
  }

  // ---- octets as numbers ----

  function Power(n: nat): (r: nat)
    ensures r > 0
  {
    if n == 0 then 1 else 2 * Power(n - 1)
  }

  function Number(s: bits): (r: nat)
    ensures r < Power(|s|)
  {
    if s == [] then 0 else (if s[0] then Power(|s| - 1) else 0) + Number(s[1..])
  }

  function And(x: octet, y: octet): octet {
    seq(8, i requires 0 <= i < 8 => x[i] && y[i])
  }

  function Or(x: octet, y: octet): octet {
    seq(8, i requires 0 <= i < 8 => x[i] || y[i])
  }

  function Not(x: octet): octet {
    seq(8, i requires 0 <= i < 8 => !x[i])
  }

  /** `x | 1 << bitIndex`. */
  function SetBit(x: octet, bitIndex: nat): octet
    requires bitIndex < 8
  {
    x[7 - bitIndex := true]
  }

  // ---- bit strings ----

  /** The bits of an address. */
  function Bits(a: seq<octet>): (s: bits)
    ensures |s| == 8 * |a|
  {
    if a == [] then [] else a[0] + Bits(a[1..])
  }

  lemma {:induction false} BitsAt(a: seq<octet>, i: nat)
    requires i < 8 * |a|
    ensures Bits(a)[i] == a[i / 8][i % 8]
  {
    if i >= 8 {
      BitsAt(a[1..], i - 8);
      assert (i - 8) / 8 == i / 8 - 1 && (i - 8) % 8 == i % 8;
    }
  }

  /** The order of the first bits that differ. */
  predicate BitsAtMost(a: bits, b: bits) {
    a == [] || b == [] || (!a[0] && b[0]) || (a[0] == b[0] && BitsAtMost(a[1..], b[1..]))
  }

  lemma {:induction false} NumberOrder(a: bits, b: bits)
    requires |a| == |b|
    ensures Number(a) <= Number(b) <==> BitsAtMost(a, b)
    ensures Number(a) == Number(b) <==> a == b
  {
    if a != [] {
      NumberOrder(a[1..], b[1..]);
      assert a == [a[0]] + a[1..] && b == [b[0]] + b[1..];
    }
  }

  lemma {:induction false} BitsConcat(a: bits, b: bits, x: bits, y: bits)
    requires |a| == |b|
    ensures BitsAtMost(a + x, b + y) <==> if a == b then BitsAtMost(x, y) else BitsAtMost(a, b)
  {
    if a == [] {
      assert a + x == x && b + y == y;
    } else {
      assert (a + x)[1..] == a[1..] + x && (b + y)[1..] == b[1..] + y;
      BitsConcat(a[1..], b[1..], x, y);
      assert a == [a[0]] + a[1..] && b == [b[0]] + b[1..];
    }
  }

  // ---- comparing addresses ----

  /** Octet strings compared from the first octet on. */
  predicate AtMost(a: seq<octet>, b: seq<octet>) {
    a == [] || b == [] || Number(a[0]) < Number(b[0]) || (a[0] == b[0] && AtMost(a[1..], b[1..]))
  }

  lemma {:induction false} OctetOrderIsBitOrder(a: seq<octet>, b: seq<octet>)
    requires |a| == |b|
    ensures AtMost(a, b) <==> BitsAtMost(Bits(a), Bits(b))
  {
    hide Number, BitsAtMost;
    if a == [] {
      NumberOrder([], []);
    } else {
      OctetOrderIsBitOrder(a[1..], b[1..]);
      NumberOrder(a[0], b[0]);
      BitsConcat(a[0], b[0], Bits(a[1..]), Bits(b[1..]));
    }
  }

  /** `operator<=` of addresses: every IPv4 address comes before every IPv6 address. */
  predicate AddressAtMost(a: Address, b: Address) {
    if a.V4? != b.V4? then a.V4? else AtMost(a.octets, b.octets)
  }

  // ---- the network ----

  datatype Network = Network(minAddress: Address, maxAddress: Address)

  predicate DoesContain(n: Network, a: Address) {
    AddressAtMost(n.minAddress, a) && AddressAtMost(a, n.maxAddress)
  }

  /** The loop that sets the first `mask` bits. */
  method BuildMask(n: nat, mask: nat) returns (maskBytes: array<octet>)
    requires mask <= 8 * n
    ensures fresh(maskBytes) && maskBytes.Length == n
    ensures forall i, j :: 0 <= i < n && 0 <= j < 8 ==> maskBytes[i][j] == (8 * i + j < mask)
  {
    maskBytes := new octet[n](_ => ZERO);
    var i := 0;
    while i < mask
      invariant 0 <= i <= mask
      invariant forall b, j :: 0 <= b < n && 0 <= j < 8 ==> maskBytes[b][j] == (8 * b + j < i)
    {
      var byteId, bitIndex := i / 8, 7 - i % 8;
      maskBytes[byteId] := SetBit(maskBytes[byteId], bitIndex);
      i := i + 1;
    }
  }

  /** The bits of an address up to the mask, then all clear or all set. */
  ghost predicate Masked(a: seq<octet>, address: seq<octet>, mask: nat, fill: bool) {
    |a| == |address| &&
    forall i, j :: 0 <= i < |a| && 0 <= j < 8 ==> a[i][j] == if 8 * i + j < mask then address[i][j] else fill
  }

  /** The CIDR branch of `operator>>`; None where it sets the fail bit. */
  method ReadNetwork(address: Address, mask: nat) returns (r: Option<Network>)
    requires address.Valid()
    ensures r.Some? <==> mask <= 8 * address.Length()
    ensures r.Some? ==> IsNetwork(r.value, address, mask)
  {
    hide And, Or, Not;
    var n := address.Length();
    if mask > 8 * n {
      return None;
    }
    var maskBytes := BuildMask(n, mask);
    var lo, hi: seq<octet> := [], [];
    var i := 0;
    while i < n
      invariant 0 <= i <= n
      invariant Masked(lo, address.octets[..i], mask, false) && Masked(hi, address.octets[..i], mask, true)
      invariant forall b, j :: 0 <= b < n && 0 <= j < 8 ==> maskBytes[b][j] == (8 * b + j < mask)
    {
      MaskOctet(address.octets[i], maskBytes[i], mask, i);
      lo := lo + [And(address.octets[i], maskBytes[i])];
      hi := hi + [Or(address.octets[i], Not(maskBytes[i]))];
      i := i + 1;
    }
    assert address.octets[..n] == address.octets;
    if address.V4? {
      return Some(Network(V4(lo), V4(hi)));
    }
    return Some(Network(V6(lo), V6(hi)));
  }

  lemma MaskOctet(x: octet, m: octet, mask: nat, i: nat)
    requires forall j :: 0 <= j < 8 ==> m[j] == (8 * i + j < mask)
    ensures forall j :: 0 <= j < 8 ==> And(x, m)[j] == if 8 * i + j < mask then x[j] else false
    ensures forall j :: 0 <= j < 8 ==> Or(x, Not(m))[j] == if 8 * i + j < mask then x[j] else true
  {
  }

  ghost predicate IsNetwork(n: Network, address: Address, mask: nat) {
    && n.minAddress.Valid() && n.maxAddress.Valid() && n.minAddress.V4? == n.maxAddress.V4? == address.V4?
    && Masked(n.minAddress.octets, address.octets, mask, false)
    && Masked(n.maxAddress.octets, address.octets, mask, true)
  }

  // ---- containment ----

  lemma MaskedBits(a: seq<octet>, address: seq<octet>, mask: nat, fill: bool)
    requires Masked(a, address, mask, fill)
    ensures forall i :: 0 <= i < 8 * |a| ==> Bits(a)[i] == if i < mask then Bits(address)[i] else fill
  {
    forall i | 0 <= i < 8 * |a|
      ensures Bits(a)[i] == if i < mask then Bits(address)[i] else fill
    {
      BitsAt(a, i);
      BitsAt(address, i);
    }
  }

  /** What lies between a prefix with clear bits and the same prefix with set bits. */
  lemma {:induction false} Between(lo: bits, hi: bits, x: bits, y: bits, mask: nat)
    requires |lo| == |hi| == |x| == |y| && mask <= |x|
    requires forall i :: 0 <= i < |x| ==> lo[i] == if i < mask then x[i] else false
    requires forall i :: 0 <= i < |x| ==> hi[i] == if i < mask then x[i] else true
    ensures BitsAtMost(lo, y) && BitsAtMost(y, hi) <==> y[..mask] == x[..mask]
  {
    if mask == 0 {
      AllBetween(lo, y, hi);
    } else {
      Between(lo[1..], hi[1..], x[1..], y[1..], mask - 1);
      assert x[..mask] == [x[0]] + x[1..][..mask - 1] && y[..mask] == [y[0]] + y[1..][..mask - 1];
    }
  }

  lemma {:induction false} AllBetween(lo: bits, y: bits, hi: bits)
    requires |lo| == |y| == |hi| && forall j :: 0 <= j < |y| ==> !lo[j] && hi[j]
    ensures BitsAtMost(lo, y) && BitsAtMost(y, hi)
  {
    if y != [] {
      AllBetween(lo[1..], y[1..], hi[1..]);
    }
  }

  /** A network contains an address exactly when it is of the same family and agrees with
      the network's on the first `mask` bits. */
  lemma ContainsExactly(n: Network, address: Address, mask: nat, a: Address)
    requires address.Valid() && a.Valid() && mask <= 8 * address.Length() && IsNetwork(n, address, mask)
    ensures DoesContain(n, a) <==> a.V4? == address.V4? && Bits(a.octets)[..mask] == Bits(address.octets)[..mask]
  {
    hide AtMost, Masked, Bits, BitsAtMost;
    if a.V4? == address.V4? {
      MaskedBits(n.minAddress.octets, address.octets, mask, false);
      MaskedBits(n.maxAddress.octets, address.octets, mask, true);
      OctetOrderIsBitOrder(n.minAddress.octets, a.octets);
      OctetOrderIsBitOrder(a.octets, n.maxAddress.octets);
      Between(Bits(n.minAddress.octets), Bits(n.maxAddress.octets), Bits(address.octets), Bits(a.octets), mask);
    }
  }
}
