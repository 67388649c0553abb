/** Octet strings: big-endian numbers, the VAR-NUMBER of TLV-TYPE and TLV-LENGTH, and
    the comparison that `memcmp` makes. */
module Tlv {
  import opened Basics
  import opened LpPackets

  type bytes = seq<byte>

  // ---- big-endian numbers ----

  /** The number an octet string stands for. */
  function Value(s: bytes): nat {
    if s == [] then 0 else 256 * Value(s[..|s| - 1]) + s[|s| - 1]
  }

  /** The low `k` octets of a number, most significant first. */
  function BigEndian(n: nat, k: nat): (s: bytes)
    ensures |s| == k
  {
    if k == 0 then [] else BigEndian(n / 256, k - 1) + [n % 256]
  }

  /** Whether a number is below 256 to the power `k`. */
  predicate Fits(n: nat, k: nat) {
    if k == 0 then n == 0 else Fits(n / 256, k - 1)
  }

  lemma {:induction false} ValueOfBigEndian(n: nat, k: nat)
    requires Fits(n, k)
    ensures Value(BigEndian(n, k)) == n
  {
    if k > 0 {
      ValueOfBigEndian(n / 256, k - 1);
      assert BigEndian(n, k)[..k - 1] == BigEndian(n / 256, k - 1);
    }
  }

  lemma {:induction false} BigEndianOfValue(s: bytes)
    ensures Fits(Value(s), |s|) && BigEndian(Value(s), |s|) == s
  {
    if s != [] {
      BigEndianOfValue(s[..|s| - 1]);
      assert s == s[..|s| - 1] + [s[|s| - 1]];
    }
  }

  lemma FitsPowers(n: nat)
    ensures Fits(n, 1) <==> n <= 0xFF
    ensures Fits(n, 2) <==> n <= 0xFFFF
    ensures Fits(n, 4) <==> n <= 0xFFFF_FFFF
    ensures Fits(n, 8) <==> n < TWO64
  {
    Fits4(n);
    Fits4(n / 256 / 256 / 256 / 256);
    var m := n / 256 / 256 / 256 / 256;
    assert Fits(n, 8) <==> Fits(n / 256, 7);
    assert Fits(n / 256, 7) <==> Fits(n / 256 / 256, 6);
    assert Fits(n / 256 / 256, 6) <==> Fits(n / 256 / 256 / 256, 5);
    assert Fits(n / 256 / 256 / 256, 5) <==> Fits(m, 4);
    assert m == n / 0x1_0000_0000;
  }

  lemma Fits4(n: nat)
    ensures Fits(n, 1) <==> n <= 0xFF
    ensures Fits(n, 2) <==> n <= 0xFFFF
    ensures Fits(n, 4) <==> n <= 0xFFFF_FFFF
  {
    assert Fits(n, 1) <==> Fits(n / 256, 0);
    assert Fits(n, 2) <==> Fits(n / 256, 1);
    assert Fits(n / 256, 1) <==> Fits(n / 256 / 256, 0);
    assert Fits(n, 4) <==> Fits(n / 256, 3);
    assert Fits(n / 256, 3) <==> Fits(n / 256 / 256, 2);
    assert Fits(n / 256 / 256, 2) <==> Fits(n / 256 / 256 / 256, 1);
    assert Fits(n / 256 / 256 / 256, 1) <==> Fits(n / 256 / 256 / 256 / 256, 0);
  }

  // ---- comparison ----

  function Sign(n: int): (r: int)
    ensures -1 <= r <= 1
  {
    if n < 0 then -1 else if n > 0 then 1 else 0
  }

  /** -1, 0 or 1 as `m` is below, equal to or above `n`. */
  function Order(m: int, n: int): (r: int)
    ensures -1 <= r <= 1
  {
    Sign(m - n)
  }

  /** The order of the first octets that differ within the shorter string. */
  function Lex(a: bytes, b: bytes): (r: int)
    ensures -1 <= r <= 1
  {
    if a == [] || b == [] then 0
    else if a[0] != b[0] then Order(a[0], b[0])
    else Lex(a[1..], b[1..])
  }

  /** `memcmp(a, b, n)`. */
  method MemCompare(a: bytes, b: bytes, n: nat) returns (r: int)
    requires n <= |a| && n <= |b|
    ensures Sign(r) == Lex(a[..n], b[..n])
  {
    var i := 0;
    assert a[0..n] == a[..n] && b[0..n] == b[..n];
    while i < n
      invariant 0 <= i <= n
      invariant Lex(a[i..n], b[i..n]) == Lex(a[..n], b[..n])
    {
      assert a[i..n][1..] == a[i + 1..n] && b[i..n][1..] == b[i + 1..n];
      if a[i] != b[i] {
        return a[i] as int - b[i] as int;
      }
      i := i + 1;
    }
    return 0;
  }

  /** Comparing stops at the end of the shorter string. */
  lemma {:induction false} LexShorter(a: bytes, b: bytes, n: nat)
    requires n <= |a| && n <= |b| && (n == |a| || n == |b|)
    ensures Lex(a[..n], b[..n]) == Lex(a, b)
  {
    if n > 0 {
      assert a[..n][1..] == a[1..][..n - 1] && b[..n][1..] == b[1..][..n - 1];
      LexShorter(a[1..], b[1..], n - 1);
    }
  }

  lemma {:induction false} LexConcat(a: bytes, b: bytes, x: bytes, y: bytes)
    requires |a| == |b|
    ensures Lex(a + x, b + y) == if a != b then Lex(a, b) else Lex(x, y)
    ensures a != b <==> Lex(a, b) != 0
  {
    if a == [] {
      assert a + x == x && b + y == y;
    } else {
      assert (a + x)[1..] == a[1..] + x && (b + y)[1..] == b[1..] + y;
      LexConcat(a[1..], b[1..], x, y);
      assert a == [a[0]] + a[1..] && b == [b[0]] + b[1..];
    }
  }

  lemma {:induction false} LexFlip(a: bytes, b: bytes)
    ensures Lex(a, b) == -Lex(b, a)
  {
    if a != [] && b != [] {
      LexFlip(a[1..], b[1..]);
    }
  }

  lemma {:induction false} LexTransitive(a: bytes, b: bytes, c: bytes)
    requires |a| == |b| == |c|
    requires Lex(a, b) <= 0 && Lex(b, c) <= 0
    ensures Lex(a, c) <= 0
  {
    if a != [] && a[0] == b[0] == c[0] {
      LexTransitive(a[1..], b[1..], c[1..]);
    }
  }

  /** Octet strings of one length are in the order of their numbers. */
  lemma {:induction false} LexIsNumeric(a: bytes, b: bytes)
    requires |a| == |b|
    ensures Lex(a, b) == Order(Value(a), Value(b))
  {
    if a != [] {
      var k := |a| - 1;
      LexIsNumeric(a[..k], b[..k]);
      assert a == a[..k] + [a[k]] && b == b[..k] + [b[k]];
      LexConcat(a[..k], b[..k], [a[k]], [b[k]]);
      assert Lex([a[k]], [b[k]]) == Order(a[k], b[k]);
    }
  }

  // ---- VAR-NUMBER ----

  /** A number written in one of the four sizes of a VAR-NUMBER. */
  function VarNumberOf(n: nat, size: nat): bytes {
    if size == 1 then [n % 256]
    else if size == 3 then [253] + BigEndian(n, 2)
    else if size == 5 then [254] + BigEndian(n, 4)
    else [255] + BigEndian(n, 8)
  }

  /** The sizes in which a reader accepts a number; only the first need be written. */
  predicate Readable(n: nat, size: nat) {
    n < TWO64 && match size
                 case 1 => n < 253
                 case 3 => n <= 0xFFFF
                 case 5 => n <= 0xFFFF_FFFF
                 case 9 => true
                 case _ => false
  }

  /** What the encoder writes: the shortest. */
  function VarNumber(n: nat): (s: bytes)
    ensures |s| == SizeOfVarNumber(n)
  {
    VarNumberOf(n, SizeOfVarNumber(n))
  }

  /** `tlv::readVarNumber`: the number at the front and what follows it. */
  function ReadVarNumber(s: bytes): (r: Option<(nat, bytes)>) {
    if s == [] then None
    else if s[0] < 253 then Some((s[0], s[1..]))
    else
      var k := if s[0] == 253 then 2 else if s[0] == 254 then 4 else 8;
      if |s| < 1 + k then None else Some((Value(s[1..1 + k]), s[1 + k..]))
  }

  lemma VarNumberRead(n: nat, size: nat, rest: bytes)
    requires Readable(n, size)
    ensures ReadVarNumber(VarNumberOf(n, size) + rest) == Some((n, rest))
  {
    var s := VarNumberOf(n, size) + rest;
    FitsPowers(n);
    if size == 1 {
      assert s[1..] == rest;
    } else {
      var k := size - 1;
      assert s[1..1 + k] == BigEndian(n, k) && s[1 + k..] == rest;
      ValueOfBigEndian(n, k);
    }
  }

  /** Nothing else reads as a number. */
  lemma VarNumberReadOnly(s: bytes) returns (size: nat)
    requires ReadVarNumber(s).Some?
    ensures var (n, rest) := ReadVarNumber(s).value;
      Readable(n, size) && s == VarNumberOf(n, size) + rest
  {
    var (n, rest) := ReadVarNumber(s).value;
    if s[0] < 253 {
      size := 1;
      assert s == [s[0]] + s[1..];
    } else {
      var k := if s[0] == 253 then 2 else if s[0] == 254 then 4 else 8;
      size := 1 + k;
      BigEndianOfValue(s[1..1 + k]);
      FitsPowers(n);
      assert s == [s[0]] + s[1..1 + k] + s[1 + k..];
    }
  }

  /** The first octet of a VAR-NUMBER: the number itself, or a tag for its size. */
  function Lead(n: nat, size: nat): (r: int) {
    if size == 1 then n % 256 else if size == 3 then 253 else if size == 5 then 254 else 255
  }

  /** Different numbers in their shortest form are in order whatever follows them. */
  lemma VarNumberOrder(n: nat, m: nat, x: bytes, y: bytes)
    requires n < TWO64 && m < TWO64
    ensures n != m ==> Lex(VarNumber(n) + x, VarNumber(m) + y) == Order(n, m)
    ensures n == m ==> Lex(VarNumber(n) + x, VarNumber(m) + y) == Lex(x, y)
  {
    var size := SizeOfVarNumber(n);
    if size == SizeOfVarNumber(m) {
      LexConcat(VarNumber(n), VarNumber(m), x, y);
      if size == 1 {
        assert VarNumber(n) == [n] && VarNumber(m) == [m];
      } else {
        FitsPowers(n);
        FitsPowers(m);
        SameSizeOrder(n, m, size - 1, Lead(n, size));
      }
    } else {
      assert (VarNumber(n) + x)[0] == Lead(n, size);
      assert (VarNumber(m) + y)[0] == Lead(m, SizeOfVarNumber(m));
    }
  }

  lemma SameSizeOrder(n: nat, m: nat, k: nat, tag: byte)
    requires Fits(n, k) && Fits(m, k)
    ensures Lex([tag] + BigEndian(n, k), [tag] + BigEndian(m, k)) == Order(n, m)
    ensures n != m ==> [tag] + BigEndian(n, k) != [tag] + BigEndian(m, k)
  {
    hide Value, BigEndian, Fits, Lex;
    LexConcat([tag], [tag], BigEndian(n, k), BigEndian(m, k));
    LexIsNumeric(BigEndian(n, k), BigEndian(m, k));
    ValueOfBigEndian(n, k);
    ValueOfBigEndian(m, k);
    LexConcat([tag] + BigEndian(n, k), [tag] + BigEndian(m, k), [], []);
  }

  // ---- NonNegativeInteger ----

  function NonNegativeInteger(n: uint64): bytes {
    BigEndian(n, SizeOfNonNegativeInteger(n))
  }

  predicate IsNonNegativeIntegerSize(k: nat) {
    k == 1 || k == 2 || k == 4 || k == 8
  }

  lemma NonNegativeIntegerRoundTrip(n: uint64)
    ensures IsNonNegativeIntegerSize(|NonNegativeInteger(n)|) && Value(NonNegativeInteger(n)) == n
  {
    FitsPowers(n);
    ValueOfBigEndian(n, SizeOfNonNegativeInteger(n));
  }

  /** Shorter first, then octet by octet: the order of the numbers. */
  lemma NonNegativeIntegerOrder(n: uint64, m: uint64)
    ensures var a, b := NonNegativeInteger(n), NonNegativeInteger(m);
      Sign(n - m) == if |a| != |b| then Order(|a|, |b|) else Lex(a, b)
  {
    NonNegativeIntegerRoundTrip(n);
    NonNegativeIntegerRoundTrip(m);
    if SizeOfNonNegativeInteger(n) == SizeOfNonNegativeInteger(m) {
      LexIsNumeric(NonNegativeInteger(n), NonNegativeInteger(m));
    }
  }
}
