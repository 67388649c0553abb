/** The characters of NDN URIs: percent-encoding, hexadecimal and decimal numbers. */
module UriText {
  import opened Basics
  import opened Tlv

  /** A character of a URI is an octet. */
  type uchar = c: char | c as int < 256 witness 'a'
  type text = seq<uchar>

  // ---- hexadecimal ----

  function HexDigit(n: nat, upper: bool): (c: uchar)
    requires n < 16
    ensures FromHexDigit(c) == Some(n)
  {
    if n < 10 then ('0' as int + n) as char else ((if upper then 'A' else 'a') as int + (n - 10)) as char
  }

  function FromHexDigit(c: uchar): (r: Option<nat>)
    ensures r.Some? ==> r.value < 16
  {
    if '0' <= c <= '9' then Some(c as int - '0' as int)
    else if 'A' <= c <= 'F' then Some(c as int - 'A' as int + 10)
    else if 'a' <= c <= 'f' then Some(c as int - 'a' as int + 10)
    else None
  }

  function LowerHex(v: bytes): text {
    if v == [] then [] else [HexDigit(v[0] / 16, false), HexDigit(v[0] % 16, false)] + LowerHex(v[1..])
  }

  /** `fromHex`; None where it throws. */
  function FromHex(s: text): Option<bytes> {
    if s == [] then Some([])
    else if |s| == 1 || FromHexDigit(s[0]) == None || FromHexDigit(s[1]) == None then None
    else
      match FromHex(s[2..])
      case None => None
      case Some(rest) => Some([FromHexDigit(s[0]).value * 16 + FromHexDigit(s[1]).value] + rest)
  }

  lemma {:induction false} HexRoundTrip(v: bytes)
    ensures FromHex(LowerHex(v)) == Some(v)
  {
    if v != [] {
      HexRoundTrip(v[1..]);
      assert LowerHex(v)[2..] == LowerHex(v[1..]);
      assert v == [v[0]] + v[1..];
    }
  }

  // ---- percent-encoding ----

  predicate IsUnreserved(b: byte) {
    var c := b as char;
    'a' <= c <= 'z' || 'A' <= c <= 'Z' || '0' <= c <= '9' || c in {'-', '.', '_', '~'}
  }

  function EscapeOctet(b: byte): text {
    if IsUnreserved(b) then [b as char] else ['%', HexDigit(b / 16, true), HexDigit(b % 16, true)]
  }

  function Escape(v: bytes): text {
    if v == [] then [] else EscapeOctet(v[0]) + Escape(v[1..])
  }

  lemma EscapeFrom(v: bytes, i: nat, os: text)
    requires i < |v| && os + Escape(v[i..]) == Escape(v)
    ensures (os + EscapeOctet(v[i])) + Escape(v[i + 1..]) == Escape(v)
  {
    hide EscapeOctet, Escape;
    EscapeStep(v, i);
    Associative(os, EscapeOctet(v[i]), Escape(v[i + 1..]));
  }

  lemma EscapeStep(v: bytes, i: nat)
    requires i < |v|
    ensures Escape(v[i..]) == EscapeOctet(v[i]) + Escape(v[i + 1..])
  {
    hide EscapeOctet;
    assert v[i..][1..] == v[i + 1..];
  }

  /** `escape`. */
  method EscapeLoop(v: bytes) returns (os: text)
    ensures os == Escape(v)
  {
    hide Escape, HexDigit;
    os := [];
    var i := 0;
    assert v[0..] == v;
    while i < |v|
      invariant 0 <= i <= |v| && os + Escape(v[i..]) == Escape(v)
    {
      EscapeFrom(v, i, os);
      if IsUnreserved(v[i]) {
        os := os + [v[i] as char];
      } else {
        os := os + ['%', HexDigit(v[i] / 16, true), HexDigit(v[i] % 16, true)];
      }
      i := i + 1;
    }
    assert v[i..] == [];
    EscapeNothing();
  }

  lemma EscapeNothing()
    ensures Escape([]) == [] && Unescape([]) == []
  {
  }

  /** An escape with digits that are not hexadecimal is kept as it is. */
  function Unescape(s: text): bytes {
    if s == [] then [] else UnescapeFirst(s) + Unescape(s[FirstLength(s)..])
  }

  /** The characters the first octet is written with. */
  function FirstLength(s: text): (k: nat)
    requires s != []
    ensures 1 <= k <= |s|
  {
    if s[0] == '%' && |s| > 2 then 3 else 1
  }

  function UnescapeFirst(s: text): bytes
    requires s != []
  {
    if s[0] == '%' && |s| > 2 then
      var hi, lo := FromHexDigit(s[1]), FromHexDigit(s[2]);
      if hi == None || lo == None then [s[0] as int, s[1] as int, s[2] as int] else [hi.value * 16 + lo.value]
    else [s[0] as int]
  }

  lemma UnescapeFrom(s: text, i: nat, os: bytes)
    requires i < |s| && os + Unescape(s[i..]) == Unescape(s)
    ensures (os + UnescapeFirst(s[i..])) + Unescape(s[i + FirstLength(s[i..])..]) == Unescape(s)
  {
    hide UnescapeFirst, FirstLength, Unescape;
    UnescapeStep(s, i);
    Associative(os, UnescapeFirst(s[i..]), Unescape(s[i + FirstLength(s[i..])..]));
  }

  lemma UnescapeStep(s: text, i: nat)
    requires i < |s|
    ensures Unescape(s[i..]) == UnescapeFirst(s[i..]) + Unescape(s[i + FirstLength(s[i..])..])
  {
    hide UnescapeFirst, FirstLength;
    assert s[i..][FirstLength(s[i..])..] == s[i + FirstLength(s[i..])..];
  }

  /** `unescape`. */
  method UnescapeLoop(s: text) returns (os: bytes)
    ensures os == Unescape(s)
  {
    hide Unescape, FromHexDigit;
    os := [];
    var i := 0;
    assert s[0..] == s;
    while i < |s|
      invariant 0 <= i <= |s| && os + Unescape(s[i..]) == Unescape(s)
    {
      UnescapeFrom(s, i, os);
      if s[i] == '%' && i + 2 < |s| {
        var hi, lo := FromHexDigit(s[i + 1]), FromHexDigit(s[i + 2]);
        if hi == None || lo == None {
          os := os + [s[i] as int, s[i + 1] as int, s[i + 2] as int];
        } else {
          os := os + [hi.value * 16 + lo.value];
        }
        i := i + 3;
      } else {
        os := os + [s[i] as int];
        i := i + 1;
      }
    }
    assert s[i..] == [];
    EscapeNothing();
  }

  lemma {:induction false} EscapeRoundTrip(v: bytes)
    ensures Unescape(Escape(v)) == v
  {
    if v != [] {
      EscapeRoundTrip(v[1..]);
      var s := Escape(v);
      assert v == [v[0]] + v[1..];
      if IsUnreserved(v[0]) {
        assert s[0] == v[0] as char && s[1..] == Escape(v[1..]);
      } else {
        assert s[0] == '%' && s[1] == HexDigit(v[0] / 16, true) && s[2] == HexDigit(v[0] % 16, true);
        assert s[3..] == Escape(v[1..]);
      }
    }
  }

  /** Characters with a meaning of their own in a URI. */
  ghost predicate Plain(s: text) {
    forall i :: 0 <= i < |s| ==> s[i] != '/' && s[i] != ':' && s[i] != '='
  }

  lemma {:induction false} EscapeIsPlain(v: bytes)
    ensures Plain(Escape(v))
  {
    if v != [] {
      EscapeIsPlain(v[1..]);
    }
  }

  lemma {:induction false} HexIsPlain(v: bytes)
    ensures Plain(LowerHex(v))
  {
    if v != [] {
      HexIsPlain(v[1..]);
    }
  }

  // ---- decimal ----

  function Digit(n: nat): (c: uchar)
    requires n < 10
  {
    ('0' as int + n) as char
  }

  function Decimal(n: nat): (s: text)
    ensures s != [] && forall i :: 0 <= i < |s| ==> '0' <= s[i] <= '9'
  {
    if n < 10 then [Digit(n)] else Decimal(n / 10) + [Digit(n % 10)]
  }

  predicate IsDigit(c: uchar) {
    '0' <= c <= '9'
  }

  /** How many digits a text begins with. */
  function DigitCount(s: text): (k: nat)
    ensures k <= |s| && forall i :: 0 <= i < k ==> IsDigit(s[i])
  {
    if s == [] || !IsDigit(s[0]) then 0 else 1 + DigitCount(s[1..])
  }

  function DigitsValue(s: text): nat
    requires forall i :: 0 <= i < |s| ==> IsDigit(s[i])
  {
    if s == [] then 0
    else
      assert IsDigit(s[|s| - 1]);
      10 * DigitsValue(s[..|s| - 1]) + (s[|s| - 1] as int - '0' as int)
  }

  predicate IsSpace(c: uchar) {
    c == ' ' || 9 <= c as int <= 13
  }

  function SkipSpaces(s: text): text {
    if s != [] && IsSpace(s[0]) then SkipSpaces(s[1..]) else s
  }

  function SkipSign(s: text): text {
    if s != [] && (s[0] == '-' || s[0] == '+') then s[1..] else s
  }

  /** The digits `strtoul` and `stoull` read: after spaces and a sign. */
  function Digits(s: text): (d: text)
    ensures forall i :: 0 <= i < |d| ==> IsDigit(d[i])
  {
    var t := SkipSign(SkipSpaces(s));
    t[..DigitCount(t)]
  }

  predicate IsNegative(s: text) {
    var t := SkipSpaces(s);
    t != [] && t[0] == '-'
  }

  /** `strtoul` in base 10: 0 without digits, the largest number past the range. */
  function StrToUL(s: text): (r: nat)
    ensures r < TWO64
  {
    var n := DigitsValue(Digits(s));
    if n >= TWO64 then TWO64 - 1 else if IsNegative(s) then (TWO64 - n) % TWO64 else n
  }

  /** `stoull`; None where it throws. */
  function StoULL(s: text): (r: Option<nat>)
    ensures r.Some? ==> r.value < TWO64
  {
    if Digits(s) == [] || DigitsValue(Digits(s)) >= TWO64 then None else Some(StrToUL(s))
  }

  lemma {:induction false} AllDigits(s: text)
    requires forall i :: 0 <= i < |s| ==> IsDigit(s[i])
    ensures DigitCount(s) == |s|
  {
    if s != [] {
      AllDigits(s[1..]);
    }
  }

  lemma {:induction false} DecimalValue(n: nat)
    ensures DigitsValue(Decimal(n)) == n
  {
    if n >= 10 {
      DecimalValue(n / 10);
      assert Decimal(n)[..|Decimal(n)| - 1] == Decimal(n / 10);
    }
  }

  lemma DecimalRoundTrip(n: nat)
    ensures Digits(Decimal(n)) == Decimal(n) && DigitsValue(Digits(Decimal(n))) == n
    ensures n < TWO64 ==> StrToUL(Decimal(n)) == n && StoULL(Decimal(n)) == Some(n)
  {
    hide DigitsValue, DigitCount, Decimal;
    var s := Decimal(n);
    assert IsDigit(s[0]);
    AllDigits(s);
    DecimalValue(n);
    assert s[..|s|] == s;
  }

  /** A text that begins with a letter is no number. */
  lemma LetterIsNoNumber(s: text)
    requires s != [] && 'a' <= s[0] <= 'z'
    ensures StrToUL(s) == 0
  {
    assert Digits(s) == [];
  }
}
