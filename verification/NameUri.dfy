/** NDN URIs of components and names, the constructor that reads them, and the removal of
    the first function of an Interest, which goes through a URI. */
module NameUri {
  import opened Basics
  import LpPackets
  import opened Tlv
  import opened NameComponents
  import opened Names
  import opened UriText

  // ---- components ----

  predicate AllPeriods(v: bytes) {
    forall i :: 0 <= i < |v| ==> v[i] as char == '.'
  }

  const PERIODS: text := ['.', '.', '.']

  /** `writeUriEscapedValue`: periods only are written with three more. */
  function EscapedValue(v: bytes): text {
    (if AllPeriods(v) then PERIODS else []) + Escape(v)
  }

  /** Types whose value is written as a number where it has the length of one. */
  predicate IsDecimalType(typ: nat) {
    33 <= typ <= 37
  }

  predicate HasPrefix(typ: nat) {
    IsDigestType(typ) || IsDecimalType(typ)
  }

  /** `getAltUriPrefix`. */
  function UriPrefix(typ: nat): (s: text)
    requires HasPrefix(typ)
    ensures s != [] && 'a' <= s[0] <= 'z' && Plain(s)
  {
    match typ
    case 1 => ['s', 'h', 'a', '2', '5', '6', 'd', 'i', 'g', 'e', 's', 't']
    case 2 => ['p', 'a', 'r', 'a', 'm', 's', '-', 's', 'h', 'a', '2', '5', '6']
    case 33 => ['s', 'e', 'g']
    case 34 => ['o', 'f', 'f']
    case 35 => ['v']
    case 36 => ['t']
    case _ => ['s', 'e', 'q']
  }

  /** `findByUriPrefix`. */
  function FindByUriPrefix(s: text): (r: Option<nat>)
    ensures r.Some? ==> HasPrefix(r.value) && UriPrefix(r.value) == s
    ensures r == None ==> forall typ :: HasPrefix(typ) ==> UriPrefix(typ) != s
  {
    if s == UriPrefix(1) then Some(1)
    else if s == UriPrefix(2) then Some(2)
    else if s == UriPrefix(33) then Some(33)
    else if s == UriPrefix(34) then Some(34)
    else if s == UriPrefix(35) then Some(35)
    else if s == UriPrefix(36) then Some(36)
    else if s == UriPrefix(37) then Some(37)
    else None
  }

  lemma PrefixesDiffer(t: nat, u: nat)
    requires HasPrefix(t) && HasPrefix(u) && UriPrefix(t) == UriPrefix(u)
    ensures t == u
  {
    assert t in {1, 2, 33, 34, 35, 36, 37} && u in {1, 2, 33, 34, 35, 36, 37};
  }

  const EQUALS: text := ['=']
  const SLASH: text := ['/']

  function CanonicalText(c: Component): text {
    Decimal(c.typ) + EQUALS + EscapedValue(c.value)
  }

  /** `Component::toUri` in the alternate or the canonical format. */
  function ComponentText(c: Component, alternate: bool): text {
    if !alternate then CanonicalText(c)
    else if c.typ == GENERIC then EscapedValue(c.value)
    else if IsDigestType(c.typ) then UriPrefix(c.typ) + EQUALS + LowerHex(c.value)
    else if IsDecimalType(c.typ) && IsNonNegativeIntegerSize(|c.value|)
    then UriPrefix(c.typ) + EQUALS + Decimal(Value(c.value))
    else CanonicalText(c)
  }

  function Checked(c: Component): Option<Component> {
    if Valid(c) then Some(c) else None
  }

  /** `parseUriEscapedValue`; None where it throws. */
  function ParseEscapedValue(typ: nat, s: text): Option<Component> {
    var v := Unescape(s);
    if !AllPeriods(v) then Checked(Component(typ, v))
    else if |v| < 3 then None
    else Checked(Component(typ, v[..|v| - 3]))
  }

  /** `parseAltUriValue`; None where it throws. */
  function ParseAltValue(typ: nat, s: text): Option<Component>
    requires HasPrefix(typ)
  {
    if IsDigestType(typ) then
      match FromHex(s)
      case None => None
      case Some(v) => Checked(Component(typ, v))
    else
      match StoULL(s)
      case None => None
      case Some(n) => if Decimal(n) != s then None else Some(Component(typ, NonNegativeInteger(n)))
  }

  /** The index of the first `c`, or the length. */
  function Find(s: text, c: uchar): (i: nat)
    ensures i <= |s| && (i < |s| ==> s[i] == c)
    ensures forall j :: 0 <= j < i ==> s[j] != c
  {
    if s == [] || s[0] == c then 0 else 1 + Find(s[1..], c)
  }

  lemma FindUnique(s: text, c: uchar, i: nat)
    requires i <= |s| && (i < |s| ==> s[i] == c) && forall j :: 0 <= j < i ==> s[j] != c
    ensures Find(s, c) == i
  {
  }

  /** `Component::fromEscapedString`; None where it throws. */
  function ParseComponent(s: text): Option<Component> {
    var equal := Find(s, '=');
    if equal == |s| then ParseEscapedValue(GENERIC, s)
    else
      var prefix, rest := s[..equal], s[equal + 1..];
      var typ := StrToUL(prefix);
      if NAME_COMPONENT_MIN <= typ <= NAME_COMPONENT_MAX && Decimal(typ) == prefix then ParseEscapedValue(typ, rest)
      else match FindByUriPrefix(prefix)
           case None => None
           case Some(t) => ParseAltValue(t, rest)
  }

  /** Whether a number is in its shortest form, or the format does not write numbers. */
  predicate IsShortest(c: Component, alternate: bool) {
    alternate && IsDecimalType(c.typ) && IsNonNegativeIntegerSize(|c.value|)
    ==> |c.value| == LpPackets.SizeOfNonNegativeInteger(Value(c.value))
  }

  /** A component after writing and reading: a number comes back in its shortest form. */
  ghost function Normal(c: Component, alternate: bool): (r: Component) {
    if IsShortest(c, alternate) then c
    else Component(c.typ, BigEndian(Value(c.value), LpPackets.SizeOfNonNegativeInteger(Value(c.value))))
  }

  lemma NormalExactly(c: Component, alternate: bool)
    ensures Normal(c, alternate) == c <==> IsShortest(c, alternate)
  {
  }

  lemma NumberValue(v: bytes)
    requires IsNonNegativeIntegerSize(|v|)
    ensures Value(v) < TWO64
    ensures |v| == LpPackets.SizeOfNonNegativeInteger(Value(v)) ==> NonNegativeInteger(Value(v)) == v
  {
    BigEndianOfValue(v);
    FitsPowers(Value(v));
  }

  lemma UnescapePeriods(v: bytes)
    requires AllPeriods(v)
    ensures Unescape(PERIODS + Escape(v)) == ['.' as int, '.' as int, '.' as int] + v
  {
    hide AllPeriods, Unescape, Escape;
    var e := Escape(v);
    EscapeRoundTrip(v);
    UnescapePeriod(e);
    UnescapePeriod(['.'] + e);
    UnescapePeriod(['.'] + (['.'] + e));
    assert PERIODS + e == ['.'] + (['.'] + (['.'] + e));
  }

  lemma UnescapePeriod(s: text)
    ensures Unescape(['.'] + s) == ['.' as int] + Unescape(s)
  {
    assert (['.'] + s)[1..] == s;
  }

  lemma ValueRoundTrip(c: Component)
    requires Valid(c)
    ensures ParseEscapedValue(c.typ, EscapedValue(c.value)) == Some(c)
  {
    hide Escape, Unescape;
    EscapeRoundTrip(c.value);
    if AllPeriods(c.value) {
      UnescapePeriods(c.value);
      var v := ['.' as int, '.' as int, '.' as int] + c.value;
      assert Unescape(EscapedValue(c.value)) == v && AllPeriods(v);
      assert v[..|v| - 3] == c.value;
    } else {
      assert EscapedValue(c.value) == Escape(c.value);
    }
  }

  lemma EqualAt(prefix: text, rest: text)
    requires Plain(prefix)
    ensures var s := prefix + EQUALS + rest;
      Find(s, '=') == |prefix| < |s| && s[..|prefix|] == prefix && s[|prefix| + 1..] == rest
  {
    FindUnique(prefix + EQUALS + rest, '=', |prefix|);
  }

  /** Reading what was written gives the component back, but for a number that was not
      in its shortest form, which comes back in it. */
  lemma ComponentRoundTrip(c: Component, alternate: bool)
    requires Valid(c)
    ensures ParseComponent(ComponentText(c, alternate)) == Some(Normal(c, alternate))
  {
    hide Find, EscapedValue, ParseEscapedValue, Decimal, StrToUL, StoULL, FromHex, LowerHex, UriPrefix, Value,
         FindByUriPrefix, NonNegativeInteger, BigEndian;
    ValueRoundTrip(c);
    if alternate && c.typ == GENERIC {
      NoEquals(c.value);
    } else if alternate && HasPrefix(c.typ) && (IsDecimalType(c.typ) ==> IsNonNegativeIntegerSize(|c.value|)) {
      AltRoundTrip(c);
    } else {
      CanonicalRoundTrip(c);
    }
  }

  lemma NoEquals(v: bytes)
    ensures Find(EscapedValue(v), '=') == |EscapedValue(v)|
  {
    EscapeIsPlain(v);
    FindUnique(EscapedValue(v), '=', |EscapedValue(v)|);
  }

  lemma CanonicalRoundTrip(c: Component)
    requires Valid(c)
    ensures ParseComponent(CanonicalText(c)) == Some(c)
  {
    hide Find, EscapedValue, ParseEscapedValue, Decimal, StrToUL, FindByUriPrefix;
    EqualAt(Decimal(c.typ), EscapedValue(c.value));
    DecimalRoundTrip(c.typ);
    ValueRoundTrip(c);
  }

  lemma AltRoundTrip(c: Component)
    requires Valid(c) && HasPrefix(c.typ) && (IsDecimalType(c.typ) ==> IsNonNegativeIntegerSize(|c.value|))
    ensures ParseComponent(ComponentText(c, true)) == Some(Normal(c, true))
  {
    hide Find, EscapedValue, ParseEscapedValue, Decimal, StrToUL, StoULL, FromHex, LowerHex, UriPrefix, Value,
         FindByUriPrefix, BigEndian;
    var s := if IsDigestType(c.typ) then LowerHex(c.value) else Decimal(Value(c.value));
    EqualAt(UriPrefix(c.typ), s);
    LetterIsNoNumber(UriPrefix(c.typ));
    var t := FindByUriPrefix(UriPrefix(c.typ));
    PrefixesDiffer(t.value, c.typ);
    if IsDigestType(c.typ) {
      HexRoundTrip(c.value);
    } else {
      NumberValue(c.value);
      DecimalRoundTrip(Value(c.value));
    }
  }

  // ---- names ----

  function JoinText(n: Name, alternate: bool): text {
    if n == [] then [] else SLASH + ComponentText(n[0], alternate) + JoinText(n[1..], alternate)
  }

  /** `Name::toUri`. */
  function NameText(n: Name, alternate: bool): text {
    if n == [] then SLASH else JoinText(n, alternate)
  }

  /** Drops a leading scheme, as in `ndn:`. */
  function WithoutScheme(uri: text): text {
    var colon := Find(uri, ':');
    if colon < |uri| && colon < Find(uri, '/') then uri[colon + 1..] else uri
  }

  /** Drops the leading slash, or two slashes and an authority; None where there is
      nothing but an authority. */
  function WithoutAuthority(uri: text): Option<text> {
    if uri == [] || uri[0] != '/' then Some(uri)
    else if |uri| >= 2 && uri[1] == '/' then
      var slash := Find(uri[2..], '/');
      if slash == |uri[2..]| then None else Some(uri[2..][slash + 1..])
    else Some(uri[1..])
  }

  /** The components of a text split at its slashes; None where one is malformed. */
  function ParseComponents(s: text): Option<Name>
    decreases |s|
  {
    if s == [] then Some([])
    else
      var end := Find(s, '/');
      match ParseComponent(s[..end])
      case None => None
      case Some(c) =>
        match ParseComponents(if end == |s| then [] else s[end + 1..])
        case None => None
        case Some(rest) => Some([c] + rest)
  }

  function ParseName(uri: text): Option<Name> {
    match WithoutAuthority(WithoutScheme(uri))
    case None => Some([])
    case Some(s) => ParseComponents(s)
  }

  /** Components read so far, followed by what the rest of the text gives. */
  ghost function Continue(name: Name, rest: text): Option<Name> {
    Prefixed(name, ParseComponents(rest))
  }

  ghost function Prefixed(name: Name, r: Option<Name>): Option<Name> {
    match r
    case None => None
    case Some(rest) => Some(name + rest)
  }

  lemma PrefixedTwice(a: Name, b: Name, r: Option<Name>)
    ensures Prefixed(a, Prefixed(b, r)) == Prefixed(a + b, r)
  {
    if r.Some? {
      Associative(a, b, r.value);
    }
  }

  /** `Name(std::string uri)`; None where it throws. */
  method ReadName(uri: text) returns (r: Option<Name>)
    ensures r == ParseName(uri)
  {
    hide ParseComponent, ParseComponents, Find, Continue;
    ReadNothing();
    var s := WithoutScheme(uri);
    match WithoutAuthority(s) {
      case None => return Some([]);
      case Some(t) => s := t;
    }
    var name: Name, start := [], 0;
    StartReading(s);
    while start < |s|
      invariant 0 <= start && Continue(name, if start < |s| then s[start..] else []) == ParseComponents(s)
    {
      var rest := s[start..];
      var end := Find(rest, '/');
      OneMore(name, rest);
      match ParseComponent(rest[..end]) {
        case None => return None;
        case Some(c) =>
          name := name + [c];
          start := start + end + 1;
          assert start < |s| ==> s[start..] == rest[end + 1..];
          assert start == |s| ==> rest[end + 1..] == [];
      }
    }
    EndReading(name);
    return Some(name);
  }

  lemma ReadNothing()
    ensures ParseName([]) == Some([])
  {
  }

  lemma StartReading(s: text)
    ensures Continue([], if 0 < |s| then s[0..] else []) == ParseComponents(s)
  {
    assert (if 0 < |s| then s[0..] else []) == s;
    if ParseComponents(s).Some? {
      assert [] + ParseComponents(s).value == ParseComponents(s).value;
    }
  }

  lemma EndReading(name: Name)
    ensures Continue(name, []) == Some(name)
  {
    assert name + [] == name;
  }

  lemma OneMore(name: Name, rest: text)
    requires rest != []
    ensures var end := Find(rest, '/');
      Continue(name, rest) == match ParseComponent(rest[..end])
                              case None => None
                              case Some(c) => Continue(name + [c], if end == |rest| then [] else rest[end + 1..])
  {
    hide ParseComponent, ParseComponents, Find, Prefixed;
    ParseFirst(rest);
    var end := Find(rest, '/');
    var c := ParseComponent(rest[..end]);
    if c.Some? {
      PrefixedTwice(name, [c.value], ParseComponents(if end == |rest| then [] else rest[end + 1..]));
    } else {
      PrefixedNone(name);
    }
  }

  lemma PrefixedNone(name: Name)
    ensures Prefixed(name, None) == None
  {
  }

  lemma ParseFirst(rest: text)
    requires rest != []
    ensures var end := Find(rest, '/');
      ParseComponents(rest) == match ParseComponent(rest[..end])
                               case None => None
                               case Some(c) => Prefixed([c], ParseComponents(if end == |rest| then [] else rest[end + 1..]))
  {
    hide ParseComponent, Find;
  }

  // ---- round trip of names ----

  ghost function NormalName(n: Name, alternate: bool): (r: Name)
    ensures |r| == |n|
  {
    if n == [] then [] else [Normal(n[0], alternate)] + NormalName(n[1..], alternate)
  }

  ghost predicate AllShortest(n: Name, alternate: bool) {
    forall i :: 0 <= i < |n| ==> IsShortest(n[i], alternate)
  }

  lemma {:induction false} NormalNameExactly(n: Name, alternate: bool)
    ensures NormalName(n, alternate) == n <==> AllShortest(n, alternate)
  {
    if n != [] {
      hide IsShortest, Normal;
      NormalNameExactly(n[1..], alternate);
      NormalExactly(n[0], alternate);
      assert n == [n[0]] + n[1..];
    }
  }

  /** A component is never written as nothing, nor with a slash or a colon. */
  ghost predicate OneComponentText(s: text) {
    s != [] && forall i :: 0 <= i < |s| ==> s[i] != '/' && s[i] != ':'
  }

  lemma ComponentTextIsOne(c: Component, alternate: bool)
    ensures OneComponentText(ComponentText(c, alternate))
  {
    hide OneComponentText, EscapedValue, Plain, UriPrefix, LowerHex, Decimal;
    ValueIsPlain(c.value);
    HexIsPlain(c.value);
    DecimalIsPlain(c.typ);
    DecimalIsPlain(Value(c.value));
    JoinedIsOne(Decimal(c.typ), EscapedValue(c.value));
    if HasPrefix(c.typ) {
      JoinedIsOne(UriPrefix(c.typ), LowerHex(c.value));
      JoinedIsOne(UriPrefix(c.typ), Decimal(Value(c.value)));
    }
  }

  lemma JoinedIsOne(a: text, b: text)
    requires a != [] && Plain(a) && Plain(b)
    ensures OneComponentText(a + EQUALS + b)
  {
  }

  lemma ValueIsPlain(v: bytes)
    ensures Plain(EscapedValue(v)) && OneComponentText(EscapedValue(v))
  {
    EscapeIsPlain(v);
    if v == [] {
      assert AllPeriods(v);
    } else {
      EscapeIsLonger(v);
    }
  }

  lemma DecimalIsPlain(n: nat)
    ensures Plain(Decimal(n))
  {
  }

  lemma EscapeIsLonger(v: bytes)
    requires v != []
    ensures Escape(v) != []
  {
  }

  lemma ReadFirst(first: text, rest: text, c: Component)
    requires OneComponentText(first) && ParseComponent(first) == Some(c) && (rest != [] ==> rest[0] == '/')
    ensures ParseComponents(first + rest) ==
      match ParseComponents(if rest == [] then [] else rest[1..])
      case None => None
      case Some(r) => Some([c] + r)
  {
    hide ParseComponent, Find;
    var s := first + rest;
    FindUnique(s, '/', |first|);
    assert s[..|first|] == first;
    if rest != [] {
      assert s[|first| + 1..] == rest[1..];
    }
  }

  lemma {:induction false} JoinRoundTrip(n: Name, alternate: bool)
    requires ValidName(n) && n != []
    ensures ParseComponents(JoinText(n, alternate)[1..]) == Some(NormalName(n, alternate))
  {
    hide ComponentText, ParseComponent, ParseComponents, Find, Normal, OneComponentText;
    var first, rest := ComponentText(n[0], alternate), JoinText(n[1..], alternate);
    assert JoinText(n, alternate)[1..] == first + rest;
    ComponentTextIsOne(n[0], alternate);
    ComponentRoundTrip(n[0], alternate);
    ReadFirst(first, rest, Normal(n[0], alternate));
    if n[1..] == [] {
      EmptyText(alternate);
    } else {
      JoinRoundTrip(n[1..], alternate);
    }
  }

  lemma {:induction false} NoColon(n: Name, alternate: bool)
    ensures ':' !in JoinText(n, alternate)
  {
    if n != [] {
      hide ComponentText;
      ComponentTextIsOne(n[0], alternate);
      NoColon(n[1..], alternate);
    }
  }

  /** Reading the URI of a name gives every component back in its normal form. */
  lemma ReadWritten(n: Name, alternate: bool)
    requires ValidName(n)
    ensures ParseName(NameText(n, alternate)) == Some(NormalName(n, alternate))
  {
    hide ComponentText, ParseComponents, ParseComponent, Find, NormalName;
    var uri := NameText(n, alternate);
    NoColon(n, alternate);
    FindUnique(uri, ':', |uri|);
    assert WithoutScheme(uri) == uri;
    if n == [] {
      EmptyText(alternate);
    } else {
      ComponentTextIsOne(n[0], alternate);
      JoinRoundTrip(n, alternate);
      assert uri[1] == ComponentText(n[0], alternate)[0];
    }
  }

  lemma EmptyText(alternate: bool)
    ensures ParseComponents([]) == Some([]) && NormalName([], alternate) == [] && SLASH[1..] == []
  {
  }

  /** The URI of a name reads back as that name exactly when each number written as
      such is in its shortest form; in the canonical format always. */
  lemma NameUriRoundTrip(n: Name, alternate: bool)
    requires ValidName(n)
    ensures ParseName(NameText(n, alternate)) == Some(n) <==> AllShortest(n, alternate)
    ensures ParseName(NameText(n, false)) == Some(n)
  {
    hide ParseName, NameText, NormalName;
    ReadWritten(n, alternate);
    NormalNameExactly(n, alternate);
    ReadWritten(n, false);
    NormalNameExactly(n, false);
  }

  /** Segment 0 in eight octets is written as `seg=0` and comes back in one. */
  lemma LongSegmentDoesNotRoundTrip()
    ensures var c := Component(33, Zeros(8));
      Valid(c) && ParseName(NameText([c], true)) == Some([Component(33, [0])])
  {
    hide ParseName, NameText;
    var c := Component(33, Zeros(8));
    ReadWritten([c], true);
    ValueOfZeros(8);
    assert BigEndian(0, 1) == BigEndian(0, 0) + [0] == [0];
    assert Normal(c, true) == Component(33, [0]);
    assert NormalName([c], true) == [Normal(c, true)] + NormalName([c][1..], true);
    assert NormalName([c], true) == [Component(33, [0])];
  }

  // ---- the function list of an Interest ----

  predicate HasFunction(functions: Name, alternate: bool) {
    NameText(functions, alternate) != SLASH
  }

  lemma HasFunctionExactly(functions: Name, alternate: bool)
    ensures HasFunction(functions, alternate) <==> functions != []
  {
    if functions != [] {
      hide ComponentText;
      ComponentTextIsOne(functions[0], alternate);
    }
  }

  lemma CanonicalIsShortest(n: Name)
    ensures AllShortest(n, false)
  {
  }

  /** `removeHeadFunction`: erases the first component from the URI and reads the rest; None
      where that throws. Exactly the first function goes exactly when the numbers among the
      others are in their shortest form, in the canonical format always. */
  method RemoveHeadFunction(functions: Name, alternate: bool) returns (r: Option<Name>)
    requires ValidName(functions)
    ensures r == Some(if functions == [] then [] else NormalName(functions[1..], alternate))
    ensures functions != [] ==> (r == Some(functions[1..]) <==> AllShortest(functions[1..], alternate))
    ensures functions != [] && !alternate ==> r == Some(functions[1..])
  {
    hide ComponentText, ParseName, Find, NormalName, AllShortest;
    if functions != [] {
      NormalNameExactly(functions[1..], alternate);
      CanonicalIsShortest(functions[1..]);
    }
    var str := NameText(functions, alternate);
    HasFunctionExactly(functions, alternate);
    if HasFunction(functions, alternate) {
      ghost var first := ComponentText(functions[0], alternate);
      ComponentTextIsOne(functions[0], alternate);
      assert str[1..] == first + JoinText(functions[1..], alternate);
      FindUnique(str[1..], '/', |first|);
      var found := 1 + Find(str[1..], '/');
      if found < |str| {
        str := str[..1] + str[1 + found..];
      } else {
        str := str[..1];
      }
      assert str == NameText(functions[1..], alternate);
      ReadWritten(functions[1..], alternate);
    } else {
      EmptyText(alternate);
      ReadWritten([], alternate);
    }
    r := ReadName(str);
  }
}
