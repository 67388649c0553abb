/** What reading a name from a URI ignores, splits and refuses. */
module UriGrammar {
  import opened Basics
  import opened Tlv
  import opened NameComponents
  import opened Names
  import opened UriText
  import opened NameUri

  // ---- what is ignored ----

  /** A scheme before the first slash is dropped. */
  lemma SchemeIgnored(scheme: text, uri: text)
    requires ':' !in scheme && '/' !in scheme
    requires ':' !in uri || (uri != [] && uri[0] == '/')
    ensures ParseName(scheme + [':'] + uri) == ParseName(uri)
  {
    hide Find, ParseComponents, WithoutAuthority;
    var s := scheme + [':'] + uri;
    FindUnique(s, ':', |scheme|);
    assert forall j :: 0 <= j <= |scheme| ==> s[j] != '/';
    assert s[|scheme| + 1..] == uri;
    NoScheme(uri);
  }

  lemma NoScheme(uri: text)
    requires ':' !in uri || (uri != [] && uri[0] == '/')
    ensures WithoutScheme(uri) == uri
  {
    if ':' !in uri {
      FindUnique(uri, ':', |uri|);
    }
  }

  /** An authority after two slashes is dropped; alone it is the empty name. */
  lemma AuthorityIgnored(authority: text, rest: text)
    requires '/' !in authority && (rest != [] ==> rest[0] != '/')
    ensures ParseName(['/', '/'] + authority + SLASH + rest) == ParseName(SLASH + rest)
    ensures ParseName(['/', '/'] + authority) == Some([])
  {
    hide Find, ParseComponents;
    var alone := ['/', '/'] + authority;
    NoScheme(alone);
    assert alone[2..] == authority;
    FindUnique(authority, '/', |authority|);
    var s := alone + SLASH + rest;
    NoScheme(s);
    assert s[2..] == authority + SLASH + rest;
    FindUnique(s[2..], '/', |authority|);
    assert s[2..][|authority| + 1..] == rest;
    NoScheme(SLASH + rest);
    assert (SLASH + rest)[1..] == rest;
  }

  // ---- how it splits ----

  function SlashJoined(ts: seq<text>): text {
    if ts == [] then [] else SLASH + ts[0] + SlashJoined(ts[1..])
  }

  ghost predicate IsSplit(ts: seq<text>) {
    ts != [] && ts[|ts| - 1] != [] && forall i :: 0 <= i < |ts| ==> '/' !in ts[i]
  }

  /** The components of all texts; None if one of them is malformed. */
  ghost function AllRead(ts: seq<text>): Option<Name> {
    if exists i :: 0 <= i < |ts| && ParseComponent(ts[i]) == None then None
    else Some(seq(|ts|, i requires 0 <= i < |ts| => ParseComponent(ts[i]).value))
  }

  /** Each text between slashes is one component, all are read or none; a slash at the end
      changes nothing. */
  lemma ReadsEachComponent(ts: seq<text>, trailing: text)
    requires IsSplit(ts) && ts[0] != [] && (trailing == [] || trailing == SLASH)
    ensures ParseName(SlashJoined(ts) + trailing) ==
      if exists i :: 0 <= i < |ts| && ParseComponent(ts[i]) == None then None
      else Some(seq(|ts|, i requires 0 <= i < |ts| => ParseComponent(ts[i]).value))
  {
    hide Find, ParseComponents, ParseComponent;
    var s := SlashJoined(ts) + trailing;
    assert s[0] == '/' && s[1] == ts[0][0];
    assert s[1] in ts[0];
    NoScheme(s);
    ReadsSplit(ts, trailing);
  }

  lemma {:induction false} ReadsSplit(ts: seq<text>, trailing: text)
    requires IsSplit(ts) && (trailing == [] || trailing == SLASH)
    ensures ParseComponents((SlashJoined(ts) + trailing)[1..]) == AllRead(ts)
  {
    hide Find, ParseComponents, ParseComponent, AllRead, Prefixed, SlashJoined;
    var rest := SlashJoined(ts[1..]) + trailing;
    JoinedFirst(ts, trailing);
    ReadsOne(ts[0], rest);
    AllReadFirst(ts);
    if |ts| == 1 {
      NothingLeft();
    } else {
      ReadsSplit(ts[1..], trailing);
    }
  }

  lemma {:induction false} JoinedFirst(ts: seq<text>, trailing: text)
    requires ts != [] && (trailing == [] || trailing == SLASH)
    ensures var rest := SlashJoined(ts[1..]) + trailing;
      && SlashJoined(ts) != [] && (SlashJoined(ts) + trailing)[1..] == ts[0] + rest
      && (rest != [] ==> rest[0] == '/') && (|ts| > 1 ==> rest != [])
      && (|ts| == 1 ==> ts[1..] == [] && (rest == [] || rest[1..] == []))
  {
    var more := SlashJoined(ts[1..]);
    assert SlashJoined(ts) == SLASH + ts[0] + more;
    AfterSlash(ts[0], more, trailing);
    if |ts| == 1 {
      assert more == [] && more + trailing == trailing;
    } else {
      assert more == SLASH + ts[1..][0] + SlashJoined(ts[1..][1..]);
      assert more[0] == '/';
    }
  }

  lemma AfterSlash(first: text, more: text, trailing: text)
    ensures (SLASH + first + more + trailing)[1..] == first + (more + trailing)
  {
  }

  lemma NothingLeft()
    ensures ParseComponents([]) == Some([]) == AllRead([])
  {
    assert AllRead([]).value == [];
  }

  lemma ReadsOne(first: text, rest: text)
    requires '/' !in first && (rest != [] ==> rest[0] == '/') && first + rest != []
    ensures ParseComponents(first + rest) ==
      match ParseComponent(first)
      case None => None
      case Some(c) => Prefixed([c], ParseComponents(if rest == [] then [] else rest[1..]))
  {
    hide ParseComponent, ParseComponents, Find;
    var s := first + rest;
    FindUnique(s, '/', |first|);
    assert s[..|first|] == first;
    if rest != [] { assert s[|first| + 1..] == rest[1..]; }
    ParseFirst(s);
  }

  lemma AllReadFirst(ts: seq<text>)
    requires ts != []
    ensures AllRead(ts) ==
      match ParseComponent(ts[0])
      case None => None
      case Some(c) => Prefixed([c], AllRead(ts[1..]))
  {
    hide ParseComponent;
    if i :| 0 <= i < |ts| && ParseComponent(ts[i]) == None {
      if i > 0 { assert ts[1..][i - 1] == ts[i]; }
    } else {
      assert AllRead(ts).value == [ParseComponent(ts[0]).value] + AllRead(ts[1..]).value;
    }
  }

  // ---- what is refused ----

  /** Periods alone stand for three fewer; up to two are refused, so is no text at all. */
  lemma ReadsPeriods(k: nat)
    ensures ParseComponent(seq(k, i => '.')) == if k < 3 then None else Some(Component(8, seq(k - 3, i => 46)))
  {
    hide Find, Unescape;
    var s: text := seq(k, i => '.');
    FindUnique(s, '=', |s|);
    UnescapesPeriods(k);
    var v: bytes := seq(k, i => 46);
    assert AllPeriods(v);
    if k >= 3 { assert v[..|v| - 3] == seq(k - 3, i => 46); }
  }

  lemma {:induction false} UnescapesPeriods(k: nat)
    ensures Unescape(seq(k, i => '.')) == seq(k, i => 46)
  {
    var s: text, v: bytes := seq(k, i => '.'), seq(k, i => 46);
    if k == 0 {
      assert s == [] && v == [];
    } else {
      UnescapesPeriods(k - 1);
      assert s == ['.'] + seq(k - 1, i => '.');
      UnescapePeriod(seq(k - 1, i => '.'));
      assert v == [46] + seq(k - 1, i => 46);
    }
  }

  /** A name with a component of one or two periods, or with two slashes in the middle, is refused. */
  lemma PeriodsRefused(ts: seq<text>, trailing: text, i: nat)
    requires IsSplit(ts) && ts[0] != [] && (trailing == [] || trailing == SLASH)
    requires i < |ts| && (ts[i] == [] || ts[i] == ['.'] || ts[i] == ['.', '.'])
    ensures ParseName(SlashJoined(ts) + trailing) == None
  {
    hide ParseName, ParseComponent, SlashJoined, IsSplit;
    ReadsPeriods(|ts[i]|);
    assert ts[i] == seq(|ts[i]|, j => '.');
    ReadsEachComponent(ts, trailing);
  }

  /** Before an equals sign stands a type from 1 to 65535 without leading zeros, or the
      name of a type; the component then has this type. */
  lemma ReadsType(prefix: text, rest: text)
    requires '=' !in prefix && ParseComponent(prefix + EQUALS + rest).Some?
    ensures var c := ParseComponent(prefix + EQUALS + rest).value;
      && 1 <= c.typ <= 65535
      && (prefix == Decimal(c.typ)
          || (c.typ == 1 && prefix == ['s', 'h', 'a', '2', '5', '6', 'd', 'i', 'g', 'e', 's', 't'])
          || (c.typ == 2 && prefix == ['p', 'a', 'r', 'a', 'm', 's', '-', 's', 'h', 'a', '2', '5', '6'])
          || (c.typ == 33 && prefix == ['s', 'e', 'g'])
          || (c.typ == 34 && prefix == ['o', 'f', 'f'])
          || (c.typ == 35 && prefix == ['v'])
          || (c.typ == 36 && prefix == ['t'])
          || (c.typ == 37 && prefix == ['s', 'e', 'q']))
      && (c.typ == 1 || c.typ == 2 ==> |c.value| == 32)
      && (33 <= c.typ <= 37 && prefix != Decimal(c.typ) ==>
            exists n: uint64 :: rest == Decimal(n) && c.value == NonNegativeInteger(n))
  {
    hide Find, Decimal, StrToUL, StoULL, FromHex, Unescape, NonNegativeInteger;
    var s := prefix + EQUALS + rest;
    FindUnique(s, '=', |prefix|);
    assert s[..|prefix|] == prefix && s[|prefix| + 1..] == rest;
  }

  // ---- octets ----

  /** Exactly letters, digits and four marks stand for themselves; any other octet is a percent
      sign and two hexadecimal digits in upper case. */
  lemma UnreservedOctets(b: byte)
    ensures EscapeOctet(b) == [b as char] <==>
      48 <= b <= 57 || 65 <= b <= 90 || 97 <= b <= 122 || b == 45 || b == 46 || b == 95 || b == 126
    ensures EscapeOctet(b) != [b as char] ==>
      && |EscapeOctet(b)| == 3 && EscapeOctet(b)[0] == '%'
      && forall i :: 1 <= i < 3 ==> '0' <= EscapeOctet(b)[i] <= '9' || 'A' <= EscapeOctet(b)[i] <= 'F'
  {
  }

  /** A percent sign without two hexadecimal digits after it stands for itself. */
  lemma MalformedEscape(a: uchar, b: uchar, rest: text)
    requires FromHexDigit(a) == None || FromHexDigit(b) == None
    ensures Unescape(['%', a, b] + rest) == [37, a as int, b as int] + Unescape(rest)
    ensures Unescape(['%']) == [37] && Unescape(['%', a]) == [37] + Unescape([a])
  {
    hide FromHexDigit;
    assert (['%', a, b] + rest)[3..] == rest;
    assert ['%', a][1..] == [a] && ['%'][1..] == [];
  }

  /** Other text stands for its own octets. */
  lemma {:induction false} UnescapesPlainText(s: text)
    requires '%' !in s
    ensures |Unescape(s)| == |s| && forall i :: 0 <= i < |s| ==> Unescape(s)[i] == s[i] as int
  {
    if s != [] {
      assert s[0] in s;
      UnescapesPlainText(s[1..]);
      assert Unescape(s) == [s[0] as int] + Unescape(s[1..]);
    }
  }
}
