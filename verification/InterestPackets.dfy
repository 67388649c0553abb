/** The Interest class: its parameters digest, its cached wire encoding, and the setters
    that keep both. SHA-256 is a parameter. */
module InterestPackets {
  import opened Basics
  import opened Tlv
  import opened Blocks
  import opened NameComponents
  import opened Names
  import opened DelegationLists
  import opened InterestCodec
  import NameUri

  const SIGNATURE_INFO := 44
  const SIGNATURE_VALUE := 46

  type digest = s: bytes | |s| == DIGEST_SIZE witness Zeros(DIGEST_SIZE)

  // ---- the digest in a name ----

  function DigestComponent(d: digest): Component {
    Component(PARAMETERS_SHA256_DIGEST, d)
  }

  predicate HasNoDigest(n: Name) {
    forall i :: 0 <= i < |n| ==> !IsParametersDigest(n[i])
  }

  ghost predicate HasDigest(n: Name, d: digest) {
    AtMostOneDigest(n) && exists i :: 0 <= i < |n| && n[i] == DigestComponent(d)
  }

  /** A name with the digest in the place of the one it has, or else at the end. */
  ghost function WithDigest(n: Name, d: digest): Name {
    if n == [] then [DigestComponent(d)]
    else if IsParametersDigest(n[0]) then [DigestComponent(d)] + n[1..]
    else [n[0]] + WithDigest(n[1..], d)
  }

  ghost function WithoutDigest(n: Name): Name {
    if n == [] then [] else if IsParametersDigest(n[0]) then n[1..] else [n[0]] + WithoutDigest(n[1..])
  }

  /** `findParametersDigestComponent`: -1 for none, -2 for more than one. */
  ghost predicate Found(n: Name, pos: int) {
    || (pos == -2 && !AtMostOneDigest(n))
    || (pos == -1 && HasNoDigest(n))
    || (0 <= pos < |n| && IsParametersDigest(n[pos])
        && forall i :: 0 <= i < |n| && i != pos ==> !IsParametersDigest(n[i]))
  }

  method FindParametersDigestComponent(n: Name) returns (pos: int)
    ensures Found(n, pos)
  {
    pos := -1;
    var i := 0;
    while i < |n|
      invariant 0 <= i <= |n| && -1 <= pos < i
      invariant forall j :: 0 <= j < i && j != pos ==> !IsParametersDigest(n[j])
      invariant pos >= 0 ==> IsParametersDigest(n[pos])
    {
      if IsParametersDigest(n[i]) {
        if pos != -1 {
          return -2;
        }
        pos := i;
      }
      i := i + 1;
    }
  }

  lemma {:induction false} WithDigestAt(n: Name, d: digest, pos: int)
    requires Found(n, pos) && pos != -2
    ensures WithDigest(n, d) == if pos == -1 then n + [DigestComponent(d)] else n[pos := DigestComponent(d)]
  {
    if n != [] && pos != 0 {
      hide IsParametersDigest;
      WithDigestAt(n[1..], d, if pos == -1 then -1 else pos - 1);
      assert n == [n[0]] + n[1..];
    }
  }

  lemma {:induction false} WithoutDigestAt(n: Name, pos: int)
    requires Found(n, pos) && pos != -2
    ensures WithoutDigest(n) == if pos == -1 then n else n[..pos] + n[pos + 1..]
  {
    if n != [] && pos != 0 {
      hide IsParametersDigest;
      WithoutDigestAt(n[1..], if pos == -1 then -1 else pos - 1);
      assert n == [n[0]] + n[1..];
      if pos > 0 {
        assert n[..pos] == [n[0]] + n[1..][..pos - 1] && n[pos + 1..] == n[1..][pos..];
      }
    }
  }

  /** Replacing or appending leaves exactly this digest, removing leaves none. */
  lemma DigestPlaced(n: Name, d: digest, pos: int)
    requires Found(n, pos) && pos != -2
    ensures HasDigest(WithDigest(n, d), d) && HasNoDigest(WithoutDigest(n))
  {
    WithDigestAt(n, d, pos);
    WithoutDigestAt(n, pos);
    var w := WithDigest(n, d);
    assert w[if pos == -1 then |n| else pos] == DigestComponent(d);
  }

  // ---- parameters ----

  /** The position of the first parameter of a type, or the end. */
  ghost function First(ps: seq<Block>, typ: nat): (i: nat)
    ensures i <= |ps| && (i < |ps| ==> ps[i].typ == typ)
    ensures forall j :: 0 <= j < i ==> ps[j].typ != typ
  {
    if ps == [] || ps[0].typ == typ then 0 else 1 + First(ps[1..], typ)
  }

  /** `findFirstParameter`. */
  method FindFirstParameter(ps: seq<Block>, typ: nat) returns (i: nat)
    ensures i == First(ps, typ)
  {
    i := 0;
    while i < |ps| && ps[i].typ != typ
      invariant 0 <= i <= |ps| && i + First(ps[i..], typ) == First(ps, typ)
    {
      assert ps[i..][1..] == ps[i + 1..];
      i := i + 1;
    }
  }

  /** Where a SignatureInfo goes: in the place of another, or before the SignatureValue. */
  ghost function WithInfo(ps: seq<Block>, info: Block): seq<Block> {
    var i, v := First(ps, SIGNATURE_INFO), First(ps, SIGNATURE_VALUE);
    if i < |ps| then ps[i := info] else ps[..v] + [info] + ps[v..]
  }

  /** Where a SignatureValue goes: in the place of another, or after the SignatureInfo. */
  ghost function WithValue(ps: seq<Block>, value: Block): seq<Block>
    requires First(ps, SIGNATURE_INFO) < |ps|
  {
    var i, v := First(ps, SIGNATURE_INFO), First(ps, SIGNATURE_VALUE);
    if v < |ps| then ps[v := value] else ps[..i + 1] + [value] + ps[i + 1..]
  }

  /** A signature element goes in so that it is the first of its type; without the first of
      its type, the parameters before and after are the same, in order. */
  lemma InfoPlaced(ps: seq<Block>, info: Block)
    requires info.typ == 44
    ensures var qs, k, i := WithInfo(ps, info), First(WithInfo(ps, info), 44), First(ps, 44);
      && k < |qs| && qs[k] == info
      && qs[..k] + qs[k + 1..] == (if i < |ps| then ps[..i] + ps[i + 1..] else ps)
      && (if i < |ps| then k == i else k == First(ps, 46))
  {
    hide First;
    var i, v := First(ps, 44), First(ps, 46);
    PutAt(ps, if i < |ps| then i else v, info);
    FirstOnly(WithInfo(ps, info), 44, if i < |ps| then i else v);
  }

  lemma ValuePlaced(ps: seq<Block>, value: Block)
    requires value.typ == 46 && First(ps, 44) < |ps|
    ensures var qs, k, i := WithValue(ps, value), First(WithValue(ps, value), 46), First(ps, 46);
      && k < |qs| && qs[k] == value
      && qs[..k] + qs[k + 1..] == (if i < |ps| then ps[..i] + ps[i + 1..] else ps)
      && (if i < |ps| then k == i else k == First(ps, 44) + 1)
  {
    hide First;
    var i, v := First(ps, 44), First(ps, 46);
    PutAt(ps, if v < |ps| then v else i + 1, value);
    FirstOnly(WithValue(ps, value), 46, if v < |ps| then v else i + 1);
  }

  lemma PutAt(ps: seq<Block>, i: nat, b: Block)
    requires i <= |ps|
    ensures var qs := ps[..i] + [b] + ps[i..];
      qs[i] == b && qs[..i] == ps[..i] && qs[..i] + qs[i + 1..] == ps
    ensures i < |ps| ==> var qs := ps[i := b];
      qs[i] == b && qs[..i] == ps[..i] && qs[..i] + qs[i + 1..] == ps[..i] + ps[i + 1..]
  {
  }

  lemma FirstOnly(ps: seq<Block>, typ: nat, i: nat)
    requires i < |ps| && ps[i].typ == typ && forall j :: 0 <= j < i ==> ps[j].typ != typ
    ensures First(ps, typ) == i
  {
  }

  /** Parameters stay in form when a later one is replaced or put in. */
  lemma ParameterPlaced(ps: seq<Block>, i: nat, b: Block)
    requires ParametersOk(ps) && 0 < i <= |ps| && WellFormed(b)
    requires b.typ == SIGNATURE_INFO || b.typ == SIGNATURE_VALUE
    ensures ParametersOk(ps[..i] + [b] + ps[i..])
    ensures i < |ps| ==> ParametersOk(ps[i := b])
  {
    hide WellFormed;
  }

  // ---- the class ----

  class Interest {
    var name: Name
    var functions: Name
    var canBePrefix: bool
    var mustBeFresh: bool
    var hint: seq<Delegation>
    var nonce: Option<bytes>
    var lifetime: int
    var hopLimit: Option<byte>
    var parameters: seq<Block>
    var wire: Option<Block>
    const sha256: bytes -> digest

    ghost function Content(): Fields
      reads this
    {
      Fields(name, functions, canBePrefix, mustBeFresh, hint, nonce, lifetime, hopLimit, parameters)
    }

    /** At most one digest in the name; with parameters, exactly one, which is their hash. */
    ghost predicate DigestOk()
      reads this
    {
      AtMostOneDigest(name) && (parameters != [] ==> HasDigest(name, sha256(JoinRaw(parameters))))
    }

    /** A cached encoding stands for the current fields. */
    ghost predicate WireOk()
      reads this
    {
      wire.Some? ==> DecodeInterest(wire.value) == Some(Content())
    }

    ghost predicate Valid()
      reads this
    {
      DigestOk() && ParametersOk(parameters) && WireOk()
    }

    constructor (sha256: bytes -> digest)
      ensures Valid() && Content() == Defaults([], []) && wire == None && this.sha256 == sha256
    {
      name, functions, canBePrefix, mustBeFresh, hint := [], [], false, false, [];
      nonce, lifetime, hopLimit, parameters, wire := None, DEFAULT_INTEREST_LIFETIME, None, [], None;
      this.sha256 := sha256;
    }

    /** `addOrReplaceParametersDigestComponent`. */
    method AddOrReplaceParametersDigestComponent()
      requires AtMostOneDigest(name)
      modifies this`name
      ensures name == WithDigest(old(name), sha256(JoinRaw(parameters)))
      ensures HasDigest(name, sha256(JoinRaw(parameters)))
    {
      hide AtMostOneDigest, IsParametersDigest;
      var digestIndex := FindParametersDigestComponent(name);
      var d := sha256(JoinRaw(parameters));
      DigestPlaced(name, d, digestIndex);
      WithDigestAt(name, d, digestIndex);
      if digestIndex == -1 {
        name := name + [DigestComponent(d)];
      } else {
        name := name[digestIndex := DigestComponent(d)];
      }
    }

    /** `setName`; false where it throws. */
    method SetName(n: Name) returns (ok: bool)
      requires Valid()
      modifies this`name, this`wire
      ensures Valid() && (ok <==> AtMostOneDigest(n))
      ensures name == if !ok then old(name)
                      else if n == old(name) || parameters == [] then n
                      else WithDigest(n, sha256(JoinRaw(parameters)))
      ensures wire == if ok && n != old(name) then None else old(wire)
    {
      hide AtMostOneDigest, WithDigest, ParametersOk, DecodeInterest;
      var digestIndex := FindParametersDigestComponent(n);
      OneOrMany(n, digestIndex);
      if digestIndex == -2 {
        return false;
      }
      if n != name {
        name := n;
        if parameters != [] {
          AddOrReplaceParametersDigestComponent();
          OneDigest(name, sha256(JoinRaw(parameters)));
        }
        wire := None;
      }
      return true;
    }

    /** `setFunction`, which `removeHeadFunction` calls. */
    method SetFunction(f: Name)
      requires Valid()
      modifies this`functions, this`wire
      ensures Valid() && functions == f && wire == None
    {
      functions, wire := f, None;
    }

    /** `removeHeadFunction`. */
    method RemoveHeadFunction(alternate: bool)
      requires Valid() && ValidName(functions)
      modifies this`functions, this`wire
      ensures Valid() && wire == None
      ensures functions == if old(functions) == [] then [] else NameUri.NormalName(old(functions)[1..], alternate)
    {
      var rest := NameUri.RemoveHeadFunction(functions, alternate);
      SetFunction(rest.value);
    }

    /** `setForwardingHint`. */
    method SetForwardingHint(h: seq<Delegation>)
      requires Valid()
      modifies this`hint, this`wire
      ensures Valid() && hint == h && wire == None
    {
      hint, wire := h, None;
    }

    /** `getNonce`, given the nonce that would be generated. */
    method GetNonce(newNonce: bytes) returns (r: bytes)
      requires Valid()
      modifies this`nonce, this`wire
      ensures Valid() && nonce == Some(r) && r == (if old(nonce).Some? then old(nonce).value else newNonce)
      ensures wire == if old(nonce).Some? then old(wire) else None
    {
      if nonce == None {
        nonce, wire := Some(newNonce), None;
      }
      return nonce.value;
    }

    /** `setApplicationParameters`, which wraps a block of another type. */
    method SetApplicationParameters(p: Block)
      requires Valid() && WellFormed(p) && |p.raw| < TWO64
      modifies this`name, this`parameters, this`wire
      ensures Valid() && wire == None
      ensures var first := if p.typ == APPLICATION_PARAMETERS then p else MakeBlock(APPLICATION_PARAMETERS, p.raw);
        parameters == if old(parameters) == [] then [first] else old(parameters)[0 := first]
      ensures name == WithDigest(old(name), sha256(JoinRaw(parameters)))
    {
      hide WithDigest, WellFormed, AtMostOneDigest;
      var first := p;
      if p.typ != APPLICATION_PARAMETERS {
        first := MakeBlock(APPLICATION_PARAMETERS, p.raw);
        MadeIsWellFormed(APPLICATION_PARAMETERS, p.raw);
      }
      if parameters == [] {
        parameters := [first];
      } else {
        parameters := parameters[0 := first];
      }
      AddOrReplaceParametersDigestComponent();
      OneDigest(name, sha256(JoinRaw(parameters)));
      wire := None;
    }

    /** `unsetApplicationParameters`. */
    method UnsetApplicationParameters()
      requires Valid()
      modifies this`name, this`parameters, this`wire
      ensures Valid() && wire == None && parameters == []
      ensures name == WithoutDigest(old(name)) && HasNoDigest(name)
    {
      hide WithoutDigest;
      parameters := [];
      var digestIndex := FindParametersDigestComponent(name);
      WithoutDigestAt(name, digestIndex);
      DigestPlaced(name, sha256([]), digestIndex);
      if digestIndex >= 0 {
        name := name[..digestIndex] + name[digestIndex + 1..];
      }
      wire := None;
    }

    /** `setSignatureInfo`, given the encoded block. */
    method SetSignatureInfo(info: Block)
      requires Valid() && WellFormed(info) && info.typ == SIGNATURE_INFO
      modifies this`name, this`parameters, this`wire
      ensures Valid()
      ensures var ps := if old(parameters) == [] then [MakeBlock(APPLICATION_PARAMETERS, [])] else old(parameters);
        parameters == WithInfo(ps, info)
      ensures if parameters == old(parameters) then name == old(name) && wire == old(wire)
              else name == WithDigest(old(name), sha256(JoinRaw(parameters))) && wire == None
    {
      hide WithDigest, WellFormed, AtMostOneDigest, DecodeInterest, HasDigest, First, MakeBlock;
      var ps := parameters;
      if ps == [] {
        MadeIsWellFormed(APPLICATION_PARAMETERS, []);
        MadeHas(APPLICATION_PARAMETERS, []);
        ps := [MakeBlock(APPLICATION_PARAMETERS, [])];
      }
      var infoIt := FindFirstParameter(ps, SIGNATURE_INFO);
      if infoIt < |ps| {
        if ps[infoIt] == info {
          return;
        }
        ParameterPlaced(ps, infoIt, info);
        parameters := ps[infoIt := info];
      } else {
        var valueIt := FindFirstParameter(ps, SIGNATURE_VALUE);
        ParameterPlaced(ps, valueIt, info);
        parameters := ps[..valueIt] + [info] + ps[valueIt..];
        assert |parameters| == |ps| + 1;
      }
      AddOrReplaceParametersDigestComponent();
      OneDigest(name, sha256(JoinRaw(parameters)));
      wire := None;
    }

    /** `setSignatureValue`; false where it throws for want of a SignatureInfo. */
    method SetSignatureValue(value: bytes) returns (ok: bool)
      requires Valid() && |value| < TWO64
      modifies this`name, this`parameters, this`wire
      ensures Valid() && (ok <==> First(old(parameters), SIGNATURE_INFO) < |old(parameters)|)
      ensures parameters == if ok then WithValue(old(parameters), MakeBlock(SIGNATURE_VALUE, value)) else old(parameters)
      ensures if parameters == old(parameters) then name == old(name) && wire == old(wire)
              else name == WithDigest(old(name), sha256(JoinRaw(parameters))) && wire == None
    {
      hide WithDigest, WellFormed, AtMostOneDigest, DecodeInterest, HasDigest, First, MakeBlock;
      var ps := parameters;
      var infoIt := FindFirstParameter(ps, SIGNATURE_INFO);
      if infoIt == |ps| {
        return false;
      }
      var valueIt := FindFirstParameter(ps, SIGNATURE_VALUE);
      var valueBlock := MakeBlock(SIGNATURE_VALUE, value);
      MadeIsWellFormed(SIGNATURE_VALUE, value);
      MadeHas(SIGNATURE_VALUE, value);
      if valueIt < |ps| {
        if ps[valueIt] == valueBlock {
          return true;
        }
        ParameterPlaced(ps, valueIt, valueBlock);
        parameters := ps[valueIt := valueBlock];
      } else {
        ParameterPlaced(ps, infoIt + 1, valueBlock);
        parameters := ps[..infoIt + 1] + [valueBlock] + ps[infoIt + 1..];
        assert |parameters| == |ps| + 1;
      }
      AddOrReplaceParametersDigestComponent();
      OneDigest(name, sha256(JoinRaw(parameters)));
      wire := None;
      return true;
    }

    /** `isParametersDigestValid`. */
    method IsParametersDigestValid() returns (r: bool)
      requires AtMostOneDigest(name)
      ensures r <==> if parameters == [] then HasNoDigest(name) else HasDigest(name, sha256(JoinRaw(parameters)))
    {
      hide JoinRaw;
      var digestIndex := FindParametersDigestComponent(name);
      if digestIndex == -1 {
        return parameters == [];
      }
      if parameters == [] {
        return false;
      }
      var d := sha256(JoinRaw(parameters));
      return name[digestIndex].value == d;
    }

    /** One element of the loop in `wireDecode`; false where it throws. */
    method DecodeElement(b: Block, last: nat) returns (ok: bool, next: nat)
      modifies this`canBePrefix, this`mustBeFresh, this`hint, this`nonce, this`lifetime, this`hopLimit, this`parameters
      ensures var st := State(old(Content()), last);
        if ok then Step(st, b) == Some(State(Content(), next)) else Step(st, b) == None && Content() == LeftBy(st, b)
    {
      hide ReadHint, ReadSoFar, SortedList, Value;
      next := last;
      match b.typ {
        case 33 =>
          if last >= 2 || b.value != [] {
            return false, last;
          }
          canBePrefix, next := true, 2;
        case 18 =>
          if last >= 3 || b.value != [] {
            return false, last;
          }
          mustBeFresh, next := true, 3;
        case 30 =>
          if last >= 4 {
            return false, last;
          }
          var list := new DelegationList();
          var _ := list.Decode(ReadSoFar(b.value), true);
          hint := list.dels;
          if ReadHint(b.value) == None {
            return false, last;
          }
          ReadCompletely(b.value);
          next := 4;
        case 10 =>
          if last >= 5 || |b.value| != 4 {
            return false, last;
          }
          nonce, next := Some(b.value), 5;
        case 12 =>
          if last >= 6 || !IsNonNegativeIntegerSize(|b.value|) {
            return false, last;
          }
          lifetime, next := ToInt64(Value(b.value)), 6;
        case 34 =>
          if last < 7 {
            if |b.value| != 1 {
              return false, last;
            }
            hopLimit, next := Some(b.value[0]), 7;
          }
        case 36 =>
          if last < 8 {
            parameters, next := parameters + [b], 8;
          }
        case _ =>
          if IsCritical(b.typ) {
            return false, last;
          }
          if parameters != [] {
            parameters := parameters + [b];
          }
      }
      return true, next;
    }

    /** `wireDecode`; false where it throws, which leaves the fields read so far beside the new
        encoding. With the digest checked, what it accepts has the right digest. */
    method WireDecode(w: Block, autoCheckParametersDigest: bool) returns (ok: bool)
      modifies this
      ensures Content() == LeftByDecoding(old(Content()), w) && wire == if w.typ == INTEREST then Some(w) else old(wire)
      ensures ok ==> DecodeInterest(w) == Some(Content()) && WireOk() && wire == Some(w)
      ensures ok ==> AtMostOneDigest(name) && ParametersOk(parameters)
      ensures ok && autoCheckParametersDigest ==> DigestOk()
      ensures !ok ==> DecodeInterest(w) == None
                      || (autoCheckParametersDigest && DecodeInterest(w) == Some(Content())
                          && !(if parameters == [] then HasNoDigest(name)
                               else HasDigest(name, sha256(JoinRaw(parameters)))))
    {
      hide Step, Steps, ParseBlocks, DecodeName, JoinRaw, AtMostOneDigest, HasDigest, HasNoDigest, ParametersOk;
      if w.typ != INTEREST {
        return false;
      }
      wire := Some(w);
      var elements := ParseBlocks(w.value);
      if elements == None {
        return false;
      }
      var bs := elements.value;
      ok := DecodeAll(bs);
      if !ok {
        return false;
      }
      assert DecodeInterest(w) == Some(Content());
      DecodedParameters(bs, w.value, Content());
      if autoCheckParametersDigest {
        var valid := IsParametersDigestValid();
        return valid;
      }
    }

    /** The fields as they are written: with a nonce. */
    ghost function ToWrite(newNonce: bytes): Fields
      reads this
    {
      if nonce == None then Content().(nonce := Some(newNonce)) else Content()
    }

    /** `wireEncode`, given the nonce that would be generated; None where it throws. A new
        encoding is read back, which sorts the forwarding hint and changes nothing else. Where
        reading back throws, for want of a name, the encoding stays cached. */
    method WireEncode(newNonce: bytes, autoCheckParametersDigest: bool) returns (r: Option<Block>)
      requires Valid() && |newNonce| == 4 && (wire == None ==> CanEncode(ToWrite(newNonce)))
      modifies this
      ensures old(wire).Some? ==> r == old(wire) && Content() == old(Content()) && wire == old(wire)
      ensures old(wire) == None ==> (r.Some? <==> old(name) != [] && (old(parameters) != [] || HasNoDigest(old(name))))
      ensures old(wire) == None && r.Some? ==>
        Content() == old(ToWrite(newNonce)).(hint := SortedList(old(hint))) && wire == r
      ensures r.Some? ==> Valid()
      ensures old(wire) == None && old(name) == [] && old(parameters) == [] ==>
        r == None && wire == Some(EncodeInterest(old(ToWrite(newNonce))))
    {
      hide CanEncode, EncodeInterest, DecodeInterest, AtMostOneDigest, HasDigest, ParametersOk, SortedList, JoinRaw;
      if wire.Some? {
        return wire;
      }
      var digestIndex := FindParametersDigestComponent(name);
      OneOrMany(name, digestIndex);
      DigestThere(name, sha256(JoinRaw(parameters)), digestIndex);
      if digestIndex == -1 {
        if parameters != [] {
          return None;
        }
      } else if parameters == [] {
        return None;
      }
      var _ := GetNonce(newNonce);
      ghost var f := Content();
      EncodableParts(f);
      CodecRoundTrip(f);
      var w := EncodeInterest(Fields(name, functions, canBePrefix, mustBeFresh, hint, nonce, lifetime, hopLimit,
                                     parameters));
      IsInterestBlock(f);
      var ok := WireDecode(w, autoCheckParametersDigest);
      return if ok then Some(w) else None;
    }

    /** The name, the functions and then the other elements in turn. */
    method DecodeAll(bs: seq<Block>) returns (ok: bool)
      modifies this`name, this`functions, this`canBePrefix, this`mustBeFresh, this`hint, this`nonce, this`lifetime,
               this`hopLimit, this`parameters
      ensures DecodeElements(bs) == if ok then Some(Content()) else None
      ensures Content() == LeftByElements(old(Content()), bs)
      ensures ok ==> AtMostOneDigest(name)
    {
      hide Step, ParseBlocks, DecodeName, AtMostOneDigest, LeftBy;
      if |bs| < 1 || bs[0].typ != NAME {
        return false;
      }
      var tempName := DecodeName(bs[0].value);
      if tempName == None || tempName.value == [] {
        return false;
      }
      var digestIndex := FindParametersDigestComponent(tempName.value);
      OneOrMany(tempName.value, digestIndex);
      if digestIndex == -2 {
        return false;
      }
      name := tempName.value;
      if |bs| < 2 || bs[1].typ != NAME {
        return false;
      }
      var tempFunction := DecodeName(bs[1].value);
      if tempFunction == None {
        return false;
      }
      functions := tempFunction.value;
      canBePrefix, mustBeFresh, hint, nonce := false, false, [], None;
      lifetime, hopLimit, parameters := DEFAULT_INTEREST_LIFETIME, None, [];
      ghost var start := State(Content(), 1);
      var lastElement, i := 1, 2;
      while i < |bs|
        invariant 2 <= i <= |bs| && name == tempName.value
        invariant Steps(State(Content(), lastElement), bs[i..]) == Steps(start, bs[2..])
        invariant LeftBySteps(State(Content(), lastElement), bs[i..]) == LeftBySteps(start, bs[2..])
      {
        assert bs[i..][1..] == bs[i + 1..];
        ok, lastElement := DecodeElement(bs[i], lastElement);
        if !ok {
          return false;
        }
        i := i + 1;
      }
      return true;
    }
  }

  lemma DecodedParameters(bs: seq<Block>, value: bytes, f: Fields)
    requires ParseBlocks(value) == Some(bs) && DecodeElements(bs) == Some(f)
    ensures ParametersOk(f.parameters)
  {
    hide Step, ParseBlocks, DecodeName, AtMostOneDigest, WellFormed;
    ParsedAreWellFormed(value);
    var g := Defaults(DecodeName(bs[0].value).value, DecodeName(bs[1].value).value);
    StepsKeepParameters(State(g, 1), bs[2..]);
  }

  /** Before parameters begin the last element is an earlier one. */
  ghost predicate StateOk(st: State) {
    ParametersOk(st.f.parameters) && (st.f.parameters == [] ==> st.last < 8) && (st.f.parameters != [] ==> st.last >= 8)
  }

  lemma {:induction false} StepsKeepParameters(st: State, bs: seq<Block>)
    requires StateOk(st) && forall i :: 0 <= i < |bs| ==> WellFormed(bs[i])
    ensures var r := Steps(st, bs); r.Some? ==> ParametersOk(r.value.f.parameters)
    decreases |bs|
  {
    hide Step, WellFormed, ParametersOk;
    if bs != [] {
      assert WellFormed(bs[0]);
      StepKeepsParameters(st, bs[0]);
      if Step(st, bs[0]).Some? {
        StepsKeepParameters(Step(st, bs[0]).value, bs[1..]);
      }
    }
  }

  lemma StepKeepsParameters(st: State, b: Block)
    requires StateOk(st) && WellFormed(b)
    ensures Step(st, b).Some? ==> StateOk(Step(st, b).value)
  {
    hide WellFormed, ReadHint, SortedList, Value;
  }

  lemma OneOrMany(n: Name, pos: int)
    requires Found(n, pos)
    ensures pos == -2 <==> !AtMostOneDigest(n)
  {
  }

  lemma IsInterestBlock(f: Fields)
    requires -TWO63 <= f.lifetime < TWO63
    ensures EncodeInterest(f).typ == INTEREST
  {
  }

  lemma DigestThere(n: Name, d: digest, pos: int)
    requires Found(n, pos)
    ensures HasNoDigest(n) <==> pos == -1
    ensures HasDigest(n, d) ==> pos >= 0
  {
    if HasDigest(n, d) {
      var i :| 0 <= i < |n| && n[i] == DigestComponent(d);
      assert IsParametersDigest(n[i]);
    }
  }

  lemma OneDigest(n: Name, d: digest)
    requires HasDigest(n, d)
    ensures AtMostOneDigest(n)
  {
  }
}
