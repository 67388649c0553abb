/** The wire format of an Interest with a list of functions: what `wireEncode` writes and
    what `wireDecode` makes of it. */
module InterestCodec {
  import opened Basics
  import opened Tlv
  import opened Blocks
  import opened NameComponents
  import opened Names
  import opened DelegationLists

  const INTEREST := 5
  const NAME := 7
  const CAN_BE_PREFIX := 33
  const MUST_BE_FRESH := 18
  const FORWARDING_HINT := 30
  const NONCE := 10
  const INTEREST_LIFETIME := 12
  const HOP_LIMIT := 34
  const APPLICATION_PARAMETERS := 36
  const LINK_DELEGATION := 31
  const LINK_PREFERENCE := 30
  const DEFAULT_INTEREST_LIFETIME := 4000
  const TWO63 := 0x8000_0000_0000_0000

  // ---- names ----

  function ComponentBlocks(n: Name): (bs: seq<Block>)
    ensures |bs| == |n|
  {
    seq(|n|, i requires 0 <= i < |n| => MakeBlock(n[i].typ, n[i].value))
  }

  function NameValue(n: Name): bytes {
    JoinRaw(ComponentBlocks(n))
  }

  function NameBlock(n: Name): Block {
    MakeBlock(NAME, NameValue(n))
  }

  function DecodeName(value: bytes): Option<Name> {
    match ParseBlocks(value)
    case None => None
    case Some(bs) => Some(seq(|bs|, i requires 0 <= i < |bs| => Component(bs[i].typ, bs[i].value)))
  }

  predicate NameFits(n: Name) {
    && (forall i :: 0 <= i < |n| ==> 0 < n[i].typ <= TYPE_MAX && |n[i].value| < TWO64)
    && |NameValue(n)| < TWO64
  }

  lemma NameRoundTrip(n: Name)
    requires NameFits(n)
    ensures DecodeName(NameValue(n)) == Some(n) && WellFormed(NameBlock(n))
  {
    hide WellFormed, ParseBlocks, JoinRaw, MakeBlock;
    var bs := ComponentBlocks(n);
    forall i | 0 <= i < |bs|
      ensures WellFormed(bs[i]) && bs[i].typ == n[i].typ && bs[i].value == n[i].value
    {
      MadeIsWellFormed(n[i].typ, n[i].value);
      MadeHas(n[i].typ, n[i].value);
    }
    ParseJoin(bs);
    var back := DecodeName(NameValue(n)).value;
    assert |back| == |n| && forall i :: 0 <= i < |n| ==> back[i] == n[i];
    assert back == n;
    MadeIsWellFormed(NAME, NameValue(n));
  }

  lemma MadeHas(typ: nat, value: bytes)
    ensures MakeBlock(typ, value).typ == typ && MakeBlock(typ, value).value == value
  {
  }

  // ---- forwarding hints ----

  function DelegationValue(d: Delegation): bytes {
    JoinRaw([MakeBlock(LINK_PREFERENCE, NonNegativeInteger(d.preference)), NameBlock(d.name)])
  }

  function DelegationBlocks(dels: seq<Delegation>): (bs: seq<Block>)
    ensures |bs| == |dels|
  {
    seq(|dels|, i requires 0 <= i < |dels| => MakeBlock(LINK_DELEGATION, DelegationValue(dels[i])))
  }

  function HintValue(dels: seq<Delegation>): bytes {
    JoinRaw(DelegationBlocks(dels))
  }

  function DecodeDelegation(b: Block): Option<Delegation> {
    if b.typ != LINK_DELEGATION then None
    else
      match ParseBlocks(b.value)
      case None => None
      case Some(bs) =>
        if |bs| < 2 || bs[0].typ != LINK_PREFERENCE || !IsNonNegativeIntegerSize(|bs[0].value|) || bs[1].typ != NAME
        then None
        else
          match DecodeName(bs[1].value)
          case None => None
          case Some(n) =>
            PreferenceFits(bs[0].value);
            Some(Delegation(Value(bs[0].value), n))
  }

  lemma PreferenceFits(v: bytes)
    requires IsNonNegativeIntegerSize(|v|)
    ensures Value(v) < TWO64
  {
    BigEndianOfValue(v);
    FitsPowers(Value(v));
  }

  function DecodeDelegations(bs: seq<Block>): Option<seq<Delegation>> {
    if bs == [] then Some([])
    else
      match DecodeDelegation(bs[0])
      case None => None
      case Some(d) =>
        match DecodeDelegations(bs[1..])
        case None => None
        case Some(ds) => Some([d] + ds)
  }

  /** The delegations in a hint as they come; None where reading throws. */
  function ReadHint(value: bytes): Option<seq<Delegation>> {
    match ParseBlocks(value)
    case None => None
    case Some(bs) =>
      match DecodeDelegations(bs)
      case None => None
      case Some(ds) => if ds == [] then None else Some(ds)
  }

  /** The delegations before the first malformed one. */
  function ReadableDelegations(bs: seq<Block>): seq<Delegation> {
    if bs == [] || DecodeDelegation(bs[0]) == None then []
    else [DecodeDelegation(bs[0]).value] + ReadableDelegations(bs[1..])
  }

  /** What reading a hint has inserted when it ends or throws. */
  function ReadSoFar(value: bytes): seq<Delegation> {
    match ParseBlocks(value)
    case None => []
    case Some(bs) => ReadableDelegations(bs)
  }

  lemma {:induction false} AllReadable(bs: seq<Block>)
    requires DecodeDelegations(bs).Some?
    ensures ReadableDelegations(bs) == DecodeDelegations(bs).value
  {
    hide DecodeDelegation;
    if bs != [] {
      AllReadable(bs[1..]);
    }
  }

  lemma ReadCompletely(value: bytes)
    requires ReadHint(value).Some?
    ensures ReadSoFar(value) == ReadHint(value).value
  {
    hide ParseBlocks, DecodeDelegations, ReadableDelegations;
    AllReadable(ParseBlocks(value).value);
  }

  predicate DelegationFits(d: Delegation) {
    NameFits(d.name) && |NameBlock(d.name).raw| < TWO64 && |DelegationValue(d)| < TWO64
  }

  lemma DelegationRoundTrip(d: Delegation)
    requires DelegationFits(d)
    ensures DecodeDelegation(MakeBlock(LINK_DELEGATION, DelegationValue(d))) == Some(d)
  {
    hide WellFormed, ParseBlocks, JoinRaw, NonNegativeInteger, Value, DecodeName, MakeBlock, NameValue, NameFits;
    var bs := [MakeBlock(LINK_PREFERENCE, NonNegativeInteger(d.preference)), NameBlock(d.name)];
    NonNegativeIntegerRoundTrip(d.preference);
    MadeIsWellFormed(LINK_PREFERENCE, NonNegativeInteger(d.preference));
    MadeHas(LINK_PREFERENCE, NonNegativeInteger(d.preference));
    NameRoundTrip(d.name);
    MadeHas(NAME, NameValue(d.name));
    MadeHas(LINK_DELEGATION, DelegationValue(d));
    assert forall i :: 0 <= i < |bs| ==> WellFormed(bs[i]);
    ParseJoin(bs);
  }

  lemma {:induction false} DelegationsRoundTrip(dels: seq<Delegation>)
    requires forall i :: 0 <= i < |dels| ==> DelegationFits(dels[i])
    ensures DecodeDelegations(DelegationBlocks(dels)) == Some(dels)
  {
    hide DecodeDelegation, DelegationFits, DelegationValue, MakeBlock;
    if dels != [] {
      assert DelegationFits(dels[0]);
      DelegationRoundTrip(dels[0]);
      DelegationsRoundTrip(dels[1..]);
      assert DelegationBlocks(dels)[1..] == DelegationBlocks(dels[1..]);
      assert dels == [dels[0]] + dels[1..];
    }
  }

  lemma HintRoundTrip(dels: seq<Delegation>)
    requires dels != [] && forall i :: 0 <= i < |dels| ==> DelegationFits(dels[i])
    ensures ReadHint(HintValue(dels)) == Some(dels)
  {
    hide DelegationValue, WellFormed, ParseBlocks, JoinRaw, DecodeDelegations, DelegationBlocks;
    DelegationsRoundTrip(dels);
    var bs := DelegationBlocks(dels);
    forall i | 0 <= i < |bs|
      ensures WellFormed(bs[i])
    {
      assert DelegationFits(dels[i]);
      DelegationBlockAt(dels, i);
      MadeIsWellFormed(LINK_DELEGATION, DelegationValue(dels[i]));
    }
    ParseJoin(bs);
  }

  lemma DelegationBlockAt(dels: seq<Delegation>, i: nat)
    requires i < |dels|
    ensures DelegationBlocks(dels)[i] == MakeBlock(LINK_DELEGATION, DelegationValue(dels[i]))
  {
  }

  // ---- the fields ----

  datatype Fields = Fields(name: Name, functions: Name, canBePrefix: bool, mustBeFresh: bool,
                           hint: seq<Delegation>, nonce: Option<bytes>, lifetime: int, hopLimit: Option<byte>,
                           parameters: seq<Block>)

  function Defaults(name: Name, functions: Name): Fields {
    Fields(name, functions, false, false, [], None, DEFAULT_INTEREST_LIFETIME, None, [])
  }

  /** `uint64_t` to `int64_t` and back. */
  function ToInt64(n: nat): int {
    if n < TWO63 then n else n - TWO64
  }

  function FromInt64(n: int): int {
    if n < 0 then n + TWO64 else n
  }

  predicate IsParametersDigest(c: Component) {
    c.typ == PARAMETERS_SHA256_DIGEST && |c.value| == DIGEST_SIZE
  }

  predicate AtMostOneDigest(n: Name) {
    forall i, j :: 0 <= i < j < |n| ==> !(IsParametersDigest(n[i]) && IsParametersDigest(n[j]))
  }

  predicate IsCritical(typ: nat) {
    typ <= 31 || typ % 2 == 1
  }

  /** Parameters begin with ApplicationParameters; what follows has no meaning of its own. */
  predicate ParametersOk(ps: seq<Block>) {
    && (ps != [] ==> ps[0].typ == APPLICATION_PARAMETERS)
    && (forall i :: 0 <= i < |ps| ==> WellFormed(ps[i]))
    && (forall i :: 0 < i < |ps| ==> !IsCritical(ps[i].typ) && ps[i].typ != HOP_LIMIT
                                     && ps[i].typ != APPLICATION_PARAMETERS)
  }

  // ---- writing ----

  function CanBePrefixPart(f: Fields): seq<Block> {
    if f.canBePrefix then [MakeBlock(CAN_BE_PREFIX, [])] else []
  }

  function MustBeFreshPart(f: Fields): seq<Block> {
    if f.mustBeFresh then [MakeBlock(MUST_BE_FRESH, [])] else []
  }

  function HintPart(f: Fields): seq<Block> {
    if f.hint != [] then [MakeBlock(FORWARDING_HINT, HintValue(f.hint))] else []
  }

  function NoncePart(f: Fields): seq<Block> {
    if f.nonce.Some? then [MakeBlock(NONCE, f.nonce.value)] else []
  }

  function LifetimePart(f: Fields): seq<Block>
    requires -TWO63 <= f.lifetime < TWO63
  {
    if f.lifetime == DEFAULT_INTEREST_LIFETIME then []
    else [MakeBlock(INTEREST_LIFETIME, NonNegativeInteger(FromInt64(f.lifetime)))]
  }

  function HopLimitPart(f: Fields): seq<Block> {
    if f.hopLimit.Some? then [MakeBlock(HOP_LIMIT, [f.hopLimit.value])] else []
  }

  function Options(f: Fields): seq<Block>
    requires -TWO63 <= f.lifetime < TWO63
  {
    CanBePrefixPart(f) + (MustBeFreshPart(f) + (HintPart(f) + (NoncePart(f)
    + (LifetimePart(f) + (HopLimitPart(f) + f.parameters)))))
  }

  function Elements(f: Fields): seq<Block>
    requires -TWO63 <= f.lifetime < TWO63
  {
    [NameBlock(f.name), NameBlock(f.functions)] + Options(f)
  }

  function EncodeInterest(f: Fields): Block
    requires -TWO63 <= f.lifetime < TWO63
  {
    MakeBlock(INTEREST, JoinRaw(Elements(f)))
  }

  /** Fields that the setters can hold and whose lengths a block can state. */
  predicate CanEncode(f: Fields) {
    && NameFits(f.name) && NameFits(f.functions)
    && (forall i :: 0 <= i < |f.hint| ==> DelegationFits(f.hint[i])) && |HintValue(f.hint)| < TWO64
    && (f.nonce.Some? ==> |f.nonce.value| == 4) && -TWO63 <= f.lifetime < TWO63
    && ParametersOk(f.parameters) && |JoinRaw(Elements(f))| < TWO64
  }

  // ---- reading ----

  /** The fields so far, and the place of the last recognised element. */
  datatype State = State(f: Fields, last: nat)

  /** One element; None where the source throws. */
  ghost function Step(st: State, b: Block): Option<State> {
    if b.typ == CAN_BE_PREFIX then
      if st.last >= 2 || b.value != [] then None else Some(State(st.f.(canBePrefix := true), 2))
    else if b.typ == MUST_BE_FRESH then
      if st.last >= 3 || b.value != [] then None else Some(State(st.f.(mustBeFresh := true), 3))
    else if b.typ == FORWARDING_HINT then
      if st.last >= 4 || ReadHint(b.value) == None then None
      else Some(State(st.f.(hint := SortedList(ReadHint(b.value).value)), 4))
    else if b.typ == NONCE then
      if st.last >= 5 || |b.value| != 4 then None else Some(State(st.f.(nonce := Some(b.value)), 5))
    else if b.typ == INTEREST_LIFETIME then
      if st.last >= 6 || !IsNonNegativeIntegerSize(|b.value|) then None
      else Some(State(st.f.(lifetime := ToInt64(Value(b.value))), 6))
    else if b.typ == HOP_LIMIT then
      if st.last >= 7 then Some(st)
      else if |b.value| != 1 then None else Some(State(st.f.(hopLimit := Some(b.value[0])), 7))
    else if b.typ == APPLICATION_PARAMETERS then
      if st.last >= 8 then Some(st) else Some(State(st.f.(parameters := st.f.parameters + [b]), 8))
    else if IsCritical(b.typ) then None
    else if st.f.parameters != [] then Some(State(st.f.(parameters := st.f.parameters + [b]), st.last))
    else Some(st)
  }

  ghost function Steps(st: State, bs: seq<Block>): Option<State>
    decreases |bs|
  {
    if bs == [] then Some(st)
    else
      match Step(st, bs[0])
      case None => None
      case Some(next) => Steps(next, bs[1..])
  }

  ghost function DecodeElements(bs: seq<Block>): Option<Fields> {
    if |bs| < 2 || bs[0].typ != NAME || bs[1].typ != NAME then None
    else
      var name, functions := DecodeName(bs[0].value), DecodeName(bs[1].value);
      if name == None || name.value == [] || !AtMostOneDigest(name.value) || functions == None then None
      else
        match Steps(State(Defaults(name.value, functions.value), 1), bs[2..])
        case None => None
        case Some(st) => Some(st.f)
  }

  /** The fields an Interest block stands for; None where `wireDecode` throws before it
      looks at the digest. */
  ghost function DecodeInterest(b: Block): Option<Fields> {
    if b.typ != INTEREST then None
    else
      match ParseBlocks(b.value)
      case None => None
      case Some(bs) => DecodeElements(bs)
  }

  // ---- what is left behind ----

  /** The fields when an element throws: those read before, and a hint as far as it was read. */
  ghost function LeftBy(st: State, b: Block): Fields {
    if b.typ == FORWARDING_HINT && st.last < 4 then st.f.(hint := SortedList(ReadSoFar(b.value))) else st.f
  }

  ghost function LeftBySteps(st: State, bs: seq<Block>): Fields
    decreases |bs|
  {
    if bs == [] then st.f
    else
      match Step(st, bs[0])
      case None => LeftBy(st, bs[0])
      case Some(next) => LeftBySteps(next, bs[1..])
  }

  /** The fields after decoding elements into an Interest with fields `f`, thrown or not. */
  ghost function LeftByElements(f: Fields, bs: seq<Block>): Fields {
    if |bs| < 1 || bs[0].typ != NAME then f
    else
      var name := DecodeName(bs[0].value);
      if name == None || name.value == [] || !AtMostOneDigest(name.value) then f
      else if |bs| < 2 || bs[1].typ != NAME || DecodeName(bs[1].value) == None then f.(name := name.value)
      else LeftBySteps(State(Defaults(name.value, DecodeName(bs[1].value).value), 1), bs[2..])
  }

  ghost function LeftByDecoding(f: Fields, b: Block): Fields {
    if b.typ != INTEREST then f
    else
      match ParseBlocks(b.value)
      case None => f
      case Some(bs) => LeftByElements(f, bs)
  }

  lemma {:induction false} StepsLeaveAll(st: State, bs: seq<Block>)
    requires Steps(st, bs).Some?
    ensures LeftBySteps(st, bs) == Steps(st, bs).value.f
    decreases |bs|
  {
    hide Step;
    if bs != [] {
      StepsLeaveAll(Step(st, bs[0]).value, bs[1..]);
    }
  }

  /** Nothing of an earlier Interest is left behind when decoding succeeds. */
  lemma DecodingLeavesAll(f: Fields, b: Block)
    requires DecodeInterest(b).Some?
    ensures LeftByDecoding(f, b) == DecodeInterest(b).value
  {
    hide Steps, LeftBySteps, DecodeName, ParseBlocks, AtMostOneDigest;
    var bs := ParseBlocks(b.value).value;
    StepsLeaveAll(State(Defaults(DecodeName(bs[0].value).value, DecodeName(bs[1].value).value), 1), bs[2..]);
  }

  // ---- reading what was written ----

  lemma {:induction false} StepsConcat(st: State, a: seq<Block>, b: seq<Block>)
    ensures Steps(st, a + b) == match Steps(st, a) case None => None case Some(next) => Steps(next, b)
    decreases |a|
  {
    hide Step;
    if a == [] {
      assert a + b == b;
    } else {
      assert (a + b)[1..] == a[1..] + b;
      match Step(st, a[0])
      case None =>
      case Some(next) => StepsConcat(next, a[1..], b);
    }
  }

  lemma OneStep(st: State, b: Block)
    ensures Steps(st, [b]) == Step(st, b) && Steps(st, []) == Some(st)
  {
    hide Step;
    assert [b][1..] == [];
    match Step(st, b)
    case None =>
    case Some(next) => assert Steps(next, []) == Some(next);
  }

  lemma CanBePrefixStep(st: State, f: Fields)
    requires st.last < 2 && !st.f.canBePrefix
    ensures Steps(st, CanBePrefixPart(f)) == Some(State(st.f.(canBePrefix := f.canBePrefix),
                                                        if f.canBePrefix then 2 else st.last))
  {
    OneStep(st, MakeBlock(CAN_BE_PREFIX, []));
  }

  lemma MustBeFreshStep(st: State, f: Fields)
    requires st.last < 3 && !st.f.mustBeFresh
    ensures Steps(st, MustBeFreshPart(f)) == Some(State(st.f.(mustBeFresh := f.mustBeFresh),
                                                        if f.mustBeFresh then 3 else st.last))
  {
    OneStep(st, MakeBlock(MUST_BE_FRESH, []));
  }

  lemma HintStep(st: State, f: Fields)
    requires st.last < 4 && st.f.hint == [] && CanEncode(f)
    ensures Steps(st, HintPart(f)) == Some(State(st.f.(hint := SortedList(f.hint)),
                                                 if f.hint != [] then 4 else st.last))
  {
    hide ReadHint, HintValue, NameFits, Elements, DelegationFits, Steps;
    var b := MakeBlock(FORWARDING_HINT, HintValue(f.hint));
    OneStep(st, b);
    if f.hint == [] {
      SortedListSorts([]);
    } else {
      HintRoundTrip(f.hint);
      assert HintPart(f) == [b];
    }
  }

  lemma NonceStep(st: State, f: Fields)
    requires st.last < 5 && st.f.nonce == None && (f.nonce.Some? ==> |f.nonce.value| == 4)
    ensures Steps(st, NoncePart(f)) == Some(State(st.f.(nonce := f.nonce), if f.nonce.Some? then 5 else st.last))
  {
    if f.nonce.Some? {
      OneStep(st, MakeBlock(NONCE, f.nonce.value));
    }
  }

  lemma LifetimeStep(st: State, f: Fields)
    requires st.last < 6 && st.f.lifetime == DEFAULT_INTEREST_LIFETIME && -TWO63 <= f.lifetime < TWO63
    ensures Steps(st, LifetimePart(f)) ==
      Some(State(st.f.(lifetime := f.lifetime), if f.lifetime != DEFAULT_INTEREST_LIFETIME then 6 else st.last))
  {
    hide NonNegativeInteger, Value;
    if f.lifetime != DEFAULT_INTEREST_LIFETIME {
      NonNegativeIntegerRoundTrip(FromInt64(f.lifetime));
      OneStep(st, MakeBlock(INTEREST_LIFETIME, NonNegativeInteger(FromInt64(f.lifetime))));
    }
  }

  lemma HopLimitStep(st: State, f: Fields)
    requires st.last < 7 && st.f.hopLimit == None
    ensures Steps(st, HopLimitPart(f)) ==
      Some(State(st.f.(hopLimit := f.hopLimit), if f.hopLimit.Some? then 7 else st.last))
  {
    if f.hopLimit.Some? {
      OneStep(st, MakeBlock(HOP_LIMIT, [f.hopLimit.value]));
    }
  }

  lemma {:induction false} ParameterSteps(st: State, ps: seq<Block>)
    requires st.f.parameters != []
    requires forall i :: 0 <= i < |ps| ==> !IsCritical(ps[i].typ) && ps[i].typ != HOP_LIMIT
                                           && ps[i].typ != APPLICATION_PARAMETERS
    ensures Steps(st, ps) == Some(State(st.f.(parameters := st.f.parameters + ps), st.last))
    decreases |ps|
  {
    if ps == [] {
      assert st.f.parameters + ps == st.f.parameters;
    } else {
      var next := State(st.f.(parameters := st.f.parameters + [ps[0]]), st.last);
      assert Step(st, ps[0]) == Some(next);
      ParameterSteps(next, ps[1..]);
      assert st.f.parameters + ps == st.f.parameters + [ps[0]] + ps[1..];
    }
  }

  lemma ParametersStep(st: State, ps: seq<Block>)
    requires st.last < 8 && st.f.parameters == [] && ParametersOk(ps)
    ensures Steps(st, ps) == Some(State(st.f.(parameters := ps), if ps != [] then 8 else st.last))
  {
    hide WellFormed;
    if ps != [] {
      var next := State(st.f.(parameters := [ps[0]]), 8);
      assert [] + [ps[0]] == [ps[0]];
      assert Step(st, ps[0]) == Some(next);
      ParameterSteps(next, ps[1..]);
      assert [ps[0]] + ps[1..] == ps;
    }
  }

  lemma OptionsRoundTrip(f: Fields)
    requires CanEncode(f)
    ensures var st := Steps(State(Defaults(f.name, f.functions), 1), Options(f));
      st.Some? && st.value.f == f.(hint := SortedList(f.hint))
  {
    hide Steps, CanEncode, CanBePrefixPart, MustBeFreshPart, HintPart, NoncePart, LifetimePart, HopLimitPart,
         ParametersOk, SortedList;
    EncodableParts(f);
    var g := Defaults(f.name, f.functions);
    var p7 := f.parameters;
    var p6 := HopLimitPart(f) + p7;
    var p5 := LifetimePart(f) + p6;
    var p4 := NoncePart(f) + p5;
    var p3 := HintPart(f) + p4;
    var p2 := MustBeFreshPart(f) + p3;
    var s1 := State(g, 1);
    CanBePrefixStep(s1, f);
    StepsConcat(s1, CanBePrefixPart(f), p2);
    var s2 := State(g.(canBePrefix := f.canBePrefix), if f.canBePrefix then 2 else s1.last);
    MustBeFreshStep(s2, f);
    StepsConcat(s2, MustBeFreshPart(f), p3);
    var s3 := State(s2.f.(mustBeFresh := f.mustBeFresh), if f.mustBeFresh then 3 else s2.last);
    HintStep(s3, f);
    StepsConcat(s3, HintPart(f), p4);
    var s4 := State(s3.f.(hint := SortedList(f.hint)), if f.hint != [] then 4 else s3.last);
    NonceStep(s4, f);
    StepsConcat(s4, NoncePart(f), p5);
    var s5 := State(s4.f.(nonce := f.nonce), if f.nonce.Some? then 5 else s4.last);
    LifetimeStep(s5, f);
    StepsConcat(s5, LifetimePart(f), p6);
    var s6 := State(s5.f.(lifetime := f.lifetime), if f.lifetime != DEFAULT_INTEREST_LIFETIME then 6 else s5.last);
    HopLimitStep(s6, f);
    StepsConcat(s6, HopLimitPart(f), p7);
    var s7 := State(s6.f.(hopLimit := f.hopLimit), if f.hopLimit.Some? then 7 else s6.last);
    ParametersStep(s7, p7);
  }

  lemma EncodableParts(f: Fields)
    requires CanEncode(f)
    ensures ParametersOk(f.parameters) && -TWO63 <= f.lifetime < TWO63 && (f.nonce.Some? ==> |f.nonce.value| == 4)
  {
  }

  ghost predicate AllWellFormed(bs: seq<Block>) {
    forall i :: 0 <= i < |bs| ==> WellFormed(bs[i])
  }

  lemma AllConcat(a: seq<Block>, b: seq<Block>)
    requires AllWellFormed(a) && AllWellFormed(b)
    ensures AllWellFormed(a + b)
  {
  }

  lemma FlagParts(f: Fields)
    ensures AllWellFormed(CanBePrefixPart(f)) && AllWellFormed(MustBeFreshPart(f))
  {
    MadeIsWellFormed(CAN_BE_PREFIX, []);
    MadeIsWellFormed(MUST_BE_FRESH, []);
  }

  lemma HintAndNonceParts(f: Fields)
    requires |HintValue(f.hint)| < TWO64 && (f.nonce.Some? ==> |f.nonce.value| == 4)
    ensures AllWellFormed(HintPart(f)) && AllWellFormed(NoncePart(f))
  {
    hide WellFormed, MakeBlock, HintValue;
    MadeIsWellFormed(FORWARDING_HINT, HintValue(f.hint));
    if f.nonce.Some? {
      MadeIsWellFormed(NONCE, f.nonce.value);
    }
  }

  lemma NumberParts(f: Fields)
    requires -TWO63 <= f.lifetime < TWO63
    ensures AllWellFormed(LifetimePart(f)) && AllWellFormed(HopLimitPart(f))
  {
    hide WellFormed, MakeBlock, NonNegativeInteger;
    NonNegativeIntegerRoundTrip(FromInt64(f.lifetime));
    MadeIsWellFormed(INTEREST_LIFETIME, NonNegativeInteger(FromInt64(f.lifetime)));
    if f.hopLimit.Some? {
      MadeIsWellFormed(HOP_LIMIT, [f.hopLimit.value]);
    }
  }

  lemma NameParts(f: Fields)
    requires NameFits(f.name) && NameFits(f.functions)
    ensures AllWellFormed([NameBlock(f.name), NameBlock(f.functions)])
  {
    hide WellFormed, MakeBlock, NameFits, NameValue;
    NameRoundTrip(f.name);
    NameRoundTrip(f.functions);
  }

  lemma ElementsWellFormed(f: Fields)
    requires CanEncode(f)
    ensures AllWellFormed(Elements(f))
  {
    hide MakeBlock, NameFits, DelegationFits, JoinRaw, HintValue, NameValue, CanBePrefixPart, MustBeFreshPart, HintPart,
         NoncePart, LifetimePart, HopLimitPart, WellFormed;
    NameParts(f);
    FlagParts(f);
    HintAndNonceParts(f);
    NumberParts(f);
    assert AllWellFormed(f.parameters);
    WellFormedOptions(f);
    AllConcat([NameBlock(f.name), NameBlock(f.functions)], Options(f));
  }

  lemma WellFormedOptions(f: Fields)
    requires -TWO63 <= f.lifetime < TWO63
    requires AllWellFormed(CanBePrefixPart(f)) && AllWellFormed(MustBeFreshPart(f)) && AllWellFormed(HintPart(f))
    requires AllWellFormed(NoncePart(f)) && AllWellFormed(LifetimePart(f)) && AllWellFormed(HopLimitPart(f))
    requires AllWellFormed(f.parameters)
    ensures AllWellFormed(Options(f))
  {
    hide AllWellFormed, CanBePrefixPart, MustBeFreshPart, HintPart, NoncePart, LifetimePart, HopLimitPart;
    var p6 := HopLimitPart(f) + f.parameters;
    AllConcat(HopLimitPart(f), f.parameters);
    AllConcat(LifetimePart(f), p6);
    AllConcat(NoncePart(f), LifetimePart(f) + p6);
    AllConcat(HintPart(f), NoncePart(f) + (LifetimePart(f) + p6));
    AllConcat(MustBeFreshPart(f), HintPart(f) + (NoncePart(f) + (LifetimePart(f) + p6)));
    AllConcat(CanBePrefixPart(f), MustBeFreshPart(f) + (HintPart(f) + (NoncePart(f) + (LifetimePart(f) + p6))));
  }

  /** Decoding an encoded Interest gives every field back, the list of functions among
      them, with the forwarding hint sorted. An Interest without a name, or with two
      parameter digests, does not decode. */
  lemma CodecRoundTrip(f: Fields)
    requires CanEncode(f)
    ensures DecodeInterest(EncodeInterest(f)) ==
      if f.name != [] && AtMostOneDigest(f.name) then Some(f.(hint := SortedList(f.hint))) else None
  {
    hide WellFormed, MakeBlock, NameFits, DelegationFits, JoinRaw, NonNegativeInteger, HintValue, NameValue, Steps,
         Options, ParseBlocks, DecodeName, AtMostOneDigest, SortedList;
    ElementsWellFormed(f);
    ParseJoin(Elements(f));
    MadeHas(INTEREST, JoinRaw(Elements(f)));
    MadeHas(NAME, NameValue(f.name));
    MadeHas(NAME, NameValue(f.functions));
    NameRoundTrip(f.name);
    NameRoundTrip(f.functions);
    OptionsRoundTrip(f);
    assert Elements(f)[2..] == Options(f);
  }

  /** The Interest itself comes back exactly when its forwarding hint is sorted. */
  lemma CodecExactly(f: Fields)
    requires CanEncode(f) && f.name != [] && AtMostOneDigest(f.name)
    ensures DecodeInterest(EncodeInterest(f)) == Some(f) <==> Sorted(f.hint)
  {
    hide DecodeInterest, EncodeInterest, CanEncode, Sorted, InsertAll;
    CodecRoundTrip(f);
    SortedListSorts(f.hint);
  }
}
