/** Which lists of elements decode as an Interest and what each element stands for, element
    by element and without a state. */
module InterestGrammar {
  import opened Basics
  import opened Tlv
  import opened Blocks
  import opened NameComponents
  import opened Names
  import opened DelegationLists
  import opened InterestCodec

  // ---- the grammar ----

  /** The place of a recognised element after the two names; 0 for any other. */
  function Rank(typ: nat): nat {
    match typ
    case 33 => 2  // CanBePrefix
    case 18 => 3  // MustBeFresh
    case 30 => 4  // ForwardingHint
    case 10 => 5  // Nonce
    case 12 => 6  // InterestLifetime
    case 34 => 7  // HopLimit
    case 36 => 8  // ApplicationParameters
    case _ => 0
  }

  /** Some element before `i` is HopLimit or ApplicationParameters. */
  ghost predicate Late(opts: seq<Block>, i: nat)
    requires i <= |opts|
  {
    exists j :: 0 <= j < i && (opts[j].typ == 34 || opts[j].typ == 36)
  }

  /** Element `i` is well formed and in its place. */
  ghost predicate Accepts(opts: seq<Block>, i: nat)
    requires i < |opts|
  {
    var b := opts[i];
    && (b.typ in {33, 18, 30, 10, 12} ==> forall j :: 0 <= j < i ==> Rank(opts[j].typ) < Rank(b.typ))
    && (b.typ == 33 || b.typ == 18 ==> b.value == [])
    && (b.typ == 30 ==> ReadHint(b.value).Some?)
    && (b.typ == 10 ==> |b.value| == 4)
    && (b.typ == 12 ==> |b.value| in {1, 2, 4, 8})
    && (b.typ == 34 ==> |b.value| == 1 || Late(opts, i))
    && (b.typ !in {33, 18, 30, 10, 12, 34, 36} ==> b.typ > 31 && b.typ % 2 == 0)
  }

  ghost predicate AllAccepted(opts: seq<Block>) {
    forall i :: 0 <= i < |opts| ==> Accepts(opts, i)
  }

  // ---- hints ----

  /** A delegation: a preference as a number, then a name; more is ignored. */
  ghost predicate IsDelegation(b: Block, d: Delegation) {
    && b.typ == 31 && ParseBlocks(b.value).Some?
    && var es := ParseBlocks(b.value).value;
       && |es| >= 2 && es[0].typ == 30 && |es[0].value| in {1, 2, 4, 8} && es[1].typ == 7
       && d.preference == Value(es[0].value) && DecodeName(es[1].value) == Some(d.name)
  }

  /** A hint is read exactly if it is a list of one or more delegations and nothing else. */
  lemma HintReadsExactly(value: bytes, ds: seq<Delegation>)
    ensures ReadHint(value) == Some(ds) <==>
      && ds != [] && ParseBlocks(value).Some? && |ParseBlocks(value).value| == |ds|
      && forall i :: 0 <= i < |ds| ==> IsDelegation(ParseBlocks(value).value[i], ds[i])
  {
    hide ParseBlocks, IsDelegation;
    if ParseBlocks(value).Some? {
      DelegationsExactly(ParseBlocks(value).value, ds);
    }
  }

  lemma {:induction false} DelegationsExactly(bs: seq<Block>, ds: seq<Delegation>)
    ensures DecodeDelegations(bs) == Some(ds) <==> |bs| == |ds| && forall i :: 0 <= i < |ds| ==> IsDelegation(bs[i], ds[i])
  {
    hide DecodeDelegation, IsDelegation;
    if bs != [] {
      if ds != [] {
        DelegationExactly(bs[0], ds[0]);
        DelegationsExactly(bs[1..], ds[1..]);
        assert ds == [ds[0]] + ds[1..];
        if |bs| == |ds| {
          forall i | 1 <= i < |ds| ensures bs[i] == bs[1..][i - 1] && ds[i] == ds[1..][i - 1] {}
        }
      }
    }
  }

  lemma DelegationExactly(b: Block, d: Delegation)
    ensures DecodeDelegation(b) == Some(d) <==> IsDelegation(b, d)
  {
    hide ParseBlocks, DecodeName, Value;
  }

  // ---- the fields ----

  ghost predicate Has(opts: seq<Block>, typ: nat) {
    exists i :: 0 <= i < |opts| && opts[i].typ == typ
  }

  ghost predicate FlagsMean(opts: seq<Block>, f: Fields) {
    (f.canBePrefix <==> Has(opts, 33)) && (f.mustBeFresh <==> Has(opts, 18))
  }

  ghost predicate HintMeans(opts: seq<Block>, f: Fields) {
    && (forall i :: 0 <= i < |opts| && opts[i].typ == 30 ==>
          ReadHint(opts[i].value).Some? && f.hint == SortedList(ReadHint(opts[i].value).value))
    && (!Has(opts, 30) ==> f.hint == [])
  }

  ghost predicate NonceMeans(opts: seq<Block>, f: Fields) {
    && (forall i :: 0 <= i < |opts| && opts[i].typ == 10 ==> f.nonce == Some(opts[i].value))
    && (!Has(opts, 10) ==> f.nonce == None)
  }

  ghost predicate LifetimeMeans(opts: seq<Block>, f: Fields) {
    && (forall i :: 0 <= i < |opts| && opts[i].typ == 12 ==> f.lifetime == ToInt64(Value(opts[i].value)))
    && (!Has(opts, 12) ==> f.lifetime == 4000)
  }

  /** The element that gives the hop limit: the first, unless parameters come before it. */
  ghost predicate IsHopLimit(opts: seq<Block>, i: nat)
    requires i < |opts|
  {
    opts[i].typ == 34 && !Late(opts, i)
  }

  ghost predicate HopLimitMeans(opts: seq<Block>, f: Fields) {
    && (forall i :: 0 <= i < |opts| && IsHopLimit(opts, i) ==> |opts[i].value| == 1 && f.hopLimit == Some(opts[i].value[0]))
    && ((forall i :: 0 <= i < |opts| ==> !IsHopLimit(opts, i)) ==> f.hopLimit == None)
  }

  /** ApplicationParameters and, after it, the elements that are not recognised. */
  ghost function ParametersOf(opts: seq<Block>): seq<Block> {
    if opts == [] then []
    else
      var before, b := ParametersOf(opts[..|opts| - 1]), opts[|opts| - 1];
      if (if before == [] then b.typ == 36 else b.typ !in {33, 18, 30, 10, 12, 34, 36}) then before + [b] else before
  }

  ghost predicate Means(opts: seq<Block>, f: Fields) {
    && FlagsMean(opts, f) && HintMeans(opts, f) && NonceMeans(opts, f) && LifetimeMeans(opts, f)
    && HopLimitMeans(opts, f) && f.parameters == ParametersOf(opts)
  }

  // ---- the place reached ----

  ghost function Reached(opts: seq<Block>): nat {
    if opts == [] then 1
    else
      var before, r := Reached(opts[..|opts| - 1]), Rank(opts[|opts| - 1].typ);
      if r > before then r else before
  }

  lemma {:induction false} ReachedBounds(opts: seq<Block>, r: nat)
    requires r >= 2
    ensures Reached(opts) < r <==> forall j :: 0 <= j < |opts| ==> Rank(opts[j].typ) < r
  {
    hide Rank;
    if opts != [] {
      var a := opts[..|opts| - 1];
      ReachedBounds(a, r);
      assert forall j :: 0 <= j < |a| ==> opts[j] == a[j];
    }
  }

  lemma ReachedLate(opts: seq<Block>)
    ensures Reached(opts) >= 7 <==> Late(opts, |opts|)
    ensures Reached(opts) >= 8 <==> Has(opts, 36)
  {
    ReachedBounds(opts, 7);
    ReachedBounds(opts, 8);
  }

  // ---- one more element ----

  lemma AcceptsBefore(a: seq<Block>, b: Block)
    ensures AllAccepted(a + [b]) <==> AllAccepted(a) && Accepts(a + [b], |a|)
  {
    hide ReadHint;
    var s := a + [b];
    forall i | 0 <= i < |a| ensures Accepts(s, i) <==> Accepts(a, i) {
      assert forall j :: 0 <= j < i ==> s[j] == a[j];
      assert Late(s, i) <==> Late(a, i);
    }
  }

  /** What the place reached says about an element added at the end. */
  lemma PlaceReached(a: seq<Block>, b: Block)
    ensures var s, r := a + [b], Rank(b.typ);
      && (r >= 2 ==> (Reached(a) < r <==> forall j :: 0 <= j < |a| ==> Rank(s[j].typ) < r))
      && (Reached(a) >= 7 <==> Late(s, |a|))
      && Reached(s) == (if r > Reached(a) then r else Reached(a)) && Reached(a) >= 1
  {
    hide Rank;
    var s := a + [b];
    assert s[..|a|] == a && forall j :: 0 <= j < |a| ==> s[j] == a[j];
    ReachedStarts(a);
    ReachedLate(a);
    assert Late(s, |a|) <==> Late(a, |a|);
    if Rank(b.typ) >= 2 {
      ReachedBounds(a, Rank(b.typ));
    }
  }

  lemma {:induction false} ReachedStarts(opts: seq<Block>)
    ensures Reached(opts) >= 1
  {
    if opts != [] { ReachedStarts(opts[..|opts| - 1]); }
  }

  /** The state machine takes an element exactly when the grammar does. */
  lemma StepAccepts(a: seq<Block>, b: Block, st: State)
    requires st.last == Reached(a)
    ensures Step(st, b).Some? <==> Accepts(a + [b], |a|)
    ensures Step(st, b).Some? ==> Step(st, b).value.last == Reached(a + [b])
  {
    hide ReadHint, Value, SortedList, Reached, Late;
    PlaceReached(a, b);
  }

  lemma HasMore(a: seq<Block>, b: Block, typ: nat)
    ensures Has(a + [b], typ) <==> Has(a, typ) || b.typ == typ
  {
    var s := a + [b];
    assert s[|a|] == b;
    if Has(a, typ) {
      var i :| 0 <= i < |a| && a[i].typ == typ;
      assert s[i].typ == typ;
    }
  }

  /** A field element comes once, so none of its type is before it. */
  lemma OnlyOne(a: seq<Block>, b: Block)
    requires Accepts(a + [b], |a|) && b.typ in {33, 18, 30, 10, 12}
    ensures !Has(a, b.typ)
  {
    var s := a + [b];
    forall i | 0 <= i < |a| ensures a[i].typ != b.typ {
      assert s[i] == a[i];
    }
  }

  lemma FlagsGrows(a: seq<Block>, b: Block, st: State)
    requires FlagsMean(a, st.f) && Step(st, b).Some?
    ensures FlagsMean(a + [b], Step(st, b).value.f)
  {
    hide Has, ReadHint, Value, SortedList;
    HasMore(a, b, 33);
    HasMore(a, b, 18);
  }

  lemma HintGrows(a: seq<Block>, b: Block, st: State)
    requires HintMeans(a, st.f) && Step(st, b).Some? && Accepts(a + [b], |a|)
    ensures HintMeans(a + [b], Step(st, b).value.f)
  {
    hide ReadHint, Value, SortedList;
    var s := a + [b];
    HasMore(a, b, 30);
    if b.typ == 30 { OnlyOne(a, b); }
    forall i | 0 <= i < |s| && s[i].typ == 30
      ensures ReadHint(s[i].value).Some? && Step(st, b).value.f.hint == SortedList(ReadHint(s[i].value).value)
    {
      if i < |a| { assert s[i] == a[i]; }
    }
  }

  lemma NonceGrows(a: seq<Block>, b: Block, st: State)
    requires NonceMeans(a, st.f) && Step(st, b).Some? && Accepts(a + [b], |a|)
    ensures NonceMeans(a + [b], Step(st, b).value.f)
  {
    hide ReadHint, Value, SortedList;
    var s := a + [b];
    HasMore(a, b, 10);
    if b.typ == 10 { OnlyOne(a, b); }
    forall i | 0 <= i < |s| && s[i].typ == 10 ensures Step(st, b).value.f.nonce == Some(s[i].value) {
      if i < |a| { assert s[i] == a[i]; }
    }
  }

  lemma LifetimeGrows(a: seq<Block>, b: Block, st: State)
    requires LifetimeMeans(a, st.f) && Step(st, b).Some? && Accepts(a + [b], |a|)
    ensures LifetimeMeans(a + [b], Step(st, b).value.f)
  {
    hide ReadHint, Value, SortedList;
    var s := a + [b];
    HasMore(a, b, 12);
    if b.typ == 12 { OnlyOne(a, b); }
    forall i | 0 <= i < |s| && s[i].typ == 12 ensures Step(st, b).value.f.lifetime == ToInt64(Value(s[i].value)) {
      if i < |a| { assert s[i] == a[i]; }
    }
  }

  lemma SameHopLimits(a: seq<Block>, b: Block, i: nat)
    requires i < |a|
    ensures IsHopLimit(a + [b], i) <==> IsHopLimit(a, i)
  {
    var s := a + [b];
    assert forall j :: 0 <= j <= i ==> s[j] == a[j];
    assert Late(s, i) <==> Late(a, i);
  }

  lemma HopLimitGrows(a: seq<Block>, b: Block, st: State)
    requires HopLimitMeans(a, st.f) && Step(st, b).Some? && st.last == Reached(a)
    ensures HopLimitMeans(a + [b], Step(st, b).value.f)
  {
    hide Step, IsHopLimit, Reached;
    var s := a + [b];
    forall i | 0 <= i < |a| ensures (IsHopLimit(s, i) <==> IsHopLimit(a, i)) && s[i] == a[i] { SameHopLimits(a, b, i); }
    LastHopLimit(a, b);
    StepHopLimit(st, b);
    if IsHopLimit(s, |a|) {
      NoEarlierHopLimit(a, b);
    }
  }

  lemma StepHopLimit(st: State, b: Block)
    requires Step(st, b).Some?
    ensures b.typ == 34 && st.last < 7 ==> |b.value| == 1 && Step(st, b).value.f.hopLimit == Some(b.value[0])
    ensures !(b.typ == 34 && st.last < 7) ==> Step(st, b).value.f.hopLimit == st.f.hopLimit
  {
    hide ReadHint, Value, SortedList;
  }

  lemma LastHopLimit(a: seq<Block>, b: Block)
    ensures IsHopLimit(a + [b], |a|) <==> b.typ == 34 && Reached(a) < 7
  {
    hide Reached;
    var s := a + [b];
    ReachedLate(a);
    assert forall j :: 0 <= j < |a| ==> s[j] == a[j];
    assert Late(s, |a|) <==> Late(a, |a|);
  }

  lemma NoEarlierHopLimit(a: seq<Block>, b: Block)
    requires IsHopLimit(a + [b], |a|)
    ensures forall i :: 0 <= i < |a| ==> !IsHopLimit(a, i)
  {
    var s := a + [b];
    forall i | 0 <= i < |a| ensures !IsHopLimit(a, i) {
      assert s[i] == a[i];
    }
  }

  lemma ParametersGrows(a: seq<Block>, b: Block, st: State)
    requires st.f.parameters == ParametersOf(a) && Step(st, b).Some? && st.last == Reached(a)
    ensures Step(st, b).value.f.parameters == ParametersOf(a + [b])
  {
    hide ReadHint, Value, SortedList, Reached, Has;
    assert (a + [b])[..|a|] == a;
    ReachedLate(a);
    ParametersCome(a);
  }

  lemma {:induction false} ParametersCome(opts: seq<Block>)
    ensures ParametersOf(opts) == [] <==> !Has(opts, 36)
  {
    if opts != [] {
      var a, b := opts[..|opts| - 1], opts[|opts| - 1];
      ParametersCome(a);
      assert a + [b] == opts;
      HasMore(a, b, 36);
    }
  }

  // ---- the whole list ----

  lemma {:induction false} StepsMean(f: Fields, opts: seq<Block>)
    requires f == Defaults(f.name, f.functions)
    ensures var r := Steps(State(f, 1), opts);
      && (r.Some? <==> AllAccepted(opts))
      && (r.Some? ==> r.value.last == Reached(opts) && Means(opts, r.value.f)
                      && r.value.f.name == f.name && r.value.f.functions == f.functions)
    decreases |opts|
  {
    hide Steps, Step, AllAccepted, Reached, Accepts, Means;
    if opts == [] {
      StartMeans(f);
    } else {
      var a, b := opts[..|opts| - 1], opts[|opts| - 1];
      assert a + [b] == opts;
      StepsMean(f, a);
      StepsConcat(State(f, 1), a, [b]);
      AcceptsBefore(a, b);
      if AllAccepted(a) {
        var st := Steps(State(f, 1), a).value;
        OneStep(st, b);
        StepAccepts(a, b, st);
        if Step(st, b).Some? {
          MeansGrows(a, b, st);
        }
      }
    }
  }

  lemma StartMeans(f: Fields)
    requires f == Defaults(f.name, f.functions)
    ensures Steps(State(f, 1), []) == Some(State(f, 1)) && AllAccepted([]) && Reached([]) == 1 && Means([], f)
  {
  }

  lemma MeansGrows(a: seq<Block>, b: Block, st: State)
    requires Means(a, st.f) && Step(st, b).Some? && Accepts(a + [b], |a|) && st.last == Reached(a)
    ensures Means(a + [b], Step(st, b).value.f)
    ensures Step(st, b).value.f.name == st.f.name && Step(st, b).value.f.functions == st.f.functions
  {
    hide Accepts, FlagsMean, HintMeans, NonceMeans, LifetimeMeans, HopLimitMeans, ParametersOf, Reached, ReadHint, Value,
         SortedList;
    FlagsGrows(a, b, st);
    HintGrows(a, b, st);
    NonceGrows(a, b, st);
    LifetimeGrows(a, b, st);
    HopLimitGrows(a, b, st);
    ParametersGrows(a, b, st);
  }

  /** A list of elements decodes exactly when it begins with two names, the first not empty
      and without a second digest, and every further element is accepted in its place; each
      element then gives its own field, and fields without an element keep their default. */
  lemma DecodesExactly(bs: seq<Block>)
    ensures DecodeElements(bs).Some? <==>
      && |bs| >= 2 && bs[0].typ == 7 && bs[1].typ == 7
      && DecodeName(bs[0].value).Some? && DecodeName(bs[0].value).value != []
      && AtMostOneDigest(DecodeName(bs[0].value).value) && DecodeName(bs[1].value).Some?
      && AllAccepted(bs[2..])
    ensures DecodeElements(bs).Some? ==> var f := DecodeElements(bs).value;
      && DecodeName(bs[0].value) == Some(f.name) && DecodeName(bs[1].value) == Some(f.functions)
      && Means(bs[2..], f)
  {
    hide Steps, AllAccepted, Means, DecodeName, AtMostOneDigest;
    if |bs| >= 2 && DecodeName(bs[0].value).Some? && DecodeName(bs[1].value).Some? {
      StepsMean(Defaults(DecodeName(bs[0].value).value, DecodeName(bs[1].value).value), bs[2..]);
    }
  }

  // ---- consequences ----

  /** An element that is not recognised refuses the Interest if its type is odd or at most 31. */
  lemma CriticalRefused(bs: seq<Block>, i: nat)
    requires 2 <= i < |bs| && (bs[i].typ % 2 == 1 || bs[i].typ <= 31) && bs[i].typ !in {33, 18, 30, 10, 12}
    ensures DecodeElements(bs) == None
  {
    hide DecodeElements, Means, DecodeName, AtMostOneDigest;
    DecodesExactly(bs);
    var opts := bs[2..];
    assert opts[i - 2] == bs[i];
    assert !Accepts(opts, i - 2);
  }

  /** In an accepted Interest the five field elements come at most once each and in order. */
  lemma InOrderOnce(bs: seq<Block>, i: nat, j: nat)
    requires DecodeElements(bs).Some? && 2 <= i < j < |bs|
    requires bs[j].typ in {33, 18, 30, 10, 12}
    ensures Rank(bs[i].typ) < Rank(bs[j].typ)
  {
    hide DecodeElements, Means, DecodeName, AtMostOneDigest;
    DecodesExactly(bs);
    var opts := bs[2..];
    assert opts[i - 2] == bs[i] && opts[j - 2] == bs[j];
    assert Accepts(opts, j - 2);
  }

  /** Any other element is skipped: with or without it the Interest decodes alike, but for
      the parameters. */
  lemma UnrecognisedSkipped(bs: seq<Block>, i: nat)
    requires 2 <= i < |bs| && bs[i].typ > 31 && bs[i].typ % 2 == 0 && bs[i].typ != 34 && bs[i].typ != 36
    ensures var r, r' := DecodeElements(bs), DecodeElements(bs[..i] + bs[i + 1..]);
      && (r.Some? <==> r'.Some?)
      && (r.Some? ==> r.value.(parameters := []) == r'.value.(parameters := []))
      && (r.Some? && (forall j :: 2 <= j < i ==> bs[j].typ != 36) ==> r == r')
  {
    hide DecodeName, AtMostOneDigest, Steps, Step, Means, AllAccepted, Reached;
    var bs' := bs[..i] + bs[i + 1..];
    assert bs'[0] == bs[0] && bs'[1] == bs[1];
    if DecodeName(bs[0].value).Some? && DecodeName(bs[1].value).Some? {
      var st := State(Defaults(DecodeName(bs[0].value).value, DecodeName(bs[1].value).value), 1);
      var a, b := bs[2..i], bs[i + 1..];
      assert bs[2..] == a + ([bs[i]] + b) && bs'[2..] == a + b;
      StepsConcat(st, a, [bs[i]] + b);
      StepsConcat(st, a, b);
      if Steps(st, a).Some? {
        var mid := Steps(st, a).value;
        StepsConcat(mid, [bs[i]], b);
        OneStep(mid, bs[i]);
        StepsMean(st.f, a);
        NoneBefore(a, mid.f);
        SkipStep(mid, bs[i]);
        if mid.f.parameters != [] {
          SameBut(mid, Step(mid, bs[i]).value, b);
        }
      }
    }
  }

  lemma NoneBefore(opts: seq<Block>, f: Fields)
    requires Means(opts, f)
    ensures f.parameters == [] <==> forall j :: 0 <= j < |opts| ==> opts[j].typ != 36
  {
    hide FlagsMean, HintMeans, NonceMeans, LifetimeMeans, HopLimitMeans, ParametersOf;
    ParametersCome(opts);
  }

  lemma SkipStep(st: State, b: Block)
    requires b.typ > 31 && b.typ % 2 == 0 && b.typ != 34 && b.typ != 36
    ensures Step(st, b) ==
      Some(if st.f.parameters == [] then st else State(st.f.(parameters := st.f.parameters + [b]), st.last))
  {
  }

  /** The parameters read so far decide nothing but the parameters. */
  lemma {:induction false} SameBut(st: State, st': State, bs: seq<Block>)
    requires st.last == st'.last && st.f.(parameters := []) == st'.f.(parameters := [])
    requires st.f.parameters != [] && st'.f.parameters != []
    ensures Steps(st, bs).Some? <==> Steps(st', bs).Some?
    ensures Steps(st, bs).Some? ==> Steps(st, bs).value.f.(parameters := []) == Steps(st', bs).value.f.(parameters := [])
    decreases |bs|
  {
    if bs != [] {
      var b := bs[0];
      OneMoreSame(st, st', b);
      if Step(st, b).Some? {
        SameBut(Step(st, b).value, Step(st', b).value, bs[1..]);
      }
    }
  }

  lemma OneMoreSame(st: State, st': State, b: Block)
    requires st.last == st'.last && st.f.(parameters := []) == st'.f.(parameters := [])
    requires st.f.parameters != [] && st'.f.parameters != []
    ensures Step(st, b).Some? <==> Step(st', b).Some?
    ensures Step(st, b).Some? ==> var n, n' := Step(st, b).value, Step(st', b).value;
      && n.last == n'.last && n.f.(parameters := []) == n'.f.(parameters := [])
      && n.f.parameters != [] && n'.f.parameters != []
  {
    hide ReadHint, Value, SortedList;
  }
}
