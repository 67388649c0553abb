/** Lists of delegations, sorted by preference and name or kept as they came. */
module DelegationLists {
  import opened Basics
  import opened Tlv
  import opened Names

  datatype Delegation = Delegation(preference: uint64, name: Name)

  // ---- order ----

  function DelegationOrder(a: Delegation, b: Delegation): (r: int) {
    if a.preference != b.preference then Order(a.preference, b.preference) else NameOrder(a.name, b.name)
  }

  lemma DelegationOrderIsTotal(a: Delegation, b: Delegation, c: Delegation)
    ensures DelegationOrder(a, b) == 0 <==> a == b
    ensures DelegationOrder(a, b) == -DelegationOrder(b, a)
    ensures DelegationOrder(a, b) <= 0 && DelegationOrder(b, c) <= 0 ==> DelegationOrder(a, c) <= 0
  {
    hide NameOrder;
    NameOrderIsTotal(a.name, b.name, c.name);
  }

  ghost predicate Sorted(s: seq<Delegation>) {
    forall i, j :: 0 <= i < j < |s| ==> DelegationOrder(s[i], s[j]) <= 0
  }

  /** A delegation that is not after any of a list. */
  ghost predicate AtFront(d: Delegation, s: seq<Delegation>) {
    forall x :: x in s ==> DelegationOrder(d, x) <= 0
  }

  lemma SortedFirst(d: Delegation, s: seq<Delegation>)
    ensures Sorted([d] + s) <==> Sorted(s) && AtFront(d, s)
  {
    hide DelegationOrder;
    var t := [d] + s;
    if Sorted(t) {
      forall i, j | 0 <= i < j < |s|
        ensures DelegationOrder(s[i], s[j]) <= 0
      {
        assert DelegationOrder(t[i + 1], t[j + 1]) <= 0;
      }
      forall x | x in s
        ensures DelegationOrder(d, x) <= 0
      {
        var i :| 0 <= i < |s| && s[i] == x;
        assert DelegationOrder(t[0], t[i + 1]) <= 0;
      }
    }
  }

  lemma Split(s: seq<Delegation>)
    requires s != []
    ensures s == [s[0]] + s[1..] && multiset(s) == multiset{s[0]} + multiset(s[1..])
  {
    assert s == [s[0]] + s[1..];
  }

  /** A list has one sorted arrangement only. */
  lemma {:induction false} SortedIsUnique(a: seq<Delegation>, b: seq<Delegation>)
    requires Sorted(a) && Sorted(b) && multiset(a) == multiset(b)
    ensures a == b
  {
    hide Sorted, DelegationOrder;
    assert |multiset(a)| == |a| && |multiset(b)| == |b|;
    if a != [] {
      Split(a);
      Split(b);
      SortedFirst(a[0], a[1..]);
      SortedFirst(b[0], b[1..]);
      assert a[0] in multiset(b) && b[0] in multiset(a);
      DelegationOrderIsTotal(a[0], b[0], a[0]);
      DelegationOrderIsTotal(a[0], a[0], a[0]);
      DelegationOrderIsTotal(b[0], b[0], b[0]);
      assert a[0] == b[0];
      assert multiset(a[1..]) == multiset(a) - multiset{a[0]};
      assert multiset(b[1..]) == multiset(b) - multiset{b[0]};
      SortedIsUnique(a[1..], b[1..]);
    }
  }

  // ---- insertion ----

  /** A delegation placed after those it is not before. */
  ghost function Inserted(s: seq<Delegation>, d: Delegation): seq<Delegation> {
    if s == [] || DelegationOrder(d, s[0]) < 0 then [d] + s else [s[0]] + Inserted(s[1..], d)
  }

  lemma {:induction false} InsertedHas(s: seq<Delegation>, d: Delegation)
    ensures multiset(Inserted(s, d)) == multiset(s) + multiset{d}
  {
    hide DelegationOrder;
    if s != [] {
      Split(s);
      InsertedHas(s[1..], d);
    }
  }

  lemma {:induction false} InsertedIsSorted(s: seq<Delegation>, d: Delegation)
    requires Sorted(s)
    ensures Sorted(Inserted(s, d))
  {
    hide DelegationOrder, Sorted, AtFront;
    SortedFirst(d, s);
    if s == [] {
      NothingIsSorted(d);
    } else {
      Split(s);
      SortedFirst(s[0], s[1..]);
      DelegationOrderIsTotal(d, s[0], d);
      if DelegationOrder(d, s[0]) < 0 {
        FrontOfSorted(d, s[0], s[1..]);
      } else {
        InsertedIsSorted(s[1..], d);
        SortedFirst(s[0], Inserted(s[1..], d));
        FrontOfInserted(s[0], s[1..], d);
      }
    }
  }

  lemma NothingIsSorted(d: Delegation)
    ensures Sorted([]) && AtFront(d, [])
  {
  }

  lemma FrontOfSorted(d: Delegation, e: Delegation, s: seq<Delegation>)
    requires DelegationOrder(d, e) <= 0 && AtFront(e, s)
    ensures AtFront(d, [e] + s)
  {
    hide DelegationOrder;
    forall x | x in [e] + s
      ensures DelegationOrder(d, x) <= 0
    {
      DelegationOrderIsTotal(d, e, x);
    }
  }

  lemma FrontOfInserted(e: Delegation, s: seq<Delegation>, d: Delegation)
    requires DelegationOrder(e, d) <= 0 && AtFront(e, s)
    ensures AtFront(e, Inserted(s, d))
  {
    hide DelegationOrder, Inserted;
    InsertedHas(s, d);
    forall x | x in Inserted(s, d)
      ensures DelegationOrder(e, x) <= 0
    {
      assert x in multiset(Inserted(s, d));
    }
  }

  /** `std::upper_bound`: the position of the first delegation after `d`. */
  method UpperBound(s: seq<Delegation>, d: Delegation) returns (p: nat)
    requires Sorted(s)
    ensures p <= |s| && s[..p] + [d] + s[p..] == Inserted(s, d)
  {
    hide DelegationOrder;
    var lo, hi := 0, |s|;
    while lo < hi
      invariant 0 <= lo <= hi <= |s|
      invariant forall i :: 0 <= i < lo ==> DelegationOrder(d, s[i]) >= 0
      invariant forall i :: hi <= i < |s| ==> DelegationOrder(d, s[i]) < 0
    {
      var mid := (lo + hi) / 2;
      if DelegationOrder(d, s[mid]) < 0 {
        forall i | mid < i < |s|
          ensures DelegationOrder(d, s[i]) < 0
        {
          DelegationOrderIsTotal(d, s[mid], s[i]);
          DelegationOrderIsTotal(s[i], d, s[mid]);
          DelegationOrderIsTotal(s[mid], s[i], d);
        }
        hi := mid;
      } else {
        forall i | 0 <= i < mid
          ensures DelegationOrder(d, s[i]) >= 0
        {
          DelegationOrderIsTotal(s[i], s[mid], d);
          DelegationOrderIsTotal(s[mid], d, d);
          DelegationOrderIsTotal(s[i], d, d);
        }
        lo := mid + 1;
      }
    }
    InsertedAt(s, d, lo);
    return lo;
  }

  lemma {:induction false} InsertedAt(s: seq<Delegation>, d: Delegation, p: nat)
    requires p <= |s|
    requires forall i :: 0 <= i < p ==> DelegationOrder(d, s[i]) >= 0
    requires p < |s| ==> DelegationOrder(d, s[p]) < 0
    ensures s[..p] + [d] + s[p..] == Inserted(s, d)
  {
    hide DelegationOrder;
    if p > 0 {
      InsertedAt(s[1..], d, p - 1);
      assert s[..p] == [s[0]] + s[1..][..p - 1] && s[p..] == s[1..][p - 1..];
    }
  }

  /** Every delegation of `xs` in turn inserted. */
  ghost function InsertAll(s: seq<Delegation>, xs: seq<Delegation>): seq<Delegation>
    decreases |xs|
  {
    if xs == [] then s else InsertAll(Inserted(s, xs[0]), xs[1..])
  }

  lemma {:induction false} InsertAllSorts(s: seq<Delegation>, xs: seq<Delegation>)
    requires Sorted(s)
    ensures Sorted(InsertAll(s, xs)) && multiset(InsertAll(s, xs)) == multiset(s) + multiset(xs)
    decreases |xs|
  {
    hide Sorted, Inserted;
    if xs == [] {
      assert multiset(xs) == multiset{};
    } else {
      InsertedIsSorted(s, xs[0]);
      InsertedHas(s, xs[0]);
      InsertAllSorts(Inserted(s, xs[0]), xs[1..]);
      Split(xs);
    }
  }

  /** The sorted arrangement of a list. */
  ghost function SortedList(xs: seq<Delegation>): seq<Delegation> {
    InsertAll([], xs)
  }

  lemma SortedListSorts(xs: seq<Delegation>)
    ensures Sorted(SortedList(xs)) && multiset(SortedList(xs)) == multiset(xs)
    ensures Sorted(xs) ==> SortedList(xs) == xs
  {
    InsertAllSorts([], xs);
    if Sorted(xs) {
      SortedIsUnique(SortedList(xs), xs);
    }
  }

  lemma {:induction false} InsertAllNext(s: seq<Delegation>, xs: seq<Delegation>, i: nat)
    requires i < |xs|
    ensures InsertAll(s, xs[..i + 1]) == Inserted(InsertAll(s, xs[..i]), xs[i])
    decreases i
  {
    hide Inserted;
    if i == 0 {
      assert xs[..1] == [xs[0]] && xs[..0] == [];
      assert [xs[0]][1..] == [];
    } else {
      InsertAllNext(Inserted(s, xs[0]), xs[1..], i - 1);
      assert xs[..i + 1][1..] == xs[1..][..i] && xs[..i][1..] == xs[1..][..i - 1];
    }
  }

  // ---- removal ----

  predicate IsErased(d: Delegation, preference: Option<uint64>, name: Name) {
    (preference == None || d.preference == preference.value) && d.name == name
  }

  /** What stays in order when some are erased. */
  ghost function Kept(s: seq<Delegation>, preference: Option<uint64>, name: Name): seq<Delegation> {
    if s == [] then []
    else if IsErased(s[0], preference, name) then Kept(s[1..], preference, name)
    else [s[0]] + Kept(s[1..], preference, name)
  }

  lemma {:induction false} KeptHas(s: seq<Delegation>, preference: Option<uint64>, name: Name)
    ensures forall d :: d in Kept(s, preference, name) <==> d in s && !IsErased(d, preference, name)
  {
    hide IsErased;
    if s != [] {
      Split(s);
      KeptHas(s[1..], preference, name);
    }
  }

  /** Every delegation with the name, and with the preference if one is given, goes; every
      other stays as often as it was there. */
  lemma {:induction false} KeptCounts(s: seq<Delegation>, preference: Option<uint64>, name: Name, d: Delegation)
    ensures multiset(Kept(s, preference, name))[d] ==
      if d.name == name && (preference == None || preference == Some(d.preference)) then 0 else multiset(s)[d]
  {
    if s != [] {
      Split(s);
      KeptCounts(s[1..], preference, name, d);
    }
  }

  lemma {:induction false} KeptKeeps(s: seq<Delegation>, preference: Option<uint64>, name: Name)
    ensures Sorted(s) ==> Sorted(Kept(s, preference, name))
    ensures DistinctNames(s) ==> DistinctNames(Kept(s, preference, name))
  {
    hide DelegationOrder, IsErased, Sorted, DistinctNames;
    if s != [] {
      Split(s);
      var r := Kept(s[1..], preference, name);
      KeptKeeps(s[1..], preference, name);
      KeptHas(s[1..], preference, name);
      SortedFirst(s[0], s[1..]);
      SortedFirst(s[0], r);
      DistinctFirst(s[0], s[1..]);
      DistinctFirst(s[0], r);
    }
  }

  /** Erases in place, from the front on. */
  method EraseMatching(s: seq<Delegation>, preference: Option<uint64>, name: Name)
    returns (dels: seq<Delegation>, nErased: nat)
    ensures dels == Kept(s, preference, name) && nErased == |s| - |dels|
  {
    hide IsErased;
    dels, nErased := s, 0;
    var i := 0;
    assert dels[..0] + Kept(dels[0..], preference, name) == Kept(s, preference, name);
    while i < |dels|
      invariant 0 <= i <= |dels| && nErased == |s| - |dels|
      invariant dels[..i] + Kept(dels[i..], preference, name) == Kept(s, preference, name)
      decreases |dels| - i
    {
      KeptStep(dels, i, preference, name);
      if IsErased(dels[i], preference, name) {
        nErased := nErased + 1;
        dels := dels[..i] + dels[i + 1..];
      } else {
        i := i + 1;
      }
    }
    assert dels[..i] == dels && dels[i..] == [] && dels + [] == dels;
  }

  lemma KeptStep(s: seq<Delegation>, i: nat, preference: Option<uint64>, name: Name)
    requires i < |s|
    ensures var k := s[..i] + Kept(s[i..], preference, name);
      if IsErased(s[i], preference, name)
      then var t := s[..i] + s[i + 1..]; t[..i] + Kept(t[i..], preference, name) == k
      else s[..i + 1] + Kept(s[i + 1..], preference, name) == k
  {
    hide IsErased;
    assert s[i..][1..] == s[i + 1..];
    var t := s[..i] + s[i + 1..];
    assert t[..i] == s[..i] && t[i..] == s[i + 1..];
    assert s[..i + 1] == s[..i] + [s[i]];
  }

  // ---- names ----

  ghost predicate DistinctNames(s: seq<Delegation>) {
    forall i, j :: 0 <= i < j < |s| ==> s[i].name != s[j].name
  }

  predicate HasName(s: seq<Delegation>, name: Name) {
    exists d :: d in s && d.name == name
  }

  lemma DistinctFirst(d: Delegation, s: seq<Delegation>)
    ensures DistinctNames([d] + s) <==> DistinctNames(s) && !HasName(s, d.name)
  {
    var t := [d] + s;
    if DistinctNames(t) {
      forall i, j | 0 <= i < j < |s|
        ensures s[i].name != s[j].name
      {
        assert t[i + 1].name != t[j + 1].name;
      }
      forall x | x in s
        ensures x.name != d.name
      {
        var i :| 0 <= i < |s| && s[i] == x;
        assert t[0].name != t[i + 1].name;
      }
    }
    if !HasName(s, d.name) {
      assert forall i :: 0 <= i < |s| ==> s[i] in s;
    }
  }

  lemma {:induction false} InsertedKeepsNames(s: seq<Delegation>, d: Delegation)
    requires DistinctNames(s) && !HasName(s, d.name)
    ensures DistinctNames(Inserted(s, d))
  {
    hide DelegationOrder, DistinctNames;
    DistinctFirst(d, s);
    if s != [] {
      Split(s);
      DistinctFirst(s[0], s[1..]);
      DistinctFirst(s[0], Inserted(s[1..], d));
      assert s[0] in s && forall x :: x in s[1..] ==> x in s;
      InsertedKeepsNames(s[1..], d);
      NameOfInserted(s[1..], d, s[0].name);
    }
  }

  lemma NameOfInserted(s: seq<Delegation>, d: Delegation, name: Name)
    ensures HasName(Inserted(s, d), name) <==> HasName(s, name) || d.name == name
  {
    hide Inserted;
    InsertedHas(s, d);
    var t := Inserted(s, d);
    assert forall x :: x in t <==> x in multiset(t);
    assert forall x :: x in s <==> x in multiset(s);
    assert d in t;
  }

  lemma AppendKeepsNames(s: seq<Delegation>, d: Delegation)
    requires DistinctNames(s) && !HasName(s, d.name)
    ensures DistinctNames(s + [d])
  {
    assert forall i :: 0 <= i < |s| ==> s[i] in s;
  }

  // ---- the class ----

  datatype InsertConflictResolution = InsReplace | InsAppend | InsSkip

  class DelegationList {
    var isSorted: bool
    var dels: seq<Delegation>

    ghost predicate Valid()
      reads this
    {
      isSorted ==> Sorted(dels)
    }

    constructor ()
      ensures Valid() && isSorted && dels == []
    {
      isSorted, dels := true, [];
    }

    /** `insertImpl`. */
    method InsertImpl(d: Delegation)
      requires Valid()
      modifies this`dels
      ensures Valid()
      ensures dels == if isSorted then Inserted(old(dels), d) else old(dels) + [d]
    {
      hide DelegationOrder;
      if !isSorted {
        dels := dels + [d];
        return;
      }
      InsertedIsSorted(dels, d);
      var pos := UpperBound(dels, d);
      dels := dels[..pos] + [d] + dels[pos..];
    }

    /** `eraseImpl`. */
    method EraseImpl(preference: Option<uint64>, name: Name) returns (nErased: nat)
      requires Valid()
      modifies this`dels
      ensures Valid()
      ensures dels == Kept(old(dels), preference, name) && nErased == |old(dels)| - |dels|
      ensures forall d: Delegation ::
        var goes := d.name == name && (preference == None || preference == Some(d.preference));
        multiset(dels)[d] == if goes then 0 else multiset(old(dels))[d]
    {
      hide IsErased, DelegationOrder, Sorted, DistinctNames, Kept;
      KeptKeeps(dels, preference, name);
      forall d { KeptCounts(dels, preference, name, d); }
      dels, nErased := EraseMatching(dels, preference, name);
    }

    /** `insert`. Without appending, names stay distinct. */
    method Insert(preference: uint64, name: Name, onConflict: InsertConflictResolution) returns (inserted: bool)
      requires Valid()
      modifies this`dels
      ensures Valid() && (inserted <==> onConflict != InsSkip || !old(HasName(dels, name)))
      ensures !inserted ==> dels == old(dels)
      ensures inserted ==>
        var s := if onConflict == InsReplace then Kept(old(dels), None, name) else old(dels);
        dels == if isSorted then Inserted(s, Delegation(preference, name)) else s + [Delegation(preference, name)]
      ensures onConflict != InsAppend && DistinctNames(old(dels)) ==> DistinctNames(dels)
      ensures onConflict == InsReplace ==> forall d: Delegation ::
        var isNew := d == Delegation(preference, name);
        multiset(dels)[d] == if isNew then 1 else if d.name == name then 0 else multiset(old(dels))[d]
      ensures inserted && onConflict != InsReplace ==>
        multiset(dels) == multiset(old(dels)) + multiset{Delegation(preference, name)}
    {
      hide DelegationOrder, Sorted, Inserted, DistinctNames, Kept;
      var d := Delegation(preference, name);
      InsertedHas(dels, d);
      InsertedHas(Kept(dels, None, name), d);
      match onConflict {
        case InsReplace =>
          KeptKeeps(dels, None, name);
          var _ := EraseImpl(None, name);
          KeptHas(old(dels), None, name);
          InsertDistinct(d);
          return true;
        case InsAppend =>
          InsertImpl(d);
          return true;
        case InsSkip =>
          if HasName(dels, name) {
            return false;
          }
          InsertDistinct(d);
          return true;
      }
    }

    /** Inserts a delegation whose name is not there yet. */
    method InsertDistinct(d: Delegation)
      requires Valid() && !HasName(dels, d.name)
      modifies this`dels
      ensures Valid() && dels == if isSorted then Inserted(old(dels), d) else old(dels) + [d]
      ensures DistinctNames(old(dels)) ==> DistinctNames(dels)
    {
      hide DelegationOrder, Sorted, Inserted, DistinctNames;
      if DistinctNames(dels) {
        InsertedKeepsNames(dels, d);
        AppendKeepsNames(dels, d);
      }
      InsertImpl(d);
    }

    /** `sort`. */
    method Sort()
      requires Valid()
      modifies this
      ensures Valid() && isSorted && dels == SortedList(old(dels))
    {
      hide Inserted, Sorted, InsertAll;
      if isSorted {
        SortedListSorts(dels);
        return;
      }
      var todo := dels;
      dels, isSorted := [], true;
      InsertEach(todo);
    }

    /** Inserts a list delegation by delegation. */
    method InsertEach(todo: seq<Delegation>)
      requires dels == []
      modifies this`dels
      ensures Valid() && dels == if isSorted then SortedList(todo) else todo
    {
      hide Inserted, InsertAll, DelegationOrder;
      var i := 0;
      NothingInserted(todo);
      while i < |todo|
        invariant 0 <= i <= |todo| && Valid()
        invariant dels == if isSorted then InsertAll([], todo[..i]) else todo[..i]
      {
        InsertAllNext([], todo, i);
        InsertImpl(todo[i]);
        i := i + 1;
      }
      assert todo[..i] == todo;
    }

    /** The end of `wireDecode`, with the delegations read from a block: false where there
        is none, which throws. */
    method Decode(todo: seq<Delegation>, wantSort: bool) returns (ok: bool)
      modifies this
      ensures Valid() && isSorted == wantSort && (ok <==> todo != [])
      ensures dels == if wantSort then SortedList(todo) else todo
    {
      hide Inserted, InsertAll, DelegationOrder;
      SortedListSorts(todo);
      isSorted := wantSort;
      dels := [];
      InsertEach(todo);
      if |dels| == 0 {
        EmptyOnly(todo);
        return false;
      }
      assert [] == SortedList([]) by {
        NothingInserted([]);
      }
      return true;
    }
  }

  lemma NothingInserted(todo: seq<Delegation>)
    ensures InsertAll([], todo[..0]) == []
  {
  }

  lemma EmptyOnly(todo: seq<Delegation>)
    ensures SortedList(todo) == [] ==> todo == []
  {
    hide InsertAll;
    SortedListSorts(todo);
    if SortedList(todo) == [] {
      assert |multiset(todo)| == |todo|;
    }
  }

  /** Decoding as received and sorting later gives what decoding sorted gives. */
  method DecodeThenSort(a: DelegationList, b: DelegationList, todo: seq<Delegation>) returns (ok: bool)
    requires a != b
    modifies a, b
    ensures a.dels == b.dels && a.isSorted && b.isSorted && a.Valid() && Sorted(a.dels)
    ensures multiset(a.dels) == multiset(todo)
  {
    hide Sorted, SortedList;
    SortedListSorts(todo);
    ok := a.Decode(todo, false);
    a.Sort();
    ok := b.Decode(todo, true);
  }
}
