/** Names: canonical order, comparison of parts of names, and the successor as the upper
    bound of the names under a prefix. */
module Names {
  import opened Tlv
  import opened NameComponents

  type Name = seq<Component>

  predicate ValidName(n: Name) {
    forall i :: 0 <= i < |n| ==> Valid(n[i])
  }

  // ---- canonical order ----

  /** By the first components that differ, and a prefix before what extends it. */
  function NameOrder(a: Name, b: Name): (r: int)
    ensures -1 <= r <= 1
  {
    if a == [] || b == [] then Order(|a|, |b|)
    else if a[0] != b[0] then Canonical(a[0], b[0])
    else NameOrder(a[1..], b[1..])
  }

  lemma {:induction false} NameOrderIsTotal(a: Name, b: Name, c: Name)
    ensures NameOrder(a, b) == 0 <==> a == b
    ensures NameOrder(a, b) == -NameOrder(b, a)
    ensures NameOrder(a, b) <= 0 && NameOrder(b, c) <= 0 ==> NameOrder(a, c) <= 0
  {
    if a != [] && b != [] {
      CanonicalIsTotalOrder(a[0], b[0], if c == [] then a[0] else c[0]);
      NameOrderIsTotal(a[1..], b[1..], if c == [] then [] else c[1..]);
      assert a == [a[0]] + a[1..] && b == [b[0]] + b[1..];
      if c != [] {
        CanonicalIsTotalOrder(b[0], c[0], a[0]);
        CanonicalIsTotalOrder(a[0], c[0], b[0]);
      }
    }
  }

  lemma {:induction false} OrderAfterPrefix(p: Name, a: Name, b: Name)
    ensures NameOrder(p + a, p + b) == NameOrder(a, b)
  {
    if p == [] {
      assert p + a == a && p + b == b;
    } else {
      assert (p + a)[1..] == p[1..] + a && (p + b)[1..] == p[1..] + b;
      OrderAfterPrefix(p[1..], a, b);
    }
  }

  function Min(m: nat, n: nat): nat {
    if m < n then m else n
  }

  /** A name as an object holds it. */
  type HeldName = seq<Held>

  function Components(n: HeldName): (r: Name)
    ensures |r| == |n|
  {
    seq(|n|, i requires 0 <= i < |n| => n[i].comp)
  }

  /** The order `compare` goes by, component after component. */
  function HeldNameOrder(a: HeldName, b: HeldName): (r: int)
    ensures -1 <= r <= 1
  {
    if a == [] || b == [] then Order(|a|, |b|)
    else if HeldOrder(a[0], b[0]) != 0 then HeldOrder(a[0], b[0])
    else HeldNameOrder(a[1..], b[1..])
  }

  /** For components without an encoding or with the shortest it is canonical order. */
  lemma {:induction false} HeldNameOrderIsCanonical(a: HeldName, b: HeldName)
    requires forall h :: h in a || h in b ==> IsOrdinary(h)
    ensures HeldNameOrder(a, b) == NameOrder(Components(a), Components(b))
  {
    hide IsOrdinary, HeldOrder, Canonical;
    if a != [] && b != [] {
      HeldOrderIsCanonical(a[0], b[0]);
      CanonicalIsTotalOrder(a[0].comp, b[0].comp, a[0].comp);
      HeldNameOrderIsCanonical(a[1..], b[1..]);
      assert Components(a)[1..] == Components(a[1..]) && Components(b)[1..] == Components(b[1..]);
    }
  }

  /** `compare(pos1, count1, other, pos2, count2)`: the order of two parts. */
  method CompareParts(a: HeldName, pos1: nat, count1: nat, b: HeldName, pos2: nat, count2: nat) returns (r: int)
    requires pos1 <= |a| && pos2 <= |b| && forall h, g :: h in a && g in b ==> ReadsWithin(h.comp, g.comp)
    requires forall h :: h in a || h in b ==> h.comp.typ < TWO32
    ensures var x, y := a[pos1..][..Min(count1, |a| - pos1)], b[pos2..][..Min(count2, |b| - pos2)];
      && Sign(r) == HeldNameOrder(x, y)
      && ((forall h :: h in a || h in b ==> IsOrdinary(h)) ==> Sign(r) == NameOrder(Components(x), Components(y)))
  {
    hide HeldOrder, IsOrdinary, ReadsWithin, NameOrder;
    var n1, n2 := Min(count1, |a| - pos1), Min(count2, |b| - pos2);
    var count := Min(n1, n2);
    ghost var x, y := a[pos1..][..n1], b[pos2..][..n2];
    if forall h :: h in a || h in b ==> IsOrdinary(h) {
      HeldNameOrderIsCanonical(x, y);
    }
    var i := 0;
    while i < count
      invariant 0 <= i <= count
      invariant HeldNameOrder(x[i..], y[i..]) == HeldNameOrder(x, y)
    {
      var c, d := a[pos1 + i], b[pos2 + i];
      assert c == x[i] && d == y[i] && c in a && d in b;
      var comp := Compare(c, d);
      if comp != 0 {
        return comp;
      }
      assert x[i..][1..] == x[i + 1..] && y[i..][1..] == y[i + 1..];
      i := i + 1;
    }
    return n1 as int - n2 as int;
  }

  // ---- prefixes ----

  /** `isPrefixOf`. */
  method IsPrefixOf(a: Name, b: Name) returns (r: bool)
    ensures r <==> a <= b
  {
    if |a| > |b| {
      return false;
    }
    var i := 0;
    while i < |a|
      invariant 0 <= i <= |a| && a[..i] == b[..i]
    {
      if a[i] != b[i] {
        return false;
      }
      i := i + 1;
    }
    return true;
  }

  /** The empty name is followed by the least digest; another name by itself with the
      last component advanced. */
  function SuccessorName(x: Name): Name {
    if x == [] then [Component(IMPLICIT_SHA256_DIGEST, Zeros(DIGEST_SIZE))]
    else x[..|x| - 1] + [Successor(x[|x| - 1])]
  }

  /** `Name::getSuccessor`. */
  method GetSuccessorName(x: Name) returns (r: Name)
    requires ValidName(x)
    ensures r == SuccessorName(x)
  {
    if x == [] {
      return [Component(IMPLICIT_SHA256_DIGEST, Zeros(DIGEST_SIZE))];
    }
    var last := GetSuccessor(x[|x| - 1]);
    return x[..|x| - 1] + [last];
  }

  /** One component and what sorts between it and its successor. */
  lemma OneComponent(c: Component, z: Name)
    requires Valid(c) && ValidName(z)
    ensures NameOrder([c], z) <= 0 && NameOrder(z, [Successor(c)]) < 0 <==> [c] <= z
  {
    if z != [] {
      var s := Successor(c);
      SuccessorIsNext(c, z[0]);
      CanonicalIsTotalOrder(c, z[0], s);
      CanonicalIsTotalOrder(s, z[0], s);
      CanonicalIsTotalOrder(z[0], s, c);
      CanonicalIsTotalOrder(c, s, c);
    }
  }

  /** What sorts between two names that share a prefix has that prefix. */
  lemma {:induction false} BetweenHasPrefix(p: Name, a: Name, b: Name, z: Name)
    requires NameOrder(p + a, z) <= 0 && NameOrder(z, p + b) <= 0
    ensures p <= z
  {
    if p != [] && z != [] {
      assert (p + a)[1..] == p[1..] + a && (p + b)[1..] == p[1..] + b;
      CanonicalIsTotalOrder(p[0], z[0], p[0]);
      BetweenHasPrefix(p[1..], a, b, z[1..]);
      assert p == [p[0]] + p[1..] && z == [z[0]] + z[1..];
    }
  }

  /** The names at or after a non-empty name and before its successor are exactly the
      names it is a prefix of. */
  lemma SuccessorBoundsPrefix(x: Name, z: Name)
    requires x != [] && ValidName(x) && ValidName(z)
    ensures x <= z <==> NameOrder(x, z) <= 0 && NameOrder(z, SuccessorName(x)) < 0
  {
    var p, c := x[..|x| - 1], x[|x| - 1];
    var s := [Successor(c)];
    assert x == p + [c];
    if p <= z {
      var rest := z[|p|..];
      assert z == p + rest;
      OrderAfterPrefix(p, [c], rest);
      OrderAfterPrefix(p, rest, s);
      OneComponent(c, rest);
      PrefixSplit(p, [c], rest);
    } else if NameOrder(x, z) <= 0 && NameOrder(z, p + s) < 0 {
      BetweenHasPrefix(p, [c], s, z);
    }
  }

  lemma PrefixSplit(p: Name, a: Name, b: Name)
    ensures p + a <= p + b <==> a <= b
  {
    if p + a <= p + b {
      assert forall i :: 0 <= i < |a| ==> a[i] == (p + a)[|p| + i] == (p + b)[|p| + i] == b[i];
    }
  }

  /** For the empty name the bound encloses nothing else: its successor is the very next
      name, so a search up to it misses every name under the root prefix. */
  lemma EmptyNameSuccessor(z: Name)
    requires ValidName(z)
    ensures NameOrder(z, SuccessorName([])) < 0 <==> z == []
  {
    if z != [] {
      var least := Component(IMPLICIT_SHA256_DIGEST, Zeros(DIGEST_SIZE));
      if z[0].typ == IMPLICIT_SHA256_DIGEST {
        LexIsNumeric(z[0].value, least.value);
        ValueOfZeros(DIGEST_SIZE);
      }
      CanonicalIsTotalOrder(z[0], least, z[0]);
    }
  }

  /** No name sorts between a name and its successor exactly when the name is empty:
      any extension of another name does. */
  lemma SuccessorIsImmediateExactly(x: Name)
    requires ValidName(x)
    ensures (forall z :: ValidName(z) && NameOrder(x, z) < 0 ==> NameOrder(SuccessorName(x), z) <= 0) <==> x == []
  {
    if x == [] {
      forall z | ValidName(z) && NameOrder(x, z) < 0
        ensures NameOrder(SuccessorName(x), z) <= 0
      {
        EmptyNameSuccessor(z);
        NameOrderIsTotal(SuccessorName(x), z, z);
      }
    } else {
      var z := x + [Component(GENERIC, [])];
      SuccessorBoundsPrefix(x, z);
      NameOrderIsTotal(x, z, z);
      NameOrderIsTotal(SuccessorName(x), z, z);
      assert ValidName(z) && NameOrder(x, z) < 0;
    }
  }
}
