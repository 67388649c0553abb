/** The send window of `LpReliability`: a `std::map` keyed by wrapping TxSequence
    numbers together with an iterator to its first element in transmission order.
    Everything is compared with a window of unbounded transmission numbers. */
module SendWindow {
  import opened Basics

  // ---- sets of transmission numbers ----

  ghost function Least(w: set<nat>): (m: nat)
    requires w != {}
    ensures m in w && forall n :: n in w ==> m <= n
  {
    LeastExists(w);
    var m :| m in w && forall n :: n in w ==> m <= n;
    m
  }

  lemma {:induction false} LeastExists(w: set<int>)
    requires w != {}
    ensures exists m :: m in w && forall n :: n in w ==> m <= n
    decreases |w|
  {
    if forall x :: x !in w { assert false; }
    var x :| x in w;
    if w != {x} {
      var rest := w - {x};
      LeastExists(rest);
      var m :| m in rest && forall n :: n in rest ==> m <= n;
      var least := if x < m then x else m;
      forall n | n in w ensures least <= n { assert n == x || n in rest; }
      assert least in w;
    }
  }

  /** The elements of a set of transmission numbers in transmission order. */
  ghost function Ascending(w: set<nat>): seq<nat>
    decreases |w|
  {
    if w == {} then [] else [Least(w)] + Ascending(w - {Least(w)})
  }

  lemma {:induction false} AscendingSorted(w: set<nat>)
    ensures forall n :: n in w <==> n in Ascending(w)
    ensures forall i, j :: 0 <= i < j < |Ascending(w)| ==> Ascending(w)[i] < Ascending(w)[j]
    decreases |w|
  {
    if w != {} {
      var m := Least(w);
      var rest := w - {m};
      AscendingSorted(rest);
      var s, t := Ascending(w), Ascending(rest);
      assert s == [m] + t;
      forall n ensures n in w <==> n in s {
        assert n in w <==> n == m || n in rest;
        assert n in s <==> n == m || n in t;
      }
      forall i, j | 0 <= i < j < |s| ensures s[i] < s[j] {
        assert s[j] == t[j - 1] && t[j - 1] in t;
        if i > 0 { assert s[i] == t[i - 1]; }
      }
    }
  }

  lemma {:induction false} AscendingAppend(w: set<nat>, x: nat)
    requires forall n :: n in w ==> n < x
    ensures Ascending(w + {x}) == Ascending(w) + [x]
    decreases |w|
  {
    var v := w + {x};
    if w == {} {
      assert v == {x};
      assert Least(v) == x;
      assert v - {x} == {};
      assert Ascending({}) == [];
    } else {
      var m := Least(w);
      assert Least(v) == m;
      assert v - {m} == (w - {m}) + {x};
      AscendingAppend(w - {m}, x);
      assert Ascending(v) == [m] + Ascending(v - {m});
      assert Ascending(w) == [m] + Ascending(w - {m});
    }
  }

  // ---- std::map order on keys ----

  /** `++it` on a map with these keys: the least key greater than `k`, or end(). */
  function MapNext(keys: set<Sequence>, k: Sequence): (r: Option<Sequence>)
    ensures r.None? ==> forall x :: x in keys ==> x <= k
    ensures r.Some? ==> r.value in keys && k < r.value && forall x :: x in keys && k < x ==> r.value <= x
  {
    if exists x :: x in keys && k < x then
      assert exists m :: m in keys && k < m && forall x :: x in keys && k < x ==> m <= x by {
        var above := set x | x in keys && k < x;
        var y :| y in keys && k < y;
        assert y in above;
        LeastExists(above);
        var m :| m in above && forall x :: x in above ==> m <= x;
        assert m in keys && k < m;
        assert forall x :: x in keys && k < x ==> x in above;
      }
      var m :| m in keys && k < m && forall x :: x in keys && k < x ==> m <= x;
      Some(m)
    else
      None
  }

  /** `begin()` of a non-empty map with these keys. */
  function MapBegin(keys: set<Sequence>): (r: Sequence)
    requires keys != {}
    ensures r in keys && forall x :: x in keys ==> r <= x
  {
    LeastExists(keys);
    var m :| m in keys && forall x :: x in keys ==> m <= x;
    m
  }

  /** One iterator step with wrap-around from end() to begin(). */
  function CyclicNext(keys: set<Sequence>, k: Sequence): (r: Sequence)
    requires keys != {}
    ensures r in keys
  {
    var next := MapNext(keys, k);
    if next.Some? then next.value else MapBegin(keys)
  }

  // ---- the refinement relation ----

  /** `num` gives the unbounded transmission number behind each live TxSequence.
      All of them are among the 2^64 numbers before the next one, `hi`. */
  ghost predicate Numbered(num: map<Sequence, nat>, hi: nat) {
    forall k :: k in num ==> Wrap(num[k]) == k && hi - TWO64 <= num[k] < hi
  }

  /** `first` is the window start: the key of the earliest live transmission. */
  ghost predicate IsFirst(num: map<Sequence, nat>, first: Option<Sequence>) {
    match first
    case None => num == map[]
    case Some(f) => f in num && forall k :: k in num ==> num[f] <= num[k]
  }

  ghost predicate Window(num: map<Sequence, nat>, first: Option<Sequence>, hi: nat) {
    Numbered(num, hi) && IsFirst(num, first)
  }

  /** `next` follows `k` in transmission order, or starts the order over after its end. */
  ghost predicate FollowsInOrder(num: map<Sequence, nat>, k: Sequence, next: Sequence)
    requires k in num && next in num
  {
    if num[k] < num[next]
    then forall x :: x in num && num[k] < num[x] ==> num[next] <= num[x]
    else forall x :: x in num ==> num[next] <= num[x] <= num[k]
  }

  lemma FollowerUnique(num: map<Sequence, nat>, hi: nat, k: Sequence, x: Sequence, y: Sequence)
    requires Numbered(num, hi) && k in num && x in num && y in num
    requires FollowsInOrder(num, k, x) && FollowsInOrder(num, k, y)
    ensures x == y
  {
    assert num[x] == num[y];
  }

  /** Cyclic iteration over the map is transmission order: `++` (with wrap-around at
      end()) goes from a key to the key of the next later transmission, and from the
      latest one back to the window start. */
  lemma CyclicOrder(num: map<Sequence, nat>, first: Option<Sequence>, hi: nat, k: Sequence)
    requires Window(num, first, hi) && k in num
    ensures CyclicNext(num.Keys, k) in num
    ensures FollowsInOrder(num, k, CyclicNext(num.Keys, k))
    ensures num[CyclicNext(num.Keys, k)] <= num[k] ==> CyclicNext(num.Keys, k) == first.value
  {
    var keys := num.Keys;
    var next := CyclicNext(keys, k);
    var n, m := num[k], num[next];
    forall x | x in num && n < num[x]
      ensures n < m <= num[x]
    {
      OrderCase(num, hi, k, next, x);
    }
    forall x | x in num && m <= n
      ensures m <= num[x] <= n
    {
      OrderCase(num, hi, k, next, x);
    }
  }

  /** No third live transmission separates a key from its cyclic successor. */
  lemma OrderCase(num: map<Sequence, nat>, hi: nat, k: Sequence, next: Sequence, x: Sequence)
    requires Numbered(num, hi) && k in num && next in num && x in num
    requires next == CyclicNext(num.Keys, k)
    ensures num[k] < num[x] ==> num[k] < num[next] <= num[x]
    ensures num[next] <= num[k] ==> num[next] <= num[x] <= num[k]
  {
    WrapOrders(num[k], num[x]);
    WrapOrders(num[k], num[next]);
    WrapOrders(num[next], num[x]);
  }

  lemma WrapOrders(n: nat, m: nat)
    requires n < m + TWO64 && m < n + TWO64
    ensures Wrap(n) < Wrap(m) ==> Wrap(m) - Wrap(n) == m - n || Wrap(m) - Wrap(n) == m - n + TWO64
    ensures Wrap(n) > Wrap(m) ==> Wrap(m) - Wrap(n) == m - n || Wrap(m) - Wrap(n) == m - n - TWO64
    ensures Wrap(n) == Wrap(m) ==> n == m
  {
    if n < m { WrapOrder(n, m); } else if m < n { WrapOrder(m, n); }
  }

  /** A new TxSequence collides with a live one exactly when it equals the window
      start, which is exactly when the window spans all 2^64 numbers. */
  lemma FreshUnlessFull(num: map<Sequence, nat>, first: Option<Sequence>, hi: nat)
    requires Window(num, first, hi) && num != map[]
    ensures Wrap(hi) in num <==> Wrap(hi) == first.value
    ensures Wrap(hi) == first.value <==> hi - num[first.value] == TWO64
  {
    var f := num[first.value];
    if Wrap(hi) in num { WrapEqual(num[Wrap(hi)], hi); }
    if hi - f == TWO64 { WrapPeriod(f); }
  }

  lemma Insert(num: map<Sequence, nat>, first: Option<Sequence>, hi: nat)
    requires Window(num, first, hi)
    requires num == map[] || Wrap(hi) != first.value
    ensures Wrap(hi) !in num
    ensures Window(num[Wrap(hi) := hi], if num == map[] then Some(Wrap(hi)) else first, hi + 1)
  {
    if num != map[] {
      FreshUnlessFull(num, first, hi);
    }
  }

  /** Erasing a key and stepping the window start past it (if it was the start)
      leaves a window over the remaining transmissions. */
  lemma Delete(num: map<Sequence, nat>, first: Option<Sequence>, hi: nat, k: Sequence)
    requires Window(num, first, hi) && k in num
    ensures var keys := num.Keys - {k};
            Window(num - {k},
                   if keys == {} then None
                   else if first.value == k then Some(CyclicNext(keys, k))
                   else first,
                   hi)
  {
    var num' := num - {k};
    assert num'.Keys == num.Keys - {k};
    if num' != map[] && first.value == k {
      SkipSelf(num.Keys, k);
      CyclicOrder(num, first, hi, k);
    }
  }

  /** The iterator returned by `erase` is where `++` would have gone. */
  lemma SkipSelf(keys: set<Sequence>, k: Sequence)
    requires k in keys && keys - {k} != {}
    ensures CyclicNext(keys - {k}, k) == CyclicNext(keys, k)
  {
    var keys' := keys - {k};
    var next, next' := MapNext(keys, k), MapNext(keys', k);
    if next.Some? {
      assert next.value in keys';
    } else {
      assert next'.None?;
      var b := MapBegin(keys');
      assert b < k;
      assert MapBegin(keys) in keys';
    }
  }
}
