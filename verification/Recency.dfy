/** What the request table is supposed to remember, said of the history of its use alone:
    the most recently used addresses, and for each the requests recorded since its entry
    was made (section 4.3 of draft-ietf-manet-dsr-10). */
module Recency {
  import opened Routes

  datatype Event =
    | Touch(addr: Addr)
    | Record(addr: Addr, target: Addr, id: nat)

  function LastN<T>(s: seq<T>, n: nat): (r: seq<T>)
    ensures |r| == if |s| <= n then |s| else n
  {
    if |s| <= n then s else s[|s| - n..]
  }

  function Without(s: seq<Addr>, a: Addr): (r: seq<Addr>) {
    if s == [] then []
    else if s[|s| - 1] == a then Without(s[..|s| - 1], a)
    else Without(s[..|s| - 1], a) + [s[|s| - 1]]
  }

  /** The addresses used, each once, in the order of their last use. */
  function ByLastUse(h: seq<Event>): (s: seq<Addr>) {
    if h == [] then []
    else
      var a := h[|h| - 1].addr;
      Without(ByLastUse(h[..|h| - 1]), a) + [a]
  }

  /** The `cap` addresses used last. */
  function Recent(h: seq<Event>, cap: nat): (s: seq<Addr>)
    ensures |s| <= cap
  {
    LastN(ByLastUse(h), cap)
  }

  /** The requests recorded for `a` since it was last taken into the table. */
  function Since(h: seq<Event>, cap: nat, a: Addr): (s: seq<(Addr, nat)>) {
    if h == [] || a !in Recent(h, cap) then []
    else
      var ev := h[|h| - 1];
      Since(h[..|h| - 1], cap, a) + if ev.Record? && ev.addr == a then [(ev.target, ev.id)] else []
  }

  // ------------------------------------------------------------ properties

  lemma {:induction false} WithoutMembers(s: seq<Addr>, a: Addr)
    ensures forall x :: x in Without(s, a) <==> x in s && x != a
    ensures a !in s ==> Without(s, a) == s
  {
    if s != [] {
      assert s == s[..|s| - 1] + [s[|s| - 1]];
      WithoutMembers(s[..|s| - 1], a);
    }
  }

  /** Exactly the addresses used are listed. */
  lemma {:induction false} ByLastUseMembers(h: seq<Event>, x: Addr)
    ensures x in ByLastUse(h) <==> exists i :: 0 <= i < |h| && h[i].addr == x
  {
    if h != [] {
      var init, last := h[..|h| - 1], h[|h| - 1];
      ByLastUseMembers(init, x);
      WithoutMembers(ByLastUse(init), last.addr);
      assert forall i :: 0 <= i < |init| ==> h[i] == init[i];
      if x in ByLastUse(init) {
        var i :| 0 <= i < |init| && init[i].addr == x;
        assert h[i].addr == x;
      }
    }
  }

  lemma {:induction false} WithoutDistinct(s: seq<Addr>, a: Addr)
    requires Distinct(s)
    ensures Distinct(Without(s, a))
    ensures a in s ==> |Without(s, a)| == |s| - 1
  {
    if s != [] {
      var init, last := s[..|s| - 1], s[|s| - 1];
      assert s == init + [last];
      WithoutDistinct(init, a);
      WithoutMembers(init, a);
      assert last !in init by {
        forall i | 0 <= i < |init| ensures init[i] != last { assert s[i] != s[|s| - 1]; }
      }
      DistinctSnoc(Without(init, a), last);
    }
  }

  lemma DistinctSnoc(s: seq<Addr>, a: Addr)
    requires Distinct(s) && a !in s
    ensures Distinct(s + [a])
  {
    forall i, j | 0 <= i < j < |s + [a]| ensures (s + [a])[i] != (s + [a])[j] {
      assert (s + [a])[i] == s[i] && s[i] in s;
    }
  }

  lemma {:induction false} ByLastUseDistinct(h: seq<Event>)
    ensures Distinct(ByLastUse(h))
  {
    if h != [] {
      ByLastUseDistinct(h[..|h| - 1]);
      WithoutDistinct(ByLastUse(h[..|h| - 1]), h[|h| - 1].addr);
      WithoutMembers(ByLastUse(h[..|h| - 1]), h[|h| - 1].addr);
      DistinctSnoc(Without(ByLastUse(h[..|h| - 1]), h[|h| - 1].addr), h[|h| - 1].addr);
    }
  }

  /** Removing an element, seen from a split of the sequence. */
  lemma {:induction false} WithoutSplit(s: seq<Addr>, t: seq<Addr>, a: Addr)
    ensures Without(s + t, a) == Without(s, a) + Without(t, a)
  {
    if t == [] {
      assert s + t == s;
    } else {
      var init, last := t[..|t| - 1], t[|t| - 1];
      assert (s + t)[..|s + t| - 1] == s + init;
      WithoutSplit(s, init, a);
    }
  }

  /** How the list of recently used addresses changes: the address used moves to the end,
      and a new one pushes out the oldest when the list is full. */
  function Use(t: seq<Addr>, a: Addr, cap: nat): (r: seq<Addr>)
    requires cap >= 1
  {
    (if a in t then Without(t, a) else if |t| >= cap then t[1..] else t) + [a]
  }

  lemma UseIsRecent(h: seq<Event>, ev: Event, cap: nat)
    requires cap >= 1
    ensures Recent(h + [ev], cap) == Use(Recent(h, cap), ev.addr, cap)
  {
    assert (h + [ev])[..|h|] == h;
    ByLastUseDistinct(h);
    LastOfMoved(ByLastUse(h), ev.addr, cap);
  }

  lemma LastOfMoved(d: seq<Addr>, a: Addr, cap: nat)
    requires cap >= 1 && Distinct(d)
    ensures LastN(Without(d, a) + [a], cap) == Use(LastN(d, cap), a, cap)
  {
    if |d| <= cap {
      WithoutMembers(d, a);
      WithoutDistinct(d, a);
    } else {
      var older, t := d[..|d| - cap], d[|d| - cap..];
      assert d == older + t;
      assert LastN(d, cap) == t;
      LastOfSplit(older, t, a, cap);
    }
  }

  lemma LastOfSplit(older: seq<Addr>, t: seq<Addr>, a: Addr, cap: nat)
    requires |t| == cap >= 1 && Distinct(older + t)
    ensures LastN(Without(older + t, a) + [a], cap) == Use(t, a, cap)
  {
    WithoutSplit(older, t, a);
    assert Distinct(t) by {
      forall i, j | 0 <= i < j < |t| ensures t[i] != t[j] {
        assert (older + t)[|older| + i] != (older + t)[|older| + j];
      }
    }
    var u, v := Without(older, a), Without(t, a);
    if a in t {
      WithoutDistinct(t, a);
      LastOfSum(u, v, a, cap);
      assert v[0..] == v;
    } else {
      WithoutMembers(t, a);
      LastOfSum(u, v, a, cap);
    }
  }

  lemma LastOfSum(u: seq<Addr>, v: seq<Addr>, a: Addr, cap: nat)
    requires 1 <= cap && cap - 1 <= |v| <= cap
    ensures LastN(u + v + [a], cap) == v[|v| - (cap - 1)..] + [a]
  {
  }

  /** Using another address does not change what is remembered for one still present. */
  lemma SinceOther(h: seq<Event>, ev: Event, cap: nat, b: Addr)
    requires b != ev.addr && b in Recent(h + [ev], cap)
    ensures Since(h + [ev], cap, b) == Since(h, cap, b)
  {
    assert (h + [ev])[..|h|] == h;
  }

  lemma SinceSelf(h: seq<Event>, ev: Event, cap: nat)
    requires cap >= 1
    ensures ev.addr in Recent(h + [ev], cap)
    ensures Since(h + [ev], cap, ev.addr) ==
            Since(h, cap, ev.addr) + if ev.Record? then [(ev.target, ev.id)] else []
  {
    UseIsRecent(h, ev, cap);
    assert (h + [ev])[..|h|] == h;
  }

  lemma SinceAbsent(h: seq<Event>, cap: nat, a: Addr)
    requires a !in Recent(h, cap)
    ensures Since(h, cap, a) == []
  {
  }

  lemma RecentDistinct(h: seq<Event>, cap: nat)
    ensures Distinct(Recent(h, cap))
  {
    ByLastUseDistinct(h);
    var d, t := ByLastUse(h), Recent(h, cap);
    forall i, j | 0 <= i < j < |t| ensures t[i] != t[j] {
      assert t[i] == d[|d| - |t| + i] && t[j] == d[|d| - |t| + j];
    }
  }

  /** Taking an address out of a list without repetitions is taking out one position. */
  lemma {:induction false} WithoutAt(s: seq<Addr>, k: nat)
    requires k < |s| && Distinct(s)
    ensures Without(s, s[k]) == s[..k] + s[k + 1..]
  {
    var a, t := s[k], s[k + 1..];
    assert s == s[..k] + ([a] + t);
    WithoutSplit(s[..k], [a] + t, a);
    WithoutSplit([a], t, a);
    assert a !in s[..k] && a !in t;
    WithoutMembers(s[..k], a);
    WithoutMembers(t, a);
  }

  lemma LastNSnoc<T>(s: seq<T>, x: T, n: nat)
    ensures LastN(LastN(s, n) + [x], n) == LastN(s + [x], n)
  {
  }

  // ------------------------------------------------------------ each request once

  /** Every request was recorded only when it was not remembered. */
  ghost predicate FreshHistory(h: seq<Event>, cap: nat, n: nat) {
    forall i :: 0 <= i < |h| ==> FreshAt(h, cap, n, i)
  }

  ghost predicate FreshAt(h: seq<Event>, cap: nat, n: nat, i: nat)
    requires i < |h|
  {
    h[i].Record? ==> (h[i].target, h[i].id) !in LastN(Since(h[..i], cap, h[i].addr), n)
  }

  lemma FreshSnoc(h: seq<Event>, ev: Event, cap: nat, n: nat)
    requires FreshHistory(h, cap, n)
    requires ev.Record? ==> (ev.target, ev.id) !in LastN(Since(h, cap, ev.addr), n)
    ensures FreshHistory(h + [ev], cap, n)
  {
    forall i | 0 <= i < |h + [ev]| ensures FreshAt(h + [ev], cap, n, i) {
      assert (h + [ev])[..i] == h[..i];
      if i < |h| {
        assert FreshAt(h, cap, n, i);
      } else {
        assert h[..i] == h;
      }
    }
  }

  lemma FreshBefore(h: seq<Event>, cap: nat, n: nat)
    requires FreshHistory(h, cap, n) && h != []
    ensures FreshHistory(h[..|h| - 1], cap, n)
  {
    var init := h[..|h| - 1];
    forall i | 0 <= i < |init| ensures FreshAt(init, cap, n, i) {
      assert FreshAt(h, cap, n, i) && init[..i] == h[..i];
    }
  }

  /** Then the requests remembered for an initiator were each recorded once. */
  lemma {:induction false} RememberedOnce(h: seq<Event>, cap: nat, n: nat, a: Addr)
    requires cap >= 1 && FreshHistory(h, cap, n)
    ensures Distinct(LastN(Since(h, cap, a), n))
  {
    if h != [] && a in Recent(h, cap) {
      var init, ev := h[..|h| - 1], h[|h| - 1];
      assert h == init + [ev];
      FreshBefore(h, cap, n);
      RememberedOnce(init, cap, n, a);
      if ev.Record? && ev.addr == a {
        assert FreshAt(h, cap, n, |h| - 1);
        var s, x := Since(init, cap, a), (ev.target, ev.id);
        LastNSnoc(s, x, n);
        DistinctLast(LastN(s, n), x, n);
      }
    }
  }

  lemma DistinctLast<T>(s: seq<T>, x: T, n: nat)
    requires Distinct(s) && x !in s
    ensures Distinct(LastN(s + [x], n))
  {
    var t := s + [x];
    assert forall i, j :: 0 <= i < j < |t| ==> t[i] != t[j];
    var r := LastN(t, n);
    forall i, j | 0 <= i < j < |r| ensures r[i] != r[j] {
      var d := |t| - |r|;
      assert r[i] == t[d + i] && r[j] == t[d + j];
    }
  }

  // ------------------------------------------------------------ the order of use

  /** The position of the last use. */
  ghost function LastUse(h: seq<Event>, a: Addr): (i: int)
    ensures -1 <= i < |h| && (i >= 0 ==> h[i].addr == a) && forall k :: i < k < |h| ==> h[k].addr != a
  {
    if h == [] then -1
    else if h[|h| - 1].addr == a then |h| - 1
    else LastUse(h[..|h| - 1], a)
  }

  /** The list really is in the order of last use. */
  lemma {:induction false} ByLastUseOrdered(h: seq<Event>, i: nat, j: nat)
    requires i < j < |ByLastUse(h)|
    ensures LastUse(h, ByLastUse(h)[i]) < LastUse(h, ByLastUse(h)[j])
  {
    var init, a, d := h[..|h| - 1], h[|h| - 1].addr, ByLastUse(h);
    ByLastUseDistinct(h);
    if j < |d| - 1 {
      assert d[i] != d[|d| - 1] && d[j] != d[|d| - 1];
      var i', j' := WithoutOrder(ByLastUse(init), a, i, j);
      ByLastUseOrdered(init, i', j');
    } else {
      assert d[i] != d[j];
    }
  }

  lemma {:induction false} WithoutOrder(s: seq<Addr>, a: Addr, i: nat, j: nat) returns (i': nat, j': nat)
    requires i < j < |Without(s, a)|
    ensures i' < j' < |s| && s[i'] == Without(s, a)[i] && s[j'] == Without(s, a)[j]
  {
    var init, last := s[..|s| - 1], s[|s| - 1];
    if last == a || j < |Without(s, a)| - 1 {
      i', j' := WithoutOrder(init, a, i, j);
    } else {
      j' := |s| - 1;
      assert Without(s, a)[i] in Without(init, a);
      WithoutMembers(init, a);
      i' :| 0 <= i' < |init| && init[i'] == Without(s, a)[i];
    }
  }
}
