/** A bound on the retransmissions a buffer can still cause.  An entry has as many as are
    left to it; then its neighbour's link is deleted, and it may start again with one of
    the neighbours that are left. */
module MaintWork {
  import opened Routes
  import opened Paths
  import opened MaintEntries

  /** The neighbours the cache has a link to. */
  ghost function LiveOf(g: Graph, me: Addr): set<Addr> {
    set e | e in g && e.0 == me :: e.1
  }

  ghost function Lives(max: nat, k: nat): nat {
    if k == 0 then 0 else Lives(max, k - 1) + max + 1
  }

  ghost function Slack(max: nat, rexmt: nat): nat {
    if rexmt <= max then max - rexmt else 0
  }

  ghost function Weight(e: Entry, max: nat, live: set<Addr>): (w: nat)
    ensures w >= 1
  {
    Slack(max, e.rexmt) + Lives(max, |live| + if e.next in live then 0 else 1) + 1
  }

  /** The weight of a packet just buffered for a live neighbour. */
  ghost function FreshWeight(max: nat, live: set<Addr>): nat {
    max + Lives(max, |live|) + 1
  }

  ghost function Total(b: seq<Entry>, max: nat, live: set<Addr>): nat {
    if b == [] then 0 else Total(b[..|b| - 1], max, live) + Weight(b[|b| - 1], max, live)
  }

  lemma TotalAppend(b: seq<Entry>, e: Entry, max: nat, live: set<Addr>)
    ensures Total(b + [e], max, live) == Total(b, max, live) + Weight(e, max, live)
  {
    assert (b + [e])[..|b|] == b;
  }

  lemma {:induction false} TotalSplit(b: seq<Entry>, c: seq<Entry>, max: nat, live: set<Addr>)
    ensures Total(b + c, max, live) == Total(b, max, live) + Total(c, max, live)
  {
    if c == [] {
      assert b + c == b;
    } else {
      var init, last := c[..|c| - 1], c[|c| - 1];
      TotalSplit(b, init, max, live);
      assert c == init + [last];
      TotalAppend(init, last, max, live);
      TotalAppend(b + init, last, max, live);
      assert b + c == (b + init) + [last];
    }
  }

  lemma TotalOne(e: Entry, max: nat, live: set<Addr>)
    ensures Total([e], max, live) == Weight(e, max, live)
  {
    TotalAppend([], e, max, live);
    assert [] + [e] == [e];
  }

  lemma TotalRemoved(b: seq<Entry>, k: nat, max: nat, live: set<Addr>)
    requires k < |b|
    ensures Total(b, max, live) == Total(Removed(b, k), max, live) + Weight(b[k], max, live)
  {
    assert b == b[..k] + ([b[k]] + b[k + 1..]);
    TotalSplit(b[..k], [b[k]] + b[k + 1..], max, live);
    TotalSplit([b[k]], b[k + 1..], max, live);
    TotalSplit(b[..k], b[k + 1..], max, live);
    TotalOne(b[k], max, live);
  }

  lemma TotalInserted(b: seq<Entry>, k: nat, e: Entry, max: nat, live: set<Addr>)
    requires k <= |b|
    ensures Total(Inserted(b, k, e), max, live) == Total(b, max, live) + Weight(e, max, live)
  {
    var r := Inserted(b, k, e);
    assert r[k] == e && Removed(r, k) == b;
    TotalRemoved(r, k, max, live);
  }

  lemma {:induction false} LivesGrow(max: nat, j: nat, k: nat)
    requires j <= k
    ensures Lives(max, j) <= Lives(max, k)
  {
    if j < k { LivesGrow(max, j, k - 1); }
  }

  /** Losing neighbours adds no weight. */
  lemma WeightShrinks(e: Entry, max: nat, live: set<Addr>, fewer: set<Addr>)
    requires fewer <= live
    ensures Weight(e, max, fewer) <= Weight(e, max, live)
  {
    CardMonotone(fewer, live);
    if e.next in live && e.next !in fewer {
      CardMonotone(fewer, live - {e.next});
    }
    LivesGrow(max, |fewer| + if e.next in fewer then 0 else 1, |live| + if e.next in live then 0 else 1);
  }

  lemma {:induction false} TotalShrinks(b: seq<Entry>, max: nat, live: set<Addr>, fewer: set<Addr>)
    requires fewer <= live
    ensures Total(b, max, fewer) <= Total(b, max, live)
  {
    if b != [] {
      TotalShrinks(b[..|b| - 1], max, live, fewer);
      WeightShrinks(b[|b| - 1], max, live, fewer);
    }
  }

  /** A packet whose neighbour is lost weighs more than the same packet started again. */
  lemma ResentIsLighter(e: Entry, max: nat, live: set<Addr>, fewer: set<Addr>)
    requires fewer <= live && e.next !in fewer
    ensures Weight(e, max, live) > FreshWeight(max, fewer)
  {
    CardMonotone(fewer, live);
    if e.next in live {
      CardMonotone(fewer, live - {e.next});
      LivesGrow(max, |fewer| + 1, |live|);
    } else {
      LivesGrow(max, |fewer| + 1, |live| + 1);
    }
  }

  /** A retransmission that is not the last one lightens an entry. */
  lemma RetriedIsLighter(e: Entry, m: Entry, max: nat, live: set<Addr>)
    requires m.next == e.next && m.rexmt == e.rexmt + 1 < max
    ensures Weight(m, max, live) < Weight(e, max, live)
  {
  }

  lemma LiveAfterDelete(g: Graph, me: Addr, n: Addr)
    ensures LiveOf(DeleteLink(g, me, n), me) <= LiveOf(g, me)
    ensures n !in LiveOf(DeleteLink(g, me, n), me)
    ensures LiveOf(g, me) <= LiveOf(DeleteLink(g, me, n), me) + {n}
  {
    forall x | x in LiveOf(g, me) ensures x in LiveOf(DeleteLink(g, me, n), me) + {n} {
      assert x != n ==> (me, x) in DeleteLink(g, me, n);
    }
  }

  /** The first hop of an answer is a live neighbour. */
  lemma FirstHopLive(g: Graph, me: Addr, t: Addr, found: Route)
    requires RouteAnswer(g, me, t, Some(found))
    ensures NextHop(found, |found.addrs|) in LiveOf(g, me)
  {
    var p := found.Path();
    assert (p[0], p[0 + 1]) in g;
  }
}
