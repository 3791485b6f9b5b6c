/** Which routes fit the six bits of the segments-left field, and what becomes of a salvaged
    packet whose route does not. */
module ShortRoutes {
  import opened Routes
  import opened Paths

  /** Segments left are sent in six bits. */
  const SLEFT_MOD: nat := 64

  /** No path from `me` that visits no node twice has more than 63 nodes between its ends. */
  ghost predicate Short(g: Graph, me: Addr) {
    forall p :: IsPath(g, p) && p[0] == me && Distinct(p) ==> |p| <= SLEFT_MOD + 1
  }

  /** Links of a sub-graph, at the same costs. */
  ghost predicate SubGraph(h: Graph, g: Graph) {
    forall e :: e in h ==> e in g && h[e] == g[e]
  }

  lemma ShortBelow(g: Graph, h: Graph, me: Addr)
    requires SubGraph(h, g) && Short(g, me)
    ensures Short(h, me)
  {
    forall p | IsPath(h, p) && p[0] == me && Distinct(p) ensures |p| <= SLEFT_MOD + 1 {
      assert IsPath(g, p);
    }
  }

  /** Then the segments left of any answer fit their field. */
  lemma ShortAnswer(g: Graph, me: Addr, t: Addr, r: Route)
    requires RouteAnswer(g, me, t, Some(r)) && Short(g, me)
    ensures |r.addrs| < SLEFT_MOD
  {
    assert IsPath(g, r.Path());
  }

  /** A network of at most 65 nodes is short. */
  lemma FewNodesShort(g: Graph, me: Addr, nodes: set<Addr>)
    requires me in nodes && |nodes| <= SLEFT_MOD + 1 && forall e :: e in g ==> e.1 in nodes
    ensures Short(g, me)
  {
    forall p | IsPath(g, p) && p[0] == me && Distinct(p) ensures |p| <= SLEFT_MOD + 1 {
      var on := set a | a in p;
      forall a | a in on ensures a in nodes {
        var i :| 0 <= i < |p| && p[i] == a;
        if i > 0 {
          assert (p[i - 1], p[i - 1 + 1]) in g;
        }
      }
      DistinctSize(p);
      CardMonotone(on, nodes);
    }
  }

  // ------------------------------------------------------------ chains

  /** The links of one path only. */
  ghost function Chain(g: Graph, p: seq<Addr>): (h: Graph)
    requires IsPath(g, p)
    ensures SubGraph(h, g)
  {
    map e | e in g && OnChain(p, e) :: g[e]
  }

  ghost predicate OnChain(p: seq<Addr>, e: (Addr, Addr)) {
    exists i :: 0 <= i < |p| - 1 && e == (p[i], p[i + 1])
  }

  /** A chain can only be followed along its path. */
  lemma {:induction false} FollowsChain(g: Graph, p: seq<Addr>, q: seq<Addr>, j: nat)
    requires IsPath(g, p) && Distinct(p) && IsPath(Chain(g, p), q) && q[0] == p[0] && j < |q|
    ensures j < |p| && q[j] == p[j]
  {
    if j > 0 {
      FollowsChain(g, p, q, j - 1);
      var e := (q[j - 1], q[j - 1 + 1]);
      assert e in Chain(g, p) && OnChain(p, e);
      var i :| 0 <= i < |p| - 1 && e == (p[i], p[i + 1]);
      SamePlace(p, i, j - 1);
    }
  }

  lemma SamePlace(p: seq<Addr>, i: nat, j: nat)
    requires Distinct(p) && i < |p| && j < |p| && p[i] == p[j]
    ensures i == j
  {
  }

  lemma ChainConnects(g: Graph, p: seq<Addr>, q: seq<Addr>)
    requires IsPath(g, p) && Distinct(p)
    ensures Connects(Chain(g, p), p, p[0], p[|p| - 1])
    ensures Connects(Chain(g, p), q, p[0], p[|p| - 1]) ==> q == p
  {
    var h := Chain(g, p);
    forall i | 0 <= i < |p| - 1 ensures (p[i], p[i + 1]) in h {
      assert OnChain(p, (p[i], p[i + 1]));
    }
    if Connects(h, q, p[0], p[|p| - 1]) {
      forall j | 0 <= j < |q| ensures j < |p| && q[j] == p[j] {
        FollowsChain(g, p, q, j);
      }
      SamePlace(p, |q| - 1, |p| - 1);
    }
  }

  /** In a chain the search answers with its path. */
  lemma ChainAnswer(g: Graph, p: seq<Addr>)
    requires IsPath(g, p) && Distinct(p) && |p| >= 2
    ensures RouteAnswer(Chain(g, p), p[0], p[|p| - 1], Some(OfPath(p)))
  {
    ChainConnects(g, p, p);
    var h, s, t := Chain(g, p), p[0], p[|p| - 1];
    forall q | Connects(h, q, s, t) ensures q == p {
      ChainConnects(g, p, q);
    }
    assert OfPath(p).Path() == p;
  }

  /** And with no other. */
  lemma ChainAnswers(g: Graph, p: seq<Addr>, r: Option<Route>)
    requires IsPath(g, p) && Distinct(p) && |p| >= 2 && RouteAnswer(Chain(g, p), p[0], p[|p| - 1], r)
    ensures r == Some(OfPath(p))
  {
    ChainConnects(g, p, p);
    assert r.Some?;
    ChainConnects(g, p, r.value.Path());
    PathInjective(r.value, OfPath(p));
  }

  /** The condition is exact: it says that every search from `me`, whatever links were
      deleted before, answers with a route that fits. */
  lemma ShortIsExact(g: Graph, me: Addr)
    ensures Short(g, me) <==>
      forall h, t, r :: SubGraph(h, g) && RouteAnswer(h, me, t, Some(r)) ==> |r.addrs| < SLEFT_MOD
  {
    if Short(g, me) {
      forall h, t, r | SubGraph(h, g) && RouteAnswer(h, me, t, Some(r)) ensures |r.addrs| < SLEFT_MOD {
        ShortBelow(g, h, me);
        ShortAnswer(h, me, t, r);
      }
    } else {
      var p :| IsPath(g, p) && p[0] == me && Distinct(p) && |p| > SLEFT_MOD + 1;
      ChainAnswer(g, p);
      assert RouteAnswer(Chain(g, p), me, p[|p| - 1], Some(OfPath(p))) && |OfPath(p).addrs| >= SLEFT_MOD;
    }
  }

  // ------------------------------------------------------------ losing neighbours

  /** The link goes when `me` loses the neighbours `ns`: both directions, if there was a link
      to the neighbour. */
  ghost predicate Goes(g: Graph, me: Addr, ns: set<Addr>, e: (Addr, Addr)) {
    || (e.0 == me && e.1 in ns)
    || (e.1 == me && e.0 in ns && (me, e.0) in g)
  }

  ghost function Losing(g: Graph, me: Addr, ns: set<Addr>): (h: Graph)
    ensures SubGraph(h, g)
  {
    map e | e in g && !Goes(g, me, ns, e) :: g[e]
  }

  lemma LosingNone(g: Graph, me: Addr)
    ensures Losing(g, me, {}) == g
  {
  }

  lemma LosingTwice(g: Graph, me: Addr, ns: set<Addr>, ms: set<Addr>)
    ensures Losing(Losing(g, me, ns), me, ms) == Losing(g, me, ns + ms)
  {
    var h := Losing(g, me, ns);
    forall e | e in g ensures e in Losing(h, me, ms) <==> e in Losing(g, me, ns + ms) {
      if e.1 == me && e.0 in ms && (me, e.0) in g && (me, e.0) !in h {
        assert Goes(g, me, ns, (me, e.0));
      }
    }
  }

  /** What `lc_link_del` does for one neighbour. */
  lemma LosingOne(g: Graph, me: Addr, n: Addr)
    ensures Losing(g, me, {n}) == DeleteLink(g, me, n)
  {
  }

  /** Every search from `me`, after losing any of its neighbours, answers with a route whose
      segments left fit. */
  ghost predicate Fits(g: Graph, me: Addr) {
    forall ns, t, r :: RouteAnswer(Losing(g, me, ns), me, t, Some(r)) ==> |r.addrs| < SLEFT_MOD
  }

  lemma FitsAfterDelete(g: Graph, me: Addr, n: Addr)
    ensures Fits(g, me) ==> Fits(DeleteLink(g, me, n), me)
  {
    if Fits(g, me) {
      LosingOne(g, me, n);
      forall ns, t, r | RouteAnswer(Losing(DeleteLink(g, me, n), me, ns), me, t, Some(r))
        ensures |r.addrs| < SLEFT_MOD
      {
        LosingTwice(g, me, {n}, ns);
      }
    }
  }

  lemma FitsAnswer(g: Graph, me: Addr, t: Addr, r: Route)
    requires RouteAnswer(g, me, t, Some(r)) && Fits(g, me)
    ensures |r.addrs| < SLEFT_MOD
  {
    LosingNone(g, me);
  }

  /** If no path is long, no answer is, and in no sub-graph. */
  lemma ShortFits(g: Graph, me: Addr)
    requires Short(g, me)
    ensures Fits(g, me)
  {
    forall ns, t, r | RouteAnswer(Losing(g, me, ns), me, t, Some(r)) ensures |r.addrs| < SLEFT_MOD {
      ShortBelow(g, Losing(g, me, ns), me);
      ShortAnswer(Losing(g, me, ns), me, t, r);
    }
  }

  /** Some neighbours of `me` were lost, and no other link. */
  ghost predicate LostSome(g: Graph, h: Graph, me: Addr) {
    exists ns :: h == Losing(g, me, ns)
  }

  lemma LostNone(g: Graph, me: Addr)
    ensures LostSome(g, g, me)
  {
    LosingNone(g, me);
  }

  lemma LostOne(g: Graph, me: Addr, n: Addr)
    ensures LostSome(g, DeleteLink(g, me, n), me)
  {
    LosingOne(g, me, n);
  }

  lemma LostMore(g: Graph, h: Graph, k: Graph, me: Addr)
    requires LostSome(g, h, me) && LostSome(h, k, me)
    ensures LostSome(g, k, me)
  {
    var ns :| h == Losing(g, me, ns);
    var ms :| k == Losing(h, me, ms);
    LosingTwice(g, me, ns, ms);
  }

  // ------------------------------------------------------------ the next hop

  /** The next hop computed from six bits is the first one of the alternative exactly when the
      alternative has at most 63 addresses. */
  lemma TruncatedHop(srt: Route, alt: Route)
    requires srt.LoopFree() && |alt.addrs| <= |srt.addrs| && Remaining(srt, |alt.addrs|) == alt.Path()[1..]
    ensures NextHop(srt, |alt.addrs| % SLEFT_MOD) == NextHop(alt, |alt.addrs|) <==> |alt.addrs| <= 63
  {
    var p, n, k := srt.Path(), |srt.addrs|, |alt.addrs|;
    assert Remaining(srt, k)[0] == p[n + 1 - k] && alt.Path()[1..][0] == alt.Path()[1];
    if k >= SLEFT_MOD {
      assert n + 1 - k < n + 1 - k % SLEFT_MOD;
      assert p[n + 1 - k] != p[n + 1 - k % SLEFT_MOD];
    }
  }

  /** Nodes in a row, numbered from 0, and the links between them. */
  ghost function Row(n: nat): (p: seq<Addr>)
    requires n <= 100
    ensures |p| == n && forall i :: 0 <= i < n ==> p[i] as int == i
  {
    seq(n, i requires 0 <= i < n => i as Addr)
  }

  ghost function RowGraph(n: nat): (g: Graph)
    requires 1 <= n <= 100
  {
    var pairs := set a, b | a in Row(n) && b in Row(n) && a as int + 1 == b as int :: (a, b);
    map e | e in pairs :: 1
  }

  lemma RowIsPath(n: nat)
    requires 1 <= n <= 100
    ensures IsPath(RowGraph(n), Row(n)) && Distinct(Row(n))
  {
  }

  /** An input that fails.  On a row of 66 nodes the link from the first to the last was lost;
      the search finds the row, and the next hop computed for it is the lost neighbour. */
  lemma LostAgain(n: nat)
    requires n == 66
    ensures IsPath(RowGraph(n), Row(n))
    ensures var g, p := Chain(RowGraph(n), Row(n)), Row(n);
      && var me, lost, alt := p[0], p[n - 1], OfPath(p);
      && (me, lost) !in g && RouteAnswer(g, me, lost, Some(alt))
      && NextHop(alt, |alt.addrs| % SLEFT_MOD) == lost
  {
    var p := Row(n);
    RowIsPath(n);
    ChainAnswer(RowGraph(n), p);
    assert p[0] as int == 0 && p[n - 1] as int == n - 1;
    assert (p[0], p[n - 1]) !in RowGraph(n);
  }
}
