/** Paths in the graph of cached links, their costs, and what shortest-path labels mean.
    This is the plain view the link cache is measured against: a map from ordered pairs
    of addresses to costs. */
module Paths {
  import opened Routes

  type Graph = map<(Addr, Addr), nat>

  ghost predicate IsPath(g: Graph, p: seq<Addr>) {
    |p| >= 1 && forall i :: 0 <= i < |p| - 1 ==> (p[i], p[i + 1]) in g
  }

  ghost predicate Connects(g: Graph, p: seq<Addr>, s: Addr, t: Addr) {
    IsPath(g, p) && p[0] == s && p[|p| - 1] == t
  }

  ghost function PathCost(g: Graph, p: seq<Addr>): (c: nat)
    requires IsPath(g, p)
  {
    if |p| == 1 then 0
    else PathCost(g, p[..|p| - 1]) + g[(p[|p| - 2], p[|p| - 1])]
  }

  ghost predicate Reachable(g: Graph, s: Addr, t: Addr) {
    exists p :: Connects(g, p, s, t)
  }

  /** A path from `s` to `t` that no other undercuts. */
  ghost predicate Cheapest(g: Graph, p: seq<Addr>, s: Addr, t: Addr) {
    && Connects(g, p, s, t)
    && forall q :: Connects(g, q, s, t) ==> PathCost(g, p) <= PathCost(g, q)
  }

  /** What a search of the cache answers: nothing exactly when the ends are the same or
      not connected, otherwise a cheapest path that visits no node twice. */
  ghost predicate RouteAnswer(g: Graph, s: Addr, t: Addr, r: Option<Route>) {
    match r
    case None => s == t || !Reachable(g, s, t)
    case Some(x) => s != t && x.src == s && x.dst == t && Cheapest(g, x.Path(), s, t) && x.LoopFree()
  }

  // -------------------------------------------------------------- labels

  const COST_INF := 0xFFFF_FFFF

  /** The fields Dijkstra's algorithm leaves in a node. */
  datatype Label = Label(cost: nat, hops: nat, pred: Option<Addr>)

  /** The local conditions the algorithm ends with: the source is the root, every other
      node with a cost got it from its predecessor over a link, and no link can lower a
      cost any more. */
  ghost predicate Settled(g: Graph, s: Addr, lab: map<Addr, Label>) {
    && (forall e :: e in g ==> e.0 in lab && e.1 in lab)
    && s in lab && lab[s] == Label(0, 0, Some(s))
    && (forall v {:trigger TreeEdge(g, lab, v)} ::
          v in lab && v != s && lab[v].cost != COST_INF ==> TreeEdge(g, lab, v))
    && (forall v :: v in lab && lab[v].cost == COST_INF ==> lab[v].pred == None)
    && (forall e :: e in g && lab[e.0].cost != COST_INF ==>
          lab[e.1].cost != COST_INF && lab[e.1].cost <= lab[e.0].cost + g[e])
  }

  ghost predicate TreeEdge(g: Graph, lab: map<Addr, Label>, v: Addr)
    requires v in lab
  {
    && lab[v].pred.Some?
    && var u := lab[v].pred.value;
       && u in lab && lab[u].cost != COST_INF
       && (u, v) in g
       && lab[v].cost == lab[u].cost + g[(u, v)]
       && lab[v].hops == lab[u].hops + 1
  }

  /** No path to a node costs less than its label. */
  lemma {:induction false} LabelIsLowerBound(g: Graph, s: Addr, lab: map<Addr, Label>, p: seq<Addr>)
    requires Settled(g, s, lab) && IsPath(g, p) && p[0] == s
    ensures p[|p| - 1] in lab && lab[p[|p| - 1]].cost != COST_INF
    ensures lab[p[|p| - 1]].cost <= PathCost(g, p)
    decreases |p|
  {
    if |p| > 1 {
      var q := p[..|p| - 1];
      assert IsPath(g, q) && q[|q| - 1] == p[|p| - 2];
      LabelIsLowerBound(g, s, lab, q);
      assert (p[|p| - 2], p[|p| - 2 + 1]) in g;
    }
  }

  /** The path read off the predecessors. */
  ghost function TreePath(g: Graph, s: Addr, lab: map<Addr, Label>, v: Addr): (p: seq<Addr>)
    requires Settled(g, s, lab) && v in lab && lab[v].cost != COST_INF
    ensures Connects(g, p, s, v) && |p| == lab[v].hops + 1 && PathCost(g, p) == lab[v].cost
    ensures forall i :: 0 <= i < |p| ==> p[i] in lab && lab[p[i]].cost != COST_INF && lab[p[i]].hops == i
    ensures forall i :: 0 < i < |p| ==> lab[p[i]].pred == Some(p[i - 1])
    decreases lab[v].hops
  {
    if v == s then [s]
    else
      assert TreeEdge(g, lab, v);
      var q := TreePath(g, s, lab, lab[v].pred.value);
      var p := q + [v];
      assert p[..|p| - 1] == q;
      p
  }

  /** Settled labels are exact: a node has a cost exactly when it can be reached, and
      then the cost is the least over all paths, attained by the path of predecessors,
      which takes `hops` links and visits no node twice. */
  lemma LabelsAreExact(g: Graph, s: Addr, lab: map<Addr, Label>, v: Addr)
    requires Settled(g, s, lab) && v in lab
    ensures lab[v].cost != COST_INF <==> Reachable(g, s, v)
    ensures lab[v].cost != COST_INF ==>
              var p := TreePath(g, s, lab, v);
              Cheapest(g, p, s, v) && PathCost(g, p) == lab[v].cost && Distinct(p)
  {
    forall p | Connects(g, p, s, v)
      ensures lab[v].cost != COST_INF && lab[v].cost <= PathCost(g, p)
    {
      LabelIsLowerBound(g, s, lab, p);
    }
    if lab[v].cost != COST_INF {
      var p := TreePath(g, s, lab, v);
      assert Connects(g, p, s, v);
      forall i, j | 0 <= i < j < |p| ensures p[i] != p[j] {
        assert lab[p[i]].hops == i && lab[p[j]].hops == j;
      }
    }
  }

  lemma UnreachableOutside(g: Graph, s: Addr, v: Addr, nodes: set<Addr>)
    requires forall e :: e in g ==> e.0 in nodes && e.1 in nodes
    requires s != v && (s !in nodes || v !in nodes)
    ensures !Reachable(g, s, v)
  {
    forall p | Connects(g, p, s, v) ensures false {
      EndsInside(g, p, nodes);
    }
  }

  lemma EndsInside(g: Graph, p: seq<Addr>, nodes: set<Addr>)
    requires forall e :: e in g ==> e.0 in nodes && e.1 in nodes
    requires IsPath(g, p) && |p| > 1
    ensures p[0] in nodes && p[|p| - 1] in nodes
  {
    assert (p[0], p[0 + 1]) in g && (p[|p| - 2], p[|p| - 2 + 1]) in g;
  }

  // ------------------------------------------------------ adding a route

  /** The links `lc_srt_add` enters for the first `k` steps of a path, each with cost 1,
      and the reverse ones too when the route is marked bidirectional. */
  function AddSteps(g: Graph, p: seq<Addr>, k: nat, bidir: bool): (h: Graph)
    requires k < |p|
  {
    if k == 0 then g else AddStep(AddSteps(g, p, k - 1, bidir), p[k - 1], p[k], bidir)
  }

  function AddStep(g: Graph, a: Addr, b: Addr, bidir: bool): (h: Graph) {
    if bidir then g[(a, b) := 1][(b, a) := 1] else g[(a, b) := 1]
  }

  function AddRoute(g: Graph, r: Route, bidir: bool): (h: Graph) {
    AddSteps(g, r.Path(), |r.addrs| + 1, bidir)
  }

  /** Is `e` one of the links entered for the first `k` steps of `p`? */
  ghost predicate StepLink(p: seq<Addr>, k: nat, bidir: bool, e: (Addr, Addr))
    requires k < |p|
  {
    exists i :: 0 <= i < k && (e == (p[i], p[i + 1]) || (bidir && e == (p[i + 1], p[i])))
  }

  lemma StepLinkMore(p: seq<Addr>, k: nat, bidir: bool, e: (Addr, Addr))
    requires 0 < k < |p|
    ensures StepLink(p, k, bidir, e) <==>
            StepLink(p, k - 1, bidir, e) || e == (p[k - 1], p[k]) || (bidir && e == (p[k], p[k - 1]))
  {
    if e == (p[k - 1], p[k]) || (bidir && e == (p[k], p[k - 1])) {
      assert e == (p[k - 1], p[k - 1 + 1]) || (bidir && e == (p[k - 1 + 1], p[k - 1]));
    }
  }

  /** Exactly the links of the route are added or refreshed, with cost 1; every other
      link keeps its cost. */
  lemma {:induction false} AddStepsLinks(g: Graph, p: seq<Addr>, k: nat, bidir: bool, e: (Addr, Addr))
    requires k < |p|
    ensures e in AddSteps(g, p, k, bidir) <==> e in g || StepLink(p, k, bidir, e)
    ensures StepLink(p, k, bidir, e) ==> AddSteps(g, p, k, bidir)[e] == 1
    ensures !StepLink(p, k, bidir, e) && e in g ==> AddSteps(g, p, k, bidir)[e] == g[e]
  {
    if k > 0 {
      AddStepsLinks(g, p, k - 1, bidir, e);
      StepLinkMore(p, k, bidir, e);
    }
  }

  ghost predicate UnitCosts(g: Graph) {
    forall e :: e in g ==> g[e] == 1
  }

  lemma {:induction false} UnitPathCost(g: Graph, p: seq<Addr>)
    requires UnitCosts(g) && IsPath(g, p)
    ensures PathCost(g, p) == |p| - 1
    decreases |p|
  {
    if |p| > 1 {
      assert (p[|p| - 2], p[|p| - 2 + 1]) in g;
      UnitPathCost(g, p[..|p| - 1]);
    }
  }

  /** After a route of k hops between different nodes has been added, a search finds a
      route with at most k hops. */
  lemma AddedRouteIsFound(g: Graph, r: Route, bidir: bool, found: Option<Route>)
    requires UnitCosts(g) && r.src != r.dst
    requires RouteAnswer(AddRoute(g, r, bidir), r.src, r.dst, found)
    ensures found.Some? && |found.value.addrs| <= |r.addrs|
  {
    var h, p := AddRoute(g, r, bidir), r.Path();
    forall i | 0 <= i < |p| - 1 ensures (p[i], p[i + 1]) in h {
      AddStepsLinks(g, p, |r.addrs| + 1, bidir, (p[i], p[i + 1]));
    }
    forall e | e in h ensures h[e] == 1 {
      AddStepsLinks(g, p, |r.addrs| + 1, bidir, e);
    }
    assert Connects(h, p, r.src, r.dst);
    UnitPathCost(h, p);
    UnitPathCost(h, found.value.Path());
  }

  // ----------------------------------------------------- deleting a link

  /** `lc_link_del`: the reverse link goes too, but only when the link itself was there. */
  function DeleteLink(g: Graph, s: Addr, d: Addr): (h: Graph)
    ensures (s, d) !in h
    ensures forall e :: e in h ==> e in g && h[e] == g[e]
  {
    if (s, d) in g then g - {(s, d)} - {(d, s)} else g
  }

  lemma ReverseLeft(g: Graph, s: Addr, d: Addr)
    ensures (d, s) in g - {(s, d)} <==> s != d && (d, s) in g
  {
  }

  /** After a link is deleted no search from its start leads over it first. */
  lemma NoRouteOverDeletedLink(g: Graph, s: Addr, d: Addr, t: Addr, found: Route)
    requires RouteAnswer(DeleteLink(g, s, d), s, t, Some(found))
    ensures NextHop(found, |found.addrs|) != d
  {
    var p := found.Path();
    assert (p[0], p[0 + 1]) in DeleteLink(g, s, d);
  }
}
