/** Dijkstra's algorithm on labels: the invariant of `__dijkstra` in link-cache.c and what
    each of its steps does to it.  The loops over the node and link tables are in
    LinkCache; they keep a map of labels that satisfies these lemmas. */
module Dijkstra {
  import opened Routes
  import opened Paths

  type Labelling = map<Addr, Label>

  /** The labels with the nodes in `done` settled: the root, the tree over settled
      predecessors, settled nodes no dearer than the others, costs within `bound`. */
  ghost predicate Inv(g: Graph, s: Addr, m: Labelling, done: set<Addr>, bound: nat) {
    && (forall e :: e in g ==> e.0 in m && e.1 in m)
    && s in m && m[s] == Label(0, 0, Some(s))
    && (forall v :: v in m && m[v].cost == COST_INF ==> m[v].pred == None)
    && (forall v {:trigger FromDone(g, m, done, v)} ::
          v in m && v != s && m[v].cost != COST_INF ==> FromDone(g, m, done, v))
    && done <= m.Keys
    && (forall u :: u in done ==> m[u].cost != COST_INF)
    && (forall u, v :: u in done && v in m && v !in done ==> m[u].cost <= m[v].cost)
    && (forall v :: v in m && m[v].cost != COST_INF ==> m[v].cost <= bound)
  }

  /** Links out of settled nodes cannot lower a cost, except those of `u` not in `tried`. */
  ghost predicate Relaxed(g: Graph, m: Labelling, done: set<Addr>, u: Addr, tried: set<Addr>)
    requires forall e :: e in g ==> e.0 in m && e.1 in m
  {
    forall e :: e in g && e.0 in done && (e.0 != u || e.1 in tried) ==>
      m[e.1].cost <= m[e.0].cost + g[e]
  }

  /** `v` got its label over a link from a settled node. */
  ghost predicate FromDone(g: Graph, m: Labelling, done: set<Addr>, v: Addr)
    requires v in m
  {
    TreeEdge(g, m, v) && m[v].pred.value in done
  }

  function Init(nodes: set<Addr>, s: Addr): (m: Labelling)
    ensures m.Keys == nodes
  {
    map a | a in nodes :: if a == s then Label(0, 0, Some(a)) else Label(COST_INF, COST_INF, None)
  }

  lemma InitInv(g: Graph, nodes: set<Addr>, s: Addr)
    requires s in nodes && forall e :: e in g ==> e.0 in nodes && e.1 in nodes
    ensures Inv(g, s, Init(nodes, s), {}, 0)
  {
  }

  /** A cheapest unsettled node is settled. */
  lemma SettleInv(g: Graph, s: Addr, m: Labelling, done: set<Addr>, bound: nat, u: Addr)
    requires Inv(g, s, m, done, bound) && u in m && u !in done && m[u].cost != COST_INF
    requires forall v :: v in m && v !in done && m[v].cost != COST_INF ==> m[u].cost <= m[v].cost
    requires forall v :: v in m ==> m[v].cost <= COST_INF
    requires Relaxed(g, m, done, s, m.Keys)
    ensures Inv(g, s, m, done + {u}, bound)
    ensures Relaxed(g, m, done + {u}, u, {})
    ensures forall v :: v in done + {u} ==> m[v].cost <= m[u].cost
  {
    assert forall e :: e in g && e.0 in done ==> e.1 in m.Keys;
    forall v | v in m && v != s && m[v].cost != COST_INF ensures FromDone(g, m, done + {u}, v) {
      assert FromDone(g, m, done, v);
    }
  }

  /** One call of `do_relax` for a link of `u`. */
  function RelaxLink(m: Labelling, u: Addr, x: Addr, w: nat): (m': Labelling)
    requires u in m && x in m
    ensures m'.Keys == m.Keys
  {
    if m[u].cost + w < m[x].cost then m[x := Label(m[u].cost + w, m[u].hops + 1, Some(u))] else m
  }

  /** Neither a settled node nor the root gets a new label. */
  lemma RelaxKeepsSettled(m: Labelling, done: set<Addr>, u: Addr, x: Addr, w: nat)
    requires done <= m.Keys && u in done && x in m
    requires forall v :: v in done ==> m[v].cost <= m[u].cost
    ensures forall v :: v in done ==> RelaxLink(m, u, x, w)[v] == m[v]
    ensures m[x].cost == 0 ==> RelaxLink(m, u, x, w) == m
  {
  }

  /** A better label for the unsettled node `x` over a link of the settled node `u`. */
  ghost predicate Improves(g: Graph, m: Labelling, m': Labelling, u: Addr, x: Addr) {
    && u in m && x in m && m'.Keys == m.Keys && u != x && (u, x) in g
    && (forall v :: v in m && v != x ==> m'[v] == m[v])
    && m'[x] == Label(m[u].cost + g[(u, x)], m[u].hops + 1, Some(u))
    && m'[x].cost < m[x].cost
  }

  lemma ImprovedTree(g: Graph, s: Addr, m: Labelling, m': Labelling, done: set<Addr>, bound: nat,
                     u: Addr, x: Addr, v: Addr)
    requires Inv(g, s, m, done, bound) && Improves(g, m, m', u, x) && u in done && x !in done
    requires v in m && v != s && m'[v].cost != COST_INF
    ensures FromDone(g, m', done, v)
  {
    if v != x {
      assert FromDone(g, m, done, v);
    }
  }

  lemma ImprovedInv(g: Graph, s: Addr, m: Labelling, m': Labelling, done: set<Addr>, bound: nat, u: Addr, x: Addr)
    requires Inv(g, s, m, done, bound) && Improves(g, m, m', u, x)
    requires u in done && x !in done && x != s && m'[x].cost <= bound < COST_INF
    requires forall v :: v in done ==> m[v].cost <= m[u].cost
    ensures Inv(g, s, m', done, bound)
  {
    forall v | v in m' && v != s && m'[v].cost != COST_INF ensures FromDone(g, m', done, v) {
      ImprovedTree(g, s, m, m', done, bound, u, x, v);
    }
  }

  lemma RelaxInv(g: Graph, s: Addr, m: Labelling, done: set<Addr>, bound: nat, u: Addr, x: Addr)
    requires Inv(g, s, m, done, bound)
    requires u in done && (u, x) in g && m[u].cost + g[(u, x)] <= bound < COST_INF
    requires forall v :: v in done ==> m[v].cost <= m[u].cost
    ensures Inv(g, s, RelaxLink(m, u, x, g[(u, x)]), done, bound)
  {
    if m[u].cost + g[(u, x)] < m[x].cost {
      ImprovedInv(g, s, m, RelaxLink(m, u, x, g[(u, x)]), done, bound, u, x);
    }
  }

  lemma RelaxTried(g: Graph, s: Addr, m: Labelling, done: set<Addr>, bound: nat,
                   u: Addr, x: Addr, tried: set<Addr>)
    requires Inv(g, s, m, done, bound) && Relaxed(g, m, done, u, tried)
    requires u in done && (u, x) in g
    requires forall v :: v in done ==> m[v].cost <= m[u].cost
    ensures Relaxed(g, RelaxLink(m, u, x, g[(u, x)]), done, u, tried + {x})
  {
    var m' := RelaxLink(m, u, x, g[(u, x)]);
    RelaxKeepsSettled(m, done, u, x, g[(u, x)]);
    assert forall v :: v in m ==> m'[v].cost <= m[v].cost;
    assert m'[x].cost <= m'[u].cost + g[(u, x)];
  }

  /** The state of the loop over the links of `u`: `m0` are the labels it started with. */
  ghost predicate Relaxing(g: Graph, s: Addr, m0: Labelling, m: Labelling, done: set<Addr>, bound: nat,
                           u: Addr, tried: set<Addr>)
  {
    && Inv(g, s, m, done, bound) && u in done && bound < COST_INF
    && Relaxed(g, m, done, u, tried)
    && m0.Keys == m.Keys
    && (forall v :: v in done ==> m[v] == m0[v] && m[v].cost <= m[u].cost)
  }

  lemma RelaxStep(g: Graph, s: Addr, m0: Labelling, m: Labelling, done: set<Addr>, bound: nat,
                  u: Addr, tried: set<Addr>, x: Addr)
    requires Relaxing(g, s, m0, m, done, bound, u, tried)
    requires (u, x) in g && m[u].cost + g[(u, x)] <= bound
    ensures Relaxing(g, s, m0, RelaxLink(m, u, x, g[(u, x)]), done, bound, u, tried + {x})
  {
    RelaxInv(g, s, m, done, bound, u, x);
    RelaxTried(g, s, m, done, bound, u, x, tried);
    RelaxKeepsSettled(m, done, u, x, g[(u, x)]);
  }

  // ----------------------------------------------- the loop over the links

  datatype Edge = Edge(src: Addr, dst: Addr, cost: nat)

  /** The link table, in order: every entry is a link of the graph, and none is missing. */
  ghost predicate Lists(es: seq<Edge>, g: Graph) {
    forall i :: 0 <= i < |es| ==> (es[i].src, es[i].dst) in g && g[(es[i].src, es[i].dst)] == es[i].cost
  }

  ghost predicate ListsAll(es: seq<Edge>, g: Graph) {
    forall e :: e in g ==> exists i :: 0 <= i < |es| && e == (es[i].src, es[i].dst)
  }

  function RelaxEdge(e: Edge, u: Addr, m: Labelling): (m': Labelling)
    requires u in m && e.dst in m
    ensures m'.Keys == m.Keys
  {
    if e.src == u then RelaxLink(m, u, e.dst, e.cost) else m
  }

  /** The labels after `do_relax` has been called for the links from the i-th on. */
  function RelaxFrom(es: seq<Edge>, u: Addr, m: Labelling, i: nat): (m': Labelling)
    requires i <= |es| && u in m && forall j :: 0 <= j < |es| ==> es[j].dst in m
    ensures m'.Keys == m.Keys
    decreases |es| - i
  {
    if i == |es| then m else RelaxFrom(es, u, RelaxEdge(es[i], u, m), i + 1)
  }

  lemma RelaxEdgeKeeps(g: Graph, e: Edge, s: Addr, m0: Labelling, m: Labelling, done: set<Addr>, bound: nat,
                       u: Addr, tried: set<Addr>)
    requires (e.src, e.dst) in g && g[(e.src, e.dst)] == e.cost && e.dst in m
    requires Relaxing(g, s, m0, m, done, bound, u, tried) && m[u].cost + e.cost <= bound
    ensures Relaxing(g, s, m0, RelaxEdge(e, u, m), done, bound, u, if e.src == u then tried + {e.dst} else tried)
    ensures RelaxEdge(e, u, m)[u] == m[u]
  {
    if e.src == u {
      RelaxStep(g, s, m0, m, done, bound, u, tried, e.dst);
    }
  }

  /** Relaxing the links of `u` one by one keeps the invariant of the algorithm, and in
      the end no link out of a settled node can lower a cost. */
  lemma {:induction false} RelaxFromKeeps(g: Graph, es: seq<Edge>, s: Addr, m0: Labelling, m: Labelling,
                                          done: set<Addr>, bound: nat, u: Addr, tried: set<Addr>, i: nat)
    requires Lists(es, g) && ListsAll(es, g) && i <= |es|
    requires Relaxing(g, s, m0, m, done, bound, u, tried)
    requires forall j :: 0 <= j < i && es[j].src == u ==> es[j].dst in tried
    requires forall j :: 0 <= j < |es| ==> es[j].dst in m && m[u].cost + es[j].cost <= bound
    ensures var m' := RelaxFrom(es, u, m, i);
            Inv(g, s, m', done, bound) && Relaxed(g, m', done, s, m'.Keys)
    decreases |es| - i
  {
    if i == |es| {
      RelaxedAll(g, es, s, m0, m, done, bound, u, tried);
    } else {
      var e := es[i];
      RelaxEdgeKeeps(g, e, s, m0, m, done, bound, u, tried);
      RelaxFromKeeps(g, es, s, m0, RelaxEdge(e, u, m), done, bound, u,
                     if e.src == u then tried + {e.dst} else tried, i + 1);
    }
  }

  lemma RelaxedAll(g: Graph, es: seq<Edge>, s: Addr, m0: Labelling, m: Labelling, done: set<Addr>, bound: nat,
                   u: Addr, tried: set<Addr>)
    requires ListsAll(es, g) && Relaxing(g, s, m0, m, done, bound, u, tried)
    requires forall j :: 0 <= j < |es| && es[j].src == u ==> es[j].dst in tried
    ensures Relaxed(g, m, done, s, m.Keys)
  {
    forall e | e in g && e.0 == u ensures e.1 in tried {
      var i :| 0 <= i < |es| && e == (es[i].src, es[i].dst);
    }
  }

  /** One round of the algorithm: the cheapest unsettled node is settled and its links
      are relaxed; with links of at most `step` the costs grow by no more than that. */
  lemma RoundKeeps(g: Graph, es: seq<Edge>, s: Addr, m: Labelling, done: set<Addr>, bound: nat, step: nat, u: Addr)
    requires Inv(g, s, m, done, bound) && Relaxed(g, m, done, s, m.Keys)
    requires u in m && u !in done && m[u].cost != COST_INF
    requires forall v :: v in m && v !in done && m[v].cost != COST_INF ==> m[u].cost <= m[v].cost
    requires forall v :: v in m ==> m[v].cost <= COST_INF
    requires Lists(es, g) && ListsAll(es, g) && bound + step < COST_INF
    requires forall j :: 0 <= j < |es| ==> es[j].dst in m && es[j].cost <= step
    ensures var m' := RelaxFrom(es, u, m, 0);
            Inv(g, s, m', done + {u}, bound + step) && Relaxed(g, m', done + {u}, s, m'.Keys)
  {
    SettleInv(g, s, m, done, bound, u);
    InvLooser(g, s, m, done + {u}, bound, bound + step);
    RelaxFromKeeps(g, es, s, m, m, done + {u}, bound + step, u, {}, 0);
  }

  lemma InvLooser(g: Graph, s: Addr, m: Labelling, done: set<Addr>, bound: nat, bound': nat)
    requires Inv(g, s, m, done, bound) && bound <= bound'
    ensures Inv(g, s, m, done, bound')
  {
    forall v | v in m && v != s && m[v].cost != COST_INF ensures FromDone(g, m, done, v) {
    }
  }

  /** When no unsettled node has a finite cost, the labels are the final ones. */
  lemma FinishedIsSettled(g: Graph, s: Addr, m: Labelling, done: set<Addr>, bound: nat)
    requires Inv(g, s, m, done, bound) && Relaxed(g, m, done, s, m.Keys)
    requires forall v :: v in m && v !in done ==> m[v].cost == COST_INF
    requires forall e :: e in g ==> bound + g[e] < COST_INF
    ensures Settled(g, s, m)
  {
    forall e | e in g && m[e.0].cost != COST_INF
      ensures m[e.1].cost != COST_INF && m[e.1].cost <= m[e.0].cost + g[e]
    {
      assert e.1 in m.Keys;
    }
    forall v | v in m && v != s && m[v].cost != COST_INF ensures TreeEdge(g, m, v) {
      assert FromDone(g, m, done, v);
    }
  }
}
