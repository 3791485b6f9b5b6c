/** The link cache of link-cache.c: nodes and links in two tables, nodes counted by the
    link ends that touch them, Dijkstra's algorithm run in place on the node fields.
    `Graph` is the plain map of links it stands for; every operation is stated on it. */
module LinkCache {
  import opened Routes
  import opened Paths
  import opened Dijkstra

  const NODES_MAX := 500
  const LINKS_MAX := 100
  const U32 := 0x1_0000_0000
  // 500 links of this cost stay below COST_INF; every caller in the source uses cost 1
  const COST_MAX := 8_589_934

  class Node {
    const addr: Addr
    var links: nat
    var cost: nat
    var hops: nat
    var pred: Node?

    constructor (a: Addr)
      ensures addr == a && links == 0
    {
      addr, links, cost, hops, pred := a, 0, COST_INF, 0, null;
    }
  }

  /** A link is referred to from its table only, so it is a value in that table. */
  datatype Link = Link(src: Node, dst: Node, cost: nat) {
    function Pair(): (e: (Addr, Addr)) {
      (src.addr, dst.addr)
    }
  }

  // ---------------------------------------------------- tables as sequences

  function Drop<T>(s: seq<T>, k: nat): (r: seq<T>)
    requires k < |s|
    ensures |r| == |s| - 1
    ensures forall i :: 0 <= i < k ==> r[i] == s[i]
    ensures forall i :: k <= i < |r| ==> r[i] == s[i + 1]
  {
    s[..k] + s[k + 1..]
  }

  lemma DropMembers<T>(s: seq<T>, k: nat)
    requires k < |s|
    ensures forall x :: x in Drop(s, k) ==> x in s
    ensures forall x :: x in s && x != s[k] ==> x in Drop(s, k)
    ensures Distinct(s) ==> Distinct(Drop(s, k)) && s[k] !in Drop(s, k)
  {
    forall x | x in s && x != s[k] ensures x in Drop(s, k) {
      var i :| 0 <= i < |s| && s[i] == x;
      assert Drop(s, k)[if i < k then i else i - 1] == x;
    }
  }

  lemma UpdateMembers<T>(s: seq<T>, k: nat, y: T)
    requires k < |s|
    ensures y in s[k := y]
    ensures forall x :: x in s[k := y] ==> x == y || x in s
    ensures forall x :: x in s && x != s[k] ==> x in s[k := y]
  {
    assert s[k := y][k] == y;
    forall x | x in s && x != s[k] ensures x in s[k := y] {
      var i :| 0 <= i < |s| && s[i] == x;
      assert s[k := y][i] == x;
    }
  }

  ghost function Pairs(ls: seq<Link>): (p: seq<(Addr, Addr)>) {
    seq(|ls|, i requires 0 <= i < |ls| => ls[i].Pair())
  }

  ghost function Addresses(ns: seq<Node>): (a: seq<Addr>) {
    seq(|ns|, i requires 0 <= i < |ns| => ns[i].addr)
  }

  /** One node per address, one link per ordered pair, links between cached nodes. */
  ghost predicate Tables(ns: seq<Node>, ls: seq<Link>) {
    && Distinct(Addresses(ns))
    && Distinct(Pairs(ls))
    && (forall l :: l in ls ==> l.src in ns && l.dst in ns && l.cost <= COST_MAX)
    && |ls| <= LINKS_MAX
  }

  lemma LinkUnique(ls: seq<Link>, l: Link, m: Link)
    requires Distinct(Pairs(ls)) && l in ls && m in ls && l.Pair() == m.Pair()
    ensures l == m
  {
    var i :| 0 <= i < |ls| && ls[i] == l;
    var j :| 0 <= j < |ls| && ls[j] == m;
    assert Pairs(ls)[i] == l.Pair() && Pairs(ls)[j] == m.Pair();
  }

  lemma NodeUnique(ns: seq<Node>, m: Node, n: Node)
    requires Distinct(Addresses(ns)) && m in ns && n in ns && m.addr == n.addr
    ensures m == n
  {
    var i :| 0 <= i < |ns| && ns[i] == m;
    var j :| 0 <= j < |ns| && ns[j] == n;
    assert Addresses(ns)[i] == m.addr && Addresses(ns)[j] == n.addr;
  }

  ghost predicate HasPair(ls: seq<Link>, e: (Addr, Addr)) {
    exists l :: l in ls && l.Pair() == e
  }

  ghost function CostOf(ls: seq<Link>, e: (Addr, Addr)): nat
    requires HasPair(ls, e)
  {
    var l :| l in ls && l.Pair() == e; l.cost
  }

  /** The links as a map from ordered pairs to costs. */
  ghost function GraphOf(ls: seq<Link>): (g: Graph)
    ensures forall e :: e in g <==> HasPair(ls, e)
    ensures forall e :: e in g ==> g[e] == CostOf(ls, e)
  {
    var pairs := set l | l in ls :: l.Pair();
    assert forall e :: e in pairs <==> HasPair(ls, e);
    map e | e in pairs :: CostOf(ls, e)
  }

  lemma GraphIs(ls: seq<Link>, g: Graph)
    requires Distinct(Pairs(ls))
    requires forall l :: l in ls ==> l.Pair() in g && g[l.Pair()] == l.cost
    requires forall e :: e in g ==> HasPair(ls, e)
    ensures GraphOf(ls) == g
  {
  }

  lemma GraphCost(ls: seq<Link>, l: Link)
    requires Distinct(Pairs(ls)) && l in ls
    ensures l.Pair() in GraphOf(ls) && GraphOf(ls)[l.Pair()] == l.cost
  {
    var m :| m in ls && m.Pair() == l.Pair() && m.cost == CostOf(ls, l.Pair());
    LinkUnique(ls, l, m);
  }

  lemma GraphCosts(ls: seq<Link>)
    requires Distinct(Pairs(ls))
    ensures forall l :: l in ls ==> l.Pair() in GraphOf(ls) && GraphOf(ls)[l.Pair()] == l.cost
  {
    forall l | l in ls ensures l.Pair() in GraphOf(ls) && GraphOf(ls)[l.Pair()] == l.cost {
      GraphCost(ls, l);
    }
  }

  ghost function Edges(ls: seq<Link>): (es: seq<Edge>) {
    seq(|ls|, i requires 0 <= i < |ls| => Edge(ls[i].src.addr, ls[i].dst.addr, ls[i].cost))
  }

  lemma EdgesListed(ls: seq<Link>)
    requires Distinct(Pairs(ls))
    ensures Lists(Edges(ls), GraphOf(ls)) && ListsAll(Edges(ls), GraphOf(ls))
  {
    GraphCosts(ls);
    forall i | 0 <= i < |ls|
      ensures ls[i].Pair() in GraphOf(ls) && GraphOf(ls)[ls[i].Pair()] == ls[i].cost
    {
      assert ls[i] in ls;
    }
    forall e | e in GraphOf(ls)
      ensures exists i :: 0 <= i < |Edges(ls)| && e == (Edges(ls)[i].src, Edges(ls)[i].dst)
    {
      var l :| l in ls && l.Pair() == e;
      var i :| 0 <= i < |ls| && ls[i] == l;
      assert e == (Edges(ls)[i].src, Edges(ls)[i].dst);
    }
  }

  ghost function AddrsOf(ns: seq<Node>): (s: set<Addr>)
    ensures forall n :: n in ns ==> n.addr in s
  {
    set n | n in ns :: n.addr
  }

  ghost function NodeFor(ns: seq<Node>, a: Addr): (n: Node)
    requires a in AddrsOf(ns)
    ensures n in ns && n.addr == a
  {
    var n :| n in ns && n.addr == a; n
  }

  // ------------------------------------------------------------ counting

  ghost function EndsOf(l: Link, n: Node): nat {
    (if l.src == n then 1 else 0) + (if l.dst == n then 1 else 0)
  }

  /** How many link ends in `ls` touch `n`; a self-loop touches it twice. */
  ghost function Ends(ls: seq<Link>, n: Node): nat {
    if ls == [] then 0
    else Ends(ls[..|ls| - 1], n) + EndsOf(ls[|ls| - 1], n)
  }

  lemma EndsAppend(ls: seq<Link>, l: Link, n: Node)
    ensures Ends(ls + [l], n) == Ends(ls, n) + EndsOf(l, n)
  {
    assert (ls + [l])[..|ls|] == ls;
  }

  lemma {:induction false} EndsWithout(ls: seq<Link>, k: nat, n: Node)
    requires k < |ls|
    ensures Ends(Drop(ls, k), n) == Ends(ls, n) - EndsOf(ls[k], n)
  {
    var rest := Drop(ls, k);
    if k == |ls| - 1 {
      assert rest == ls[..k];
    } else {
      EndsWithout(ls[..|ls| - 1], k, n);
      assert rest[..|rest| - 1] == Drop(ls[..|ls| - 1], k);
    }
  }

  lemma {:induction false} EndsRecost(ls: seq<Link>, k: nat, c: nat, n: Node)
    requires k < |ls|
    ensures Ends(ls[k := ls[k].(cost := c)], n) == Ends(ls, n)
  {
    var init := ls[..|ls| - 1];
    var ls' := ls[k := ls[k].(cost := c)];
    if k < |ls| - 1 {
      EndsRecost(init, k, c, n);
      assert ls'[..|ls| - 1] == init[k := init[k].(cost := c)];
    } else {
      assert ls'[..|ls| - 1] == init;
    }
  }

  lemma {:induction false} EndsPositive(ls: seq<Link>, n: Node)
    ensures Ends(ls, n) > 0 <==> exists l :: l in ls && (l.src == n || l.dst == n)
  {
    if ls != [] {
      var init, last := ls[..|ls| - 1], ls[|ls| - 1];
      EndsPositive(init, n);
      assert ls == init + [last];
    }
  }

  ghost function Endpoints(ls: seq<Link>): (e: set<Node>)
    ensures |e| <= 2 * |ls|
    ensures forall l :: l in ls ==> l.src in e && l.dst in e
  {
    if ls == [] then {}
    else
      var init, last := ls[..|ls| - 1], ls[|ls| - 1];
      assert ls == init + [last];
      Endpoints(init) + {last.src, last.dst}
  }

  lemma DistinctNodes(ns: seq<Node>)
    requires Distinct(Addresses(ns))
    ensures Distinct(ns)
  {
    forall i, j | 0 <= i < j < |ns| ensures ns[i] != ns[j] {
      assert Addresses(ns)[i] == ns[i].addr && Addresses(ns)[j] == ns[j].addr;
    }
  }

  /** At most two nodes per link when every node has a link. */
  lemma NodesBound(ns: seq<Node>, ls: seq<Link>)
    requires Tables(ns, ls) && forall n :: n in ns ==> Ends(ls, n) > 0
    ensures |ns| <= 2 * |ls|
  {
    DistinctNodes(ns);
    DistinctSize(ns);
    var s := set n | n in ns;
    forall n | n in s ensures n in Endpoints(ls) {
      EndsPositive(ls, n);
    }
    CardMonotone(s, Endpoints(ls));
  }

  // -------------------------------------------------- one change to a table

  lemma TablesAddNode(ns: seq<Node>, ls: seq<Link>, n: Node)
    requires Tables(ns, ls) && n.addr !in AddrsOf(ns)
    ensures Tables(ns + [n], ls) && Ends(ls, n) == 0
  {
    EndsPositive(ls, n);
    assert forall i :: 0 <= i < |ns| ==> ns[i] in ns && Addresses(ns + [n])[i] == Addresses(ns)[i] != n.addr;
  }

  lemma TablesAddLink(ns: seq<Node>, ls: seq<Link>, l: Link)
    requires Tables(ns, ls) && |ls| < LINKS_MAX
    requires l.src in ns && l.dst in ns && l.cost <= COST_MAX && !HasPair(ls, l.Pair())
    ensures Tables(ns, ls + [l])
    ensures GraphOf(ls + [l]) == GraphOf(ls)[l.Pair() := l.cost]
  {
    var ls' := ls + [l];
    assert forall i :: 0 <= i < |ls| ==> ls[i] in ls && Pairs(ls')[i] == Pairs(ls)[i] != l.Pair();
    assert Distinct(Pairs(ls'));
    GraphCosts(ls);
    forall e | e in GraphOf(ls) ensures HasPair(ls', e) {
      var k :| k in ls && k.Pair() == e;
      assert k in ls';
    }
    assert l in ls';
    GraphIs(ls', GraphOf(ls)[l.Pair() := l.cost]);
  }

  lemma TablesRecost(ns: seq<Node>, ls: seq<Link>, k: nat, c: nat)
    requires Tables(ns, ls) && k < |ls| && c <= COST_MAX
    ensures Tables(ns, ls[k := ls[k].(cost := c)])
    ensures GraphOf(ls[k := ls[k].(cost := c)]) == GraphOf(ls)[ls[k].Pair() := c]
  {
    var l' := ls[k].(cost := c);
    var ls' := ls[k := l'];
    assert Pairs(ls') == Pairs(ls);
    UpdateMembers(ls, k, l');
    GraphCosts(ls);
    var g := GraphOf(ls)[l'.Pair() := c];
    forall l | l in ls' ensures l.Pair() in g && g[l.Pair()] == l.cost {
      if l.Pair() == l'.Pair() {
        LinkUnique(ls', l, l');
      }
    }
    forall e | e in g ensures HasPair(ls', e) {
      if e != l'.Pair() {
        var l :| l in ls && l.Pair() == e;
        assert l in ls';
      }
    }
    GraphIs(ls', g);
  }

  lemma TablesDropLink(ns: seq<Node>, ls: seq<Link>, k: nat)
    requires Tables(ns, ls) && k < |ls|
    ensures Tables(ns, Drop(ls, k)) && GraphOf(Drop(ls, k)) == GraphOf(ls) - {ls[k].Pair()}
  {
    var ls' := Drop(ls, k);
    assert Pairs(ls') == Drop(Pairs(ls), k);
    DropMembers(ls, k);
    DropMembers(Pairs(ls), k);
    GraphCosts(ls);
    var g := GraphOf(ls) - {ls[k].Pair()};
    forall l | l in ls' ensures l.Pair() in g && g[l.Pair()] == l.cost {
      var i :| 0 <= i < |ls'| && ls'[i] == l;
      assert Pairs(ls')[i] == l.Pair();
    }
    forall e | e in g ensures HasPair(ls', e) {
      var l :| l in ls && l.Pair() == e;
      assert l in ls';
    }
    GraphIs(ls', g);
  }

  lemma TablesDropNode(ns: seq<Node>, ls: seq<Link>, k: nat)
    requires Tables(ns, ls) && k < |ns| && Ends(ls, ns[k]) == 0
    ensures Tables(Drop(ns, k), ls)
    ensures forall n :: n in Drop(ns, k) <==> n in ns && n != ns[k]
  {
    EndsPositive(ls, ns[k]);
    assert Addresses(Drop(ns, k)) == Drop(Addresses(ns), k);
    DropMembers(ns, k);
    DropMembers(Addresses(ns), k);
    forall n | n in Drop(ns, k) ensures n != ns[k] {
      var i :| 0 <= i < |ns| - 1 && Drop(ns, k)[i] == n;
      assert Addresses(Drop(ns, k))[i] == n.addr;
    }
  }

  lemma TablesMove(ns: seq<Node>, done: seq<Node>, ls: seq<Link>, k: nat)
    requires Tables(ns + done, ls) && k < |ns|
    ensures Tables(Drop(ns, k) + (done + [ns[k]]), ls)
    ensures forall n :: n in ns + done ==> n in Drop(ns, k) + (done + [ns[k]])
    ensures forall n :: n in Drop(ns, k) + (done + [ns[k]]) ==> n in ns + done
    ensures forall n :: n in done + [ns[k]] ==> n !in Drop(ns, k)
  {
    var all, moved := ns + done, Drop(ns, k) + (done + [ns[k]]);
    var a, b := Addresses(all), Addresses(moved);
    DropMembers(ns, k);
    assert b[|b| - 1] == a[k];
    assert b[..|b| - 1] == Drop(a, k);
    DropMembers(a, k);
    assert Distinct(b) by {
      forall i, j | 0 <= i < j < |b| ensures b[i] != b[j] {
        assert b[..|b| - 1][i] == b[i];
        if j < |b| - 1 {
          assert b[..|b| - 1][j] == b[j];
        }
      }
    }
    forall n | n in done + [ns[k]] ensures n !in Drop(ns, k) {
      SplitDisjoint(Drop(ns, k), done + [ns[k]], n);
    }
  }

  lemma SplitDisjoint(ns: seq<Node>, done: seq<Node>, n: Node)
    requires Distinct(Addresses(ns + done)) && n in done
    ensures n !in ns
  {
    var j :| 0 <= j < |done| && done[j] == n;
    forall i | 0 <= i < |ns| ensures ns[i] != n {
      assert Addresses(ns + done)[i] == ns[i].addr && Addresses(ns + done)[|ns| + j] == n.addr;
    }
  }

  class Cache {
    var nodes: seq<Node>
    var links: seq<Link>
    var src: Node?  // the source the labels were last computed for

    /** The tables are consistent, and each node's count equals its link ends and is
        positive, so the nodes are exactly the ends of the links. */
    ghost predicate Valid()
      reads this, nodes
    {
      Tables(nodes, links) && Counted() && forall n :: n in nodes ==> n.links > 0
    }

    ghost predicate Counted()
      reads this, nodes
    {
      forall n :: n in nodes ==> n.links == Ends(links, n)
    }

    /** The links as a map from ordered pairs to costs. */
    ghost function Graph(): Graph
      reads this
    {
      GraphOf(links)
    }

    ghost function Addrs(): set<Addr>
      reads this
    {
      AddrsOf(nodes)
    }

    /** The node table cannot fill up: it never holds more than two nodes per link. */
    lemma NeverFull()
      requires Valid()
      ensures |nodes| <= 2 * |links| <= 2 * LINKS_MAX < NODES_MAX
    {
      NodesBound(nodes, links);
    }

    /** The cached nodes are exactly the ends of the cached links. */
    lemma NodesAreEndpoints(a: Addr)
      requires Valid()
      ensures a in Addrs() <==> exists e :: e in Graph() && (e.0 == a || e.1 == a)
    {
      if a in Addrs() {
        var n := NodeFor(nodes, a);
        EndsPositive(links, n);
        var l :| l in links && (l.src == n || l.dst == n);
        assert l.Pair() in Graph();
      }
      forall e | e in Graph() && (e.0 == a || e.1 == a) ensures a in Addrs() {
        var l :| l in links && l.Pair() == e;
      }
    }

    constructor ()
      ensures Valid() && Graph() == map[] && nodes == []
    {
      nodes, links, src := [], [], null;
    }

    /** `lc_flush`. */
    method Flush()
      modifies this
      ensures Valid() && Graph() == map[] && nodes == []
    {
      nodes, links, src := [], [], null;
    }

    /** `__tbl_find` with `crit_addr`. */
    method FindNode(a: Addr) returns (n: Node?)
      ensures n == null <==> a !in Addrs()
      ensures n != null ==> n in nodes && n.addr == a
    {
      var i := 0;
      while i < |nodes|
        invariant 0 <= i <= |nodes| && forall k :: 0 <= k < i ==> nodes[k].addr != a
      {
        if nodes[i].addr == a {
          return nodes[i];
        }
        i := i + 1;
      }
      return null;
    }

    /** `__lc_link_find`: the position of the link, or the table length. */
    method FindLink(s: Addr, d: Addr) returns (k: nat)
      ensures k <= |links| && (k == |links| <==> (s, d) !in Graph())
      ensures k < |links| ==> links[k].Pair() == (s, d)
    {
      k := 0;
      while k < |links|
        invariant 0 <= k <= |links| && forall i :: 0 <= i < k ==> links[i].Pair() != (s, d)
      {
        if links[k].src.addr == s && links[k].dst.addr == d {
          assert links[k] in links && links[k].Pair() == (s, d);
          return;
        }
        k := k + 1;
      }
    }

    // ------------------------------------------------------------ add a link

    /** Find or create the node for `a`; the table insert fails silently when full. */
    method GetNode(a: Addr) returns (n: Node)
      requires Tables(nodes, links) && Counted() && |nodes| < NODES_MAX
      modifies this`nodes
      ensures Tables(nodes, links) && Counted() && n.addr == a && n in nodes
      ensures a in old(Addrs()) ==> nodes == old(nodes)
      ensures forall m :: m in nodes ==> m in old(nodes) || (m == n && fresh(n))
      ensures forall m :: m in old(nodes) ==> m in nodes
      ensures |nodes| <= |old(nodes)| + 1
    {
      var m := FindNode(a);
      if m != null {
        return m;
      }
      n := new Node(a);
      TablesAddNode(nodes, links, n);
      if |nodes| < NODES_MAX {
        nodes := nodes + [n];
      }
    }

    /** The two look-ups of `__lc_link_add`. */
    method GetEnds(s: Addr, d: Addr) returns (sn: Node, dn: Node)
      requires Valid()
      modifies this`nodes
      ensures Tables(nodes, links) && Counted()
      ensures sn in nodes && sn.addr == s && dn in nodes && dn.addr == d
      ensures forall m :: m in nodes ==> m in old(nodes) || ((m == sn || m == dn) && fresh(m))
      ensures (s, d) in Graph() ==> nodes == old(nodes)
    {
      NeverFull();
      if (s, d) in Graph() {
        assert s in Addrs() by { NodesAreEndpoints(s); }
        assert d in Addrs() by { NodesAreEndpoints(d); }
      }
      sn := GetNode(s);
      dn := GetNode(d);
    }

    /** `__lc_link_tbl_add`: refreshes the link, or counts the ends of a new one and
        enters it at the tail.  The result of that insert is not looked at. */
    method LinkTblAdd(sn: Node, dn: Node, cost: nat)
      requires Tables(nodes, links) && Counted() && sn in nodes && dn in nodes && cost <= COST_MAX
      modifies this`links, sn`links, dn`links
      ensures sn.links >= old(sn.links) && dn.links >= old(dn.links)
      ensures (sn.addr, dn.addr) !in old(Graph()) ==> sn.links > 0 && dn.links > 0
      ensures Tables(nodes, links)
      ensures Counted() <==> (sn.addr, dn.addr) in old(Graph()) || |old(links)| < LINKS_MAX
      ensures Counted() ==> Graph() == old(Graph())[(sn.addr, dn.addr) := cost]
      ensures (sn.addr, dn.addr) !in old(Graph()) && |old(links)| >= LINKS_MAX ==> links == old(links)
    {
      var k := FindLink(sn.addr, dn.addr);
      if k < |links| {
        TablesRecost(nodes, links, k, cost);
        forall n | n in nodes ensures Ends(links[k := links[k].(cost := cost)], n) == n.links {
          EndsRecost(links, k, cost, n);
        }
        links := links[k := links[k].(cost := cost)];
      } else {
        var link := Link(sn, dn, cost);
        forall n | n in nodes ensures Ends(links + [link], n) == n.links + EndsOf(link, n) {
          EndsAppend(links, link, n);
        }
        if |links| < LINKS_MAX {
          TablesAddLink(nodes, links, link);
          links := links + [link];
        }
        sn.links := sn.links + 1;
        dn.links := dn.links + 1;
      }
    }

    /** `lc_link_add`: enters or refreshes the link.  When the link is new and the table
        has no room, the link is lost but its ends are counted, and the cache is no
        longer well formed. */
    method LinkAdd(s: Addr, d: Addr, cost: nat)
      requires Valid() && cost <= COST_MAX
      modifies this, nodes
      ensures forall n :: n in nodes ==> n in old(nodes) || fresh(n)
      ensures Valid() <==> (s, d) in old(Graph()) || |old(links)| < LINKS_MAX
      ensures Valid() ==> Graph() == old(Graph())[(s, d) := cost]
      ensures (s, d) !in old(Graph()) && |old(links)| >= LINKS_MAX ==> links == old(links)
    {
      var sn, dn := GetEnds(s, d);
      LinkTblAdd(sn, dn, cost);
    }

    // --------------------------------------------------------- delete a link

    /** `__tbl_del` on the node table. */
    method DropNode(n: Node, ghost ls: seq<Link>)
      requires n in nodes && Tables(nodes, ls) && Ends(ls, n) == 0
      modifies this`nodes
      ensures Tables(nodes, ls) && forall m :: m in nodes <==> m in old(nodes) && m != n
    {
      var i :| 0 <= i < |nodes| && nodes[i] == n;
      TablesDropNode(nodes, ls, i);
      nodes := Drop(nodes, i);
    }

    /** The counts on the way through a deletion: right for `ls` but for ends still owed. */
    ghost predicate CountedBut(ls: seq<Link>, owed: multiset<Node>)
      reads this, nodes
    {
      forall n :: n in nodes ==> n.links == Ends(ls, n) + owed[n] && n.links > 0
    }

    /** One end of a link goes: the node is deleted with its last one. */
    method LoseEnd(n: Node, ghost ls: seq<Link>, ghost owed: multiset<Node>)
      requires n in nodes && owed[n] > 0 && Tables(nodes, ls) && CountedBut(ls, owed)
      modifies this`nodes, n`links
      ensures Tables(nodes, ls) && CountedBut(ls, owed - multiset{n})
      ensures forall m :: m in nodes ==> m in old(nodes)
      ensures forall m :: m in old(nodes) && (m != n || owed[n] > 1) ==> m in nodes
    {
      n.links := n.links - 1;
      if n.links == 0 {
        DropNode(n, ls);
      }
    }

    lemma OwedByLink(k: nat)
      requires Valid() && k < |links|
      ensures CountedBut(Drop(links, k), multiset{links[k].src, links[k].dst})
    {
      forall n | n in nodes ensures Ends(Drop(links, k), n) == n.links - EndsOf(links[k], n) {
        EndsWithout(links, k, n);
      }
    }

    method LoseEnds(l: Link, ghost ls: seq<Link>)
      requires l.src in nodes && l.dst in nodes && Tables(nodes, ls)
      requires CountedBut(ls, multiset{l.src, l.dst})
      modifies this`nodes, l.src`links, l.dst`links
      ensures Tables(nodes, ls) && CountedBut(ls, multiset{})
      ensures forall m :: m in nodes ==> m in old(nodes)
    {
      LoseEnd(l.src, ls, multiset{l.src, l.dst});
      assert multiset{l.src, l.dst} - multiset{l.src} == multiset{l.dst};
      LoseEnd(l.dst, ls, multiset{l.dst});
      assert multiset{l.dst} - multiset{l.dst} == multiset{};
    }

    /** `__lc_link_del`: both ends are given up, then the link. */
    method LinkDelAt(k: nat)
      requires Valid() && k < |links|
      modifies this`nodes, this`links, links[k].src`links, links[k].dst`links
      ensures Valid() && Graph() == old(Graph()) - {old(links[k].Pair())}
      ensures forall n :: n in nodes ==> n in old(nodes)
    {
      var l := links[k];
      OwedByLink(k);
      TablesDropLink(nodes, links, k);
      LoseEnds(l, Drop(links, k));
      links := Drop(links, k);
    }

    /** Find the link and delete it. */
    method LinkDelOne(s: Addr, d: Addr) returns (found: bool)
      requires Valid()
      modifies this`nodes, this`links, nodes
      ensures Valid() && Graph() == old(Graph()) - {(s, d)}
      ensures found <==> (s, d) in old(Graph())
      ensures !found ==> Graph() == old(Graph())
      ensures forall n :: n in nodes ==> n in old(nodes)
    {
      var k := FindLink(s, d);
      found := k < |links|;
      if found {
        LinkDelAt(k);
      } else {
        assert Graph() - {(s, d)} == Graph();
      }
    }

    /** `lc_link_del`: links are taken to be bidirectional, so the reverse link goes too;
        nothing happens when the link itself is not cached. */
    method LinkDel(s: Addr, d: Addr) returns (res: int)
      requires Valid()
      modifies this, nodes
      ensures Valid() && Graph() == DeleteLink(old(Graph()), s, d)
      ensures res == if s != d && (s, d) in old(Graph()) && (d, s) in old(Graph()) then 1 else -1
      ensures forall n :: n in nodes ==> n in old(nodes)
      ensures src == null
    {
      res := LinkDelBoth(s, d);
      src := null;
    }

    method LinkDelBoth(s: Addr, d: Addr) returns (res: int)
      requires Valid()
      modifies this`nodes, this`links, nodes
      ensures Valid() && Graph() == DeleteLink(old(Graph()), s, d)
      ensures res == if s != d && (s, d) in old(Graph()) && (d, s) in old(Graph()) then 1 else -1
      ensures forall n :: n in nodes ==> n in old(nodes)
    {
      ghost var before := nodes;
      ReverseLeft(Graph(), s, d);
      var found := LinkDelOne(s, d);
      assert forall i :: 0 <= i < |nodes| ==> nodes[i] in before;
      if found {
        found := LinkDelOne(d, s);
      }
      res := if found then 1 else -1;
    }

    // ------------------------------------------------- Dijkstra's algorithm

    /** The fields of the nodes, by address, are the labels `m`. */
    static ghost predicate Shows(ns: seq<Node>, m: Labelling)
      reads ns
    {
      m.Keys == AddrsOf(ns) && forall n {:trigger Shown(ns, m, n)} :: n in ns ==> Shown(ns, m, n)
    }

    static ghost predicate Shown(ns: seq<Node>, m: Labelling, n: Node)
      reads n
    {
      && (n.pred != null ==> n.pred in ns)
      && n.addr in m
      && m[n.addr] == Label(n.cost, n.hops, if n.pred == null then None else Some(n.pred.addr))
    }

    /** `__dijkstra_init_single_source`, a loop over `do_init`. */
    method InitSingleSource(a: Addr)
      requires Distinct(Addresses(nodes))
      modifies nodes`cost, nodes`hops, nodes`pred
      ensures Shows(nodes, Init(Addrs(), a))
    {
      var i := 0;
      while i < |nodes|
        invariant 0 <= i <= |nodes|
        invariant forall n :: n in nodes[..i] ==>
                    if n.addr == a then n.cost == 0 && n.hops == 0 && n.pred == n
                    else n.cost == COST_INF && n.hops == COST_INF && n.pred == null
      {
        var n := nodes[i];
        if n.addr == a {
          n.cost, n.hops, n.pred := 0, 0, n;
        } else {
          n.cost, n.hops, n.pred := COST_INF, COST_INF, null;
        }
        i := i + 1;
      }
    }

    /** `__dijkstra_find_lowest_cost_node`, a loop over `do_lowest_cost`: the first node
        of least finite cost, or -1. */
    method FindLowest() returns (k: int)
      ensures -1 <= k < |nodes|
      ensures k == -1 <==> forall n :: n in nodes ==> n.cost == COST_INF
      ensures k >= 0 ==> nodes[k].cost != COST_INF
      ensures k >= 0 ==> forall n :: n in nodes && n.cost != COST_INF ==> nodes[k].cost <= n.cost
    {
      k := -1;
      var i := 0;
      while i < |nodes|
        invariant 0 <= i <= |nodes| && -1 <= k < i
        invariant k == -1 ==> forall j :: 0 <= j < i ==> nodes[j].cost == COST_INF
        invariant k >= 0 ==> nodes[k].cost != COST_INF
        invariant k >= 0 ==> forall j :: 0 <= j < i && nodes[j].cost != COST_INF ==> nodes[k].cost <= nodes[j].cost
      {
        if nodes[i].cost != COST_INF && (k < 0 || nodes[i].cost < nodes[k].cost) {
          k := i;
        }
        i := i + 1;
      }
    }

    /** `do_relax` for one link of `u`.  The 32-bit sum does not wrap. */
    method RelaxOne(u: Node, v: Node, w: nat, ns: seq<Node>, ghost m: Labelling)
      requires Distinct(Addresses(ns)) && u in ns && v in ns
      requires Shows(ns, m) && u.cost + w < U32
      modifies v`cost, v`hops, v`pred
      ensures Shows(ns, RelaxLink(m, u.addr, v.addr, w))
    {
      assert Shown(ns, m, u) && Shown(ns, m, v);
      ghost var m' := RelaxLink(m, u.addr, v.addr, w);
      if (u.cost + w) % U32 < v.cost {
        forall n | n in ns && n != v ensures n.addr != v.addr && Shown(ns, m, n) {
          if n.addr == v.addr {
            NodeUnique(ns, n, v);
          }
        }
        v.cost, v.hops, v.pred := (u.cost + w) % U32, u.hops + 1, u;
        forall n | n in ns ensures Shown(ns, m', n) {
          if n != v {
            assert n.addr != v.addr;
          }
        }
      }
    }

    /** `do_relax` as the table loop calls it: links of other nodes are passed over. */
    method RelaxRow(l: Link, u: Node, ns: seq<Node>, ghost m: Labelling) returns (ghost m': Labelling)
      requires Distinct(Addresses(ns)) && Shows(ns, m) && u in ns && u.cost + COST_MAX < COST_INF
      requires l.src in ns && l.dst in ns && l.cost <= COST_MAX
      modifies ns`cost, ns`hops, ns`pred
      ensures m' == RelaxEdge(Edge(l.src.addr, l.dst.addr, l.cost), u.addr, m) && Shows(ns, m')
      ensures u.cost == old(u.cost)
    {
      m' := RelaxEdge(Edge(l.src.addr, l.dst.addr, l.cost), u.addr, m);
      if l.src.addr == u.addr {
        NodeUnique(ns, l.src, u);
      }
      if l.src == u {
        assert Shown(ns, m, u);
        RelaxOne(u, l.dst, l.cost, ns, m);
        assert Shown(ns, m', u);
      }
    }

    /** The loop over `do_relax` for the node just settled. */
    method Relax(u: Node, ns: seq<Node>, ghost m: Labelling, ghost es: seq<Edge>)
      requires Distinct(Addresses(ns)) && Shows(ns, m) && u in ns && u.cost + COST_MAX < COST_INF
      requires forall l :: l in links ==> l.src in ns && l.dst in ns && l.cost <= COST_MAX
      requires es == Edges(links) && forall i :: 0 <= i < |es| ==> es[i].dst in m
      modifies ns`cost, ns`hops, ns`pred
      ensures Shows(ns, RelaxFrom(es, u.addr, m, 0))
    {
      ghost var m', a := m, u.addr;
      ghost var final := RelaxFrom(es, a, m, 0);
      for i := 0 to |links|
        invariant Shows(ns, m') && m'.Keys == m.Keys && u.cost + COST_MAX < COST_INF
        invariant RelaxFrom(es, a, m', i) == final
      {
        var l := links[i];
        assert l in links && es[i] == Edge(l.src.addr, l.dst.addr, l.cost);
        m' := RelaxRow(l, u, ns, m');
      }
      assert m' == final;
    }

    /** Between two rounds: every node is either in the table or in `done`, and the
        labels satisfy the invariant of the algorithm. */
    ghost predicate Searching(all: seq<Node>, done: seq<Node>, a: Addr, m: Labelling)
      reads this, all
    {
      && Tables(all, links) && Tables(nodes + done, links) && |nodes| + |done| == |all| < NODES_MAX
      && (forall n :: n in all ==> n in nodes + done) && (forall n :: n in nodes + done ==> n in all)
      && Shows(all, m)
      && Inv(Graph(), a, m, AddrsOf(done), |done| * COST_MAX)
      && Relaxed(Graph(), m, AddrsOf(done), a, m.Keys)
    }

    /** What the invariant gives for the node that FindLowest found. */
    lemma LowestIsMinimal(k: nat, all: seq<Node>, done: seq<Node>, a: Addr, m: Labelling)
      requires Searching(all, done, a, m) && k < |nodes| && nodes[k].cost != COST_INF
      requires forall n :: n in nodes && n.cost != COST_INF ==> nodes[k].cost <= n.cost
      ensures var u := nodes[k];
              && u in all && u.addr in m && u.addr !in AddrsOf(done) && m[u.addr].cost == u.cost
              && forall v :: v in m && v !in AddrsOf(done) && m[v].cost != COST_INF ==> u.cost <= m[v].cost
    {
      var u := nodes[k];
      assert u in nodes + done && Shown(all, m, u);
      forall n | n in done ensures n.addr != u.addr {
        SplitDisjoint(nodes, done, n);
        if n.addr == u.addr {
          NodeUnique(nodes + done, n, u);
        }
      }
      forall v | v in m && v !in AddrsOf(done) && m[v].cost != COST_INF ensures u.cost <= m[v].cost {
        var n := NodeFor(all, v);
        assert n in nodes + done && Shown(all, m, n);
      }
    }

    lemma EdgesBounded(all: seq<Node>)
      requires Tables(all, links)
      ensures forall i :: 0 <= i < |links| ==> Edges(links)[i].dst in AddrsOf(all) && Edges(links)[i].cost <= COST_MAX
    {
      forall i | 0 <= i < |links| ensures Edges(links)[i].dst in AddrsOf(all) && Edges(links)[i].cost <= COST_MAX {
        assert links[i] in links;
      }
    }

    lemma RoundLabels(k: nat, all: seq<Node>, done: seq<Node>, a: Addr, m: Labelling, es: seq<Edge>)
      requires Searching(all, done, a, m) && k < |nodes| && nodes[k].cost != COST_INF && es == Edges(links)
      requires forall n :: n in nodes && n.cost != COST_INF ==> nodes[k].cost <= n.cost
      ensures forall i :: 0 <= i < |es| ==> es[i].dst in m
      ensures nodes[k] in all && nodes[k].addr in m && nodes[k].cost + COST_MAX < COST_INF
      ensures var m' := RelaxFrom(es, nodes[k].addr, m, 0);
              && m'.Keys == m.Keys
              && Inv(Graph(), a, m', AddrsOf(done + [nodes[k]]), (|done| + 1) * COST_MAX)
              && Relaxed(Graph(), m', AddrsOf(done + [nodes[k]]), a, m'.Keys)
    {
      var u := nodes[k];
      LowestIsMinimal(k, all, done, a, m);
      EdgesBounded(all);
      EdgesListed(links);
      assert AddrsOf(done + [u]) == AddrsOf(done) + {u.addr};
      RoundKeeps(Graph(), es, a, m, AddrsOf(done), |done| * COST_MAX, COST_MAX, u.addr);
    }

    /** `__tbl_detach` from the node table and `__tbl_add_tail` to the other one. */
    method MoveToDone(k: nat, ghost all: seq<Node>, done: seq<Node>) returns (done': seq<Node>)
      requires Tables(nodes + done, links) && k < |nodes|
      requires (forall n :: n in all ==> n in nodes + done) && (forall n :: n in nodes + done ==> n in all)
      modifies this`nodes
      ensures done' == done + [old(nodes[k])] && |nodes| == |old(nodes)| - 1
      ensures Tables(nodes + done', links)
      ensures (forall n :: n in all ==> n in nodes + done') && (forall n :: n in nodes + done' ==> n in all)
    {
      TablesMove(nodes, done, links, k);
      done' := done + [nodes[k]];
      nodes := Drop(nodes, k);
    }

    /** The second half of a round: the links of the node just moved are relaxed. */
    method RelaxMoved(u: Node, all: seq<Node>, done: seq<Node>, ghost a: Addr, ghost m: Labelling, ghost es: seq<Edge>)
      returns (ghost m': Labelling)
      requires Tables(all, links) && Tables(nodes + done, links) && |nodes| + |done| == |all| < NODES_MAX
      requires (forall n :: n in all ==> n in nodes + done) && (forall n :: n in nodes + done ==> n in all)
      requires Shows(all, m) && u in all && u.cost + COST_MAX < COST_INF
      requires es == Edges(links) && forall i :: 0 <= i < |es| ==> es[i].dst in m
      requires Inv(Graph(), a, RelaxFrom(es, u.addr, m, 0), AddrsOf(done), |done| * COST_MAX)
      requires Relaxed(Graph(), RelaxFrom(es, u.addr, m, 0), AddrsOf(done), a, m.Keys)
      modifies all`cost, all`hops, all`pred
      ensures Searching(all, done, a, m')
    {
      m' := RelaxFrom(es, u.addr, m, 0);
      Relax(u, all, m, es);
    }

    /** One round of `__dijkstra`: the node moves to `done` and its links are relaxed. */
    method Round(k: nat, all: seq<Node>, done: seq<Node>, ghost a: Addr, ghost m: Labelling)
      returns (done': seq<Node>, ghost m': Labelling)
      requires Searching(all, done, a, m) && k < |nodes| && nodes[k].cost != COST_INF
      requires forall n :: n in nodes && n.cost != COST_INF ==> nodes[k].cost <= n.cost
      modifies this`nodes, all`cost, all`hops, all`pred
      ensures Searching(all, done', a, m') && |nodes| == |old(nodes)| - 1
    {
      var u := nodes[k];
      ghost var es := Edges(links);
      RoundLabels(k, all, done, a, m, es);
      done' := MoveToDone(k, all, done);
      m' := RelaxMoved(u, all, done', a, m, es);
    }

    /** `__lc_move`: the settled nodes go back behind the unreachable ones. */
    method MoveBack(done0: seq<Node>)
      modifies this`nodes
      ensures nodes == old(nodes) + done0
    {
      var done := done0;
      while |done| > 0
        invariant nodes + done == old(nodes) + done0
      {
        nodes, done := nodes + [done[0]], done[1..];
      }
      assert nodes + done == nodes;
    }

    lemma NothingLeft(all: seq<Node>, done: seq<Node>, a: Addr, m: Labelling)
      requires Searching(all, done, a, m) && forall n :: n in nodes ==> n.cost == COST_INF
      ensures Settled(Graph(), a, m)
    {
      forall v | v in m && v !in AddrsOf(done) ensures m[v].cost == COST_INF {
        var n := NodeFor(all, v);
        assert n in nodes + done && Shown(all, m, n);
      }
      forall e | e in Graph() ensures Graph()[e] <= COST_MAX {
        var l :| l in links && l.Pair() == e && l.cost == CostOf(links, e);
      }
      FinishedIsSettled(Graph(), a, m, AddrsOf(done), |done| * COST_MAX);
    }

    /** The state the loop of `__dijkstra` starts in. */
    lemma SearchStarts(a: Addr)
      requires Valid() && a in Addrs() && Shows(nodes, Init(Addrs(), a))
      ensures Searching(nodes, [], a, Init(Addrs(), a))
    {
      NeverFull();
      assert nodes + [] == nodes;
      NodesAreEndpoints(a);
      forall e | e in Graph() ensures e.0 in Addrs() && e.1 in Addrs() {
        NodesAreEndpoints(e.0);
        NodesAreEndpoints(e.1);
      }
      InitInv(Graph(), Addrs(), a);
      assert AddrsOf([]) == {};
    }

    static lemma ShowsSame(all: seq<Node>, ns: seq<Node>, m: Labelling)
      requires Shows(all, m)
      requires (forall n :: n in all ==> n in ns) && (forall n :: n in ns ==> n in all)
      ensures Shows(ns, m)
    {
      assert AddrsOf(ns) == AddrsOf(all);
      forall n | n in ns ensures Shown(ns, m, n) {
        assert Shown(all, m, n);
      }
    }

    /** The loop of `__dijkstra`: rounds until no node in the table has a finite cost. */
    method Rounds(all: seq<Node>, ghost a: Addr, ghost m0: Labelling) returns (done: seq<Node>, ghost m: Labelling)
      requires Searching(all, [], a, m0)
      modifies this`nodes, all`cost, all`hops, all`pred
      ensures Searching(all, done, a, m) && forall n :: n in nodes ==> n.cost == COST_INF
    {
      done, m := [], m0;
      while true
        invariant Searching(all, done, a, m)
        decreases |nodes|
      {
        var k := FindLowest();
        if k < 0 {
          break;
        }
        done, m := Round(k, all, done, a, m);
      }
    }

    /** From initialised labels to final ones, and the nodes back in the table. */
    method Settle(ghost a: Addr, ghost m0: Labelling) returns (ghost m: Labelling)
      requires Searching(nodes, [], a, m0)
      modifies this`nodes, nodes`cost, nodes`hops, nodes`pred
      ensures Tables(nodes, links) && Shows(nodes, m) && Settled(Graph(), a, m)
      ensures (forall n :: n in old(nodes) ==> n in nodes) && (forall n :: n in nodes ==> n in old(nodes))
    {
      var all, done := nodes, [];
      done, m := Rounds(all, a, m0);
      NothingLeft(all, done, a, m);
      MoveBack(done);
      ShowsSame(all, nodes, m);
    }

    method SettleFrom(a: Addr) returns (ghost m: Labelling)
      requires Valid() && a in Addrs() && Shows(nodes, Init(Addrs(), a))
      modifies this`nodes, nodes`cost, nodes`hops, nodes`pred
      ensures Valid() && Shows(nodes, m) && Settled(Graph(), a, m)
      ensures (forall n :: n in old(nodes) ==> n in nodes) && (forall n :: n in nodes ==> n in old(nodes))
    {
      SearchStarts(a);
      m := Settle(a, Init(Addrs(), a));
    }

    /** `__dijkstra`: the labels are exact afterwards, and the table holds the same nodes
        (the order may change). */
    method Dijkstra(a: Addr) returns (ghost m: Labelling)
      requires Valid()
      modifies this`nodes, this`src, nodes`cost, nodes`hops, nodes`pred
      ensures Valid() && Shows(nodes, m)
      ensures if a in old(Addrs()) then Settled(Graph(), a, m) else m == Init(old(Addrs()), a)
      ensures if a in old(Addrs()) then src != null && src in nodes && src.addr == a else src == old(src)
      ensures (forall n :: n in old(nodes) ==> n in nodes) && (forall n :: n in nodes ==> n in old(nodes))
    {
      m := Init(Addrs(), a);
      if |nodes| == 0 {
        return;
      }
      InitSingleSource(a);
      var s := FindNode(a);
      if s == null {
        return;
      }
      src := s;
      m := SettleFrom(a);
    }

    // ------------------------------------------------------- finding a route

    /** `p` is the chain of predecessors in the labels, back to a node that is its own. */
    ghost static predicate PredChain(m: Labelling, p: seq<Addr>) {
      && |p| >= 2 && Distinct(p)
      && (forall i :: 0 <= i < |p| ==> p[i] in m)
      && m[p[0]].pred == Some(p[0])
      && (forall i :: 0 < i < |p| ==> m[p[i]].pred == Some(p[i - 1]))
    }

    /** One step of the loop: from the node at position `j` of the chain to the one before. */
    lemma ChainStep(m: Labelling, p: seq<Addr>, n: Node, j: nat)
      requires Shows(nodes, m) && Distinct(Addresses(nodes)) && PredChain(m, p)
      requires n in nodes && j < |p| && n.addr == p[j]
      ensures n.pred != null && n.pred in nodes
      ensures n.pred == n <==> j == 0
      ensures j > 0 ==> n.pred.addr == p[j - 1]
    {
      assert Shown(nodes, m, n) && p[j] in m;
      if j == 0 {
        NodeUnique(nodes, n, n.pred);
      } else {
        assert m[p[j]].pred == Some(p[j - 1]) && p[j - 1] != p[j];
      }
    }

    /** The loop of `lc_srt_find` that reads the route backwards off the predecessors.
        Each of the `k` slots is filled exactly once; `i` counts the slots. */
    method ReadBack(dn: Node, k: nat, ghost m: Labelling, ghost p: seq<Addr>) returns (i: nat, addrs: array<Addr>)
      requires Shows(nodes, m) && Distinct(Addresses(nodes)) && PredChain(m, p)
      requires dn in nodes && |p| == k + 2 && p[k + 1] == dn.addr
      ensures fresh(addrs) && i == k && addrs[..] == p[1..k + 1]
    {
      addrs := new Addr[k];
      i := 0;
      ChainStep(m, p, dn, k + 1);
      var n := dn.pred;
      ChainStep(m, p, n, k);
      while n != n.pred
        invariant 0 <= i <= k && n in nodes && n.addr == p[k - i]
        invariant n.pred != null && n.pred in nodes && (n.pred == n <==> i == k)
        invariant i < k ==> n.pred.addr == p[k - i - 1]
        invariant forall j :: k - i <= j < k ==> addrs[j] == p[j + 1]
        decreases k - i
      {
        addrs[k - i - 1] := n.addr;
        i := i + 1;
        n := n.pred;
        ChainStep(m, p, n, k - i);
      }
    }

    /** `lc_srt_find`: nothing exactly when the ends are equal or not connected, otherwise
        a loop-free route of least cost over cached links.  The branch for a wrong hop
        count is never taken: it would return nothing for a reachable destination. */
    method SrtFind(s: Addr, d: Addr) returns (r: Option<Route>)
      requires Valid()
      modifies this`nodes, this`src, nodes`cost, nodes`hops, nodes`pred
      ensures Valid() && RouteAnswer(Graph(), s, d, r)
      ensures (forall n :: n in old(nodes) ==> n in nodes) && (forall n :: n in nodes ==> n in old(nodes))
    {
      if s == d {
        return None;
      }
      ghost var m := Dijkstra(s);
      r := ReadRoute(s, d, m);
    }

    /** The second half of `lc_srt_find`. */
    method ReadRoute(s: Addr, d: Addr, ghost m: Labelling) returns (r: Option<Route>)
      requires Valid() && Shows(nodes, m) && s != d
      requires if s in Addrs() then Settled(Graph(), s, m) else m == Init(Addrs(), s)
      ensures RouteAnswer(Graph(), s, d, r)
    {
      var dn := FindNode(d);
      AnswerFromLabels(s, d, m);
      if dn == null {
        return None;
      }
      assert Shown(nodes, m, dn);
      if dn.cost != COST_INF && dn.pred != null {
        ghost var p := TreePath(Graph(), s, m, d);
        var k := dn.hops - 1;
        var i, addrs := ReadBack(dn, k, m, p);
        if i + 1 != dn.hops {
          return None;
        }
        r := Some(Route(s, d, addrs[..]));
        assert r.value == OfPath(p);
      } else {
        r := None;
      }
    }

    /** What the labels say about the answer. */
    lemma AnswerFromLabels(s: Addr, d: Addr, m: Labelling)
      requires Valid() && Shows(nodes, m) && s != d
      requires if s in Addrs() then Settled(Graph(), s, m) else m == Init(Addrs(), s)
      ensures d !in Addrs() || m[d].cost == COST_INF ==> RouteAnswer(Graph(), s, d, None)
      ensures d in Addrs() && m[d].cost != COST_INF ==>
                && s in Addrs() && m[d].pred.Some?
                && var p := TreePath(Graph(), s, m, d);
                   PredChain(m, p) && |p| == m[d].hops + 1 && RouteAnswer(Graph(), s, d, Some(OfPath(p)))
    {
      forall e | e in Graph() ensures e.0 in Addrs() && e.1 in Addrs() {
        NodesAreEndpoints(e.0);
        NodesAreEndpoints(e.1);
      }
      if s !in Addrs() || d !in Addrs() {
        UnreachableOutside(Graph(), s, d, Addrs());
      } else {
        LabelsAreExact(Graph(), s, m, d);
        if m[d].cost != COST_INF {
          assert TreeEdge(Graph(), m, d);
        }
      }
    }

    // -------------------------------------------------------- adding a route

    /** There is room for a link exactly when the graph with it fits the table. */
    lemma RoomFor(s: Addr, d: Addr)
      requires Valid()
      ensures |Graph()[(s, d) := 1]| <= LINKS_MAX <==> (s, d) in Graph() || |links| < LINKS_MAX
    {
      GraphSize(links);
      var g, h := Graph(), Graph()[(s, d) := 1];
      assert h.Keys == g.Keys + {(s, d)};
      assert |h.Keys| == |h| && |g.Keys| == |g|;
    }

    method AddUnit(a1: Addr, a2: Addr)
      requires Valid() && |Graph()[(a1, a2) := 1]| <= LINKS_MAX
      modifies this, nodes
      ensures Valid() && Graph() == old(Graph())[(a1, a2) := 1]
      ensures forall i :: 0 <= i < |nodes| ==> nodes[i] in old(nodes) || fresh(nodes[i])
    {
      RoomFor(a1, a2);
      LinkAdd(a1, a2, 1);
    }

    /** One step of `lc_srt_add`. */
    method AddLinks(a1: Addr, a2: Addr, bidir: bool, ghost h: Graph)
      requires Valid() && h == AddStep(Graph(), a1, a2, bidir) && |h| <= LINKS_MAX
      modifies this, nodes
      ensures Valid() && Graph() == h
      ensures forall i :: 0 <= i < |nodes| ==> nodes[i] in old(nodes) || fresh(nodes[i])
    {
      UpdateGrows(Graph()[(a1, a2) := 1], (a2, a1));
      AddUnit(a1, a2);
      if bidir {
        AddUnit(a2, a1);
      }
    }

    /** `lc_srt_add`: every step of the route becomes a link of cost 1, and its reverse
        too when the route is marked bidirectional. */
    method SrtAdd(r: Route, bidir: bool)
      requires Valid() && |AddRoute(Graph(), r, bidir)| <= LINKS_MAX
      modifies this, nodes
      ensures Valid() && Graph() == AddRoute(old(Graph()), r, bidir)
      ensures forall i :: 0 <= i < |nodes| ==> nodes[i] in old(nodes) || fresh(nodes[i])
    {
      ghost var p := r.Path();
      ghost var hs := StepTrace(Graph(), p, bidir);
      var addr1 := AddHops(r.src, r.addrs, p, hs, bidir);
      assert Stepped(hs, p, |r.addrs|, bidir);
      AddLinks(addr1, r.dst, bidir, hs[|r.addrs| + 1]);
    }

    /** The loop of `lc_srt_add` over the intermediate hops; `hs` are the graphs on the way. */
    method AddHops(src: Addr, addrs: seq<Addr>, ghost p: seq<Addr>, ghost hs: seq<Graph>, bidir: bool)
      returns (addr1: Addr)
      requires Valid() && |hs| == |p| == |addrs| + 2 && Graph() == hs[0]
      requires p[0] == src && forall i :: 0 <= i < |addrs| ==> addrs[i] == p[i + 1]
      requires forall i {:trigger Stepped(hs, p, i, bidir)} :: 0 <= i <= |addrs| ==> Stepped(hs, p, i, bidir)
      modifies this, nodes
      ensures Valid() && Graph() == hs[|addrs|] && addr1 == p[|addrs|]
      ensures forall i :: 0 <= i < |nodes| ==> nodes[i] in old(nodes) || fresh(nodes[i])
    {
      addr1 := src;
      for i := 0 to |addrs|
        invariant Valid() && Graph() == hs[i] && addr1 == p[i]
        invariant forall j :: 0 <= j < |nodes| ==> nodes[j] in old(nodes) || fresh(nodes[j])
      {
        var addr2 := addrs[i];
        assert Stepped(hs, p, i, bidir);
        AddLinks(addr1, addr2, bidir, hs[i + 1]);
        addr1 := addr2;
      }
    }
  }

  /** The i-th graph on the way to the i-th but one, which fits the table. */
  ghost predicate Stepped(hs: seq<Graph>, p: seq<Addr>, i: nat, bidir: bool)
    requires i + 1 < |hs| == |p|
  {
    hs[i + 1] == AddStep(hs[i], p[i], p[i + 1], bidir) && |hs[i + 1]| <= LINKS_MAX
  }

  /** The graphs `lc_srt_add` goes through, none larger than the last. */
  lemma StepTrace(g: Graph, p: seq<Addr>, bidir: bool) returns (hs: seq<Graph>)
    requires |p| >= 1 && |AddSteps(g, p, |p| - 1, bidir)| <= LINKS_MAX
    ensures |hs| == |p| && hs[0] == g && hs[|p| - 1] == AddSteps(g, p, |p| - 1, bidir)
    ensures forall i {:trigger Stepped(hs, p, i, bidir)} :: 0 <= i < |p| - 1 ==> Stepped(hs, p, i, bidir)
  {
    hs := seq(|p|, i requires 0 <= i < |p| => AddSteps(g, p, i, bidir));
    forall i | 0 <= i < |p| - 1 ensures Stepped(hs, p, i, bidir) {
      AddStepsGrow(g, p, i + 1, |p| - 1, bidir);
      assert hs[i] == AddSteps(g, p, i, bidir);
      assert hs[i + 1] == AddSteps(g, p, i + 1, bidir);
    }
  }

  lemma GraphSize(ls: seq<Link>)
    requires Distinct(Pairs(ls))
    ensures |GraphOf(ls)| == |ls|
  {
    var g, ps := GraphOf(ls), Pairs(ls);
    forall e | e in g ensures e in ps {
      var l :| l in ls && l.Pair() == e;
      var i :| 0 <= i < |ls| && ls[i] == l;
      assert ps[i] == e;
    }
    forall e | e in ps ensures e in g {
      var i :| 0 <= i < |ps| && ps[i] == e;
      assert ls[i] in ls && ls[i].Pair() == e;
    }
    assert g.Keys == set e | e in ps;
    DistinctSize(ps);
  }

  lemma {:induction false} AddStepsGrow(g: Graph, p: seq<Addr>, i: nat, k: nat, bidir: bool)
    requires i <= k < |p|
    ensures |AddSteps(g, p, i, bidir)| <= |AddSteps(g, p, k, bidir)|
    decreases k
  {
    if i < k {
      var f := AddSteps(g, p, k - 1, bidir);
      UpdateGrows(f, (p[k - 1], p[k]));
      UpdateGrows(f[(p[k - 1], p[k]) := 1], (p[k], p[k - 1]));
      AddStepsGrow(g, p, i, k - 1, bidir);
    }
  }

  lemma UpdateGrows(g: Graph, e: (Addr, Addr))
    ensures |g| <= |g[e := 1]|
  {
    assert |g.Keys| == |g| && |g[e := 1].Keys| == |g[e := 1]|;
    CardMonotone(g.Keys, g[e := 1].Keys);
  }

  /** A run that fails: links along a row of nodes fill the table, and the next one is lost while
      its ends are counted. */
  method FullTable() returns (c: Cache)
    ensures !c.Valid()
  {
    c := new Cache();
    GraphSize(c.links);
    var i := 0;
    while i < LINKS_MAX
      invariant 0 <= i <= LINKS_MAX && fresh(c) && (forall k :: 0 <= k < |c.nodes| ==> fresh(c.nodes[k]))
      invariant c.Valid() && |c.links| == i && RowLinks(c.Graph(), i)
    {
      AddToRow(c, i);
      i := i + 1;
    }
    c.LinkAdd(LINKS_MAX as Addr, 0, 1);
  }

  method AddToRow(c: Cache, i: nat)
    requires c.Valid() && |c.links| == i < LINKS_MAX && RowLinks(c.Graph(), i)
    modifies c, c.nodes
    ensures forall k :: 0 <= k < |c.nodes| ==> c.nodes[k] in old(c.nodes) || fresh(c.nodes[k])
    ensures c.Valid() && |c.links| == i + 1 && RowLinks(c.Graph(), i + 1)
  {
    GraphSize(c.links);
    RowGrows(c.Graph(), i);
    c.LinkAdd(i as Addr, (i + 1) as Addr, 1);
    GraphSize(c.links);
  }

  ghost predicate RowLinks(g: Graph, i: nat) {
    forall e :: e in g ==> e.0 as int < i
  }

  lemma RowGrows(g: Graph, i: nat)
    requires RowLinks(g, i) && i < LINKS_MAX
    ensures var e := (i as Addr, (i + 1) as Addr); |g[e := 1]| == |g| + 1 && RowLinks(g[e := 1], i + 1)
  {
    var e := (i as Addr, (i + 1) as Addr);
    assert e !in g;
    assert g[e := 1].Keys == g.Keys + {e};
    assert |g[e := 1].Keys| == |g.Keys| + 1;
  }
}
