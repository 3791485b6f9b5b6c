/** Walks over the links of a topology, and what the route operations do to them. */
module Walks {
  import opened Routes
  import opened Paths

  type Links = set<(Addr, Addr)>

  ghost predicate Symmetric(e: Links) {
    forall x :: x in e ==> (x.1, x.0) in e
  }

  ghost predicate Hop(e: Links, p: seq<Addr>, i: nat)
    requires i + 1 < |p|
  {
    (p[i], p[i + 1]) in e
  }

  /** Every two neighbours in `p` are joined by a link. */
  ghost predicate Walk(e: Links, p: seq<Addr>) {
    |p| >= 1 && forall i {:trigger Hop(e, p, i)} :: 0 <= i < |p| - 1 ==> Hop(e, p, i)
  }

  lemma WalkReverse(e: Links, p: seq<Addr>)
    requires Symmetric(e) && Walk(e, p)
    ensures Walk(e, ReverseSeq(p))
  {
    var q := ReverseSeq(p);
    forall i | 0 <= i < |q| - 1 ensures Hop(e, q, i) {
      assert Hop(e, p, |p| - 2 - i);
    }
  }

  lemma WalkPrefix(e: Links, p: seq<Addr>, k: nat)
    requires Walk(e, p) && 1 <= k <= |p|
    ensures Walk(e, p[..k])
  {
    forall i | 0 <= i < k - 1 ensures Hop(e, p[..k], i) {
      assert Hop(e, p, i);
    }
  }

  lemma WalkJoin(e: Links, p: seq<Addr>, q: seq<Addr>)
    requires Walk(e, p) && Walk(e, q) && p[|p| - 1] == q[0]
    ensures Walk(e, p + q[1..])
  {
    var w := p + q[1..];
    forall i | 0 <= i < |w| - 1 ensures Hop(e, w, i) {
      if i < |p| - 1 {
        assert Hop(e, p, i);
      } else {
        assert Hop(e, q, i - (|p| - 1));
      }
    }
  }

  lemma WalkAppend(e: Links, p: seq<Addr>, a: Addr)
    requires Walk(e, p) && (p[|p| - 1], a) in e
    ensures Walk(e, p + [a])
  {
    forall i | 0 <= i < |p| ensures Hop(e, p + [a], i) {
      if i < |p| - 1 {
        assert Hop(e, p, i);
      }
    }
  }

  lemma WalkCut(e: Links, p: seq<Addr>, i: nat, j: nat)
    requires Walk(e, p) && i < j < |p| && (p[i], p[j]) in e
    ensures Walk(e, CutPath(p, i, j))
  {
    var q := CutPath(p, i, j);
    forall k | 0 <= k < |q| - 1 ensures Hop(e, q, k) {
      CutElement(p, i, j, k);
      CutElement(p, i, j, k + 1);
      if k < i {
        assert Hop(e, p, k);
      } else if k > i {
        assert Hop(e, p, k + (j - i - 1));
      }
    }
  }

  /** A path over cached links is a walk when every cached link is real. */
  lemma CachedPathIsWalk(e: Links, g: Graph, p: seq<Addr>)
    requires g.Keys <= e && IsPath(g, p)
    ensures Walk(e, p)
  {
    forall i | 0 <= i < |p| - 1 ensures Hop(e, p, i) {
      assert (p[i], p[i + 1]) in g;
    }
  }

  /** Adding a real route adds real links only. */
  lemma AddRouteReal(e: Links, g: Graph, r: Route, bidir: bool)
    requires Symmetric(e) && g.Keys <= e && Walk(e, r.Path())
    ensures AddRoute(g, r, bidir).Keys <= e
  {
    var p, k := r.Path(), |r.addrs| + 1;
    forall x | x in AddRoute(g, r, bidir) ensures x in e {
      AddStepsLinks(g, p, k, bidir, x);
      if x !in g {
        var i :| 0 <= i < k && (x == (p[i], p[i + 1]) || (bidir && x == (p[i + 1], p[i])));
        assert Hop(e, p, i);
      }
    }
  }

  ghost function Ends(e: Links): (v: set<Addr>)
    ensures forall x :: x in e ==> x.0 in v && x.1 in v
  {
    (set x | x in e :: x.0) + (set x | x in e :: x.1)
  }

  /** A walk that visits no node twice is no longer than the number of nodes. */
  lemma DistinctWalkFits(e: Links, p: seq<Addr>)
    requires Walk(e, p) && Distinct(p)
    ensures |p| == 1 || |p| <= |Ends(e)|
  {
    if |p| > 1 {
      var nodes := set a | a in p;
      forall a | a in nodes ensures a in Ends(e) {
        var i :| 0 <= i < |p| && p[i] == a;
        assert if i == 0 then Hop(e, p, 0) else Hop(e, p, i - 1);
      }
      DistinctSize(p);
      CardMonotone(nodes, Ends(e));
    }
  }
}
