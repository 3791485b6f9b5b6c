/** What the network can reach, beside what it never does: every loop-free walk can be
    discovered, and in every state of every run two joined nodes can get a packet through. */
module Discovery {
  import opened Routes
  import opened Paths
  import opened Walks
  import opened Network
  import opened Handlers

  // ------------------------------------------------------------------ traces

  ghost predicate Trace(e: Links, ss: seq<Net>, steps: seq<Step>, s: Net, t: Net) {
    && |ss| == |steps| + 1 && ss[0] == s && ss[|steps|] == t
    && forall i {:trigger Took(e, ss, steps, i)} :: 0 <= i < |steps| ==> Took(e, ss, steps, i)
  }

  /** Steps of the network lead from `s` to `t`. */
  ghost predicate Leads(e: Links, s: Net, t: Net) {
    exists ss, steps :: Trace(e, ss, steps, s, t)
  }

  lemma LeadsNowhere(e: Links, s: Net)
    ensures Leads(e, s, s)
  {
    assert Trace(e, [s], [], s, s);
  }

  lemma TookStays(e: Links, ss: seq<Net>, steps: seq<Step>, u: Net, step: Step, i: nat)
    requires |ss| == |steps| + 1 && i <= |steps|
    requires if i < |steps| then Took(e, ss, steps, i) else Next(e, ss[i], u, step)
    ensures Took(e, ss + [u], steps + [step], i)
  {
    assert (ss + [u])[i] == ss[i];
    if i < |steps| {
      assert (ss + [u])[i + 1] == ss[i + 1] && (steps + [step])[i] == steps[i];
    }
  }

  lemma LeadsOn(e: Links, s: Net, t: Net, u: Net, step: Step)
    requires Leads(e, s, t) && Next(e, t, u, step)
    ensures Leads(e, s, u)
  {
    var ss, steps :| Trace(e, ss, steps, s, t);
    var ss', steps' := ss + [u], steps + [step];
    forall i | 0 <= i < |steps'| ensures Took(e, ss', steps', i) {
      TookStays(e, ss, steps, u, step, i);
    }
    assert Trace(e, ss', steps', s, u);
  }

  lemma LeadsSound(e: Links, s: Net, t: Net)
    requires Symmetric(e) && Sound(e, s) && Leads(e, s, t)
    ensures Sound(e, t)
  {
    var ss, steps :| Trace(e, ss, steps, s, t);
    TraceSound(e, ss, steps, s, t, |steps|);
  }

  lemma {:induction false} TraceSound(e: Links, ss: seq<Net>, steps: seq<Step>, s: Net, t: Net, i: nat)
    requires Symmetric(e) && Sound(e, s) && Trace(e, ss, steps, s, t) && i <= |steps|
    ensures Sound(e, ss[i])
  {
    if i > 0 {
      TraceSound(e, ss, steps, s, t, i - 1);
      assert Took(e, ss, steps, i - 1);
      StepSound(e, ss[i - 1], ss[i], steps[i - 1]);
    }
  }

  /** What a step makes of the state. */
  ghost function After(e: Links, s: Net, step: Step): (t: Net)
    requires Enabled(e, s, step)
    ensures Next(e, s, t, step)
  {
    var f := EffectOf(e, s, step);
    Net(s.caches[step.me := f.cache], s.sent + f.sends)
  }

  /** One step further: the same nodes, the other caches as they were, and everything sent
      before still to be heard. */
  lemma Advance(e: Links, s: Net, t: Net, step: Step) returns (u: Net)
    requires Leads(e, s, t) && Enabled(e, t, step)
    ensures Leads(e, s, u) && u.caches.Keys == t.caches.Keys
    ensures forall a :: a in t.caches && a != step.me ==> u.caches[a] == t.caches[a]
    ensures u.caches[step.me] == EffectOf(e, t, step).cache
    ensures u.sent == t.sent + EffectOf(e, t, step).sends
  {
    u := After(e, t, step);
    LeadsOn(e, s, t, u, step);
  }

  // ---------------------------------------------------------- searches answer

  lemma {:induction false} PrefixCost(g: Graph, p: seq<Addr>, k: nat)
    requires IsPath(g, p) && 1 <= k <= |p|
    ensures IsPath(g, p[..k]) && PathCost(g, p[..k]) <= PathCost(g, p)
    decreases |p|
  {
    if k == |p| {
      assert p[..k] == p;
    } else {
      var q := p[..|p| - 1];
      PrefixCost(g, q, k);
      assert q[..k] == p[..k];
    }
  }

  lemma AppendCost(g: Graph, p: seq<Addr>, a: Addr)
    requires IsPath(g, p) && (p[|p| - 1], a) in g
    ensures IsPath(g, p + [a]) && PathCost(g, p + [a]) == PathCost(g, p) + g[(p[|p| - 1], a)]
  {
    assert (p + [a])[..|p|] == p;
  }

  /** `q` leads where `p` leads, no dearer. */
  ghost predicate NoDearer(g: Graph, q: seq<Addr>, p: seq<Addr>) {
    && IsPath(g, p) && IsPath(g, q) && q[0] == p[0] && q[|q| - 1] == p[|p| - 1]
    && PathCost(g, q) <= PathCost(g, p)
  }

  lemma NoDearerAppend(g: Graph, q: seq<Addr>, p: seq<Addr>, a: Addr)
    requires NoDearer(g, q, p) && (p[|p| - 1], a) in g
    ensures NoDearer(g, q + [a], p + [a])
  {
    AppendCost(g, q, a);
    AppendCost(g, p, a);
  }

  lemma LastLink(g: Graph, p: seq<Addr>)
    requires IsPath(g, p) && |p| > 1
    ensures IsPath(g, p[..|p| - 1]) && (p[|p| - 2], p[|p| - 1]) in g
  {
    assert (p[|p| - 2], p[|p| - 2 + 1]) in g;
  }

  lemma LastApart(q: seq<Addr>, p: seq<Addr>, k: nat)
    requires k < |p|
    ensures var init := p[..|p| - 1];
      p == init + [p[|p| - 1]] && init[..k] == p[..k] && q + p[k..] == q + init[k..] + [p[|p| - 1]]
  {
  }

  lemma {:induction false} NoDearerOn(g: Graph, q: seq<Addr>, p: seq<Addr>, k: nat)
    requires IsPath(g, p) && 1 <= k <= |p| && NoDearer(g, q, p[..k])
    ensures NoDearer(g, q + p[k..], p)
    decreases |p|
  {
    if k == |p| {
      assert q + p[k..] == q && p[..k] == p;
    } else {
      var init, last := p[..|p| - 1], p[|p| - 1];
      LastLink(g, p);
      LastApart(q, p, k);
      NoDearerOn(g, q, init, k);
      NoDearerAppend(g, q + init[k..], init, last);
    }
  }

  /** Leaving out a round trip makes a path no dearer. */
  lemma CutCost(g: Graph, p: seq<Addr>, i: nat, j: nat)
    requires IsPath(g, p) && i < j < |p| && p[i] == p[j]
    ensures NoDearer(g, p[..i + 1] + p[j + 1..], p)
  {
    var m, n := i + 1, j + 1;
    PrefixCost(g, p, n);
    PrefixCost(g, p[..n], m);
    assert p[..n][..m] == p[..m];
    NoDearerOn(g, p[..m], p, n);
  }

  /** Where there is a path there is a cheapest one without loops. */
  lemma CheapestExists(g: Graph, p: seq<Addr>, s: Addr, t: Addr) returns (q: seq<Addr>)
    requires Connects(g, p, s, t)
    ensures Cheapest(g, q, s, t) && Distinct(q)
    decreases PathCost(g, p), |p|
  {
    if !Distinct(p) {
      var i, j :| 0 <= i < j < |p| && p[i] == p[j];
      CutCost(g, p, i, j);
      q := CheapestExists(g, p[..i + 1] + p[j + 1..], s, t);
    } else if cheaper :| Connects(g, cheaper, s, t) && PathCost(g, cheaper) < PathCost(g, p) {
      q := CheapestExists(g, cheaper, s, t);
    } else {
      q := p;
    }
  }

  lemma SomeAnswer(g: Graph, s: Addr, t: Addr) returns (found: Option<Route>)
    ensures RouteAnswer(g, s, t, found)
  {
    if s == t || !Reachable(g, s, t) {
      found := None;
    } else {
      var p :| Connects(g, p, s, t);
      var q := CheapestExists(g, p, s, t);
      found := Some(OfPath(q));
    }
  }

  // ------------------------------------------------- a packet can get through

  /** The transmission of a packet on `r` with `sleft` segments left. */
  function At(r: Route, sleft: nat, reports: seq<Report>, errors: seq<(Addr, Addr)>): (x: Xmit)
    requires sleft <= |r.addrs|
  {
    var p := r.Path();
    Xmit(p[|r.addrs| - sleft], p[|r.addrs| + 1 - sleft],
         Routed(r.src, r.dst, r.addrs, sleft, 0, reports, errors))
  }

  /** The destination has heard the packet: it has forgotten the links reported broken, and if
      there are none it has learnt the packet's route and the routes reported. */
  ghost predicate Heard(t: Net, r: Route, reports: seq<Report>, errors: seq<(Addr, Addr)>) {
    && At(r, 0, reports, errors) in t.sent && r.dst in t.caches
    && (forall i :: 0 <= i < |errors| ==> errors[i] !in t.caches[r.dst])
    && (errors == [] ==>
          && IsPath(t.caches[r.dst], r.Path())
          && forall rep :: rep in reports ==> IsPath(t.caches[r.dst], ReportRoute(r.dst, rep).Path()))
  }

  ghost predicate Members(s: Net, p: seq<Addr>) {
    forall a :: a in p ==> a in s.caches
  }

  lemma AddedIsPath(g: Graph, r: Route, bidir: bool)
    ensures IsPath(AddRoute(g, r, bidir), r.Path()) && g.Keys <= AddRoute(g, r, bidir).Keys
  {
    var p, k := r.Path(), |r.addrs| + 1;
    forall i | 0 <= i < k ensures (p[i], p[i + 1]) in AddRoute(g, r, bidir) {
      AddStepsLinks(g, p, k, bidir, (p[i], p[i + 1]));
    }
    forall x | x in g ensures x in AddRoute(g, r, bidir) {
      AddStepsLinks(g, p, k, bidir, x);
    }
  }

  lemma PathStays(g: Graph, h: Graph, p: seq<Addr>)
    requires g.Keys <= h.Keys && IsPath(g, p)
    ensures IsPath(h, p)
  {
  }

  lemma {:induction false} ReportsLearnt(g: Graph, dst: Addr, reports: seq<Report>)
    ensures g.Keys <= LearnReports(g, dst, reports, false).Keys
    ensures forall rep :: rep in reports ==>
              IsPath(LearnReports(g, dst, reports, false), ReportRoute(dst, rep).Path())
    decreases |reports|
  {
    if reports != [] {
      var r := ReportRoute(dst, reports[0]);
      var h := AddRoute(g, r, false);
      AddedIsPath(g, r, false);
      ReportsLearnt(h, dst, reports[1..]);
      PathStays(h, LearnReports(g, dst, reports, false), r.Path());
      forall rep | rep in reports
        ensures IsPath(LearnReports(g, dst, reports, false), ReportRoute(dst, rep).Path())
      {
        assert rep == reports[0] || rep in reports[1..];
      }
    }
  }

  /** The last hop: the destination hears the packet. */
  lemma Arrive(e: Links, s: Net, t: Net, r: Route, reports: seq<Report>, errors: seq<(Addr, Addr)>) returns (u: Net)
    requires Leads(e, s, t) && r.Simple() && Walk(e, r.Path()) && Members(t, r.Path())
    requires At(r, 0, reports, errors) in t.sent
    ensures Leads(e, s, u) && Heard(u, r, reports, errors) && u.caches.Keys == t.caches.Keys
  {
    var x := At(r, 0, reports, errors);
    var step := HearRouted(r.dst, x, false, false, false);
    assert Hop(e, r.Path(), |r.addrs|);
    assert RouteOf(x.pkt) == r && r.dst in r.Path();
    u := Advance(e, s, t, step);
    var c := LearnRoute(r.dst, t.caches[r.dst], r, 0, false, false);
    assert IsPath(c, r.Path()) by {
      AddedIsPath(t.caches[r.dst][(r.dst, PrevHop(r, -1)) := 1], r, false);
    }
    ReportsLearnt(c, r.dst, reports);
    var d := LearnReports(c, r.dst, reports, false);
    assert u.caches[r.dst] == LearnErrors(d, errors);
    ForgetsErrors(d, errors);
    PathStays(c, d, r.Path());
  }

  /** A packet anywhere on a real route can be forwarded to its destination. */
  lemma {:induction false} Travel(e: Links, s: Net, t: Net, r: Route, sleft: nat, reports: seq<Report>,
                                  errors: seq<(Addr, Addr)>)
    returns (u: Net)
    requires Leads(e, s, t) && r.Simple() && Walk(e, r.Path()) && Members(t, r.Path())
    requires sleft <= |r.addrs| && At(r, sleft, reports, errors) in t.sent
    ensures Leads(e, s, u) && Heard(u, r, reports, errors) && u.caches.Keys == t.caches.Keys
    decreases sleft
  {
    if sleft == 0 {
      u := Arrive(e, s, t, r, reports, errors);
    } else {
      var x, me := At(r, sleft, reports, errors), r.Path()[|r.addrs| + 1 - sleft];
      assert Hop(e, r.Path(), |r.addrs| - sleft);
      assert RouteOf(x.pkt) == r && me in r.Path();
      var next := Advance(e, s, t, HearRouted(me, x, false, false, false));
      assert At(r, sleft - 1, reports, errors) == Xmit(me, NextHop(r, sleft - 1), x.pkt.(sleft := sleft - 1));
      u := Travel(e, s, next, r, sleft - 1, reports, errors);
    }
  }

  /** An error can be reported to every node a route is known to, which then forgets the links. */
  lemma ErrorGetsThrough(e: Links, ss: seq<Net>, steps: seq<Step>, i: nat, r: Route, errors: seq<(Addr, Addr)>)
    returns (t: Net)
    requires Symmetric(e) && Run(e, ss, steps) && i < |ss| && Ends(e) <= ss[i].caches.Keys
    requires r.src in ss[i].caches && RouteAnswer(ss[i].caches[r.src], r.src, r.dst, Some(r))
    ensures Leads(e, ss[i], t) && Heard(t, r, [], errors)
  {
    var s := ss[i];
    RunSound(e, ss, steps, i);
    FoundRoute(e, s.caches[r.src], r.src, r.dst, r);
    WalkMembers(e, s, r.Path());
    LeadsNowhere(e, s);
    var u := Advance(e, s, s, SendError(r.src, r, errors));
    assert SendOn(r, [], errors) == At(r, |r.addrs|, [], errors);
    t := Travel(e, s, u, r, |r.addrs|, [], errors);
  }

  // ------------------------------------------------------ a route can be found

  /** The request for the last node of `p` that has come to `p[k]`. */
  function Asking(p: seq<Addr>, id: nat, k: nat): (x: Xmit)
    requires k + 1 < |p|
  {
    Xmit(p[k], BROADCAST, Rreq(p[0], p[|p| - 1], id, p[1..k + 1]))
  }

  /** The nodes behind `p[k]` have the caches they had. */
  ghost predicate Untouched(s: Net, t: Net, p: seq<Addr>, k: nat) {
    && t.caches.Keys == s.caches.Keys
    && forall j :: k < j < |p| && p[j] in s.caches ==> t.caches[p[j]] == s.caches[p[j]]
  }

  ghost predicate NothingCached(s: Net, p: seq<Addr>) {
    forall a :: a in p && a in s.caches ==> s.caches[a] == map[]
  }

  /** `p[k]` has answered that `route` leads to the last node of `p`. */
  ghost predicate Answered(t: Net, p: seq<Addr>, k: nat, route: Route) {
    && 1 <= k < |p| && route.src == p[0] && route.dst == p[|p| - 1] && route.LoopFree()
    && SendReply(Reverse(OfPath(p[..k + 1])), route) in t.sent
  }

  /** Every link of a route joins two of its nodes. */
  lemma AddedEnds(r: Route, x: (Addr, Addr))
    requires x in AddRoute(map[], r, false)
    ensures x.0 in r.Path() && x.1 in r.Path()
  {
    AddStepsLinks(map[], r.Path(), |r.addrs| + 1, false, x);
  }

  lemma ReverseElement(p: seq<Addr>, a: Addr)
    requires a in ReverseSeq(p)
    ensures a in p
  {
  }

  /** A node that knows only the way back does not know the target. */
  lemma OnlyTheWayBack(p: seq<Addr>, k: nat)
    requires Distinct(p) && 1 <= k < |p| - 1
    ensures !Reachable(AddRoute(map[], Reverse(OfPath(p[..k + 1])), false), p[k], p[|p| - 1])
  {
    var way, target := p[..k + 1], p[|p| - 1];
    var g, nodes := AddRoute(map[], Reverse(OfPath(way)), false), set a | a in way;
    forall x | x in g ensures x.0 in nodes && x.1 in nodes {
      AddedEnds(Reverse(OfPath(way)), x);
      ReverseElement(way, x.0);
      ReverseElement(way, x.1);
    }
    assert target !in way && p[k] != target;
    UnreachableOutside(g, p[k], target, nodes);
  }

  /** The request moves from `p[k - 1]` to `p[k]`, which answers it or passes it on; when
      nothing was cached it is passed on up to the target, which answers with `p`. */
  lemma Ask(e: Links, s: Net, t: Net, p: seq<Addr>, id: nat, k: nat) returns (u: Net, route: Option<Route>)
    requires Leads(e, s, t) && Walk(e, p) && Distinct(p) && Members(s, p)
    requires 1 <= k < |p| && Untouched(s, t, p, k - 1) && Asking(p, id, k - 1) in t.sent
    ensures Leads(e, s, u) && Untouched(s, u, p, k)
    ensures route.Some? ==> Answered(u, p, k, route.value)
    ensures route.None? ==> k + 1 < |p| && Asking(p, id, k) in u.sent
    ensures NothingCached(s, p) ==> route == if k + 1 == |p| then Some(OfPath(p)) else None
  {
    var me, x := p[k], Asking(p, id, k - 1);
    var srt := Route(p[0], me, p[1..k]);
    assert srt.Path() == p[..k + 1];
    PathInjective(srt, OfPath(p[..k + 1]));
    var g := AddRoute(t.caches[me], Reverse(srt), false);
    var found := SomeAnswer(g, me, p[|p| - 1]);
    assert Hop(e, p, k - 1);
    u := Advance(e, s, t, HearRreq(me, x, found, false));
    var f := OnRreq(me, t.caches[me], x.pkt, found, false);
    assert me !in x.pkt.record && me != x.pkt.src;
    if k + 1 == |p| {
      assert p[..k + 1] == p;
      route := Some(srt);
    } else if found.Some? && Concatenate(srt, found.value).LoopFree() {
      if NothingCached(s, p) {
        OnlyTheWayBack(p, k);
        assert false;
      }
      route := Some(Concatenate(srt, found.value));
    } else {
      assert p[1..k + 1] == p[1..k] + [me];
      route := None;
    }
  }

  /** Asked from `p[k - 1]` on, some node of `p` answers. */
  lemma {:induction false} AskAll(e: Links, s: Net, t: Net, p: seq<Addr>, id: nat, k: nat)
    returns (u: Net, j: nat, route: Route)
    requires Leads(e, s, t) && Walk(e, p) && Distinct(p) && Members(s, p)
    requires 1 <= k < |p| && Untouched(s, t, p, k - 1) && Asking(p, id, k - 1) in t.sent
    ensures Leads(e, s, u) && u.caches.Keys == s.caches.Keys && Answered(u, p, j, route)
    ensures NothingCached(s, p) ==> route == OfPath(p)
    decreases |p| - k
  {
    var found;
    u, found := Ask(e, s, t, p, id, k);
    if found.Some? {
      j, route := k, found.value;
    } else {
      u, j, route := AskAll(e, s, u, p, id, k + 1);
    }
  }

  /** The initiator has heard a reply that reports `route` and has it in its cache. */
  ghost predicate Discovered(t: Net, route: Route) {
    && (exists back: Route :: back.dst == route.src && Heard(t, back, [Report(route.addrs, route.dst)], []))
    && route.src in t.caches && IsPath(t.caches[route.src], route.Path())
  }

  /** The way back of a reply is real. */
  lemma WayBack(e: Links, p: seq<Addr>, j: nat)
    requires Symmetric(e) && Walk(e, p) && Distinct(p) && 1 <= j < |p|
    ensures var back := Reverse(OfPath(p[..j + 1]));
      back.Simple() && Walk(e, back.Path()) && back.dst == p[0] && forall a :: a in back.Path() ==> a in p
  {
    var there := OfPath(p[..j + 1]);
    WalkPrefix(e, p, j + 1);
    WalkReverse(e, there.Path());
    assert there.LoopFree();
    LoopFreeIsSimple(there);
    ReverseSimple(there);
    forall a | a in Reverse(there).Path() ensures a in p {
      ReverseElement(there.Path(), a);
    }
  }

  /** From every state whatever, whatever the caches hold, and for every loop-free walk, a
      discovery can end with a route to the walk's end in the initiator's cache. */
  lemma Discoverable(e: Links, s: Net, p: seq<Addr>, id: nat) returns (t: Net, route: Route)
    requires Symmetric(e) && Walk(e, p) && Distinct(p) && |p| >= 2 && Members(s, p)
    ensures Leads(e, s, t) && t.caches.Keys == s.caches.Keys && Discovered(t, route)
    ensures route.src == p[0] && route.dst == p[|p| - 1] && route.LoopFree()
    ensures NothingCached(s, p) ==> route == OfPath(p)
  {
    LeadsNowhere(e, s);
    var asked := Advance(e, s, s, Discover(p[0], p[|p| - 1], id));
    assert p[1..1] == [] && Asking(p, id, 0) in asked.sent;
    var answered, j;
    answered, j, route := AskAll(e, s, asked, p, id, 1);
    var back, reports := Reverse(OfPath(p[..j + 1])), [Report(route.addrs, route.dst)];
    WayBack(e, p, j);
    assert SendReply(back, route) == At(back, |back.addrs|, reports, []);
    t := Travel(e, s, answered, back, |back.addrs|, reports, []);
    assert Heard(t, back, reports, []) && reports[0] in reports;
    assert ReportRoute(back.dst, reports[0]) == route;
  }

  /** For every loop-free walk there is a run from an initial state in which a reply that
      reports exactly this walk reaches its first node, whose cache then holds it. */
  lemma EveryWalkIsDiscovered(e: Links, s: Net, p: seq<Addr>, id: nat) returns (ss: seq<Net>, steps: seq<Step>)
    requires Symmetric(e) && Init(s) && Walk(e, p) && Distinct(p) && |p| >= 2 && Members(s, p)
    ensures Run(e, ss, steps) && ss[0] == s && Discovered(ss[|steps|], OfPath(p))
    ensures forall found :: RouteAnswer(ss[|steps|].caches[p[0]], p[0], p[|p| - 1], found) ==> found.Some?
  {
    var t, route := Discoverable(e, s, p, id);
    ss, steps :| Trace(e, ss, steps, s, t);
    assert Connects(t.caches[p[0]], p, p[0], p[|p| - 1]);
  }

  /** In every state of every run a node can discover a route to every node a walk leads
      to, and then send it a packet that gets through, on a real loop-free route. */
  lemma EveryRunCanDeliver(e: Links, ss: seq<Net>, steps: seq<Step>, i: nat, p: seq<Addr>, id: nat)
    returns (t: Net, r: Route)
    requires Symmetric(e) && Run(e, ss, steps) && i < |ss| && Ends(e) <= ss[i].caches.Keys
    requires Walk(e, p) && p[0] != p[|p| - 1]
    ensures Leads(e, ss[i], t) && Heard(t, r, [], [])
    ensures r.src == p[0] && r.dst == p[|p| - 1] && r.LoopFree() && Walk(e, r.Path())
  {
    var s := ss[i];
    RunSound(e, ss, steps, i);
    var q := WithoutLoops(e, p);
    WalkMembers(e, s, q);
    var u, route := Discoverable(e, s, q, id);
    LeadsSound(e, s, u);
    var cache := u.caches[p[0]];
    var found := SomeAnswer(cache, p[0], p[|p| - 1]);
    assert Connects(cache, route.Path(), p[0], p[|p| - 1]);
    r := found.value;
    FoundRoute(e, cache, p[0], p[|p| - 1], r);
    WalkMembers(e, u, r.Path());
    var v := Advance(e, s, u, SendData(p[0], r));
    assert SendOn(r, [], []) == At(r, |r.addrs|, [], []);
    t := Travel(e, s, v, r, |r.addrs|, [], []);
  }

  lemma WithoutLoops(e: Links, p: seq<Addr>) returns (q: seq<Addr>)
    requires Walk(e, p)
    ensures Walk(e, q) && Distinct(q) && q[0] == p[0] && q[|q| - 1] == p[|p| - 1]
  {
    var g: Graph := map x | x in e :: 1;
    forall i | 0 <= i < |p| - 1 ensures (p[i], p[i + 1]) in g {
      assert Hop(e, p, i);
    }
    q := CheapestExists(g, p, p[0], p[|p| - 1]);
    CachedPathIsWalk(e, g, q);
  }

  lemma WalkMembers(e: Links, s: Net, p: seq<Addr>)
    requires Walk(e, p) && |p| >= 2 && Ends(e) <= s.caches.Keys
    ensures Members(s, p)
  {
    forall a | a in p ensures a in s.caches {
      var i :| 0 <= i < |p| && p[i] == a;
      assert if i == 0 then Hop(e, p, 0) else Hop(e, p, i - 1);
    }
  }
}
