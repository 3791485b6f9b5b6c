/** What the handlers of `Network` do, told on paths and packets: who answers a request and
    with which route, which links are learnt and forgotten, which packets are passed on. */
module Handlers {
  import opened Routes
  import opened Paths
  import opened Walks
  import opened Forwarding
  import opened Network
  import MaintEntries
  import MaintState

  // -------------------------------------------------------------- requests

  /** The nodes a request has come by, with the node that hears it. */
  function Way(me: Addr, pkt: Packet): (w: seq<Addr>)
    requires pkt.Rreq?
  {
    [pkt.src] + pkt.record + [me]
  }

  /** A reply from `me` that goes back the way the request came and reports `hops`. */
  function BackTo(me: Addr, pkt: Packet, hops: seq<Addr>): (y: Xmit)
    requires pkt.Rreq?
  {
    Xmit(me, Way(me, pkt)[|pkt.record|],
         Routed(me, pkt.src, ReverseSeq(pkt.record), |pkt.record|, 0, [Report(hops, pkt.target)], []))
  }

  /** The target answers with the way the request came.  Any other node that is not on the way
      already answers exactly when it has a route that leads on without meeting the way again, and
      otherwise passes the request on with its own address. */
  lemma RreqSends(me: Addr, cache: Graph, pkt: Packet, found: Option<Route>, bidir: bool)
    requires pkt.Rreq? && (found.Some? ==> found.value.src == me && found.value.dst == pkt.target)
    ensures OnRreq(me, cache, pkt, found, bidir).sends ==
      if me == pkt.target then {BackTo(me, pkt, pkt.record)}
      else if me == pkt.src || me in pkt.record then {}
      else if found.Some? && Distinct([pkt.src] + pkt.record + found.value.Path()) then
        {BackTo(me, pkt, pkt.record + [me] + found.value.addrs)}
      else {Xmit(me, BROADCAST, Rreq(pkt.src, pkt.target, pkt.id, pkt.record + [me]))}
  {
    var srt := Route(pkt.src, me, pkt.record);
    assert NextHop(Reverse(srt), |pkt.record|) == Way(me, pkt)[|pkt.record|];
    if found.Some? {
      assert Concatenate(srt, found.value).Path() == [pkt.src] + pkt.record + found.value.Path();
    }
  }

  /** A hop of `p` backwards, or either way if `bidir`. */
  ghost predicate BackHop(p: seq<Addr>, bidir: bool, x: (Addr, Addr)) {
    exists i :: 0 <= i < |p| - 1 && (x == (p[i + 1], p[i]) || (bidir && x == (p[i], p[i + 1])))
  }

  /** Every node that hears a request learns exactly the way back, whatever else it does. */
  lemma RreqLearns(me: Addr, cache: Graph, pkt: Packet, found: Option<Route>, bidir: bool, x: (Addr, Addr))
    requires pkt.Rreq?
    ensures var c, back := OnRreq(me, cache, pkt, found, bidir).cache, BackHop(Way(me, pkt), bidir, x);
      && (x in c <==> x in cache || back)
      && (x in c ==> c[x] == if back then 1 else cache[x])
  {
    WayBackLinks(cache, Route(pkt.src, me, pkt.record), bidir, x);
  }

  lemma WayBackLinks(cache: Graph, srt: Route, bidir: bool, x: (Addr, Addr))
    ensures var c, back := AddRoute(cache, Reverse(srt), bidir), BackHop(srt.Path(), bidir, x);
      && (x in c <==> x in cache || back)
      && (x in c ==> c[x] == if back then 1 else cache[x])
  {
    BackwardLinks(srt.Path(), bidir, x);
    AddStepsLinks(cache, Reverse(srt).Path(), |srt.addrs| + 1, bidir, x);
  }

  lemma BackwardLinks(p: seq<Addr>, bidir: bool, x: (Addr, Addr))
    requires |p| >= 2
    ensures StepLink(ReverseSeq(p), |p| - 1, bidir, x) <==> BackHop(p, bidir, x)
  {
    var q, n := ReverseSeq(p), |p| - 2;
    if StepLink(q, |p| - 1, bidir, x) {
      var i :| 0 <= i < |p| - 1 && (x == (q[i], q[i + 1]) || (bidir && x == (q[i + 1], q[i])));
      var j := n - i;
      assert q[i] == p[j + 1] && q[i + 1] == p[j];
    }
    if BackHop(p, bidir, x) {
      var j :| 0 <= j < |p| - 1 && (x == (p[j + 1], p[j]) || (bidir && x == (p[j], p[j + 1])));
      var i := n - j;
      assert q[i] == p[j + 1] && q[i + 1] == p[j];
    }
  }

  // --------------------------------------------------------- routed packets

  /** The packet says truly to whom it is sent, as it does in every run. */
  ghost predicate WellFormed(x: Xmit) {
    && x.pkt.Routed? && x.pkt.sleft <= |x.pkt.addrs| && RouteOf(x.pkt).Simple()
    && x.next == NextHop(RouteOf(x.pkt), x.pkt.sleft)
  }

  /** Is a gratuitous reply due?  The node is further along the route than the hop the packet is
      meant for and, as the destination, heard the source itself. */
  ghost predicate Shortens(r: Route, sleft: nat, me: Addr) {
    SeesShortcut(r, sleft, me) && (me == r.dst ==> sleft == |r.addrs|)
  }

  /** What a node sends on hearing `x`. */
  ghost function Sends(me: Addr, cache: Graph, x: Xmit, shorten: bool, bidir: bool, bidirReports: bool): set<Xmit>
    requires WellFormed(x)
  {
    OnRouted(me, cache, x, shorten, bidir, bidirReports).sends
  }

  /** The node a packet is meant for passes it on with one segment less, until none is left, and
      sends nothing else. */
  lemma PassesOn(me: Addr, cache: Graph, x: Xmit, shorten: bool, bidir: bool, bidirReports: bool)
    requires WellFormed(x) && x.next == me
    ensures var r, sleft := RouteOf(x.pkt), x.pkt.sleft;
      Sends(me, cache, x, shorten, bidir, bidirReports) ==
      if sleft == 0 then {} else {Xmit(me, r.Path()[|r.addrs| + 2 - sleft], x.pkt.(sleft := sleft - 1))}
  {
    assert GratReply(RouteOf(x.pkt), x.pkt.sleft, me) == None;
  }

  /** A node that overhears a packet sends a gratuitous reply if that is enabled and due, and
      nothing else. */
  lemma Overhears(me: Addr, cache: Graph, x: Xmit, shorten: bool, bidir: bool, bidirReports: bool)
    returns (g: Option<Reply>)
    requires WellFormed(x) && x.next != me
    ensures g.Some? <==> shorten && me != x.pkt.src && Shortens(RouteOf(x.pkt), x.pkt.sleft, me)
    ensures g.Some? ==> g == GratReply(RouteOf(x.pkt), x.pkt.sleft, me)
    ensures Sends(me, cache, x, shorten, bidir, bidirReports) ==
            if g.Some? then {Replying(g.value)} else {}
  {
    g := if shorten && me != x.pkt.src then GratReply(RouteOf(x.pkt), x.pkt.sleft, me) else None;
    ReplyDue(RouteOf(x.pkt), x.pkt.sleft, me);
    OverheardSends(me, cache, x, shorten, bidir, bidirReports);
    RepliesAre(g);
  }

  lemma ReplyDue(r: Route, sleft: nat, me: Addr)
    ensures r.Simple() ==> (GratReply(r, sleft, me).Some? <==> Shortens(r, sleft, me))
  {
    if r.Simple() {
      GratReplySentWhen(r, sleft, me);
    }
  }

  lemma OverheardSends(me: Addr, cache: Graph, x: Xmit, shorten: bool, bidir: bool, bidirReports: bool)
    requires WellFormed(x) && x.next != me
    ensures Sends(me, cache, x, shorten, bidir, bidirReports) ==
            Replies(if shorten && me != x.pkt.src then GratReply(RouteOf(x.pkt), x.pkt.sleft, me) else None)
  {
  }

  lemma RepliesAre(g: Option<Reply>)
    ensures Replies(g) == if g.Some? then {Replying(g.value)} else {}
  {
  }

  /** The packet a reply is: it sets out on its route with the reported one. */
  function Replying(g: Reply): (y: Xmit)
    ensures y.from == g.travels.src && y.next == g.travels.Path()[1]
    ensures y.pkt.Routed? && RouteOf(y.pkt) == g.travels && y.pkt.sleft == |g.travels.addrs|
  {
    var t := g.travels;
    Xmit(t.src, t.Path()[1],
         Routed(t.src, t.dst, t.addrs, |t.addrs|, 0, [Report(g.reports.addrs, g.reports.dst)], []))
  }

  /** How much of the route a node takes for travelled: all of it at the destination, otherwise up
      to the node the packet was sent to, or up to its sender when overheard. */
  function Travelled(me: Addr, r: Route, sleft: nat, overheard: bool): (k: nat)
    requires sleft <= |r.addrs|
    ensures k <= |r.addrs| + 1
  {
    if r.dst == me then |r.addrs| + 1
    else if overheard then |r.addrs| - sleft
    else |r.addrs| - sleft + 1
  }

  /** Exactly the links travelled are learnt, and the one back to the sender unless the packet was
      overheard. */
  lemma LearnsTravelled(me: Addr, cache: Graph, r: Route, sleft: nat, overheard: bool, bidir: bool, x: (Addr, Addr))
    requires r.Simple() && sleft <= |r.addrs| && (!overheard ==> me == NextHop(r, sleft))
    ensures var c, sender := LearnRoute(me, cache, r, sleft, overheard, bidir), r.Path()[|r.addrs| - sleft];
      && var learnt := StepLink(r.Path(), Travelled(me, r, sleft, overheard), bidir, x)
                       || (!overheard && x == (me, sender));
      && (x in c <==> x in cache || learnt)
      && (x in c ==> c[x] == if learnt then 1 else cache[x])
  {
    var p, prev, k := r.Path(), PrevHop(r, sleft - 1), Travelled(me, r, sleft, overheard);
    var c := if overheard then cache else cache[(me, prev) := 1];
    if r.dst == me {
      AddStepsLinks(c, p, k, bidir, x);
    } else if k > 0 {
      SplitTravelled(r, k, c, bidir);
      assert p[k] == if overheard then prev else me;
      AddStepsLinks(c, p, k, bidir, x);
    } else {
      assert prev == r.src && prev !in r.addrs by {
        SimpleHops(r);
      }
    }
  }

  /** Splitting a route at its hop in place `k` leaves the links up to there. */
  lemma SplitTravelled(r: Route, k: nat, c: Graph, bidir: bool)
    requires r.Simple() && 1 <= k <= |r.addrs|
    ensures Split(r, r.Path()[k]).Some?
    ensures AddRoute(c, Split(r, r.Path()[k]).value, bidir) == AddSteps(c, r.Path(), k, bidir)
  {
    var p, a := r.Path(), r.Path()[k];
    assert r.addrs[k - 1] == a;
    var part := Split(r, a).value;
    var j := |part.addrs| + 1;
    assert part.Path()[j] == a && p[j] == p[..|r.addrs| + 1][j] == a;
    TailUnique(r, j, k);
    assert part.Path() == p[..k + 1];
    SameSteps(c, p, k, k, bidir);
  }

  lemma {:induction false} SameSteps(c: Graph, p: seq<Addr>, n: nat, k: nat, bidir: bool)
    requires k <= n < |p|
    ensures AddSteps(c, p[..n + 1], k, bidir) == AddSteps(c, p, k, bidir)
  {
    if k > 0 { SameSteps(c, p, n, k - 1, bidir); }
  }

  /** The links of the routes reported are learnt, and no others. */
  lemma {:induction false} LearnsReports(c: Graph, dst: Addr, reports: seq<Report>, bidir: bool, x: (Addr, Addr))
    ensures var d, learnt := LearnReports(c, dst, reports, bidir), Reported(dst, reports, bidir, x);
      && (x in d <==> x in c || learnt)
      && (x in d ==> d[x] == if learnt then 1 else c[x])
    decreases |reports|
  {
    if reports != [] {
      var r, rest := ReportRoute(dst, reports[0]), reports[1..];
      var d := AddRoute(c, r, bidir);
      AddStepsLinks(c, r.Path(), |r.addrs| + 1, bidir, x);
      LearnsReports(d, dst, rest, bidir, x);
      assert Reported(dst, reports, bidir, x) <==> OnRoute(r, bidir, x) || Reported(dst, rest, bidir, x) by {
        ReportedCons(dst, reports, bidir, x);
      }
    }
  }

  ghost predicate OnRoute(r: Route, bidir: bool, x: (Addr, Addr)) {
    StepLink(r.Path(), |r.addrs| + 1, bidir, x)
  }

  ghost predicate Reported(dst: Addr, reports: seq<Report>, bidir: bool, x: (Addr, Addr)) {
    exists i :: 0 <= i < |reports| && OnRoute(ReportRoute(dst, reports[i]), bidir, x)
  }

  lemma ReportedCons(dst: Addr, reports: seq<Report>, bidir: bool, x: (Addr, Addr))
    requires reports != []
    ensures Reported(dst, reports, bidir, x) <==>
            OnRoute(ReportRoute(dst, reports[0]), bidir, x) || Reported(dst, reports[1..], bidir, x)
  {
    if Reported(dst, reports[1..], bidir, x) {
      var i :| 0 <= i < |reports| - 1 && OnRoute(ReportRoute(dst, reports[1..][i]), bidir, x);
      assert OnRoute(ReportRoute(dst, reports[i + 1]), bidir, x);
    }
    if Reported(dst, reports, bidir, x) {
      var i :| 0 <= i < |reports| && OnRoute(ReportRoute(dst, reports[i]), bidir, x);
      if i > 0 {
        assert reports[1..][i - 1] == reports[i];
      }
    }
  }

  /** After the errors no link they report is left, and only such links and their reverses go. */
  lemma {:induction false} ForgetsErrors(c: Graph, errors: seq<(Addr, Addr)>)
    ensures var d := LearnErrors(c, errors);
      && (forall x :: x in d ==> x in c && d[x] == c[x])
      && (forall i :: 0 <= i < |errors| ==> errors[i] !in d)
      && (forall x :: x in c && x !in errors && (x.1, x.0) !in errors ==> x in d)
    decreases |errors|
  {
    if errors != [] {
      var a, b, rest := errors[0].0, errors[0].1, errors[1..];
      ForgetsErrors(DeleteLink(c, a, b), rest);
      var d := LearnErrors(c, errors);
      forall i | 0 <= i < |errors| ensures errors[i] !in d {
        if i > 0 {
          assert errors[i] == rest[i - 1];
        }
      }
      forall x | x in c && x !in errors && (x.1, x.0) !in errors ensures x in d {
        assert errors[0] in errors;
        assert x in DeleteLink(c, a, b) && x !in rest && (x.1, x.0) !in rest;
      }
    }
  }

  /** The cache after hearing `x`. */
  ghost function Knows(me: Addr, cache: Graph, x: Xmit, shorten: bool, bidir: bool, bidirReports: bool): Graph
    requires WellFormed(x)
  {
    OnRouted(me, cache, x, shorten, bidir, bidirReports).cache
  }

  /** A link the node learns from the packet, apart from errors. */
  ghost predicate Learnt(me: Addr, x: Xmit, bidir: bool, bidirReports: bool, l: (Addr, Addr))
    requires WellFormed(x)
  {
    var r, sleft := RouteOf(x.pkt), x.pkt.sleft;
    || StepLink(r.Path(), Travelled(me, r, sleft, x.next != me), bidir, l)
    || (x.next == me && (l == (me, r.Path()[|r.addrs| - sleft]) || Reported(r.dst, x.pkt.reports, bidirReports, l)))
  }

  /** A node that overhears a packet learns the links travelled and nothing else, and nothing at
      all from its own. */
  lemma OverheardLearns(me: Addr, cache: Graph, x: Xmit, shorten: bool, bidir: bool, bidirReports: bool,
                        l: (Addr, Addr))
    requires WellFormed(x) && x.next != me
    ensures var c := Knows(me, cache, x, shorten, bidir, bidirReports);
      if me == x.pkt.src then c == cache else l in c <==> l in cache || Learnt(me, x, bidir, bidirReports, l)
  {
    LearnsTravelled(me, cache, RouteOf(x.pkt), x.pkt.sleft, true, bidir, l);
  }

  /** The node a packet is meant for learns the links travelled, the one back to the sender and
      the routes reported, and then forgets the links reported broken. */
  lemma MeantLearns(me: Addr, cache: Graph, x: Xmit, shorten: bool, bidir: bool, bidirReports: bool, l: (Addr, Addr))
    requires WellFormed(x) && x.next == me
    ensures var c, known := Knows(me, cache, x, shorten, bidir, bidirReports),
                            l in cache || Learnt(me, x, bidir, bidirReports, l);
      && (l in c ==> known && l !in x.pkt.errors)
      && (known && l !in x.pkt.errors && (l.1, l.0) !in x.pkt.errors ==> l in c)
  {
    var d := BeforeErrors(me, cache, x, bidir, bidirReports);
    BeforeErrorsLearns(me, cache, x, bidir, bidirReports, l);
    ForgetsErrors(d, x.pkt.errors);
    MeantForgets(me, cache, x, shorten, bidir, bidirReports);
  }

  ghost function BeforeErrors(me: Addr, cache: Graph, x: Xmit, bidir: bool, bidirReports: bool): Graph
    requires WellFormed(x)
  {
    var c := LearnRoute(me, cache, RouteOf(x.pkt), x.pkt.sleft, false, bidir);
    LearnReports(c, x.pkt.dst, x.pkt.reports, bidirReports)
  }

  lemma MeantForgets(me: Addr, cache: Graph, x: Xmit, shorten: bool, bidir: bool, bidirReports: bool)
    requires WellFormed(x) && x.next == me
    ensures Knows(me, cache, x, shorten, bidir, bidirReports) ==
            LearnErrors(BeforeErrors(me, cache, x, bidir, bidirReports), x.pkt.errors)
  {
  }

  lemma BeforeErrorsLearns(me: Addr, cache: Graph, x: Xmit, bidir: bool, bidirReports: bool, l: (Addr, Addr))
    requires WellFormed(x) && x.next == me
    ensures l in BeforeErrors(me, cache, x, bidir, bidirReports) <==>
            l in cache || Learnt(me, x, bidir, bidirReports, l)
  {
    var r := RouteOf(x.pkt);
    LearnsTravelled(me, cache, r, x.pkt.sleft, false, bidir, l);
    LearnsReports(LearnRoute(me, cache, r, x.pkt.sleft, false, bidir), r.dst, x.pkt.reports, bidirReports, l);
  }

  /** Every step changes the cache of its node only, and what was sent can still be heard. */
  lemma StepsApply(e: Links, s: Net, t: Net, step: Step)
    requires Next(e, s, t, step)
    ensures t.caches.Keys == s.caches.Keys && s.sent <= t.sent
    ensures forall a :: a in s.caches && a != step.me ==> t.caches[a] == s.caches[a]
    ensures step.HearRreq? ==>
      Effect(t.caches[step.me], t.sent) ==
      Adding(s, OnRreq(step.me, s.caches[step.me], step.x.pkt, step.found, step.bidir))
    ensures step.HearRouted? ==>
      Effect(t.caches[step.me], t.sent) ==
      Adding(s, OnRouted(step.me, s.caches[step.me], step.x, step.shorten, step.bidir, step.bidirReports))
    ensures step.Salvage? ==>
      && var y := OnSalvage(step.me, step.x, step.first, step.found);
      && t.caches == s.caches && t.sent == s.sent + if y.Some? then {y.value} else {}
  {
  }

  function Adding(s: Net, f: Effect): Effect {
    Effect(f.cache, s.sent + f.sends)
  }

  // ------------------------------------------------------------ local steps

  lemma EmptyCache(d: Addr, me: Addr, r: Route)
    ensures !RouteAnswer(map[], me, d, Some(r))
  {
    if RouteAnswer(map[], me, d, Some(r)) {
      UnreachableOutside(map[], me, d, {});
    }
  }

  /** A flush leaves no route to anywhere; a broken link goes with its reverse, and no other.
      Neither sends anything or concerns another node. */
  lemma LocalSteps(e: Links, s: Net, t: Net, step: Step)
    requires Next(e, s, t, step) && (step.Flush? || step.BreakLink?)
    ensures t.sent == s.sent && t.caches.Keys == s.caches.Keys
    ensures forall a :: a in s.caches && a != step.me ==> t.caches[a] == s.caches[a]
    ensures step.Flush? ==> forall d, found :: RouteAnswer(t.caches[step.me], step.me, d, found) ==> found == None
    ensures step.BreakLink? ==>
      && var was, now := s.caches[step.me], t.caches[step.me];
      && (step.s, step.d) !in now && (forall x :: x in now ==> x in was && now[x] == was[x])
      && forall x :: x in was && x != (step.s, step.d) && x != (step.d, step.s) ==> x in now
  {
    if step.Flush? {
      forall d, r | RouteAnswer(t.caches[step.me], step.me, d, Some(r)) ensures false {
        EmptyCache(d, step.me, r);
      }
    }
  }

  // -------------------------------------------------------------- salvaging

  /** The packet as the maintenance buffer holds it. */
  function Held(pkt: Packet, first: Addr): MaintEntries.Packet
    requires pkt.Routed?
  {
    MaintEntries.Packet(pkt.src, pkt.dst, Some(pkt.addrs), pkt.salv, first)
  }

  /** A packet is salvaged exactly when the maintenance buffer's rule says so, and goes on over
      the route that gives, with the alternative left to travel. */
  lemma SalvageSends(me: Addr, x: Xmit, first: Addr, found: Option<Route>)
    requires x.pkt.Routed? && (x.pkt.addrs != [] ==> first == x.pkt.addrs[0])
    requires found.Some? ==> found.value.src == me && found.value.dst == x.pkt.dst
    ensures var f := OnSalvage(me, x, first, found);
      && (f.Some? <==> MaintState.Saved(me, Held(x.pkt, first), x.next, found))
      && (f.Some? ==> SentOn(f.value, me, x.pkt, MaintState.NewRoute(me, Held(x.pkt, first), x.next, found.value),
                             found.value))
  {
    if found.Some? {
      SalvageRewrites(me, x, first, found.value);
    }
  }

  lemma SalvageRewrites(me: Addr, x: Xmit, first: Addr, alt: Route)
    requires x.pkt.Routed? && (x.pkt.addrs != [] ==> first == x.pkt.addrs[0])
    requires alt.src == me && alt.dst == x.pkt.dst
    ensures var f, r := OnSalvage(me, x, first, Some(alt)), MaintState.NewRoute(me, Held(x.pkt, first), x.next, alt);
      (f.Some? <==> r.Some? && r.value.LoopFree()) && (f.Some? ==> SentOn(f.value, me, x.pkt, r, alt))
  {
    var r := MaintState.NewRoute(me, Held(x.pkt, first), x.next, alt);
    assert MaintState.FirstWord(Held(x.pkt, first)) == first;
    if r.Some? {
      MaintState.NewRouteRest(me, Held(x.pkt, first), x.next, alt);
      RewriteSends(me, x.pkt, r.value, alt);
    }
  }

  /** The packet goes on over `r`, of which `alt` is left. */
  ghost predicate SentOn(y: Xmit, me: Addr, pkt: Packet, r: Option<Route>, alt: Route)
    requires pkt.Routed?
  {
    && r.Some? && y.from == me && y.next == alt.Path()[1]
    && y.pkt == pkt.(addrs := r.value.addrs, sleft := |alt.addrs|, salv := (pkt.salv + 1) % 16)
  }

  lemma RewriteSends(me: Addr, pkt: Packet, r: Route, alt: Route)
    requires pkt.Routed? && |alt.addrs| <= |r.addrs| && NextHop(r, |alt.addrs|) == NextHop(alt, |alt.addrs|)
    ensures var f := Rewrite(me, pkt, r, |alt.addrs|);
      (f.Some? <==> r.LoopFree()) && (f.Some? ==> SentOn(f.value, me, pkt, Some(r), alt))
  {
  }
}
