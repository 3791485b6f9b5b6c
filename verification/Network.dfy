/** The routing protocol as a distributed system: nodes with link caches and a set of
    transmissions, the handlers of dsr-rreq.c, dsr-rrep.c, dsr-srt.c, dsr-rerr.c and the
    salvaging of maint-buf.c as atomic steps.  A transmission can be heard by any
    neighbour of its sender any number of times or never, so packets may be lost,
    repeated and reordered; the topology is fixed. */
module Network {
  import opened Routes
  import opened Paths
  import opened Walks
  import opened Forwarding

  const BROADCAST: Addr := 0xFFFF_FFFF

  /** A route reply option: the hops and the target; the route starts at the node the
      packet is addressed to. */
  datatype Report = Report(addrs: seq<Addr>, target: Addr)

  datatype Packet =
    | Rreq(src: Addr, target: Addr, id: nat, record: seq<Addr>)
    | Routed(src: Addr, dst: Addr, addrs: seq<Addr>, sleft: nat, salv: nat,
             reports: seq<Report>, errors: seq<(Addr, Addr)>)

  datatype Xmit = Xmit(from: Addr, next: Addr, pkt: Packet)

  datatype Net = Net(caches: map<Addr, Graph>, sent: set<Xmit>)

  /** What a handler does: the new cache and the transmissions it makes. */
  datatype Effect = Effect(cache: Graph, sends: set<Xmit>)

  function RouteOf(pkt: Packet): (r: Route)
    requires pkt.Routed?
  {
    Route(pkt.src, pkt.dst, pkt.addrs)
  }

  function ReportRoute(initiator: Addr, rep: Report): (r: Route) {
    Route(initiator, rep.target, rep.addrs)
  }

  // -------------------------------------------------------------- handlers

  /** A packet sent on a route from its source (`dsr_srt_add`, `dsr_rerr_send`). */
  function SendOn(r: Route, reports: seq<Report>, errors: seq<(Addr, Addr)>): (x: Xmit) {
    Xmit(r.src, NextHop(r, |r.addrs|), Routed(r.src, r.dst, r.addrs, |r.addrs|, 0, reports, errors))
  }

  /** `dsr_rrep_send`. */
  function SendReply(travels: Route, reports: Route): (x: Xmit) {
    SendOn(travels, [Report(reports.addrs, reports.dst)], [])
  }

  /** `dsr_rreq_opt_recv` for a request the table does not remember.  `found` is what the
      cache search answers; `bidir` the route flag, which the source leaves unset. */
  ghost function OnRreq(me: Addr, cache: Graph, pkt: Packet, found: Option<Route>, bidir: bool): (f: Effect)
    requires pkt.Rreq?
  {
    var srt := Route(pkt.src, me, pkt.record);
    var rev := Reverse(srt);
    var cache' := AddRoute(cache, rev, bidir);
    if pkt.target == me then Effect(cache', {SendReply(rev, srt)})
    else if pkt.src == me || me in pkt.record then Effect(cache', {})
    else if found.Some? && Concatenate(srt, found.value).LoopFree() then
      Effect(cache', {SendReply(rev, Concatenate(srt, found.value))})
    else Effect(cache', {Xmit(me, BROADCAST, pkt.(record := pkt.record + [me]))})
  }

  /** `dsr_rrep_opt_recv` for each reply option. */
  function LearnReports(cache: Graph, dst: Addr, reports: seq<Report>, bidir: bool): (c: Graph)
    decreases |reports|
  {
    if reports == [] then cache
    else LearnReports(AddRoute(cache, ReportRoute(dst, reports[0]), bidir), dst, reports[1..], bidir)
  }

  /** `dsr_rerr_opt_recv` for each error option. */
  function LearnErrors(cache: Graph, errors: seq<(Addr, Addr)>): (c: Graph)
    ensures c.Keys <= cache.Keys
    decreases |errors|
  {
    if errors == [] then cache
    else LearnErrors(DeleteLink(cache, errors[0].0, errors[0].1), errors[1..])
  }

  /** The links `dsr_srt_opt_recv` learns from the source route itself: the whole route
      at its destination, otherwise the part already travelled. */
  function LearnRoute(me: Addr, cache: Graph, r: Route, sleft: nat, overheard: bool, bidir: bool): (c: Graph)
    requires sleft <= |r.addrs|
  {
    var prev := PrevHop(r, sleft - 1);
    var c := if overheard then cache else cache[(me, prev) := 1];
    if r.dst == me then AddRoute(c, r, bidir)
    else
      match Split(r, if overheard then prev else me)
      case None => c
      case Some(part) => AddRoute(c, part, bidir)
  }

  /** The transmission of a gratuitous reply, if one is sent. */
  function Replies(grat: Option<Reply>): (xs: set<Xmit>) {
    if grat.None? then {} else {SendReply(grat.value.travels, grat.value.reports)}
  }

  /** `dsr_recv` for a packet with a source route; overheard when it was meant for another
      node.  `shorten` says whether shortening is enabled and no such reply was sent
      lately. */
  ghost function OnRouted(me: Addr, cache: Graph, x: Xmit, shorten: bool, bidir: bool, bidirReports: bool): (f: Effect)
    requires x.pkt.Routed? && x.pkt.sleft <= |x.pkt.addrs| && RouteOf(x.pkt).Simple()
  {
    var pkt, r, overheard := x.pkt, RouteOf(x.pkt), x.next != me;
    if overheard && pkt.src == me then Effect(cache, {})
    else
      var c := LearnRoute(me, cache, r, pkt.sleft, overheard, bidir);
      var replies := Replies(if shorten then GratReply(r, pkt.sleft, me) else None);
      if overheard then Effect(c, replies)
      else
        var c' := LearnErrors(LearnReports(c, pkt.dst, pkt.reports, bidirReports), pkt.errors);
        if pkt.sleft == 0 then Effect(c', replies)
        else Effect(c', replies + {Xmit(me, NextHop(r, pkt.sleft - 1), pkt.(sleft := pkt.sleft - 1))})
  }

  /** `maint_buf_salvage` for a packet this node sent to a neighbour that is gone.  `first`
      is the word read as the first hop: the first hop if there is one, otherwise
      whatever follows the option. */
  ghost function OnSalvage(me: Addr, x: Xmit, first: Addr, found: Option<Route>): (f: Option<Xmit>)
    requires x.pkt.Routed? && (x.pkt.addrs != [] ==> first == x.pkt.addrs[0])
  {
    var pkt := x.pkt;
    if found.None? then None
    else
      var alt := found.value;
      if first == x.next then Rewrite(me, pkt, alt, |alt.addrs|)
      else
        match Split(RouteOf(pkt), me)
        case None => None
        case Some(toMe) =>
          var srt := Concatenate(toMe, alt);
          Rewrite(me, pkt, srt, |srt.addrs| - |toMe.addrs| - 1)
  }

  ghost function Rewrite(me: Addr, pkt: Packet, srt: Route, sleft: nat): (f: Option<Xmit>)
    requires pkt.Routed? && sleft <= |srt.addrs|
  {
    if srt.LoopFree() then
      Some(Xmit(me, NextHop(srt, sleft), pkt.(addrs := srt.addrs, sleft := sleft, salv := (pkt.salv + 1) % 16)))
    else None
  }

  // ----------------------------------------------------------------- steps

  datatype Step =
    | Discover(me: Addr, target: Addr, id: nat)
    | SendData(me: Addr, r: Route)
    | SendError(me: Addr, r: Route, errors: seq<(Addr, Addr)>)
    | HearRreq(me: Addr, x: Xmit, found: Option<Route>, bidir: bool)
    | HearRouted(me: Addr, x: Xmit, shorten: bool, bidir: bool, bidirReports: bool)
    | Salvage(me: Addr, x: Xmit, first: Addr, found: Option<Route>)
    | BreakLink(me: Addr, s: Addr, d: Addr)
    | Flush(me: Addr)

  /** Can the step be taken?  Searches answer as `lc_srt_find` does, and a transmission is
      heard only by neighbours of its sender. */
  ghost predicate Enabled(e: Links, s: Net, step: Step) {
    && step.me in s.caches
    && var cache := s.caches[step.me];
       match step
       case Discover(_, _, _) => true
       case SendData(me, r) => RouteAnswer(cache, me, r.dst, Some(r))
       case SendError(me, r, _) => RouteAnswer(cache, me, r.dst, Some(r))
       case HearRreq(me, x, found, bidir) =>
         && x in s.sent && (x.from, me) in e && x.pkt.Rreq?
         && RouteAnswer(AddRoute(cache, Reverse(Route(x.pkt.src, me, x.pkt.record)), bidir), me, x.pkt.target, found)
       case HearRouted(me, x, _, _, _) =>
         && x in s.sent && (x.from, me) in e && x.pkt.Routed?
         && x.pkt.sleft <= |x.pkt.addrs| && RouteOf(x.pkt).Simple()
       case Salvage(me, x, first, found) =>
         && x in s.sent && x.from == me && x.pkt.Routed?
         && (x.pkt.addrs != [] ==> first == x.pkt.addrs[0])
         && RouteAnswer(cache, me, x.pkt.dst, found)
       case BreakLink(_, _, _) => true
       case Flush(_) => true
  }

  ghost function EffectOf(e: Links, s: Net, step: Step): (f: Effect)
    requires Enabled(e, s, step)
  {
    var cache := s.caches[step.me];
    match step
    case Discover(me, target, id) => Effect(cache, {Xmit(me, BROADCAST, Rreq(me, target, id, []))})
    case SendData(_, r) => Effect(cache, {SendOn(r, [], [])})
    case SendError(_, r, errors) => Effect(cache, {SendOn(r, [], errors)})
    case HearRreq(me, x, found, bidir) => OnRreq(me, cache, x.pkt, found, bidir)
    case HearRouted(me, x, shorten, bidir, bidirReports) => OnRouted(me, cache, x, shorten, bidir, bidirReports)
    case Salvage(me, x, first, found) =>
      var f := OnSalvage(me, x, first, found);
      Effect(cache, if f.Some? then {f.value} else {})
    case BreakLink(_, a, b) => Effect(DeleteLink(cache, a, b), {})
    case Flush(_) => Effect(map[], {})
  }

  ghost predicate Next(e: Links, s: Net, t: Net, step: Step) {
    && Enabled(e, s, step)
    && var f := EffectOf(e, s, step);
       t == Net(s.caches[step.me := f.cache], s.sent + f.sends)
  }

  ghost predicate Init(s: Net) {
    s.sent == {} && forall a :: a in s.caches ==> s.caches[a] == map[]
  }

  /** A run of the network on the topology `e`. */
  ghost predicate Run(e: Links, ss: seq<Net>, steps: seq<Step>) {
    && |ss| == |steps| + 1 && Init(ss[0])
    && forall i {:trigger Took(e, ss, steps, i)} :: 0 <= i < |steps| ==> Took(e, ss, steps, i)
  }

  ghost predicate Took(e: Links, ss: seq<Net>, steps: seq<Step>, i: nat)
    requires i < |steps| && |ss| == |steps| + 1
  {
    Next(e, ss[i], ss[i + 1], steps[i])
  }

  // ------------------------------------------------------------- invariant

  /** A reply reports a real route without loops, but for equal ends. */
  ghost predicate GoodReport(e: Links, initiator: Addr, rep: Report) {
    var r := ReportRoute(initiator, rep);
    r.Simple() && Walk(e, r.Path())
  }

  /** A transmission carries real routes and says truly where it is on them. */
  ghost predicate Good(e: Links, x: Xmit) {
    match x.pkt
    case Rreq(src, target, _, record) =>
      var p := [src] + record;
      Walk(e, p) && p[|p| - 1] == x.from && Distinct(p) && target !in record
    case Routed(src, dst, addrs, sleft, _, reports, _) =>
      var r := Route(src, dst, addrs);
      && r.Simple() && Walk(e, r.Path()) && sleft <= |addrs|
      && x.from == r.Path()[|addrs| - sleft] && x.next == r.Path()[|addrs| + 1 - sleft]
      && forall rep :: rep in reports ==> GoodReport(e, dst, rep)
  }

  ghost predicate Sound(e: Links, s: Net) {
    && (forall a :: a in s.caches ==> s.caches[a].Keys <= e)
    && AllGood(e, s.sent)
  }

  ghost predicate AllGood(e: Links, xs: set<Xmit>) {
    forall x :: x in xs ==> Good(e, x)
  }

  ghost predicate GoodEffect(e: Links, f: Effect) {
    f.cache.Keys <= e && AllGood(e, f.sends)
  }

  lemma OneSend(e: Links, cache: Graph, y: Xmit)
    requires cache.Keys <= e && Good(e, y)
    ensures GoodEffect(e, Effect(cache, {y})) && AllGood(e, {y})
  {
  }

  // ------------------------------------------------------ building messages

  lemma GoodSend(e: Links, r: Route, reports: seq<Report>, errors: seq<(Addr, Addr)>)
    requires r.Simple() && Walk(e, r.Path()) && forall rep :: rep in reports ==> GoodReport(e, r.dst, rep)
    ensures Good(e, SendOn(r, reports, errors))
  {
  }

  lemma GoodReplySend(e: Links, travels: Route, reports: Route)
    requires travels.Simple() && Walk(e, travels.Path())
    requires reports.Simple() && Walk(e, reports.Path()) && reports.src == travels.dst
    ensures Good(e, SendReply(travels, reports))
  {
    var rep := Report(reports.addrs, reports.dst);
    assert ReportRoute(travels.dst, rep) == reports;
    GoodSend(e, travels, [rep], []);
  }

  /** A route the cache search found is real and loop free. */
  lemma FoundRoute(e: Links, g: Graph, s: Addr, t: Addr, r: Route)
    requires g.Keys <= e && RouteAnswer(g, s, t, Some(r))
    ensures r.src == s && r.dst == t && s != t && Walk(e, r.Path()) && r.LoopFree() && r.Simple()
  {
    CachedPathIsWalk(e, g, r.Path());
    LoopFreeIsSimple(r);
  }

  lemma SplitWalk(e: Links, r: Route, a: Addr, part: Route)
    requires Walk(e, r.Path()) && Split(r, a) == Some(part)
    ensures Walk(e, part.Path()) && part.Path() == r.Path()[..|part.addrs| + 2] && |part.addrs| < |r.addrs|
  {
    var p, n := r.Path(), |part.addrs| + 2;
    assert part.Path() == p[..|r.addrs| + 1][..n];
    assert p[..|r.addrs| + 1][..n] == p[..n];
    WalkPrefix(e, p, n);
  }

  // -------------------------------------------------------------- requests

  /** The route a request recorded, seen from the node that hears it. */
  lemma RecordedRoute(e: Links, me: Addr, x: Xmit)
    requires Symmetric(e) && x.pkt.Rreq? && Good(e, x) && (x.from, me) in e
    ensures var srt := Route(x.pkt.src, me, x.pkt.record);
            && Walk(e, srt.Path()) && Walk(e, Reverse(srt).Path())
            && (me !in x.pkt.record ==> srt.Simple() && Reverse(srt).Simple())
  {
    var srt := Route(x.pkt.src, me, x.pkt.record);
    var p := [x.pkt.src] + x.pkt.record;
    WalkAppend(e, p, me);
    WalkReverse(e, srt.Path());
    if me !in x.pkt.record {
      SimpleHops(srt);
      assert srt.Simple() by {
        assert forall i :: 0 <= i < |x.pkt.record| ==> p[i + 1] == x.pkt.record[i];
      }
      ReverseSimple(srt);
    }
  }

  /** The reply from the cache: the recorded route continued by the cached one. */
  lemma CachedReply(e: Links, srt: Route, found: Route)
    requires Walk(e, srt.Path()) && Walk(e, found.Path()) && srt.dst == found.src
    requires Concatenate(srt, found).LoopFree()
    ensures Concatenate(srt, found).Simple() && Walk(e, Concatenate(srt, found).Path())
  {
    WalkJoin(e, srt.Path(), found.Path());
    LoopFreeIsSimple(Concatenate(srt, found));
  }

  /** The forwarded request: its record grows by this node and stays free of repeats. */
  lemma ForwardedRequest(e: Links, me: Addr, x: Xmit)
    requires x.pkt.Rreq? && Good(e, x) && (x.from, me) in e
    requires me != x.pkt.target && me != x.pkt.src && me !in x.pkt.record
    ensures Good(e, Xmit(me, BROADCAST, x.pkt.(record := x.pkt.record + [me])))
  {
    var p, record := [x.pkt.src] + x.pkt.record, x.pkt.record + [me];
    WalkAppend(e, p, me);
    assert [x.pkt.src] + record == p + [me];
  }

  lemma RreqSound(e: Links, me: Addr, cache: Graph, x: Xmit, found: Option<Route>, bidir: bool)
    requires Symmetric(e) && cache.Keys <= e && x.pkt.Rreq? && Good(e, x) && (x.from, me) in e
    requires RouteAnswer(AddRoute(cache, Reverse(Route(x.pkt.src, me, x.pkt.record)), bidir), me, x.pkt.target, found)
    ensures GoodEffect(e, OnRreq(me, cache, x.pkt, found, bidir))
  {
    var pkt := x.pkt;
    var srt := Route(pkt.src, me, pkt.record);
    var cache' := AddRoute(cache, Reverse(srt), bidir);
    RecordedRoute(e, me, x);
    AddRouteReal(e, cache, Reverse(srt), bidir);
    if pkt.target == me {
      GoodReplySend(e, Reverse(srt), srt);
      OneSend(e, cache', SendReply(Reverse(srt), srt));
    } else if pkt.src == me || me in pkt.record {
    } else if found.Some? && Concatenate(srt, found.value).LoopFree() {
      FoundRoute(e, cache', me, pkt.target, found.value);
      CachedReply(e, srt, found.value);
      GoodReplySend(e, Reverse(srt), Concatenate(srt, found.value));
      OneSend(e, cache', SendReply(Reverse(srt), Concatenate(srt, found.value)));
    } else {
      ForwardedRequest(e, me, x);
      OneSend(e, cache', Xmit(me, BROADCAST, pkt.(record := pkt.record + [me])));
    }
  }

  // --------------------------------------------------------- routed packets

  lemma {:induction false} ReportsSound(e: Links, cache: Graph, dst: Addr, reports: seq<Report>, bidir: bool)
    requires Symmetric(e) && cache.Keys <= e && forall rep :: rep in reports ==> GoodReport(e, dst, rep)
    ensures LearnReports(cache, dst, reports, bidir).Keys <= e
    decreases |reports|
  {
    if reports != [] {
      assert reports[0] in reports;
      AddRouteReal(e, cache, ReportRoute(dst, reports[0]), bidir);
      ReportsSound(e, AddRoute(cache, ReportRoute(dst, reports[0]), bidir), dst, reports[1..], bidir);
    }
  }

  /** What is learnt from a source route is real: the sender named by the route is the
      node the packet came from. */
  lemma LearnRouteSound(e: Links, me: Addr, cache: Graph, r: Route, sleft: nat, overheard: bool, bidir: bool)
    requires Symmetric(e) && cache.Keys <= e && Walk(e, r.Path()) && sleft <= |r.addrs|
    requires (r.Path()[|r.addrs| - sleft], me) in e
    ensures LearnRoute(me, cache, r, sleft, overheard, bidir).Keys <= e
  {
    var prev := PrevHop(r, sleft - 1);
    assert prev == r.Path()[|r.addrs| - sleft];
    var c := if overheard then cache else cache[(me, prev) := 1];
    assert c.Keys <= e;
    var at := if overheard then prev else me;
    if r.dst == me {
      AddRouteReal(e, c, r, bidir);
    } else if Split(r, at).Some? {
      SplitWalk(e, r, at, Split(r, at).value);
      AddRouteReal(e, c, Split(r, at).value, bidir);
    }
  }

  /** A gratuitous reply is real: the shortcut is the link the packet was heard over. */
  lemma GratSound(e: Links, me: Addr, r: Route, sleft: nat, g: Reply)
    requires Symmetric(e) && r.Simple() && Walk(e, r.Path()) && sleft <= |r.addrs|
    requires (r.Path()[|r.addrs| - sleft], me) in e && GratReply(r, sleft, me) == Some(g)
    ensures Good(e, SendReply(g.travels, g.reports))
  {
    var cut, i, j := Shortened(r, sleft, me), |r.addrs| - sleft, Position(r, sleft, me);
    GratReplyReturns(r, sleft, me, cut, g);
    CutWalk(e, r, i, j, cut);
    BackWalk(e, cut, i, g.travels);
    GoodReplySend(e, g.travels, g.reports);
  }

  lemma CutWalk(e: Links, r: Route, i: nat, j: nat, cut: Route)
    requires r.Simple() && Walk(e, r.Path()) && i < j <= |r.addrs| + 1 && (r.Path()[i], r.Path()[j]) in e
    requires cut.Path() == CutPath(r.Path(), i, j)
    ensures Walk(e, cut.Path()) && cut.Simple() && i <= |cut.addrs| && cut.src == r.src
  {
    CutSimple(r, i, j, cut);
    WalkCut(e, r.Path(), i, j);
  }

  lemma BackWalk(e: Links, r: Route, i: nat, back: Route)
    requires Symmetric(e) && Walk(e, r.Path()) && r.Simple()
    requires i <= |r.addrs| && back.Path() == ReverseSeq(r.Path()[..i + 2])
    ensures Walk(e, back.Path()) && back.Simple() && back.dst == r.src
  {
    WalkPrefix(e, r.Path(), i + 2);
    WalkReverse(e, r.Path()[..i + 2]);
    PrefixSimple(r, i, back);
  }

  lemma PrefixSimple(r: Route, i: nat, back: Route)
    requires r.Simple() && i <= |r.addrs| && back.Path() == ReverseSeq(r.Path()[..i + 2])
    ensures back.Simple() && back.dst == r.src
  {
    var p, q, n := r.Path(), back.Path(), |back.addrs|;
    assert forall k :: 0 <= k < |q| ==> q[k] == p[i + 1 - k];
    var x, y := q[..n + 1], q[1..];
    forall a, b | 0 <= a < b < |x| ensures x[a] != x[b] {
      assert x[a] == p[i + 1 - a] && x[b] == p[i + 1 - b];
      TailElement(r, i + 1 - b, i + 1 - a);
    }
    forall a, b | 0 <= a < b < |y| ensures y[a] != y[b] {
      assert y[a] == p[i - a] && y[b] == p[i - b];
      HeadElement(r, i - b, i - a);
    }
  }

  /** Forwarding keeps a packet on its route. */
  lemma ForwardedPacket(e: Links, me: Addr, x: Xmit)
    requires x.pkt.Routed? && Good(e, x) && x.next == me && x.pkt.sleft > 0
    ensures Good(e, Xmit(me, NextHop(RouteOf(x.pkt), x.pkt.sleft - 1), x.pkt.(sleft := x.pkt.sleft - 1)))
  {
  }

  lemma RepliesSound(e: Links, me: Addr, r: Route, sleft: nat, grat: Option<Reply>)
    requires Symmetric(e) && r.Simple() && Walk(e, r.Path()) && sleft <= |r.addrs|
    requires (r.Path()[|r.addrs| - sleft], me) in e && (grat.Some? ==> GratReply(r, sleft, me) == grat)
    ensures AllGood(e, Replies(grat))
  {
    if grat.Some? {
      GratSound(e, me, r, sleft, grat.value);
    }
  }

  lemma LearntSound(e: Links, me: Addr, cache: Graph, x: Xmit, bidir: bool, bidirReports: bool)
    requires Symmetric(e) && cache.Keys <= e && x.pkt.Routed? && Good(e, x) && (x.from, me) in e
    ensures var c := LearnRoute(me, cache, RouteOf(x.pkt), x.pkt.sleft, x.next != me, bidir);
            c.Keys <= e && LearnErrors(LearnReports(c, x.pkt.dst, x.pkt.reports, bidirReports), x.pkt.errors).Keys <= e
  {
    var c := LearnRoute(me, cache, RouteOf(x.pkt), x.pkt.sleft, x.next != me, bidir);
    LearnRouteSound(e, me, cache, RouteOf(x.pkt), x.pkt.sleft, x.next != me, bidir);
    ReportsSound(e, c, x.pkt.dst, x.pkt.reports, bidirReports);
  }

  /** The gratuitous reply of a node that hears a packet, if it sends one. */
  lemma RoutedReplies(e: Links, me: Addr, x: Xmit, shorten: bool)
    requires Symmetric(e) && x.pkt.Routed? && Good(e, x) && (x.from, me) in e
    ensures AllGood(e, Replies(if shorten then GratReply(RouteOf(x.pkt), x.pkt.sleft, me) else None))
  {
    var r := RouteOf(x.pkt);
    RepliesSound(e, me, r, x.pkt.sleft, if shorten then GratReply(r, x.pkt.sleft, me) else None);
  }

  /** Replies together with the packet passed on. */
  lemma RepliesAndMore(e: Links, xs: set<Xmit>, y: Xmit)
    requires AllGood(e, xs)
    ensures Good(e, y) ==> AllGood(e, xs + {y})
  {
  }

  lemma OverheardSound(e: Links, me: Addr, cache: Graph, x: Xmit, shorten: bool, bidir: bool, bidirReports: bool)
    requires Symmetric(e) && cache.Keys <= e && x.pkt.Routed? && Good(e, x) && (x.from, me) in e && x.next != me
    ensures GoodEffect(e, OnRouted(me, cache, x, shorten, bidir, bidirReports))
  {
    LearntSound(e, me, cache, x, bidir, bidirReports);
    RoutedReplies(e, me, x, shorten);
  }

  lemma ArrivedSound(e: Links, me: Addr, cache: Graph, x: Xmit, shorten: bool, bidir: bool, bidirReports: bool)
    requires Symmetric(e) && cache.Keys <= e && x.pkt.Routed? && Good(e, x) && (x.from, me) in e
    requires x.next == me && x.pkt.sleft == 0
    ensures GoodEffect(e, OnRouted(me, cache, x, shorten, bidir, bidirReports))
  {
    LearntSound(e, me, cache, x, bidir, bidirReports);
    RoutedReplies(e, me, x, shorten);
  }

  lemma PassedOnSound(e: Links, me: Addr, cache: Graph, x: Xmit, shorten: bool, bidir: bool, bidirReports: bool)
    requires Symmetric(e) && cache.Keys <= e && x.pkt.Routed? && Good(e, x) && (x.from, me) in e
    requires x.next == me && x.pkt.sleft > 0
    ensures GoodEffect(e, OnRouted(me, cache, x, shorten, bidir, bidirReports))
  {
    var r := RouteOf(x.pkt);
    var y := Xmit(me, NextHop(r, x.pkt.sleft - 1), x.pkt.(sleft := x.pkt.sleft - 1));
    LearntSound(e, me, cache, x, bidir, bidirReports);
    RoutedReplies(e, me, x, shorten);
    ForwardedPacket(e, me, x);
    RepliesAndMore(e, Replies(if shorten then GratReply(r, x.pkt.sleft, me) else None), y);
  }

  lemma RoutedSound(e: Links, me: Addr, cache: Graph, x: Xmit, shorten: bool, bidir: bool, bidirReports: bool)
    requires Symmetric(e) && cache.Keys <= e && x.pkt.Routed? && Good(e, x) && (x.from, me) in e
    ensures GoodEffect(e, OnRouted(me, cache, x, shorten, bidir, bidirReports))
  {
    if x.next != me {
      OverheardSound(e, me, cache, x, shorten, bidir, bidirReports);
    } else if x.pkt.sleft == 0 {
      ArrivedSound(e, me, cache, x, shorten, bidir, bidirReports);
    } else {
      PassedOnSound(e, me, cache, x, shorten, bidir, bidirReports);
    }
  }

  // -------------------------------------------------------------- salvaging

  /** At a simple route only the source sends to the first hop. */
  lemma OnlySourceSendsFirst(r: Route, sleft: nat, first: Addr)
    requires r.Simple() && sleft <= |r.addrs| && (r.addrs != [] ==> first == r.addrs[0])
    requires first == r.Path()[|r.addrs| + 1 - sleft]
    ensures r.Path()[|r.addrs| - sleft] == r.src
  {
    var j := |r.addrs| + 1 - sleft;
    if r.addrs != [] {
      assert r.Path()[1] == r.addrs[0] == r.Path()[j];
      TailUnique(r, 1, j);
    }
  }

  lemma RewriteSound(e: Links, me: Addr, pkt: Packet, srt: Route, sleft: nat)
    requires pkt.Routed? && sleft <= |srt.addrs| && srt.src == pkt.src && srt.dst == pkt.dst
    requires Walk(e, srt.Path()) && me == srt.Path()[|srt.addrs| - sleft]
    requires forall rep :: rep in pkt.reports ==> GoodReport(e, pkt.dst, rep)
    ensures var f := Rewrite(me, pkt, srt, sleft); f.Some? ==> Good(e, f.value)
  {
    LoopFreeIsSimple(srt);
  }

  lemma SalvageSound(e: Links, me: Addr, cache: Graph, x: Xmit, first: Addr, found: Option<Route>)
    requires cache.Keys <= e && x.pkt.Routed? && Good(e, x) && x.from == me
    requires x.pkt.addrs != [] ==> first == x.pkt.addrs[0]
    requires RouteAnswer(cache, me, x.pkt.dst, found)
    ensures var f := OnSalvage(me, x, first, found); f.Some? ==> Good(e, f.value)
  {
    var pkt, was := x.pkt, RouteOf(x.pkt);
    if found.Some? {
      var alt := found.value;
      FoundRoute(e, cache, me, pkt.dst, alt);
      if first == x.next {
        OnlySourceSendsFirst(was, pkt.sleft, first);
        RewriteSound(e, me, pkt, alt, |alt.addrs|);
      } else if Split(was, me).Some? {
        SplitSound(e, me, pkt, was, Split(was, me).value, alt);
      }
    }
  }

  /** Joining the way to this node with the alternative. */
  lemma SplitSound(e: Links, me: Addr, pkt: Packet, was: Route, toMe: Route, alt: Route)
    requires pkt.Routed? && was == RouteOf(pkt) && Walk(e, was.Path()) && Split(was, me) == Some(toMe)
    requires Walk(e, alt.Path()) && alt.src == me && alt.dst == pkt.dst
    requires forall rep :: rep in pkt.reports ==> GoodReport(e, pkt.dst, rep)
    ensures var srt := Concatenate(toMe, alt);
      && |srt.addrs| >= |toMe.addrs| + 1
      && var f := Rewrite(me, pkt, srt, |srt.addrs| - |toMe.addrs| - 1);
      f.Some? ==> Good(e, f.value)
  {
    var srt := Concatenate(toMe, alt);
    SplitWalk(e, was, me, toMe);
    WalkJoin(e, toMe.Path(), alt.Path());
    assert srt.Path()[|toMe.addrs| + 1] == me;
    RewriteSound(e, me, pkt, srt, |srt.addrs| - |toMe.addrs| - 1);
  }

  // ------------------------------------------------------------ every step

  lemma EffectSound(e: Links, s: Net, step: Step)
    requires Symmetric(e) && Sound(e, s) && Enabled(e, s, step)
    ensures GoodEffect(e, EffectOf(e, s, step))
  {
    var cache := s.caches[step.me];
    match step
    case Discover(me, target, id) =>
    case SendData(me, r) =>
      FoundRoute(e, cache, me, r.dst, r);
      GoodSend(e, r, [], []);
    case SendError(me, r, errors) =>
      FoundRoute(e, cache, me, r.dst, r);
      GoodSend(e, r, [], errors);
    case HearRreq(me, x, found, bidir) =>
      RreqSound(e, me, cache, x, found, bidir);
    case HearRouted(me, x, shorten, bidir, bidirReports) =>
      RoutedSound(e, me, cache, x, shorten, bidir, bidirReports);
    case Salvage(me, x, first, found) =>
      SalvageSound(e, me, cache, x, first, found);
    case BreakLink(me, a, b) =>
    case Flush(me) =>
  }

  lemma StepSound(e: Links, s: Net, t: Net, step: Step)
    requires Symmetric(e) && Sound(e, s) && Next(e, s, t, step)
    ensures Sound(e, t)
  {
    EffectSound(e, s, step);
  }

  /** In every state of every run, every cached link and every hop of every route sent is
      a real link, and every transmission says truly where it is. */
  lemma {:induction false} RunSound(e: Links, ss: seq<Net>, steps: seq<Step>, i: nat)
    requires Symmetric(e) && Run(e, ss, steps) && i < |ss|
    ensures Sound(e, ss[i])
  {
    if i > 0 {
      RunSound(e, ss, steps, i - 1);
      assert Took(e, ss, steps, i - 1);
      StepSound(e, ss[i - 1], ss[i], steps[i - 1]);
    }
  }

  /** No loops, in any run: a request never records a node twice nor its initiator or
      target, and every route sent or reported between different nodes is loop free.
      The direct reply checks nothing itself; it rests on this. */
  lemma RunLoopFree(e: Links, ss: seq<Net>, steps: seq<Step>, i: nat, x: Xmit)
    requires Symmetric(e) && Run(e, ss, steps) && i < |ss| && x in ss[i].sent
    ensures x.pkt.Rreq? && x.pkt.target != x.pkt.src ==> Distinct([x.pkt.src] + x.pkt.record + [x.pkt.target])
    ensures x.pkt.Routed? && x.pkt.src != x.pkt.dst ==> RouteOf(x.pkt).LoopFree()
    ensures x.pkt.Routed? ==> forall rep :: rep in x.pkt.reports && rep.target != x.pkt.dst ==>
              ReportRoute(x.pkt.dst, rep).LoopFree()
  {
    RunSound(e, ss, steps, i);
    assert Good(e, x);
    if x.pkt.Routed? {
      LoopFreeIsSimple(RouteOf(x.pkt));
      forall rep | rep in x.pkt.reports && rep.target != x.pkt.dst ensures ReportRoute(x.pkt.dst, rep).LoopFree() {
        assert GoodReport(e, x.pkt.dst, rep);
        LoopFreeIsSimple(ReportRoute(x.pkt.dst, rep));
      }
    }
  }

  const NODES_FIT := 63

  /** In a network of at most 63 nodes every message fits its 8-bit and 6-bit fields: at
      most 62 intermediate addresses in requests, replies and source routes. */
  lemma RunFits(e: Links, ss: seq<Net>, steps: seq<Step>, i: nat, x: Xmit)
    requires Symmetric(e) && Run(e, ss, steps) && i < |ss| && x in ss[i].sent && |Ends(e)| <= NODES_FIT
    ensures x.pkt.Rreq? ==> |x.pkt.record| <= NODES_FIT - 1
    ensures x.pkt.Routed? ==> |x.pkt.addrs| <= NODES_FIT - 1
    ensures x.pkt.Routed? ==> forall rep :: rep in x.pkt.reports ==> |rep.addrs| <= NODES_FIT - 1
  {
    RunSound(e, ss, steps, i);
    assert Good(e, x);
    if x.pkt.Rreq? {
      DistinctWalkFits(e, [x.pkt.src] + x.pkt.record);
    } else {
      RouteFits(e, RouteOf(x.pkt));
      forall rep | rep in x.pkt.reports ensures |rep.addrs| <= NODES_FIT - 1 {
        assert GoodReport(e, x.pkt.dst, rep);
        RouteFits(e, ReportRoute(x.pkt.dst, rep));
      }
    }
  }

  lemma RouteFits(e: Links, r: Route)
    requires r.Simple() && Walk(e, r.Path()) && |Ends(e)| <= NODES_FIT
    ensures |r.addrs| <= NODES_FIT - 1
  {
    WalkPrefix(e, r.Path(), |r.addrs| + 1);
    DistinctWalkFits(e, r.Path()[..|r.addrs| + 1]);
  }

  /** In any run a packet with a source route is well formed when it is heard, and the
      node it was meant for is the next one on its route. */
  lemma RunDeliverable(e: Links, ss: seq<Net>, steps: seq<Step>, i: nat, x: Xmit, me: Addr,
                       shorten: bool, b: bool, c: bool)
    requires Symmetric(e) && Run(e, ss, steps) && i < |ss| && x in ss[i].sent && x.pkt.Routed?
    requires me in ss[i].caches && (x.from, me) in e
    ensures Enabled(e, ss[i], HearRouted(me, x, shorten, b, c))
    ensures x.next == NextHop(RouteOf(x.pkt), x.pkt.sleft)
    ensures x.from == PrevHop(RouteOf(x.pkt), x.pkt.sleft - 1)
  {
    RunSound(e, ss, steps, i);
    assert Good(e, x);
  }
}
