/** The source route option on its way through the network: `dsr_srt_opt_add`,
    `dsr_srt_add` and `dsr_srt_opt_recv` of dsr-srt.c. */
module Forwarding {
  import opened Routes

  const SLEFT_MAX := 63  // the segments-left field has six bits

  /** The option as it sits in the packet.  `length` is the 8-bit option length, `words`
      the address words behind the fixed part. */
  datatype SrtOpt = SrtOpt(length: nat, salv: nat, sleft: nat, words: seq<Addr>)

  /** `dsr_srt_opt_add`, with the narrow fields cut to their widths. */
  function OptAdd(r: Route, salvage: nat): (o: SrtOpt)
    ensures o.sleft == |r.addrs| <==> |r.addrs| <= SLEFT_MAX
  {
    SrtOpt((4 * |r.addrs| + 2) % 256, salvage % 16, |r.addrs| % 64, r.addrs)
  }

  ghost predicate Readable(o: SrtOpt) {
    o.length / 4 <= |o.words|
  }

  /** The route `dsr_srt_opt_recv` builds.  It passes the whole option length, two bytes
      more than the addresses take; the division drops the two bytes. */
  function Received(src: Addr, dst: Addr, o: SrtOpt): (r: Route)
    requires Readable(o)
    ensures |r.addrs| == o.length / 4
  {
    Route(src, dst, o.words[..o.length / 4])
  }

  lemma ReceivedIsSent(r: Route, salvage: nat)
    ensures Readable(OptAdd(r, salvage))
    ensures Received(r.src, r.dst, OptAdd(r, salvage)) == r <==> |r.addrs| <= SLEFT_MAX
  {
    TruncatedLength(|r.addrs|);
    if |r.addrs| <= SLEFT_MAX {
      assert r.addrs[..|r.addrs|] == r.addrs;
    }
  }

  lemma TruncatedLength(n: nat)
    ensures (4 * n + 2) % 256 / 4 == n % 64
  {
    assert 4 * n + 2 == 256 * (n / 64) + (4 * (n % 64) + 2);
  }

  /** What a node does with a packet addressed to it at the link layer, given the route it
      received and the segments left: the step of section 8.1.5 of
      draft-ietf-manet-dsr-10. */
  datatype Verdict =
    | Final(prev: Addr)
    | Forward(prev: Addr, next: Addr, sleft: nat)
    | ParameterProblem

  function Receive(r: Route, sleft: nat): (v: Verdict)
    ensures v.ParameterProblem? <==> sleft > |r.addrs|
    ensures v.Final? <==> sleft == 0
  {
    if sleft > |r.addrs| then ParameterProblem
    else if sleft == 0 then Final(PrevHop(r, -1))
    else Forward(PrevHop(r, sleft - 1), NextHop(r, sleft - 1), sleft - 1)
  }

  /** One stop of the run of a packet: where it was received, which node the receiver
      takes for the sender, and the segments left on arrival. */
  datatype Stop = Stop(node: Addr, prev: Addr, sleft: nat)

  /** All stops of a packet received at `node`, each transmission arriving. */
  function Stops(node: Addr, r: Route, sleft: nat): (t: seq<Stop>)
    ensures sleft <= |r.addrs| ==> |t| == sleft + 1
    decreases sleft
  {
    match Receive(r, sleft)
    case ParameterProblem => []
    case Final(prev) => [Stop(node, prev, 0)]
    case Forward(prev, next, left) => [Stop(node, prev, sleft)] + Stops(next, r, left)
  }

  /** The run that `dsr_srt_add` starts at the source: the first hop is taken from the
      route itself, all others from the option as it is received. */
  function Run(r: Route, salvage: nat): (t: seq<Stop>) {
    ReceivedIsSent(r, salvage);
    var o := OptAdd(r, salvage);
    Stops(NextHop(r, |r.addrs|), Received(r.src, r.dst, o), o.sleft)
  }

  /** The stop after the j-th node of the path: entered from that node. */
  function HopStop(r: Route, j: nat): (s: Stop)
    requires j <= |r.addrs|
  {
    Stop(r.Path()[j + 1], r.Path()[j], |r.addrs| - j)
  }

  /** The stops from the j-th node of the path to the end. */
  ghost predicate FollowsPath(r: Route, t: seq<Stop>, j: nat) {
    j <= |r.addrs| && |t| == |r.addrs| + 1 - j && forall k :: 0 <= k < |t| ==> t[k] == HopStop(r, j + k)
  }

  lemma FollowsCons(r: Route, t: seq<Stop>, j: nat)
    requires FollowsPath(r, t, j + 1)
    ensures FollowsPath(r, [HopStop(r, j)] + t, j)
  {
    var s := [HopStop(r, j)] + t;
    forall k | 0 <= k < |s| ensures s[k] == HopStop(r, j + k) {
      if k > 0 {
        assert t[k - 1] == HopStop(r, j + 1 + (k - 1));
      }
    }
  }

  lemma {:induction false} StopsFollowPath(r: Route, sleft: nat)
    requires sleft <= |r.addrs|
    ensures FollowsPath(r, Stops(NextHop(r, sleft), r, sleft), |r.addrs| - sleft)
  {
    if sleft > 0 {
      StopsFollowPath(r, sleft - 1);
      FollowsCons(r, Stops(NextHop(r, sleft - 1), r, sleft - 1), |r.addrs| - sleft);
    }
  }

  /** A packet visits source, hops and destination in order, and every node on the way
      names the right sender, exactly when the route fits the six-bit field. */
  lemma RunFollowsPath(r: Route, salvage: nat)
    ensures FollowsPath(r, Run(r, salvage), 0) <==> |r.addrs| <= SLEFT_MAX
  {
    ReceivedIsSent(r, salvage);
    TruncatedLength(|r.addrs|);
    if |r.addrs| <= SLEFT_MAX {
      StopsFollowPath(r, |r.addrs|);
    }
  }

  // ------------------------------------------------------ route shortening

  /** The routes of a gratuitous reply: the one it travels and the one it reports. */
  datatype Reply = Reply(travels: Route, reports: Route)

  /** Does `me`, hearing a packet with `sleft` segments left, see a shorter way? */
  ghost predicate SeesShortcut(r: Route, sleft: nat, me: Addr) {
    1 <= sleft <= |r.addrs| && NextHop(r, sleft) != me && me in Remaining(r, sleft)
  }

  /** The position of `me` on the rest of the route; there is one only if it is simple. */
  ghost function Position(r: Route, sleft: nat, me: Addr): (j: nat)
    requires SeesShortcut(r, sleft, me)
    ensures |r.addrs| - sleft + 1 < j <= |r.addrs| + 1 && r.Path()[j] == me
  {
    var k :| 0 <= k < |Remaining(r, sleft)| && Remaining(r, sleft)[k] == me;
    assert r.Path()[|r.addrs| + 1 - sleft + k] == me;
    |r.addrs| + 1 - sleft + k
  }

  /** The shortened route: the hops strictly between the sender and `me` left out. */
  ghost function Shortened(r: Route, sleft: nat, me: Addr): (cut: Route)
    requires SeesShortcut(r, sleft, me)
    ensures cut.Path() == CutPath(r.Path(), |r.addrs| - sleft, Position(r, sleft, me))
  {
    OfPath(CutPath(r.Path(), |r.addrs| - sleft, Position(r, sleft, me)))
  }

  /** It is what `dsr_srt_shortcut` returns for the sender and `me`. */
  lemma ShortenedIsShortcut(r: Route, sleft: nat, me: Addr)
    requires r.Simple() && SeesShortcut(r, sleft, me)
    ensures CanCut(r, PrevHop(r, sleft - 1), me)
    ensures Shortcut(r, PrevHop(r, sleft - 1), me) == Shortened(r, sleft, me)
  {
    ShortcutPlaces(r, sleft, me);
    ShortcutAtPlaces(r, sleft, me);
  }

  lemma ShortcutAtPlaces(r: Route, sleft: nat, me: Addr)
    requires SeesShortcut(r, sleft, me)
    requires CutFrom(r, PrevHop(r, sleft - 1)) == |r.addrs| - sleft && CutTo(r, me) == Position(r, sleft, me)
    ensures CanCut(r, PrevHop(r, sleft - 1), me)
    ensures Shortcut(r, PrevHop(r, sleft - 1), me) == Shortened(r, sleft, me)
  {
    CutBetween(r, PrevHop(r, sleft - 1), me, |r.addrs| - sleft, Position(r, sleft, me));
  }

  lemma ShortcutPlaces(r: Route, sleft: nat, me: Addr)
    requires r.Simple() && SeesShortcut(r, sleft, me)
    ensures CutFrom(r, PrevHop(r, sleft - 1)) == |r.addrs| - sleft && CutTo(r, me) == Position(r, sleft, me)
  {
    SimplePositions(r, |r.addrs| - sleft, Position(r, sleft, me));
  }

  lemma CutBetween(r: Route, a1: Addr, a2: Addr, i: nat, j: nat)
    requires CutFrom(r, a1) == i < j == CutTo(r, a2)
    ensures CanCut(r, a1, a2) && Shortcut(r, a1, a2) == OfPath(CutPath(r.Path(), i, j))
  {
  }

  /** It is strictly shorter, has the same ends, is still simple (so loop free when the
      route is), and `me` comes right behind the sender. */
  lemma ShortenedFacts(r: Route, sleft: nat, me: Addr, cut: Route)
    requires r.Simple() && SeesShortcut(r, sleft, me) && cut == Shortened(r, sleft, me)
    ensures cut.src == r.src && cut.dst == r.dst && cut.Simple()
    ensures |cut.addrs| == |r.addrs| - (Position(r, sleft, me) - (|r.addrs| - sleft) - 1) < |r.addrs|
    ensures |r.addrs| - sleft <= |cut.addrs| && cut.Path()[|r.addrs| - sleft + 1] == me
  {
    CutSimple(r, |r.addrs| - sleft, Position(r, sleft, me), cut);
  }

  /** `dsr_srt_opt_recv`, automatic route shortening (section 3.4.3 of the draft): `me`
      hears a packet meant for another node.  None when no reply is sent. */
  ghost function GratReply(r: Route, sleft: nat, me: Addr): (g: Option<Reply>) {
    if SeesShortcut(r, sleft, me) then ReplyWith(Shortened(r, sleft, me), me) else None
  }

  /** The reply that reports the shortened route `cut`. */
  function ReplyWith(cut: Route, me: Addr): (g: Option<Reply>)
    ensures g.Some? ==> g.value.reports == cut
    ensures g.None? <==> cut.addrs != [] && me !in cut.addrs
  {
    if cut.addrs == [] then Some(Reply(Reverse(cut), cut))
    else
      match SplitRev(cut, me)
      case None => None
      case Some(back) => Some(Reply(back, cut))
  }

  /** The way back from an intermediate hop of a simple route. */
  lemma SplitAtHop(cut: Route, i: nat)
    requires cut.Simple() && i < |cut.addrs|
    ensures SplitRev(cut, cut.addrs[i]).Some?
    ensures SplitRev(cut, cut.addrs[i]).value.Path() == ReverseSeq(cut.Path()[..i + 2])
  {
    var s := Split(cut, cut.addrs[i]).value;
    var p, n := cut.Path(), |s.addrs|;
    assert forall k :: 0 <= k < |cut.addrs| ==> cut.addrs[k] == p[k + 1];
    assert s.Path()[n + 1] == p[..|cut.addrs| + 1][n + 1];
    assert n == i;
    assert s.Path() == p[..i + 2];
    assert SplitRev(cut, cut.addrs[i]).value == Reverse(s);
  }

  lemma ReplyTravelsBack(cut: Route, i: nat, me: Addr)
    requires cut.Simple() && i <= |cut.addrs| && cut.Path()[i + 1] == me
    requires ReplyWith(cut, me).Some?
    ensures ReplyWith(cut, me).value.travels.Path() == ReverseSeq(cut.Path()[..i + 2])
    ensures ReplyWith(cut, me).value.travels.src == me
  {
    if cut.addrs == [] {
      assert cut.Path()[..i + 2] == cut.Path();
    } else {
      assert forall k :: 0 <= k < |cut.addrs| ==> cut.addrs[k] == cut.Path()[k + 1];
      assert i < |cut.addrs|;
      SplitAtHop(cut, i);
    }
  }

  /** What a gratuitous reply says: it reports the shortened route and travels back along
      exactly that route's own part up to this node. */
  lemma GratReplyReturns(r: Route, sleft: nat, me: Addr, cut: Route, g: Reply)
    requires r.Simple() && SeesShortcut(r, sleft, me) && cut == Shortened(r, sleft, me)
    requires ReplyWith(cut, me) == Some(g)
    ensures GratReply(r, sleft, me) == Some(g) && g.reports == cut && g.travels.src == me
    ensures g.travels.Path() == ReverseSeq(cut.Path()[..|r.addrs| - sleft + 2])
  {
    var i := |r.addrs| - sleft;
    assert cut.Simple() && i <= |cut.addrs| && cut.Path()[i + 1] == me by {
      ShortenedFacts(r, sleft, me, cut);
    }
    ReplyTravelsBack(cut, i, me);
  }

  /** When the reply is sent: the node is further along the route than the intended next
      hop and, if it is the destination, heard the source itself.  A destination that
      overhears an intermediate hop sends none, although section 3.4.3 of the draft asks
      for one: the reported route is split at an intermediate hop only. */
  lemma GratReplySentWhen(r: Route, sleft: nat, me: Addr)
    requires r.Simple()
    ensures GratReply(r, sleft, me).Some? <==>
            SeesShortcut(r, sleft, me) && (me == r.dst ==> sleft == |r.addrs|)
  {
    if SeesShortcut(r, sleft, me) {
      var cut, i := Shortened(r, sleft, me), |r.addrs| - sleft;
      ShortenedFacts(r, sleft, me, cut);
      ShortenedHop(cut, i, me);
      var j := Position(r, sleft, me);
      if j <= |r.addrs| {
        TailElement(r, j, |r.addrs| + 1);
      }
    }
  }

  /** A node is an intermediate hop of a simple route unless its position is last. */
  lemma ShortenedHop(cut: Route, i: nat, me: Addr)
    requires cut.Simple() && i <= |cut.addrs| && cut.Path()[i + 1] == me
    ensures me in cut.addrs <==> i < |cut.addrs|
  {
    assert forall k :: 0 <= k < |cut.addrs| ==> cut.addrs[k] == cut.Path()[k + 1];
    if i < |cut.addrs| {
      assert cut.addrs[i] == me;
    }
  }

  /** The shortest such destination: route 1, 2, 3, 4 overheard by 4 from 2. */
  lemma DestinationStaysSilent()
    ensures var r := Route(1, 4, [2, 3]);
            r.Simple() && SeesShortcut(r, 1, 4) && GratReply(r, 1, 4) == None
  {
    var r := Route(1, 4, [2, 3]);
    assert r.Path() == [1, 2, 3, 4];
    assert Remaining(r, 1)[1] == 4;
    GratReplySentWhen(r, 1, 4);
  }
}
