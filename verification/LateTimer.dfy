/** A run of the maintenance buffer whose timer goes off late.  While a link is given up, the
    first packet salvaged sets the timer for one that is taken out afterwards; a timer that runs
    is not set for a packet due already. */
module LateTimer {
  import opened Routes
  import opened Paths
  import opened MaintEntries
  import opened MaintState
  import opened MaintTimer
  import opened MaintBuf
  import opened LinkCache
  import opened ShortRoutes
  import Rtt

  const ME: Addr := 1
  const LOST: Addr := 2
  const QUICK: Addr := 3
  const OTHER: Addr := 4

  /** It can be salvaged over the link to its destination. */
  const SAVED := Packet(ME, OTHER, Some([LOST]), 0, 0)
  /** It has no source route and cannot be salvaged. */
  const DROPPED := Packet(ME, OTHER, None, 0, 0)

  ghost const LINK: Graph := map[(ME, OTHER) := 1]

  /** Over a single link the search answers with it. */
  lemma LinkAnswers(alt: Option<Route>)
    requires alt in Answers(LINK, ME, OTHER)
    ensures alt == Some(Route(ME, OTHER, []))
    ensures Saved(ME, SAVED, LOST, alt) && !Saved(ME, DROPPED, LOST, alt)
  {
    var p := [ME, OTHER];
    assert OnChain(p, (p[0], p[0 + 1]));
    assert Chain(LINK, p) == LINK;
    ChainAnswers(LINK, p, alt);
    assert OfPath(p) == Route(ME, OTHER, []);
  }

  lemma LinkFits()
    ensures Fits(LINK, ME)
  {
    FewNodesShort(LINK, ME, {ME, OTHER});
    ShortFits(LINK, ME);
  }

  /** Packets are sent again once; acknowledgements are always asked for. */
  ghost predicate Setting(b: Buffer)
    reads b, b.cache, b.cache.nodes
  {
    b.Inv() && b.me == ME && b.cap == 10 && b.max == 1 && b.holdoff == 0 && b.fixedRto == 0
    && b.cache.Graph() == LINK
  }

  method Linking() returns (c: Cache)
    ensures fresh(c) && forall k :: 0 <= k < |c.nodes| ==> fresh(c.nodes[k])
    ensures c.Valid() && c.Graph() == LINK
  {
    c := new Cache();
    GraphSize(c.links);
    assert |c.Graph()| == 0;
    c.LinkAdd(ME, OTHER, 1);
    assert c.Graph() == LINK;
    assert forall k :: 0 <= k < |c.nodes| ==> c.nodes[k] in c.nodes;
  }

  const NEW := Neighbor(1, 0, Rtt.Estimate(0, 240, 120))

  method Meeting(b: Buffer)
    requires Setting(b) && b.neigh == map[]
    modifies b`neigh
    ensures Setting(b) && b.neigh == map[LOST := NEW, QUICK := NEW, OTHER := NEW]
  {
    MeetNew(b, LOST);
    MeetNew(b, QUICK);
    MeetNew(b, OTHER);
  }

  method MeetNew(b: Buffer, n: Addr)
    requires Setting(b) && n !in b.neigh && |b.neigh| < 3
    modifies b`neigh
    ensures Setting(b) && b.neigh == old(b.neigh)[n := NEW]
    ensures |b.neigh| == |old(b.neigh)| + 1
  {
    ghost var was := b.neigh;
    b.Meet(n);
    assert b.neigh.Keys == was.Keys + {n};
    assert |b.neigh.Keys| == |was.Keys| + 1;
  }

  /** One of them answers within a millisecond. */
  method Answering(b: Buffer)
    requires Setting(b) && b.word == Rtt.W64 && b.neigh == map[LOST := NEW, QUICK := NEW, OTHER := NEW]
    modifies b`neigh
    ensures Setting(b) && LOST in b.neigh && b.neigh[LOST] == NEW && OTHER in b.neigh && b.neigh[OTHER] == NEW
    ensures QUICK in b.neigh && b.neigh[QUICK].lastReq == 0 && b.neigh[QUICK].estimate.rxtcur == 20
  {
    assert Rtt.Tame(Rtt.W64, b.neigh[QUICK].estimate, 1, 1, 1);
    b.SetRto(QUICK, 1);
  }

  function Waiting(next: Addr, id: nat, tx: nat, rto: nat, pkt: Packet, no: nat): Entry {
    Entry(next, 0, id, tx, rto, true, pkt, no)
  }

  /** Two packets for one neighbour and then one for another that is expected to answer soon. */
  method Sending(b: Buffer)
    requires Setting(b) && b.buf == [] && b.timer == None && b.hist == []
    requires LOST in b.neigh && b.neigh[LOST] == NEW && OTHER in b.neigh && b.neigh[OTHER] == NEW
    requires QUICK in b.neigh && b.neigh[QUICK].lastReq == 0 && b.neigh[QUICK].estimate.rxtcur == 20
    modifies b
    ensures Setting(b) && OTHER in b.neigh && b.neigh[OTHER].lastReq == 0 && b.timer == None && |b.buf| == 3
    ensures b.buf[0] == Waiting(LOST, b.buf[0].id, 1, 60000, SAVED, 0)
    ensures b.buf[1] == Waiting(LOST, b.buf[1].id, 40000, 60000, DROPPED, 1)
    ensures b.buf[2] == Waiting(QUICK, b.buf[2].id, 40001, 10000, DROPPED, 2)
  {
    var m0, full0 := b.Number(SAVED, LOST, 1);
    var m1, full1 := b.Number(DROPPED, LOST, 40000);
    var m2, full2 := b.Number(DROPPED, QUICK, 40001);
    assert b.buf == [m0, m1, m2];
  }

  /** The calls of Timeout at 60001, one by one, up to the salvaging of the first packet: it is
      sent to its destination and buffered, and the timer set to the expiry of the second. */
  method SalvagingFirst(b: Buffer)
    requires Setting(b) && OTHER in b.neigh && b.neigh[OTHER].lastReq == 0 && b.timer == None && |b.buf| == 3
    requires b.buf[0] == Waiting(LOST, b.buf[0].id, 1, 60000, SAVED, 0)
    requires b.buf[1] == Waiting(LOST, b.buf[1].id, 40000, 60000, DROPPED, 1)
    requires b.buf[2] == Waiting(QUICK, b.buf[2].id, 40001, 10000, DROPPED, 2)
    modifies b, b.cache, b.cache.nodes
    ensures Setting(b) && b.timer == Some(100000) && |b.buf| == 3
    ensures b.buf[0] == old(b.buf)[1] && b.buf[1] == old(b.buf)[2]
    ensures Among(b.cache.nodes, old(b.cache.nodes))
  {
    var m := GivingUp(b);
    Salvaging(b, m);
  }

  method Salvaging(b: Buffer, m: Entry)
    requires Setting(b) && OTHER in b.neigh && b.neigh[OTHER].lastReq == 0 && |b.buf| == 2
    requires m.next == LOST && m.pkt == SAVED
    requires b.buf[0].ackReq && b.buf[0].tx == 40000 && b.buf[0].rto == 60000
    modifies b, b.cache, b.cache.nodes
    ensures Setting(b) && b.timer == Some(100000) && |b.buf| == 3 && b.buf[..2] == old(b.buf)
    ensures Among(b.cache.nodes, old(b.cache.nodes))
  {
    var x := Deciding(b, m);
    Resending(b, x.value);
  }

  /** The first packet is taken out, the link deleted and the error reported. */
  method GivingUp(b: Buffer) returns (m: Entry)
    requires Setting(b) && |b.buf| == 3
    modifies b`buf, b`out, b.cache, b.cache.nodes
    ensures Setting(b) && m == old(b.buf)[0] && b.buf == old(b.buf)[1..]
    ensures Among(b.cache.nodes, old(b.cache.nodes))
  {
    m := b.buf[0];
    b.Detach(0);
    LoseNothing(b);
    b.Emit(Rerr(m.pkt, m.next));
  }

  /** The packet is buffered for its new neighbour, the timer set, and the packet sent. */
  method Resending(b: Buffer, x: Output)
    requires Setting(b) && x.Xmit? && x.next in b.neigh && b.neigh[x.next].lastReq == 0 && |b.buf| == 2
    requires b.buf[0].ackReq && b.buf[0].tx == 40000 && b.buf[0].rto == 60000
    modifies b, b.cache, b.cache.nodes
    ensures Setting(b) && b.timer == Some(100000) && |b.buf| == 3 && b.buf[..2] == old(b.buf)
    ensures Among(b.cache.nodes, old(b.cache.nodes))
  {
    ghost var was := b.buf;
    var m, full := b.Number(x.pkt, x.next, 60001);
    assert b.buf == was + [m];
    Awaiting(b);
    b.Emit(x);
  }

  method Awaiting(b: Buffer)
    requires Setting(b) && |b.buf| == 3 && b.buf[0].ackReq && b.buf[0].tx == 40000 && b.buf[0].rto == 60000
    modifies b, b.cache, b.cache.nodes
    ensures Setting(b) && b.timer == Some(100000) && b.buf == old(b.buf)
    ensures Among(b.cache.nodes, old(b.cache.nodes))
  {
    assert FirstRequest(b.buf) == 0;
    b.SetTimeout(60001, b.Work());
  }

  /** There was no link to the neighbour given up. */
  method LoseNothing(b: Buffer)
    requires Setting(b)
    modifies b.cache, b.cache.nodes
    ensures Setting(b) && Among(b.cache.nodes, old(b.cache.nodes))
  {
    b.LoseLink(LOST);
  }

  method Deciding(b: Buffer, m: Entry) returns (x: Option<Output>)
    requires Setting(b) && m.next == LOST && (m.pkt == SAVED || m.pkt == DROPPED)
    modifies b.cache, b.cache.nodes
    ensures Setting(b) && Among(b.cache.nodes, old(b.cache.nodes))
    ensures x.Some? <==> m.pkt == SAVED
    ensures x.Some? ==> x.value.Xmit? && x.value.next == OTHER
  {
    var alt;
    x, alt := b.Decide(m);
    LinkAnswers(alt);
  }

  /** Then the second packet is taken out and dropped, and the timer is to be set again. */
  method DroppingSecond(b: Buffer)
    requires Setting(b) && b.timer == Some(100000) && |b.buf| == 3
    requires b.buf[0] == Waiting(LOST, b.buf[0].id, 40000, 60000, DROPPED, 1)
    requires b.buf[1] == Waiting(QUICK, b.buf[1].id, 40001, 10000, DROPPED, 2)
    modifies b, b.cache, b.cache.nodes
    ensures Setting(b) && b.timer == Some(100000)
    ensures |b.buf| == 2 && b.buf[0] == old(b.buf)[1]
  {
    var m := b.buf[0];
    b.Detach(0);
    Dropping(b, m);
    Finishing(b);
  }

  method Dropping(b: Buffer, m: Entry)
    requires Setting(b) && m.next == LOST && m.pkt == DROPPED
    modifies b`out, b.cache, b.cache.nodes
    ensures Setting(b) && Among(b.cache.nodes, old(b.cache.nodes))
  {
    var x := Deciding(b, m);
    if x.None? {
      b.Emit(Drop(m.pkt, m.no));
    }
  }

  method Finishing(b: Buffer)
    requires Setting(b) && b.timer == Some(100000) && |b.buf| == 2
    requires b.buf[0] == Waiting(QUICK, b.buf[0].id, 40001, 10000, DROPPED, 2)
    modifies b, b.cache, b.cache.nodes
    ensures Setting(b) && b.timer == Some(100000) && b.buf == old(b.buf)
  {
    assert FirstRequest(b.buf) == 0 && Due(b.buf[0], 60001);
    b.SetTimeout(60001, b.Work());
  }

  /** In the end a packet that awaits an acknowledgement is due since 50001, and the timer goes off
      at 100000, the expiry of a packet that is gone. */
  method Late() returns (b: Buffer)
    ensures b.Inv() && b.timer == Some(100000) && !OnTime(b.buf, b.timer, 60001)
    ensures |b.buf| > 0 && b.buf[0].ackReq && b.buf[0].Expires() == 50001
  {
    var c := Linking();
    LinkFits();
    b := new Buffer(ME, 10, 1, 0, 0, Rtt.W64, c);
    Meeting(b);
    Answering(b);
    Sending(b);
    SalvagingFirst(b);
    DroppingSecond(b);
    assert FirstRequest(b.buf) == 0;
  }
}
