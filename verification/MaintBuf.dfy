/** The maintenance buffer (maint-buf.c): packets that wait for an acknowledgement, their
    retransmission, and what happens when a neighbour stays silent. */
module MaintBuf {
  import opened Routes
  import opened Paths
  import opened Acks
  import opened MaintEntries
  import opened MaintWork
  import opened MaintState
  import opened MaintTimer
  import opened LinkCache
  import opened ShortRoutes
  import Rtt

  const NEIGH_TBL_MAX_LEN: nat := 50

  ghost predicate Among(ns: seq<Node>, others: seq<Node>) {
    forall i :: 0 <= i < |ns| ==> ns[i] in others
  }

  lemma AmongTwice(a: seq<Node>, b: seq<Node>, c: seq<Node>)
    requires Among(a, b) && Among(b, c)
    ensures Among(a, c)
  {
  }

  /** What the first packet's expiry causes: its request is repeated while retransmissions are
      left; then an error is reported, or the packet dropped if no request was ever sent. */
  predicate FirstOutput(e: Entry, max: nat, before: seq<Output>, after: seq<Output>) {
    if e.rexmt + 1 < max then
      before <= after && (e.ackReq ==> |after| > |before| && after[|before|] == AckRequest(e.next, e.id))
    else
      before <= after && |after| > |before|
      && after[|before|] == if e.ackReq then Rerr(e.pkt, e.next) else Drop(e.pkt, e.no)
  }

  /** The first packet takes its place by expiry while retransmissions are left, and is taken out
      otherwise; the other packets keep their order. */
  ghost predicate FirstAgain(b: seq<Entry>, c: seq<Entry>, max: nat, now: nat)
    requires b != []
  {
    if b[0].rexmt + 1 < max then exists k :: MovedBehind(b, c, now, k) else c == b[1..]
  }

  /** The estimate of `n`, and nothing else, moves by the sample. */
  ghost predicate Sampling(was: map<Addr, Neighbor>, neigh: map<Addr, Neighbor>, n: Addr, word: Rtt.Word, rtt: nat) {
    && n in was && n in neigh
    && neigh == was[n := was[n].(estimate := neigh[n].estimate)]
    && Rtt.Calculated(word, was[n].estimate, rtt, neigh[n].estimate)
  }

  /** A positive sample moves the estimate of `n`, if it is known, and nothing else does. */
  ghost predicate Measured(was: map<Addr, Rtt.Estimate>, rtts: map<Addr, Rtt.Estimate>, n: Addr, word: Rtt.Word,
                           sample: int)
  {
    if n in was && sample > 0 then
      n in rtts && rtts == was[n := rtts[n]] && Rtt.Calculated(word, was[n], sample, rtts[n])
    else rtts == was
  }

  lemma SamplingMeasured(was: map<Addr, Neighbor>, neigh: map<Addr, Neighbor>, n: Addr, word: Rtt.Word, rtt: nat)
    requires Sampling(was, neigh, n, word, rtt) && rtt > 0
    ensures Measured(Estimates(was), Estimates(neigh), n, word, rtt)
  {
    EstimateSet(was, n, neigh[n]);
  }

  class Buffer {
    const me: Addr
    const cap: nat
    /** MaxMaintRexmt */
    const max: nat
    /** MaintHoldoffTime */
    const holdoff: nat
    /** RoundTripTimeout, zero when estimates are to be used */
    const fixedRto: nat
    const word: Rtt.Word
    const cache: Cache
    var buf: seq<Entry>
    var timer: Option<nat>
    var neigh: map<Addr, Neighbor>
    var out: seq<Output>
    /** All packets numbered so far. */
    var hist: seq<Sent>

    ghost predicate Inv()
      reads this, cache, cache.nodes
    {
      cache.Valid() && Fits(cache.Graph(), me) && Good(buf, neigh, hist, cap, max)
    }

    ghost function Live(): set<Addr>
      reads cache
    {
      LiveOf(cache.Graph(), me)
    }

    ghost function Work(): nat
      reads this, cache
    {
      Total(buf, max, Live())
    }

    ghost function Rtts(): map<Addr, Rtt.Estimate>
      reads this
    {
      Estimates(neigh)
    }

    ghost function Snapshot(): Snap
      reads this, cache
    {
      Snap(buf, Live(), hist, out, me, cache.Graph(), Rtts())
    }

    /** Packets are due in order, and if the timer runs none is that awaits an acknowledgement. */
    ghost predicate Prompt(now: nat)
      reads this
    {
      (buf, timer) in Steady(now)
    }

    constructor (me: Addr, cap: nat, max: nat, holdoff: nat, fixedRto: nat, word: Rtt.Word, cache: Cache)
      requires cache.Valid() && Fits(cache.Graph(), me)
      ensures Inv() && buf == [] && hist == [] && timer == None && neigh == map[] && out == []
      ensures this.me == me && this.cap == cap && this.max == max && this.cache == cache
      ensures this.holdoff == holdoff && this.fixedRto == fixedRto && this.word == word
    {
      this.me, this.cap, this.max, this.holdoff := me, cap, max, holdoff;
      this.fixedRto, this.word, this.cache := fixedRto, word, cache;
      buf, timer, neigh, out, hist := [], None, map[], [], [];
    }

    // ---------------------------------------------------------- small steps

    method Detach(k: nat)
      requires Inv() && k < |buf|
      modifies this`buf
      ensures Inv() && buf == Removed(old(buf), k)
      ensures old(Work()) == Work() + Weight(old(buf)[k], max, Live())
    {
      EntryGone(buf, neigh, hist, cap, max, Live(), k);
      buf := buf[..k] + buf[k + 1..];
    }

    /** The first packet is due again: its request is repeated, and it moves behind those that
        expire no later. */
    method Retry(now: nat) returns (ghost k: nat)
      requires Inv() && buf != [] && buf[0].rexmt + 1 < max
      modifies this`buf, this`out
      ensures Inv() && Work() < old(Work()) && Advanced(old(Snapshot()), Snapshot())
      ensures out == if old(buf)[0].ackReq then old(out) + [AckRequest(old(buf)[0].next, old(buf)[0].id)] else old(out)
      ensures MovedBehind(old(buf), buf, now, k)
    {
      ghost var s := Snapshot();
      var m, c;
      m, c, k := MoveBehind(buf, now);
      FirstRetried(buf, neigh, hist, cap, max, Live(), k, m);
      if m.ackReq {
        out := out + [AckRequest(m.next, m.id)];
      }
      AdvancedRetried(s, k, m, out);
      buf := c;
    }

    /** lc_link_del of the link to a neighbour */
    method LoseLink(n: Addr)
      requires Inv()
      modifies cache, cache.nodes
      ensures Inv() && n !in Live() && Work() <= old(Work())
      ensures cache.Graph() == DeleteLink(old(cache.Graph()), me, n)
      ensures Among(cache.nodes, old(cache.nodes))
      ensures AdvancedBut(old(Snapshot()), Snapshot(), n) && Live() <= old(Live())
    {
      LinkLost(n, Snapshot(), max);
      FitsAfterDelete(cache.Graph(), me, n);
      var _ := cache.LinkDel(me, n);
    }

    /** Is there an entry for `n`? */
    method FindNext(n: Addr) returns (k: nat)
      ensures k <= |buf| && (k < |buf| ==> buf[k].next == n)
      ensures k == |buf| ==> NoneFor(buf, n)
    {
      k := 0;
      while k < |buf| && buf[k].next != n
        invariant k <= |buf| && forall i :: 0 <= i < k ==> buf[i].next != n
      {
        k := k + 1;
      }
    }

    method FindRequest() returns (k: nat)
      ensures k == FirstRequest(buf)
    {
      k := 0;
      while k < |buf| && !buf[k].ackReq
        invariant k <= |buf| && forall i :: 0 <= i < k ==> !buf[i].ackReq
      {
        k := k + 1;
      }
    }

    method Emit(x: Output)
      requires Inv()
      modifies this`out
      ensures Inv() && out == old(out) + [x] && Snapshot() == old(Snapshot()).(out := out)
    {
      out := out + [x];
    }

    // ---------------------------------------------------------- time-outs

    /** _maint_buf_timeout */
    method Timeout(now: nat, ghost budget: nat)
      requires Inv() && Work() <= budget
      modifies this, cache, cache.nodes
      ensures Inv() && Work() <= old(Work())
      ensures Among(cache.nodes, old(cache.nodes))
      ensures Advanced(old(Snapshot()), Snapshot())
      ensures old(timer).None? ==> Armed(buf, timer, now)
      ensures old(timer).Some? ==> timer == old(timer) && neigh == old(neigh) && Snapshot() == old(Snapshot())
      ensures old(timer).None? && old(buf) != [] && Exhausted(old(buf)[0], max) ==>
        old(buf)[0].next !in Live() && NoneFor(buf, old(buf)[0].next)
      ensures old(timer).None? && old(buf) != [] ==> FirstOutput(old(buf)[0], max, old(out), out)
      ensures old(Prompt(now)) ==> Prompt(now)
      decreases budget, 2
    {
      if timer.Some? || buf == [] {
        AdvancedSame(Snapshot(), Snapshot());
        return;
      }
      ghost var e := buf[0];
      First(now, budget);
      ghost var s, ns := Snapshot(), cache.nodes;
      SetTimeout(now, Work());
      AmongTwice(cache.nodes, ns, old(cache.nodes));
      assert PurgedOf(s, Snapshot(), e.next);
      AdvancedTwice(old(Snapshot()), s, Snapshot());
    }

    /** The first packet is sent again or given up. */
    method First(now: nat, ghost budget: nat)
      requires Inv() && Work() <= budget && buf != [] && timer.None?
      modifies this, cache, cache.nodes
      ensures Inv() && Work() < old(Work())
      ensures Among(cache.nodes, old(cache.nodes))
      ensures Advanced(old(Snapshot()), Snapshot())
      ensures Exhausted(old(buf)[0], max) ==> old(buf)[0].next !in Live() && NoneFor(buf, old(buf)[0].next)
      ensures FirstOutput(old(buf)[0], max, old(out), out)
      ensures !Exhausted(old(buf)[0], max) ==> FirstAgain(old(buf), buf, max, now) && Live() == old(Live())
      ensures old(Prompt(now)) ==> Prompt(now)
      decreases budget, 1
    {
      if buf[0].rexmt + 1 < max {
        ghost var b := buf;
        ghost var k := Retry(now);
        MovedSteady(b, buf, now, k);
        assert MovedBehind(b, buf, now, k);
      } else {
        GiveUp(now, budget);
      }
    }

    /** The first packet was sent often enough. */
    method GiveUp(now: nat, ghost budget: nat)
      requires Inv() && Work() <= budget && buf != [] && buf[0].rexmt + 1 >= max
      modifies this, cache, cache.nodes
      ensures Inv() && Work() < old(Work())
      ensures Among(cache.nodes, old(cache.nodes))
      ensures Advanced(old(Snapshot()), Snapshot())
      ensures old(buf)[0].ackReq ==> old(buf)[0].next !in Live() && NoneFor(buf, old(buf)[0].next)
      ensures FirstOutput(old(buf)[0], max, old(out), out)
      ensures !old(buf)[0].ackReq ==> buf == old(buf)[1..] && Live() == old(Live())
      ensures old(Prompt(now)) ==> Prompt(now)
      decreases budget, 0
    {
      var m := buf[0];
      RemovedSteady(buf, timer, 0, now);
      Detach(0);
      if m.ackReq {
        Broken(m, now, budget - 1);
      } else {
        DropFirst(m);
      }
      AdvancedDetached(old(Snapshot()), 0, Snapshot());
    }

    /** A packet already taken from the buffer, which carries no request, is dropped. */
    method DropFirst(m: Entry)
      requires Inv() && !m.ackReq
      modifies this`out
      ensures Inv() && Work() == old(Work()) && Live() == old(Live()) && out == old(out) + [Drop(m.pkt, m.no)]
      ensures Advanced(old(Snapshot()), Snapshot()) && Resolved(old(Snapshot()), Snapshot(), m)
    {
      ghost var s := Snapshot();
      AdvancedSame(s, s);
      Conclude(Drop(m.pkt, m.no), s);
      ResolvedLast(s, Snapshot(), Drop(m.pkt, m.no), m, None);
    }

    /** The neighbour of a packet already taken from the buffer does not answer. */
    method Broken(m: Entry, now: nat, ghost budget: nat)
      requires Inv() && Work() + Weight(m, max, Live()) <= budget + 1
      modifies this, cache, cache.nodes
      ensures Inv() && Work() < old(Work() + Weight(m, max, Live()))
      ensures Among(cache.nodes, old(cache.nodes))
      ensures Advanced(old(Snapshot()), Snapshot()) && Resolved(old(Snapshot()), Snapshot(), m)
      ensures m.next !in Live() && NoneFor(buf, m.next)
      ensures |out| > |old(out)| && out[|old(out)|] == Rerr(m.pkt, m.next)
      ensures old(Prompt(now)) ==> Prompt(now)
      decreases budget, 15
    {
      LoseLink(m.next);
      ghost var s, ns := Snapshot(), cache.nodes;
      ResentIsLighter(m, max, old(Live()), Live());
      SalvageAfter(m, now, budget);
      AmongTwice(cache.nodes, ns, old(cache.nodes));
      AdvancedButTwice(old(Snapshot()), s, Snapshot(), m.next);
      ResolvedLonger(old(Snapshot()), s, Snapshot(), Snapshot(), m, m);
    }

    /** Reports the error, salvages the packet and then the others for the same neighbour. */
    method SalvageAfter(m: Entry, now: nat, ghost budget: nat)
      requires Inv() && m.next !in Live() && Work() + FreshWeight(max, Live()) <= budget
      modifies this, cache, cache.nodes
      ensures Inv() && Work() <= old(Work() + FreshWeight(max, Live()))
      ensures Among(cache.nodes, old(cache.nodes))
      ensures Advanced(old(Snapshot()), Snapshot()) && Resolved(old(Snapshot()), Snapshot(), m)
      ensures m.next !in Live() && NoneFor(buf, m.next)
      ensures |out| > |old(out)| && out[|old(out)|] == Rerr(m.pkt, m.next)
      ensures old(Prompt(now)) ==> Prompt(now)
      decreases budget, 14
    {
      AdvancedSame(Snapshot(), Snapshot());
      ThenOutput(Snapshot(), Snapshot(), Rerr(m.pkt, m.next));
      Emit(Rerr(m.pkt, m.next));
      ghost var s := Snapshot();
      SalvageBoth(m, now, budget);
      ResolvedLonger(old(Snapshot()), s, Snapshot(), Snapshot(), m, m);
      AdvancedTwice(old(Snapshot()), s, Snapshot());
    }

    method SalvageBoth(m: Entry, now: nat, ghost budget: nat)
      requires Inv() && m.next !in Live() && Work() + FreshWeight(max, Live()) <= budget
      modifies this, cache, cache.nodes
      ensures Inv() && Work() <= old(Work() + FreshWeight(max, Live()))
      ensures Among(cache.nodes, old(cache.nodes))
      ensures Advanced(old(Snapshot()), Snapshot()) && Resolved(old(Snapshot()), Snapshot(), m)
      ensures m.next !in Live() && NoneFor(buf, m.next)
      ensures old(Prompt(now)) ==> Prompt(now)
      decreases budget, 13
    {
      ghost var _, _ := SalvageOrDrop(m, now, budget);
      ghost var s, ns := Snapshot(), cache.nodes;
      SalvageAll(m.next, now, budget);
      AmongTwice(cache.nodes, ns, old(cache.nodes));
      ResolvedLonger(old(Snapshot()), old(Snapshot()), s, Snapshot(), m, m);
      AdvancedTwice(old(Snapshot()), s, Snapshot());
    }

    /** Salvages all other packets for a neighbour that is lost. */
    method SalvageAll(n: Addr, now: nat, ghost budget: nat)
      requires Inv() && Work() <= budget && n !in Live()
      modifies this, cache, cache.nodes
      ensures Inv() && Work() <= old(Work())
      ensures Among(cache.nodes, old(cache.nodes))
      ensures Advanced(old(Snapshot()), Snapshot())
      ensures n !in Live() && NoneFor(buf, n)
      ensures old(Prompt(now)) ==> Prompt(now)
      decreases budget, 12
    {
      AdvancedSame(Snapshot(), Snapshot());
      var k: nat := FindNext(n);
      while k < |buf|
        invariant Inv() && Work() <= old(Work())
        invariant Among(cache.nodes, old(cache.nodes))
        invariant Advanced(old(Snapshot()), Snapshot())
        invariant n !in Live() && (old(Prompt(now)) ==> Prompt(now))
        invariant 0 <= k <= |buf| && (k < |buf| ==> buf[k].next == n)
        invariant k == |buf| ==> NoneFor(buf, n)
        decreases Work()
      {
        ghost var s, ns := Snapshot(), cache.nodes;
        ghost var _, _ := SalvageOne(k, now, budget);
        AmongTwice(cache.nodes, ns, old(cache.nodes));
        AdvancedTwice(old(Snapshot()), s, Snapshot());
        k := FindNext(n);
      }
    }

    /** Takes one packet from the buffer and salvages or drops it. */
    method SalvageOne(k: nat, now: nat, ghost budget: nat) returns (ghost y: Output, ghost alt: Option<Route>)
      requires Inv() && Work() <= budget && k < |buf| && buf[k].next !in Live()
      modifies this, cache, cache.nodes
      ensures Inv() && Work() < old(Work())
      ensures Among(cache.nodes, old(cache.nodes))
      ensures Advanced(old(Snapshot()), Snapshot())
      ensures old(Prompt(now)) ==> Prompt(now)
      ensures Decided(y, old(buf)[k], me, old(cache.Graph()), alt) && Appended(old(out), out, Some(y))
      decreases budget, 11
    {
      var m := buf[k];
      RemovedSteady(buf, timer, k, now);
      Detach(k);
      ResentIsLighter(m, max, Live(), Live());
      y, alt := SalvageOrDrop(m, now, budget);
      AdvancedDetached(old(Snapshot()), k, Snapshot());
    }

    /** A packet already taken from the buffer is salvaged, or dropped if that is impossible; what
        was output for it, and what the search answered. */
    method SalvageOrDrop(m: Entry, now: nat, ghost budget: nat) returns (ghost y: Output, ghost alt: Option<Route>)
      requires Inv() && Work() + FreshWeight(max, Live()) <= budget
      modifies this, cache, cache.nodes
      ensures Inv() && Work() <= old(Work() + FreshWeight(max, Live()))
      ensures Among(cache.nodes, old(cache.nodes))
      ensures Advanced(old(Snapshot()), Snapshot()) && Resolved(old(Snapshot()), Snapshot(), m)
      ensures Decided(y, m, me, old(cache.Graph()), alt) && Appended(old(out), out, Some(y))
      ensures old(Prompt(now)) ==> Prompt(now)
      ensures Renumbered(old(Snapshot()), Snapshot(), old(neigh), y, now, holdoff, cap)
      decreases budget, 10
    {
      var x;
      var found;
      x, found := Salvage(m, now, budget);
      alt := found;
      if x.Some? {
        y := x.value;
      } else {
        y := Drop(m.pkt, m.no);
        Conclude(Drop(m.pkt, m.no), old(Snapshot()));
      }
      ResolvedLast(old(Snapshot()), Snapshot(), y, m, alt);
    }

    /** maint_buf_salvage of a packet already taken from the buffer; what was sent, if anything,
        and what the search answered */
    method Salvage(m: Entry, now: nat, ghost budget: nat) returns (x: Option<Output>, alt: Option<Route>)
      requires Inv() && Work() + FreshWeight(max, Live()) <= budget
      modifies this, cache, cache.nodes
      ensures Inv() && Work() <= old(Work() + FreshWeight(max, Live()))
      ensures Among(cache.nodes, old(cache.nodes))
      ensures Advanced(old(Snapshot()), Snapshot())
      ensures alt in Answers(old(cache.Graph()), me, m.pkt.dst)
      ensures x.Some? <==> Saved(me, m.pkt, m.next, alt)
      ensures x.Some? ==> Routed(x.value, m.pkt, m.no, old(Live())) && Rerouted(x.value, me, m.pkt, m.next, alt)
      ensures Appended(old(out), out, x)
      ensures old(Prompt(now)) ==> Prompt(now)
      ensures x.Some? ==> Renumbered(old(Snapshot()), Snapshot(), old(neigh), x.value, now, holdoff, cap)
      decreases budget, 9
    {
      x, alt := Decide(m);
      ghost var ns := cache.nodes;
      Ship(x, now, budget);
      AmongTwice(cache.nodes, ns, old(cache.nodes));
    }

    /** Another route is looked for, and the packet put on it. */
    method Decide(m: Entry) returns (x: Option<Output>, alt: Option<Route>)
      requires Inv()
      modifies cache`nodes, cache`src, cache.nodes`cost, cache.nodes`hops, cache.nodes`pred
      ensures Inv() && cache.Graph() == old(cache.Graph()) && Snapshot() == old(Snapshot())
      ensures Among(cache.nodes, old(cache.nodes))
      ensures alt in Answers(old(cache.Graph()), me, m.pkt.dst)
      ensures x.Some? <==> Saved(me, m.pkt, m.next, alt)
      ensures x.Some? ==> Routed(x.value, m.pkt, m.no, Live()) && Rerouted(x.value, me, m.pkt, m.next, alt)
    {
      alt := Search(m.pkt.dst);
      x := Leave(Live(), me, m.pkt, m.no, m.next, alt);
    }

    /** What is done with the transmission decided on, if any. */
    method Ship(x: Option<Output>, now: nat, ghost budget: nat)
      requires Inv() && Work() + FreshWeight(max, Live()) <= budget
      requires x.Some? ==> x.value.Xmit? && x.value.next in Live()
      modifies this, cache, cache.nodes
      ensures Inv() && Work() <= old(Work() + FreshWeight(max, Live()))
      ensures Among(cache.nodes, old(cache.nodes))
      ensures Advanced(old(Snapshot()), Snapshot())
      ensures Appended(old(out), out, x)
      ensures old(Prompt(now)) ==> Prompt(now)
      ensures x.Some? ==> Renumbered(old(Snapshot()), Snapshot(), old(neigh), x.value, now, holdoff, cap)
      decreases budget, 8
    {
      if x.Some? {
        Resend(x.value, now, budget);
      } else {
        AdvancedSame(Snapshot(), Snapshot());
      }
    }

    /** The packet leaves on its new route, and is buffered again. */
    method Resend(x: Output, now: nat, ghost budget: nat)
      requires Inv() && x.Xmit? && x.next in Live() && Work() + FreshWeight(max, Live()) <= budget
      modifies this, cache, cache.nodes
      ensures Inv() && Work() <= old(Work() + FreshWeight(max, Live()))
      ensures Among(cache.nodes, old(cache.nodes))
      ensures Advanced(old(Snapshot()), Snapshot())
      ensures Appended(old(out), out, Some(x))
      ensures old(Prompt(now)) ==> Prompt(now)
      ensures Renumbered(old(Snapshot()), Snapshot(), old(neigh), x, now, holdoff, cap)
      decreases budget, 7
    {
      ghost var s := Snapshot();
      Rebuffer(x, now, budget);
      RenumberedKept(s, Snapshot(), old(neigh), x, now, holdoff, cap);
      Conclude(x, s);
    }

    /** The output that ends a step begun in `s`. */
    method Conclude(x: Output, ghost s: Snap)
      requires Inv() && Advanced(s, Snapshot())
      modifies this`out
      ensures Inv() && Work() == old(Work()) && Advanced(s, Snapshot()) && Appended(s.out, out, Some(x))
      ensures buf == old(buf) && timer == old(timer) && Snapshot() == old(Snapshot()).(out := old(out) + [x])
    {
      ThenOutput(s, Snapshot(), x);
      out := out + [x];
    }

    method Rebuffer(x: Output, now: nat, ghost budget: nat)
      requires Inv() && x.Xmit? && x.next in Live() && Work() + FreshWeight(max, Live()) <= budget
      modifies this, cache, cache.nodes
      ensures Inv() && Work() <= old(Work() + FreshWeight(max, Live()))
      ensures Among(cache.nodes, old(cache.nodes))
      ensures Advanced(old(Snapshot()), Snapshot())
      ensures old(Prompt(now)) ==> Prompt(now)
      ensures Renumbered(old(Snapshot()), Snapshot(), old(neigh), x, now, holdoff, cap)
      decreases budget, 6, 1
    {
      var _ := Add(x.pkt, x.next, now, budget);
    }

    /** The search for another route. */
    method Search(dst: Addr) returns (alt: Option<Route>)
      requires Inv()
      modifies cache`nodes, cache`src, cache.nodes`cost, cache.nodes`hops, cache.nodes`pred
      ensures Inv() && cache.Graph() == old(cache.Graph()) && Snapshot() == old(Snapshot())
      ensures Among(cache.nodes, old(cache.nodes))
      ensures alt in Answers(old(cache.Graph()), me, dst) && Usable(alt, me, dst, Live())
    {
      ghost var g := cache.Graph();
      alt := cache.SrtFind(me, dst);
      AnswerUsable(g, me, dst, alt);
    }

    /** _maint_buf_set_timeout */
    method SetTimeout(now: nat, ghost budget: nat)
      requires Inv() && Work() <= budget
      modifies this, cache, cache.nodes
      ensures Inv() && Work() <= old(Work())
      ensures Among(cache.nodes, old(cache.nodes))
      ensures Advanced(old(Snapshot()), Snapshot())
      ensures Armed(buf, timer, now)
      ensures Undisturbed(old(buf), old(timer), now) ==> neigh == old(neigh) && Snapshot() == old(Snapshot())
      ensures old(timer).Some? && FirstDue(old(buf), now) ==> timer == old(timer)
      ensures old(Prompt(now)) ==> Prompt(now) && OnTime(buf, timer, now)
      decreases budget, 3
    {
      AdvancedSame(Snapshot(), Snapshot());
      var k := FindRequest();
      if k < |buf| {
        var m := buf[k];
        if now - m.tx > m.rto {
          Timeout(now, budget);
        } else {
          SetSteady(buf, timer, m.Expires(), now);
          timer := Some(m.Expires());
        }
      }
      SteadyOnTime(buf, timer, now);
    }

    /** The entry made for the packet of number `no`. */
    function Made(info: Neighbor, pkt: Packet, next: Addr, now: nat, no: nat): (m: Entry) {
      Entry(next, 0, info.id, now, if fixedRto == 0 then info.estimate.rxtcur * 1000 / 2 else fixedRto,
            now - info.lastReq > holdoff, pkt, no)
    }

    /** maint_buf_add of a packet that asks for an acknowledgement; the id of the request it
        is to carry, if any */
    method Add(pkt: Packet, next: Addr, now: nat, ghost budget: nat) returns (request: Option<nat>)
      requires Inv() && Work() + NewWeight(next, max, Live()) <= budget
      modifies this, cache, cache.nodes
      ensures Inv() && Work() <= old(Work() + NewWeight(next, max, Live()))
      ensures Among(cache.nodes, old(cache.nodes))
      ensures next in old(Live()) ==> Advanced(old(Snapshot()), Snapshot())
      ensures AdvancedBut(old(Snapshot()), Snapshot(), next)
      ensures old(Armed(buf, timer, now)) ==> Armed(buf, timer, now)
      ensures next !in old(neigh) ==> request == None && buf == old(buf) && hist == old(hist) && out == old(out)
      ensures next in old(neigh) ==>
                Numbering(old(Snapshot()), Snapshot(), old(neigh)[next], pkt, next, now, request, holdoff, cap)
      ensures next in old(neigh) && (|old(buf)| >= cap || Undisturbed(old(buf), old(timer), now)) ==>
                out == old(out) && buf == old(buf) + if |old(buf)| >= cap then []
                                                     else [Made(old(neigh)[next], pkt, next, now, |old(hist)|)]
      ensures old(Prompt(now)) ==> Prompt(now)
      decreases budget, 6, 0
    {
      if next in neigh {
        request := AddKnown(pkt, next, now, budget);
      } else {
        request := None;
        AdvancedSame(Snapshot(), Snapshot());
      }
    }

    method AddKnown(pkt: Packet, next: Addr, now: nat, ghost budget: nat) returns (request: Option<nat>)
      requires Inv() && Work() + NewWeight(next, max, Live()) <= budget && next in neigh
      modifies this, cache, cache.nodes
      ensures Inv() && Work() <= old(Work() + NewWeight(next, max, Live()))
      ensures Among(cache.nodes, old(cache.nodes))
      ensures next in old(Live()) ==> Advanced(old(Snapshot()), Snapshot())
      ensures AdvancedBut(old(Snapshot()), Snapshot(), next)
      ensures old(Armed(buf, timer, now)) ==> Armed(buf, timer, now)
      ensures Numbering(old(Snapshot()), Snapshot(), old(neigh)[next], pkt, next, now, request, holdoff, cap)
      ensures |old(buf)| >= cap || Undisturbed(old(buf), old(timer), now) ==>
                out == old(out) && buf == old(buf) + if |old(buf)| >= cap then []
                                                     else [Made(old(neigh)[next], pkt, next, now, |old(hist)|)]
      ensures old(Prompt(now)) ==> Prompt(now)
      decreases budget, 5
    {
      var m, full := Number(pkt, next, now);
      request := if m.ackReq then Some(m.id) else None;
      if full {
        AdvancedSame(old(Snapshot()), Snapshot());
      } else {
        AddedWork(old(buf), m, max, Live());
        AppendedSteady(old(buf), timer, m, now);
        AppendedDue(old(buf), m, now);
        Await(m, now, budget, old(Snapshot()));
      }
    }

    /** A packet just buffered waits for its acknowledgement. */
    method Await(m: Entry, now: nat, ghost budget: nat, ghost s: Snap)
      requires Inv() && Work() <= budget && m.no == |s.hist|
      requires Snapshot() == s.(buf := s.buf + [m], hist := s.hist + [Sent(m.next, m.ackReq)])
      modifies this, cache, cache.nodes
      ensures Inv() && Work() <= old(Work())
      ensures Among(cache.nodes, old(cache.nodes))
      ensures m.next in s.live ==> Advanced(s, Snapshot())
      ensures AdvancedBut(s, Snapshot(), m.next)
      ensures Armed(buf, timer, now)
      ensures |hist| > |s.hist| && hist[|s.hist|] == Sent(m.next, m.ackReq)
      ensures Buffers(buf, m.no, m.pkt, m.next) || Disposed(s.out, out, m.no)
      ensures Undisturbed(old(buf), old(timer), now) ==> buf == old(buf) && out == old(out)
      ensures old(Prompt(now)) ==> Prompt(now)
      decreases budget, 4
    {
      ghost var t, k := Snapshot(), |buf| - 1;
      assert buf[k] == m;
      SetTimeout(now, budget);
      assert Accounted(t, Snapshot(), t.buf[k]);
      ResolvedDisposed(t, Snapshot(), m);
      AdvancedAppend(s, m, Sent(m.next, m.ackReq));
      AdvancedButTwice(s, t, Snapshot(), m.next);
      if m.next in s.live {
        AdvancedTwice(s, t, Snapshot());
      }
    }

    /** Makes the entry, counts its request, and buffers it if there is room. */
    method Number(pkt: Packet, next: Addr, now: nat) returns (m: Entry, full: bool)
      requires Inv() && next in neigh
      modifies this`buf, this`neigh, this`hist
      ensures Inv() && full == (|old(buf)| >= cap) && buf == if full then old(buf) else old(buf) + [m]
      ensures m == Made(old(neigh)[next], pkt, next, now, |old(hist)|)
      ensures hist == old(hist) + [Sent(next, m.ackReq)]
      ensures var info := old(neigh)[next];
        neigh == old(neigh)[next := if m.ackReq then info.(lastReq := now, id := (info.id + 1) % U16) else info]
      ensures Rtts() == old(Rtts())
    {
      var info := neigh[next];
      var rto := if fixedRto == 0 then info.estimate.rxtcur * 1000 / 2 else fixedRto;
      m := Entry(next, 0, info.id, now, rto, now - info.lastReq > holdoff, pkt, |hist|);
      if m.ackReq {
        info := info.(lastReq := now, id := (info.id + 1) % U16);
      }
      PacketAdded(buf, neigh, hist, cap, max, m, info);
      EstimateSet(neigh, next, info);
      full := |buf| >= cap;
      neigh := neigh[next := info];
      hist := hist + [Sent(next, m.ackReq)];
      if !full {
        buf := buf + [m];
      }
    }

    // ---------------------------------------------------------- what the rest of the program calls

    /** maint_buf_timeout, called by the timer */
    method Fire(now: nat)
      requires Inv() && timer.Some? && timer.value <= now
      modifies this, cache, cache.nodes
      ensures Inv() && Armed(buf, timer, now)
      ensures Advanced(old(Snapshot()), Snapshot())
      ensures old(buf) != [] && Exhausted(old(buf)[0], max) ==>
        old(buf)[0].next !in Live() && NoneFor(buf, old(buf)[0].next)
      ensures old(buf) != [] ==> FirstOutput(old(buf)[0], max, old(out), out)
      ensures DueFirst(old(buf), now) ==> OnTime(buf, timer, now)
    {
      timer := None;
      Timeout(now, Work());
      SteadyOnTime(buf, timer, now);
    }

    /** A packet that asks for an acknowledgement is sent as `x` says. */
    method Transmit(x: Output, now: nat) returns (request: Option<nat>)
      requires Inv() && Armed(buf, timer, now) && x.Xmit? && x.salvaged.None?
      modifies this, cache, cache.nodes
      ensures Inv() && Armed(buf, timer, now)
      ensures x.next in old(Live()) ==> Advanced(old(Snapshot()), Snapshot())
      ensures AdvancedBut(old(Snapshot()), Snapshot(), x.next)
      ensures Appended(old(out), out, Some(x))
      ensures old(Prompt(now)) ==> OnTime(buf, timer, now)
      ensures x.next in old(neigh) ==>
        Numbering(old(Snapshot()), Snapshot(), old(neigh)[x.next], x.pkt, x.next, now, request, holdoff, cap)
    {
      request := Add(x.pkt, x.next, now, Work() + NewWeight(x.next, max, Live()));
      SteadyOnTime(buf, timer, now);
      ghost var t := Snapshot();
      ConcludeSent(x, old(Snapshot()));
      if x.next in old(neigh) {
        NumberingKept(old(Snapshot()), t, x, old(neigh)[x.next], now, request, holdoff, cap);
      }
    }

    /** The same for a transmission to a neighbour perhaps not alive. */
    method ConcludeSent(x: Output, ghost s: Snap)
      requires Inv() && x.Xmit? && AdvancedBut(s, Snapshot(), x.next)
      modifies this`out
      ensures Inv() && Snapshot() == old(Snapshot()).(out := old(out) + [x])
      ensures AdvancedBut(s, Snapshot(), x.next) && Appended(s.out, out, Some(x))
      ensures Advanced(s, old(Snapshot())) ==> Advanced(s, Snapshot())
      ensures buf == old(buf) && timer == old(timer)
    {
      ThenSent(s, Snapshot(), x);
      out := out + [x];
    }

    /** maint_buf_del_all_id: an acknowledgement of request `id` arrives from `n`; `c` is the
        packet that carried the request.  Whatever happens besides, no packet for `n` up to the
        carrier is left. */
    method Acknowledge(n: Addr, id: nat, now: nat, ghost c: nat)
      requires Inv()
      modifies this, cache, cache.nodes
      ensures Inv() && Armed(buf, timer, now)
      ensures Advanced(old(Snapshot()).(buf := Unacked(old(buf), n, id), rtts := Rtts()), Snapshot())
      ensures Measured(old(Rtts()), Rtts(), n, word, Sample(old(buf), n, id, now))
      ensures c < |old(hist)| && old(hist)[c] == Sent(n, true) && id == Id(old(hist), c) && IdsOrdered(old(hist), n) ==>
        NoneUpTo(buf, n, c)
      ensures DueFirst(old(buf), now) ==> OnTime(buf, timer, now)
    {
      timer := None;
      ghost var b := buf;
      FilteredSteady(e => !Acked(e, n, id), b, now);
      var _ := Delete(n, id, now, c);
      ghost var s := Snapshot();
      SetTimeout(now, Work());
      if c < |s.hist| && s.hist[c] == Sent(n, true) && id == Id(s.hist, c) && IdsOrdered(s.hist, n) {
        UpToGone(b, n, c);
        NoneUpToKept(s, Snapshot(), n, c);
      }
    }

    /** The deletion itself: exactly the packets for `n` up to the carrier go, and the time
        taken is the carrier's, provided it was sent once only. */
    method Delete(n: Addr, id: nat, now: nat, ghost c: nat) returns (count: nat)
      requires Inv()
      modifies this`buf, this`neigh
      ensures Inv() && count == |old(buf)| - |buf|
      ensures buf == Unacked(old(buf), n, id)
      ensures c < |hist| && hist[c] == Sent(n, true) && id == Id(hist, c) && IdsOrdered(hist, n) ==>
        buf == Filter((e: Entry) => !(e.next == n && e.no <= c), old(buf))
      ensures n !in old(neigh) || Sample(old(buf), n, id, now) <= 0 ==> neigh == old(neigh)
      ensures n in old(neigh) && Sample(old(buf), n, id, now) > 0 ==>
                Sampling(old(neigh), neigh, n, word, Sample(old(buf), n, id, now))
      ensures Measured(old(Rtts()), Rtts(), n, word, Sample(old(buf), n, id, now))
    {
      var rtt;
      ghost var b := buf;
      FilterGood(e => !Acked(e, n, id), buf, neigh, hist, cap, max);
      buf, rtt, count := DeleteAcked(buf, n, id, now);
      if c < |hist| && hist[c] == Sent(n, true) && id == Id(hist, c) && IdsOrdered(hist, n) {
        CumulativeAck(b, hist, n, c);
      }
      if rtt > 0 && n in neigh {
        SetRto(n, rtt);
        SamplingMeasured(old(neigh), neigh, n, word, rtt);
      }
    }

    /** neigh_tbl_set_rto */
    method SetRto(n: Addr, rtt: nat)
      requires Inv() && n in neigh
      modifies this`neigh
      ensures Inv() && Sampling(old(neigh), neigh, n, word, rtt)
    {
      var estimate := Rtt.RtoCalc(word, neigh[n].estimate, rtt);
      ghost var was := neigh;
      neigh := neigh[n := neigh[n].(estimate := estimate)];
      forall x ensures NumberOk(neigh, hist, x) {
        assert NumberOk(was, hist, x);
      }
    }

    /** neigh_tbl_add; a neighbour for whom the table has no room is forgotten */
    method Meet(n: Addr)
      requires Inv()
      modifies this`neigh
      ensures Inv() && (n in neigh <==> n in old(neigh) || |old(neigh)| < NEIGH_TBL_MAX_LEN)
      ensures neigh == if n in old(neigh) || n !in neigh then old(neigh)
                       else old(neigh)[n := Neighbor(1, 0, Rtt.Estimate(0, 240, 120))]
    {
      if n !in neigh && |neigh| < NEIGH_TBL_MAX_LEN {
        ghost var was := neigh;
        neigh := neigh[n := Neighbor(1, 0, Rtt.CREATED)];
        forall x ensures NumberOk(neigh, hist, x) {
          assert NumberOk(was, hist, x);
        }
      }
    }

    /** A route error about the link from `a` to `b` on the way to `errDst`: the packets
        waiting for `errDst` are dropped, and the link is forgotten.  As any link may go, it takes
        that no path is long for the answers to fit afterwards. */
    method RouteError(errDst: Addr, a: Addr, b: Addr, now: nat) returns (ghost g: Graph)
      requires Inv() && Short(cache.Graph(), me)
      modifies this, cache, cache.nodes
      ensures Inv() && Armed(buf, timer, now) && Short(cache.Graph(), me)
      ensures Grown(old(Snapshot()).(buf := NotFor(old(buf), errDst)), Snapshot())
      ensures LostSome(old(cache.Graph()), g, me) && cache.Graph() == DeleteLink(g, a, b) && Rtts() == old(Rtts())
      ensures NewFor(buf, errDst, |old(hist)|)
      ensures DueFirst(old(buf), now) ==> OnTime(buf, timer, now)
    {
      DropShort(errDst, now);
      g := cache.Graph();
      ghost var s := Snapshot();
      Forget(a, b);
      GrownForgets(old(Snapshot()).(buf := NotFor(old(buf), errDst)), s, a, b);
    }

    method DropShort(n: Addr, now: nat)
      requires Inv() && Short(cache.Graph(), me)
      modifies this, cache, cache.nodes
      ensures Inv() && Armed(buf, timer, now) && Short(cache.Graph(), me)
      ensures Among(cache.nodes, old(cache.nodes))
      ensures Grown(old(Snapshot()).(buf := NotFor(old(buf), n)), Snapshot()) && NewFor(buf, n, |old(hist)|)
      ensures LostSome(old(cache.Graph()), cache.Graph(), me) && Rtts() == old(Rtts())
      ensures DueFirst(old(buf), now) ==> OnTime(buf, timer, now)
    {
      DropWaiting(n, now);
      ShortAfterLoss(old(cache.Graph()), cache.Graph(), me);
    }

    /** maint_buf_del_all */
    method DropWaiting(n: Addr, now: nat)
      requires Inv()
      modifies this, cache, cache.nodes
      ensures Inv() && Armed(buf, timer, now)
      ensures Among(cache.nodes, old(cache.nodes))
      ensures Advanced(old(Snapshot()).(buf := NotFor(old(buf), n)), Snapshot())
      ensures n !in Live() ==> NoneFor(buf, n)
      ensures NewFor(buf, n, |old(hist)|)
      ensures DueFirst(old(buf), now) ==> OnTime(buf, timer, now)
    {
      timer := None;
      FilteredSteady((e: Entry) => e.next != n, buf, now);
      DeleteAll(n);
      ghost var s := Snapshot();
      SetTimeout(now, Work());
      assert PurgedOf(s, Snapshot(), n);
      NewForDropped(s, Snapshot(), n);
    }

    method Forget(a: Addr, b: Addr)
      requires Inv() && Short(cache.Graph(), me)
      modifies cache, cache.nodes
      ensures Inv() && Short(cache.Graph(), me)
      ensures Snapshot() == old(Snapshot()).(graph := DeleteLink(old(cache.Graph()), a, b), live := Live())
      ensures Among(cache.nodes, old(cache.nodes))
    {
      ShortAfterDelete(cache.Graph(), me, a, b);
      var _ := cache.LinkDel(a, b);
    }

    method DeleteAll(n: Addr)
      requires Inv()
      modifies this`buf
      ensures Inv() && buf == NotFor(old(buf), n) && NoneFor(buf, n)
    {
      NotForGood(buf, n, neigh, hist, cap, max);
      buf := DeleteFor(buf, n);
    }
  }

  /** A buffer with room for one packet takes one without a request at time 0 and refuses the
      next, which carries one, at time 90: an acknowledgement at time 100 is taken to have
      needed 100. */
  method SampleOfAnother(me: Addr, n: Addr, pkt: Packet, cache: Cache) returns (b: Buffer)
    requires cache.Valid() && Fits(cache.Graph(), me)
    ensures b.Inv() && b.hist == [Sent(n, false), Sent(n, true)] && !Buffered(b.buf, 1)
    ensures Sample(b.buf, n, Id(b.hist, 1), 100) == 100
  {
    b := new Buffer(me, 1, 3, 0, 0, Rtt.W64, cache);
    b.Meet(n);
    var first, _ := b.Number(pkt, n, 0);
    assert b.buf == [first] && b.hist == [Sent(n, false)];
    NumberCarrier(b, n, pkt);
  }

  method NumberCarrier(b: Buffer, n: Addr, pkt: Packet)
    requires b.Inv() && b.cap == 1 && b.holdoff == 0 && n in b.neigh && b.neigh[n].lastReq == 0
    requires b.hist == [Sent(n, false)]
    requires |b.buf| == 1 && b.buf[0].no == 0 && b.buf[0].rexmt == 0 && b.buf[0].tx == 0
    modifies b
    ensures b.Inv() && b.hist == [Sent(n, false), Sent(n, true)] && !Buffered(b.buf, 1)
    ensures Sample(b.buf, n, Id(b.hist, 1), 100) == 100
  {
    var e := b.buf[0];
    var carrier, _ := b.Number(pkt, n, 90);
    assert b.hist == [Sent(n, false), Sent(n, true)];
    assert b.buf == [e] && EntryOk(b.buf[0], b.hist);
    FirstSampled(e, b.hist, n);
  }

  lemma FirstSampled(e: Entry, h: seq<Sent>, n: Addr)
    requires h == [Sent(n, false), Sent(n, true)] && EntryOk(e, h) && e.no == 0 && e.rexmt == 0 && e.tx == 0
    ensures Sample([e], n, Id(h, 1), 100) == 100
  {
    assert h[..0] == [] && h[..1] == [] + [Sent(n, false)];
    CounterSnoc([], Sent(n, false), n);
  }
}
