/** The send buffer (send-buf.c) and the entry point for outgoing packets (dsr-io.c):
    packets wait here while a route is looked for. */
module SendBuf {
  import opened Routes

  /** A packet, its place among all packets given to the node, and the time it was given. */
  datatype Packet = Packet(no: nat, dst: Addr, since: nat)

  datatype Verdict = Send | Discard

  /** Which packets an operation is about: those not for `dst`; those a verdict for `dst` sends,
      when the ones numbered in `routed` get a route, or frees; those that have waited too
      long or not. */
  datatype Criterion =
    | Others(dst: Addr)
    | Goes(verdict: Verdict, dst: Addr, routed: set<nat>)
    | Drops(verdict: Verdict, dst: Addr, routed: set<nat>)
    | Young(now: nat, timeout: nat)
    | Stale(now: nat, timeout: nat)
  {
    predicate Holds(e: Packet) {
      match this
      case Others(dst) => e.dst != dst
      case Goes(verdict, dst, routed) => e.dst == dst && verdict == Send && e.no in routed
      case Drops(verdict, dst, routed) => e.dst == dst && !(verdict == Send && e.no in routed)
      case Young(now, timeout) => now - e.since < timeout
      case Stale(now, timeout) => now - e.since >= timeout
    }
  }

  function Filter(c: Criterion, q: seq<Packet>): (r: seq<Packet>) {
    if q == [] then []
    else Filter(c, q[..|q| - 1]) + if c.Holds(q[|q| - 1]) then [q[|q| - 1]] else []
  }

  /** A packet is as often in the three places together as it was given. */
  ghost predicate Balanced(given: seq<Packet>, sent: seq<Packet>, freed: seq<Packet>, q: seq<Packet>, p: Packet) {
    multiset(given)[p] == multiset(sent)[p] + multiset(freed)[p] + multiset(q)[p]
  }

  /** All packets given so far are in exactly one place. */
  ghost predicate Conserved(given: seq<Packet>, sent: seq<Packet>, freed: seq<Packet>, q: seq<Packet>) {
    forall p {:trigger Balanced(given, sent, freed, q, p)} :: Balanced(given, sent, freed, q, p)
  }

  /** Packets are numbered as they are given. */
  ghost predicate Numbered(given: seq<Packet>) {
    forall i :: 0 <= i < |given| ==> given[i].no == i
  }

  lemma NumberedOnce(given: seq<Packet>, sent: seq<Packet>, freed: seq<Packet>, q: seq<Packet>, p: Packet)
    requires Numbered(given) && Conserved(given, sent, freed, q) && p in given
    ensures multiset(sent)[p] + multiset(freed)[p] + multiset(q)[p] == 1
  {
    OnceIn(given, p);
    assert Balanced(given, sent, freed, q, p);
  }

  lemma {:induction false} OnceIn(given: seq<Packet>, p: Packet)
    requires Numbered(given)
    ensures multiset(given)[p] == if p in given then 1 else 0
  {
    if p in given {
      var i := p.no;
      assert given[i] == p;
      assert given == given[..i] + [p] + given[i + 1..];
      assert p !in given[..i] && p !in given[i + 1..];
      assert multiset(given[..i])[p] == 0 && multiset(given[i + 1..])[p] == 0;
    }
  }

  ghost predicate Before(x: Packet, y: Packet) {
    x.no < y.no && x.since <= y.since
  }

  /** Packets wait in the order they came. */
  ghost predicate Arrived(q: seq<Packet>, count: nat, now: nat) {
    && (forall i {:trigger q[i]} :: 0 <= i < |q| ==> q[i].no < count && q[i].since <= now)
    && (forall i, j {:trigger Before(q[i], q[j])} :: 0 <= i < j < |q| ==> Before(q[i], q[j]))
  }

  /** A timer is set, no later than the expiry of the oldest packet. */
  ghost predicate TimerOk(q: seq<Packet>, timer: Option<nat>, timeout: nat) {
    |q| > 0 ==> timer.Some? && timer.value <= q[0].since + timeout
  }

  // ------------------------------------------------------------ filters

  lemma {:induction false} FilterSplit(q: seq<Packet>, now: nat, timeout: nat)
    ensures multiset(q) == multiset(Filter(Young(now, timeout), q)) + multiset(Filter(Stale(now, timeout), q))
  {
    if q != [] {
      var init, last := q[..|q| - 1], q[|q| - 1];
      FilterSplit(init, now, timeout);
      assert q == init + [last];
      var young, stale := Filter(Young(now, timeout), init), Filter(Stale(now, timeout), init);
      assert multiset(q) == multiset(young) + multiset(stale) + multiset{last};
      if now - last.since < timeout {
        assert Filter(Young(now, timeout), q) == young + [last] && Filter(Stale(now, timeout), q) == stale + [];
      } else {
        assert Filter(Young(now, timeout), q) == young + [] && Filter(Stale(now, timeout), q) == stale + [last];
      }
    }
  }

  lemma {:induction false} FilterMembers(c: Criterion, q: seq<Packet>)
    ensures forall e :: e in Filter(c, q) <==> e in q && c.Holds(e)
  {
    if q != [] {
      assert q == q[..|q| - 1] + [q[|q| - 1]];
      FilterMembers(c, q[..|q| - 1]);
    }
  }

  lemma {:induction false} FilterArrived(c: Criterion, q: seq<Packet>, count: nat, now: nat)
    requires Arrived(q, count, now)
    ensures Arrived(Filter(c, q), count, now) && |Filter(c, q)| <= |q|
  {
    if q != [] {
      var init, last := q[..|q| - 1], q[|q| - 1];
      assert Arrived(init, count, now) by {
        forall i, j | 0 <= i < j < |init| ensures Before(init[i], init[j]) { assert Before(q[i], q[j]); }
      }
      FilterArrived(c, init, count, now);
      FilterMembers(c, init);
      var f, r := Filter(c, init), Filter(c, q);
      forall i, j | 0 <= i < j < |r| ensures Before(r[i], r[j]) {
        if j < |f| {
          assert Before(f[i], f[j]);
        } else {
          assert f[i] in init;
          var k :| 0 <= k < |init| && init[k] == f[i];
          assert Before(q[k], q[|q| - 1]);
        }
      }
    }
  }

  lemma {:induction false} FilterAppend(c: Criterion, a: seq<Packet>, b: seq<Packet>)
    ensures Filter(c, a + b) == Filter(c, a) + Filter(c, b)
  {
    if b == [] {
      assert a + b == a;
    } else {
      var init, last := b[..|b| - 1], b[|b| - 1];
      FilterAppend(c, a, init);
      assert (a + b)[..|a + b| - 1] == a + init;
    }
  }

  lemma {:induction false} FilterAll(c: Criterion, q: seq<Packet>)
    ensures (forall i :: 0 <= i < |q| ==> c.Holds(q[i])) ==> Filter(c, q) == q
    ensures (forall i :: 0 <= i < |q| ==> !c.Holds(q[i])) ==> Filter(c, q) == []
  {
    if q != [] {
      var init, last := q[..|q| - 1], q[|q| - 1];
      assert q == init + [last];
      FilterAll(c, init);
    }
  }

  function Without(q: seq<Packet>, k: nat): seq<Packet>
    requires k < |q|
  {
    q[..k] + q[k + 1..]
  }

  lemma FilterParts(c: Criterion, a: seq<Packet>, x: Packet, b: seq<Packet>)
    ensures Filter(c, a + [x] + b) == Filter(c, a) + (if c.Holds(x) then [x] else []) + Filter(c, b)
    ensures Filter(c, a + b) == Filter(c, a) + Filter(c, b)
  {
    FilterAppend(c, a + [x], b);
    assert (a + [x])[..|a|] == a;
    FilterAppend(c, a, b);
  }

  /** Taking out an entry that a filter leaves out. */
  lemma FilterWithout(c: Criterion, q: seq<Packet>, k: nat)
    requires k < |q| && !c.Holds(q[k])
    ensures Filter(c, Without(q, k)) == Filter(c, q)
  {
    FilterParts(c, q[..k], q[k], q[k + 1..]);
    assert q == q[..k] + [q[k]] + q[k + 1..];
  }

  /** Taking out the first packet a filter lets through. */
  lemma FirstTaken(c: Criterion, q: seq<Packet>, k: nat)
    requires k < |q| && c.Holds(q[k]) && forall i :: 0 <= i < k ==> !c.Holds(q[i])
    ensures Filter(c, q) == [q[k]] + Filter(c, Without(q, k))
  {
    FirstLet(c, q[..k], q[k], q[k + 1..]);
    assert q == q[..k] + [q[k]] + q[k + 1..];
  }

  /** Moving it to the list `done`. */
  lemma MovedFirst(c: Criterion, q: seq<Packet>, k: nat, done: seq<Packet>)
    requires k < |q| && c.Holds(q[k]) && forall i :: 0 <= i < k ==> !c.Holds(q[i])
    ensures done + [q[k]] + Filter(c, Without(q, k)) == done + Filter(c, q)
  {
    FirstTaken(c, q, k);
    Joined(done, [q[k]], Filter(c, Without(q, k)));
  }

  lemma FirstLet(c: Criterion, a: seq<Packet>, x: Packet, b: seq<Packet>)
    requires c.Holds(x) && forall i :: 0 <= i < |a| ==> !c.Holds(a[i])
    ensures Filter(c, a + [x] + b) == [x] + Filter(c, b) && Filter(c, a + b) == Filter(c, b)
  {
    FilterParts(c, a, x, b);
    FilterNone(c, a);
    NilLeft([x], Filter(c, b));
  }

  lemma {:induction false} FilterNone(c: Criterion, q: seq<Packet>)
    requires forall i :: 0 <= i < |q| ==> !c.Holds(q[i])
    ensures Filter(c, q) == []
  {
    if q != [] {
      FilterNone(c, q[..|q| - 1]);
    }
  }

  lemma NilLeft(a: seq<Packet>, b: seq<Packet>)
    ensures [] + a + b == a + b && [] + b == b
  {
  }

  lemma Joined(a: seq<Packet>, b: seq<Packet>, c: seq<Packet>)
    ensures a + (b + c) == a + b + c
  {
  }

  // ------------------------------------------------------------ effects on the contents

  lemma DetachedOk(q: seq<Packet>, given: seq<Packet>, sent: seq<Packet>, freed: seq<Packet>, now: nat, k: nat)
    requires k < |q| && Conserved(given, sent, freed, q) && Arrived(q, |given|, now)
    ensures var r := Without(q, k);
      && Conserved(given, sent + [q[k]], freed, r)
      && Conserved(given, sent, freed + [q[k]], r)
      && Arrived(r, |given|, now)
      && (|r| > 0 ==> r[0].since >= q[0].since)
  {
    var r := Without(q, k);
    assert q == q[..k] + [q[k]] + q[k + 1..];
    forall p ensures Balanced(given, sent + [q[k]], freed, r, p) && Balanced(given, sent, freed + [q[k]], r, p) {
      assert Balanced(given, sent, freed, q, p);
    }
    forall i | 0 <= i < |r| ensures r[i].no < |given| && r[i].since <= now {
      assert r[i] == q[if i < k then i else i + 1];
    }
    forall i, j | 0 <= i < j < |r| ensures Before(r[i], r[j]) {
      assert Before(q[if i < k then i else i + 1], q[if j < k then j else j + 1]);
    }
    if |r| > 0 && k == 0 {
      assert Before(q[0], q[1]);
    }
  }

  lemma AppendedOk(q: seq<Packet>, given: seq<Packet>, sent: seq<Packet>, freed: seq<Packet>,
                   last: nat, now: nat, p: Packet)
    requires Conserved(given, sent, freed, q) && Arrived(q, |given|, last) && last <= now
    requires p.no == |given| && p.since == now
    ensures Conserved(given + [p], sent, freed, q + [p]) && Arrived(q + [p], |given| + 1, now)
  {
    var r := q + [p];
    forall x ensures Balanced(given + [p], sent, freed, r, x) {
      assert Balanced(given, sent, freed, q, x);
    }
    forall i, j | 0 <= i < j < |r| ensures Before(r[i], r[j]) {
      if j < |q| { assert Before(q[i], q[j]); }
    }
  }

  lemma StraightOk(given: seq<Packet>, sent: seq<Packet>, freed: seq<Packet>, q: seq<Packet>, p: Packet)
    requires Conserved(given, sent, freed, q)
    ensures Conserved(given + [p], sent + [p], freed, q) && Conserved(given + [p], sent, freed + [p], q)
  {
    forall x ensures Balanced(given + [p], sent + [p], freed, q, x) && Balanced(given + [p], sent, freed + [p], q, x) {
      assert Balanced(given, sent, freed, q, x);
    }
  }

  lemma GarbageOk(q: seq<Packet>, given: seq<Packet>, sent: seq<Packet>, freed: seq<Packet>,
                  last: nat, now: nat, timeout: nat, kept: seq<Packet>, gone: seq<Packet>)
    requires Conserved(given, sent, freed, q) && Arrived(q, |given|, last) && last <= now
    requires kept == Filter(Young(now, timeout), q) && gone == Filter(Stale(now, timeout), q)
    ensures Conserved(given, sent, freed + gone, kept)
    ensures Arrived(kept, |given|, now) && |kept| <= |q|
  {
    FilterSplit(q, now, timeout);
    forall p ensures Balanced(given, sent, freed + gone, kept, p) {
      assert Balanced(given, sent, freed, q, p);
    }
    FilterArrived(Young(now, timeout), q, |given|, now);
  }

  /** tbl_for_each_del with crit_garbage */
  method Garbage(q: seq<Packet>, now: nat, timeout: nat) returns (kept: seq<Packet>, gone: seq<Packet>)
    ensures kept == Filter(Young(now, timeout), q)
    ensures gone == Filter(Stale(now, timeout), q)
  {
    kept, gone := [], [];
    for i := 0 to |q|
      invariant kept == Filter(Young(now, timeout), q[..i])
      invariant gone == Filter(Stale(now, timeout), q[..i])
    {
      assert q[..i + 1][..i] == q[..i];
      if now - q[i].since >= timeout {
        gone := gone + [q[i]];
      } else {
        kept := kept + [q[i]];
      }
    }
    assert q[..|q|] == q;
  }

  // ------------------------------------------------------------ the buffer

  class SendBuffer {
    const cap: nat
    /** SendBufferTimeout */
    const timeout: nat
    var queue: seq<Packet>
    var timer: Option<nat>
    var clock: nat
    /** Every packet given to the node, those sent, and those freed. */
    var given: seq<Packet>
    var sent: seq<Packet>
    var freed: seq<Packet>

    ghost predicate Stored()
      reads this
    {
      && |queue| <= cap && Numbered(given)
      && Conserved(given, sent, freed, queue)
      && Arrived(queue, |given|, clock)
    }

    ghost predicate Valid()
      reads this
    {
      Stored() && TimerOk(queue, timer, timeout)
    }

    constructor (cap: nat, timeout: nat)
      ensures Valid() && queue == [] && given == [] && sent == [] && freed == []
      ensures this.cap == cap && this.timeout == timeout
    {
      this.cap, this.timeout := cap, timeout;
      queue, timer, clock := [], None, 0;
      given, sent, freed := [], [], [];
    }

    /** A packet leaves the buffer, sent or freed. */
    method Detach(k: nat, send: bool)
      requires Valid() && k < |queue|
      modifies this`queue, this`sent, this`freed
      ensures Valid() && queue == Without(old(queue), k)
      ensures sent == if send then old(sent) + [old(queue)[k]] else old(sent)
      ensures freed == if send then old(freed) else old(freed) + [old(queue)[k]]
    {
      DetachedOk(queue, given, sent, freed, clock, k);
      if send {
        sent := sent + [queue[k]];
      } else {
        freed := freed + [queue[k]];
      }
      queue := queue[..k] + queue[k + 1..];
    }

    method Find(dst: Addr) returns (k: nat)
      ensures k <= |queue| && (k < |queue| ==> queue[k].dst == dst)
      ensures forall i :: 0 <= i < k ==> queue[i].dst != dst
    {
      k := 0;
      while k < |queue| && queue[k].dst != dst
        invariant k <= |queue| && forall i :: 0 <= i < k ==> queue[i].dst != dst
      {
        k := k + 1;
      }
    }

    /** send_buf_set_verdict: with `Send`, the packets numbered in `routed` get a route and leave. */
    method SetVerdict(verdict: Verdict, dst: Addr, routed: set<nat>)
      requires Valid()
      modifies this`queue, this`sent, this`freed
      ensures Valid()
      ensures queue == Filter(Others(dst), old(queue))
      ensures sent == old(sent) + Filter(Goes(verdict, dst, routed), old(queue))
      ensures freed == old(freed) + Filter(Drops(verdict, dst, routed), old(queue))
    {
      ghost var goes, drops := Goes(verdict, dst, routed), Drops(verdict, dst, routed);
      var k: nat := Find(dst);
      while k < |queue|
        invariant Valid() && k <= |queue|
        invariant k < |queue| ==> queue[k].dst == dst
        invariant forall j :: 0 <= j < k ==> queue[j].dst != dst
        invariant Filter(Others(dst), queue) == Filter(Others(dst), old(queue))
        invariant sent + Filter(goes, queue) == old(sent) + Filter(goes, old(queue))
        invariant freed + Filter(drops, queue) == old(freed) + Filter(drops, old(queue))
        decreases |queue|
      {
        FilterWithout(Others(dst), queue, k);
        var send := verdict == Send && queue[k].no in routed;
        if send {
          MovedFirst(goes, queue, k, sent);
          FilterWithout(drops, queue, k);
        } else {
          FilterWithout(goes, queue, k);
          MovedFirst(drops, queue, k, freed);
        }
        Detach(k, send);
        k := Find(dst);
      }
      FilterAll(Others(dst), queue);
      FilterAll(goes, queue);
      FilterAll(drops, queue);
    }

    /** send_buf_timeout */
    method Timeout(now: nat)
      requires Valid() && clock <= now
      modifies this`queue, this`timer, this`clock, this`freed
      ensures Valid() && clock == now
      ensures queue == Filter(Young(now, timeout), old(queue))
      ensures freed == old(freed) + Filter(Stale(now, timeout), old(queue))
      ensures timer == if |queue| == 0 then None else Some(queue[0].since + timeout)
    {
      Collect(now);
      timer := None;
      if |queue| > 0 {
        timer := Some(queue[0].since + timeout);
      }
    }

    /** Frees the packets that have waited too long. */
    method Collect(now: nat)
      requires Stored() && clock <= now
      modifies this`queue, this`clock, this`freed
      ensures Stored() && clock == now
      ensures queue == Filter(Young(now, timeout), old(queue))
      ensures freed == old(freed) + Filter(Stale(now, timeout), old(queue))
    {
      var kept, gone := Garbage(queue, now, timeout);
      GarbageOk(queue, given, sent, freed, clock, now, timeout, kept, gone);
      queue, freed, clock := kept, freed + gone, now;
    }

    /** send_buf_enqueue_packet; false when there is no room at all */
    method Enqueue(p: Packet) returns (ok: bool)
      requires Valid() && p.no == |given| && p.since >= clock
      modifies this`queue, this`timer, this`clock, this`freed, this`given, this`sent
      ensures Valid() && given == old(given) + [p] && clock == p.since && sent == old(sent)
      ensures ok <==> cap > 0
      ensures queue == if cap == 0 then [] else (if |old(queue)| >= cap then old(queue)[1..] else old(queue)) + [p]
      ensures freed == if cap == 0 then old(freed) + [p]
                       else if |old(queue)| >= cap then old(freed) + [old(queue)[0]] else old(freed)
      ensures timer == if cap > 0 && old(queue) == [] then Some(p.since + timeout) else old(timer)
    {
      var empty := |queue| == 0;
      if |queue| >= cap && |queue| > 0 {
        Detach(0, false);
      }
      ok := |queue| < cap;
      if ok {
        Append(p, empty);
      } else {
        Refuse(p);
      }
    }

    method Append(p: Packet, empty: bool)
      requires Valid() && p.no == |given| && p.since >= clock && |queue| < cap
      requires if |queue| > 0 then !empty else empty || (timer.Some? && timer.value <= p.since + timeout)
      modifies this`queue, this`timer, this`clock, this`given
      ensures Valid() && given == old(given) + [p] && clock == p.since && queue == old(queue) + [p]
      ensures timer == if empty then Some(p.since + timeout) else old(timer)
    {
      AppendedOk(queue, given, sent, freed, clock, p.since, p);
      queue, given, clock := queue + [p], given + [p], p.since;
      if empty {
        timer := Some(p.since + timeout);
      }
    }

    /** A packet that finds no room is freed by the caller. */
    method Refuse(p: Packet)
      requires Valid() && p.no == |given| && p.since >= clock
      modifies this`clock, this`freed, this`given
      ensures Valid() && given == old(given) + [p] && freed == old(freed) + [p] && clock == p.since
    {
      StraightOk(given, sent, freed, queue, p);
      given, freed, clock := given + [p], freed + [p], p.since;
    }

    /** dsr_start_xmit: `found` and `added` say whether there is a route and whether it could be
        put into the packet; true when a discovery has to start. */
    method StartXmit(dst: Addr, now: nat, found: bool, added: bool) returns (discover: bool)
      requires Valid() && clock <= now
      modifies this
      ensures Valid() && given == old(given) + [Packet(|old(given)|, dst, now)]
      ensures clock == now && (discover <==> !found && cap > 0)
      ensures var p := Packet(|old(given)|, dst, now);
        && sent == (if found && added then old(sent) + [p] else old(sent))
        && queue == (if !discover then old(queue)
                     else if |old(queue)| >= cap then old(queue)[1..] + [p] else old(queue) + [p])
        && timer == (if discover && old(queue) == [] then Some(now + timeout) else old(timer))
        && freed == old(freed) + if discover then (if |old(queue)| >= cap then [old(queue)[0]] else [])
                                 else if found && added then [] else [p]
    {
      var p := Packet(|given|, dst, now);
      if found {
        if added {
          StraightOk(given, sent, freed, queue, p);
          given, sent, clock := given + [p], sent + [p], now;
        } else {
          Refuse(p);
        }
        return false;
      }
      discover := Enqueue(p);
    }

    /** send_buf_flush */
    method Flush()
      requires Valid()
      modifies this`queue, this`freed, this`sent
      ensures Valid() && queue == [] && freed == old(freed) + old(queue) && sent == old(sent)
    {
      while |queue| > 0
        invariant Valid() && freed + queue == old(freed) + old(queue) && sent == old(sent)
        decreases |queue|
      {
        Detach(0, false);
      }
    }
  }
}
