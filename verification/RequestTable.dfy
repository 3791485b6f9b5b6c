/** The route request table (dsr-rreq.c): which requests were seen, and which route
    discoveries are under way. */
module RequestTable {
  import opened Routes
  import opened Recency

  const TTL_START: nat := 1
  const MAXTTL: nat := 255

  datatype Entry = Entry(addr: Addr, inDisc: bool, ttl: nat, timeout: nat, rexmts: nat,
                         lastUsed: nat, ids: seq<(Addr, nat)>)

  /** What leaves the table: a discovery starts, a request is sent. */
  datatype Action =
    | Start(target: Addr)
    | Send(target: Addr, ttl: nat, at: nat)

  function Addresses(es: seq<Entry>): (s: seq<Addr>)
    ensures |s| == |es| && forall i :: 0 <= i < |es| ==> s[i] == es[i].addr
  {
    seq(|es|, i requires 0 <= i < |es| => es[i].addr)
  }

  // ------------------------------------------------------------ back-off

  function Min(a: nat, b: nat): nat { if a <= b then a else b }

  function Pow2(k: nat): nat { if k == 0 then 1 else 2 * Pow2(k - 1) }

  /** Time to live of the request sent after `k` expiries. */
  function Ttl(k: nat): nat { if k == 0 then TTL_START else Min(2 * Ttl(k - 1), MAXTTL) }

  /** Time to wait after it. */
  function Backoff(nonprop: nat, maxPeriod: nat, k: nat): nat {
    if k == 0 then nonprop else Min(2 * Backoff(nonprop, maxPeriod, k - 1), maxPeriod)
  }

  lemma {:induction false} TtlDoubles(k: nat)
    ensures Ttl(k) == Min(Pow2(k), MAXTTL)
  {
    if k > 0 { TtlDoubles(k - 1); }
  }

  lemma {:induction false} BackoffAfterFirst(nonprop: nat, maxPeriod: nat, k: nat)
    ensures k > 0 || nonprop <= maxPeriod ==> Backoff(nonprop, maxPeriod, k) == Min(nonprop * Pow2(k), maxPeriod)
  {
    if k > 0 {
      BackoffAfterFirst(nonprop, maxPeriod, k - 1);
      DoubleProduct(nonprop, k);
    }
  }

  lemma DoubleProduct(m: nat, k: nat)
    requires k > 0
    ensures m * Pow2(k) == 2 * (m * Pow2(k - 1)) && m * Pow2(0) == m
  {
    var p := Pow2(k - 1);
    assert m * (2 * p) == 2 * (m * p);
  }

  /** The capped doubling holds from the first request on exactly when the first waiting
      time is within the cap. */
  lemma BackoffDoubles(nonprop: nat, maxPeriod: nat)
    ensures (forall k :: Backoff(nonprop, maxPeriod, k) == Min(nonprop * Pow2(k), maxPeriod)) <==> nonprop <= maxPeriod
  {
    if nonprop <= maxPeriod {
      forall k ensures Backoff(nonprop, maxPeriod, k) == Min(nonprop * Pow2(k), maxPeriod) {
        BackoffAfterFirst(nonprop, maxPeriod, k);
      }
    } else {
      assert nonprop * Pow2(0) == nonprop;
      assert Backoff(nonprop, maxPeriod, 0) != Min(nonprop * Pow2(0), maxPeriod);
    }
  }

  // ------------------------------------------------------------ one discovery

  /** The requests sent for `a` since its last discovery started. */
  function Sends(log: seq<Action>, a: Addr): (s: seq<(nat, nat)>) {
    if log == [] then []
    else
      var init, last := log[..|log| - 1], log[|log| - 1];
      Extended(Sends(init, a), last, a)
  }

  function Extended(s: seq<(nat, nat)>, x: Action, a: Addr): seq<(nat, nat)> {
    if x.target != a then s else if x.Start? then [] else s + [(x.ttl, x.at)]
  }

  lemma SendsSnoc(log: seq<Action>, x: Action, a: Addr)
    ensures Sends(log + [x], a) == Extended(Sends(log, a), x, a)
  {
    assert (log + [x])[..|log|] == log;
  }

  /** An expanding ring search: the time to live doubles up to its limit, and each request
      waited for its predecessor's time-out. */
  ghost predicate Ring(s: seq<(nat, nat)>, nonprop: nat, maxPeriod: nat) {
    forall i :: 0 <= i < |s| ==> RingAt(s, nonprop, maxPeriod, i)
  }

  ghost predicate RingAt(s: seq<(nat, nat)>, nonprop: nat, maxPeriod: nat, i: nat)
    requires i < |s|
  {
    && s[i].0 == Ttl(i)
    && (i > 0 ==> s[i].1 >= s[i - 1].1 + Backoff(nonprop, maxPeriod, i - 1))
  }

  lemma RingSnoc(s: seq<(nat, nat)>, at: nat, nonprop: nat, maxPeriod: nat)
    requires Ring(s, nonprop, maxPeriod)
    requires |s| > 0 ==> at >= s[|s| - 1].1 + Backoff(nonprop, maxPeriod, |s| - 1)
    ensures Ring(s + [(Ttl(|s|), at)], nonprop, maxPeriod)
  {
    var t := s + [(Ttl(|s|), at)];
    forall i | 0 <= i < |t| ensures RingAt(t, nonprop, maxPeriod, i) {
      if i < |s| { assert RingAt(s, nonprop, maxPeriod, i); }
    }
  }

  // ------------------------------------------------------------ the invariant

  datatype Config = Config(cap: nat, maxIds: nat, maxRexmt: nat, nonprop: nat, maxPeriod: nat)

  /** An entry remembers the last requests of its history. */
  ghost predicate IdsOk(c: Config, e: Entry, h: seq<Event>) {
    e.ids == LastN(Since(h, c.cap, e.addr), c.maxIds)
  }

  /** Its timer is armed exactly during discovery, for the time-out of the last request. */
  ghost predicate DiscOk(c: Config, e: Entry, ts: map<Addr, nat>, log: seq<Action>) {
    && (e.addr in ts <==> e.inDisc)
    && (e.inDisc ==>
          && e.rexmts <= c.maxRexmt
          && e.ttl == Ttl(e.rexmts)
          && e.timeout == Backoff(c.nonprop, c.maxPeriod, e.rexmts)
          && var s := Sends(log, e.addr);
             |s| == e.rexmts + 1 && ts[e.addr] == s[e.rexmts].1 + e.timeout)
  }

  /** Every discovery was a ring search of bounded length. */
  ghost predicate Bounded(c: Config, log: seq<Action>, a: Addr) {
    |Sends(log, a)| <= 1 + c.maxRexmt && Ring(Sends(log, a), c.nonprop, c.maxPeriod)
  }

  /** The addresses and the requests remembered are those the history asks for. */
  ghost predicate Order(c: Config, es: seq<Entry>, h: seq<Event>) {
    && c.cap >= 1
    && Addresses(es) == Recent(h, c.cap)
    && (forall i {:trigger IdsOk(c, es[i], h)} :: 0 <= i < |es| ==> IdsOk(c, es[i], h))
  }

  ghost predicate TimerListed(ts: map<Addr, nat>, es: seq<Entry>, a: Addr) {
    a in ts ==> a in Addresses(es)
  }

  /** The discoveries under way agree with what was sent. */
  ghost predicate Discs(c: Config, es: seq<Entry>, ts: map<Addr, nat>, log: seq<Action>) {
    && (forall i {:trigger DiscOk(c, es[i], ts, log)} :: 0 <= i < |es| ==> DiscOk(c, es[i], ts, log))
    && (forall a :: TimerListed(ts, es, a))
    && (forall a :: Bounded(c, log, a))
  }

  ghost predicate Good(c: Config, es: seq<Entry>, ts: map<Addr, nat>, log: seq<Action>, h: seq<Event>) {
    Order(c, es, h) && Distinct(Addresses(es)) && Discs(c, es, ts, log)
  }

  ghost function GoodStates(c: Config): iset<(seq<Entry>, map<Addr, nat>, seq<Action>, seq<Event>)> {
    iset x: (seq<Entry>, map<Addr, nat>, seq<Action>, seq<Event>) | Good(c, x.0, x.1, x.2, x.3)
  }

  /** The entries of addresses other than `a`, and their timers, are as they were. */
  ghost predicate OthersKept(a: Addr, es: seq<Entry>, ts: map<Addr, nat>, was: seq<Entry>, tsWas: map<Addr, nat>) {
    forall i :: 0 <= i < |es| && es[i].addr != a ==> es[i] in was && SameTimer(ts, tsWas, es[i].addr)
  }

  /** The timers left when `a` is used: a new entry in a full table takes the first one's place. */
  function TimersLeft(a: Addr, was: seq<Entry>, ts: map<Addr, nat>, cap: nat): map<Addr, nat>
    requires cap >= 1
  {
    if a in Addresses(was) || |was| < cap then ts else ts - {was[0].addr}
  }

  /** `e` is the entry `was` has for its address, except for the time of its last use and the
      requests remembered; an idle one if there is none. */
  ghost predicate FromEntry(e: Entry, was: seq<Entry>) {
    if e.addr in Addresses(was) then
      exists k :: 0 <= k < |was| && e == was[k].(ids := e.ids, lastUsed := e.lastUsed)
    else
      e == Entry(e.addr, false, 0, 0, 0, e.lastUsed, e.ids)
  }

  /** `e` is the entry of `a`, idle now. */
  ghost predicate Stopped(e: Entry, a: Addr, now: nat, was: seq<Entry>) {
    exists k :: 0 <= k < |was| && was[k].addr == a && e == was[k].(inDisc := false, lastUsed := now)
  }

  ghost predicate SameTimer(ts: map<Addr, nat>, was: map<Addr, nat>, b: Addr) {
    (b in ts <==> b in was) && (b in ts ==> ts[b] == was[b])
  }

  /** Using an address leaves alone what is remembered for those in the table. */
  lemma IdsKept(c: Config, e: Entry, h: seq<Event>, ev: Event)
    requires c.cap >= 1 && IdsOk(c, e, h) && e.addr in Recent(h + [ev], c.cap)
    requires ev.Touch? || ev.addr != e.addr
    ensures IdsOk(c, e, h + [ev])
  {
    var s := Since(h, c.cap, e.addr);
    assert Since(h + [ev], c.cap, e.addr) == s by {
      if e.addr == ev.addr {
        SinceSelf(h, ev, c.cap);
        assert s + [] == s;
      } else {
        SinceOther(h, ev, c.cap, e.addr);
      }
    }
  }

  function Moved(es: seq<Entry>, k: nat): seq<Entry>
    requires k < |es|
  {
    es[..k] + es[k + 1..] + [es[k]]
  }

  lemma MovedAddresses(es: seq<Entry>, k: nat)
    requires k < |es| && Distinct(Addresses(es))
    ensures Addresses(Moved(es, k)) == Without(Addresses(es), es[k].addr) + [es[k].addr]
  {
    var s := Addresses(es);
    WithoutAt(s, k);
    assert s[k] == es[k].addr;
    assert Addresses(Moved(es, k)) == s[..k] + s[k + 1..] + [s[k]];
  }

  lemma MovedOrder(c: Config, es: seq<Entry>, h: seq<Event>, k: nat)
    requires Order(c, es, h) && k < |es|
    ensures Order(c, Moved(es, k), h + [Touch(es[k].addr)])
  {
    var r, ev := Moved(es, k), Touch(es[k].addr);
    RecentDistinct(h, c.cap);
    MovedAddresses(es, k);
    UseIsRecent(h, ev, c.cap);
    assert es[k].addr == Addresses(es)[k];
    assert Addresses(r) == Recent(h + [ev], c.cap);
    forall i | 0 <= i < |r| ensures IdsOk(c, r[i], h + [ev]) {
      var j := if i < k then i else if i < |es| - 1 then i + 1 else k;
      assert r[i] == es[j] && IdsOk(c, es[j], h);
      assert Addresses(r)[i] == r[i].addr;
      IdsKept(c, r[i], h, ev);
    }
  }

  lemma MovedDiscs(c: Config, es: seq<Entry>, ts: map<Addr, nat>, log: seq<Action>, k: nat)
    requires Discs(c, es, ts, log) && Distinct(Addresses(es)) && k < |es|
    ensures Discs(c, Moved(es, k), ts, log)
  {
    var r := Moved(es, k);
    MovedAddresses(es, k);
    WithoutMembers(Addresses(es), es[k].addr);
    forall i | 0 <= i < |r| ensures DiscOk(c, r[i], ts, log) {
      var j := if i < k then i else if i < |es| - 1 then i + 1 else k;
      assert r[i] == es[j] && DiscOk(c, es[j], ts, log);
    }
    forall b ensures TimerListed(ts, r, b) {
      assert TimerListed(ts, es, b) && Addresses(es)[k] == es[k].addr;
      if b == es[k].addr { assert Addresses(r)[|r| - 1] == b; }
    }
  }

  lemma MovedGood(c: Config, es: seq<Entry>, ts: map<Addr, nat>, log: seq<Action>, h: seq<Event>, k: nat)
    requires Good(c, es, ts, log, h) && k < |es|
    ensures Good(c, Moved(es, k), ts, log, h + [Touch(es[k].addr)])
  {
    MovedOrder(c, es, h, k);
    MovedDiscs(c, es, ts, log, k);
    RecentDistinct(h + [Touch(es[k].addr)], c.cap);
  }

  /** A new idle entry, the first one leaving when the table is full. */
  function Added(es: seq<Entry>, e: Entry, cap: nat): seq<Entry>
    requires cap >= 1
  {
    (if |es| >= cap then es[1..] else es) + [e]
  }

  lemma AddedAddresses(es: seq<Entry>, e: Entry, cap: nat)
    requires cap >= 1
    ensures var s := Addresses(es);
      Addresses(Added(es, e, cap)) == (if |s| >= cap then s[1..] else s) + [e.addr]
  {
    var s := Addresses(es);
    if |es| >= cap {
      assert Addresses(es[1..]) == s[1..];
    }
    var t := if |es| >= cap then es[1..] else es;
    assert Addresses(t + [e]) == Addresses(t) + [e.addr];
  }

  lemma AddedOrder(c: Config, es: seq<Entry>, h: seq<Event>, e: Entry)
    requires Order(c, es, h) && e.addr !in Addresses(es) && e.ids == []
    ensures Order(c, Added(es, e, c.cap), h + [Touch(e.addr)])
  {
    var r, ev := Added(es, e, c.cap), Touch(e.addr);
    AddedAddresses(es, e, c.cap);
    UseIsRecent(h, ev, c.cap);
    assert Addresses(r) == Recent(h + [ev], c.cap);
    forall i | 0 <= i < |r| ensures IdsOk(c, r[i], h + [ev]) {
      if i == |r| - 1 {
        SinceSelf(h, ev, c.cap);
        SinceAbsent(h, c.cap, e.addr);
      } else {
        var j := if |es| >= c.cap then i + 1 else i;
        assert r[i] == es[j] && IdsOk(c, es[j], h);
        assert Addresses(r)[i] == r[i].addr && Addresses(es)[j] == es[j].addr;
        IdsKept(c, r[i], h, ev);
      }
    }
  }

  lemma AddedDiscs(c: Config, es: seq<Entry>, ts: map<Addr, nat>, log: seq<Action>, e: Entry)
    requires Discs(c, es, ts, log) && Distinct(Addresses(es)) && c.cap >= 1
    requires e.addr !in Addresses(es) && !e.inDisc
    ensures var ts' := if |es| >= c.cap then ts - {es[0].addr} else ts;
      && Discs(c, Added(es, e, c.cap), ts', log)
      && OthersKept(e.addr, Added(es, e, c.cap), ts', es, ts)
  {
    var r := Added(es, e, c.cap);
    var ts' := if |es| >= c.cap then ts - {es[0].addr} else ts;
    assert TimerListed(ts, es, e.addr);
    assert DiscOk(c, r[|r| - 1], ts', log);
    forall i | 0 <= i < |r| - 1 ensures r[i] in es && SameTimer(ts', ts, r[i].addr) && DiscOk(c, r[i], ts', log) {
      var j := if |es| >= c.cap then i + 1 else i;
      assert r[i] == es[j] && DiscOk(c, es[j], ts, log);
      assert |es| >= c.cap ==> Addresses(es)[0] != Addresses(es)[j];
    }
    forall b | b in ts' ensures b in Addresses(r) {
      assert TimerListed(ts, es, b);
      var k :| 0 <= k < |es| && Addresses(es)[k] == b;
      var i := if |es| >= c.cap then k - 1 else k;
      assert r[i] == es[k] && Addresses(r)[i] == b;
    }
  }

  lemma AddedGood(c: Config, es: seq<Entry>, ts: map<Addr, nat>, log: seq<Action>, h: seq<Event>, e: Entry)
    requires Good(c, es, ts, log, h) && e.addr !in Addresses(es) && !e.inDisc && e.ids == []
    ensures var ts' := if |es| >= c.cap then ts - {es[0].addr} else ts;
      && Good(c, Added(es, e, c.cap), ts', log, h + [Touch(e.addr)])
      && OthersKept(e.addr, Added(es, e, c.cap), ts', es, ts)
  {
    AddedOrder(c, es, h, e);
    AddedDiscs(c, es, ts, log, e);
    RecentDistinct(h + [Touch(e.addr)], c.cap);
  }

  /** Changing the last entry, its timer and the requests sent for it leaves the others alone. */
  lemma LastDiscs(c: Config, es: seq<Entry>, ts: map<Addr, nat>, log: seq<Action>,
                  e: Entry, ts': map<Addr, nat>, log': seq<Action>)
    requires Discs(c, es, ts, log) && Distinct(Addresses(es)) && |es| > 0 && e.addr == es[|es| - 1].addr
    requires ts' - {e.addr} == ts - {e.addr}
    requires forall b :: b != e.addr ==> Sends(log', b) == Sends(log, b)
    requires DiscOk(c, e, ts', log') && Bounded(c, log', e.addr)
    ensures Discs(c, es[|es| - 1 := e], ts', log')
    ensures OthersKept(e.addr, es[|es| - 1 := e], ts', es, ts)
  {
    var n, r := |es| - 1, es[|es| - 1 := e];
    forall i | 0 <= i < n ensures r[i] in es && SameTimer(ts', ts, r[i].addr) && DiscOk(c, r[i], ts', log') {
      assert r[i] == es[i] && DiscOk(c, es[i], ts, log);
      assert Addresses(es)[i] != Addresses(es)[n];
      OtherTimer(ts', ts, e.addr, es[i].addr);
    }
    forall b | b in ts' ensures b in Addresses(r) {
      assert TimerListed(ts, es, b);
      OtherTimer(ts', ts, e.addr, b);
      assert Addresses(r)[n] == e.addr;
      assert Addresses(r) == Addresses(es);
    }
    forall b ensures Bounded(c, log', b) {
      assert Bounded(c, log, b);
    }
  }

  lemma LastGood(c: Config, es: seq<Entry>, ts: map<Addr, nat>, log: seq<Action>, h: seq<Event>,
                 e: Entry, ts': map<Addr, nat>, log': seq<Action>)
    requires Good(c, es, ts, log, h) && |es| > 0 && e.addr == es[|es| - 1].addr && e.ids == es[|es| - 1].ids
    requires ts' - {e.addr} == ts - {e.addr}
    requires forall b :: b != e.addr ==> Sends(log', b) == Sends(log, b)
    requires DiscOk(c, e, ts', log') && Bounded(c, log', e.addr)
    ensures Good(c, es[|es| - 1 := e], ts', log', h)
    ensures OthersKept(e.addr, es[|es| - 1 := e], ts', es, ts)
  {
    LastDiscs(c, es, ts, log, e, ts', log');
    LastOrder(c, es, h, e);
  }

  lemma LastOrder(c: Config, es: seq<Entry>, h: seq<Event>, e: Entry)
    requires Order(c, es, h) && |es| > 0 && e.addr == es[|es| - 1].addr && e.ids == es[|es| - 1].ids
    ensures Order(c, es[|es| - 1 := e], h) && Addresses(es[|es| - 1 := e]) == Addresses(es)
  {
    var r := es[|es| - 1 := e];
    assert Addresses(r) == Addresses(es);
    forall i | 0 <= i < |r| ensures IdsOk(c, r[i], h) {
      assert IdsOk(c, es[i], h);
    }
  }

  lemma OtherTimer(ts: map<Addr, nat>, was: map<Addr, nat>, a: Addr, b: Addr)
    requires ts - {a} == was - {a}
    ensures b != a ==> SameTimer(ts, was, b)
  {
    if b != a {
      assert b in ts <==> b in ts - {a};
      assert b in was <==> b in was - {a};
      if b in ts { assert ts[b] == (ts - {a})[b] == (was - {a})[b]; }
    }
  }

  /** One more request recorded for the last entry, the oldest one leaving when there are too many. */
  lemma RecordedOrder(c: Config, es: seq<Entry>, h: seq<Event>, e: Entry, target: Addr, id: nat)
    requires Order(c, es, h) && |es| > 0 && e.addr == es[|es| - 1].addr
    requires e.ids == LastN(es[|es| - 1].ids + [(target, id)], c.maxIds)
    ensures Order(c, es[|es| - 1 := e], h + [Record(e.addr, target, id)])
    ensures Addresses(es[|es| - 1 := e]) == Addresses(es)
  {
    var n, r, ev := |es| - 1, es[|es| - 1 := e], Record(e.addr, target, id);
    var s := Addresses(es);
    assert Addresses(r) == s;
    RecentDistinct(h, c.cap);
    LastUsedAgain(s, h, ev, c.cap);
    forall i | 0 <= i < |r| ensures IdsOk(c, r[i], h + [ev]) {
      assert IdsOk(c, es[i], h) && s[i] in s;
      if i == n {
        IdsRecorded(c, es[n], e, h, target, id);
      } else {
        assert s[i] != s[n];
        IdsKept(c, es[i], h, ev);
      }
    }
  }

  lemma IdsRecorded(c: Config, was: Entry, e: Entry, h: seq<Event>, target: Addr, id: nat)
    requires c.cap >= 1 && IdsOk(c, was, h) && e.addr == was.addr && e.ids == LastN(was.ids + [(target, id)], c.maxIds)
    ensures IdsOk(c, e, h + [Record(e.addr, target, id)])
  {
    LastNSnoc(Since(h, c.cap, e.addr), (target, id), c.maxIds);
    SinceSelf(h, Record(e.addr, target, id), c.cap);
  }

  lemma LastUsedAgain(s: seq<Addr>, h: seq<Event>, ev: Event, cap: nat)
    requires cap >= 1 && s == Recent(h, cap) && |s| > 0 && s[|s| - 1] == ev.addr
    ensures Recent(h + [ev], cap) == s
  {
    var n := |s| - 1;
    RecentDistinct(h, cap);
    WithoutAt(s, n);
    UseIsRecent(h, ev, cap);
    assert s[n] in s && s[..n] + s[n + 1..] + [s[n]] == s;
  }

  lemma RecordedGood(c: Config, es: seq<Entry>, ts: map<Addr, nat>, log: seq<Action>, h: seq<Event>,
                     e: Entry, target: Addr, id: nat)
    requires Good(c, es, ts, log, h) && |es| > 0
    requires e == es[|es| - 1].(lastUsed := e.lastUsed, ids := LastN(es[|es| - 1].ids + [(target, id)], c.maxIds))
    ensures Good(c, es[|es| - 1 := e], ts, log, h + [Record(e.addr, target, id)])
    ensures OthersKept(e.addr, es[|es| - 1 := e], ts, es, ts)
  {
    RecordedOrder(c, es, h, e, target, id);
    assert DiscOk(c, es[|es| - 1], ts, log);
    LastDiscs(c, es, ts, log, e, ts, log);
  }

  lemma KeptTwice(a: Addr, es: seq<Entry>, ts: map<Addr, nat>, mid: seq<Entry>, tsMid: map<Addr, nat>,
                  was: seq<Entry>, tsWas: map<Addr, nat>)
    requires OthersKept(a, es, ts, mid, tsMid) && OthersKept(a, mid, tsMid, was, tsWas)
    ensures OthersKept(a, es, ts, was, tsWas)
  {
    forall i | 0 <= i < |es| && es[i].addr != a ensures es[i] in was && SameTimer(ts, tsWas, es[i].addr) {
      var j :| 0 <= j < |mid| && mid[j] == es[i];
    }
  }

  lemma StartSends(log: seq<Action>, a: Addr, now: nat, b: Addr)
    ensures Sends(log + [Start(a), Send(a, TTL_START, now)], b) == if b == a then [(TTL_START, now)] else Sends(log, b)
  {
    assert log + [Start(a), Send(a, TTL_START, now)] == (log + [Start(a)]) + [Send(a, TTL_START, now)];
    SendsSnoc(log, Start(a), b);
    SendsSnoc(log + [Start(a)], Send(a, TTL_START, now), b);
  }

  // ------------------------------------------------------------ the table

  class Table {
    const config: Config
    var entries: seq<Entry>
    /** The armed timers, by the entry they belong to. */
    var timers: map<Addr, nat>
    var log: seq<Action>
    ghost var events: seq<Event>

    ghost predicate Valid()
      reads this
    {
      (entries, timers, log, events) in GoodStates(config)
    }

    constructor (config: Config)
      requires config.cap >= 1
      ensures Valid() && entries == [] && events == [] && log == []
      ensures this.config == config
    {
      this.config := config;
      entries, timers, log, events := [], map[], [], [];
    }

    method Find(a: Addr) returns (k: nat)
      ensures k <= |entries|
      ensures k < |entries| ==> entries[k].addr == a
      ensures k < |entries| <==> a in Addresses(entries)
    {
      k := 0;
      while k < |entries| && entries[k].addr != a
        invariant k <= |entries|
        invariant forall i :: 0 <= i < k ==> entries[i].addr != a
      {
        k := k + 1;
      }
      if k < |entries| {
        assert Addresses(entries)[k] == a;
      }
    }

    /** The entry at `k` goes to the end. */
    method MoveLast(k: nat)
      requires Valid() && k < |entries|
      modifies this`entries, this`events
      ensures Valid() && events == old(events) + [Touch(old(entries[k].addr))]
      ensures entries == Moved(old(entries), k)
      ensures OthersKept(old(entries[k].addr), entries, timers, old(entries), timers)
    {
      MovedGood(config, entries, timers, log, events, k);
      events := events + [Touch(entries[k].addr)];
      entries := entries[..k] + entries[k + 1..] + [entries[k]];
    }

    /** A new idle entry at the end, the first one leaving when the table is full. */
    method Add(a: Addr, now: nat)
      requires Valid() && a !in Addresses(entries)
      modifies this`entries, this`events, this`timers
      ensures Valid() && events == old(events) + [Touch(a)]
      ensures 0 < |entries| && entries[|entries| - 1] == Entry(a, false, 0, 0, 0, now, [])
      ensures timers == TimersLeft(a, old(entries), old(timers), config.cap)
      ensures OthersKept(a, entries, timers, old(entries), old(timers))
    {
      var e := Entry(a, false, 0, 0, 0, now, []);
      AddedGood(config, entries, timers, log, events, e);
      if |entries| >= config.cap {
        timers := timers - {entries[0].addr};
        entries := entries[1..];
      }
      entries := entries + [e];
      events := events + [Touch(a)];
    }

    /** The entry of `a`, made if need be, goes to the end. */
    method Take(a: Addr, now: nat)
      requires Valid()
      modifies this`entries, this`events, this`timers
      ensures Valid() && events == old(events) + [Touch(a)]
      ensures 0 < |entries| && entries[|entries| - 1].addr == a
      ensures OthersKept(a, entries, timers, old(entries), old(timers))
      ensures timers == TimersLeft(a, old(entries), old(timers), config.cap)
      ensures a in old(Addresses(entries)) ==> entries[|entries| - 1] in old(entries)
      ensures a !in old(Addresses(entries)) ==> entries[|entries| - 1] == Entry(a, false, 0, 0, 0, now, [])
      ensures entries[|entries| - 1].inDisc <==> a in old(timers)
      ensures a in old(timers) ==> timers == old(timers)
    {
      var k := Find(a);
      UnderWay(config, entries, timers, log, events, a, k);
      if k == |entries| {
        Add(a, now);
      } else {
        MoveLast(k);
      }
    }

    /** rreq_tbl_add_id */
    method AddId(initiator: Addr, target: Addr, id: nat, now: nat)
      requires Valid()
      modifies this`entries, this`events, this`timers
      ensures Valid()
      ensures events == old(events) + [Touch(initiator), Record(initiator, target, id)]
      ensures OthersKept(initiator, entries, timers, old(entries), old(timers))
      ensures 0 < |entries| && entries[|entries| - 1].addr == initiator && entries[|entries| - 1].lastUsed == now
      ensures FromEntry(entries[|entries| - 1], old(entries))
      ensures timers == TimersLeft(initiator, old(entries), old(timers), config.cap)
    {
      Take(initiator, now);
      ghost var h := events;
      RecordLast(target, id, now, old(entries), old(timers));
      assert h + [Record(initiator, target, id)] == old(events) + [Touch(initiator), Record(initiator, target, id)];
    }

    /** The request is remembered for the last entry. */
    method RecordLast(target: Addr, id: nat, now: nat, ghost was: seq<Entry>, ghost tsWas: map<Addr, nat>)
      requires Valid() && 0 < |entries|
      requires OthersKept(entries[|entries| - 1].addr, entries, timers, was, tsWas)
      modifies this`entries, this`events
      ensures Valid() && 0 < |entries| == old(|entries|)
      ensures events == old(events) + [Record(old(entries[|entries| - 1]).addr, target, id)]
      ensures OthersKept(old(entries[|entries| - 1]).addr, entries, timers, was, tsWas)
      ensures var e := entries[|entries| - 1]; e == old(entries[|entries| - 1]).(ids := e.ids, lastUsed := now)
    {
      var e := entries[|entries| - 1];
      assert IdsOk(config, e, events);
      var ids := PushId(e.ids, (target, id), config.maxIds);
      var es := entries[|entries| - 1 := e.(lastUsed := now, ids := ids)];
      RecordedGood(config, entries, timers, log, events, e.(lastUsed := now, ids := ids), target, id);
      KeptTwice(e.addr, es, timers, entries, timers, was, tsWas);
      entries := es;
      events := events + [Record(e.addr, target, id)];
    }

    /** dsr_rreq_duplicate */
    method Duplicate(initiator: Addr, target: Addr, id: nat) returns (dup: bool)
      requires Valid()
      ensures dup <==> (target, id) in LastN(Since(events, config.cap, initiator), config.maxIds)
    {
      var k := Find(initiator);
      if k == |entries| {
        SinceAbsent(events, config.cap, initiator);
        return false;
      }
      assert IdsOk(config, entries[k], events);
      dup := HasId(entries[k].ids, (target, id));
    }

    /** rreq_tbl_route_discovery_cancel */
    method Cancel(dst: Addr, now: nat) returns (found: bool)
      requires Valid()
      modifies this`entries, this`events, this`timers
      ensures Valid()
      ensures found <==> dst in old(Addresses(entries))
      ensures events == if found then old(events) + [Touch(dst)] else old(events)
      ensures !found ==> entries == old(entries)
      ensures timers == old(timers) - {dst}
      ensures found ==> 0 < |entries| && Stopped(entries[|entries| - 1], dst, now, old(entries))
      ensures OthersKept(dst, entries, timers, old(entries), old(timers))
    {
      var k := Find(dst);
      found := k < |entries|;
      if found {
        StopAt(k, now);
      } else {
        assert TimerListed(timers, entries, dst);
      }
    }

    /** The entry at `k` goes to the end, and its discovery ends. */
    method StopAt(k: nat, now: nat)
      requires Valid() && k < |entries|
      modifies this`entries, this`events, this`timers
      ensures Valid() && events == old(events) + [Touch(old(entries[k]).addr)]
      ensures timers == old(timers) - {old(entries[k]).addr}
      ensures 0 < |entries| && entries[|entries| - 1] == old(entries[k]).(inDisc := false, lastUsed := now)
      ensures OthersKept(old(entries[k]).addr, entries, timers, old(entries), old(timers))
    {
      var e := entries[k];
      StoppedGood(config, entries, timers, log, events, k, now);
      events := events + [Touch(e.addr)];
      entries := entries[..k] + entries[k + 1..] + [e.(inDisc := false, lastUsed := now)];
      timers := timers - {e.addr};
    }

    /** The discovery of the last entry ends. */
    method StopLast(now: nat)
      requires Valid() && 0 < |entries|
      modifies this`entries, this`timers
      ensures Valid() && 0 < |entries| == old(|entries|)
      ensures timers == old(timers) - {old(entries[|entries| - 1]).addr}
      ensures entries[|entries| - 1] == old(entries[|entries| - 1]).(inDisc := false, lastUsed := now)
      ensures OthersKept(old(entries[|entries| - 1]).addr, entries, timers, old(entries), old(timers))
    {
      var e := entries[|entries| - 1];
      assert DiscOk(config, e, timers, log) && Bounded(config, log, e.addr);
      LastGood(config, entries, timers, log, events, e.(inDisc := false, lastUsed := now), timers - {e.addr}, log);
      if e.inDisc {
        timers := timers - {e.addr};
      } else {
        assert timers == timers - {e.addr};
      }
      entries := entries[|entries| - 1 := e.(inDisc := false, lastUsed := now)];
    }

    /** dsr_rreq_route_discovery */
    method RouteDiscovery(target: Addr, now: nat) returns (started: bool)
      requires Valid()
      modifies this`entries, this`events, this`timers, this`log
      ensures Valid() && events == old(events) + [Touch(target)]
      ensures started <==> target !in old(timers)
      ensures target in timers
      ensures !started ==> log == old(log) && timers == old(timers)
      ensures started ==> log == old(log) + [Start(target), Send(target, TTL_START, now)]
      ensures started ==>
                timers == TimersLeft(target, old(entries), old(timers), config.cap)[target := now + config.nonprop]
      ensures 0 < |entries| && entries[|entries| - 1].addr == target
      ensures if started then entries[|entries| - 1].lastUsed == now else entries[|entries| - 1] in old(entries)
      ensures OthersKept(target, entries, timers, old(entries), old(timers))
    {
      Take(target, now);
      started := !entries[|entries| - 1].inDisc;
      if started {
        BeginLast(now, old(entries), old(timers));
      }
    }

    /** A discovery starts for the last entry. */
    method BeginLast(now: nat, ghost was: seq<Entry>, ghost tsWas: map<Addr, nat>)
      requires Valid() && 0 < |entries|
      requires OthersKept(entries[|entries| - 1].addr, entries, timers, was, tsWas)
      modifies this`entries, this`timers, this`log
      ensures Valid() && 0 < |entries| == old(|entries|)
      ensures OthersKept(old(entries[|entries| - 1]).addr, entries, timers, was, tsWas)
      ensures var a := old(entries[|entries| - 1]).addr;
        && timers == old(timers)[a := now + config.nonprop]
        && entries[|entries| - 1].addr == a && entries[|entries| - 1].lastUsed == now
        && log == old(log) + [Start(a), Send(a, TTL_START, now)]
    {
      var e := entries[|entries| - 1];
      var started := e.(inDisc := true, ttl := TTL_START, timeout := config.nonprop, rexmts := 0, lastUsed := now);
      var es := entries[|entries| - 1 := started];
      var ts := timers[e.addr := now + config.nonprop];
      var lg := log + [Start(e.addr), Send(e.addr, TTL_START, now)];
      BegunGood(config, entries, timers, log, events, now);
      assert Good(config, es, ts, lg, events) && OthersKept(e.addr, es, ts, entries, timers);
      KeptTwice(e.addr, es, ts, entries, timers, was, tsWas);
      entries, timers, log := es, ts, lg;
    }

    /** rreq_tbl_timeout, the timer of the entry at `k` having expired */
    method Timeout(k: nat, now: nat)
      requires Valid() && k < |entries|
      requires entries[k].addr in timers && timers[entries[k].addr] <= now
      modifies this`entries, this`events, this`timers, this`log
      ensures Valid() && events == old(events) + [Touch(old(entries[k].addr))]
      ensures OthersKept(old(entries[k].addr), entries, timers, old(entries), old(timers))
      ensures var e := old(entries[k]);
        if e.rexmts >= config.maxRexmt then timers == old(timers) - {e.addr} && log == old(log)
        else
          && timers == old(timers)[e.addr := now + Backoff(config.nonprop, config.maxPeriod, e.rexmts + 1)]
          && log == old(log) + [Send(e.addr, Ttl(e.rexmts + 1), now)]
    {
      assert DiscOk(config, entries[k], timers, log);
      MoveLast(k);
      ghost var mid := entries;
      if entries[|entries| - 1].rexmts >= config.maxRexmt {
        StopLast(entries[|entries| - 1].lastUsed);
      } else {
        RetryLast(now);
      }
      KeptTwice(old(entries[k].addr), entries, timers, mid, old(timers), old(entries), old(timers));
    }

    /** The discovery of the last entry goes one ring further. */
    method RetryLast(now: nat)
      requires Valid() && 0 < |entries|
      requires entries[|entries| - 1].inDisc && entries[|entries| - 1].rexmts < config.maxRexmt
      requires entries[|entries| - 1].addr in timers && timers[entries[|entries| - 1].addr] <= now
      modifies this`entries, this`timers, this`log
      ensures Valid() && |entries| == old(|entries|)
      ensures OthersKept(old(entries[|entries| - 1]).addr, entries, timers, old(entries), old(timers))
      ensures var e := old(entries[|entries| - 1]);
        && log == old(log) + [Send(e.addr, Ttl(e.rexmts + 1), now)]
        && timers == old(timers)[e.addr := now + Backoff(config.nonprop, config.maxPeriod, e.rexmts + 1)]
    {
      var e := entries[|entries| - 1];
      assert DiscOk(config, e, timers, log);
      var timeout, ttl := Double(config, e);
      RetriedGood(config, entries, timers, log, events, now);
      log := log + [Send(e.addr, ttl, now)];
      entries := entries[|entries| - 1 := e.(rexmts := e.rexmts + 1, timeout := timeout, ttl := ttl, lastUsed := now)];
      timers := timers[e.addr := now + timeout];
    }

    /** The first lines of dsr_rreq_opt_recv: a request is worked on unless it is remembered. */
    method Receive(initiator: Addr, target: Addr, id: nat, now: nat) returns (process: bool)
      requires Valid() && FreshHistory(events, config.cap, config.maxIds)
      modifies this`entries, this`events, this`timers
      ensures Valid() && FreshHistory(events, config.cap, config.maxIds)
      ensures process <==> (target, id) !in LastN(Since(old(events), config.cap, initiator), config.maxIds)
      ensures events == if process then old(events) + [Touch(initiator), Record(initiator, target, id)] else old(events)
      ensures !process ==> entries == old(entries) && timers == old(timers)
      ensures process && config.maxIds > 0 ==>
                (target, id) in LastN(Since(events, config.cap, initiator), config.maxIds)
      ensures OthersKept(initiator, entries, timers, old(entries), old(timers))
      ensures process ==>
        && 0 < |entries| && entries[|entries| - 1].addr == initiator && entries[|entries| - 1].lastUsed == now
        && FromEntry(entries[|entries| - 1], old(entries))
        && timers == TimersLeft(initiator, old(entries), old(timers), config.cap)
    {
      var dup := Duplicate(initiator, target, id);
      process := !dup;
      if process {
        ReceivedFresh(events, config, initiator, target, id);
        AddId(initiator, target, id, now);
      }
    }
  }

  lemma StoppedGood(c: Config, es: seq<Entry>, ts: map<Addr, nat>, log: seq<Action>, h: seq<Event>, k: nat, now: nat)
    requires Good(c, es, ts, log, h) && k < |es|
    ensures var e := es[k].(inDisc := false, lastUsed := now);
      var r := es[..k] + es[k + 1..] + [e];
      && Good(c, r, ts - {e.addr}, log, h + [Touch(e.addr)])
      && OthersKept(e.addr, r, ts - {e.addr}, es, ts)
  {
    var e, m := es[k].(inDisc := false, lastUsed := now), Moved(es, k);
    MovedGood(c, es, ts, log, h, k);
    MovedKept(es, ts, k);
    assert m[|m| - 1] == es[k] && m[|m| - 1 := e] == es[..k] + es[k + 1..] + [e];
    assert DiscOk(c, m[|m| - 1], ts, log) && Bounded(c, log, e.addr);
    LastGood(c, m, ts, log, h + [Touch(e.addr)], e, ts - {e.addr}, log);
    KeptTwice(e.addr, m[|m| - 1 := e], ts - {e.addr}, m, ts, es, ts);
  }

  lemma MovedKept(es: seq<Entry>, ts: map<Addr, nat>, k: nat)
    requires k < |es|
    ensures OthersKept(es[k].addr, Moved(es, k), ts, es, ts)
  {
  }

  /** A timer runs for an address exactly when its entry is in discovery. */
  lemma UnderWay(c: Config, es: seq<Entry>, ts: map<Addr, nat>, log: seq<Action>, h: seq<Event>, a: Addr, k: nat)
    requires Good(c, es, ts, log, h) && k <= |es|
    requires if k < |es| then es[k].addr == a else a !in Addresses(es)
    ensures a in ts <==> k < |es| && es[k].inDisc
    ensures a in ts ==> a in Addresses(es)
  {
    assert TimerListed(ts, es, a);
    if k < |es| {
      assert DiscOk(c, es[k], ts, log);
    }
  }

  /** Both double, within their limits. */
  method Double(c: Config, e: Entry) returns (timeout: nat, ttl: nat)
    requires e.ttl == Ttl(e.rexmts) && e.timeout == Backoff(c.nonprop, c.maxPeriod, e.rexmts)
    ensures ttl == Ttl(e.rexmts + 1) && timeout == Backoff(c.nonprop, c.maxPeriod, e.rexmts + 1)
  {
    timeout, ttl := e.timeout * 2, e.ttl * 2;
    if ttl > MAXTTL {
      ttl := MAXTTL;
    }
    if timeout > c.maxPeriod {
      timeout := c.maxPeriod;
    }
  }

  /** The oldest id leaves when there are too many. */
  method PushId(ids: seq<(Addr, nat)>, x: (Addr, nat), max: nat) returns (r: seq<(Addr, nat)>)
    requires |ids| <= max
    ensures r == LastN(ids + [x], max)
  {
    r := ids;
    if |r| >= max && |r| > 0 {
      r := r[1..];
    }
    if |r| < max {
      r := r + [x];
    }
  }

  method HasId(ids: seq<(Addr, nat)>, x: (Addr, nat)) returns (has: bool)
    ensures has <==> x in ids
  {
    var i := 0;
    while i < |ids|
      invariant 0 <= i <= |ids|
      invariant x !in ids[..i]
    {
      if ids[i] == x {
        return true;
      }
      i := i + 1;
    }
    return false;
  }

  /** Recording a request that is not remembered keeps the history fresh, and it is remembered then. */
  lemma ReceivedFresh(h: seq<Event>, c: Config, initiator: Addr, target: Addr, id: nat)
    requires c.cap >= 1 && FreshHistory(h, c.cap, c.maxIds)
    requires (target, id) !in LastN(Since(h, c.cap, initiator), c.maxIds)
    ensures var h' := h + [Touch(initiator), Record(initiator, target, id)];
      && FreshHistory(h', c.cap, c.maxIds)
      && (c.maxIds > 0 ==> (target, id) in LastN(Since(h', c.cap, initiator), c.maxIds))
  {
    var touch, rec := Touch(initiator), Record(initiator, target, id);
    assert h + [touch, rec] == (h + [touch]) + [rec];
    SinceSelf(h, touch, c.cap);
    FreshSnoc(h, touch, c.cap, c.maxIds);
    FreshSnoc(h + [touch], rec, c.cap, c.maxIds);
    SinceSelf(h + [touch], rec, c.cap);
    if c.maxIds > 0 {
      var t := Since(h + [touch], c.cap, initiator) + [(target, id)];
      assert LastN(t, c.maxIds)[|LastN(t, c.maxIds)| - 1] == (target, id);
    }
  }

  lemma BegunGood(c: Config, es: seq<Entry>, ts: map<Addr, nat>, log: seq<Action>, h: seq<Event>, now: nat)
    requires Good(c, es, ts, log, h) && |es| > 0
    ensures var e := es[|es| - 1].(inDisc := true, ttl := TTL_START, timeout := c.nonprop, rexmts := 0,
                                      lastUsed := now);
      var ts', log' := ts[e.addr := now + c.nonprop], log + [Start(e.addr), Send(e.addr, TTL_START, now)];
      && Good(c, es[|es| - 1 := e], ts', log', h)
      && OthersKept(e.addr, es[|es| - 1 := e], ts', es, ts)
  {
    var e := es[|es| - 1].(inDisc := true, ttl := TTL_START, timeout := c.nonprop, rexmts := 0,
                                      lastUsed := now);
    var ts', log' := ts[e.addr := now + c.nonprop], log + [Start(e.addr), Send(e.addr, TTL_START, now)];
    forall b ensures Sends(log', b) == if b == e.addr then [(TTL_START, now)] else Sends(log, b) {
      StartSends(log, e.addr, now, b);
    }
    RingSnoc([], now, c.nonprop, c.maxPeriod);
    assert [] + [(Ttl(0), now)] == [(TTL_START, now)];
    assert Bounded(c, log', e.addr);
    LastGood(c, es, ts, log, h, e, ts', log');
  }

  lemma RetriedGood(c: Config, es: seq<Entry>, ts: map<Addr, nat>, log: seq<Action>, h: seq<Event>, now: nat)
    requires Good(c, es, ts, log, h) && |es| > 0
    requires es[|es| - 1].inDisc && es[|es| - 1].rexmts < c.maxRexmt
    requires es[|es| - 1].addr in ts && ts[es[|es| - 1].addr] <= now
    ensures var k := es[|es| - 1].rexmts + 1;
      var timeout := Backoff(c.nonprop, c.maxPeriod, k);
      var e := es[|es| - 1].(rexmts := k, timeout := timeout, ttl := Ttl(k), lastUsed := now);
      var ts', log' := ts[e.addr := now + timeout], log + [Send(e.addr, Ttl(k), now)];
      && Good(c, es[|es| - 1 := e], ts', log', h)
      && OthersKept(e.addr, es[|es| - 1 := e], ts', es, ts)
  {
    var k := es[|es| - 1].rexmts + 1;
    var timeout := Backoff(c.nonprop, c.maxPeriod, k);
    var e := es[|es| - 1].(rexmts := k, timeout := timeout, ttl := Ttl(k), lastUsed := now);
    var ts', log' := ts[e.addr := now + timeout], log + [Send(e.addr, Ttl(k), now)];
    assert DiscOk(c, es[|es| - 1], ts, log) && Bounded(c, log, e.addr);
    forall b ensures Sends(log', b) == Extended(Sends(log, b), Send(e.addr, Ttl(k), now), b) {
      SendsSnoc(log, Send(e.addr, Ttl(k), now), b);
    }
    RingSnoc(Sends(log, e.addr), now, c.nonprop, c.maxPeriod);
    assert Bounded(c, log', e.addr);
    LastGood(c, es, ts, log, h, e, ts', log');
  }
}
