/** What the operations of the maintenance buffer (maint-buf.c) do to its contents, and
    which entries are left when neighbours are lost. */
module MaintState {
  import opened Routes
  import opened Paths
  import opened Acks
  import opened MaintEntries
  import opened MaintWork
  import opened ShortRoutes
  import Rtt

  datatype Neighbor = Neighbor(id: nat, lastReq: nat, estimate: Rtt.Estimate)

  /** What the buffer causes: a packet goes to `next`, being salvaged when it had a number
      before; a request for an acknowledgement is repeated; dsr_rerr_send is called; the packet
      of a number is dropped. */
  datatype Output =
    | Xmit(pkt: Packet, route: Route, sleft: nat, next: Addr, salvaged: Option<nat>)
    | AckRequest(next: Addr, id: nat)
    | Rerr(pkt: Packet, unreachable: Addr)
    | Drop(pkt: Packet, no: nat)

  ghost predicate NumberOk(neigh: map<Addr, Neighbor>, h: seq<Sent>, n: Addr) {
    if n in neigh then neigh[n].id == Counter(h, n) % U16 else Counter(h, n) == 1
  }

  ghost predicate RetriesLeft(b: seq<Entry>, max: nat) {
    forall i :: 0 <= i < |b| ==> b[i].rexmt == 0 || b[i].rexmt < max
  }

  /** Entries, neighbours' numbers and the history of packets agree. */
  ghost predicate Good(b: seq<Entry>, neigh: map<Addr, Neighbor>, h: seq<Sent>, cap: nat, max: nat) {
    && |b| <= cap
    && Numbered(b, h) && Ordered(b) && RetriesLeft(b, max)
    && forall n :: NumberOk(neigh, h, n)
  }

  ghost predicate NoneFor(b: seq<Entry>, n: Addr) {
    forall i :: 0 <= i < |b| ==> b[i].next != n
  }

  // ------------------------------------------------------------ what a step may do

  /** The state a step starts from or ends in: the entries, the neighbours alive, the packets
      numbered so far, what was caused, the cached links of the node `me`, and the neighbours'
      estimates. */
  datatype Snap = Snap(buf: seq<Entry>, live: set<Addr>, hist: seq<Sent>, out: seq<Output>, me: Addr, graph: Graph,
                       rtts: map<Addr, Rtt.Estimate>)

  function Estimates(neigh: map<Addr, Neighbor>): map<Addr, Rtt.Estimate> {
    map n | n in neigh :: neigh[n].estimate
  }

  lemma EstimateSet(neigh: map<Addr, Neighbor>, n: Addr, info: Neighbor)
    ensures Estimates(neigh[n := info]) == Estimates(neigh)[n := info.estimate]
    ensures n in neigh && info.estimate == neigh[n].estimate ==> Estimates(neigh[n := info]) == Estimates(neigh)
  {
  }

  /** If the neighbour `x` is dead now, and was alive before or had no entries, then it has
      no entries. */
  ghost predicate PurgedOf(s: Snap, t: Snap, x: Addr) {
    x !in t.live && (x in s.live || NoneFor(s.buf, x)) ==> NoneFor(t.buf, x)
  }

  predicate Disposes(x: Output, no: nat) {
    (x.Drop? && x.no == no) || (x.Xmit? && x.salvaged == Some(no))
  }

  /** The packet of this number was salvaged or dropped in between. */
  ghost predicate Disposed(before: seq<Output>, after: seq<Output>, no: nat) {
    exists i :: |before| <= i < |after| && Disposes(after[i], no)
  }

  /** When the cached links were `g`, the search answered `alt`; the packet was sent on over it if
      that could be, and dropped otherwise. */
  ghost predicate Decided(x: Output, e: Entry, me: Addr, g: Graph, alt: Option<Route>) {
    && alt in Answers(g, me, e.pkt.dst)
    && if Saved(me, e.pkt, e.next, alt)
       then Routed(x, e.pkt, e.no, LiveOf(g, me)) && Rerouted(x, me, e.pkt, e.next, alt)
       else x == Drop(e.pkt, e.no)
  }

  ghost predicate DecidedIn(x: Output, e: Entry, s: Snap, t: Snap, g: Graph, alt: Option<Route>) {
    SubGraph(g, s.graph) && SubGraph(t.graph, g) && Decided(x, e, s.me, g, alt)
  }

  /** `x` is what became of a packet between two states: salvaged or dropped as the cache then
      said, or given up if it carried no request. */
  ghost predicate Resolves(x: Output, e: Entry, s: Snap, t: Snap) {
    (x == Drop(e.pkt, e.no) && !e.ackReq) || exists g, alt :: DecidedIn(x, e, s, t, g, alt)
  }

  ghost predicate Resolved(s: Snap, t: Snap, e: Entry) {
    exists i :: |s.out| <= i < |t.out| && Resolves(t.out[i], e, s, t)
  }

  lemma ResolvedDisposed(s: Snap, t: Snap, e: Entry)
    ensures Resolved(s, t, e) ==> Disposed(s.out, t.out, e.no)
  {
    if Resolved(s, t, e) {
      var i :| |s.out| <= i < |t.out| && Resolves(t.out[i], e, s, t);
      assert Disposes(t.out[i], e.no);
    }
  }

  lemma ResolvesLonger(x: Output, e: Entry, f: Entry, s: Snap, t: Snap, u: Snap, v: Snap)
    requires Resolves(x, e, t, u) && Same(e, f) && s.me == t.me
    requires SubGraph(t.graph, s.graph) && SubGraph(v.graph, u.graph)
    ensures Resolves(x, f, s, v)
  {
    if !(x == Drop(e.pkt, e.no) && !e.ackReq) {
      var g, alt :| DecidedIn(x, e, t, u, g, alt);
      assert DecidedIn(x, f, s, v, g, alt);
    }
  }

  /** What was settled in part of the time was settled in all of it. */
  lemma ResolvedLonger(s: Snap, t: Snap, u: Snap, v: Snap, e: Entry, f: Entry)
    requires |s.out| <= |t.out| && u.out <= v.out && s.me == t.me && Same(e, f)
    requires SubGraph(t.graph, s.graph) && SubGraph(v.graph, u.graph)
    ensures Resolved(t, u, e) ==> Resolved(s, v, f)
  {
    if Resolved(t, u, e) {
      var i :| |t.out| <= i < |u.out| && Resolves(u.out[i], e, t, u);
      ResolvesLonger(u.out[i], e, f, s, t, u, v);
      assert v.out[i] == u.out[i];
    }
  }

  /** The last output settles the packet. */
  lemma ResolvedLast(s: Snap, t: Snap, x: Output, e: Entry, alt: Option<Route>)
    requires Appended(s.out, t.out, Some(x)) && SubGraph(t.graph, s.graph)
    ensures Decided(x, e, s.me, s.graph, alt) || (x == Drop(e.pkt, e.no) && !e.ackReq) ==> Resolved(s, t, e)
  {
    if Decided(x, e, s.me, s.graph, alt) {
      assert DecidedIn(x, e, s, t, s.graph, alt);
    }
    if Decided(x, e, s.me, s.graph, alt) || (x == Drop(e.pkt, e.no) && !e.ackReq) {
      assert Resolves(t.out[|t.out| - 1], e, s, t);
    }
  }

  /** The same packet for the same neighbour, perhaps sent again since. */
  predicate Same(x: Entry, y: Entry) {
    x.no == y.no && x.pkt == y.pkt && x.next == y.next && x.ackReq == y.ackReq
  }

  ghost predicate Holds(b: seq<Entry>, e: Entry) {
    exists k :: 0 <= k < |b| && Same(b[k], e)
  }

  /** Last of all `x` was output, or nothing. */
  ghost predicate Appended(before: seq<Output>, after: seq<Output>, x: Option<Output>) {
    if x.Some? then |after| > |before| && after[|after| - 1] == x.value else after == before
  }

  /** A packet that was buffered still is, or was salvaged or dropped, though not while it
      awaits the acknowledgement of a neighbour that is alive. */
  ghost predicate Accounted(s: Snap, t: Snap, e: Entry) {
    Holds(t.buf, e) || (Resolved(s, t, e) && Released(t, e))
  }

  predicate Released(t: Snap, e: Entry) {
    e.ackReq ==> e.next !in t.live
  }

  /** A packet buffered was so before, or was numbered since. */
  ghost predicate OldOrNew(s: Snap, e: Entry) {
    e.no < |s.hist| ==> Holds(s.buf, e)
  }

  /** Nothing is lost and nothing made up, no neighbour comes back to life, and numbers and
      outputs only grow. */
  ghost predicate Grown(s: Snap, t: Snap) {
    && t.live <= s.live && s.hist <= t.hist && s.out <= t.out
    && t.me == s.me && SubGraph(t.graph, s.graph)
    && (forall i {:trigger Accounted(s, t, s.buf[i])} :: 0 <= i < |s.buf| ==> Accounted(s, t, s.buf[i]))
    && (forall i {:trigger OldOrNew(s, t.buf[i])} :: 0 <= i < |t.buf| ==> OldOrNew(s, t.buf[i]))
  }

  ghost predicate Trimmed(s: Snap, t: Snap) {
    t.me == s.me && LostSome(s.graph, t.graph, s.me) && t.rtts == s.rtts
  }

  /** Moreover of no neighbour that died are entries left, no links but to and from lost
      neighbours are gone, and estimates stay. */
  ghost predicate Advanced(s: Snap, t: Snap) {
    t in Later(s)
  }

  ghost function Later(s: Snap): iset<Snap> {
    iset t | Grown(s, t) && Trimmed(s, t) && forall x {:trigger PurgedOf(s, t, x)} :: PurgedOf(s, t, x)
  }

  /** The same but for `n`. */
  ghost predicate AdvancedBut(s: Snap, t: Snap, n: Addr) {
    Grown(s, t) && Trimmed(s, t) && forall x {:trigger PurgedOf(s, t, x)} :: x != n ==> PurgedOf(s, t, x)
  }

  lemma DisposedLonger(a: seq<Output>, b: seq<Output>, c: seq<Output>, d: seq<Output>, no: nat)
    requires |a| <= |b| && c <= d && Disposed(b, c, no)
    ensures Disposed(a, d, no)
  {
    var i :| |b| <= i < |c| && Disposes(c[i], no);
    assert d[i] == c[i];
  }

  lemma GrownTwice(s: Snap, t: Snap, u: Snap)
    requires Grown(s, t) && Grown(t, u)
    ensures Grown(s, u)
  {
    forall i | 0 <= i < |s.buf| ensures Accounted(s, u, s.buf[i]) {
      var e := s.buf[i];
      assert Accounted(s, t, e);
      if Holds(t.buf, e) {
        var k :| 0 <= k < |t.buf| && Same(t.buf[k], e);
        assert Accounted(t, u, t.buf[k]);
        if Holds(u.buf, t.buf[k]) {
          var j :| 0 <= j < |u.buf| && Same(u.buf[j], t.buf[k]);
          assert Same(u.buf[j], e);
        } else {
          ResolvedLonger(s, t, u, u, t.buf[k], e);
        }
      } else {
        ResolvedLonger(s, s, t, u, e, e);
      }
    }
    forall i | 0 <= i < |u.buf| ensures OldOrNew(s, u.buf[i]) {
      var e := u.buf[i];
      assert OldOrNew(t, e);
      if e.no < |s.hist| {
        var k :| 0 <= k < |t.buf| && Same(t.buf[k], e);
        assert OldOrNew(s, t.buf[k]);
        var j :| 0 <= j < |s.buf| && Same(s.buf[j], t.buf[k]);
        assert Same(s.buf[j], e);
      }
    }
  }

  lemma AdvancedTwice(s: Snap, t: Snap, u: Snap)
    requires Advanced(s, t) && Advanced(t, u)
    ensures Advanced(s, u)
  {
    GrownTwice(s, t, u);
    LostMore(s.graph, t.graph, u.graph, s.me);
    forall x ensures PurgedOf(s, u, x) {
      assert PurgedOf(s, t, x) && PurgedOf(t, u, x);
    }
  }

  lemma AdvancedButTwice(s: Snap, t: Snap, u: Snap, n: Addr)
    requires AdvancedBut(s, t, n) && Advanced(t, u)
    ensures AdvancedBut(s, u, n)
    ensures NoneFor(u.buf, n) ==> Advanced(s, u)
  {
    GrownTwice(s, t, u);
    LostMore(s.graph, t.graph, u.graph, s.me);
    forall x | x != n ensures PurgedOf(s, u, x) {
      assert PurgedOf(s, t, x) && PurgedOf(t, u, x);
    }
  }

  lemma HoldsAt(b: seq<Entry>, i: nat)
    requires i < |b|
    ensures Holds(b, b[i])
  {
    assert Same(b[i], b[i]);
  }

  /** Steps that leave the entries as they are. */
  lemma AdvancedSame(s: Snap, t: Snap)
    requires t.buf == s.buf && t.live == s.live && s.hist <= t.hist && s.out <= t.out
    requires t.me == s.me && t.graph == s.graph && t.rtts == s.rtts
    ensures Advanced(s, t)
  {
    LostNone(s.graph, s.me);
    forall i | 0 <= i < |s.buf| ensures Accounted(s, t, s.buf[i]) && OldOrNew(s, t.buf[i]) {
      HoldsAt(s.buf, i);
    }
    assert Grown(s, t) && Trimmed(s, t);
    assert forall x :: PurgedOf(s, t, x);
  }

  /** An output that ends a step. */
  lemma ThenOutput(s: Snap, t: Snap, x: Output)
    requires Advanced(s, t)
    ensures var u := t.(out := t.out + [x]);
      && Advanced(s, u) && Appended(s.out, u.out, Some(x))
  {
    var u := t.(out := t.out + [x]);
    AdvancedSame(t, u);
    AdvancedTwice(s, t, u);
    assert u.out[|t.out|] == x;
  }

  /** Deleting a link concerns the entries of its neighbour only. */
  lemma AdvancedDelete(s: Snap, fewer: set<Addr>, n: Addr)
    requires fewer <= s.live && s.live <= fewer + {n}
    ensures AdvancedBut(s, s.(live := fewer, graph := DeleteLink(s.graph, s.me, n)), n)
  {
    forall i | 0 <= i < |s.buf| ensures Holds(s.buf, s.buf[i]) {
      HoldsAt(s.buf, i);
    }
    LostOne(s.graph, s.me, n);
    var t := s.(live := fewer, graph := DeleteLink(s.graph, s.me, n));
    assert forall i :: 0 <= i < |s.buf| ==> Accounted(s, t, s.buf[i]) && OldOrNew(s, t.buf[i]);
  }

  /** A packet buffered under a new number; of its neighbour more is said if it is alive. */
  lemma AdvancedAppend(s: Snap, m: Entry, x: Sent)
    requires m.no == |s.hist|
    ensures var t := s.(buf := s.buf + [m], hist := s.hist + [x]);
      && AdvancedBut(s, t, m.next)
      && (m.next in s.live ==> Advanced(s, t))
  {
    var t := s.(buf := s.buf + [m], hist := s.hist + [x]);
    LostNone(s.graph, s.me);
    forall i | 0 <= i < |t.buf| ensures OldOrNew(s, t.buf[i]) {
      if i < |s.buf| {
        HoldsAt(s.buf, i);
      }
    }
    forall i | 0 <= i < |s.buf| ensures Accounted(s, t, s.buf[i]) {
      assert t.buf[i] == s.buf[i];
      HoldsAt(t.buf, i);
    }
    forall y | y != m.next ensures PurgedOf(s, t, y) {
    }
  }

  /** A packet taken out and settled in what follows. */
  lemma AdvancedDetached(s: Snap, k: nat, t: Snap)
    requires k < |s.buf| && Advanced(s.(buf := Removed(s.buf, k)), t)
    requires Resolved(s.(buf := Removed(s.buf, k)), t, s.buf[k]) && Released(t, s.buf[k])
    ensures Advanced(s, t)
  {
    var r := s.(buf := Removed(s.buf, k));
    forall i | 0 <= i < |s.buf| ensures Accounted(s, t, s.buf[i]) {
      ResolvedLonger(s, r, t, t, s.buf[i], s.buf[i]);
      if i != k {
        var j := if i < k then i else i - 1;
        assert r.buf[j] == s.buf[i];
        assert Accounted(r, t, r.buf[j]);
      }
    }
    forall i | 0 <= i < |t.buf| ensures OldOrNew(s, t.buf[i]) {
      var e := t.buf[i];
      assert OldOrNew(r, e);
      if e.no < |s.hist| {
        var j :| 0 <= j < |r.buf| && Same(r.buf[j], e);
        assert r.buf[j] == s.buf[if j < k then j else j + 1];
      }
    }
    forall x ensures PurgedOf(s, t, x) {
      assert PurgedOf(r, t, x);
      if NoneFor(s.buf, x) {
        forall j | 0 <= j < |r.buf| ensures r.buf[j].next != x {
          assert r.buf[j] == s.buf[if j < k then j else j + 1];
        }
      }
    }
  }

  lemma MovedAt(b: seq<Entry>, k: nat, m: Entry, i: nat)
    requires k < |b| && i < |b|
    ensures Inserted(b[1..], k, m)[i] == if i == k then m else b[if i < k then i + 1 else i]
  {
  }

  /** The first packet moved to another place, with its number and contents. */
  lemma GrownRetried(s: Snap, k: nat, m: Entry, out: seq<Output>)
    requires k < |s.buf| && Same(m, s.buf[0]) && s.out <= out
    ensures Grown(s, s.(buf := Inserted(s.buf[1..], k, m), out := out))
  {
    var c := Inserted(s.buf[1..], k, m);
    var t := s.(buf := c, out := out);
    forall i | 0 <= i < |c| ensures OldOrNew(s, c[i]) {
      MovedAt(s.buf, k, m, i);
      assert Same(s.buf[if i < k then i + 1 else if i == k then 0 else i], c[i]);
    }
    forall j | 0 <= j < |s.buf| ensures Accounted(s, t, s.buf[j]) {
      var i := if j == 0 then k else if j - 1 < k then j - 1 else j;
      MovedAt(s.buf, k, m, i);
      assert Same(c[i], s.buf[j]);
    }
  }

  lemma AdvancedRetried(s: Snap, k: nat, m: Entry, out: seq<Output>)
    requires k < |s.buf| && Same(m, s.buf[0]) && s.out <= out
    ensures Advanced(s, s.(buf := Inserted(s.buf[1..], k, m), out := out))
  {
    var c := Inserted(s.buf[1..], k, m);
    var t := s.(buf := c, out := out);
    GrownRetried(s, k, m, out);
    LostNone(s.graph, s.me);
    forall x ensures PurgedOf(s, t, x) {
      if NoneFor(s.buf, x) {
        forall i | 0 <= i < |c| ensures c[i].next != x {
          MovedAt(s.buf, k, m, i);
          assert s.buf[if i < k then i + 1 else if i == k then 0 else i].next == c[i].next;
        }
      }
    }
  }

  /** What is buffered for `n` after a step has a number past `c`, if it had before. */
  ghost predicate NoneUpTo(b: seq<Entry>, n: Addr, c: nat) {
    forall i :: 0 <= i < |b| && b[i].next == n ==> b[i].no > c
  }

  lemma NoneUpToKept(s: Snap, t: Snap, n: Addr, c: nat)
    requires Grown(s, t) && c < |s.hist| && NoneUpTo(s.buf, n, c)
    ensures NoneUpTo(t.buf, n, c)
  {
    forall i | 0 <= i < |t.buf| && t.buf[i].next == n ensures t.buf[i].no > c {
      assert OldOrNew(s, t.buf[i]);
    }
  }

  lemma UpToGone(b: seq<Entry>, n: Addr, c: nat)
    ensures NoneUpTo(Filter((e: Entry) => !(e.next == n && e.no <= c), b), n, c)
  {
    var p := (e: Entry) => !(e.next == n && e.no <= c);
    FilterMeets(p, b);
    var f := Filter(p, b);
    forall i | 0 <= i < |f| && f[i].next == n ensures f[i].no > c {
      assert p(f[i]);
    }
  }

  lemma {:induction false} FilterMeets(p: Entry -> bool, b: seq<Entry>)
    ensures forall i :: 0 <= i < |Filter(p, b)| ==> p(Filter(p, b)[i])
  {
    if b != [] { FilterMeets(p, b[..|b| - 1]); }
  }

  /** What is buffered for `n` has a number from `count` on. */
  ghost predicate NewFor(b: seq<Entry>, n: Addr, count: nat) {
    forall i :: 0 <= i < |b| && b[i].next == n ==> b[i].no >= count
  }

  /** If nothing was buffered for `n`, what is now was numbered since. */
  lemma NewForDropped(s: Snap, t: Snap, n: Addr)
    requires Grown(s, t) && NoneFor(s.buf, n)
    ensures NewFor(t.buf, n, |s.hist|)
  {
    forall i | 0 <= i < |t.buf| && t.buf[i].next == n ensures t.buf[i].no >= |s.hist| {
      assert OldOrNew(s, t.buf[i]);
    }
  }

  /** A transmission that ends a step. */
  lemma ThenSent(s: Snap, t: Snap, x: Output)
    requires x.Xmit? && AdvancedBut(s, t, x.next)
    ensures var u := t.(out := t.out + [x]);
      && AdvancedBut(s, u, x.next) && (Advanced(s, t) ==> Advanced(s, u)) && Appended(s.out, u.out, Some(x))
  {
    var u := t.(out := t.out + [x]);
    AdvancedSame(t, u);
    AdvancedButTwice(s, t, u, x.next);
    if Advanced(s, t) {
      AdvancedTwice(s, t, u);
    }
  }

  /** A packet for a known neighbour is numbered, carries a request when the hold-off time is
      over, and if there was room is buffered, unless it was salvaged or dropped since. */
  ghost predicate Numbering(s: Snap, t: Snap, info: Neighbor, pkt: Packet, next: Addr, now: nat, request: Option<nat>,
                            holdoff: nat, cap: nat) {
    && request == (if now - info.lastReq > holdoff then Some(info.id) else None)
    && |t.hist| > |s.hist| && t.hist[|s.hist|] == Sent(next, request.Some?)
    && (|s.buf| < cap ==> Buffers(t.buf, |s.hist|, pkt, next) || Disposed(s.out, t.out, |s.hist|))
  }

  /** The transmission `x` to a known neighbour was numbered like that. */
  ghost predicate Renumbered(s: Snap, t: Snap, neigh: map<Addr, Neighbor>, x: Output, now: nat,
                             holdoff: nat, cap: nat) {
    x.Xmit? && x.next in neigh ==>
      && var info := neigh[x.next];
      && var request := if now - info.lastReq > holdoff then Some(info.id) else None;
      && Numbering(s, t, info, x.pkt, x.next, now, request, holdoff, cap)
  }

  lemma RenumberedKept(s: Snap, t: Snap, neigh: map<Addr, Neighbor>, x: Output, now: nat, holdoff: nat, cap: nat)
    ensures Renumbered(s, t, neigh, x, now, holdoff, cap) ==>
            Renumbered(s, t.(out := t.out + [x]), neigh, x, now, holdoff, cap)
  {
    if Renumbered(s, t, neigh, x, now, holdoff, cap) && x.Xmit? && x.next in neigh {
      var info := neigh[x.next];
      var request := if now - info.lastReq > holdoff then Some(info.id) else None;
      NumberingKept(s, t, x, info, now, request, holdoff, cap);
    }
  }

  ghost predicate Buffers(b: seq<Entry>, no: nat, pkt: Packet, next: Addr) {
    exists k :: 0 <= k < |b| && b[k].no == no && b[k].pkt == pkt && b[k].next == next
  }

  lemma NumberingKept(s: Snap, t: Snap, x: Output, info: Neighbor, now: nat, request: Option<nat>,
                      holdoff: nat, cap: nat)
    requires x.Xmit? && Numbering(s, t, info, x.pkt, x.next, now, request, holdoff, cap)
    ensures Numbering(s, t.(out := t.out + [x]), info, x.pkt, x.next, now, request, holdoff, cap)
  {
    var u := t.(out := t.out + [x]);
    if Disposed(s.out, t.out, |s.hist|) {
      DisposedLonger(s.out, s.out, t.out, u.out, |s.hist|);
    }
  }

  /** The last retransmission allowed is due, and an acknowledgement was asked for. */
  predicate Exhausted(e: Entry, max: nat) {
    e.ackReq && e.rexmt + 1 >= max
  }

  // ------------------------------------------------------------ effects on the contents

  lemma EntryGone(b: seq<Entry>, neigh: map<Addr, Neighbor>, h: seq<Sent>, cap: nat, max: nat, live: set<Addr>, k: nat)
    requires Good(b, neigh, h, cap, max) && k < |b|
    ensures Good(Removed(b, k), neigh, h, cap, max)
    ensures Total(b, max, live) == Total(Removed(b, k), max, live) + Weight(b[k], max, live)
  {
    var c := Removed(b, k);
    RemovedOk(b, k, h);
    TotalRemoved(b, k, max, live);
    forall i | 0 <= i < |c| ensures c[i].rexmt == 0 || c[i].rexmt < max {
      assert c[i] == b[if i < k then i else i + 1];
    }
  }

  lemma FirstRetried(b: seq<Entry>, neigh: map<Addr, Neighbor>, h: seq<Sent>, cap: nat, max: nat,
                     live: set<Addr>, k: nat, m: Entry)
    requires Good(b, neigh, h, cap, max) && k < |b|
    requires m == b[0].(rexmt := b[0].rexmt + 1, tx := m.tx) && m.rexmt < max
    ensures Good(Inserted(b[1..], k, m), neigh, h, cap, max)
    ensures Total(Inserted(b[1..], k, m), max, live) < Total(b, max, live)
  {
    var c := Inserted(b[1..], k, m);
    ReinsertedOk(b, k, m, h);
    assert Removed(b, 0) == b[1..];
    TotalRemoved(b, 0, max, live);
    TotalInserted(b[1..], k, m, max, live);
    RetriedIsLighter(b[0], m, max, live);
    forall i | 0 <= i < |c| ensures c[i].rexmt == 0 || c[i].rexmt < max {
      MovedAt(b, k, m, i);
    }
  }

  /** A packet is numbered, and buffered if there is room. */
  lemma PacketAdded(b: seq<Entry>, neigh: map<Addr, Neighbor>, h: seq<Sent>, cap: nat, max: nat, m: Entry, n': Neighbor)
    requires Good(b, neigh, h, cap, max) && m.next in neigh
    requires m.rexmt == 0 && m.no == |h| && m.id == neigh[m.next].id
    requires n'.id == if m.ackReq then (m.id + 1) % U16 else m.id
    ensures var h', neigh' := h + [Sent(m.next, m.ackReq)], neigh[m.next := n'];
      && Good(b, neigh', h', cap, max)
      && (|b| < cap ==> Good(b + [m], neigh', h', cap, max))
  {
    var x := Sent(m.next, m.ackReq);
    assert NumberOk(neigh, h, m.next);
    assert (h + [x])[..|h|] == h && (h + [x])[|h|] == x;
    assert EntryOk(m, h + [x]);
    GrownNumbered(b, h, x);
    AppendedOk(b, m, h, x);
    NumbersAdded(neigh, h, m, n');
  }

  lemma NumbersAdded(neigh: map<Addr, Neighbor>, h: seq<Sent>, m: Entry, n': Neighbor)
    requires m.next in neigh && m.id == neigh[m.next].id && n'.id == if m.ackReq then (m.id + 1) % U16 else m.id
    requires forall n :: NumberOk(neigh, h, n)
    ensures var neigh', h' := neigh[m.next := n'], h + [Sent(m.next, m.ackReq)]; forall n :: NumberOk(neigh', h', n)
  {
    var x, neigh' := Sent(m.next, m.ackReq), neigh[m.next := n'];
    forall n ensures NumberOk(neigh', h + [x], n) {
      assert NumberOk(neigh, h, n);
      CounterSnoc(h, x, n);
    }
  }

  /** What Add does to the measure. */
  lemma AddedWork(b: seq<Entry>, m: Entry, max: nat, live: set<Addr>)
    requires m.rexmt == 0
    ensures Total(b + [m], max, live) == Total(b, max, live) + NewWeight(m.next, max, live)
  {
    TotalAppend(b, m, max, live);
  }

  ghost function NewWeight(n: Addr, max: nat, live: set<Addr>): nat {
    max + Lives(max, |live| + if n in live then 0 else 1) + 1
  }

  /** What deleting a link does to the neighbours alive and the measure. */
  lemma LinkLost(n: Addr, s: Snap, max: nat)
    requires s.live == LiveOf(s.graph, s.me)
    ensures var g := DeleteLink(s.graph, s.me, n);
      && var fewer := LiveOf(g, s.me);
      && n !in fewer && AdvancedBut(s, s.(live := fewer, graph := g), n)
      && Total(s.buf, max, fewer) <= Total(s.buf, max, s.live)
  {
    var fewer := LiveOf(DeleteLink(s.graph, s.me, n), s.me);
    LiveAfterDelete(s.graph, s.me, n);
    AdvancedDelete(s, fewer, n);
    TotalShrinks(s.buf, max, s.live, fewer);
  }

  lemma ShortAfterDelete(g: Graph, me: Addr, a: Addr, b: Addr)
    ensures Short(g, me) ==> Short(DeleteLink(g, a, b), me) && Fits(DeleteLink(g, a, b), me)
  {
    if Short(g, me) {
      ShortBelow(g, DeleteLink(g, a, b), me);
      ShortFits(DeleteLink(g, a, b), me);
    }
  }

  lemma ShortAfterLoss(g: Graph, h: Graph, me: Addr)
    ensures Short(g, me) && LostSome(g, h, me) ==> Short(h, me)
  {
    if Short(g, me) && LostSome(g, h, me) {
      ShortBelow(g, h, me);
    }
  }

  /** Forgetting a link leaves the entries alone. */
  lemma GrownForgets(s: Snap, t: Snap, a: Addr, b: Addr)
    requires Grown(s, t) && t.live == LiveOf(t.graph, t.me)
    ensures var g := DeleteLink(t.graph, a, b); Grown(s, t.(graph := g, live := LiveOf(g, t.me)))
  {
    var g := DeleteLink(t.graph, a, b);
    var u := t.(graph := g, live := LiveOf(g, t.me));
    assert u.live <= t.live;
    forall i | 0 <= i < |s.buf| ensures Accounted(s, u, s.buf[i]) {
      assert Accounted(s, t, s.buf[i]);
      ResolvedLonger(s, s, t, u, s.buf[i], s.buf[i]);
    }
    forall i | 0 <= i < |u.buf| ensures OldOrNew(s, u.buf[i]) {
      assert OldOrNew(s, t.buf[i]);
    }
  }

  /** What a search may answer. */
  ghost function Answers(g: Graph, me: Addr, t: Addr): iset<Option<Route>> {
    iset r | RouteAnswer(g, me, t, r)
  }

  /** What is needed of an alternative route: its segments left fit their field, and its first
      hop is a live neighbour. */
  ghost predicate Usable(alt: Option<Route>, me: Addr, dst: Addr, live: set<Addr>) {
    alt.Some? ==>
      && alt.value.src == me && alt.value.dst == dst
      && |alt.value.addrs| < SLEFT_MOD && NextHop(alt.value, |alt.value.addrs|) in live
  }

  lemma AnswerUsable(g: Graph, me: Addr, dst: Addr, alt: Option<Route>)
    ensures RouteAnswer(g, me, dst, alt) && Fits(g, me) ==> Usable(alt, me, dst, LiveOf(g, me))
  {
    if RouteAnswer(g, me, dst, alt) && alt.Some? && Fits(g, me) {
      FitsAnswer(g, me, dst, alt.value);
      FirstHopLive(g, me, dst, alt.value);
    }
  }

  /** The place of a packet among those that expire: behind all that expire no later. */
  method Place(b: seq<Entry>, expires: nat) returns (k: nat)
    ensures k <= |b| && (k < |b| ==> b[k].Expires() > expires)
    ensures forall i :: 0 <= i < k ==> b[i].Expires() <= expires
  {
    k := 0;
    while k < |b| && b[k].Expires() <= expires
      invariant k <= |b| && forall i :: 0 <= i < k ==> b[i].Expires() <= expires
    {
      k := k + 1;
    }
  }

  /** The first packet, sent again at `now`, is at place `k` of the others by its expiry. */
  ghost predicate MovedBehind(b: seq<Entry>, c: seq<Entry>, now: nat, k: nat)
    requires b != []
  {
    var m, rest := b[0].(rexmt := b[0].rexmt + 1, tx := now), b[1..];
    && k <= |rest| && c == Inserted(rest, k, m)
    && (forall i :: 0 <= i < k ==> rest[i].Expires() <= m.Expires())
    && (k < |rest| ==> rest[k].Expires() > m.Expires())
  }

  method MoveBehind(b: seq<Entry>, now: nat) returns (m: Entry, c: seq<Entry>, ghost k: nat)
    requires b != []
    ensures m == b[0].(rexmt := b[0].rexmt + 1, tx := now)
    ensures k < |b| && c == Inserted(b[1..], k, m) && MovedBehind(b, c, now, k)
  {
    m := b[0].(rexmt := b[0].rexmt + 1, tx := now);
    var rest := b[1..];
    var i := Place(rest, m.Expires());
    k := i;
    c := rest[..i] + [m] + rest[i..];
  }

  // ------------------------------------------------------------ deleting

  lemma {:induction false} FilterShorter(p: Entry -> bool, b: seq<Entry>)
    ensures |Filter(p, b)| <= |b|
  {
    if b != [] { FilterShorter(p, b[..|b| - 1]); }
  }

  lemma FilterGood(p: Entry -> bool, b: seq<Entry>, neigh: map<Addr, Neighbor>, h: seq<Sent>, cap: nat, max: nat)
    requires Good(b, neigh, h, cap, max)
    ensures Good(Filter(p, b), neigh, h, cap, max)
    ensures forall e :: e in Filter(p, b) <==> e in b && p(e)
  {
    FilterOk(p, b, h);
    FilterShorter(p, b);
    var f := Filter(p, b);
    forall i | 0 <= i < |f| ensures f[i].rexmt == 0 || f[i].rexmt < max {
      assert f[i] in b;
    }
  }

  /** __tbl_for_each_del with crit_addr_id_del */
  method DeleteAcked(b: seq<Entry>, n: Addr, id: nat, now: nat) returns (kept: seq<Entry>, rtt: int, count: nat)
    ensures kept == Unacked(b, n, id) && rtt == Sample(b, n, id, now) && count == |b| - |kept|
  {
    kept, rtt, count := [], 0, 0;
    for i := 0 to |b|
      invariant kept == Unacked(b[..i], n, id) && rtt == Sample(b[..i], n, id, now) && count == i - |kept|
    {
      var m := b[i];
      assert b[..i + 1][..i] == b[..i];
      if m.next == n && m.id <= id {
        if m.id == id && m.rexmt == 0 {
          rtt := now - m.tx;
        }
        count := count + 1;
      } else {
        kept := kept + [m];
      }
    }
    assert b[..|b|] == b;
  }

  /** The packets that do not wait for `n`. */
  function NotFor(b: seq<Entry>, n: Addr): seq<Entry> {
    Filter((e: Entry) => e.next != n, b)
  }

  lemma NotForGood(b: seq<Entry>, n: Addr, neigh: map<Addr, Neighbor>, h: seq<Sent>, cap: nat, max: nat)
    requires Good(b, neigh, h, cap, max)
    ensures Good(NotFor(b, n), neigh, h, cap, max) && NoneFor(NotFor(b, n), n)
  {
    FilterGood((e: Entry) => e.next != n, b, neigh, h, cap, max);
    FilterMeets((e: Entry) => e.next != n, b);
  }

  /** __tbl_for_each_del with crit_addr_del */
  method DeleteFor(b: seq<Entry>, n: Addr) returns (kept: seq<Entry>)
    ensures kept == NotFor(b, n)
  {
    kept := [];
    for i := 0 to |b|
      invariant kept == NotFor(b[..i], n)
    {
      assert b[..i + 1][..i] == b[..i];
      if b[i].next != n {
        kept := kept + [b[i]];
      }
    }
    assert b[..|b|] == b;
  }

  // ------------------------------------------------------------ salvaging

  /** The word the program takes for the first hop of the packet's old route. */
  function FirstWord(pkt: Packet): Addr
    requires pkt.srt.Some?
  {
    if pkt.srt.value == [] then pkt.stray else pkt.srt.value[0]
  }

  /** The old route up to `me`, nothing when `me` is not an intermediate hop. */
  function ToMe(me: Addr, pkt: Packet): Option<Route>
    requires pkt.srt.Some?
  {
    Split(Route(pkt.src, pkt.dst, pkt.srt.value), me)
  }

  /** The route a packet goes on with at `me` when its next hop `broken` is lost and `alt` is the
      alternative: `alt` itself at the source, otherwise the old route up to `me` and then `alt`. */
  function NewRoute(me: Addr, pkt: Packet, broken: Addr, alt: Route): Option<Route> {
    if pkt.srt.None? then None
    else if FirstWord(pkt) == broken then Some(alt)
    else if ToMe(me, pkt).None? then None
    else Some(Concatenate(ToMe(me, pkt).value, alt))
  }

  /** The packet can be salvaged: there is a new route, and it is loop free. */
  ghost predicate Salvageable(me: Addr, pkt: Packet, broken: Addr, alt: Route) {
    NewRoute(me, pkt, broken, alt).Some? && NewRoute(me, pkt, broken, alt).value.LoopFree()
  }

  /** The path `p` is the way the packet came to `me` and then the alternative; at the source, where
      the lost neighbour is the first hop, the alternative alone. */
  ghost predicate Detour(p: seq<Addr>, me: Addr, pkt: Packet, broken: Addr, alt: Route) {
    && pkt.srt.Some?
    && if FirstWord(pkt) == broken then p == alt.Path()
       else exists i :: DetourAt(p, me, pkt, alt, i)
  }

  /** `me` is first on the old route at `i`. */
  ghost predicate DetourAt(p: seq<Addr>, me: Addr, pkt: Packet, alt: Route, i: nat)
    requires pkt.srt.Some?
  {
    var hops := pkt.srt.value;
    i < |hops| && hops[i] == me && me !in hops[..i] && p == [pkt.src] + hops[..i] + alt.Path()
  }

  lemma NewRoutePath(me: Addr, pkt: Packet, broken: Addr, alt: Route)
    requires alt.src == me && NewRoute(me, pkt, broken, alt).Some?
    ensures Detour(NewRoute(me, pkt, broken, alt).value.Path(), me, pkt, broken, alt)
  {
    if FirstWord(pkt) != broken {
      var i := |ToMe(me, pkt).value.addrs|;
      var was, hops := Route(pkt.src, pkt.dst, pkt.srt.value), pkt.srt.value;
      var toMe := ToMe(me, pkt).value;
      assert toMe.Path() == was.Path()[..i + 2];
      assert forall k :: 0 <= k < i ==> toMe.addrs[k] == toMe.Path()[k + 1] == hops[k];
      assert toMe.addrs == hops[..i] && hops[i] == was.Path()[i + 1] == me;
      assert DetourAt(NewRoute(me, pkt, broken, alt).value.Path(), me, pkt, alt, i);
    }
  }

  /** What is left of the new route from `me` on is the alternative. */
  lemma NewRouteRest(me: Addr, pkt: Packet, broken: Addr, alt: Route)
    requires alt.src == me && alt.dst == pkt.dst && NewRoute(me, pkt, broken, alt).Some?
    ensures var srt := NewRoute(me, pkt, broken, alt).value;
      && |alt.addrs| <= |srt.addrs| && srt.dst == pkt.dst
      && Remaining(srt, |alt.addrs|) == alt.Path()[1..]
      && NextHop(srt, |alt.addrs|) == NextHop(alt, |alt.addrs|)
  {
  }

  /** The new route and the segments left on it, exactly if the packet can be salvaged. */
  method Reroute(me: Addr, pkt: Packet, broken: Addr, alt: Route) returns (r: Option<(Route, nat)>)
    requires alt.src == me && alt.dst == pkt.dst
    ensures r.Some? <==> Salvageable(me, pkt, broken, alt)
    ensures r.Some? ==> Some(r.value.0) == NewRoute(me, pkt, broken, alt) && r.value.1 == |alt.addrs|
  {
    if pkt.srt.None? {
      return None;
    }
    var addrs := pkt.srt.value;
    var first := if addrs == [] then pkt.stray else addrs[0];
    var srt, sleft := alt, |alt.addrs|;
    if first != broken {
      var toMe := NewSplit(Route(pkt.src, pkt.dst, addrs), me);
      if toMe.None? {
        return None;
      }
      srt := Concatenate(toMe.value, alt);
      sleft := |srt.addrs| - |toMe.value.addrs| - 1;
    }
    var dup := CheckDuplicate(srt);
    if dup {
      return None;
    }
    r := Some((srt, sleft));
  }

  /** The route, the segments left as they fit their field, and the next hop.  It is the first
      one of the alternative exactly when the alternative has at most 63 addresses. */
  method Onward(me: Addr, pkt: Packet, broken: Addr, alt: Route) returns (next: Addr, route: Option<Route>, sleft: nat)
    requires alt.src == me && alt.dst == pkt.dst
    ensures route.Some? <==> Salvageable(me, pkt, broken, alt)
    ensures route.Some? ==>
      && route == NewRoute(me, pkt, broken, alt) && |alt.addrs| <= |route.value.addrs|
      && Remaining(route.value, |alt.addrs|) == alt.Path()[1..]
      && sleft == |alt.addrs| % SLEFT_MOD && next == NextHop(route.value, sleft)
      && (next == NextHop(alt, |alt.addrs|) <==> |alt.addrs| <= 63)
  {
    next, route, sleft := me, None, 0;
    var r := Reroute(me, pkt, broken, alt);
    if r.Some? {
      route, sleft := Some(r.value.0), r.value.1 % SLEFT_MOD;
      NewRouteRest(me, pkt, broken, alt);
      next := NextHop(route.value, sleft);
      TruncatedHop(route.value, alt);
    }
  }

  /** A transmission on a loop-free route to the packet's destination, to the hop its segments
      left say, which is alive. */
  ghost predicate Routed(x: Output, pkt: Packet, no: nat, live: set<Addr>) {
    && x.Xmit? && x.pkt == pkt && x.salvaged == Some(no) && x.next in live
    && x.route.LoopFree() && x.route.dst == pkt.dst
    && x.sleft <= |x.route.addrs| && x.next == NextHop(x.route, x.sleft)
  }

  /** The transmission is on the detour over `alt`, with the alternative left to travel. */
  ghost predicate Rerouted(x: Output, me: Addr, pkt: Packet, broken: Addr, alt: Option<Route>) {
    && x.Xmit? && alt.Some? && x.sleft == |alt.value.addrs|
    && Detour(x.route.Path(), me, pkt, broken, alt.value)
  }

  /** There is an alternative, and with it the packet can be salvaged. */
  ghost predicate Saved(me: Addr, pkt: Packet, broken: Addr, alt: Option<Route>) {
    alt.Some? && Salvageable(me, pkt, broken, alt.value)
  }

  /** The transmission of a salvaged packet, exactly if it can be salvaged. */
  method Leave(ghost live: set<Addr>, me: Addr, pkt: Packet, no: nat, broken: Addr, alt: Option<Route>)
    returns (x: Option<Output>)
    requires Usable(alt, me, pkt.dst, live)
    ensures x.Some? <==> Saved(me, pkt, broken, alt)
    ensures x.Some? ==> Routed(x.value, pkt, no, live) && Rerouted(x.value, me, pkt, broken, alt)
  {
    if alt.None? {
      return None;
    }
    var next, route, sleft := Onward(me, pkt, broken, alt.value);
    if route.None? {
      return None;
    }
    NewRouteRest(me, pkt, broken, alt.value);
    NewRoutePath(me, pkt, broken, alt.value);
    x := Some(Xmit(pkt, route.value, sleft, next, Some(no)));
  }

  // ------------------------------------------------------------ salvaging without end

  /** Over the links `g`, with the neighbour `broken` lost, the packet is sent to `next`. */
  ghost predicate Resends(g: Graph, me: Addr, pkt: Packet, broken: Addr, next: Addr) {
    exists alt :: ResendsOn(g, me, pkt, broken, next, alt)
  }

  ghost predicate ResendsOn(g: Graph, me: Addr, pkt: Packet, broken: Addr, next: Addr, alt: Route) {
    && RouteAnswer(g, me, pkt.dst, Some(alt)) && Salvageable(me, pkt, broken, alt)
    && next == NextHop(NewRoute(me, pkt, broken, alt).value, |alt.addrs| % SLEFT_MOD)
  }

  /** For a packet from `src` that came to `me` and goes to `alt.dst`, an alternative of 64
      addresses is taken, and its next hop is the destination. */
  lemma LongAlternative(src: Addr, stray: Addr, alt: Route)
    requires alt.LoopFree() && |alt.addrs| == SLEFT_MOD && src !in alt.Path()
    ensures var pkt := Packet(src, alt.dst, Some([alt.src]), 0, stray);
      && Salvageable(alt.src, pkt, alt.dst, alt)
      && NextHop(NewRoute(alt.src, pkt, alt.dst, alt).value, |alt.addrs| % SLEFT_MOD) == alt.dst
  {
    var me, pkt := alt.src, Packet(src, alt.dst, Some([alt.src]), 0, stray);
    assert alt.Path()[0] != alt.Path()[|alt.addrs| + 1];
    var toMe := ToMe(me, pkt);
    assert toMe == Some(Route(src, me, []));
    var srt := Concatenate(toMe.value, alt);
    assert srt.Path() == [src] + alt.Path();
    forall i, j | 0 <= i < j < |srt.Path()| ensures srt.Path()[i] != srt.Path()[j] {
      if i == 0 {
        assert srt.Path()[j] == alt.Path()[j - 1] && alt.Path()[j - 1] in alt.Path();
      } else {
        assert alt.Path()[i - 1] != alt.Path()[j - 1];
      }
    }
  }

  /** Over a chain of 66 nodes a packet from elsewhere for the last one goes to the last one. */
  lemma ChainResends(g: Graph, p: seq<Addr>, src: Addr, stray: Addr, next: Addr)
    requires IsPath(g, p) && Distinct(p) && |p| == SLEFT_MOD + 2 && src !in p
    ensures var me, lost := p[0], p[|p| - 1];
      Resends(Chain(g, p), me, Packet(src, lost, Some([me]), 0, stray), lost, next) <==> next == lost
  {
    var h, me, lost, alt := Chain(g, p), p[0], p[|p| - 1], OfPath(p);
    var pkt := Packet(src, lost, Some([me]), 0, stray);
    ChainAnswer(g, p);
    assert alt.Path() == p;
    LongAlternative(src, stray, alt);
    assert ResendsOn(h, me, pkt, lost, lost, alt);
    if Resends(h, me, pkt, lost, next) {
      var r :| ResendsOn(h, me, pkt, lost, next, r);
      ChainAnswers(g, p, Some(r));
    }
  }

  /** Salvaging without end.  On a row of 66 nodes, the first of which lost the link to the last,
      a packet for the last one is sent to it again, whatever the search answers, and losing the
      neighbour once more changes nothing. */
  lemma SalvagedAgain(n: nat, src: Addr, stray: Addr)
    requires n == 66 && src !in Row(n)
    ensures IsPath(RowGraph(n), Row(n))
    ensures var g, me, lost := Chain(RowGraph(n), Row(n)), Row(n)[0], Row(n)[n - 1];
      && var pkt := Packet(src, lost, Some([me]), 0, stray);
      && DeleteLink(g, me, lost) == g
      && forall next :: Resends(g, me, pkt, lost, next) <==> next == lost
  {
    RowIsPath(n);
    LostAgain(n);
    var p := Row(n);
    var g, me, lost := Chain(RowGraph(n), p), p[0], p[n - 1];
    var pkt := Packet(src, lost, Some([me]), 0, stray);
    forall next ensures Resends(g, me, pkt, lost, next) <==> next == lost {
      ChainResends(RowGraph(n), p, src, stray, next);
    }
  }
}
