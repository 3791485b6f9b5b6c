/** When the acknowledgement timer of the maintenance buffer (maint-buf.c) goes off: at the
    expiry of the first packet that carries a request, and what can put it off. */
module MaintTimer {
  import opened Routes
  import opened MaintEntries
  import opened MaintState

  /** The packet has waited longer than its time-out. */
  predicate Due(e: Entry, now: nat) {
    now - e.tx > e.rto
  }

  /** The first packet that carries a request, or the length. */
  function FirstRequest(b: seq<Entry>): (k: nat)
    ensures k <= |b| && (k < |b| ==> b[k].ackReq)
    ensures forall i :: 0 <= i < k ==> !b[i].ackReq
  {
    if b == [] || b[0].ackReq then 0 else 1 + FirstRequest(b[1..])
  }

  /** The timer runs if an acknowledgement is awaited, and goes off when the first packet that
      awaits one expires, unless that packet is due already. */
  ghost predicate Armed(b: seq<Entry>, timer: Option<nat>, now: nat) {
    var k := FirstRequest(b);
    k < |b| ==> timer.Some? && (Due(b[k], now) || timer == Some(b[k].Expires()))
  }

  /** The timer is the expiry of the first packet that awaits an acknowledgement, which is not
      due yet. */
  ghost predicate OnTime(b: seq<Entry>, timer: Option<nat>, now: nat) {
    var k := FirstRequest(b);
    k < |b| ==> timer == Some(b[k].Expires()) && !Due(b[k], now)
  }

  /** Exactly so, unless the first packet is due. */
  lemma OnTimeIff(b: seq<Entry>, timer: Option<nat>, now: nat)
    requires Armed(b, timer, now)
    ensures var k := FirstRequest(b); OnTime(b, timer, now) <==> (k < |b| ==> !Due(b[k], now))
  {
  }

  lemma ArmedLater(b: seq<Entry>, timer: Option<nat>, now: nat, later: nat)
    requires Armed(b, timer, now) && now <= later
    ensures Armed(b, timer, later)
  {
  }

  // ------------------------------------------------------------ packets due in order

  /** No packet that is due is behind one that is not. */
  ghost predicate DueFirst(b: seq<Entry>, now: nat) {
    forall i, j {:trigger Due(b[i], now), Due(b[j], now)} :: 0 <= i < j < |b| && Due(b[j], now) ==> Due(b[i], now)
  }

  /** No packet that awaits an acknowledgement is due. */
  ghost predicate NoneDue(b: seq<Entry>, now: nat) {
    forall i {:trigger Due(b[i], now)} :: 0 <= i < |b| && b[i].ackReq ==> !Due(b[i], now)
  }

  /** Packets are due in order, and if the timer runs none is that awaits an acknowledgement. */
  ghost predicate InTime(b: seq<Entry>, timer: Option<nat>, now: nat) {
    DueFirst(b, now) && (timer.Some? ==> NoneDue(b, now))
  }

  ghost function Steady(now: nat): iset<(seq<Entry>, Option<nat>)> {
    iset x: (seq<Entry>, Option<nat>) | InTime(x.0, x.1, now)
  }

  lemma SteadyOnTime(b: seq<Entry>, timer: Option<nat>, now: nat)
    requires Armed(b, timer, now)
    ensures (b, timer) in Steady(now) ==> OnTime(b, timer, now)
  {
  }

  ghost predicate ByExpiry(b: seq<Entry>) {
    forall i, j :: 0 <= i < j < |b| ==> b[i].Expires() <= b[j].Expires()
  }

  /** Packets are due in order at all times exactly when they are in the order of expiry. */
  lemma DueFirstAlways(b: seq<Entry>)
    ensures (forall now :: DueFirst(b, now)) <==> ByExpiry(b)
  {
    if !ByExpiry(b) {
      var i, j :| 0 <= i < j < |b| && b[i].Expires() > b[j].Expires();
      assert Due(b[j], b[i].Expires()) && !Due(b[i], b[i].Expires());
      assert !DueFirst(b, b[i].Expires());
    }
  }

  /** With one time-out for all, packets in the order they were sent are in the order of expiry. */
  lemma OneTimeOut(b: seq<Entry>, rto: nat)
    requires forall i :: 0 <= i < |b| ==> b[i].rto == rto
    requires forall i, j :: 0 <= i < j < |b| ==> b[i].tx <= b[j].tx
    ensures ByExpiry(b)
  {
  }

  // ------------------------------------------------------------ what keeps the order

  lemma RemovedSteady(b: seq<Entry>, timer: Option<nat>, k: nat, now: nat)
    requires k < |b|
    ensures (b, timer) in Steady(now) ==> (Removed(b, k), timer) in Steady(now)
  {
    if InTime(b, timer, now) {
      var c := Removed(b, k);
      forall i, j | 0 <= i < j < |c| && Due(c[j], now) ensures Due(c[i], now) {
        var i', j' := if i < k then i else i + 1, if j < k then j else j + 1;
        assert c[i] == b[i'] && c[j] == b[j'];
      }
      assert timer.Some? ==> NoneDue(c, now);
    }
  }

  lemma AppendedSteady(b: seq<Entry>, timer: Option<nat>, m: Entry, now: nat)
    requires m.tx == now
    ensures (b, timer) in Steady(now) ==> (b + [m], timer) in Steady(now)
  {
  }

  /** A packet sent again goes behind all that are due. */
  lemma MovedSteady(b: seq<Entry>, c: seq<Entry>, now: nat, k: nat)
    requires b != [] && MovedBehind(b, c, now, k)
    ensures (b, None) in Steady(now) ==> (c, None) in Steady(now)
  {
    if DueFirst(b, now) {
      var m := b[0].(rexmt := b[0].rexmt + 1, tx := now);
      forall i, j | 0 <= i < j < |c| && Due(c[j], now) ensures Due(c[i], now) {
        MovedAt(b, k, m, i);
        MovedAt(b, k, m, j);
        if j > k {
          NotDueBehind(b, m, now, k, j);
        }
      }
    }
  }

  /** What expires later than a packet sent just now is not due, and nothing behind it is. */
  lemma NotDueBehind(b: seq<Entry>, m: Entry, now: nat, k: nat, j: nat)
    requires k + 1 < |b| && k < j < |b| && m.tx == now && b[k + 1].Expires() > m.Expires() && DueFirst(b, now)
    ensures !Due(b[j], now)
  {
    assert !Due(b[k + 1], now);
  }

  /** If the first request is not due, none is. */
  lemma SetSteady(b: seq<Entry>, was: Option<nat>, timer: nat, now: nat)
    requires FirstRequest(b) < |b| && !Due(b[FirstRequest(b)], now)
    ensures (b, was) in Steady(now) ==> (b, Some(timer)) in Steady(now)
  {
    if DueFirst(b, now) {
      var k := FirstRequest(b);
      forall i | 0 <= i < |b| && b[i].ackReq ensures !Due(b[i], now) {
        assert i < k || i == k || k < i;
      }
      assert InTime(b, Some(timer), now);
    }
  }

  /** The first packet that awaits an acknowledgement is due. */
  predicate FirstDue(b: seq<Entry>, now: nat) {
    FirstRequest(b) < |b| && Due(b[FirstRequest(b)], now)
  }

  /** Setting the timer does nothing to the packets: it runs already, or nothing is due. */
  predicate Undisturbed(b: seq<Entry>, timer: Option<nat>, now: nat) {
    timer.Some? || !FirstDue(b, now)
  }

  lemma AppendedDue(b: seq<Entry>, m: Entry, now: nat)
    requires m.tx == now
    ensures FirstDue(b + [m], now) <==> FirstDue(b, now)
  {
    var c, j, k := b + [m], FirstRequest(b), FirstRequest(b + [m]);
    assert forall i :: 0 <= i < |b| ==> c[i] == b[i];
    assert k < |b| ==> c[k] == b[k];
    assert j < |b| ==> c[j] == b[j];
    assert k == j || (j == |b| && k >= |b|);
  }

  lemma FilteredSteady(p: Entry -> bool, b: seq<Entry>, now: nat)
    ensures DueFirst(b, now) ==> (Filter(p, b), None) in Steady(now)
  {
    if DueFirst(b, now) {
      FilterSteady(p, b, now);
    }
  }

  lemma {:induction false} FilterSteady(p: Entry -> bool, b: seq<Entry>, now: nat)
    requires DueFirst(b, now)
    ensures DueFirst(Filter(p, b), now)
    ensures forall e :: e in Filter(p, b) ==> e in b
  {
    if b != [] {
      var init, last := b[..|b| - 1], b[|b| - 1];
      FilterSteady(p, init, now);
      var f := Filter(p, init);
      forall i | 0 <= i < |f| && Due(last, now) ensures Due(f[i], now) {
        assert f[i] in init;
        var k :| 0 <= k < |init| && init[k] == f[i];
        assert b[k] == f[i];
      }
    }
  }
}
