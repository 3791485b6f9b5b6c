/** The contents of the maintenance buffer (maint-buf.c): the order its entries keep, what
    an acknowledgement removes, and a measure for the work still to come. */
module MaintEntries {
  import opened Routes
  import opened Acks

  /** A packet as it was received: `srt` is absent when it carries no source route, and
      `stray` is what lies behind the addresses of an empty one. */
  datatype Packet = Packet(src: Addr, dst: Addr, srt: Option<seq<Addr>>, salv: nat, stray: Addr)

  /** `no` says which packet given to the buffer the entry holds. */
  datatype Entry = Entry(next: Addr, rexmt: nat, id: nat, tx: nat, rto: nat, ackReq: bool, pkt: Packet, no: nat) {
    function Expires(): nat { tx + rto }
  }

  // ------------------------------------------------------------ order

  ghost predicate EntryOk(e: Entry, h: seq<Sent>) {
    e.no < |h| && h[e.no] == Sent(e.next, e.ackReq) && e.id == Id(h, e.no)
  }

  ghost predicate Numbered(b: seq<Entry>, h: seq<Sent>) {
    forall i {:trigger EntryOk(b[i], h)} :: 0 <= i < |b| ==> EntryOk(b[i], h)
  }

  /** Between an entry and a later one: those sent only once are in the order of their
      numbers, and every one sent again has a smaller number than they. */
  ghost predicate Pair(x: Entry, y: Entry) {
    && x.no != y.no
    && (y.rexmt == 0 ==> x.no < y.no)
    && (x.rexmt == 0 && y.rexmt > 0 ==> y.no < x.no)
  }

  ghost predicate Ordered(b: seq<Entry>) {
    forall i, j {:trigger Pair(b[i], b[j])} :: 0 <= i < j < |b| ==> Pair(b[i], b[j])
  }

  function Removed(b: seq<Entry>, k: nat): (r: seq<Entry>)
    requires k < |b|
    ensures |r| == |b| - 1
  {
    b[..k] + b[k + 1..]
  }

  function Inserted(b: seq<Entry>, k: nat, e: Entry): (r: seq<Entry>)
    requires k <= |b|
    ensures |r| == |b| + 1
  {
    b[..k] + [e] + b[k..]
  }

  lemma RemovedOk(b: seq<Entry>, k: nat, h: seq<Sent>)
    requires k < |b| && Numbered(b, h) && Ordered(b)
    ensures Numbered(Removed(b, k), h) && Ordered(Removed(b, k))
  {
    var r := Removed(b, k);
    forall i | 0 <= i < |r| ensures EntryOk(r[i], h) {
      assert EntryOk(b[if i < k then i else i + 1], h);
    }
    forall i, j | 0 <= i < j < |r| ensures Pair(r[i], r[j]) {
      assert Pair(b[if i < k then i else i + 1], b[if j < k then j else j + 1]);
    }
  }

  /** A packet just numbered goes to the end. */
  lemma AppendedOk(b: seq<Entry>, e: Entry, h: seq<Sent>, x: Sent)
    requires Numbered(b, h) && Ordered(b) && e.rexmt == 0 && e.no == |h| && EntryOk(e, h + [x])
    ensures Numbered(b + [e], h + [x]) && Ordered(b + [e])
  {
    var r := b + [e];
    forall i | 0 <= i < |b| ensures EntryOk(b[i], h + [x]) {
      assert EntryOk(b[i], h);
      GrownOk(b[i], h, x);
    }
    forall i | 0 <= i < |r| ensures EntryOk(r[i], h + [x]) {
      assert i < |b| ==> r[i] == b[i];
    }
    forall i, j | 0 <= i < j < |r| ensures Pair(r[i], r[j]) {
      assert EntryOk(b[i], h);
      if j < |b| {
        assert Pair(b[i], b[j]);
      }
    }
  }

  lemma GrownOk(e: Entry, h: seq<Sent>, x: Sent)
    requires EntryOk(e, h)
    ensures EntryOk(e, h + [x])
  {
    assert (h + [x])[..e.no] == h[..e.no];
  }

  lemma GrownNumbered(b: seq<Entry>, h: seq<Sent>, x: Sent)
    requires Numbered(b, h)
    ensures Numbered(b, h + [x])
  {
    forall i | 0 <= i < |b| ensures EntryOk(b[i], h + [x]) {
      assert EntryOk(b[i], h);
      GrownOk(b[i], h, x);
    }
  }

  /** The first entry, sent again, may go anywhere among the others. */
  lemma ReinsertedOk(b: seq<Entry>, k: nat, m: Entry, h: seq<Sent>)
    requires 0 < |b| && k < |b| && Numbered(b, h) && Ordered(b)
    requires m == b[0].(rexmt := b[0].rexmt + 1, tx := m.tx)
    ensures Numbered(Inserted(b[1..], k, m), h) && Ordered(Inserted(b[1..], k, m))
  {
    var r := Inserted(b[1..], k, m);
    forall i | 0 <= i < |r| ensures EntryOk(r[i], h) {
      assert EntryOk(b[if i < k then i + 1 else if i == k then 0 else i], h);
    }
    forall i, j | 0 <= i < j < |r| ensures Pair(r[i], r[j]) {
      var i', j' := if i < k then i + 1 else if i == k then 0 else i, if j < k then j + 1 else if j == k then 0 else j;
      assert r[i] == if i == k then m else b[i'];
      assert r[j] == if j == k then m else b[j'];
      if j == k {
        assert Pair(b[0], b[i']);
      } else {
        assert Pair(b[i'], b[j']);
      }
    }
  }

  // ------------------------------------------------------------ acknowledgements

  function Filter(p: Entry -> bool, b: seq<Entry>): (r: seq<Entry>) {
    if b == [] then []
    else Filter(p, b[..|b| - 1]) + if p(b[|b| - 1]) then [b[|b| - 1]] else []
  }

  lemma {:induction false} FilterSame(p: Entry -> bool, q: Entry -> bool, b: seq<Entry>)
    requires forall e :: e in b ==> p(e) == q(e)
    ensures Filter(p, b) == Filter(q, b)
  {
    if b != [] {
      FilterSame(p, q, b[..|b| - 1]);
      assert b[|b| - 1] in b;
    }
  }

  lemma {:induction false} FilterOk(p: Entry -> bool, b: seq<Entry>, h: seq<Sent>)
    requires Numbered(b, h) && Ordered(b)
    ensures Numbered(Filter(p, b), h) && Ordered(Filter(p, b))
    ensures forall e :: e in Filter(p, b) <==> e in b && p(e)
  {
    if b != [] {
      var init, last := b[..|b| - 1], b[|b| - 1];
      assert b == init + [last];
      RemovedOk(b, |b| - 1, h);
      assert Removed(b, |b| - 1) == init;
      FilterOk(p, init, h);
      var f := Filter(p, init);
      var r := Filter(p, b);
      assert EntryOk(b[|b| - 1], h);
      forall i | 0 <= i < |r| ensures EntryOk(r[i], h) {
        if i < |f| { assert EntryOk(f[i], h); }
      }
      forall i, j | 0 <= i < j < |r| ensures Pair(r[i], r[j]) {
        if j < |f| {
          assert Pair(f[i], f[j]);
        } else {
          assert f[i] in init;
          var k :| 0 <= k < |init| && init[k] == f[i];
          assert Pair(b[k], b[|b| - 1]);
        }
      }
    }
  }

  /** crit_addr_id_del */
  predicate Acked(e: Entry, n: Addr, id: nat) {
    e.next == n && e.id <= id
  }

  /** What an acknowledgement leaves. */
  function Unacked(b: seq<Entry>, n: Addr, id: nat): seq<Entry> {
    Filter(e => !Acked(e, n, id), b)
  }

  /** The round-trip time taken: the last entry wins. */
  function Sample(b: seq<Entry>, n: Addr, id: nat, now: nat): int {
    if b == [] then 0
    else
      var m := b[|b| - 1];
      if Acked(m, n, id) && m.id == id && m.rexmt == 0 then now - m.tx
      else Sample(b[..|b| - 1], n, id, now)
  }

  /** An acknowledgement of the request that packet `c` carried removes exactly the packets
      for that neighbour up to `c`, and leaves the others in order. */
  lemma CumulativeAck(b: seq<Entry>, h: seq<Sent>, n: Addr, c: nat)
    requires Numbered(b, h) && IdsOrdered(h, n) && c < |h| && h[c] == Sent(n, true)
    ensures Unacked(b, n, Id(h, c)) == Filter((e: Entry) => !(e.next == n && e.no <= c), b)
  {
    var k := Id(h, c);
    forall e | e in b ensures Acked(e, n, k) == (e.next == n && e.no <= c) {
      var i :| 0 <= i < |b| && b[i] == e;
      assert EntryOk(b[i], h);
    }
    FilterSame(e => !Acked(e, n, k), (e: Entry) => !(e.next == n && e.no <= c), b);
  }

  /** If the carrier is still buffered, the sample is its own, and none is taken when it was
      sent again. */
  lemma {:induction false} SampleOfCarrier(b: seq<Entry>, h: seq<Sent>, n: Addr, c: nat, i: nat, now: nat)
    requires Numbered(b, h) && Ordered(b) && IdsOrdered(h, n) && c < |h| && h[c] == Sent(n, true)
    requires i < |b| && b[i].no == c
    ensures Sample(b, n, Id(h, c), now) == if b[i].rexmt == 0 then now - b[i].tx else 0
  {
    var k, j := Id(h, c), |b| - 1;
    assert EntryOk(b[i], h) && EntryOk(b[j], h);
    if i < j {
      assert Pair(b[i], b[j]);
      RemovedOk(b, j, h);
      assert Removed(b, j) == b[..j];
      SampleOfCarrier(b[..j], h, n, c, i, now);
    } else if b[i].rexmt > 0 {
      forall l | 0 <= l < |b| ensures !Sampled(b[l], n, k) {
        assert EntryOk(b[l], h);
        if l < i { assert Pair(b[l], b[i]); }
      }
      NoSample(b, n, k, now);
    }
  }

  predicate Sampled(e: Entry, n: Addr, id: nat) {
    e.next == n && e.id == id && e.rexmt == 0
  }

  lemma {:induction false} NoSample(b: seq<Entry>, n: Addr, id: nat, now: nat)
    requires forall l :: 0 <= l < |b| ==> !Sampled(b[l], n, id)
    ensures Sample(b, n, id, now) == 0
  {
    if b != [] {
      assert !Sampled(b[|b| - 1], n, id);
      NoSample(b[..|b| - 1], n, id, now);
    }
  }

  /** Any sample is of a packet sent once, at the latest the carrier. */
  lemma {:induction false} SampleOfFresh(b: seq<Entry>, h: seq<Sent>, n: Addr, c: nat, now: nat) returns (i: nat)
    requires Numbered(b, h) && IdsOrdered(h, n) && c < |h| && h[c] == Sent(n, true)
    requires Sample(b, n, Id(h, c), now) != 0
    ensures i < |b| && b[i].next == n && b[i].rexmt == 0 && b[i].no <= c
    ensures Sample(b, n, Id(h, c), now) == now - b[i].tx
  {
    var j := |b| - 1;
    assert EntryOk(b[j], h);
    if Sampled(b[j], n, Id(h, c)) {
      i := j;
    } else {
      assert forall l :: 0 <= l < j ==> b[..j][l] == b[l];
      forall l | 0 <= l < j ensures EntryOk(b[..j][l], h) { assert EntryOk(b[l], h); }
      i := SampleOfFresh(b[..j], h, n, c, now);
    }
  }

  /** The sample is the time since packet `no` was sent, which was sent once only. */
  ghost predicate TimedBy(b: seq<Entry>, no: nat, sample: int, now: nat) {
    exists i :: 0 <= i < |b| && b[i].no == no && b[i].rexmt == 0 && sample == now - b[i].tx
  }

  ghost predicate Buffered(b: seq<Entry>, no: nat) {
    exists i :: 0 <= i < |b| && b[i].no == no
  }

  /** A sample that is taken is the carrier's exactly when the carrier is buffered; otherwise
      it is that of an earlier packet. */
  lemma SampleIsCarriers(b: seq<Entry>, h: seq<Sent>, n: Addr, c: nat, now: nat)
    requires Numbered(b, h) && Ordered(b) && IdsOrdered(h, n) && c < |h| && h[c] == Sent(n, true)
    requires Sample(b, n, Id(h, c), now) != 0
    ensures TimedBy(b, c, Sample(b, n, Id(h, c), now), now) <==> Buffered(b, c)
    ensures !Buffered(b, c) ==> exists no: nat :: no < c && TimedBy(b, no, Sample(b, n, Id(h, c), now), now)
  {
    if Buffered(b, c) {
      var i :| 0 <= i < |b| && b[i].no == c;
      SampleOfCarrier(b, h, n, c, i, now);
    } else {
      var i := SampleOfFresh(b, h, n, c, now);
      assert TimedBy(b, b[i].no, Sample(b, n, Id(h, c), now), now);
    }
  }
}
