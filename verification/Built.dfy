/** The packets the program makes: what each sender writes is what the option walk of the
    receiver finds. */
module Built {
  import opened Routes
  import opened Bytes
  import opened Options
  import opened Packets
  import opened Codec
  import opened Senders

  /** DSR_NO_NEXT_HDR_TYPE */
  const NO_NEXT_HDR: Byte := 0

  /** The first `len` bytes are a header with the right length, these options, and at most two
      bytes more. */
  ghost predicate Carries(m: seq<Byte>, len: nat, nh: Byte, os: seq<Tlv>, rest: seq<Byte>) {
    && HDR_LEN <= len <= |m| && m[..HDR_LEN] == Hdr(nh, len - HDR_LEN)
    && Holds(m, len, HDR_LEN, os, rest) && AllPlain(os)
  }

  /** Then the walk finds exactly these options. */
  lemma CarriesFound(m: seq<Byte>, len: nat, nh: Byte, os: seq<Tlv>, rest: seq<Byte>)
    requires Carries(m, len, nh, os, rest)
    ensures Walk(m, len, HDR_LEN, HDR_LEN) == Some(Offsets(os, HDR_LEN))
    ensures forall i :: 0 <= i < |os| ==> At(m, Offsets(os, HDR_LEN)[i]) == Some(os[i])
  {
    WalkFindsAll(m, len, HDR_LEN, os, rest);
    forall i | 0 <= i < |os| ensures At(m, Offsets(os, HDR_LEN)[i]) == Some(os[i]) {
      FoundIsWritten(m, len, HDR_LEN, os, rest, i);
    }
  }

  /** And the header gives their length. */
  lemma CarriesLength(m: seq<Byte>, len: nat, nh: Byte, os: seq<Tlv>, rest: seq<Byte>)
    requires Carries(m, len, nh, os, rest) && len < 0x1_0000
    ensures m[0] == nh && ShortOf(m[2], m[3]) == len - HDR_LEN
  {
    HdrBytes(m[..HDR_LEN], nh, len - HDR_LEN);
    assert m[..HDR_LEN][0] == m[0] && m[..HDR_LEN][2] == m[2] && m[..HDR_LEN][3] == m[3];
  }

  lemma HdrBytes(h: seq<Byte>, nh: Byte, plen: nat)
    requires h == Hdr(nh, plen) && plen < 0x1_0000
    ensures h[0] == nh && ShortOf(h[2], h[3]) == plen
  {
    ShortRoundTrip(plen);
    assert h[2] == Short(plen)[0] && h[3] == Short(plen)[1];
  }

  /** A buffer filled from the start. */
  lemma PatchCarries(s: seq<Byte>, nh: Byte, os: seq<Tlv>, rest: seq<Byte>, len: nat)
    requires len == HDR_LEN + |FlatAll(os)| + |rest| <= |s| && |rest| <= 2 && AllPlain(os)
    ensures Carries(Patch(s, 0, Hdr(nh, len - HDR_LEN) + (FlatAll(os) + rest)), len, nh, os, rest)
  {
    var h, b := Hdr(nh, len - HDR_LEN), FlatAll(os) + rest;
    var m := Patch(s, 0, h + b);
    assert m == h + b + s[len..];
    assert m[HDR_LEN..len] == b;
  }

  lemma ReplyPart(s: seq<Byte>, a: seq<Byte>, b: seq<Byte>)
    requires |a| + |b| <= |s|
    ensures Patch(s, 0, a + b)[|a|..|a| + |b|] == b
  {
  }

  lemma FlatTwo(a: Tlv, b: Tlv)
    ensures FlatAll([a, b]) == Flat(a) + Flat(b)
  {
    FlatOne(b);
    assert [a, b][1..] == [b];
  }

  // ------------------------------------------------------------ senders

  /** dsr_rreq_send */
  method SendRreq(target: Addr, seqno: nat) returns (p: Pkt)
    ensures fresh(p) && fresh(p.raw) && p.Valid()
    ensures Carries(p.raw[..], p.tail, NO_NEXT_HDR, [RreqTlv(seqno, target, [])], [])
  {
    var len := HDR_LEN + 8;
    p := new Pkt(len);
    ghost var s, o := p.raw[..], RreqTlv(seqno, target, []);
    var _ := PutHdr(p.raw, len, NO_NEXT_HDR);
    var _ := PutRreq(p.raw, HDR_LEN, len - HDR_LEN, target, seqno);
    PatchTwice(s, 0, Hdr(NO_NEXT_HDR, 8), Flat(o));
    FlatOne(o);
    assert FlatAll([o]) + [] == Flat(o);
    PatchCarries(s, NO_NEXT_HDR, [o], [], len);
  }

  /** dsr_ack_send */
  method SendAck(src: Addr, dst: Addr, id: nat) returns (p: Pkt)
    ensures fresh(p) && fresh(p.raw) && p.Valid()
    ensures Carries(p.raw[..], p.tail, NO_NEXT_HDR, [AckTlv(src, dst, id)], [])
  {
    var len := HDR_LEN + 12;
    p := new Pkt(len);
    ghost var s, o := p.raw[..], AckTlv(src, dst, id);
    var _ := PutHdr(p.raw, len, NO_NEXT_HDR);
    var _ := PutAck(p.raw, HDR_LEN, len - HDR_LEN, src, dst, id);
    PatchTwice(s, 0, Hdr(NO_NEXT_HDR, 12), Flat(o));
    FlatOne(o);
    assert FlatAll([o]) + [] == Flat(o);
    PatchCarries(s, NO_NEXT_HDR, [o], [], len);
  }

  /** dsr_ack_req_send */
  method SendAckReq(id: nat) returns (p: Pkt)
    ensures fresh(p) && fresh(p.raw) && p.Valid()
    ensures Carries(p.raw[..], p.tail, NO_NEXT_HDR, [AckReqTlv(id)], [])
  {
    var len := HDR_LEN + 4;
    p := new Pkt(len);
    ghost var s, o := p.raw[..], AckReqTlv(id);
    var _ := PutHdr(p.raw, len, NO_NEXT_HDR);
    var _ := PutAckReq(p.raw, HDR_LEN, len - HDR_LEN, id);
    PatchTwice(s, 0, Hdr(NO_NEXT_HDR, 4), Flat(o));
    FlatOne(o);
    assert FlatAll([o]) + [] == Flat(o);
    PatchCarries(s, NO_NEXT_HDR, [o], [], len);
  }

  /** dsr_srt_add, the options part: a data packet gets its source route */
  method AddSrt(prot: Byte, salvage: nat, route: Route) returns (p: Pkt)
    ensures fresh(p) && fresh(p.raw) && p.Valid()
    ensures |route.addrs| <= 63 ==>
      Carries(p.raw[..], p.tail, prot, [SrtTlv(salvage, |route.addrs|, route.addrs)], [])
  {
    var len := HDR_LEN + 4 + 4 * |route.addrs|;
    p := new Pkt(len);
    ghost var s, o := p.raw[..], SrtTlv(salvage, |route.addrs|, route.addrs);
    var _ := PutHdr(p.raw, len, prot);
    var _ := PutSrt(p.raw, HDR_LEN, len - HDR_LEN, salvage, route.addrs);
    PatchTwice(s, 0, Hdr(prot, len - HDR_LEN), Flat(o));
    FlatOne(o);
    assert FlatAll([o]) + [] == Flat(o);
    if |route.addrs| <= 63 {
      PatchCarries(s, prot, [o], [], len);
    }
  }

  /** A reply that reports `reported` and travels on `srt`. */
  ghost predicate CarriesReply(m: seq<Byte>, len: nat, srt: Route, reported: Route, pad: Byte) {
    var route, o := reported.addrs + [reported.dst], SrtTlv(0, |srt.addrs|, srt.addrs);
    && Carries(m, len, NO_NEXT_HDR, [o, RrepTlv(pad, route)], [RrepBytes(pad, route)[4 * |route| + 3]])
    && RrepRoute(m, HDR_LEN + |Flat(o)|) == Some(route)
  }

  /** dsr_rrep_send */
  method SendRrep(srt: Route, reported: Route) returns (p: Pkt, ghost pad: Byte)
    ensures fresh(p) && fresh(p.raw) && p.Valid()
    ensures |srt.addrs| <= 63 && |reported.addrs| <= 62 ==> CarriesReply(p.raw[..], p.tail, srt, reported, pad)
  {
    var len := HDR_LEN + (4 + 4 * |srt.addrs|) + (8 + 4 * |reported.addrs|);
    p := new Pkt(len);
    ghost var s := p.raw[..];
    pad := WriteReply(p.raw, len, srt, reported);
    ReplyCarries(s, srt, reported, pad, len);
  }

  ghost function ReplyBytes(srt: Route, reported: Route, pad: Byte, len: nat): (b: seq<Byte>)
    requires len >= HDR_LEN
    ensures |b| == HDR_LEN + (4 + 4 * |srt.addrs|) + (8 + 4 * |reported.addrs|)
  {
    Hdr(NO_NEXT_HDR, len - HDR_LEN) + Flat(SrtTlv(0, |srt.addrs|, srt.addrs))
    + RrepBytes(pad, reported.addrs + [reported.dst])
  }

  /** Header and source route, with which replies and errors start. */
  method WriteHead(buf: array<Byte>, len: nat, srt: Route)
    requires HDR_LEN + (4 + 4 * |srt.addrs|) <= len <= buf.Length
    modifies buf
    ensures buf[..] == Patch(old(buf[..]), 0, Hdr(NO_NEXT_HDR, len - HDR_LEN) + Flat(SrtTlv(0, |srt.addrs|, srt.addrs)))
  {
    ghost var s := buf[..];
    var _ := PutHdr(buf, len, NO_NEXT_HDR);
    var _ := PutSrt(buf, HDR_LEN, len - HDR_LEN, 0, srt.addrs);
    PatchTwice(s, 0, Hdr(NO_NEXT_HDR, len - HDR_LEN), Flat(SrtTlv(0, |srt.addrs|, srt.addrs)));
  }

  method WriteReply(buf: array<Byte>, len: nat, srt: Route, reported: Route) returns (ghost pad: Byte)
    requires len == HDR_LEN + (4 + 4 * |srt.addrs|) + (8 + 4 * |reported.addrs|) <= buf.Length
    modifies buf
    ensures buf[..] == Patch(old(buf[..]), 0, ReplyBytes(srt, reported, pad, len))
  {
    ghost var s, o := buf[..], SrtTlv(0, |srt.addrs|, srt.addrs);
    var at := HDR_LEN + 4 + 4 * |srt.addrs|;
    WriteHead(buf, len, srt);
    pad := buf[at + 3];
    var _ := PutRrep(buf, at, len - at, reported);
    PatchTwice(s, 0, Hdr(NO_NEXT_HDR, len - HDR_LEN) + Flat(o), RrepBytes(pad, reported.addrs + [reported.dst]));
  }

  lemma ReplyCarries(s: seq<Byte>, srt: Route, reported: Route, pad: Byte, len: nat)
    requires len == HDR_LEN + (4 + 4 * |srt.addrs|) + (8 + 4 * |reported.addrs|) <= |s|
    ensures |srt.addrs| <= 63 && |reported.addrs| <= 62 ==>
      CarriesReply(Patch(s, 0, ReplyBytes(srt, reported, pad, len)), len, srt, reported, pad)
  {
    if |srt.addrs| <= 63 && |reported.addrs| <= 62 {
      var o, route := SrtTlv(0, |srt.addrs|, srt.addrs), reported.addrs + [reported.dst];
      RrepCarries(s, o, pad, route, len);
      RrepReads(s, Hdr(NO_NEXT_HDR, len - HDR_LEN) + Flat(o), pad, route);
    }
  }

  lemma RrepCarries(s: seq<Byte>, o: Tlv, pad: Byte, route: seq<Addr>, len: nat)
    requires Plain(o) && 1 <= |route| <= 63 && len == HDR_LEN + |Flat(o)| + |RrepBytes(pad, route)| <= |s|
    ensures var b := RrepBytes(pad, route);
      && var m := Patch(s, 0, Hdr(NO_NEXT_HDR, len - HDR_LEN) + Flat(o) + b);
      && Carries(m, len, NO_NEXT_HDR, [o, RrepTlv(pad, route)], [b[4 * |route| + 3]])
  {
    var b := RrepBytes(pad, route);
    RrepLaidOut(Hdr(NO_NEXT_HDR, len - HDR_LEN), o, pad, route);
    RrepFits(pad, route);
    PatchCarries(s, NO_NEXT_HDR, [o, RrepTlv(pad, route)], [b[4 * |route| + 3]], len);
  }

  lemma RrepReads(s: seq<Byte>, head: seq<Byte>, pad: Byte, route: seq<Addr>)
    requires 1 <= |route| <= 63 && |head| + |RrepBytes(pad, route)| <= |s|
    ensures RrepRoute(Patch(s, 0, head + RrepBytes(pad, route)), |head|) == Some(route)
  {
    ReplyPart(s, head, RrepBytes(pad, route));
    RrepRoundTrip(pad, route, Patch(s, 0, head + RrepBytes(pad, route)), |head|);
  }

  lemma RrepLaidOut(h: seq<Byte>, o: Tlv, pad: Byte, route: seq<Addr>)
    requires route != []
    ensures var b, t := RrepBytes(pad, route), RrepTlv(pad, route);
      && h + Flat(o) + b == h + (FlatAll([o, t]) + [b[4 * |route| + 3]])
      && |FlatAll([o, t])| == |Flat(o)| + |b| - 1
  {
    var b, t := RrepBytes(pad, route), RrepTlv(pad, route);
    RrepIsShort(pad, route);
    FlatTwo(o, t);
    Joined(Flat(o), Flat(t), [b[4 * |route| + 3]]);
    Joined(h, Flat(o), b);
  }

  // ------------------------------------------------------------ route errors

  function RerrSalv(o: Tlv): nat
    requires |o.data| >= 2
  {
    o.data[1] as nat / 16
  }

  /** An error takes along the old ones before the first that was salvaged too often. */
  ghost predicate TakenAlong(rerrs: seq<Tlv>, max: nat, k: nat) {
    && k <= |rerrs| && (forall i :: 0 <= i < |rerrs| ==> |rerrs[i].data| >= 2)
    && (forall i :: 0 <= i < k ==> RerrSalv(rerrs[i]) <= max)
    && (k < |rerrs| ==> RerrSalv(rerrs[k]) > max)
  }

  lemma FlatSnoc(os: seq<Tlv>, i: nat)
    requires i < |os|
    ensures FlatAll(os[..i + 1]) == FlatAll(os[..i]) + Flat(os[i])
  {
    assert os[..i + 1] == os[..i] + [os[i]];
    FlatAllAppend(os[..i], [os[i]]);
    FlatOne(os[i]);
  }

  /** The loop that counts their bytes. */
  method CountAlong(rerrs: seq<Tlv>, max: nat) returns (k: nat, len: nat)
    requires forall i :: 0 <= i < |rerrs| ==> |rerrs[i].data| >= 2
    ensures TakenAlong(rerrs, max, k) && len == |FlatAll(rerrs[..k])|
  {
    k, len := 0, 0;
    while k < |rerrs| && RerrSalv(rerrs[k]) <= max
      invariant k <= |rerrs| && (forall i :: 0 <= i < k ==> RerrSalv(rerrs[i]) <= max)
      invariant len == |FlatAll(rerrs[..k])|
    {
      FlatSnoc(rerrs, k);
      len := len + |rerrs[k].data| + 2;
      k := k + 1;
    }
  }

  /** Copying options one behind the other. */
  method CopyOpts(buf: array<Byte>, at: nat, os: seq<Tlv>) returns (end: nat)
    requires at + |FlatAll(os)| <= buf.Length
    modifies buf
    ensures buf[..] == Patch(old(buf[..]), at, FlatAll(os)) && end == at + |FlatAll(os)|
  {
    ghost var s := buf[..];
    var i := 0;
    end := at;
    assert os[..0] == [] && Patch(s, at, []) == s;
    while i < |os|
      invariant 0 <= i <= |os| && end == at + |FlatAll(os[..i])| && end + |FlatAll(os[i..])| <= buf.Length
      invariant buf[..] == Patch(s, at, FlatAll(os[..i]))
    {
      end := CopyOne(buf, at, end, os, i, s);
      i := i + 1;
    }
    assert os[..i] == os;
  }

  method CopyOne(buf: array<Byte>, at: nat, from: nat, os: seq<Tlv>, i: nat, ghost s: seq<Byte>) returns (end: nat)
    requires i < |os| && |s| == buf.Length
    requires from == at + |FlatAll(os[..i])| && from + |FlatAll(os[i..])| <= buf.Length
    requires buf[..] == Patch(s, at, FlatAll(os[..i]))
    modifies buf
    ensures end == at + |FlatAll(os[..i + 1])| && end + |FlatAll(os[i + 1..])| <= buf.Length
    ensures buf[..] == Patch(s, at, FlatAll(os[..i + 1]))
  {
    FlatSnoc(os, i);
    assert os[i..][1..] == os[i + 1..] && os[i..][0] == os[i];
    PatchTwice(s, at, FlatAll(os[..i]), Flat(os[i]));
    Put(buf, from, Flat(os[i]));
    end := from + |Flat(os[i])|;
  }

  /** The options of a new route error: the route it travels on, the error, and the errors and
      acknowledgements of the packet that met with it. */
  function ErrorOpts(srt: Route, me: Addr, dst: Addr, unreachable: Addr, salv: nat,
                     along: seq<Tlv>, acks: seq<Tlv>): seq<Tlv>
  {
    [SrtTlv(0, |srt.addrs|, srt.addrs), RerrTlv(salv, me, dst, unreachable)] + (along + acks)
  }

  ghost predicate Standard(acks: seq<Tlv>) {
    forall i :: 0 <= i < |acks| ==> |acks[i].data| == 10
  }

  /** Acknowledgements of standard length take the twelve bytes each that are counted. */
  lemma {:induction false} StandardSize(acks: seq<Tlv>)
    requires Standard(acks)
    ensures |FlatAll(acks)| == 12 * |acks|
  {
    if acks != [] { StandardSize(acks[1..]); }
  }

  lemma ErrorSize(srt: Route, me: Addr, dst: Addr, unreachable: Addr, salv: nat, along: seq<Tlv>, acks: seq<Tlv>)
    ensures FlatAll(ErrorOpts(srt, me, dst, unreachable, salv, along, acks)) ==
      Flat(SrtTlv(0, |srt.addrs|, srt.addrs)) + Flat(RerrTlv(salv, me, dst, unreachable))
      + FlatAll(along) + FlatAll(acks)
  {
    var a, b := SrtTlv(0, |srt.addrs|, srt.addrs), RerrTlv(salv, me, dst, unreachable);
    FlatAllAppend([a, b], along + acks);
    FlatAllAppend(along, acks);
    FlatTwo(a, b);
    Joined(Flat(a) + Flat(b), FlatAll(along), FlatAll(acks));
  }

  /** dsr_rerr_send, for a trigger packet whose options are `rerrs` and `acks`.  Twelve bytes are
      counted for each acknowledgement; the length in the header is right exactly if that is
      what they take together. */
  method SendRerr(srt: Route, me: Addr, dst: Addr, unreachable: Addr, salv: nat,
                  rerrs: seq<Tlv>, acks: seq<Tlv>, max: nat)
    returns (p: Pkt, ghost k: nat)
    requires AllPlain(acks) && AllPlain(rerrs) && forall i :: 0 <= i < |rerrs| ==> |rerrs[i].data| >= 2
    requires |FlatAll(acks)| <= 12 * |acks| + DEFAULT_TAILROOM
    ensures fresh(p) && fresh(p.raw) && p.Valid() && TakenAlong(rerrs, max, k)
    ensures var os := ErrorOpts(srt, me, dst, unreachable, salv, rerrs[..k], acks);
      && (p.tail == HDR_LEN + |FlatAll(os)| <==> |FlatAll(acks)| == 12 * |acks|)
      && (|srt.addrs| <= 63 && |FlatAll(acks)| == 12 * |acks| ==> Carries(p.raw[..], p.tail, NO_NEXT_HDR, os, []))
  {
    var n, along := CountAlong(rerrs, max);
    k := n;
    var len := HDR_LEN + (4 + 4 * |srt.addrs|) + 16 + 12 * |acks| + along;
    p := new Pkt(len);
    ghost var s := p.raw[..];
    WriteError(p.raw, len, srt, me, dst, unreachable, salv, rerrs[..n], acks);
    ErrorSize(srt, me, dst, unreachable, salv, rerrs[..n], acks);
    if |FlatAll(acks)| == 12 * |acks| {
      ErrorCarries(s, srt, me, dst, unreachable, salv, rerrs[..n], acks, len);
    }
  }

  method WriteError(buf: array<Byte>, len: nat, srt: Route, me: Addr, dst: Addr, unreachable: Addr, salv: nat,
                    along: seq<Tlv>, acks: seq<Tlv>)
    requires HDR_LEN + (4 + 4 * |srt.addrs|) + 16 <= len <= buf.Length
    requires HDR_LEN + (4 + 4 * |srt.addrs|) + 16 + |FlatAll(along)| + |FlatAll(acks)| <= buf.Length
    modifies buf
    ensures buf[..] == Patch(old(buf[..]), 0, Hdr(NO_NEXT_HDR, len - HDR_LEN)
      + Flat(SrtTlv(0, |srt.addrs|, srt.addrs)) + Flat(RerrTlv(salv, me, dst, unreachable))
      + FlatAll(along) + FlatAll(acks))
  {
    ghost var s := buf[..];
    ghost var head := Hdr(NO_NEXT_HDR, len - HDR_LEN) + Flat(SrtTlv(0, |srt.addrs|, srt.addrs))
      + Flat(RerrTlv(salv, me, dst, unreachable));
    WriteErrorHead(buf, len, srt, me, dst, unreachable, salv);
    WriteErrorTail(buf, HDR_LEN + (4 + 4 * |srt.addrs|) + 16, along, acks, s, head);
  }

  method WriteErrorHead(buf: array<Byte>, len: nat, srt: Route, me: Addr, dst: Addr, unreachable: Addr, salv: nat)
    requires HDR_LEN + (4 + 4 * |srt.addrs|) + 16 <= len <= buf.Length
    modifies buf
    ensures buf[..] == Patch(old(buf[..]), 0, Hdr(NO_NEXT_HDR, len - HDR_LEN)
      + Flat(SrtTlv(0, |srt.addrs|, srt.addrs)) + Flat(RerrTlv(salv, me, dst, unreachable)))
  {
    ghost var s := buf[..];
    ghost var h, a := Hdr(NO_NEXT_HDR, len - HDR_LEN), Flat(SrtTlv(0, |srt.addrs|, srt.addrs));
    ghost var b := Flat(RerrTlv(salv, me, dst, unreachable));
    WriteHead(buf, len, srt);
    var at := HDR_LEN + 4 + 4 * |srt.addrs|;
    var _ := PutRerr(buf, at, len - at, salv, me, dst, unreachable);
    PatchTwice(s, 0, h + a, b);
  }

  method WriteErrorTail(buf: array<Byte>, at: nat, along: seq<Tlv>, acks: seq<Tlv>,
                        ghost s: seq<Byte>, ghost head: seq<Byte>)
    requires |s| == buf.Length && at == |head| && at + |FlatAll(along)| + |FlatAll(acks)| <= buf.Length
    requires buf[..] == Patch(s, 0, head)
    modifies buf
    ensures buf[..] == Patch(s, 0, head + FlatAll(along) + FlatAll(acks))
  {
    PatchTwice(s, 0, head, FlatAll(along));
    PatchTwice(s, 0, head + FlatAll(along), FlatAll(acks));
    var end := CopyOpts(buf, at, along);
    end := CopyOpts(buf, end, acks);
  }

  lemma ErrorCarries(s: seq<Byte>, srt: Route, me: Addr, dst: Addr, unreachable: Addr, salv: nat,
                     along: seq<Tlv>, acks: seq<Tlv>, len: nat)
    requires len == HDR_LEN + (4 + 4 * |srt.addrs|) + 16 + |FlatAll(along)| + |FlatAll(acks)| <= |s|
    requires AllPlain(along) && AllPlain(acks)
    ensures |srt.addrs| <= 63 ==>
      Carries(Patch(s, 0, Hdr(NO_NEXT_HDR, len - HDR_LEN)
        + Flat(SrtTlv(0, |srt.addrs|, srt.addrs)) + Flat(RerrTlv(salv, me, dst, unreachable))
      + FlatAll(along) + FlatAll(acks)),
        len, NO_NEXT_HDR, ErrorOpts(srt, me, dst, unreachable, salv, along, acks), [])
  {
    if |srt.addrs| <= 63 {
      var h, a := Hdr(NO_NEXT_HDR, len - HDR_LEN), Flat(SrtTlv(0, |srt.addrs|, srt.addrs));
      var b := Flat(RerrTlv(salv, me, dst, unreachable));
      var os := ErrorOpts(srt, me, dst, unreachable, salv, along, acks);
      ErrorSize(srt, me, dst, unreachable, salv, along, acks);
      assert h + a + b + FlatAll(along) + FlatAll(acks) == h + (FlatAll(os) + []);
      PatchCarries(s, NO_NEXT_HDR, os, [], len);
    }
  }
}
