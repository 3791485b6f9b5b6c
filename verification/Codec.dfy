/** The options the senders write, byte by byte, and what the receivers read from them
    (dsr-srt.c, dsr-rreq.c, dsr-rrep.c, dsr-rerr.c, dsr-ack.c). */
module Codec {
  import opened Routes
  import opened Bytes
  import opened Options
  import Forwarding

  // ------------------------------------------------------------ layouts

  /** The options header. */
  function Hdr(nh: Byte, plen: nat): (b: seq<Byte>)
    ensures |b| == HDR_LEN
  {
    [nh, 0] + Short(plen)
  }

  /** The bit field of a source route, least significant bit first: two flags and four
      reserved bits, all zero, then four bits of salvage count and six of segments left. */
  function SrtField(salv: nat, sleft: nat): (w: nat)
    ensures w < 0x1_0000
  {
    64 * (salv % 16) + 1024 * (sleft % 64)
  }

  function SrtTlv(salv: nat, sleft: nat, addrs: seq<Addr>): (o: Tlv)
    ensures |o.data| == 2 + 4 * |addrs| && |o.data| % 4 == 2
  {
    var w := SrtField(salv, sleft);
    Tlv(SRT, [Low(w), Low(w / 256)] + Words(addrs))
  }

  function RreqTlv(id: nat, target: Addr, addrs: seq<Addr>): (o: Tlv)
    ensures |o.data| == 6 + 4 * |addrs|
  {
    Tlv(RREQ, Short(id) + Word(target) + Words(addrs))
  }

  function AckTlv(src: Addr, dst: Addr, id: nat): (o: Tlv)
    ensures |o.data| == 10
  {
    Tlv(ACK, Short(id) + Word(src) + Word(dst))
  }

  function AckReqTlv(id: nat): (o: Tlv)
    ensures |o.data| == 2
  {
    Tlv(ACK_REQ, Short(id))
  }

  /** NODE_UNREACHABLE */
  function RerrTlv(salv: nat, src: Addr, dst: Addr, unreachable: Addr): (o: Tlv)
    ensures |o.data| == 14
  {
    Tlv(RERR, [1, Low(16 * (salv % 16))] + Word(src) + Word(dst) + Word(unreachable))
  }

  /** A route reply as it lies in memory.  The compiler pads the three bytes in front of the
      addresses to four, which the length byte does not count. */
  function RrepBytes(pad: Byte, route: seq<Addr>): (b: seq<Byte>)
    ensures |b| == 4 + 4 * |route|
  {
    [RREP, Low(4 * |route| + 1), 0, pad] + Words(route)
  }

  /** The same as the option walk sees it: the last byte is left over. */
  function RrepTlv(pad: Byte, route: seq<Addr>): (o: Tlv)
    requires route != []
    ensures |o.data| == 4 * |route| + 1
  {
    Tlv(RREP, RrepBytes(pad, route)[2..4 * |route| + 3])
  }

  lemma RrepIsShort(pad: Byte, route: seq<Addr>)
    requires route != []
    ensures RrepBytes(pad, route) == Flat(RrepTlv(pad, route)) + [RrepBytes(pad, route)[4 * |route| + 3]]
  {
  }

  // ------------------------------------------------------------ reading

  /** Salvage count and segments left in the bit field. */
  function SalvIn(lo: Byte, hi: Byte): nat {
    (lo as nat + 256 * (hi as nat)) / 64 % 16
  }

  function SleftIn(lo: Byte, hi: Byte): nat {
    (lo as nat + 256 * (hi as nat)) / 1024
  }

  function SrtSalv(o: Tlv): nat
    requires |o.data| >= 2
  {
    SalvIn(o.data[0], o.data[1])
  }

  function SrtSleft(o: Tlv): nat
    requires |o.data| >= 2
  {
    SleftIn(o.data[0], o.data[1])
  }

  /** dsr_srt_opt_recv takes the whole length for the length of the addresses; the division
      by four makes up for it. */
  function SrtAddrs(o: Tlv): seq<Addr>
    requires |o.data| % 4 == 2
  {
    WordsOf(o.data[2..], |o.data| / 4)
  }

  function IdOf(o: Tlv): nat
    requires |o.data| >= 2
  {
    ShortOf(o.data[0], o.data[1])
  }

  function RreqTarget(o: Tlv): Addr
    requires |o.data| >= 6
  {
    WordOf(o.data[2..6])
  }

  function RreqAddrs(o: Tlv): seq<Addr>
    requires |o.data| >= 6
  {
    WordsOf(o.data[6..], (|o.data| - 6) / 4)
  }

  /** The route of a reply at `off`, with the destination last. */
  function RrepRoute(m: seq<Byte>, off: nat): (s: Option<seq<Addr>>) {
    if off + 1 >= |m| || m[off + 1] < 5 then None
    else
      var n := (m[off + 1] as nat - 1 - 4) / 4;
      if off + 4 + 4 * (n + 1) > |m| then None else Some(WordsOf(m[off + 4..], n + 1))
  }

  // ------------------------------------------------------------ round trips

  lemma FieldRoundTrip(salv: nat, sleft: nat)
    ensures var w := SrtField(salv, sleft);
      && w % 256 + 256 * (w / 256 % 256) == w
      && w / 64 % 16 == salv % 16 && w / 1024 == sleft % 64
  {
    FieldParts(salv % 16, sleft % 64);
  }

  lemma FieldParts(x: nat, y: nat)
    requires x < 16 && y < 64
    ensures var w := 64 * x + 1024 * y;
      && w % 256 + 256 * (w / 256 % 256) == w
      && w / 64 % 16 == x && w / 1024 == y
  {
    var w := 64 * x + 1024 * y;
    assert w / 64 == x + 16 * y;
    assert w / 256 < 256;
  }

  /** A source route survives exactly when it has at most 63 addresses. */
  lemma SrtRoundTrip(salv: nat, sleft: nat, addrs: seq<Addr>)
    ensures Plain(SrtTlv(salv, sleft, addrs)) <==> |addrs| <= 63
    ensures var o := SrtTlv(salv, sleft, addrs);
      SrtSalv(o) == salv % 16 && SrtSleft(o) == sleft % 64 && SrtAddrs(o) == addrs
  {
    var o := SrtTlv(salv, sleft, addrs);
    FieldRoundTrip(salv, sleft);
    assert o.data[2..] == Words(addrs) + [];
    WordsRoundTrip(addrs, []);
  }

  /** A route request survives exactly when it has at most 62 addresses. */
  lemma RreqRoundTrip(id: nat, target: Addr, addrs: seq<Addr>)
    ensures Plain(RreqTlv(id, target, addrs)) <==> |addrs| <= 62
    ensures var o := RreqTlv(id, target, addrs);
      IdOf(o) == id % 0x1_0000 && RreqTarget(o) == target && RreqAddrs(o) == addrs
  {
    var o := RreqTlv(id, target, addrs);
    ShortRoundTrip(id);
    WordRoundTrip(target);
    assert o.data[2..6] == Word(target);
    assert o.data[6..] == Words(addrs) + [];
    WordsRoundTrip(addrs, []);
  }

  lemma Behind(m: seq<Byte>, off: nat, b: seq<Byte>, i: nat)
    requires i <= |b| && off + |b| <= |m| && m[off..off + |b|] == b
    ensures m[off + i..] == b[i..] + m[off + |b|..]
    ensures forall j :: 0 <= j < |b| ==> m[off + j] == b[j]
  {
    forall j | 0 <= j < |b| ensures m[off + j] == b[j] {
      assert m[off..off + |b|][j] == b[j];
    }
  }

  lemma RrepInMemory(pad: Byte, route: seq<Addr>, m: seq<Byte>, off: nat)
    requires off + |RrepBytes(pad, route)| <= |m|
    requires m[off..off + |RrepBytes(pad, route)|] == RrepBytes(pad, route)
    ensures m[off + 1] == Low(4 * |route| + 1)
    ensures m[off + 4..] == Words(route) + m[off + 4 + 4 * |route|..]
  {
    var b := RrepBytes(pad, route);
    Behind(m, off, b, 4);
    assert b[1] == Low(4 * |route| + 1) && b[4..] == Words(route);
  }

  /** A reply fits exactly when it has at most 62 addresses before the destination. */
  lemma RrepFits(pad: Byte, route: seq<Addr>)
    requires route != []
    ensures Plain(RrepTlv(pad, route)) <==> |route| <= 63
  {
  }

  /** Then it is read back. */
  lemma RrepRoundTrip(pad: Byte, route: seq<Addr>, m: seq<Byte>, off: nat)
    requires 1 <= |route| <= 63 && off + |RrepBytes(pad, route)| <= |m|
    requires m[off..off + |RrepBytes(pad, route)|] == RrepBytes(pad, route)
    ensures RrepRoute(m, off) == Some(route)
  {
    RrepInMemory(pad, route, m, off);
    RrepCount(|route|);
    RouteAt(m, off, |route| - 1);
    ReadWords(m[off + 4..], route, m[off + 4 + 4 * |route|..]);
  }

  lemma ReadWords(t: seq<Byte>, route: seq<Addr>, rest: seq<Byte>)
    requires t == Words(route) + rest
    ensures WordsOf(t, |route|) == route
  {
    WordsRoundTrip(route, rest);
  }

  lemma RouteAt(m: seq<Byte>, off: nat, n: nat)
    requires off + 4 + 4 * (n + 1) <= |m| && m[off + 1] as nat == 4 * (n + 1) + 1
    ensures RrepRoute(m, off) == Some(WordsOf(m[off + 4..], n + 1))
  {
    assert (m[off + 1] as nat - 1 - 4) / 4 == n;
  }

  lemma RrepCount(n: nat)
    requires 1 <= n <= 63
    ensures Low(4 * n + 1) as nat == 4 * n + 1 && (4 * n + 1 - 1 - 4) / 4 + 1 == n
  {
  }

  lemma AckRoundTrip(src: Addr, dst: Addr, id: nat)
    ensures var o := AckTlv(src, dst, id);
      Plain(o) && IdOf(o) == id % 0x1_0000 && WordOf(o.data[2..6]) == src && WordOf(o.data[6..10]) == dst
  {
    var o := AckTlv(src, dst, id);
    ShortRoundTrip(id);
    WordRoundTrip(src);
    WordRoundTrip(dst);
    assert o.data[2..6] == Word(src) && o.data[6..10] == Word(dst);
  }

  lemma AckReqRoundTrip(id: nat)
    ensures Plain(AckReqTlv(id)) && IdOf(AckReqTlv(id)) == id % 0x1_0000
  {
    ShortRoundTrip(id);
  }

  lemma RerrRoundTrip(salv: nat, src: Addr, dst: Addr, unreachable: Addr)
    ensures var o := RerrTlv(salv, src, dst, unreachable);
      && Plain(o) && o.data[0] == 1 && o.data[1] as nat / 16 == salv % 16
      && WordOf(o.data[2..6]) == src && WordOf(o.data[6..10]) == dst && WordOf(o.data[10..14]) == unreachable
  {
    var o := RerrTlv(salv, src, dst, unreachable);
    WordRoundTrip(src);
    WordRoundTrip(dst);
    WordRoundTrip(unreachable);
    assert o.data[2..6] == Word(src) && o.data[6..10] == Word(dst) && o.data[10..14] == Word(unreachable);
  }

  /** The bytes hold what forwarding takes an option to be. */
  lemma SrtIsOpt(r: Route, salvage: nat, opt: Forwarding.SrtOpt)
    requires opt == Forwarding.OptAdd(r, salvage)
    ensures var o := SrtTlv(salvage, |r.addrs|, r.addrs);
      SrtSalv(o) == opt.salv && SrtSleft(o) == opt.sleft && SrtAddrs(o) == opt.words
    ensures Low(|SrtTlv(salvage, |r.addrs|, r.addrs).data|) as nat == opt.length
  {
    SrtRoundTrip(salvage, |r.addrs|, r.addrs);
  }

  /** So the route forwarding rebuilds is the one in the bytes. */
  lemma ReceivedFromBytes(r: Route, salvage: nat)
    requires |r.addrs| <= 63
    ensures var o := Forwarding.OptAdd(r, salvage);
      && Forwarding.Readable(o)
      && Forwarding.Received(r.src, r.dst, o).addrs == SrtAddrs(SrtTlv(salvage, |r.addrs|, r.addrs))
  {
    SrtRoundTrip(salvage, |r.addrs|, r.addrs);
    Forwarding.ReceivedIsSent(r, salvage);
  }
}
