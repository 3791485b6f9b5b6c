/** maint_buf_salvage on the bytes of the packet: only the source route changes, and what is
    left of the new one is the alternative route. */
module Salvage {
  import opened Routes
  import opened Bytes
  import opened Options
  import opened Packets
  import opened Codec
  import opened Built
  import opened Rewriting
  import MaintEntries
  import MaintState

  lemma SrtInMemory(m: seq<Byte>, off: nat, salv: nat, sleft: nat, addrs: seq<Addr>)
    requires |addrs| <= 63 && off + |Flat(SrtTlv(salv, sleft, addrs))| <= |m|
    requires m[off..off + |Flat(SrtTlv(salv, sleft, addrs))|] == Flat(SrtTlv(salv, sleft, addrs))
    ensures m[off + 1] as nat == 2 + 4 * |addrs|
    ensures SalvIn(m[off + 2], m[off + 3]) == salv % 16
    ensures WordsOf(m[off + 4..], |addrs|) == addrs
  {
    SrtFlat(salv, sleft, addrs);
    InMemory(m, off, Flat(SrtTlv(salv, sleft, addrs)), addrs);
  }

  lemma InMemory(m: seq<Byte>, off: nat, f: seq<Byte>, addrs: seq<Addr>)
    requires off + |f| <= |m| && m[off..off + |f|] == f && |f| == 4 + 4 * |addrs| && f[4..] == Words(addrs)
    ensures m[off + 1] == f[1] && m[off + 2] == f[2] && m[off + 3] == f[3]
    ensures WordsOf(m[off + 4..], |addrs|) == addrs
  {
    Behind(m, off, f, 4);
    ReadBack(m, off, f, addrs);
  }

  lemma SrtFlat(salv: nat, sleft: nat, addrs: seq<Addr>)
    requires |addrs| <= 63
    ensures var f := Flat(SrtTlv(salv, sleft, addrs));
      && f[1] as nat == 2 + 4 * |addrs| && f[4..] == Words(addrs)
      && SalvIn(f[2], f[3]) == salv % 16
  {
    var o := SrtTlv(salv, sleft, addrs);
    SrtRoundTrip(salv, sleft, addrs);
    LowFits(2 + 4 * |addrs|);
    FlatBytes(o);
    assert o.data[2..] == Words(addrs);
  }

  lemma FlatBytes(o: Tlv)
    requires |o.data| >= 2
    ensures Flat(o)[1] == Low(|o.data|) && Flat(o)[2] == o.data[0] && Flat(o)[3] == o.data[1]
    ensures Flat(o)[4..] == o.data[2..]
  {
  }

  lemma ReadBack(m: seq<Byte>, off: nat, f: seq<Byte>, addrs: seq<Addr>)
    requires off + |f| <= |m| && |f| == 4 + 4 * |addrs| && f[4..] == Words(addrs)
    requires m[off + 4..] == f[4..] + m[off + |f|..]
    ensures WordsOf(m[off + 4..], |addrs|) == addrs
  {
    WordsRoundTrip(addrs, m[off + |f|..]);
  }

  /** The salvage count and the addresses of the source route at `off`. */
  method ReadSrt(raw: array<Byte>, off: nat, ghost salv: nat, ghost sleft: nat, ghost route: seq<Addr>)
    returns (count: nat, addrs: seq<Addr>)
    requires |route| <= 63 && off + |Flat(SrtTlv(salv, sleft, route))| <= raw.Length
    requires raw[off..off + |Flat(SrtTlv(salv, sleft, route))|] == Flat(SrtTlv(salv, sleft, route))
    ensures count == salv % 16 && addrs == route
  {
    SrtInMemory(raw[..], off, salv, sleft, route);
    count := SalvIn(raw[off + 2], raw[off + 3]);
    var n := (raw[off + 1] as nat - 2) / 4;
    addrs := WordsOf(raw[off + 4..], n);
    assert raw[..][off + 4..] == raw[off + 4..];
  }

  method ReadPacket(p: Pkt, off: nat, ghost nh: Byte, ghost pre: seq<Tlv>, ghost salv: nat, ghost sleft: nat,
                    ghost addrs: seq<Addr>, ghost post: seq<Tlv>, ghost rest: seq<Byte>)
    returns (count: nat, was: seq<Addr>)
    requires p.Valid() && off == HDR_LEN + |FlatAll(pre)|
    requires Carries(p.raw[..], p.tail, nh, pre + [SrtTlv(salv, sleft, addrs)] + post, rest)
    ensures count == salv % 16 && was == addrs
  {
    SrtThere(p.raw[..], p.tail, nh, pre, SrtTlv(salv, sleft, addrs), post, rest);
    count, was := ReadSrt(p.raw, off, salv, sleft, addrs);
  }

  /** The whole rewriting: `alt` is the route the cache found from this node. */
  method SalvagePacket(p: Pkt, off: nat, me: Addr, src: Addr, dst: Addr, broken: Addr, stray: Addr, alt: Route,
                       ghost nh: Byte, ghost pre: seq<Tlv>, ghost salv: nat, ghost sleft: nat,
                       ghost addrs: seq<Addr>, ghost post: seq<Tlv>, ghost rest: seq<Byte>)
    returns (r: Option<Route>, next: Addr)
    requires alt.src == me && alt.dst == dst
    requires p.Valid() && off == HDR_LEN + |FlatAll(pre)|
    requires Carries(p.raw[..], p.tail, nh, pre + [SrtTlv(salv, sleft, addrs)] + post, rest)
    modifies p, p.raw
    ensures p.Valid()
    ensures var pkt := MaintEntries.Packet(src, dst, Some(addrs), salv % 16, stray);
      && (r.Some? <==> MaintState.Salvageable(me, pkt, broken, alt))
      && (r.Some? ==> r == MaintState.NewRoute(me, pkt, broken, alt) && |alt.addrs| <= |r.value.addrs|)
    ensures r.Some? ==> Remaining(r.value, |alt.addrs|) == alt.Path()[1..]
    ensures r.Some? && |r.value.addrs| <= 63 ==> next == alt.Path()[1]
    ensures r.Some? && |r.value.addrs| <= 63 ==>
      Carries(p.raw[..], p.tail, nh, pre + [SrtTlv(salv % 16 + 1, |alt.addrs|, r.value.addrs)] + post, rest)
    ensures r.None? ==> p.raw == old(p.raw) && p.tail == old(p.tail) && p.raw[..] == old(p.raw[..])
  {
    var count, was := ReadPacket(p, off, nh, pre, salv, sleft, addrs, post, rest);
    var pkt := MaintEntries.Packet(src, dst, Some(was), count, stray);
    r, next := Choose(me, pkt, broken, alt);
    if r.Some? {
      Replace(p, off, count + 1, |alt.addrs|, r.value.addrs, |was|, nh, pre, SrtTlv(salv, sleft, addrs), post, rest);
    }
  }

  /** The new route and its next hop. */
  method Choose(me: Addr, pkt: MaintEntries.Packet, broken: Addr, alt: Route) returns (r: Option<Route>, next: Addr)
    requires alt.src == me && alt.dst == pkt.dst
    ensures r.Some? <==> MaintState.Salvageable(me, pkt, broken, alt)
    ensures r.Some? ==> r == MaintState.NewRoute(me, pkt, broken, alt) && |alt.addrs| <= |r.value.addrs|
    ensures r.Some? ==> Remaining(r.value, |alt.addrs|) == alt.Path()[1..]
    ensures r.Some? && |r.value.addrs| <= 63 ==> next == alt.Path()[1]
  {
    r, next := None, me;
    var found := MaintState.Reroute(me, pkt, broken, alt);
    if found.Some? {
      var (route, left) := found.value;
      r := Some(route);
      MaintState.NewRouteRest(me, pkt, broken, alt);
      next := FirstHop(route, left, alt);
    }
  }

  /** The new option in place of the old one, of `n` addresses. */
  method Replace(p: Pkt, off: nat, salv: nat, sleft: nat, addrs: seq<Addr>, n: nat,
                 ghost nh: Byte, ghost pre: seq<Tlv>, ghost o: Tlv, ghost post: seq<Tlv>, ghost rest: seq<Byte>)
    requires p.Valid() && off == HDR_LEN + |FlatAll(pre)| && |o.data| == 2 + 4 * n
    requires Carries(p.raw[..], p.tail, nh, pre + [o] + post, rest)
    modifies p, p.raw
    ensures p.Valid()
    ensures |addrs| <= 63 ==> Carries(p.raw[..], p.tail, nh, pre + [SrtTlv(salv, sleft, addrs)] + post, rest)
  {
    if |addrs| == n {
      ReplaceInPlace(p, off, salv, sleft, addrs, nh, pre, o, post, rest);
    } else {
      ReplaceMoved(p, off, salv, sleft, addrs, nh, pre, o, post, rest);
    }
  }

  /** The next hop, from the segments left as they fit their field. */
  method FirstHop(route: Route, left: nat, alt: Route) returns (next: Addr)
    requires left == |alt.addrs| <= |route.addrs| && NextHop(route, left) == NextHop(alt, left)
    ensures |route.addrs| <= 63 ==> next == alt.Path()[1]
  {
    next := NextHop(route, left % 64);
  }

  lemma SrtThere(m: seq<Byte>, len: nat, nh: Byte, pre: seq<Tlv>, o: Tlv, post: seq<Tlv>, rest: seq<Byte>)
    requires Carries(m, len, nh, pre + [o] + post, rest)
    ensures var off := HDR_LEN + |FlatAll(pre)|;
      off + |Flat(o)| <= len && m[off..off + |Flat(o)|] == Flat(o) && Plain(o)
  {
    CarriesLayout(m, len, nh, pre, o, post, rest);
    LayoutParts(m, len, nh, FlatAll(pre), Flat(o), FlatAll(post) + rest);
  }
}
