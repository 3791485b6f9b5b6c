/** Packets changed on their way: a route request that is passed on (dsr-rreq.c), an
    acknowledgement request that is added (dsr-ack.c), and a source route that is replaced
    when a packet is salvaged (maint-buf.c). */
module Rewriting {
  import opened Routes
  import opened Bytes
  import opened Options
  import opened Packets
  import opened Codec
  import opened Senders
  import opened Built

  /** A header with one option picked out. */
  ghost function Layout(nh: Byte, plen: nat, pre: seq<Byte>, o: seq<Byte>, post: seq<Byte>): (b: seq<Byte>)
    ensures |b| == HDR_LEN + |pre| + |o| + |post|
  {
    Hdr(nh, plen) + pre + o + post
  }

  lemma FlatMiddle(pre: seq<Tlv>, o: Tlv, post: seq<Tlv>)
    ensures FlatAll(pre + [o] + post) == FlatAll(pre) + Flat(o) + FlatAll(post)
  {
    FlatAllAppend(pre + [o], post);
    FlatAllAppend(pre, [o]);
    FlatOne(o);
  }

  lemma Reassociated(h: seq<Byte>, a: seq<Byte>, f: seq<Byte>, c: seq<Byte>, r: seq<Byte>)
    ensures h + (a + f + c + r) == h + a + f + (c + r)
  {
  }

  lemma PlainMiddle(pre: seq<Tlv>, o: Tlv, post: seq<Tlv>)
    ensures AllPlain(pre + [o] + post) <==> AllPlain(pre) && Plain(o) && AllPlain(post)
  {
    var os := pre + [o] + post;
    assert os[|pre|] == o;
    assert forall i :: 0 <= i < |pre| ==> os[i] == pre[i];
    assert forall i :: 0 <= i < |post| ==> os[|pre| + 1 + i] == post[i];
    if AllPlain(os) {
      forall i | 0 <= i < |post| ensures Plain(post[i]) { assert Plain(os[|pre| + 1 + i]); }
    }
  }

  /** Reading a packet as such a layout. */
  lemma CarriesLayout(m: seq<Byte>, len: nat, nh: Byte, pre: seq<Tlv>, o: Tlv, post: seq<Tlv>, rest: seq<Byte>)
    requires Carries(m, len, nh, pre + [o] + post, rest)
    ensures m[..len] == Layout(nh, len - HDR_LEN, FlatAll(pre), Flat(o), FlatAll(post) + rest)
    ensures AllPlain(pre) && Plain(o) && AllPlain(post)
  {
    PlainMiddle(pre, o, post);
    FlatMiddle(pre, o, post);
    HeadAndBody(m, len);
    Reassociated(Hdr(nh, len - HDR_LEN), FlatAll(pre), Flat(o), FlatAll(post), rest);
  }

  lemma HeadAndBody(m: seq<Byte>, len: nat)
    requires HDR_LEN <= len <= |m|
    ensures m[..len] == m[..HDR_LEN] + m[HDR_LEN..len]
    ensures m[..len][..HDR_LEN] == m[..HDR_LEN] && m[..len][HDR_LEN..] == m[HDR_LEN..len]
  {
  }

  lemma LayoutCarries(m: seq<Byte>, len: nat, nh: Byte, pre: seq<Tlv>, o: Tlv, post: seq<Tlv>, rest: seq<Byte>)
    requires HDR_LEN <= len <= |m| && |rest| <= 2 && AllPlain(pre) && Plain(o) && AllPlain(post)
    requires m[..len] == Layout(nh, len - HDR_LEN, FlatAll(pre), Flat(o), FlatAll(post) + rest)
    ensures Carries(m, len, nh, pre + [o] + post, rest)
  {
    PlainMiddle(pre, o, post);
    FlatMiddle(pre, o, post);
    HeadAndBody(m, len);
    var h, b := Hdr(nh, len - HDR_LEN), FlatAll(pre) + Flat(o) + FlatAll(post) + rest;
    Reassociated(h, FlatAll(pre), Flat(o), FlatAll(post), rest);
    Parts(h, b);
  }

  lemma Parts(h: seq<Byte>, b: seq<Byte>)
    ensures (h + b)[..|h|] == h && (h + b)[|h|..] == b
  {
  }

  // ------------------------------------------------------------ source route replaced

  /** The segments left set in the two bytes of flags. */
  function WithSleft(b: Byte, sleft: nat): Byte {
    Low(b as nat % 4 + 4 * (sleft % 64))
  }

  lemma SleftSet(salv: nat, n: nat, sleft: nat, addrs: seq<Addr>)
    ensures var f := Flat(SrtTlv(salv, n, addrs)); f[3 := WithSleft(f[3], sleft)] == Flat(SrtTlv(salv, sleft, addrs))
  {
    SleftBytes(salv % 16, n % 64, sleft % 64);
  }

  lemma SleftBytes(x: nat, y: nat, z: nat)
    requires x < 16 && y < 64 && z < 64
    ensures (64 * x + 1024 * y) % 256 == (64 * x + 1024 * z) % 256
    ensures ((64 * x + 1024 * y) / 256 % 256 % 4 + 4 * z) % 256 == (64 * x + 1024 * z) / 256 % 256
  {
    assert (64 * x + 1024 * y) / 256 == x / 4 + 4 * y;
    assert (64 * x + 1024 * z) / 256 == x / 4 + 4 * z;
    assert (x / 4 + 4 * y) % 4 == x / 4;
  }

  /** The option is written, then its segments left. */
  method PutSrtLeft(buf: array<Byte>, at: nat, salv: nat, sleft: nat, addrs: seq<Addr>)
    requires at + 4 + 4 * |addrs| <= buf.Length
    modifies buf
    ensures buf[..] == Patch(old(buf[..]), at, Flat(SrtTlv(salv, sleft, addrs)))
  {
    ghost var s, f := buf[..], Flat(SrtTlv(salv, |addrs|, addrs));
    var _ := PutSrt(buf, at, 4 + 4 * |addrs|, salv, addrs);
    SleftSet(salv, |addrs|, sleft, addrs);
    PatchByte(s, at, f, 3, WithSleft(f[3], sleft));
    buf[at + 3] := WithSleft(buf[at + 3], sleft);
  }

  lemma PatchByte(s: seq<Byte>, at: nat, f: seq<Byte>, i: nat, b: Byte)
    requires at + |f| <= |s| && i < |f|
    ensures Patch(s, at, f)[at + i] == f[i] && Patch(s, at, f)[at + i := b] == Patch(s, at, f[i := b])
  {
  }

  lemma ReplacedSame(m: seq<Byte>, len: nat, nh: Byte, a: seq<Byte>, f: seq<Byte>, g: seq<Byte>, c: seq<Byte>)
    requires len <= |m| && |f| == |g| && len == HDR_LEN + |a| + |f| + |c|
    requires m[..len] == Layout(nh, len - HDR_LEN, a, f, c)
    ensures Patch(m, HDR_LEN + |a|, g)[..len] == Layout(nh, len - HDR_LEN, a, g, c)
  {
    var h, at := Hdr(nh, len - HDR_LEN), HDR_LEN + |a|;
    var t := h + a;
    assert m[..len][..at] == t && m[..len][at + |f|..] == c;
    assert m[..at] == t && m[at + |f|..len] == c;
    assert Patch(m, at, g)[..len] == t + g + c;
  }

  /** The equal-length case: the new option takes the place of the old one. */
  method ReplaceInPlace(p: Pkt, off: nat, salv: nat, sleft: nat, addrs: seq<Addr>,
                        ghost nh: Byte, ghost pre: seq<Tlv>, ghost o: Tlv, ghost post: seq<Tlv>, ghost rest: seq<Byte>)
    requires p.Valid() && Carries(p.raw[..], p.tail, nh, pre + [o] + post, rest)
    requires off == HDR_LEN + |FlatAll(pre)| && |o.data| == 2 + 4 * |addrs|
    modifies p.raw
    ensures Carries(p.raw[..], p.tail, nh, pre + [SrtTlv(salv, sleft, addrs)] + post, rest)
  {
    ghost var m, n := p.raw[..], SrtTlv(salv, sleft, addrs);
    CarriesLayout(m, p.tail, nh, pre, o, post, rest);
    ReplacedSame(m, p.tail, nh, FlatAll(pre), Flat(o), Flat(n), FlatAll(post) + rest);
    PutSrtLeft(p.raw, off, salv, sleft, addrs);
    LayoutCarries(p.raw[..], p.tail, nh, pre, n, post, rest);
  }

  /** memcpy, as a patch */
  method CopyPart(from: array<Byte>, i: nat, k: nat, to: array<Byte>, j: nat, ghost part: seq<Byte>)
    requires from != to && i <= k <= from.Length && j + (k - i) <= to.Length && part == from[i..k]
    modifies to
    ensures to[..] == Patch(old(to[..]), j, part)
  {
    Copy(from, i, to, j, k - i);
    assert to[..] == to[..j] + to[j..j + (k - i)] + to[j + (k - i)..];
  }

  lemma LayoutParts(m: seq<Byte>, len: nat, nh: Byte, a: seq<Byte>, f: seq<Byte>, c: seq<Byte>)
    requires len == HDR_LEN + |a| + |f| + |c| <= |m|
    requires m[..len] == Layout(nh, len - HDR_LEN, a, f, c)
    ensures var at := HDR_LEN + |a|;
      m[..at] == Hdr(nh, len - HDR_LEN) + a && m[at..at + |f|] == f && m[at + |f|..len] == c
  {
    var at, t := HDR_LEN + |a|, m[..len];
    assert t[..at] == m[..at] && t[at..at + |f|] == m[at..at + |f|] && t[at + |f|..] == m[at + |f|..len];
    assert t == (Hdr(nh, len - HDR_LEN) + a) + f + c;
  }

  lemma LengthPatched(s: seq<Byte>, nh: Byte, plen: nat, b: seq<Byte>, plen': nat)
    requires HDR_LEN + |b| <= |s|
    ensures Patch(Patch(s, 0, Hdr(nh, plen) + b), 2, Short(plen')) == Patch(s, 0, Hdr(nh, plen') + b)
  {
    var m, n := Patch(Patch(s, 0, Hdr(nh, plen) + b), 2, Short(plen')), Patch(s, 0, Hdr(nh, plen') + b);
    assert m == [nh, 0] + Short(plen') + b + s[HDR_LEN + |b|..];
  }

  /** Head, new option and tail copied to a new buffer, and the length corrected. */
  lemma MovedLayout(s: seq<Byte>, nh: Byte, plen: nat, a: seq<Byte>, g: seq<Byte>, c: seq<Byte>, len: nat)
    requires len == HDR_LEN + |a| + |g| + |c| <= |s|
    ensures var at := HDR_LEN + |a|;
      && var r := Patch(Patch(Patch(s, 0, Hdr(nh, plen) + a), at, g), at + |g|, c);
      Patch(r, 2, Short(len - HDR_LEN))[..len] == Layout(nh, len - HDR_LEN, a, g, c)
  {
    var h := Hdr(nh, plen);
    PatchTwice(s, 0, h + a, g);
    PatchTwice(s, 0, h + a + g, c);
    JoinedFour(h, a, g, c);
    LengthPatched(s, nh, plen, a + g + c, len - HDR_LEN);
    JoinedFour(Hdr(nh, len - HDR_LEN), a, g, c);
    PatchSlice(s, 0, Layout(nh, len - HDR_LEN, a, g, c));
  }

  lemma JoinedFour(h: seq<Byte>, a: seq<Byte>, g: seq<Byte>, c: seq<Byte>)
    ensures h + a + g + c == h + (a + g + c)
  {
  }

  /** The other case: the options move to a new buffer. */
  method ReplaceMoved(p: Pkt, off: nat, salv: nat, sleft: nat, addrs: seq<Addr>,
                      ghost nh: Byte, ghost pre: seq<Tlv>, ghost o: Tlv, ghost post: seq<Tlv>, ghost rest: seq<Byte>)
    requires p.Valid() && Carries(p.raw[..], p.tail, nh, pre + [o] + post, rest)
    requires off == HDR_LEN + |FlatAll(pre)|
    modifies p`raw, p`tail
    ensures p.Valid() && fresh(p.raw) && p.raw.Length == p.tail + DEFAULT_TAILROOM
    ensures p.tail == old(p.tail) - |Flat(o)| + 4 + 4 * |addrs|
    ensures |addrs| <= 63 ==>
      Carries(p.raw[..], p.tail, nh, pre + [SrtTlv(salv, sleft, addrs)] + post, rest)
  {
    CarriesLayout(p.raw[..], p.tail, nh, pre, o, post, rest);
    var more := MoveBytes(p.raw, p.tail, off, salv, sleft, addrs, nh, FlatAll(pre), Flat(o), FlatAll(post) + rest);
    var len := p.tail - (p.raw[off + 1] as nat + 2) + 4 + 4 * |addrs|;
    if |addrs| <= 63 {
      LayoutCarries(more[..], len, nh, pre, SrtTlv(salv, sleft, addrs), post, rest);
    }
    p.raw, p.tail := more, len;
  }

  method MoveBytes(raw: array<Byte>, tail: nat, off: nat, salv: nat, sleft: nat, addrs: seq<Addr>,
                   ghost nh: Byte, ghost a: seq<Byte>, ghost f: seq<Byte>, ghost c: seq<Byte>)
    returns (more: array<Byte>)
    requires off == HDR_LEN + |a| && tail == off + |f| + |c| <= raw.Length && |f| >= 2 && f[1] as nat + 2 == |f|
    requires raw[..tail] == Layout(nh, tail - HDR_LEN, a, f, c)
    ensures fresh(more) && raw[off + 1] as nat + 2 == |f|
    ensures var len := tail - |f| + 4 + 4 * |addrs|;
      && more.Length == len + DEFAULT_TAILROOM
      && more[..len] == Layout(nh, len - HDR_LEN, a, Flat(SrtTlv(salv, sleft, addrs)), c)
  {
    LayoutParts(raw[..], tail, nh, a, f, c);
    assert raw[off..off + |f|] == f;
    assert raw[off + 1] == f[1];
    var oldLen, newLen := raw[off + 1] as nat + 2, 4 + 4 * |addrs|;
    var len := tail - oldLen + newLen;
    more := new Byte[len + DEFAULT_TAILROOM];
    ghost var s := more[..];
    MovedLayout(s, nh, tail - HDR_LEN, a, Flat(SrtTlv(salv, sleft, addrs)), c, len);
    MoveAround(raw, tail, more, off, oldLen, salv, sleft, addrs, len, Hdr(nh, tail - HDR_LEN) + a, c);
  }

  method MoveAround(raw: array<Byte>, tail: nat, more: array<Byte>, off: nat, oldLen: nat,
                    salv: nat, sleft: nat, addrs: seq<Addr>, len: nat, ghost head: seq<Byte>, ghost c: seq<Byte>)
    requires raw != more && HDR_LEN <= off && off + oldLen <= tail <= raw.Length
    requires len == tail - oldLen + 4 + 4 * |addrs| <= more.Length
    requires raw[0..off] == head && raw[off + oldLen..tail] == c
    modifies more
    ensures more[..] == Patch(Patch(Patch(Patch(old(more[..]), 0, head), off, Flat(SrtTlv(salv, sleft, addrs))),
      off + 4 + 4 * |addrs|, c), 2, Short(len - HDR_LEN))
  {
    MoveHead(raw, more, off, salv, sleft, addrs, head);
    assert raw[off + oldLen..tail] == c;
    MoveTail(raw, more, off + oldLen, tail, off + 4 + 4 * |addrs|, len, c);
  }

  method MoveHead(raw: array<Byte>, more: array<Byte>, off: nat, salv: nat, sleft: nat, addrs: seq<Addr>,
                  ghost head: seq<Byte>)
    requires raw != more && off <= raw.Length && off + 4 + 4 * |addrs| <= more.Length && raw[0..off] == head
    modifies more
    ensures more[..] == Patch(Patch(old(more[..]), 0, head), off, Flat(SrtTlv(salv, sleft, addrs)))
  {
    CopyPart(raw, 0, off, more, 0, head);
    PutSrtLeft(more, off, salv, sleft, addrs);
  }

  method MoveTail(raw: array<Byte>, more: array<Byte>, i: nat, k: nat, j: nat, len: nat, ghost c: seq<Byte>)
    requires raw != more && i <= k <= raw.Length && j + (k - i) <= more.Length
    requires HDR_LEN <= len <= more.Length && raw[i..k] == c
    modifies more
    ensures more[..] == Patch(Patch(old(more[..]), j, c), 2, Short(len - HDR_LEN))
  {
    CopyPart(raw, i, k, more, j, c);
    Put(more, 2, Short(len - HDR_LEN));
  }

  // ------------------------------------------------------------ options added

  /** dsr_ack_req_opt_add, when there are options but no acknowledgement request yet */
  method AddAckReq(p: Pkt, id: nat, ghost nh: Byte, ghost os: seq<Tlv>)
    requires p.Valid() && Carries(p.raw[..], p.tail, nh, os, []) && p.tail < 0x1_0000
    modifies p, p.raw
    ensures p.Valid() && Carries(p.raw[..], p.tail, nh, os + [AckReqTlv(id)], [])
  {
    ghost var was := p.raw[..p.tail];
    CarriesBytes(p.raw[..], p.tail, nh, os, was);
    var plen, next := ShortOf(p.raw[2], p.raw[3]), p.raw[0];
    var at := p.Expand(4);
    ghost var s := p.raw[..];
    assert s[..at] == was;
    WriteAckReq(p.raw, at, HDR_LEN + plen + 4, next, id);
    AppendedCarries(s, at, nh, os, AckReqTlv(id), was);
  }

  /** dsr_ack_req_opt_add, when a request is present already, at `off`: it gets the new id. */
  method OverwriteAckReq(p: Pkt, off: nat, id: nat, ghost nh: Byte, ghost pre: seq<Tlv>, ghost was: nat,
                         ghost post: seq<Tlv>, ghost rest: seq<Byte>)
    requires p.Valid() && Carries(p.raw[..], p.tail, nh, pre + [AckReqTlv(was)] + post, rest)
    requires off == HDR_LEN + |FlatAll(pre)|
    modifies p.raw
    ensures Carries(p.raw[..], p.tail, nh, pre + [AckReqTlv(id)] + post, rest)
  {
    ghost var m, o, n := p.raw[..], AckReqTlv(was), AckReqTlv(id);
    CarriesLayout(m, p.tail, nh, pre, o, post, rest);
    ReplacedSame(m, p.tail, nh, FlatAll(pre), Flat(o), Flat(n), FlatAll(post) + rest);
    var _ := PutAckReq(p.raw, off, 4, id);
    LayoutCarries(p.raw[..], p.tail, nh, pre, n, post, rest);
  }

  /** dsr_ack_req_opt_add of a packet without options */
  method NewAckReq(nh: Byte, id: nat) returns (p: Pkt)
    ensures fresh(p) && fresh(p.raw) && p.Valid() && Carries(p.raw[..], p.tail, nh, [AckReqTlv(id)], [])
  {
    var len := HDR_LEN + 4;
    p := new Pkt(len);
    ghost var s, o := p.raw[..], AckReqTlv(id);
    var _ := PutHdr(p.raw, len, nh);
    var _ := PutAckReq(p.raw, HDR_LEN, 4, id);
    PatchTwice(s, 0, Hdr(nh, 4), Flat(o));
    FlatOne(o);
    assert FlatAll([o]) + [] == Flat(o);
    PatchCarries(s, nh, [o], [], len);
  }

  lemma CarriesBytes(m: seq<Byte>, len: nat, nh: Byte, os: seq<Tlv>, was: seq<Byte>)
    requires Carries(m, len, nh, os, []) && len < 0x1_0000 && was == m[..len]
    ensures was == Hdr(nh, len - HDR_LEN) + FlatAll(os) && m[0] == nh && ShortOf(m[2], m[3]) == len - HDR_LEN
  {
    CarriesLength(m, len, nh, os, []);
    HeadAndBody(m, len);
    assert FlatAll(os) + [] == FlatAll(os);
  }

  method WriteAckReq(buf: array<Byte>, at: nat, len: nat, nh: Byte, id: nat)
    requires HDR_LEN <= len <= buf.Length && at + 4 <= buf.Length
    modifies buf
    ensures buf[..] == Patch(Patch(old(buf[..]), 0, Hdr(nh, len - HDR_LEN)), at, Flat(AckReqTlv(id)))
  {
    var _ := PutHdr(buf, len, nh);
    var _ := PutAckReq(buf, at, 4, id);
  }

  lemma AppendedCarries(s: seq<Byte>, at: nat, nh: Byte, os: seq<Tlv>, o: Tlv, was: seq<Byte>)
    requires HDR_LEN <= at && at + |Flat(o)| <= |s| && s[..at] == was && AllPlain(os) && Plain(o)
    requires was == Hdr(nh, at - HDR_LEN) + FlatAll(os)
    ensures var len := at + |Flat(o)|;
      Carries(Patch(Patch(s, 0, Hdr(nh, len - HDR_LEN)), at, Flat(o)), len, nh, os + [o], [])
  {
    var len := at + |Flat(o)|;
    var h := Hdr(nh, len - HDR_LEN);
    var m := Patch(Patch(s, 0, h), at, Flat(o));
    HeadReplaced(s, at, was, h, FlatAll(os));
    assert Patch(s, 0, h)[..at] == h + FlatAll(os);
    PatchSlice(Patch(s, 0, h), at, Flat(o));
    assert m[..len] == m[..at] + m[at..len];
    assert m[..len] == Layout(nh, len - HDR_LEN, FlatAll(os), Flat(o), FlatAll([]) + []);
    LayoutCarries(m, len, nh, os, o, [], []);
    assert os + [o] + [] == os + [o];
  }

  lemma HeadReplaced(s: seq<Byte>, at: nat, was: seq<Byte>, h: seq<Byte>, b: seq<Byte>)
    requires |h| == HDR_LEN && at == HDR_LEN + |b| <= |s| && s[..at] == was && was[HDR_LEN..] == b
    ensures Patch(s, 0, h)[..at] == h + b
  {
    assert s[HDR_LEN..at] == was[HDR_LEN..];
  }

  // ------------------------------------------------------------ requests passed on

  /** The last part of dsr_rreq_opt_recv: this node's address is appended to the request at
      `off`, which is the last option. */
  method ExtendRreq(p: Pkt, off: nat, me: Addr, ghost nh: Byte, ghost pre: seq<Tlv>, ghost id: nat, ghost target: Addr,
                    ghost addrs: seq<Addr>)
    requires p.Valid() && p.raw.Length - p.tail > 4 && p.tail < 0x1_0000 - 4
    requires Carries(p.raw[..], p.tail, nh, pre + [RreqTlv(id, target, addrs)] + [], [])
    requires off == HDR_LEN + |FlatAll(pre)|
    modifies p, p.raw
    ensures p.Valid() && p.raw == old(p.raw) && p.tail == old(p.tail) + 4
    ensures |addrs| <= 61 ==> Carries(p.raw[..], p.tail, nh, pre + [RreqTlv(id, target, addrs + [me])] + [], [])
  {
    ghost var s := p.raw[..];
    RequestThere(s, p.tail, nh, pre, id, target, addrs);
    var plen, length := ShortOf(p.raw[2], p.raw[3]), p.raw[off + 1] as nat;
    var n := (length - 6) / 4;
    var at := p.Expand(4);
    assert at == off + 8 + 4 * n;
    assert p.raw[..] == s;
    GrowRreq(p.raw, off, at, length, plen, me, nh, pre, id, target, addrs);
  }

  method GrowRreq(buf: array<Byte>, off: nat, at: nat, length: nat, plen: nat, me: Addr,
                  ghost nh: Byte, ghost pre: seq<Tlv>, ghost id: nat, ghost target: Addr, ghost addrs: seq<Addr>)
    requires off == HDR_LEN + |FlatAll(pre)| && at == off + 8 + 4 * |addrs| && at + 4 <= buf.Length && AllPlain(pre)
    requires length == 6 + 4 * |addrs| && plen == at - HDR_LEN
    requires buf[..][..at] == Layout(nh, at - HDR_LEN, FlatAll(pre), Flat(RreqTlv(id, target, addrs)), [])
    modifies buf
    ensures |addrs| <= 61 ==> Carries(buf[..], at + 4, nh, pre + [RreqTlv(id, target, addrs + [me])] + [], [])
  {
    ghost var s := buf[..];
    WriteGrown(buf, off, at, length, plen, me);
    if |addrs| <= 61 {
      ExtendedCarries(s, at, nh, pre, id, target, addrs, me);
    }
  }

  lemma RequestThere(s: seq<Byte>, len: nat, nh: Byte, pre: seq<Tlv>, id: nat, target: Addr, addrs: seq<Addr>)
    requires Carries(s, len, nh, pre + [RreqTlv(id, target, addrs)] + [], []) && len < 0x1_0000
    ensures var off := HDR_LEN + |FlatAll(pre)|;
      && len == off + 8 + 4 * |addrs| && ShortOf(s[2], s[3]) == len - HDR_LEN
      && s[off + 1] as nat == 6 + 4 * |addrs| && (s[off + 1] as nat - 6) / 4 == |addrs|
    ensures s[..len] == Layout(nh, len - HDR_LEN, FlatAll(pre), Flat(RreqTlv(id, target, addrs)), [])
    ensures AllPlain(pre)
  {
    var off, o := HDR_LEN + |FlatAll(pre)|, RreqTlv(id, target, addrs);
    CarriesLength(s, len, nh, pre + [o] + [], []);
    CarriesLayout(s, len, nh, pre, o, [], []);
    assert FlatAll([]) + [] == [];
    LengthByte(s, len, nh, FlatAll(pre), Flat(o), 6 + 4 * |addrs|);
  }

  lemma LengthByte(s: seq<Byte>, len: nat, nh: Byte, a: seq<Byte>, f: seq<Byte>, n: nat)
    requires len == HDR_LEN + |a| + |f| <= |s| && |f| > 1 && n < 256 && f[1] == Low(n)
    requires s[..len] == Layout(nh, len - HDR_LEN, a, f, [])
    ensures s[HDR_LEN + |a| + 1] as nat == n
  {
    LayoutParts(s, len, nh, a, f, []);
    Behind(s, HDR_LEN + |a|, f, 0);
    LowFits(n);
  }

  method WriteGrown(buf: array<Byte>, off: nat, at: nat, length: nat, plen: nat, me: Addr)
    requires HDR_LEN <= buf.Length && off + 1 < buf.Length && at + 4 <= buf.Length
    modifies buf
    ensures buf[..] == Patch(Patch(old(buf[..]), at, Word(me))[off + 1 := Low(length + 4)], 2, Short(plen + 4))
  {
    Put(buf, at, Word(me));
    buf[off + 1] := Low(length + 4);
    Put(buf, 2, Short(plen + 4));
  }

  lemma ExtendedCarries(s: seq<Byte>, at: nat, nh: Byte, pre: seq<Tlv>, id: nat, target: Addr,
                        addrs: seq<Addr>, me: Addr)
    requires HDR_LEN <= at && at + 4 <= |s| && AllPlain(pre) && |addrs| <= 61
    requires at == HDR_LEN + |FlatAll(pre)| + 8 + 4 * |addrs|
    requires s[..at] == Layout(nh, at - HDR_LEN, FlatAll(pre), Flat(RreqTlv(id, target, addrs)), [])
    ensures var off := HDR_LEN + |FlatAll(pre)|;
      && var m := Patch(Patch(s, at, Word(me))[off + 1 := Low(6 + 4 * |addrs| + 4)], 2, Short(at - HDR_LEN + 4));
      Carries(m, at + 4, nh, pre + [RreqTlv(id, target, addrs + [me])] + [], [])
  {
    var a, len := FlatAll(pre), at + 4;
    var o, n := RreqTlv(id, target, addrs), RreqTlv(id, target, addrs + [me]);
    var h, b := Hdr(nh, at - HDR_LEN), Low(6 + 4 * |addrs| + 4);
    GrownOption(id, target, addrs, me);
    GrownLayout(s, at, nh, a, Flat(o), Word(me), b);
    LastCarries(s, len, nh, pre, n);
  }

  lemma GrownLayout(s: seq<Byte>, at: nat, nh: Byte, a: seq<Byte>, f: seq<Byte>, w: seq<Byte>, b: Byte)
    requires at == HDR_LEN + |a| + |f| && at + |w| <= |s| && |f| > 1
    requires s[..at] == Layout(nh, at - HDR_LEN, a, f, [])
    ensures var g := f[1 := b] + w;
      Patch(Patch(s, at, w)[HDR_LEN + |a| + 1 := b], 2, Short(at - HDR_LEN + |w|))
      == Patch(s, 0, Hdr(nh, at - HDR_LEN + |w|) + (a + g))
  {
    var h, g := Hdr(nh, at - HDR_LEN), f[1 := b] + w;
    assert h + a + f + [] == (h + a) + f;
    GrownPatch(s, at, h + a, f, w, b);
    assert h + a + g == h + (a + g);
    LengthPatched(s, nh, at - HDR_LEN, a + g, at - HDR_LEN + |w|);
  }

  lemma GrownPatch(s: seq<Byte>, at: nat, t: seq<Byte>, f: seq<Byte>, w: seq<Byte>, b: Byte)
    requires at + |w| <= |s| && at == |t| + |f| && |f| > 1 && s[..at] == t + f
    ensures Patch(s, at, w)[|t| + 1 := b] == Patch(s, 0, t + (f[1 := b] + w))
  {
    assert Patch(s, at, w) == t + f + w + s[at + |w|..];
  }

  lemma LastCarries(s: seq<Byte>, len: nat, nh: Byte, pre: seq<Tlv>, n: Tlv)
    requires len == HDR_LEN + |FlatAll(pre)| + |Flat(n)| <= |s| && AllPlain(pre) && Plain(n)
    ensures Carries(Patch(s, 0, Hdr(nh, len - HDR_LEN) + (FlatAll(pre) + Flat(n))), len, nh, pre + [n] + [], [])
  {
    FlatMiddle(pre, n, []);
    PlainMiddle(pre, n, []);
    assert FlatAll(pre + [n] + []) + [] == FlatAll(pre) + Flat(n);
    PatchCarries(s, nh, pre + [n] + [], [], len);
  }

  lemma GrownOption(id: nat, target: Addr,
                        addrs: seq<Addr>, me: Addr)
    ensures Flat(RreqTlv(id, target, addrs + [me])) ==
      Flat(RreqTlv(id, target, addrs))[1 := Low(6 + 4 * |addrs| + 4)] + Word(me)
  {
    WordsSnoc(addrs, me);
  }
}
