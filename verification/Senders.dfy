/** How the senders fill a packet's option buffer, and that the option walk finds what they
    wrote. */
module Senders {
  import opened Routes
  import opened Bytes
  import opened Options
  import opened Packets
  import opened Codec

  /** The buffer `s` with `b` written at `at`. */
  function Patch(s: seq<Byte>, at: nat, b: seq<Byte>): (r: seq<Byte>)
    requires at + |b| <= |s|
    ensures |r| == |s|
  {
    seq(|s|, i requires 0 <= i < |s| => if at <= i < at + |b| then b[i - at] else s[i])
  }

  lemma PatchTwice(s: seq<Byte>, at: nat, a: seq<Byte>, b: seq<Byte>)
    requires at + |a| + |b| <= |s|
    ensures Patch(Patch(s, at, a), at + |a|, b) == Patch(s, at, a + b)
  {
  }

  lemma PatchSlice(s: seq<Byte>, at: nat, b: seq<Byte>)
    requires at + |b| <= |s|
    ensures Patch(s, at, b)[at..at + |b|] == b && Patch(s, at, b)[..at] == s[..at]
  {
  }

  // ------------------------------------------------------------ writing

  method Put(buf: array<Byte>, at: nat, b: seq<Byte>)
    requires at + |b| <= buf.Length
    modifies buf
    ensures buf[..] == Patch(old(buf[..]), at, b)
  {
    var i := 0;
    while i < |b|
      invariant 0 <= i <= |b|
      invariant buf[..at] == old(buf[..at]) && buf[at..at + i] == b[..i] && buf[at + |b|..] == old(buf[at + |b|..])
    {
      buf[at + i] := b[i];
      i := i + 1;
    }
    assert buf[..] == buf[..at] + buf[at..at + |b|] + buf[at + |b|..];
  }

  lemma PatchWord(s: seq<Byte>, at: nat, addrs: seq<Addr>, i: nat)
    requires i < |addrs| && at + 4 * |addrs| <= |s|
    ensures Patch(Patch(s, at, Words(addrs[..i])), at + 4 * i, Word(addrs[i])) == Patch(s, at, Words(addrs[..i + 1]))
  {
    assert addrs[..i + 1] == addrs[..i] + [addrs[i]];
    WordsSnoc(addrs[..i], addrs[i]);
    PatchTwice(s, at, Words(addrs[..i]), Word(addrs[i]));
  }

  method PutWord(buf: array<Byte>, at: nat, addrs: seq<Addr>, i: nat, ghost s: seq<Byte>)
    requires i < |addrs| && at + 4 * |addrs| <= buf.Length == |s| && buf[..] == Patch(s, at, Words(addrs[..i]))
    modifies buf
    ensures buf[..] == Patch(s, at, Words(addrs[..i + 1]))
  {
    PatchWord(s, at, addrs, i);
    Put(buf, at + 4 * i, Word(addrs[i]));
  }

  /** Copying the addresses of a route. */
  method PutWords(buf: array<Byte>, at: nat, addrs: seq<Addr>)
    requires at + 4 * |addrs| <= buf.Length
    modifies buf
    ensures buf[..] == Patch(old(buf[..]), at, Words(addrs))
  {
    ghost var s := buf[..];
    var i := 0;
    assert Words(addrs[..0]) == [] && Patch(s, at, []) == s;
    while i < |addrs|
      invariant 0 <= i <= |addrs|
      invariant buf[..] == Patch(s, at, Words(addrs[..i]))
    {
      PutWord(buf, at, addrs, i, s);
      i := i + 1;
    }
    assert addrs[..i] == addrs;
  }

  /** dsr_opt_hdr_add */
  method PutHdr(buf: array<Byte>, len: nat, nh: Byte) returns (ok: bool)
    requires len <= buf.Length
    modifies buf
    ensures ok <==> len >= HDR_LEN
    ensures buf[..] == if ok then Patch(old(buf[..]), 0, Hdr(nh, len - HDR_LEN)) else old(buf[..])
  {
    if len < HDR_LEN {
      return false;
    }
    Put(buf, 0, [nh, 0] + Short(len - HDR_LEN));
    return true;
  }

  /** dsr_srt_opt_add */
  method PutSrt(buf: array<Byte>, at: nat, len: nat, salv: nat, addrs: seq<Addr>) returns (ok: bool)
    requires at + len <= buf.Length
    modifies buf
    ensures ok <==> len >= 4 + 4 * |addrs|
    ensures buf[..] == if ok then Patch(old(buf[..]), at, Flat(SrtTlv(salv, |addrs|, addrs))) else old(buf[..])
  {
    if len < 4 + 4 * |addrs| {
      return false;
    }
    ghost var s := buf[..];
    var w := SrtField(salv, |addrs|);
    var fixed := [SRT, Low(4 * |addrs| + 2), Low(w), Low(w / 256)];
    Put(buf, at, fixed);
    PatchTwice(s, at, fixed, Words(addrs));
    assert fixed + Words(addrs) == Flat(SrtTlv(salv, |addrs|, addrs));
    PutWords(buf, at + 4, addrs);
    return true;
  }

  /** dsr_rreq_opt_add */
  method PutRreq(buf: array<Byte>, at: nat, len: nat, target: Addr, id: nat) returns (ok: bool)
    requires at + len <= buf.Length
    modifies buf
    ensures ok <==> len >= 8
    ensures buf[..] == if ok then Patch(old(buf[..]), at, Flat(RreqTlv(id, target, []))) else old(buf[..])
  {
    if len < 8 {
      return false;
    }
    assert [RREQ, 6] + Short(id) + Word(target) == Flat(RreqTlv(id, target, []));
    Put(buf, at, [RREQ, 6] + Short(id) + Word(target));
    return true;
  }

  /** dsr_rrep_opt_add; the padding byte keeps what was in the buffer */
  method PutRrep(buf: array<Byte>, at: nat, len: nat, srt: Route) returns (ok: bool)
    requires at + len <= buf.Length
    modifies buf
    ensures ok <==> len >= 8 + 4 * |srt.addrs|
    ensures ok ==> buf[..] == Patch(old(buf[..]), at, RrepBytes(old(buf[at + 3]), srt.addrs + [srt.dst]))
    ensures !ok ==> buf[..] == old(buf[..])
  {
    if len < 8 + 4 * |srt.addrs| {
      return false;
    }
    ghost var s := buf[..];
    var route := srt.addrs + [srt.dst];
    var fixed := [RREP, Low(4 * |srt.addrs| + 4 + 1), 0, buf[at + 3]];
    Put(buf, at, fixed);
    PatchTwice(s, at, fixed, Words(route));
    PutWords(buf, at + 4, route);
    return true;
  }

  /** dsr_rerr_opt_add of an unreachable node */
  method PutRerr(buf: array<Byte>, at: nat, len: nat, salv: nat, src: Addr, dst: Addr, unreachable: Addr)
    returns (ok: bool)
    requires at + len <= buf.Length
    modifies buf
    ensures len >= 16 ==> ok && buf[..] == Patch(old(buf[..]), at, Flat(RerrTlv(salv, src, dst, unreachable)))
    ensures len < 16 ==> !ok
  {
    if len < 12 {
      return false;
    }
    ghost var s := buf[..];
    var fixed := [RERR, 10, 1, Low(16 * (salv % 16))] + Word(src) + Word(dst);
    Put(buf, at, fixed);
    if len < 16 {
      return false;
    }
    PatchRerr(s, at, salv, src, dst, unreachable);
    buf[at + 1] := buf[at + 1] + 4;
    Put(buf, at + 12, Word(unreachable));
    return true;
  }

  lemma PatchRerr(s: seq<Byte>, at: nat, salv: nat, src: Addr, dst: Addr, unreachable: Addr)
    requires at + 16 <= |s|
    ensures var fixed := [RERR, 10, 1, Low(16 * (salv % 16))] + Word(src) + Word(dst);
      && Patch(s, at, fixed)[at + 1] == 10
      && Patch(Patch(s, at, fixed)[at + 1 := 14], at + 12, Word(unreachable))
         == Patch(s, at, Flat(RerrTlv(salv, src, dst, unreachable)))
  {
    var fixed := [RERR, 10, 1, Low(16 * (salv % 16))] + Word(src) + Word(dst);
    assert Patch(s, at, fixed)[at + 1 := 14] == Patch(s, at, fixed[1 := 14]);
    PatchTwice(s, at, fixed[1 := 14], Word(unreachable));
    assert fixed[1 := 14] + Word(unreachable) == Flat(RerrTlv(salv, src, dst, unreachable));
  }

  /** dsr_ack_opt_add */
  method PutAck(buf: array<Byte>, at: nat, len: nat, src: Addr, dst: Addr, id: nat) returns (ok: bool)
    requires at + len <= buf.Length
    modifies buf
    ensures ok <==> len >= 12
    ensures buf[..] == if ok then Patch(old(buf[..]), at, Flat(AckTlv(src, dst, id))) else old(buf[..])
  {
    if len < 12 {
      return false;
    }
    assert [ACK, 10] + Short(id) + Word(src) + Word(dst) == Flat(AckTlv(src, dst, id));
    Put(buf, at, [ACK, 10] + Short(id) + Word(src) + Word(dst));
    return true;
  }

  /** dsr_ack_req_opt_create */
  method PutAckReq(buf: array<Byte>, at: nat, len: nat, id: nat) returns (ok: bool)
    requires at + len <= buf.Length
    modifies buf
    ensures ok <==> len >= 4
    ensures buf[..] == if ok then Patch(old(buf[..]), at, Flat(AckReqTlv(id))) else old(buf[..])
  {
    if len < 4 {
      return false;
    }
    assert [ACK_REQ, 2] + Short(id) == Flat(AckReqTlv(id));
    Put(buf, at, [ACK_REQ, 2] + Short(id));
    return true;
  }
}
