/** The option walk (dsr-opt.c).  A header is four bytes, then options of a type byte, a
    length byte and that many bytes; the program steps through them with a cursor and,
    separately, a count of the bytes dealt with. */
module Options {
  import opened Routes
  import opened Bytes

  const HDR_LEN: nat := 4
  const MAX_OPTS: nat := 10

  const RREP: Byte := 1
  const RREQ: Byte := 2
  const RERR: Byte := 3
  const ACK: Byte := 32
  const SRT: Byte := 96
  const ACK_REQ: Byte := 160
  const PAD1: Byte := 224

  datatype Tlv = Tlv(kind: Byte, data: seq<Byte>)

  /** An option as the senders make them: not PAD1, not empty, and of a length that fits. */
  predicate Plain(o: Tlv) {
    o.kind != PAD1 && 1 <= |o.data| < 256
  }

  ghost predicate AllPlain(os: seq<Tlv>) {
    forall i :: 0 <= i < |os| ==> Plain(os[i])
  }

  function Flat(o: Tlv): (b: seq<Byte>)
    ensures |b| == 2 + |o.data|
  {
    [o.kind, Low(|o.data|)] + o.data
  }

  function FlatAll(os: seq<Tlv>): seq<Byte> {
    if os == [] then [] else Flat(os[0]) + FlatAll(os[1..])
  }

  lemma {:induction false} FlatAllAppend(a: seq<Tlv>, b: seq<Tlv>)
    ensures FlatAll(a + b) == FlatAll(a) + FlatAll(b)
  {
    if a == [] {
      assert a + b == b;
    } else {
      FlatAllAppend(a[1..], b);
      assert (a + b)[0] == a[0] && (a + b)[1..] == a[1..] + b;
      Joined(Flat(a[0]), FlatAll(a[1..]), FlatAll(b));
    }
  }

  lemma Joined(a: seq<Byte>, b: seq<Byte>, c: seq<Byte>)
    ensures a + (b + c) == a + b + c
  {
  }

  lemma FlatOne(o: Tlv)
    ensures FlatAll([o]) == Flat(o)
  {
    assert [o][1..] == [];
  }

  // ------------------------------------------------------------ the walk

  /** Where the walk over the first `len` bytes of the memory `m` finds options, when `l`
      bytes are counted and the cursor is at `at`; nothing when it leaves the memory. */
  function Walk(m: seq<Byte>, len: nat, l: nat, at: nat): (r: Option<seq<nat>>)
    decreases len - l
  {
    if len - l <= 2 then Some([])
    else if at >= |m| then None
    else if m[at] == PAD1 then Walk(m, len, l + 1, at + 2)
    else if at + 1 >= |m| then None
    else
      var n := m[at + 1] as nat + 2;
      match Walk(m, len, l + n, at + n)
      case None => None
      case Some(s) => Some([at] + s)
  }

  /** Where the options of a list laid out from `at` on are. */
  function Offsets(os: seq<Tlv>, at: nat): (s: seq<nat>)
    ensures |s| == |os|
  {
    if os == [] then [] else [at] + Offsets(os[1..], at + |Flat(os[0])|)
  }

  /** The memory holds these options from `at` on, and at most two bytes more up to `len`. */
  ghost predicate Holds(m: seq<Byte>, len: nat, at: nat, os: seq<Tlv>, rest: seq<Byte>) {
    at <= len <= |m| && |rest| <= 2 && m[at..len] == FlatAll(os) + rest
  }

  lemma HoldsFirst(m: seq<Byte>, len: nat, at: nat, os: seq<Tlv>, rest: seq<Byte>)
    requires Holds(m, len, at, os, rest) && os != [] && Plain(os[0])
    ensures var n := |Flat(os[0])|;
      && at + n <= len && m[at..at + n] == Flat(os[0])
      && m[at] == os[0].kind && m[at + 1] as nat + 2 == n
      && Holds(m, len, at + n, os[1..], rest)
  {
    var n := |Flat(os[0])|;
    var s := m[at..len];
    assert s == Flat(os[0]) + (FlatAll(os[1..]) + rest);
    assert s[..n] == Flat(os[0]) && s[n..] == FlatAll(os[1..]) + rest;
    assert s[0] == os[0].kind && s[1] == Low(|os[0].data|);
    SliceOfSlice(m, at, len, n);
  }

  lemma SliceOfSlice(m: seq<Byte>, at: nat, len: nat, n: nat)
    requires at + n <= len <= |m|
    ensures m[at..at + n] == m[at..len][..n] && m[at + n..len] == m[at..len][n..]
  {
  }

  /** The walk finds exactly the options laid out. */
  lemma {:induction false} WalkFindsAll(m: seq<Byte>, len: nat, at: nat, os: seq<Tlv>, rest: seq<Byte>)
    requires Holds(m, len, at, os, rest) && AllPlain(os)
    ensures Walk(m, len, at, at) == Some(Offsets(os, at))
    decreases |os|
  {
    if os == [] {
      assert m[at..len] == rest;
    } else {
      HoldsFirst(m, len, at, os, rest);
      var n := |Flat(os[0])|;
      WalkFindsAll(m, len, at + n, os[1..], rest);
      assert len - at > 2;
    }
  }

  /** What is at an offset the walk found. */
  function At(m: seq<Byte>, off: nat): (o: Option<Tlv>) {
    if off + 1 < |m| && off + 2 + m[off + 1] as nat <= |m| then
      Some(Tlv(m[off], m[off + 2..off + 2 + m[off + 1] as nat]))
    else None
  }

  lemma {:induction false} FoundIsWritten(m: seq<Byte>, len: nat, at: nat, os: seq<Tlv>, rest: seq<Byte>, i: nat)
    requires Holds(m, len, at, os, rest) && AllPlain(os) && i < |os|
    ensures At(m, Offsets(os, at)[i]) == Some(os[i])
    decreases |os|
  {
    HoldsFirst(m, len, at, os, rest);
    var n := |Flat(os[0])|;
    if i == 0 {
      assert m[at + 2..at + n] == m[at..at + n][2..] == os[0].data;
    } else {
      FoundIsWritten(m, len, at + n, os[1..], rest, i - 1);
    }
  }

  // ------------------------------------------------------------ PAD1

  lemma {:induction false} WalkMovesOn(m: seq<Byte>, len: nat, l: nat, at: nat)
    ensures Walk(m, len, l, at).Some? ==> forall off :: off in Walk(m, len, l, at).value ==> off >= at
    decreases len - l
  {
    if len - l > 2 && at < |m| {
      if m[at] == PAD1 {
        WalkMovesOn(m, len, l + 1, at + 2);
      } else if at + 1 < |m| {
        var n := m[at + 1] as nat + 2;
        WalkMovesOn(m, len, l + n, at + n);
      }
    }
  }

  /** The cursor moves by two over a PAD1, which is one byte: the option behind it is never
      found. */
  lemma PadHidesNext(m: seq<Byte>, len: nat, l: nat, at: nat)
    requires len - l > 2 && at < |m| && m[at] == PAD1
    ensures Walk(m, len, l, at).Some? ==> at + 1 !in Walk(m, len, l, at).value
  {
    WalkMovesOn(m, len, l + 1, at + 2);
  }

  /** One PAD1 among options: all of them are found exactly when none comes behind it. */
  lemma {:induction false} OnePad(m: seq<Byte>, len: nat, at: nat, pre: seq<Tlv>, post: seq<Tlv>)
    requires at <= len <= |m| && m[at..len] == FlatAll(pre) + [PAD1] + FlatAll(post)
    requires AllPlain(pre) && AllPlain(post)
    ensures FindsAll(m, len, at, pre, post) <==> post == []
    decreases |pre|
  {
    if pre == [] {
      PadFirst(m, len, at, post);
    } else {
      var n := |Flat(pre[0])|;
      PadLayout(pre, post);
      FirstOf(m, len, at, pre[0], FlatAll(pre[1..]) + [PAD1] + FlatAll(post));
      OnePad(m, len, at + n, pre[1..], post);
      FindsFirst(m, len, at, n, pre, post);
    }
  }

  ghost predicate FindsAll(m: seq<Byte>, len: nat, at: nat, pre: seq<Tlv>, post: seq<Tlv>) {
    Walk(m, len, at, at) == Some(Around(pre, post, at))
  }

  lemma FindsFirst(m: seq<Byte>, len: nat, at: nat, n: nat, pre: seq<Tlv>, post: seq<Tlv>)
    requires pre != [] && n == |Flat(pre[0])|
    requires len - at > 2 && at + 1 < |m| && m[at] != PAD1 && m[at + 1] as nat + 2 == n
    ensures FindsAll(m, len, at, pre, post) <==> FindsAll(m, len, at + n, pre[1..], post)
  {
    AroundFirst(pre, post, at);
    WalkOn(m, len, at, n, Around(pre[1..], post, at + n));
  }

  /** Where the options around a PAD1 are. */
  function Around(pre: seq<Tlv>, post: seq<Tlv>, at: nat): seq<nat> {
    Offsets(pre, at) + Offsets(post, at + |FlatAll(pre)| + 1)
  }

  lemma AroundFirst(pre: seq<Tlv>, post: seq<Tlv>, at: nat)
    requires pre != []
    ensures Around(pre, post, at) == [at] + Around(pre[1..], post, at + |Flat(pre[0])|)
  {
    PadLayout(pre, post);
    assert at + |FlatAll(pre)| + 1 == at + |Flat(pre[0])| + |FlatAll(pre[1..])| + 1;
    OffsetsJoined(pre, at, Offsets(post, at + |FlatAll(pre)| + 1));
  }

  lemma PadLayout(pre: seq<Tlv>, post: seq<Tlv>)
    requires pre != []
    ensures FlatAll(pre) + [PAD1] + FlatAll(post) == Flat(pre[0]) + (FlatAll(pre[1..]) + [PAD1] + FlatAll(post))
    ensures |FlatAll(pre)| == |Flat(pre[0])| + |FlatAll(pre[1..])|
  {
    Joined(Flat(pre[0]), FlatAll(pre[1..]), [PAD1]);
    Joined(Flat(pre[0]), FlatAll(pre[1..]) + [PAD1], FlatAll(post));
  }

  lemma PadFirst(m: seq<Byte>, len: nat, at: nat, post: seq<Tlv>)
    requires at <= len <= |m| && m[at..len] == FlatAll([]) + [PAD1] + FlatAll(post) && AllPlain(post)
    ensures FindsAll(m, len, at, [], post) <==> post == []
  {
    assert m[at..len][0] == PAD1;
    if post != [] {
      assert Plain(post[0]) && |FlatAll(post)| >= 3;
      PadHidesNext(m, len, at, at);
      assert Around([], post, at)[0] == at + 1;
    }
  }

  /** The first option of a layout. */
  lemma FirstOf(m: seq<Byte>, len: nat, at: nat, o: Tlv, rest: seq<Byte>)
    requires at <= len <= |m| && Plain(o) && |rest| > 0
    ensures m[at..len] == Flat(o) + rest ==>
      && at + |Flat(o)| <= len && len - at > 2
      && m[at] == o.kind && m[at + 1] as nat + 2 == |Flat(o)|
      && m[at + |Flat(o)|..len] == rest
  {
    if m[at..len] == Flat(o) + rest {
      var s, n := m[at..len], |Flat(o)|;
      assert s[..n] == Flat(o) && s[n..] == rest;
      assert s[0] == o.kind && s[1] == Low(|o.data|);
      SliceOfSlice(m, at, len, n);
    }
  }

  lemma OffsetsJoined(pre: seq<Tlv>, at: nat, more: seq<nat>)
    requires pre != []
    ensures Offsets(pre, at) + more == [at] + (Offsets(pre[1..], at + |Flat(pre[0])|) + more)
  {
  }

  lemma WalkOn(m: seq<Byte>, len: nat, at: nat, n: nat, s: seq<nat>)
    requires len - at > 2 && at + 1 < |m| && m[at] != PAD1 && m[at + 1] as nat + 2 == n
    ensures Walk(m, len, at, at) == Some([at] + s) <==> Walk(m, len, at + n, at + n) == Some(s)
  {
    var w := Walk(m, len, at + n, at + n);
    if w.Some? && [at] + w.value == [at] + s {
      assert ([at] + w.value)[1..] == w.value && ([at] + s)[1..] == s;
    }
  }
}
