/** A packet's option buffer (dsr-pkt.c) and what parsing leaves in the packet (dsr-opt.c). */
module Packets {
  import opened Routes
  import opened Bytes
  import opened Options

  const DEFAULT_TAILROOM: nat := 128

  /** Offsets of the options a packet points to. */
  datatype Slots = Slots(srt: Option<nat>, ackReq: Option<nat>, rreq: Option<nat>,
                         rreps: seq<nat>, rerrs: seq<nat>, acks: seq<nat>)

  const NO_SLOTS := Slots(None, None, None, [], [], [])

  function Capped(s: seq<nat>, off: nat): seq<nat> {
    if |s| < MAX_OPTS then s + [off] else s
  }

  /** One option is taken note of.  The request slot is overwritten: the count of requests
      it is guarded by stays zero while parsing. */
  function Noted(s: Slots, kind: Byte, off: nat): Slots {
    if kind == RREQ then s.(rreq := Some(off))
    else if kind == RREP then s.(rreps := Capped(s.rreps, off))
    else if kind == RERR then s.(rerrs := Capped(s.rerrs, off))
    else if kind == ACK then s.(acks := Capped(s.acks, off))
    else if kind == SRT then (if s.srt.None? then s.(srt := Some(off)) else s)
    else if kind == ACK_REQ then (if s.ackReq.None? then s.(ackReq := Some(off)) else s)
    else s
  }

  function Fill(m: seq<Byte>, offs: seq<nat>): Slots
    requires forall i :: 0 <= i < |offs| ==> offs[i] < |m|
  {
    if offs == [] then NO_SLOTS
    else Noted(Fill(m, offs[..|offs| - 1]), m[offs[|offs| - 1]], offs[|offs| - 1])
  }

  function OfKind(m: seq<Byte>, offs: seq<nat>, kind: Byte): seq<nat>
    requires forall i :: 0 <= i < |offs| ==> offs[i] < |m|
  {
    if offs == [] then []
    else
      var init, off := offs[..|offs| - 1], offs[|offs| - 1];
      if m[off] == kind then OfKind(m, init, kind) + [off] else OfKind(m, init, kind)
  }

  function Some1(s: seq<nat>): Option<nat> { if s == [] then None else Some(s[0]) }

  function First10(s: seq<nat>): seq<nat> { if |s| <= MAX_OPTS then s else s[..MAX_OPTS] }

  function Last1(s: seq<nat>): Option<nat> { if s == [] then None else Some(s[|s| - 1]) }

  /** What a slot is meant to hold, given the options of each kind. */
  ghost predicate SlotOk(s: Slots, kind: Byte, offs: seq<nat>) {
    && (kind == SRT ==> s.srt == Some1(offs))
    && (kind == ACK_REQ ==> s.ackReq == Some1(offs))
    && (kind == RREQ ==> s.rreq == Last1(offs))
    && (kind == RREP ==> s.rreps == First10(offs))
    && (kind == RERR ==> s.rerrs == First10(offs))
    && (kind == ACK ==> s.acks == First10(offs))
  }

  lemma NotedSlotOk(s: Slots, kind: Byte, offs: seq<nat>, k: Byte, off: nat)
    requires SlotOk(s, kind, offs)
    ensures SlotOk(Noted(s, k, off), kind, if k == kind then offs + [off] else offs)
  {
    CappedFirst(offs, off);
  }

  /** The first source route and acknowledgement request count, the last route request, and
      the first ten of the others. */
  lemma {:induction false} FillMeaning(m: seq<Byte>, offs: seq<nat>, kind: Byte)
    requires forall i :: 0 <= i < |offs| ==> offs[i] < |m|
    ensures SlotOk(Fill(m, offs), kind, OfKind(m, offs, kind))
  {
    if offs != [] {
      var init, off := offs[..|offs| - 1], offs[|offs| - 1];
      FillMeaning(m, init, kind);
      NotedSlotOk(Fill(m, init), kind, OfKind(m, init, kind), m[off], off);
    }
  }

  lemma CappedFirst(s: seq<nat>, off: nat)
    ensures First10(s + [off]) == Capped(First10(s), off)
    ensures Some1(s + [off]) == if s == [] then Some(off) else Some1(s)
  {
  }

  lemma {:induction false} WalkInside(m: seq<Byte>, len: nat, l: nat, at: nat)
    ensures Walk(m, len, l, at).Some? ==>
      forall i :: 0 <= i < |Walk(m, len, l, at).value| ==> Walk(m, len, l, at).value[i] < |m|
    decreases len - l
  {
    if len - l > 2 && at < |m| {
      if m[at] == PAD1 {
        WalkInside(m, len, l + 1, at + 2);
      } else if at + 1 < |m| {
        var n := m[at + 1] as nat + 2;
        WalkInside(m, len, l + n, at + n);
      }
    }
  }

  lemma WalkOption(m: seq<Byte>, len: nat, l: nat, at: nat)
    requires len - l > 2 && Walk(m, len, l, at).Some? && m[at] != PAD1
    ensures at + 1 < |m| && var n := m[at + 1] as nat + 2;
      && Walk(m, len, l + n, at + n).Some?
      && Walk(m, len, l, at).value == [at] + Walk(m, len, l + n, at + n).value
      && Walk(m, len, l, at).value != []
      && Walk(m, len, l, at).value[1..] == Walk(m, len, l + n, at + n).value
  {
  }

  class Pkt {
    var raw: array<Byte>
    var tail: nat
    var slots: Slots

    ghost predicate Valid()
      reads this
    {
      tail <= raw.Length
    }

    /** dsr_pkt_alloc_opts */
    constructor (len: nat)
      ensures Valid() && fresh(raw) && tail == len && raw.Length == len + DEFAULT_TAILROOM && slots == NO_SLOTS
    {
      raw := new Byte[len + DEFAULT_TAILROOM];
      tail := len;
      slots := NO_SLOTS;
    }

    /** dsr_pkt_alloc_opts_expand; where the new space starts */
    method Expand(len: nat) returns (at: nat)
      requires Valid()
      modifies this`raw, this`tail
      ensures Valid() && at == old(tail) && tail == old(tail) + len
      ensures raw[..at] == old(raw[..tail])
      ensures if old(raw.Length - tail) > len then raw == old(raw)
              else fresh(raw) && raw.Length == tail + DEFAULT_TAILROOM
    {
      at := tail;
      if raw.Length - tail > len {
        tail := tail + len;
        return;
      }
      var more := new Byte[tail + len + DEFAULT_TAILROOM];
      Copy(raw, 0, more, 0, tail);
      raw := more;
      tail := tail + len;
    }

    /** dsr_opt_parse; the number of options, or nothing when the walk leaves the memory, where
        what the program does is undefined */
    method Parse() returns (n: Option<nat>)
      requires Valid()
      modifies this`slots
      ensures var w := Walk(raw[..], tail, HDR_LEN, HDR_LEN);
        && (n.None? <==> w.None?)
        && (w.Some? ==>
              && (forall i :: 0 <= i < |w.value| ==> w.value[i] < raw.Length)
              && n.value == |w.value| && slots == Fill(raw[..], w.value))
    {
      ghost var m := raw[..];
      ghost var w := Walk(m, tail, HDR_LEN, HDR_LEN);
      ghost var offs := if w.Some? then w.value else [];
      WalkInside(m, tail, HDR_LEN, HDR_LEN);
      var l: nat, at: nat, count: nat := HDR_LEN, HDR_LEN, 0;
      slots := NO_SLOTS;
      assert offs[..0] == [];
      while tail - l > 2
        invariant w.Some? ==> count <= |offs| && Walk(m, tail, l, at) == Some(offs[count..])
        invariant w.Some? ==> slots == Fill(m, offs[..count])
        invariant w.None? ==> Walk(m, tail, l, at).None?
        decreases tail - l
      {
        if at >= raw.Length {
          return None;
        }
        var kind := raw[at];
        if kind == PAD1 {
          l, at := l + 1, at + 2;
        } else {
          if at + 1 >= raw.Length {
            return None;
          }
          if w.Some? {
            WalkOption(m, tail, l, at);
            assert offs[count..][0] == at && offs[count..][1..] == offs[count + 1..];
            assert offs[..count + 1][..count] == offs[..count];
          }
          var size := raw[at + 1] as nat + 2;
          slots := Noted(slots, kind, at);
          l, at, count := l + size, at + size, count + 1;
        }
      }
      assert w.Some? ==> offs[..count] == offs;
      return Some(count);
    }
  }

  /** memcpy */
  method Copy(from: array<Byte>, i: nat, to: array<Byte>, j: nat, n: nat)
    requires from != to && i + n <= from.Length && j + n <= to.Length
    modifies to
    ensures to[..j] == old(to[..j]) && to[j..j + n] == from[i..i + n] && to[j + n..] == old(to[j + n..])
  {
    var k := 0;
    while k < n
      invariant 0 <= k <= n
      invariant to[..j] == old(to[..j]) && to[j..j + k] == from[i..i + k] && to[j + n..] == old(to[j + n..])
    {
      to[j + k] := from[i + k];
      k := k + 1;
    }
  }
}
