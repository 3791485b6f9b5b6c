/** The log ring buffer (debug.c).  The reader gives up its lock between characters; what
    others do meanwhile is a list of operations per gap. */
module DebugLog {

  const LEN: nat := 16384

  /** What may happen while the lock is free: a character is logged, another reader takes
      one, or the log is cleared. */
  datatype Op = Emit(c: char) | Take | Clear

  datatype Result = Done(n: nat) | Invalid | Fault

  function Min(a: nat, b: nat): nat { if a <= b then a else b }

  /** The characters logged in a gap. */
  function Emitted(ops: seq<Op>): (s: seq<char>) {
    if ops == [] then []
    else Emitted(ops[..|ops| - 1]) + match ops[|ops| - 1] case Emit(c) => [c] case _ => []
  }

  class Log {
    const ring: array<char>
    var start: nat
    var end: nat
    var logged: nat
    /** Every character ever logged. */
    ghost var all: seq<char>

    ghost predicate Valid()
      reads this, ring
    {
      && ring.Length == LEN
      && end == |all| && start <= end <= start + LEN
      && logged <= LEN && logged <= end
      && forall k {:trigger all[k]} :: 0 <= k < end <= k + LEN ==> ring[k % LEN] == all[k]
    }

    constructor ()
      ensures Valid() && all == [] && start == 0 && fresh(ring)
    {
      ring := new char[LEN];
      start, end, logged, all := 0, 0, 0, [];
    }

    /** dsr_emit_log_char */
    method EmitChar(c: char)
      requires Valid()
      modifies this, ring
      ensures Valid() && all == old(all) + [c]
      ensures start == if old(end) + 1 - old(start) > LEN then old(end) + 1 - LEN else old(start)
      ensures logged == Min(old(logged) + 1, LEN)
    {
      ring[end % LEN] := c;
      all := all + [c];
      end := end + 1;
      if end - start > LEN {
        start := end - LEN;
      }
      if logged < LEN {
        logged := logged + 1;
      }
      forall k | 0 <= k < end <= k + LEN ensures ring[k % LEN] == all[k] {
        if k < end - 1 {
          assert all[k] == old(all)[k];
          OtherSlot(k, end - 1);
        }
      }
    }

    /** What others do in one gap: they log and clear, and take unread characters. */
    method Interfere(ops: seq<Op>)
      requires Valid()
      modifies this, ring
      ensures Valid() && all == old(all) + Emitted(ops) && old(start) <= start
      ensures ops == [] ==> start == old(start) && logged == old(logged)
    {
      assert ops[..|ops|] == ops;
      for i := 0 to |ops|
        invariant Valid() && all == old(all) + Emitted(ops[..i]) && old(start) <= start
        invariant i == 0 ==> start == old(start) && logged == old(logged)
      {
        assert ops[..i + 1][..i] == ops[..i];
        match ops[i]
        case Emit(c) => EmitChar(c);
        case Clear => logged := 0;
        case Take => if start < end { start := start + 1; }
      }
    }

    /** One character is taken, and the lock given up. */
    method Next(ops: seq<Op>) returns (c: char)
      requires Valid() && start < end
      modifies this, ring
      ensures Valid() && all == old(all) + Emitted(ops) && old(all) <= all && old(start) < start
      ensures c == all[old(start)]
      ensures ops == [] ==> all == old(all) && start == old(start) + 1 && logged == old(logged)
    {
      c := ring[start % LEN];
      assert c == all[start];
      start := start + 1;
      Interfere(ops);
    }

    /** do_dbglog, case 2: reads what was not read before.  `others` is what happens in each
        gap, `fault` the put to user space that fails, if any. */
    method Read(buf: array<char>, len: nat, others: seq<seq<Op>>, fault: nat) returns (r: Result, ghost ps: seq<nat>)
      requires Valid() && buf != ring && len <= buf.Length
      modifies this, ring, buf
      ensures Valid() && old(all) <= all && old(start) <= start
      ensures r.Done? ==> r.n == |ps| <= len && Picked(buf[..r.n], all, ps)
      ensures r.Fault? ==> fault < len
      ensures r.Done? ==> fault >= r.n
      ensures !r.Invalid?
      ensures Rising(ps, old(start), start)
      ensures forall k :: len <= k < buf.Length ==> buf[k] == old(buf[k])
      ensures others == [] && fault >= len ==> r == Done(Min(len, old(end - start)))
      ensures others == [] ==> forall i :: 0 <= i < |ps| ==> ps[i] == old(start) + i
      ensures others == [] ==> all == old(all) && logged == old(logged) && start == old(start) + |ps|
    {
      var i, error := 0, false;
      ps := [];
      while !error && start != end && i < len
        invariant Valid() && i <= len && |ps| == i
        invariant old(all) <= all && old(start) <= start
        invariant if error then fault < i else fault >= i
        invariant !error ==> Picked(buf[..i], all, ps)
        invariant Rising(ps, old(start), start)
        invariant forall k :: len <= k < buf.Length ==> buf[k] == old(buf[k])
        invariant others == [] ==> start == old(start) + i && all == old(all) && logged == old(logged)
        invariant others == [] ==> forall k :: 0 <= k < i ==> ps[k] == old(start) + k
        decreases len - i
      {
        ghost var was, p, text := all, start, buf[..i];
        var c := Next(if i < |others| then others[i] else []);
        RisingSnoc(ps, old(start), p, start);
        error := i == fault;
        if !error {
          PickedSnoc(text, was, ps, all, c, p);
          buf[i] := c;
          assert buf[..i + 1] == text + [c];
        }
        ps := ps + [p];
        i := i + 1;
      }
      r := if error then Fault else Done(i);
    }

    /** do_dbglog, cases 3 and 4: copies the last characters backwards, so that those most at
        risk of being overwritten come last, and stops at the first one that is gone. */
    method ReadLast(buf: array?<char>, len: int, clear: bool, others: seq<seq<Op>>, fault: nat, shiftFault: nat)
      returns (r: Result)
      requires Valid() && buf != ring && (buf != null ==> len <= buf.Length)
      modifies this, ring, buf
      ensures Valid() && old(all) <= all
      ensures r.Invalid? <==> buf == null || len < 0
      ensures r.Done? ==>
        && var count := Min(Min(len, LEN), old(logged));
           && r.n <= count && buf[..r.n] == old(all)[|old(all)| - r.n..]
           && (r.n < count ==> |old(all)| - 1 - r.n + LEN < end)
      ensures r.Done? && others == [] ==> r.n == Min(Min(len, LEN), old(logged))
      ensures r.Fault? ==> fault < len || shiftFault < len
      ensures r.Done? ==> fault >= r.n && (r.n < Min(Min(len, LEN), old(logged)) ==> shiftFault >= r.n)
      ensures others == [] ==> logged == if clear && !r.Invalid? && len > 0 then 0 else old(logged)
      ensures buf != null ==> forall k :: 0 <= k < buf.Length && len <= k ==> buf[k] == old(buf[k])
      ensures others == [] ==> all == old(all) && start == old(start)
    {
      if buf == null || len < 0 {
        return Invalid;
      }
      if len == 0 {
        return Done(0);
      }
      var count := Min(Min(len, LEN), logged);
      if clear {
        logged := 0;
      }
      ghost var text := all;
      var limit, i := end, 0;
      i := CopyBack(buf, count, limit, others, fault, text);
      if i < 0 {
        return Fault;
      }
      r := Done(i);
      if i != count {
        var ok := ShiftDown(buf, count - i, i, shiftFault);
        if !ok {
          return Fault;
        }
      }
    }

    /** The character at a position not yet overwritten, and what happens before it is put. */
    method Fetch(j: nat, ops: seq<Op>) returns (c: char)
      requires Valid() && j < |all| && end <= j + LEN
      modifies this, ring
      ensures Valid() && all == old(all) + Emitted(ops) && old(all) <= all
      ensures ops == [] ==> all == old(all) && start == old(start) && logged == old(logged)
      ensures c == old(all[j])
    {
      c := ring[j % LEN];
      Interfere(ops);
    }

    /** The copying loop; the number of characters copied, or -1 after a fault. */
    method CopyBack(buf: array<char>, count: nat, limit: nat, others: seq<seq<Op>>, fault: nat, ghost text: seq<char>)
      returns (copied: int)
      requires Valid() && buf != ring && count <= buf.Length && count <= limit
      requires text <= all && limit == |text|
      modifies this, ring, buf
      ensures Valid() && old(all) <= all
      ensures -1 <= copied <= count && (copied == -1 ==> fault < count) && copied <= fault
      ensures copied >= 0 ==> buf[count - copied..count] == text[limit - copied..]
      ensures 0 <= copied < count ==> limit - 1 - copied + LEN < end
      ensures forall k :: count <= k < buf.Length ==> buf[k] == old(buf[k])
      ensures others == [] ==> all == old(all) && start == old(start) && logged == old(logged)
    {
      var i, error := 0, false;
      while i < count && !error
        invariant 0 <= i <= count && if error then fault < i else fault >= i
        invariant Valid() && text <= all && old(all) <= all
        invariant others == [] ==> all == old(all) && start == old(start) && logged == old(logged)
        invariant !error ==> buf[count - i..count] == text[limit - i..]
        invariant forall k :: count <= k < buf.Length ==> buf[k] == old(buf[k])
      {
        var j := limit - 1 - i;
        if j + LEN < end {
          break;
        }
        var c := Fetch(j, if i < |others| then others[i] else []);
        error := i == fault;
        if !error {
          buf[count - 1 - i] := c;
        }
        i := i + 1;
      }
      copied := if error then -1 else i;
    }
  }

  /** Moves the characters copied to the front of the buffer. */
  method ShiftDown(buf: array<char>, offset: nat, n: nat, fault: nat) returns (ok: bool)
    requires offset + n <= buf.Length
    modifies buf
    ensures ok ==> buf[..n] == old(buf[offset..offset + n])
    ensures forall k :: n <= k < buf.Length ==> buf[k] == old(buf[k])
    ensures ok <==> fault >= n
  {
    var i := 0;
    while i < n
      invariant 0 <= i <= n && i <= fault
      invariant forall k :: 0 <= k < i ==> buf[k] == old(buf[offset + k])
      invariant forall k :: i <= k < buf.Length ==> buf[k] == old(buf[k])
    {
      if i == fault {
        return false;
      }
      buf[i] := buf[i + offset];
      i := i + 1;
    }
    return true;
  }

  /** Positions less than a buffer apart use different slots. */
  lemma OtherSlot(k: nat, j: nat)
    requires k < j < k + LEN
    ensures k % LEN != j % LEN
  {
  }

  /** Positions from `lo` to below `hi`, each greater than the one before. */
  ghost predicate Rising(ps: seq<nat>, lo: nat, hi: nat) {
    && (forall i, j :: 0 <= i < j < |ps| ==> ps[i] < ps[j])
    && (forall i :: 0 <= i < |ps| ==> lo <= ps[i] < hi)
  }

  lemma RisingSnoc(ps: seq<nat>, lo: nat, p: nat, hi: nat)
    requires Rising(ps, lo, p) && lo <= p < hi
    ensures Rising(ps + [p], lo, hi)
  {
  }

  /** The characters of `all` at some positions. */
  ghost predicate Picked(text: seq<char>, all: seq<char>, ps: seq<nat>) {
    |text| == |ps| && forall i :: 0 <= i < |ps| ==> ps[i] < |all| && text[i] == all[ps[i]]
  }

  lemma PickedSnoc(text: seq<char>, all: seq<char>, ps: seq<nat>, more: seq<char>, c: char, p: nat)
    requires Picked(text, all, ps) && all <= more && p < |more| && c == more[p]
    ensures Picked(text + [c], more, ps + [p])
  {
    forall i | 0 <= i < |ps| ensures all[ps[i]] == more[ps[i]] {
    }
  }
}
