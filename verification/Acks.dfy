/** The numbers of acknowledgement requests (maint-buf.c, neigh.c): what an id tells about
    the order in which packets were handed to the maintenance buffer. */
module Acks {
  import opened Routes

  /** Modulus of an `unsigned short`. */
  const U16: nat := 0x1_0000

  /** A packet handed to the buffer: its next hop, and whether it carried a request. */
  datatype Sent = Sent(next: Addr, request: bool)

  /** The neighbour's number after the history `h`: it starts at 1 and counts requests. */
  ghost function Counter(h: seq<Sent>, n: Addr): (c: nat)
    ensures c >= 1
  {
    if h == [] then 1
    else Counter(h[..|h| - 1], n) + if h[|h| - 1] == Sent(n, true) then 1 else 0
  }

  /** The number given to the `i`-th packet. */
  ghost function Seqno(h: seq<Sent>, i: nat): (c: nat)
    requires i < |h|
  {
    Counter(h[..i], h[i].next)
  }

  lemma CounterSnoc(h: seq<Sent>, x: Sent, n: Addr)
    ensures Counter(h + [x], n) == Counter(h, n) + if x == Sent(n, true) then 1 else 0
  {
    assert (h + [x])[..|h|] == h;
  }

  lemma {:induction false} CounterGrows(h: seq<Sent>, i: nat, j: nat, n: Addr)
    requires i <= j <= |h|
    ensures Counter(h[..i], n) <= Counter(h[..j], n)
  {
    if i < j {
      CounterGrows(h, i, j - 1, n);
      assert h[..j] == h[..j - 1] + [h[j - 1]];
      CounterSnoc(h[..j - 1], h[j - 1], n);
    }
  }

  /** Packets up to a request have numbers up to its number, later ones have greater. */
  lemma SeqnoOrder(h: seq<Sent>, i: nat, c: nat)
    requires i < |h| && c < |h| && h[i].next == h[c].next && h[c].request
    ensures Seqno(h, i) <= Seqno(h, c) <==> i <= c
  {
    var n := h[c].next;
    if i <= c {
      CounterGrows(h, i, c, n);
    } else {
      assert h[..c + 1] == h[..c] + [h[c]];
      CounterSnoc(h[..c], h[c], n);
      CounterGrows(h, c + 1, i, n);
    }
  }

  /** A number past `k` was reached by a request numbered `k`. */
  lemma {:induction false} RequestNumbered(h: seq<Sent>, n: Addr, k: nat) returns (c: nat)
    requires 1 <= k < Counter(h, n)
    ensures c < |h| && h[c] == Sent(n, true) && Seqno(h, c) == k
  {
    var m := |h| - 1;
    if Counter(h[..m], n) > k {
      c := RequestNumbered(h[..m], n, k);
      assert h[..m][..c] == h[..c];
    } else {
      c := m;
    }
  }

  ghost function Id(h: seq<Sent>, i: nat): (k: nat)
    requires i < |h|
    ensures k < U16
  {
    Seqno(h, i) % U16
  }

  /** Comparing ids as the program does says which packets came first. */
  ghost predicate IdsOrdered(h: seq<Sent>, n: Addr) {
    forall i, c :: 0 <= i < |h| && 0 <= c < |h| && h[i].next == n && h[c] == Sent(n, true) ==>
      (Id(h, i) <= Id(h, c) <==> i <= c)
  }

  /** It does exactly as long as no packet to the neighbour had a number past 16 bits. */
  lemma IdsOrderedIff(h: seq<Sent>, n: Addr)
    ensures IdsOrdered(h, n) <==> forall i :: 0 <= i < |h| && h[i].next == n ==> Seqno(h, i) < U16
  {
    if forall i :: 0 <= i < |h| && h[i].next == n ==> Seqno(h, i) < U16 {
      forall i, c | 0 <= i < |h| && 0 <= c < |h| && h[i].next == n && h[c] == Sent(n, true)
        ensures Id(h, i) <= Id(h, c) <==> i <= c
      {
        SeqnoOrder(h, i, c);
      }
    }
    if i :| 0 <= i < |h| && h[i].next == n && Seqno(h, i) >= U16 {
      var c := RequestNumbered(h[..i], n, U16 - 1);
      assert h[..i][..c] == h[..c];
      assert Id(h, i) <= Id(h, c) && c < i;
    }
  }

  /** In particular while the neighbour's number itself stays below 2^16. */
  lemma FewRequests(h: seq<Sent>, n: Addr)
    requires Counter(h, n) < U16
    ensures IdsOrdered(h, n)
  {
    forall i | 0 <= i < |h| && h[i].next == n ensures Seqno(h, i) < U16 {
      CounterGrows(h, i, |h|, n);
      assert h[..|h|] == h;
    }
    IdsOrderedIff(h, n);
  }

  /** A history of requests to one neighbour only. */
  function Requests(n: Addr, k: nat): (h: seq<Sent>)
    ensures |h| == k && forall i :: 0 <= i < k ==> h[i] == Sent(n, true)
  {
    seq(k, i => Sent(n, true))
  }

  lemma {:induction false} RequestsCounted(h: seq<Sent>, n: Addr)
    requires forall i :: 0 <= i < |h| ==> h[i] == Sent(n, true)
    ensures Counter(h, n) == |h| + 1
  {
    if h != [] { RequestsCounted(h[..|h| - 1], n); }
  }

  /** A history that fails: of 2^16 requests to a neighbour the last one is taken for older than
      the first. */
  lemma ManyRequests(n: Addr, k: nat)
    requires k == U16
    ensures var h := Requests(n, k); !IdsOrdered(h, n) && Id(h, k - 1) < Id(h, 0)
  {
    var h := Requests(n, k);
    assert h[..0] == [];
    RequestsCounted(h[..k - 1], n);
    assert Seqno(h, k - 1) == k && Seqno(h, 0) == 1;
    IdsOrderedIff(h, n);
  }
}
