/** The intrusive doubly linked ring (list.h) and the bounded table over it (tbl.h), proved
    against sequences of nodes. */
module Tables {
  import opened Routes

  class Node {
    var next: Node?
    var prev: Node?
    const value: nat

    constructor (value: nat)
      ensures this.value == value
    {
      this.value := value;
    }
  }

  function Succ(ns: seq<Node>, i: nat): Node
    requires i < |ns|
  {
    if i + 1 < |ns| then ns[i + 1] else ns[0]
  }

  ghost predicate LinkedAt(ns: seq<Node>, i: nat)
    requires i < |ns|
    reads ns
  {
    ns[i].next == Succ(ns, i) && Succ(ns, i).prev == ns[i]
  }

  /** The nodes, in this order, form a ring of pointers both ways. */
  ghost predicate Ring(ns: seq<Node>)
    reads ns
  {
    && |ns| >= 1 && Distinct(ns)
    && forall i {:trigger LinkedAt(ns, i)} :: 0 <= i < |ns| ==> LinkedAt(ns, i)
  }

  ghost function Inserted(ns: seq<Node>, i: nat, n: Node): seq<Node>
    requires i < |ns|
  {
    ns[..i + 1] + [n] + ns[i + 1..]
  }

  ghost function Removed(ns: seq<Node>, i: nat): seq<Node>
    requires i < |ns|
  {
    ns[..i] + ns[i + 1..]
  }

  /** __list_add: `n` between the `i`-th node and its successor */
  method Link(n: Node, prev: Node, next: Node, ghost ns: seq<Node>, ghost i: nat)
    requires Ring(ns) && i < |ns| && prev == ns[i] && next == Succ(ns, i) && n !in ns
    modifies n, prev, next
    ensures Ring(Inserted(ns, i, n))
  {
    ghost var r := Inserted(ns, i, n);
    assert LinkedAt(ns, i);
    label before:
    next.prev := n;
    n.next := next;
    n.prev := prev;
    prev.next := n;
    assert Distinct(r) by { InsertedDistinct(ns, i, n); }
    forall j | 0 <= j < |r| ensures LinkedAt(r, j) {
      if j < i {
        assert old@before(LinkedAt(ns, j)) && r[j] == ns[j] && r[j + 1] == ns[j + 1];
        assert ns[j] != ns[i];
      } else if j > i + 1 {
        assert old@before(LinkedAt(ns, j - 1)) && r[j] == ns[j - 1];
        assert Succ(r, j) == Succ(ns, j - 1);
        assert ns[j - 1] != ns[i];
        assert Succ(ns, j - 1) != Succ(ns, i) by { SuccDistinct(ns, j - 1, i); }
      } else {
        assert r[i] == prev && r[i + 1] == n && Succ(r, i + 1) == next;
      }
    }
  }

  lemma InsertedDistinct(ns: seq<Node>, i: nat, n: Node)
    requires Distinct(ns) && i < |ns| && n !in ns
    ensures Distinct(Inserted(ns, i, n))
  {
    var r := Inserted(ns, i, n);
    forall j, k | 0 <= j < k < |r| ensures r[j] != r[k] {
      if j != i + 1 && k != i + 1 {
        var j', k' := if j <= i then j else j - 1, if k <= i then k else k - 1;
        assert r[j] == ns[j'] && r[k] == ns[k'];
      } else {
        assert n !in ns;
      }
    }
  }

  lemma SuccDistinct(ns: seq<Node>, i: nat, j: nat)
    requires Distinct(ns) && i < |ns| && j < |ns| && i != j
    ensures Succ(ns, i) != Succ(ns, j)
  {
  }

  /** list_del of the `i`-th node, which is not the head */
  method Unlink(n: Node, ghost ns: seq<Node>, ghost i: nat)
    requires Ring(ns) && 1 <= i < |ns| && n == ns[i]
    modifies ns
    ensures Ring(Removed(ns, i)) && n.next == null && n.prev == null
  {
    ghost var r := Removed(ns, i);
    assert LinkedAt(ns, i) && LinkedAt(ns, i - 1);
    assert Succ(ns, i - 1) == n;
    var prev, next := n.prev, n.next;
    assert prev == ns[i - 1] && next == Succ(ns, i);
    label before:
    next.prev := prev;
    prev.next := next;
    n.next := null;
    n.prev := null;
    assert Distinct(r) by {
      forall j, k | 0 <= j < k < |r| ensures r[j] != r[k] {
        assert r[j] == ns[if j < i then j else j + 1] && r[k] == ns[if k < i then k else k + 1];
      }
    }
    forall j | 0 <= j < |r| ensures LinkedAt(r, j) {
      var k := if j < i then j else j + 1;
      assert r[j] == ns[k] && old@before(LinkedAt(ns, k));
      if k != i - 1 {
        assert Succ(r, j) == Succ(ns, k);
        SuccDistinct(ns, k, i);
        SuccDistinct(ns, k, i - 1);
        assert ns[k] != ns[i - 1] && ns[k] != ns[i];
      } else {
        assert Succ(r, j) == next;
      }
    }
  }

  // ------------------------------------------------------------ tables

  /** A criterion: the values of the entries that meet it. */
  type Criterion = set<nat>

  ghost function Filter(p: Criterion, ns: seq<Node>): (r: seq<Node>) {
    if ns == [] then []
    else Filter(p, ns[..|ns| - 1]) + if ns[|ns| - 1].value in p then [] else [ns[|ns| - 1]]
  }

  ghost predicate AllIn(ns: seq<Node>, others: seq<Node>) {
    forall i :: 0 <= i < |ns| ==> ns[i] in others
  }

  lemma AllInTwice(a: seq<Node>, b: seq<Node>, c: seq<Node>)
    requires AllIn(a, b) && AllIn(b, c)
    ensures AllIn(a, c)
  {
  }

  class Table {
    const head: Node
    const max: nat
    var len: nat
    /** The head and then the entries. */
    ghost var ring: seq<Node>

    ghost predicate Valid()
      reads this, ring
    {
      Ring(ring) && ring[0] == head && len == |ring| - 1
    }

    ghost function Items(): seq<Node>
      requires |ring| >= 1
      reads this
    {
      ring[1..]
    }

    /** INIT_TBL */
    constructor (max: nat)
      ensures Valid() && Items() == [] && this.max == max && fresh(head)
    {
      var h := new Node(0);
      head, len, ring, this.max := h, 0, [h], max;
      new;
      h.next, h.prev := h, h;
      assert LinkedAt(ring, 0);
    }

    /** __tbl_find: the first entry that meets the criterion, at position `k` */
    method Find(p: Criterion) returns (found: Node?, ghost k: nat)
      requires Valid()
      ensures k <= len && (forall i :: 0 <= i < k ==> Items()[i].value !in p)
      ensures found == if k < len then Items()[k] else null
      ensures found != null ==> found.value in p
    {
      assert LinkedAt(ring, 0);
      var pos := head.next;
      k := 0;
      while pos != head
        invariant k <= len && pos == (if k < len then ring[k + 1] else head) && (k < len <==> pos != head)
        invariant forall i :: 0 <= i < k ==> Items()[i].value !in p
        decreases len - k
      {
        if pos.value in p {
          return pos, k;
        }
        assert LinkedAt(ring, k + 1);
        pos := pos.next;
        k := k + 1;
      }
      return null, k;
    }

    /** __tbl_add: before the first entry that meets the criterion, if there is room */
    method Add(n: Node, p: Criterion) returns (ok: bool, ghost k: nat)
      requires Valid() && n !in ring
      modifies this, ring, n
      ensures Valid() && ok == (old(len) < max)
      ensures ok ==> k <= old(len) && Items() == old(Items())[..k] + [n] + old(Items())[k..]
      ensures ok ==> forall i :: 0 <= i < k ==> old(Items())[i].value !in p
      ensures ok && k < old(len) ==> old(Items())[k].value in p
      ensures !ok ==> Items() == old(Items())
    {
      k := 0;
      ok := len < max;
      if !ok {
        return;
      }
      var pos;
      pos, k := Find(p);
      if pos == null {
        pos := head;
      }
      InsertBefore(n, pos, k);
    }

    /** list_add(n, pos->prev) */
    method InsertBefore(n: Node, pos: Node, ghost k: nat)
      requires Valid() && n !in ring && k <= len && pos == if k < len then ring[k + 1] else head
      modifies this, ring, n
      ensures Valid() && Items() == old(Items())[..k] + [n] + old(Items())[k..]
    {
      assert LinkedAt(ring, k);
      assert Succ(ring, k) == pos;
      Link(n, pos.prev, pos, ring, k);
      ring := Inserted(ring, k, n);
      len := len + 1;
    }

    /** __tbl_add_tail */
    method AddTail(n: Node) returns (ok: bool)
      requires Valid() && n !in ring
      modifies this, ring, n
      ensures Valid() && ok == (old(len) < max)
      ensures Items() == if ok then old(Items()) + [n] else old(Items())
    {
      ok := len < max;
      if ok {
        InsertBefore(n, head, len);
      }
    }

    /** __tbl_detach of the entry at position `k` */
    method Detach(n: Node, ghost k: nat)
      requires Valid() && k < len && n == Items()[k]
      modifies this, ring
      ensures Valid() && Items() == old(Items())[..k] + old(Items())[k + 1..]
      ensures n.next == null && n.prev == null && n !in ring
      ensures AllIn(ring, old(ring))
    {
      Unlink(n, ring, k + 1);
      ghost var r := Removed(ring, k + 1);
      forall j | 0 <= j < |r| ensures r[j] != n && r[j] in ring {
        assert r[j] == ring[if j < k + 1 then j else j + 1];
      }
      ring := r;
      len := len - 1;
    }

    /** __tbl_find_detach */
    method FindDetach(p: Criterion) returns (found: Node?, ghost k: nat)
      requires Valid()
      modifies this, ring
      ensures Valid()
      ensures k <= old(len) && forall i :: 0 <= i < k ==> old(Items())[i].value !in p
      ensures found == if k < old(len) then old(Items())[k] else null
      ensures found != null ==> found.value in p && Items() == old(Items())[..k] + old(Items())[k + 1..]
      ensures found == null ==> Items() == old(Items())
    {
      ghost var its := Items();
      found, k := Find(p);
      assert Items() == its;
      forall i | 0 <= i < k ensures its[i].value !in p {
        assert Items()[i].value !in p;
      }
      if found != null {
        Detach(found, k);
      }
    }

    /** __tbl_for_each_del: deletes the entries that meet the criterion */
    method ForEachDel(p: Criterion) returns (n: nat)
      requires Valid()
      modifies this, ring
      ensures Valid() && Items() == Filter(p, old(Items())) && n == old(len) - len
    {
      ghost var its, j, kept := Items(), 0, [];
      assert LinkedAt(ring, 0);
      var pos := head.next;
      n := 0;
      assert its[..0] == [];
      while pos != head
        invariant Valid() && 0 <= j <= |its| && n == j - |kept| && n == old(len) - len
        invariant Items() == kept + its[j..] && kept == Filter(p, its[..j])
        invariant pos == (if j < |its| then its[j] else head) && (j < |its| <==> pos != head)
        invariant AllIn(ring, old(ring))
        decreases |its| - j
      {
        var deleted;
        ghost var before := ring;
        pos, deleted, kept := DelStep(pos, p, its, j, kept);
        AllInTwice(ring, before, old(ring));
        j := j + 1;
        if deleted {
          n := n + 1;
        }
      }
      assert its[..j] == its;
    }

    /** One entry is looked at; `kept` are those left before it, of the first `j`. */
    method DelStep(n: Node, p: Criterion, ghost its: seq<Node>, ghost j: nat, ghost kept: seq<Node>)
      returns (next: Node, deleted: bool, ghost more: seq<Node>)
      requires Valid() && j < |its| && n == its[j] && Items() == kept + its[j..] && kept == Filter(p, its[..j])
      modifies this, ring
      ensures Valid() && Items() == more + its[j + 1..] && more == Filter(p, its[..j + 1])
      ensures next == (if j + 1 < |its| then its[j + 1] else head) && (j + 1 < |its| <==> next != head)
      ensures len == (if deleted then old(len) - 1 else old(len)) && |more| == |kept| + if deleted then 0 else 1
      ensures AllIn(ring, old(ring))
    {
      assert its[..j + 1][..j] == its[..j];
      assert its[j..] == [n] + its[j + 1..];
      next := Peek(n, |kept|);
      deleted := n.value in p;
      if deleted {
        more := kept;
        Detach(n, |kept|);
      } else {
        more := kept + [n];
      }
    }

    /** The node behind the entry at position `k`. */
    method Peek(n: Node, ghost k: nat) returns (next: Node)
      requires Valid() && k < len && n == Items()[k]
      ensures next == if k + 1 < len then Items()[k + 1] else head
      ensures k + 1 < len <==> next != head
    {
      assert LinkedAt(ring, k + 1);
      next := n.next;
    }
  }
}
