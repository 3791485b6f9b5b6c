/** Source routes: the internal `struct dsr_srt` and the operations of dsr-srt.c on it.
    A route is its two ends and the intermediate addresses between them; `Path` is the
    list of all nodes the route visits.  The loops of dsr-srt.c are methods, each proved
    equal to the function on paths that the rest of the project reasons with. */
module Routes {

  /** An IPv4 address. */
  newtype Addr = a: int | 0 <= a < 0x1_0000_0000

  datatype Option<+T> = None | Some(value: T)

  /** No element occurs twice. */
  ghost predicate Distinct<T>(s: seq<T>) {
    forall i, j :: 0 <= i < j < |s| ==> s[i] != s[j]
  }

  lemma {:induction false} DistinctSize<T>(s: seq<T>)
    requires Distinct(s)
    ensures |set x | x in s| == |s|
  {
    if s != [] {
      var init, last := s[..|s| - 1], s[|s| - 1];
      DistinctSize(init);
      assert s == init + [last];
      assert (set x | x in s) == (set x | x in init) + {last};
    }
  }

  lemma CardMonotone<T>(a: set<T>, b: set<T>)
    requires a <= b
    ensures |a| <= |b|
  {
    assert b == a + (b - a);
  }

  datatype Route = Route(src: Addr, dst: Addr, addrs: seq<Addr>) {
    function Path(): (p: seq<Addr>)
      ensures |p| == |addrs| + 2 && p[0] == src && p[|addrs| + 1] == dst
    {
      [src] + addrs + [dst]
    }

    ghost predicate LoopFree() {
      Distinct(Path())
    }

    /** Loop free, except that the two ends may be the same node: a route that leads from
        a node back to itself. */
    ghost predicate Simple() {
      Distinct(Path()[..|addrs| + 1]) && Distinct(Path()[1..])
    }
  }

  lemma LoopFreeIsSimple(r: Route)
    ensures r.LoopFree() <==> r.Simple() && r.src != r.dst
  {
    var p, n := r.Path(), |r.addrs|;
    assert forall i :: 0 <= i <= n ==> p[..n + 1][i] == p[i];
    assert forall i :: 0 <= i <= n ==> p[1..][i] == p[i + 1];
    if r.Simple() && r.src != r.dst {
      forall i, j | 0 <= i < j < |p| ensures p[i] != p[j] {
        if j <= n {
          assert p[..n + 1][i] != p[..n + 1][j];
        } else if i > 0 {
          assert p[1..][i - 1] != p[1..][j - 1];
        }
      }
    }
  }

  /** The same without mentioning paths. */
  lemma SimpleHops(r: Route)
    ensures r.Simple() <==> Distinct(r.addrs) && r.src !in r.addrs && r.dst !in r.addrs
  {
    var p, n := r.Path(), |r.addrs|;
    assert p[..n + 1] == [r.src] + r.addrs && p[1..] == r.addrs + [r.dst];
    if r.Simple() {
      forall i | 0 <= i < n ensures r.addrs[i] != r.src && r.addrs[i] != r.dst {
        assert p[..n + 1][i + 1] == r.addrs[i] && p[1..][i] == r.addrs[i] && p[1..][n] == r.dst;
      }
      forall i, j | 0 <= i < j < n ensures r.addrs[i] != r.addrs[j] {
        assert p[1..][i] == r.addrs[i] && p[1..][j] == r.addrs[j];
      }
    }
  }

  /** The route with a given path. */
  function OfPath(p: seq<Addr>): (r: Route)
    requires |p| >= 2
    ensures r.Path() == p
  {
    Route(p[0], p[|p| - 1], p[1..|p| - 1])
  }

  function ReverseSeq(s: seq<Addr>): (r: seq<Addr>)
    ensures |r| == |s|
    ensures forall i :: 0 <= i < |s| ==> r[i] == s[|s| - 1 - i]
  {
    seq(|s|, i requires 0 <= i < |s| => s[|s| - 1 - i])
  }

  // ------------------------------------------------------------------ hops

  /** `dsr_srt_next_hop`: with `sleft` segments left, the node the packet goes to is
      `sleft` places before the destination. */
  function NextHop(r: Route, sleft: int): (hop: Addr)
    requires sleft <= |r.addrs|
    ensures sleft >= 0 ==> hop == r.Path()[|r.addrs| + 1 - sleft]
  {
    if sleft <= 0 then r.dst else r.addrs[|r.addrs| - sleft]
  }

  /** `dsr_srt_prev_hop`: the node two places before the next hop for the same count. */
  function PrevHop(r: Route, sleft: int): (hop: Addr)
    requires -1 <= sleft < |r.addrs|
    ensures hop == r.Path()[|r.addrs| - 1 - sleft]
  {
    if |r.addrs| - 1 == sleft then r.src else r.addrs[|r.addrs| - 2 - sleft]
  }

  /** The part of the route a packet with `sleft` segments left still has to visit. */
  function Remaining(r: Route, sleft: nat): (p: seq<Addr>)
    requires sleft <= |r.addrs|
    ensures |p| == sleft + 1
  {
    r.Path()[|r.addrs| + 1 - sleft..]
  }

  /** `dsr_srt_find_addr`: is `addr` on the part of the route still to be visited?
      Answers no when there is no intermediate hop left or the count is malformed. */
  method FindAddr(r: Route, addr: Addr, sleft0: int) returns (found: bool)
    ensures found <==> 1 <= sleft0 <= |r.addrs| && addr in Remaining(r, sleft0)
  {
    var n, sleft := |r.addrs|, sleft0;
    if n == 0 || sleft > n || sleft < 1 {
      return false;
    }
    ghost var p := Remaining(r, sleft0);
    assert forall k :: 0 <= k < sleft0 ==> p[k] == r.addrs[n - sleft0 + k];
    while sleft > 0
      invariant 0 <= sleft <= sleft0
      invariant forall k :: 0 <= k < sleft0 - sleft ==> p[k] != addr
    {
      if r.addrs[n - sleft] == addr {
        assert p[sleft0 - sleft] == addr;
        return true;
      }
      sleft := sleft - 1;
    }
    assert p[sleft0] == r.dst;
    return addr == r.dst;
  }

  // --------------------------------------------------------------- reverse

  function Reverse(r: Route): (q: Route)
    ensures q.Path() == ReverseSeq(r.Path())
  {
    Route(r.dst, r.src, ReverseSeq(r.addrs))
  }

  /** `dsr_srt_new_rev`. */
  method NewRev(r: Route) returns (q: Route)
    ensures q == Reverse(r)
  {
    var n, i, a := |r.addrs|, 0, [];
    while i < n
      invariant 0 <= i <= n && |a| == i
      invariant forall k :: 0 <= k < i ==> a[k] == r.addrs[n - 1 - k]
    {
      a := a + [r.addrs[n - 1 - i]];
      i := i + 1;
    }
    q := Route(r.dst, r.src, a);
    assert a == ReverseSeq(r.addrs);
  }

  lemma ReverseTwice(r: Route)
    ensures Reverse(Reverse(r)) == r
  {
    assert ReverseSeq(ReverseSeq(r.addrs)) == r.addrs;
  }

  lemma ReverseSimple(r: Route)
    requires r.Simple()
    ensures Reverse(r).Simple()
  {
    SimpleHops(r);
    SimpleHops(Reverse(r));
    var a, b := r.addrs, Reverse(r).addrs;
    forall i, j | 0 <= i < j < |b| ensures b[i] != b[j] {
      assert a[|a| - 1 - j] != a[|a| - 1 - i];
    }
  }

  // ----------------------------------------------------------------- split

  /** The route cut off at the first intermediate hop equal to `addr`; nothing when
      `addr` is not an intermediate hop (the two ends do not count). */
  ghost predicate IsSplit(r: Route, addr: Addr, q: Option<Route>) {
    match q
    case None => addr !in r.addrs
    case Some(s) =>
      && addr in r.addrs
      && s.src == r.src && s.dst == addr && addr !in s.addrs
      && s.Path() <= r.Path()[..|r.addrs| + 1]
  }

  function Split(r: Route, addr: Addr): (q: Option<Route>)
    ensures IsSplit(r, addr, q)
  {
    var i := FirstIndex(r.addrs, addr);
    if i == |r.addrs| then None
    else
      var s := Route(r.src, addr, r.addrs[..i]);
      assert s.Path() == r.Path()[..i + 2];
      Some(s)
  }

  /** First position of `a` in `s`, or the length of `s`. */
  function FirstIndex(s: seq<Addr>, a: Addr): (i: nat)
    ensures i <= |s| && forall k :: 0 <= k < i ==> s[k] != a
    ensures i < |s| ==> s[i] == a
  {
    if s == [] || s[0] == a then 0 else 1 + FirstIndex(s[1..], a)
  }

  /** `dsr_srt_new_split`. */
  method NewSplit(r: Route, addr: Addr) returns (q: Option<Route>)
    ensures q == Split(r, addr)
  {
    var n, i := |r.addrs|, 0;
    if n == 0 {
      return None;
    }
    while i < n
      invariant 0 <= i <= n && forall k :: 0 <= k < i ==> r.addrs[k] != addr
    {
      if addr == r.addrs[i] {
        return Some(Route(r.src, r.addrs[i], r.addrs[..i]));
      }
      i := i + 1;
    }
    return None;
  }

  /** `dsr_srt_new_split_rev`: the way back from `addr` along the route. */
  function SplitRev(r: Route, addr: Addr): (q: Option<Route>)
    ensures q.None? <==> addr !in r.addrs
    ensures q.Some? ==> q.value.src == addr && q.value.dst == r.src
  {
    match Split(r, addr)
    case None => None
    case Some(s) => Some(Reverse(s))
  }

  /** It visits exactly the nodes before the first occurrence of `addr`, backwards. */
  lemma SplitRevPath(r: Route, addr: Addr)
    requires addr in r.addrs
    ensures var q := SplitRev(r, addr);
      q.Some? && addr !in q.value.addrs && ReverseSeq(q.value.Path()) <= r.Path()
  {
    var s := Split(r, addr).value;
    ReverseTwice(s);
    assert ReverseSeq(Reverse(s).Path()) == s.Path();
  }

  // ------------------------------------------------------------- shortcut

  /** The path without the nodes strictly between positions `i` and `j`. */
  function CutPath(p: seq<Addr>, i: nat, j: nat): (q: seq<Addr>)
    requires i < j < |p|
    ensures |q| == |p| - (j - i - 1)
    ensures forall k :: 0 <= k <= i ==> q[k] == p[k]
    ensures forall k :: i < k < |q| ==> q[k] == p[k + (j - i - 1)]
  {
    p[..i + 1] + p[j..]
  }

  /** Last position of `a` in `s`, or -1. */
  function LastIndex(s: seq<Addr>, a: Addr): (i: int)
    ensures -1 <= i < |s|
    ensures i >= 0 ==> s[i] == a
    ensures forall k :: i < k < |s| ==> s[k] != a
  {
    if s == [] then -1
    else if s[|s| - 1] == a then |s| - 1
    else LastIndex(s[..|s| - 1], a)
  }

  /** Where the shortcut starts: the last position of `a1` among source and hops. */
  function CutFrom(r: Route, a1: Addr): (i: int) ensures -1 <= i <= |r.addrs| {
    LastIndex(r.Path()[..|r.addrs| + 1], a1)
  }

  /** Where the shortcut ends: the last position of `a2` among hops and destination. */
  function CutTo(r: Route, a2: Addr): (j: int)
    ensures j == -1 || (1 <= j <= |r.addrs| + 1 && r.Path()[j] == a2)
  {
    var k := LastIndex(r.Path()[1..], a2);
    if k < 0 then -1 else k + 1
  }

  /** `a1` is on the route and `a2` comes later. */
  ghost predicate CanCut(r: Route, a1: Addr, a2: Addr) {
    0 <= CutFrom(r, a1) < CutTo(r, a2)
  }

  function Shortcut(r: Route, a1: Addr, a2: Addr): (q: Route)
    requires CanCut(r, a1, a2)
    ensures q.Path() == CutPath(r.Path(), CutFrom(r, a1), CutTo(r, a2))
    ensures q.src == r.src && q.dst == r.dst
  {
    var q := OfPath(CutPath(r.Path(), CutFrom(r, a1), CutTo(r, a2)));
    q
  }

  /** `dsr_srt_shortcut`: one loop finds both positions, a second copies the kept hops.  There
      is room for exactly the hops copied, and the route is the one meant, if and only if `a1`
      is on the route and `a2` behind it; only an answer without hops needs no room. */
  method NewShortcut(r: Route, a1: Addr, a2: Addr) returns (q: Route, room: int)
    ensures CanCut(r, a1, a2) ==> q == Shortcut(r, a1, a2)
    ensures |q.addrs| == room <==> CanCut(r, a1, a2) || room == 0
  {
    var n := |r.addrs|;
    var a1Num, a2Num := FindCut(r, a1, a2);
    room := n - (a2Num - a1Num - 1);
    var cut := [];
    if room != 0 {
      cut := CopyKept(r.addrs, a1Num, a2Num);
    }
    q := Route(r.src, r.dst, cut);
    if 0 <= a1Num < a2Num {
      KeptIsCutPath(r, a1Num, a2Num, cut);
      PathInjective(q, Shortcut(r, a1, a2));
    }
  }

  lemma KeptIsCutPath(r: Route, i: nat, j: nat, cut: seq<Addr>)
    requires i < j <= |r.addrs| + 1 && |cut| == |r.addrs| - (j - i - 1)
    requires forall k :: 0 <= k < i ==> cut[k] == r.addrs[k]
    requires forall k :: i <= k < |cut| ==> cut[k] == r.addrs[k + (j - i - 1)]
    ensures Route(r.src, r.dst, cut).Path() == CutPath(r.Path(), i, j)
  {
    var p, q := Route(r.src, r.dst, cut).Path(), CutPath(r.Path(), i, j);
    forall k | 0 <= k < |p| ensures p[k] == q[k] {
      if 1 <= k <= |cut| {
        assert p[k] == cut[k - 1];
      }
    }
  }

  lemma PathInjective(r: Route, q: Route)
    requires r.Path() == q.Path()
    ensures r == q
  {
    assert r.addrs == r.Path()[1..|r.addrs| + 1];
    assert q.addrs == q.Path()[1..|q.addrs| + 1];
  }

  /** The first loop: the later match of an address overrides the earlier one. */
  method FindCut(r: Route, a1: Addr, a2: Addr) returns (a1Num: int, a2Num: int)
    ensures a1Num == CutFrom(r, a1) && a2Num == CutTo(r, a2)
  {
    var n := |r.addrs|;
    ghost var p := r.Path();
    a1Num, a2Num := if r.src == a1 then 0 else -1, -1;
    var i := 0;
    while i < n
      invariant 0 <= i <= n
      invariant -1 <= a1Num <= i && -1 <= a2Num <= i && a2Num != 0
      invariant a1Num >= 0 ==> p[a1Num] == a1
      invariant a2Num >= 0 ==> p[a2Num] == a2
      invariant forall k :: a1Num < k <= i ==> p[k] != a1
      invariant forall k :: a2Num < k <= i && k >= 1 ==> p[k] != a2
    {
      assert p[i + 1] == r.addrs[i];
      if r.addrs[i] == a1 {
        a1Num := i + 1;
      }
      if r.addrs[i] == a2 {
        a2Num := i + 1;
      }
      i := i + 1;
    }
    if r.dst == a2 {
      a2Num := i + 1;
    }
    CutFromUnique(r, a1, a1Num);
    CutToUnique(r, a2, a2Num);
  }

  lemma CutFromUnique(r: Route, a: Addr, i: int)
    requires -1 <= i <= |r.addrs|
    requires i >= 0 ==> r.Path()[i] == a
    requires forall k :: i < k <= |r.addrs| ==> r.Path()[k] != a
    ensures CutFrom(r, a) == i
  {
  }

  lemma CutToUnique(r: Route, a: Addr, j: int)
    requires j == -1 || 1 <= j <= |r.addrs| + 1
    requires j >= 1 ==> r.Path()[j] == a
    requires forall k :: j < k <= |r.addrs| + 1 && k >= 1 ==> r.Path()[k] != a
    ensures CutTo(r, a) == j
  {
    assert forall k :: 0 <= k <= |r.addrs| ==> r.Path()[1..][k] == r.Path()[k + 1];
  }

  /** The copy loop of `dsr_srt_shortcut`: hops at `lo..hi` are left out. */
  method CopyKept(addrs: seq<Addr>, a1Num: int, a2Num: int) returns (cut: seq<Addr>)
    requires -1 <= a1Num <= |addrs| && -1 <= a2Num <= |addrs| + 1
    ensures var lo := if a1Num < 0 then 0 else a1Num;
      && var hi := if a2Num - 1 < lo then lo else a2Num - 1;
      && |cut| == |addrs| - (hi - lo)
      && (forall k :: 0 <= k < lo ==> cut[k] == addrs[k])
      && (forall k :: lo <= k < |cut| ==> cut[k] == addrs[k + (hi - lo)])
  {
    ghost var lo := if a1Num < 0 then 0 else a1Num;
    ghost var hi := if a2Num - 1 < lo then lo else a2Num - 1;
    var i, n := 0, |addrs|;
    cut := [];
    while i < n
      invariant 0 <= i <= n
      invariant |cut| == if i <= lo then i else if i <= hi then lo else i - (hi - lo)
      invariant forall k :: 0 <= k < lo && k < i ==> cut[k] == addrs[k]
      invariant forall k :: lo <= k < |cut| ==> cut[k] == addrs[k + (hi - lo)]
    {
      if !(i + 1 > a1Num && i + 1 < a2Num) {
        cut := cut + [addrs[i]];
      }
      i := i + 1;
    }
  }

  lemma SimplePositions(r: Route, i: nat, j: nat)
    requires r.Simple() && i <= |r.addrs| && 1 <= j <= |r.addrs| + 1
    ensures CutFrom(r, r.Path()[i]) == i && CutTo(r, r.Path()[j]) == j
  {
    var p, n := r.Path(), |r.addrs|;
    assert p[..n + 1][i] == p[i] && p[1..][j - 1] == p[j];
  }

  lemma CutSimple(r: Route, i: nat, j: nat, q: Route)
    requires r.Simple() && i < j <= |r.addrs| + 1 && q.Path() == CutPath(r.Path(), i, j)
    ensures q.Simple() && q.src == r.src && q.dst == r.dst
    ensures |q.addrs| == |r.addrs| - (j - i - 1)
  {
    var p, c, n := r.Path(), q.Path(), |q.addrs|;
    var x, y := c[..n + 1], c[1..];
    forall a, b | 0 <= a < b < |x| ensures x[a] != x[b] {
      CutElement(p, i, j, a);
      CutElement(p, i, j, b);
      HeadElement(r, if a <= i then a else a + (j - i - 1), if b <= i then b else b + (j - i - 1));
    }
    forall a, b | 0 <= a < b < |y| ensures y[a] != y[b] {
      CutElement(p, i, j, a + 1);
      CutElement(p, i, j, b + 1);
      TailElement(r, if a < i then a + 1 else a + (j - i), if b < i then b + 1 else b + (j - i));
    }
  }

  lemma HeadElement(r: Route, a: nat, b: nat)
    requires r.Simple() && a < b <= |r.addrs|
    ensures r.Path()[a] != r.Path()[b]
  {
    assert r.Path()[..|r.addrs| + 1][a] != r.Path()[..|r.addrs| + 1][b];
  }

  lemma TailElement(r: Route, a: nat, b: nat)
    requires r.Simple() && 1 <= a < b <= |r.addrs| + 1
    ensures r.Path()[a] != r.Path()[b]
  {
    assert r.Path()[1..][a - 1] != r.Path()[1..][b - 1];
  }

  lemma TailUnique(r: Route, a: nat, b: nat)
    requires r.Simple() && 1 <= a <= |r.addrs| + 1 && 1 <= b <= |r.addrs| + 1
    ensures r.Path()[a] == r.Path()[b] ==> a == b
  {
    if a < b {
      TailElement(r, a, b);
    } else if b < a {
      TailElement(r, b, a);
    }
  }

  lemma CutElement(p: seq<Addr>, i: nat, j: nat, k: nat)
    requires i < j < |p| && k < |p| - (j - i - 1)
    ensures CutPath(p, i, j)[k] == p[if k <= i then k else k + (j - i - 1)]
  {
  }

  // --------------------------------------------- concatenate and duplicates

  /** `dsr_srt_concatenate`: the node where the two routes meet is counted once. */
  function Concatenate(r1: Route, r2: Route): (q: Route)
    ensures r1.dst == r2.src ==> q.Path() == r1.Path() + r2.Path()[1..]
  {
    Route(r1.src, r2.dst, r1.addrs + [r2.src] + r2.addrs)
  }

  /** `dsr_srt_check_duplicate`: is any node, ends included, on the route twice? */
  method CheckDuplicate(r: Route) returns (dup: bool)
    ensures dup <==> !r.LoopFree()
  {
    var n, i := |r.addrs|, 0;
    var buf := [r.src];
    while i < n
      invariant 0 <= i <= n && buf == r.Path()[..i + 1]
      invariant Distinct(buf)
    {
      var j := 0;
      while j < i + 1
        invariant 0 <= j <= i + 1
        invariant forall k :: 0 <= k < j ==> buf[k] != r.addrs[i]
      {
        if buf[j] == r.addrs[i] {
          assert r.Path()[j] == r.Path()[i + 1];
          return true;
        }
        j := j + 1;
      }
      buf := buf + [r.addrs[i]];
      i := i + 1;
    }
    i := 0;
    while i < n + 1
      invariant 0 <= i <= n + 1
      invariant forall k :: 0 <= k < i ==> buf[k] != r.dst
    {
      if buf[i] == r.dst {
        assert r.Path()[i] == r.Path()[n + 1];
        return true;
      }
      i := i + 1;
    }
    assert r.Path() == buf + [r.dst];
    return false;
  }
}
