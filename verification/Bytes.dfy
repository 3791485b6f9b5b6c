/** Bytes, and the numbers and addresses DSR headers are made of. */
module Bytes {
  import opened Routes

  newtype Byte = b: int | 0 <= b < 256

  /** The low byte of a number. */
  function Low(n: nat): (b: Byte)
    ensures b as int == n % 256
  {
    (n % 256) as Byte
  }

  lemma LowFits(n: nat)
    requires n < 256
    ensures Low(n) as nat == n
  {
  }

  // ------------------------------------------------------------ 16-bit numbers

  /** `htons`: most significant byte first. */
  function Short(n: nat): (s: seq<Byte>)
    ensures |s| == 2
  {
    [Low(n / 256), Low(n)]
  }

  function ShortOf(hi: Byte, lo: Byte): (n: nat)
    ensures n < 0x1_0000
  {
    hi as nat * 256 + lo as nat
  }

  lemma ShortRoundTrip(n: nat)
    ensures ShortOf(Short(n)[0], Short(n)[1]) == n % 0x1_0000
  {
    assert n == (n / 0x1_0000) * 0x1_0000 + n % 0x1_0000;
    assert n / 256 % 256 * 256 + n % 256 == n % 0x1_0000;
  }

  // ------------------------------------------------------------ addresses

  function Word(a: Addr): (s: seq<Byte>)
    ensures |s| == 4
  {
    var n := a as nat;
    [Low(n / 0x100_0000), Low(n / 0x1_0000), Low(n / 0x100), Low(n)]
  }

  function WordOf(s: seq<Byte>): (a: Addr)
    requires |s| == 4
  {
    (s[0] as int * 0x100_0000 + s[1] as int * 0x1_0000 + s[2] as int * 0x100 + s[3] as int) as Addr
  }

  lemma WordRoundTrip(a: Addr)
    ensures WordOf(Word(a)) == a
  {
    var n := a as nat;
    var b0, b1, b2, b3 := n / 0x100_0000, n / 0x1_0000 % 256, n / 0x100 % 256, n % 256;
    assert b0 < 256;
    assert n == b0 * 0x100_0000 + b1 * 0x1_0000 + b2 * 0x100 + b3;
  }

  function Words(s: seq<Addr>): (b: seq<Byte>)
    ensures |b| == 4 * |s|
  {
    if s == [] then [] else Words(s[..|s| - 1]) + Word(s[|s| - 1])
  }

  /** The first `n` addresses in `b`. */
  function WordsOf(b: seq<Byte>, n: nat): (s: seq<Addr>)
    requires 4 * n <= |b|
    ensures |s| == n
  {
    if n == 0 then [] else WordsOf(b, n - 1) + [WordOf(b[4 * n - 4..4 * n])]
  }

  lemma {:induction false} WordsOfPrefix(b: seq<Byte>, c: seq<Byte>, n: nat)
    requires 4 * n <= |b|
    ensures WordsOf(b + c, n) == WordsOf(b, n)
  {
    if n > 0 {
      WordsOfPrefix(b, c, n - 1);
      assert (b + c)[4 * n - 4..4 * n] == b[4 * n - 4..4 * n];
    }
  }

  /** Addresses are read back, whatever follows them. */
  lemma {:induction false} WordsRoundTrip(s: seq<Addr>, rest: seq<Byte>)
    ensures WordsOf(Words(s) + rest, |s|) == s
  {
    if s != [] {
      var n, init, last := |s|, s[..|s| - 1], s[|s| - 1];
      var b := Words(init) + Word(last);
      assert Words(s) == b;
      WordsOfPrefix(b, rest, n);
      WordsRoundTrip(init, Word(last));
      assert b[4 * n - 4..4 * n] == Word(last);
      WordRoundTrip(last);
      assert s == init + [last];
    }
  }

  lemma WordsSnoc(s: seq<Addr>, a: Addr)
    ensures Words(s + [a]) == Words(s) + Word(a)
  {
    assert (s + [a])[..|s|] == s;
  }
}
