/** Bytes, words of four of them, and runs of bytes written over others. */
module Bytes {
  import opened Basics

  type Byte = b: int | 0 <= b < 256

  // ---------- words ----------

  /** Four bytes, the lowest first. */
  function Word(n: nat): (r: seq<Byte>)
    ensures |r| == 4
  {
    [n % 0x100, n / 0x100 % 0x100, n / 0x100 / 0x100 % 0x100, n / 0x100 / 0x100 / 0x100 % 0x100]
  }

  function FromWord(b0: nat, b1: nat, b2: nat, b3: nat): nat
  {
    b0 + 0x100 * (b1 + 0x100 * (b2 + 0x100 * b3))
  }

  lemma WordIsUnique(n: nat, b0: Byte, b1: Byte, b2: Byte, b3: Byte)
    requires n < UINT32
    ensures FromWord(b0, b1, b2, b3) == n <==> [b0, b1, b2, b3] == Word(n)
  {
    LowByte(n, b0, FromWord(b1, b2, b3, 0));
    LowByte(n / 0x100, b1, FromWord(b2, b3, 0, 0));
    LowByte(n / 0x100 / 0x100, b2, b3);
  }

  lemma LowByte(n: nat, b: Byte, rest: nat)
    ensures n == b + 0x100 * rest <==> b == n % 0x100 && rest == n / 0x100
  {
  }

  // ---------- runs of bytes ----------

  /** `data` written over `d` from position `at`. */
  function Splice(d: seq<Byte>, at: nat, data: seq<Byte>): (r: seq<Byte>)
    requires at + |data| <= |d|
    ensures |r| == |d|
  {
    d[..at] + data + d[at + |data|..]
  }

  lemma SpliceAt(d: seq<Byte>, at: nat, data: seq<Byte>, k: nat)
    requires at + |data| <= |d| && k < |d|
    ensures Splice(d, at, data)[k] == if at <= k < at + |data| then data[k - at] else d[k]
  {
  }

  /** Writing two runs one after the other is writing them together. */
  lemma SpliceAppend(d: seq<Byte>, at: nat, x: seq<Byte>, y: seq<Byte>)
    requires at + |x| + |y| <= |d|
    ensures Splice(Splice(d, at, x), at + |x|, y) == Splice(d, at, x + y)
  {
    var once := Splice(d, at, x);
    assert once[..at + |x|] == d[..at] + x;
    assert once[at + |x| + |y|..] == d[at + |x| + |y|..];
    assert d[..at] + x + y + d[at + |x| + |y|..] == d[..at] + (x + y) + d[at + |x| + |y|..];
  }

  lemma SpliceSame(d: seq<Byte>, at: nat, n: nat)
    requires at + n <= |d|
    ensures Splice(d, at, d[at..at + n]) == d
  {
  }

  /** Rewriting a run with a part of it changed is writing the part. */
  lemma SpliceInside(d: seq<Byte>, at: nat, n: nat, off: nat, data: seq<Byte>)
    requires at + n <= |d| && off + |data| <= n
    ensures Splice(d, at, Splice(d[at..at + n], off, data)) == Splice(d, at + off, data)
  {
  }

  lemma SpliceApart(d: seq<Byte>, at: nat, data: seq<Byte>, from: nat, to: nat)
    requires at + |data| <= |d| && from <= to <= |d|
    requires to <= at || at + |data| <= from
    ensures Splice(d, at, data)[from..to] == d[from..to]
  {
  }

  lemma SpliceReads(d: seq<Byte>, at: nat, data: seq<Byte>)
    requires at + |data| <= |d|
    ensures Splice(d, at, data)[at..at + |data|] == data
  {
  }
}
