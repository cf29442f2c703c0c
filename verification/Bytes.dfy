// Bytes, big-endian integers and a few facts about sequences that several components share.
module Bytes {

  newtype byte = x: int | 0 <= x < 256
  type bytes = seq<byte>

  const TWO_TO_THE_64: nat := 0x1_0000_0000_0000_0000

  function Pow256(width: nat): (p: nat)
    ensures p >= 1
  {
    if width == 0 then 1 else 256 * Pow256(width - 1)
  }

  // binary.BigEndian.PutUint32 and PutUint64: the low `width` bytes, most significant first.
  function BigEndian(n: nat, width: nat): (b: bytes)
    ensures |b| == width
  {
    if width == 0 then [] else BigEndian(n / 256, width - 1) + [(n % 256) as byte]
  }

  // binary.BigEndian.Uint32.
  function FromBigEndian(b: bytes): nat {
    if b == [] then 0 else 256 * FromBigEndian(b[..|b| - 1]) + b[|b| - 1] as nat
  }

  lemma {:induction false} FromBigEndianOfBigEndian(n: nat, width: nat)
    requires n < Pow256(width)
    ensures FromBigEndian(BigEndian(n, width)) == n
  {
    if width == 0 {
    } else {
      FromBigEndianOfBigEndian(n / 256, width - 1);
      var b := BigEndian(n, width);
      assert b[..|b| - 1] == BigEndian(n / 256, width - 1);
    }
  }

  function Concat<T>(pieces: seq<seq<T>>): seq<T> {
    if pieces == [] then [] else pieces[0] + Concat(pieces[1..])
  }

  lemma Assoc<T>(a: seq<T>, b: seq<T>, c: seq<T>)
    ensures a + (b + c) == (a + b) + c
  {
  }

  lemma {:induction false} ConcatAppend<T>(a: seq<seq<T>>, b: seq<seq<T>>)
    ensures Concat(a + b) == Concat(a) + Concat(b)
  {
    if a == [] {
      assert a + b == b;
    } else {
      ConcatAppend(a[1..], b);
      assert (a + b)[0] == a[0] && (a + b)[1..] == a[1..] + b;
      Assoc(a[0], Concat(a[1..]), Concat(b));
    }
  }

  lemma MulBeyond(size: int, d: int)
    requires size > 0
    ensures d >= 1 ==> size * d >= size
    ensures d <= -1 ==> size * d <= -size
  {
  }

  lemma DivModUnique(x: int, size: int, q: int, r: int)
    requires size > 0 && 0 <= r < size && x == size * q + r
    ensures x / size == q && x % size == r
  {
    assert x == size * (x / size) + x % size;
    assert size * (x / size - q) == r - x % size;
    MulBeyond(size, x / size - q);
  }

  lemma DivModStep(k: nat, size: nat)
    requires 0 < size <= k
    ensures (k - size) % size == k % size && (k - size) / size == k / size - 1
    ensures k / size >= 1
  {
    var q, r := k / size, k % size;
    assert k == size * q + r;
    assert size * (q - 1) == size * q - size;
    DivModUnique(k - size, size, q - 1, r);
  }

  lemma TakeSplit<T>(front: seq<T>, s: seq<T>, k: nat, m: nat)
    requires k <= m <= |s|
    ensures front + s[..k] + s[k..][..m - k] == front + s[..m]
  {
  }

  lemma SplitAround<T>(s: seq<T>, i: nat)
    requires i < |s|
    ensures s == s[..i] + [s[i]] + s[i + 1..]
  {
  }

  lemma DropFront<T>(a: seq<T>, b: seq<T>, c: seq<T>)
    ensures (a + b + c)[|a|..] == b + c
  {
  }

  function Min(a: int, b: int): int {
    if a < b then a else b
  }
}
