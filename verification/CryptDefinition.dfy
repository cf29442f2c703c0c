// SHA-crypt as its definition numbers the steps ("Unix crypt using SHA-256 and SHA-512"), for digests of
// 64 bytes and independent of the program.
module CryptDefinition {
  import opened Bytes

  function Pow2(k: nat): (p: nat)
    ensures p >= 1
  {
    if k == 0 then 1 else 2 * Pow2(k - 1)
  }

  // How many bits a number has.
  function BitLength(n: nat): nat {
    if n == 0 then 0 else 1 + BitLength(n / 2)
  }

  predicate Bit(n: nat, i: nat) {
    n / Pow2(i) % 2 == 1
  }

  // Steps 9 and 10, 16 and 20: the bytes of a digest over and over, to a length.
  function Cyclic(digest: bytes, length: nat): bytes
    requires digest != []
  {
    seq(length, i requires 0 <= i => digest[i % |digest|])
  }

  // Steps 14 and 18.
  function Copies(x: bytes, times: nat): bytes {
    Concat(seq(times, i => x))
  }

  // Step 11: for each bit of the length, the low one first, digest B if it is set and else the password.
  function BitBlocks(b: bytes, password: bytes, length: nat): seq<bytes> {
    seq(BitLength(length), i requires 0 <= i => if Bit(length, i) then b else password)
  }

  // Step 21.
  function RoundParts(c: bytes, p: bytes, s: bytes, i: nat): seq<bytes> {
    [ if i % 2 == 1 then p else c,
      if i % 3 == 0 then [] else s,
      if i % 7 == 0 then [] else p,
      if i % 2 == 1 then c else p ]
  }

  function AfterRounds(sha: bytes -> bytes, a: bytes, p: bytes, s: bytes, rounds: nat): bytes {
    if rounds == 0 then a else sha(Concat(RoundParts(AfterRounds(sha, a, p, s, rounds - 1), p, s, rounds - 1)))
  }

  // The whole of it, but for how many bytes of digest B go into digest A.
  function Defined(sha: bytes -> bytes, password: bytes, salt: bytes, rounds: nat, ofB: nat): bytes
    requires forall x :: |sha(x)| == 64
  {
    var b := sha(password + salt + password);
    var a := sha(password + salt + Cyclic(b, ofB) + Concat(BitBlocks(b, password, |password|)));
    var p := Cyclic(sha(Copies(password, |password|)), |password|);
    var s := Cyclic(sha(Copies(salt, 16 + a[0] as nat)), |salt|);
    AfterRounds(sha, a, p, s, rounds)
  }

  // Steps 9 and 10: as many as the password has.
  function Specified(sha: bytes -> bytes, password: bytes, salt: bytes, rounds: nat): bytes
    requires forall x :: |sha(x)| == 64
  {
    Defined(sha, password, salt, rounds, |password|)
  }

  /**** The bits of a number ****/

  // It has as many as it takes, and all of them count.
  lemma {:induction false} BitsFit(n: nat)
    ensures n < Pow2(BitLength(n)) && (n > 0 ==> Pow2(BitLength(n) - 1) <= n && Bit(n, BitLength(n) - 1))
  {
    if n > 0 {
      BitsFit(n / 2);
      if n > 1 {
        HalfBits(n, BitLength(n / 2) - 1);
      }
    }
  }

  // A bit of the half is the next bit of the whole.
  lemma HalfBits(n: nat, i: nat)
    ensures Bit(n / 2, i) <==> Bit(n, i + 1)
  {
    DivTwice(n, Pow2(i));
  }

  lemma DivTwice(n: nat, p: nat)
    requires p > 0
    ensures n / (2 * p) == n / 2 / p
  {
    var half := n / 2;
    var q, r := half / p, half % p;
    assert half == p * q + r;
    assert n == 2 * half + n % 2;
    assert n == (2 * p) * q + (2 * r + n % 2) by {
      assert (2 * p) * q == 2 * (p * q);
    }
    DivModUnique(n, 2 * p, q, 2 * r + n % 2);
  }

  lemma BitBlocksStep(b: bytes, password: bytes, n: nat)
    requires n > 0
    ensures BitBlocks(b, password, n) == [if n % 2 == 1 then b else password] + BitBlocks(b, password, n / 2)
  {
    var blocks, rest := BitBlocks(b, password, n), BitBlocks(b, password, n / 2);
    forall i | 0 <= i < |rest| ensures blocks[i + 1] == rest[i] {
      HalfBits(n, i);
    }
  }
}
