// SHA-512 crypt over any digest function: the algorithm, the printed hash and its shape check
// (shared/crypt/sha512crypt.go).
module Sha512Crypt {
  import opened Wrappers
  import opened Bytes
  import opened Numbers
  import opened Parts
  import opened CryptEncoding
  import opened CryptDefinition

  const SIZE: nat := 64

  // SHA-512, of which only the length of its digests matters here.
  ghost predicate IsDigest(sha: bytes -> bytes) {
    forall b :: |sha(b)| == SIZE
  }

  /**** stretch ****/

  // A digest repeated until it is `length` bytes long.
  function Stretched(digest: bytes, length: nat): (s: bytes)
    requires digest != []
    ensures |s| == length
    decreases length
  {
    if length <= |digest| then digest[..length] else digest + Stretched(digest, length - |digest|)
  }

  method Stretch(digest: bytes, length: nat) returns (out: bytes)
    requires digest != []
    ensures out == Stretched(digest, length)
  {
    out := [];
    while |out| < length
      invariant |out| <= length
      invariant out + Stretched(digest, length - |out|) == Stretched(digest, length)
    {
      var remaining := length - |out|;
      if remaining > |digest| {
        remaining := |digest|;
      }
      ghost var before := out;
      out := out + digest[..remaining];
      if remaining == |digest| && length - |before| > |digest| {
        assert digest[..remaining] == digest;
        Assoc(before, digest, Stretched(digest, length - |before| - |digest|));
      }
    }
    assert out + [] == out;
  }

  // Byte i of it is byte i, modulo the digest's length, of the digest.
  lemma {:induction false} StretchedAt(digest: bytes, length: nat, i: nat)
    requires digest != [] && i < length
    ensures Stretched(digest, length)[i] == digest[i % |digest|]
    decreases length
  {
    if length > |digest| {
      if i >= |digest| {
        StretchedAt(digest, length - |digest|, i - |digest|);
        DivModStep(i, |digest|);
      }
    }
  }

  /**** What digest A is made of ****/

  // The loop that adds digest B, 64 bytes of it at a time while more than 64 are counted.
  function FullCopies(b: bytes, count: int): bytes
    decreases count
  {
    if count > SIZE then b + FullCopies(b, count - SIZE) else []
  }

  // Digest B as the password's length calls for it.
  function MaterialOfB(b: bytes, length: nat): bytes
    requires |b| == SIZE
  {
    FullCopies(b, length) + b[..length % SIZE]
  }

  // The walk over the bits of the length, the low bit first.
  function BitsOf(b: bytes, password: bytes, count: nat): bytes {
    if count == 0 then [] else (if count % 2 == 1 then b else password) + BitsOf(b, password, count / 2)
  }

  function Repeated(x: bytes, times: nat): bytes {
    if times == 0 then [] else Repeated(x, times - 1) + x
  }

  // For every length but a positive multiple of 64 this is B stretched to the password's length, as
  // steps 9 and 10 of the algorithm have it. At those multiples it is 64 bytes short.
  lemma {:induction false} MaterialIsStretched(b: bytes, length: nat)
    requires |b| == SIZE
    ensures MaterialOfB(b, length) == Stretched(b, length) <==> length == 0 || length % SIZE != 0
    ensures length > 0 && length % SIZE == 0 ==> MaterialOfB(b, length) + b == Stretched(b, length)
    decreases length
  {
    if length > SIZE {
      MaterialIsStretched(b, length - SIZE);
      DivModStep(length, SIZE);
      var r := length % SIZE;
      Assoc(b, FullCopies(b, length - SIZE), b[..r]);
      Assoc(b, MaterialOfB(b, length - SIZE), b);
      if MaterialOfB(b, length) == Stretched(b, length) {
        SameTail(b, MaterialOfB(b, length - SIZE), Stretched(b, length - SIZE));
      }
    } else if length == SIZE {
      assert b[..length] == b && b[..0] == [];
    } else {
      assert [] + b[..length] == b[..length];
    }
  }

  lemma SameTail(b: bytes, x: bytes, y: bytes)
    requires b + x == b + y
    ensures x == y
  {
    assert (b + x)[|b|..] == x && (b + y)[|b|..] == y;
  }

  /**** The algorithm ****/

  function DigestB(sha: bytes -> bytes, password: bytes, salt: bytes): bytes {
    sha(password + salt + password)
  }

  function MaterialOfA(b: bytes, password: bytes, salt: bytes): bytes
    requires |b| == SIZE
  {
    password + salt + MaterialOfB(b, |password|) + BitsOf(b, password, |password|)
  }

  // One of the rounds.
  function Round(sha: bytes -> bytes, current: bytes, p: bytes, s: bytes, i: nat): bytes {
    sha((if i % 2 == 1 then p else current) + (if i % 3 != 0 then s else []) + (if i % 7 != 0 then p else [])
        + (if i % 2 == 1 then current else p))
  }

  function RoundsFrom(sha: bytes -> bytes, current: bytes, p: bytes, s: bytes, i: nat, rounds: nat): bytes
    requires i <= rounds
    decreases rounds - i
  {
    if i == rounds then current else RoundsFrom(sha, Round(sha, current, p, s, i), p, s, i + 1, rounds)
  }

  // Everything after digest A.
  function AfterA(sha: bytes -> bytes, a: bytes, password: bytes, salt: bytes, rounds: nat): bytes
    requires IsDigest(sha) && |a| == SIZE
  {
    var p := Stretched(sha(Repeated(password, |password|)), |password|);
    var s := Stretched(sha(Repeated(salt, 16 + a[0] as nat)), |salt|);
    RoundsFrom(sha, a, p, s, 0, rounds)
  }

  function Crypted(sha: bytes -> bytes, password: bytes, salt: bytes, rounds: nat): bytes
    requires IsDigest(sha)
  {
    AfterA(sha, sha(MaterialOfA(DigestB(sha, password, salt), password, salt)), password, salt, rounds)
  }

  /**** The algorithm as it is defined ****/

  lemma StretchedIsCyclic(digest: bytes, length: nat)
    requires digest != []
    ensures Stretched(digest, length) == Cyclic(digest, length)
  {
    hide Stretched;
    forall i | 0 <= i < length ensures Stretched(digest, length)[i] == Cyclic(digest, length)[i] {
      StretchedAt(digest, length, i);
    }
  }

  lemma {:induction false} RepeatedIsCopies(x: bytes, times: nat)
    ensures Repeated(x, times) == Copies(x, times)
  {
    if times > 0 {
      RepeatedIsCopies(x, times - 1);
      var fewer := seq(times - 1, i => x);
      assert seq(times, i => x) == fewer + [x];
      ConcatAppend(fewer, [x]);
      OneOnly(x);
    }
  }

  lemma OneOnly(x: bytes)
    ensures Concat([x]) == x
  {
    assert [x][1..] == [];
    assert x + [] == x;
  }

  // The walk over the bits adds digest B for each bit that is set and the password for each that is not.
  lemma {:induction false} BitsAreBlocks(b: bytes, password: bytes, count: nat)
    ensures BitsOf(b, password, count) == Concat(BitBlocks(b, password, count))
  {
    if count > 0 {
      BitsAreBlocks(b, password, count / 2);
      BitBlocksStep(b, password, count);
      var block := if count % 2 == 1 then b else password;
      assert ([block] + BitBlocks(b, password, count / 2))[1..] == BitBlocks(b, password, count / 2);
    }
  }

  lemma RoundIsOfParts(sha: bytes -> bytes, c: bytes, p: bytes, s: bytes, i: nat)
    ensures Round(sha, c, p, s, i) == sha(Concat(RoundParts(c, p, s, i)))
  {
    var parts := RoundParts(c, p, s, i);
    FourParts(parts[0], parts[1], parts[2], parts[3]);
    assert parts == [parts[0], parts[1], parts[2], parts[3]];
  }

  lemma FourParts(a: bytes, b: bytes, c: bytes, d: bytes)
    ensures Concat([a, b, c, d]) == a + b + c + d
  {
    assert [a, b, c, d][1..] == [b, c, d] && [b, c, d][1..] == [c, d] && [c, d][1..] == [d];
    OneOnly(d);
    assert Concat([c, d]) == c + d;
    assert Concat([b, c, d]) == b + (c + d);
    assert Concat([a, b, c, d]) == a + (b + (c + d));
  }

  lemma {:induction false} RoundsAreRounds(sha: bytes -> bytes, a: bytes, p: bytes, s: bytes, i: nat, rounds: nat)
    requires i <= rounds
    ensures RoundsFrom(sha, AfterRounds(sha, a, p, s, i), p, s, i, rounds) == AfterRounds(sha, a, p, s, rounds)
    decreases rounds - i
  {
    hide Round, RoundParts;
    if i < rounds {
      RoundIsOfParts(sha, AfterRounds(sha, a, p, s, i), p, s, i);
      RoundsAreRounds(sha, a, p, s, i + 1, rounds);
    }
  }

  // How many bytes of digest B the program takes: as many as the password has, or 64 fewer.
  function BytesOfB(length: nat): nat {
    if length > 0 && length % SIZE == 0 then length - SIZE else length
  }

  lemma MaterialIsCyclic(b: bytes, length: nat)
    requires |b| == SIZE
    ensures MaterialOfB(b, length) == Cyclic(b, BytesOfB(length))
  {
    hide MaterialOfB, Stretched;
    MaterialIsStretched(b, length);
    StretchedIsCyclic(b, length);
    var material := MaterialOfB(b, length);
    if length > 0 && length % SIZE == 0 {
      assert material == (material + b)[..|material|];
      assert |material| == length - SIZE;
      assert Cyclic(b, length)[..length - SIZE] == Cyclic(b, length - SIZE);
    }
  }

  // For every password what is computed is the algorithm with that many bytes of digest B.
  lemma CryptedIsDefined(sha: bytes -> bytes, password: bytes, salt: bytes, rounds: nat)
    requires IsDigest(sha)
    ensures Crypted(sha, password, salt, rounds) == Defined(sha, password, salt, rounds, BytesOfB(|password|))
  {
    hide MaterialOfB, Stretched, BitsOf, BitBlocks, Concat, Cyclic, Copies, Repeated, RoundsFrom, BytesOfB;
    var b, ofB := sha(password + salt + password), BytesOfB(|password|);
    MaterialIsCyclic(b, |password|);
    BitsAreBlocks(b, password, |password|);
    var a := sha(password + salt + Cyclic(b, ofB) + Concat(BitBlocks(b, password, |password|)));
    RepeatedIsCopies(password, |password|);
    RepeatedIsCopies(salt, 16 + a[0] as nat);
    StretchedIsCyclic(sha(Copies(password, |password|)), |password|);
    StretchedIsCyclic(sha(Copies(salt, 16 + a[0] as nat)), |salt|);
    RoundsAreRounds(sha, a, Cyclic(sha(Copies(password, |password|)), |password|),
                    Cyclic(sha(Copies(salt, 16 + a[0] as nat)), |salt|), 0, rounds);
  }

  // Unless the password has a positive multiple of 64 bytes, that is the algorithm as specified.
  lemma CryptedAsSpecified(sha: bytes -> bytes, password: bytes, salt: bytes, rounds: nat)
    requires IsDigest(sha) && (|password| == 0 || |password| % SIZE != 0)
    ensures Crypted(sha, password, salt, rounds) == Specified(sha, password, salt, rounds)
  {
    hide Crypted, Defined;
    CryptedIsDefined(sha, password, salt, rounds);
  }

  lemma {:induction false} RoundsGiveDigest(sha: bytes -> bytes, current: bytes, p: bytes, s: bytes, i: nat, rounds: nat)
    requires IsDigest(sha) && |current| == SIZE && i <= rounds
    ensures |RoundsFrom(sha, current, p, s, i, rounds)| == SIZE
    decreases rounds - i
  {
    hide Round;
    if i < rounds {
      RoundIsDigest(sha, current, p, s, i);
      RoundsGiveDigest(sha, Round(sha, current, p, s, i), p, s, i + 1, rounds);
    }
  }

  lemma RoundIsDigest(sha: bytes -> bytes, current: bytes, p: bytes, s: bytes, i: nat)
    requires IsDigest(sha)
    ensures |Round(sha, current, p, s, i)| == SIZE
  {
  }

  lemma CryptedIsDigest(sha: bytes -> bytes, password: bytes, salt: bytes, rounds: nat)
    requires IsDigest(sha)
    ensures |Crypted(sha, password, salt, rounds)| == SIZE
  {
    hide MaterialOfA, RoundsFrom, Stretched, Repeated;
    var a := sha(MaterialOfA(DigestB(sha, password, salt), password, salt));
    var p := Stretched(sha(Repeated(password, |password|)), |password|);
    var s := Stretched(sha(Repeated(salt, 16 + a[0] as nat)), |salt|);
    RoundsGiveDigest(sha, a, p, s, 0, rounds);
  }

  method AddMaterialOfB(start: bytes, b: bytes, length: nat) returns (a: bytes)
    requires |b| == SIZE
    ensures a == start + MaterialOfB(b, length)
  {
    a := start;
    var count: int := length;
    while count > SIZE
      invariant count <= length
      invariant a + FullCopies(b, count) == start + FullCopies(b, length)
    {
      ghost var before := a;
      a := a + b;
      Assoc(before, b, FullCopies(b, count - SIZE));
      count := count - SIZE;
    }
    assert a + [] == a;
    a := a + b[..length % SIZE];
    Assoc(start, FullCopies(b, length), b[..length % SIZE]);
  }

  method AddBits(start: bytes, b: bytes, password: bytes, length: nat) returns (a: bytes)
    ensures a == start + BitsOf(b, password, length)
  {
    a := start;
    var count := length;
    while count > 0
      invariant a + BitsOf(b, password, count) == start + BitsOf(b, password, length)
      decreases count
    {
      ghost var before := a;
      a := a + (if count % 2 == 1 then b else password);
      Assoc(before, if count % 2 == 1 then b else password, BitsOf(b, password, count / 2));
      count := count / 2;
    }
    assert a + [] == a;
  }

  method Repeat(x: bytes, times: nat) returns (out: bytes)
    ensures out == Repeated(x, times)
  {
    out := [];
    for i := 0 to times
      invariant out == Repeated(x, i)
    {
      out := out + x;
    }
  }

  method Crypt(sha: bytes -> bytes, password: bytes, salt: bytes, rounds: nat) returns (current: bytes)
    requires IsDigest(sha)
    ensures current == Crypted(sha, password, salt, rounds) && |current| == SIZE
  {
    hide MaterialOfB, BitsOf, Stretched, Repeated, Round;
    var digestB := sha(password + salt + password);
    var a := AddMaterialOfB(password + salt, digestB, |password|);
    a := AddBits(a, digestB, password, |password|);
    var digestA := sha(a);
    var dp := Repeat(password, |password|);
    var sequenceP := Stretch(sha(dp), |password|);
    var ds := Repeat(salt, 16 + digestA[0] as nat);
    var sequenceS := Stretch(sha(ds), |salt|);
    current := digestA;
    for i := 0 to rounds
      invariant RoundsFrom(sha, current, sequenceP, sequenceS, i, rounds)
             == RoundsFrom(sha, digestA, sequenceP, sequenceS, 0, rounds)
    {
      var c: bytes := if i % 2 == 1 then sequenceP else current;
      if i % 3 != 0 {
        c := c + sequenceS;
      }
      if i % 7 != 0 {
        c := c + sequenceP;
      }
      c := c + (if i % 2 == 1 then current else sequenceP);
      RoundIs(sha, current, sequenceP, sequenceS, i, c);
      current := sha(c);
    }
    CryptedIsDigest(sha, password, salt, rounds);
  }

  lemma RoundIs(sha: bytes -> bytes, current: bytes, p: bytes, s: bytes, i: nat, c: bytes)
    requires c == (if i % 3 != 0 && i % 7 != 0 then (if i % 2 == 1 then p else current) + s + p
                   else if i % 3 != 0 then (if i % 2 == 1 then p else current) + s
                   else if i % 7 != 0 then (if i % 2 == 1 then p else current) + p
                   else if i % 2 == 1 then p else current) + (if i % 2 == 1 then current else p)
    ensures sha(c) == Round(sha, current, p, s, i)
  {
    var first := if i % 2 == 1 then p else current;
    assert first + [] == first;
    assert first + [] + [] == first;
    assert first + s + [] == first + s;
    assert first + [] + p == first + p;
  }
}
