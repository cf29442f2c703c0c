// The sealed-stream format of shared/seal/seal.go: header, chunk nonces, and the AEAD taken as an
// ideal primitive. Sealing appends to a log; opening succeeds only on what the log holds.
module SealFormat {
  import opened Wrappers
  import opened Bytes

  // "JHSEAL1\n"
  const MAGIC: bytes := [74, 72, 83, 69, 65, 76, 49, 10]
  const SALT_SIZE: nat := 32
  const HEADER_SIZE: nat := 44
  const TAG_SIZE: nat := 16
  const MAX_CHUNK_SIZE: nat := 0x100_0000

  predicate ValidChunkSize(size: int) {
    0 < size <= MAX_CHUNK_SIZE
  }

  function Header(salt: bytes, chunkSize: nat): (h: bytes)
    requires |salt| == SALT_SIZE
    ensures |h| == HEADER_SIZE
  {
    MAGIC + salt + BigEndian(chunkSize, 4)
  }

  // The chunk size a 44-byte header claims, when the reader accepts the header at all.
  function HeaderChunkSize(header: bytes): (r: Option<nat>)
    requires |header| == HEADER_SIZE
    ensures r.Some? ==> ValidChunkSize(r.value)
  {
    var size := FromBigEndian(header[|MAGIC| + SALT_SIZE..]);
    if header[..|MAGIC|] == MAGIC && ValidChunkSize(size) then Some(size) else None
  }

  lemma HeaderReadsBack(salt: bytes, chunkSize: nat)
    requires |salt| == SALT_SIZE && ValidChunkSize(chunkSize)
    ensures HeaderChunkSize(Header(salt, chunkSize)) == Some(chunkSize)
  {
    var h := Header(salt, chunkSize);
    assert h[..|MAGIC|] == MAGIC;
    assert h[|MAGIC| + SALT_SIZE..] == BigEndian(chunkSize, 4);
    assert Pow256(4) == 0x1_0000_0000;
    FromBigEndianOfBigEndian(chunkSize, 4);
  }

  // An 8-byte counter, three zero bytes and the final flag. The counter is a uint64.
  function ChunkNonce(counter: nat, final: bool): (n: bytes)
    requires counter < TWO_TO_THE_64
    ensures |n| == 12
  {
    BigEndian(counter, 8) + [0, 0, 0] + [if final then 1 else 0]
  }

  lemma NonceInjective(c1: nat, f1: bool, c2: nat, f2: bool)
    requires c1 < TWO_TO_THE_64 && c2 < TWO_TO_THE_64
    ensures ChunkNonce(c1, f1) == ChunkNonce(c2, f2) <==> c1 == c2 && f1 == f2
  {
    assert Pow256(8) == TWO_TO_THE_64;
    FromBigEndianOfBigEndian(c1, 8);
    FromBigEndianOfBigEndian(c2, 8);
    var n1, n2 := ChunkNonce(c1, f1), ChunkNonce(c2, f2);
    assert n1[..8] == BigEndian(c1, 8) && n2[..8] == BigEndian(c2, 8);
    assert n1[11] == (if f1 then 1 else 0) && n2[11] == (if f2 then 1 else 0);
  }

  // The nonce of the i-th chunk of a stream: the counter wraps like the uint64 it is.
  function NonceAt(i: nat, final: bool): bytes {
    ChunkNonce(i % TWO_TO_THE_64, final)
  }

  /** The stream key's AEAD. `enc` maps nonce, plaintext and associated data to ciphertext and tag. */
  datatype Aead = Aead(enc: (bytes, bytes, bytes) -> bytes) {
    // What AES-GCM's correctness gives: a fixed-size tag, and one plaintext per ciphertext.
    ghost predicate Sound() {
      && (forall n, p, h :: |enc(n, p, h)| == |p| + TAG_SIZE)
      && (forall n, p, q, h :: enc(n, p, h) == enc(n, q, h) ==> p == q)
    }
  }

  datatype LogEntry = LogEntry(nonce: bytes, header: bytes, plain: bytes, cipher: bytes)

  type Log = seq<LogEntry>

  // Ideal opening: the plaintext of a logged ciphertext, and nothing else.
  function Open(log: Log, nonce: bytes, cipher: bytes, header: bytes): (r: Option<bytes>)
    ensures r.Some? <==> exists i :: 0 <= i < |log| && Matches(log[i], nonce, cipher, header)
    ensures r.Some? ==>
              exists i :: 0 <= i < |log| && Matches(log[i], nonce, cipher, header) && log[i].plain == r.value
  {
    if log == [] then None
    else
      var last := log[|log| - 1];
      if Matches(last, nonce, cipher, header) then Some(last.plain)
      else
        var r := Open(log[..|log| - 1], nonce, cipher, header);
        assert forall i :: 0 <= i < |log| - 1 ==> log[..|log| - 1][i] == log[i];
        r
  }

  predicate Matches(e: LogEntry, nonce: bytes, cipher: bytes, header: bytes) {
    e.nonce == nonce && e.cipher == cipher && e.header == header
  }

  // A log whose ciphertexts are the AEAD's own.
  ghost predicate Honest(aead: Aead, log: Log) {
    forall i :: 0 <= i < |log| ==> log[i].cipher == aead.enc(log[i].nonce, log[i].plain, log[i].header)
  }

  // No chunk of the stream with this header has been sealed yet.
  ghost predicate Fresh(log: Log, header: bytes) {
    forall i :: 0 <= i < |log| ==> log[i].header != header
  }

  lemma OpensWhatWasSealed(aead: Aead, log: Log, k: nat)
    requires aead.Sound() && Honest(aead, log) && k < |log|
    ensures Open(log, log[k].nonce, log[k].cipher, log[k].header) == Some(log[k].plain)
  {
    var e := log[k];
    assert Matches(e, e.nonce, e.cipher, e.header);
    var r := Open(log, e.nonce, e.cipher, e.header);
    var i :| 0 <= i < |log| && Matches(log[i], e.nonce, e.cipher, e.header) && log[i].plain == r.value;
    assert aead.enc(e.nonce, log[i].plain, e.header) == aead.enc(e.nonce, e.plain, e.header);
  }

  /**** What a sealed stream is, stated without the writer ****/

  // The plaintext in chunks: all full, except that the last holds what is left. Empty data is one
  // empty chunk; an exact multiple of the size ends on a full chunk.
  function Cut(data: bytes, size: nat): (chunks: seq<bytes>)
    requires size > 0
    ensures |chunks| >= 1
  {
    if |data| <= size then [data] else [data[..size]] + Cut(data[size..], size)
  }

  lemma {:induction false} CutShape(data: bytes, size: nat)
    requires size > 0
    ensures Concat(Cut(data, size)) == data
    ensures var c := Cut(data, size);
            && (forall i :: 0 <= i < |c| - 1 ==> |c[i]| == size)
            && |c[|c| - 1]| <= size
            && (data != [] ==> c[|c| - 1] != [])
            && (data == [] ==> |c| == 1)
  {
    if |data| <= size {
      assert Concat([data]) == data + Concat([data][1..]) == data;
    } else {
      CutShape(data[size..], size);
      var c, rest := Cut(data, size), Cut(data[size..], size);
      assert c[1..] == rest;
      assert forall i :: 1 <= i < |c| ==> c[i] == rest[i - 1];
      assert data == data[..size] + data[size..];
    }
  }

  // Chunk number i of the stream, sealed.
  function SealedChunk(aead: Aead, header: bytes, plain: bytes, i: nat, final: bool): LogEntry {
    var nonce := NonceAt(i, final);
    LogEntry(nonce, header, plain, aead.enc(nonce, plain, header))
  }

  // The log entries of chunks numbered from `first`, the last of them final.
  function StreamLog(aead: Aead, header: bytes, chunks: seq<bytes>, first: nat): (log: Log)
    requires |chunks| >= 1
    ensures |log| == |chunks|
  {
    if |chunks| == 1 then [SealedChunk(aead, header, chunks[0], first, true)]
    else [SealedChunk(aead, header, chunks[0], first, false)] + StreamLog(aead, header, chunks[1..], first + 1)
  }

  lemma {:induction false} StreamLogAt(aead: Aead, header: bytes, chunks: seq<bytes>, first: nat, i: nat)
    requires i < |chunks|
    ensures StreamLog(aead, header, chunks, first)[i]
         == SealedChunk(aead, header, chunks[i], first + i, i == |chunks| - 1)
  {
    if i > 0 {
      StreamLogAt(aead, header, chunks[1..], first + 1, i - 1);
    }
  }

  function Ciphers(log: Log): bytes {
    if log == [] then [] else log[0].cipher + Ciphers(log[1..])
  }

  lemma {:induction false} CiphersAppend(a: Log, b: Log)
    ensures Ciphers(a + b) == Ciphers(a) + Ciphers(b)
  {
    if a == [] {
      assert a + b == b;
    } else {
      CiphersAppend(a[1..], b);
      assert (a + b)[0] == a[0] && (a + b)[1..] == a[1..] + b;
      Assoc(a[0].cipher, Ciphers(a[1..]), Ciphers(b));
    }
  }

  // The bytes that follow the header.
  function StreamBody(aead: Aead, header: bytes, chunks: seq<bytes>, first: nat): bytes
    requires |chunks| >= 1
  {
    Ciphers(StreamLog(aead, header, chunks, first))
  }

  // The whole stream for some plaintext.
  function SealedStream(aead: Aead, salt: bytes, chunkSize: nat, data: bytes): bytes
    requires |salt| == SALT_SIZE && chunkSize > 0
  {
    var header := Header(salt, chunkSize);
    header + StreamBody(aead, header, Cut(data, chunkSize), 0)
  }

  /**** The layout of what is written ****/

  // The text "JHSEAL1" and a line feed, as bytes.
  const MAGIC_TEXT: string := "JHSEAL1\n"

  // A header is the magic text, then the salt, then the chunk size in four bytes, the highest first.
  lemma HeaderLayout(salt: bytes, chunkSize: nat)
    requires |salt| == SALT_SIZE && ValidChunkSize(chunkSize)
    ensures var h := Header(salt, chunkSize);
            && |h| == 44 && (forall i :: 0 <= i < 8 ==> h[i] as int == MAGIC_TEXT[i] as int)
            && (forall i :: 0 <= i < 32 ==> h[8 + i] == salt[i])
            && h[40] as int * 0x100_0000 + h[41] as int * 0x1_0000 + h[42] as int * 0x100 + h[43] as int == chunkSize
  {
    var h := Header(salt, chunkSize);
    FourBytes(chunkSize);
    assert h[40..] == BigEndian(chunkSize, 4);
    assert forall i :: 0 <= i < 4 ==> h[40 + i] == h[40..][i];
  }

  lemma FourBytes(n: nat)
    requires n < 0x1_0000_0000
    ensures var b := BigEndian(n, 4);
            b[0] as int * 0x100_0000 + b[1] as int * 0x1_0000 + b[2] as int * 0x100 + b[3] as int == n
  {
    var b := BigEndian(n, 4);
    assert BigEndian(n, 4) == BigEndian(n / 256, 3) + [(n % 256) as byte];
    assert BigEndian(n / 256, 3) == BigEndian(n / 256 / 256, 2) + [(n / 256 % 256) as byte];
    assert BigEndian(n / 256 / 256, 2) == BigEndian(n / 256 / 256 / 256, 1) + [(n / 256 / 256 % 256) as byte];
    assert BigEndian(n / 256 / 256 / 256, 1) == [] + [(n / 256 / 256 / 256 % 256) as byte];
  }

  // A nonce is the chunk's number in eight bytes, the lowest last, three bytes of zero and one that is 1 for the
  // last chunk.
  lemma NonceLayout(counter: nat, final: bool)
    requires counter < TWO_TO_THE_64
    ensures var n := ChunkNonce(counter, final);
            && FromBigEndian(n[..8]) == counter && n[7] as int == counter % 256
            && n[8] == n[9] == n[10] == 0 && n[11] == if final then 1 else 0
  {
    var n := ChunkNonce(counter, final);
    assert n[..8] == BigEndian(counter, 8);
    assert Pow256(8) == TWO_TO_THE_64;
    FromBigEndianOfBigEndian(counter, 8);
    assert n[7] == BigEndian(counter, 8)[7];
  }
}
