// What the sealing format promises: the reader accepts exactly what the writer made, and returns
// only prefixes of it.
module SealTheorems {
  import opened Wrappers
  import opened Bytes
  import opened SealFormat
  import opened SealReader
  import W = SealWriter

  /**** The reader, chunk by chunk ****/

  // A reader about to read chunk number i.
  function AtChunk(i: nat, body: bytes, sound: bool): (s: State)
    ensures s.Valid()
  {
    State(body, sound, [], i % TWO_TO_THE_64, false, None)
  }

  // What a chunk taken for the last one yields.
  function YieldLast(c: Config, i: nat, chunk: bytes): (bytes, ReadError) {
    var plain := Open(c.log, NonceAt(i, true), chunk, c.header);
    if plain.Some? then (plain.value, Eof)
    else ([], if Open(c.log, NonceAt(i, false), chunk, c.header).Some? then ErrTruncated else ErrOpen)
  }

  // The plaintext and end of a body from chunk number i on.
  function Yield(c: Config, i: nat, body: bytes, sound: bool): (bytes, ReadError)
    decreases |body|
  {
    var size := c.cipherSize();
    if |body| <= size then
      if !sound then ([], ErrSource) else if body == [] then ([], ErrTruncated) else YieldLast(c, i, body)
    else
      var plain := Open(c.log, NonceAt(i, false), body[..size], c.header);
      if plain.None? then ([], ErrOpen)
      else var (more, end) := Yield(c, i + 1, body[size..], sound); (plain.value + more, end)
  }

  lemma NextAtChunk(c: Config, i: nat, body: bytes, sound: bool)
    requires |body| > c.cipherSize()
    ensures var size := c.cipherSize();
            var plain := Open(c.log, NonceAt(i, false), body[..size], c.header);
            var (s1, err) := NextStep(c, AtChunk(i, body, sound));
            if plain.None? then s1.plain == [] && err == Some(ErrOpen)
            else s1 == AtChunk(i + 1, body[size..], sound).(plain := plain.value) && err.None?
  {
    hide ChunkNonce, Open;
    var s1 := AtChunk(i, body, sound).(rest := body[c.cipherSize()..]);
    assert NextStep(c, AtChunk(i, body, sound)) == OpenStep(c, s1, body[..c.cipherSize()], false);
  }

  lemma RemainingOfPlain(c: Config, s: State, plain: bytes)
    requires s.Valid() && s.plain == []
    ensures Remaining(c, s.(plain := plain)) == (plain + Remaining(c, s).0, Remaining(c, s).1)
  {
    assert plain + [] == plain;
    if s.err.None? && !s.done {
      assert s.(plain := plain).(plain := []) == s.(plain := []);
      var (s1, err) := NextStep(c, s);
      assert [] + Remaining(c, s1.(err := err)).0 == Remaining(c, s1.(err := err)).0;
    }
  }

  // A reader yields, over any sequence of Reads, the chunk-by-chunk reading of its input. In
  // particular it never reports trailing data: a fixed byte string cannot grow after its end.
  lemma {:induction false} ReaderYields(c: Config, i: nat, body: bytes, sound: bool)
    ensures Remaining(c, AtChunk(i, body, sound)) == Yield(c, i, body, sound)
    ensures Yield(c, i, body, sound).1 != ErrTrailing
    decreases |body|
  {
    hide ChunkNonce, Open;
    var s := AtChunk(i, body, sound);
    var size := c.cipherSize();
    var (s1, err) := NextStep(c, s.(plain := []));
    if |body| > size {
      hide NextStep, OpenStep;
      NextAtChunk(c, i, body, sound);
      if err.None? {
        ReaderYields(c, i + 1, body[size..], sound);
        RemainingOfPlain(c, AtChunk(i + 1, body[size..], sound), s1.plain);
        assert s1.(err := err) == s1;
      }
    } else {
      assert |body| == size ==> body[..size] == body && body[size..] == [];
    }
    assert [] + Remaining(c, s1.(err := err)).0 == Remaining(c, s1.(err := err)).0;
  }

  /**** What the reader accepts, for any log at all ****/

  // The body is these chunks' ciphertexts: full non-final ones numbered on from i, then a final one.
  predicate IsStream(c: Config, i: nat, body: bytes, plains: seq<bytes>)
    decreases |plains|
  {
    if plains == [] then false
    else if |plains| == 1 then
      body != [] && |body| <= c.cipherSize() && Open(c.log, NonceAt(i, true), body, c.header) == Some(plains[0])
    else
      && |body| > c.cipherSize()
      && Open(c.log, NonceAt(i, false), body[..c.cipherSize()], c.header) == Some(plains[0])
      && IsStream(c, i + 1, body[c.cipherSize()..], plains[1..])
  }

  // The body starts with these full non-final chunks, and something follows them.
  predicate IsRun(c: Config, i: nat, body: bytes, plains: seq<bytes>)
    decreases |plains|
  {
    plains == [] ||
    (&& |body| > c.cipherSize()
     && Open(c.log, NonceAt(i, false), body[..c.cipherSize()], c.header) == Some(plains[0])
     && IsRun(c, i + 1, body[c.cipherSize()..], plains[1..]))
  }

  lemma {:induction false} StreamIsAccepted(c: Config, i: nat, body: bytes, plains: seq<bytes>)
    requires IsStream(c, i, body, plains)
    ensures Yield(c, i, body, true) == (Concat(plains), Eof)
    decreases |plains|
  {
    if |plains| == 1 {
      assert Concat(plains) == plains[0] + Concat(plains[1..]) == plains[0];
    } else {
      StreamIsAccepted(c, i + 1, body[c.cipherSize()..], plains[1..]);
    }
  }

  // Eof means a whole stream was read; any error leaves whole authenticated chunks behind.
  lemma {:induction false} YieldedChunks(c: Config, i: nat, body: bytes, sound: bool) returns (plains: seq<bytes>)
    ensures Yield(c, i, body, sound).0 == Concat(plains)
    ensures Yield(c, i, body, sound).1 == Eof ==> sound && IsStream(c, i, body, plains)
    ensures Yield(c, i, body, sound).1 != Eof ==> IsRun(c, i, body, plains)
    decreases |body|
  {
    var size := c.cipherSize();
    if |body| <= size {
      plains := if Yield(c, i, body, sound).1 == Eof then [Yield(c, i, body, sound).0] else [];
      assert plains != [] ==> Concat(plains) == plains[0] + Concat(plains[1..]) == plains[0];
    } else {
      var plain := Open(c.log, NonceAt(i, false), body[..size], c.header);
      if plain.None? {
        plains := [];
      } else {
        var rest := YieldedChunks(c, i + 1, body[size..], sound);
        plains := [plain.value] + rest;
        assert plains[1..] == rest;
      }
    }
  }

  ghost predicate SomeStream(c: Config, body: bytes) {
    exists plains :: IsStream(c, 0, body, plains)
  }

  lemma AcceptsExactlyStreams(c: Config, body: bytes, sound: bool)
    ensures Remaining(c, Start(body, sound)).1 == Eof <==> sound && SomeStream(c, body)
    ensures forall plains :: sound && IsStream(c, 0, body, plains) ==>
                               Remaining(c, Start(body, sound)) == (Concat(plains), Eof)
    ensures Remaining(c, Start(body, sound)).1 != Eof ==>
              exists plains :: IsRun(c, 0, body, plains) && Remaining(c, Start(body, sound)).0 == Concat(plains)
  {
    assert Start(body, sound) == AtChunk(0, body, sound);
    ReaderYields(c, 0, body, sound);
    var plains := YieldedChunks(c, 0, body, sound);
    forall p | sound && IsStream(c, 0, body, p) ensures Yield(c, 0, body, sound) == (Concat(p), Eof) {
      StreamIsAccepted(c, 0, body, p);
    }
    if Yield(c, 0, body, sound).1 == Eof {
      assert SomeStream(c, body);
    }
  }

  // Acceptance alone is wider than what the writer emits: a full chunk and then an empty final one
  // is accepted once both are logged, and no data is ever cut that way.
  lemma EmptyFinalChunkAccepted(aead: Aead, header: bytes, size: nat, full: bytes)
    requires aead.Sound() && size > 0 && |full| == size
    ensures var entries := StreamLog(aead, header, [full, []], 0);
            var c := Config(entries, header, size);
            && Remaining(c, Start(Ciphers(entries), true)) == (full, Eof)
            && forall data :: Cut(data, size) != [full, []]
  {
    var entries := StreamLog(aead, header, [full, []], 0);
    var c := Config(entries, header, size);
    var e0, e1 := SealedChunk(aead, header, full, 0, false), SealedChunk(aead, header, [], 1, true);
    assert [full, []][1..] == [[]];
    assert entries == [e0] + StreamLog(aead, header, [[]], 1) == [e0, e1];
    assert entries[1..] == [e1] && [e1][1..] == [];
    assert Ciphers([e1]) == e1.cipher + Ciphers([e1][1..]) == e1.cipher;
    assert Ciphers(entries) == e0.cipher + Ciphers(entries[1..]) == e0.cipher + e1.cipher;
    assert Honest(aead, entries);
    OpensWhatWasSealed(aead, entries, 0);
    OpensWhatWasSealed(aead, entries, 1);
    var body := Ciphers(entries);
    assert body[..c.cipherSize()] == e0.cipher && body[c.cipherSize()..] == e1.cipher;
    assert IsStream(c, 1, e1.cipher, [[]]);
    assert IsStream(c, 0, body, [full, []]);
    AcceptsExactlyStreams(c, body, true);
    var nothing: bytes := [];
    assert [full, nothing][1..] == [nothing] && [nothing][1..] == [];
    assert Concat([full, nothing]) == full;
    forall data ensures Cut(data, size) != [full, []] {
      CutShape(data, size);
    }
  }

  /**** A log that holds one genuine stream under its header ****/

  datatype Genuine = Genuine(aead: Aead, header: bytes, size: nat, data: bytes, before: Log, after: Log) {
    ghost predicate Valid() {
      && aead.Sound() && ValidChunkSize(size)
      && Fresh(before, header) && Fresh(after, header)
    }
    // The 64-bit counter does not wrap. With one chunk more no nonce is used twice yet, but the first
    // chunk opens again in the place of the last (FirstChunkOpensAgain).
    predicate NoWrap()
      requires size > 0
    {
      |chunks()| <= TWO_TO_THE_64
    }
    function chunks(): (c: seq<bytes>)
      requires size > 0
      ensures |c| >= 1
    {
      Cut(data, size)
    }
    function entries(): (log: Log)
      requires size > 0
      ensures |log| == |chunks()|
    {
      StreamLog(aead, header, chunks(), 0)
    }
    function config(): Config
      requires size > 0
    {
      Config(before + entries() + after, header, size)
    }
    // The ciphertexts of chunk i and all after it.
    function body(i: nat): bytes
      requires size > 0 && i < |chunks()|
    {
      Ciphers(entries()[i..])
    }
  }

  lemma EntryAt(g: Genuine, i: nat)
    requires g.size > 0 && i < |g.chunks()|
    ensures g.entries()[i] == SealedChunk(g.aead, g.header, g.chunks()[i], i, i == |g.chunks()| - 1)
  {
    hide StreamLog, Cut, SealedChunk;
    StreamLogAt(g.aead, g.header, g.chunks(), 0, i);
  }

  // The log opens, under this header, chunk i's ciphertext with chunk i's nonce and nothing else.
  lemma OpensOnlyItsChunks(g: Genuine, i: nat, final: bool, cipher: bytes)
    requires g.Valid() && g.NoWrap() && i < |g.chunks()|
    ensures Open(g.config().log, NonceAt(i, final), cipher, g.header)
         == if final == (i == |g.chunks()| - 1) && cipher == g.entries()[i].cipher then Some(g.chunks()[i]) else None
  {
    hide ChunkNonce;
    var log, n := g.config().log, |g.chunks()|;
    var nonce := NonceAt(i, final);
    EntryAt(g, i);
    var e := log[|g.before| + i];
    assert e == g.entries()[i];
    forall j | 0 <= j < |log| && Matches(log[j], nonce, cipher, g.header)
      ensures final == (i == n - 1) && log[j] == e
    {
      MatchIsOwnEntry(g, i, final, cipher, j);
    }
    if final == (i == n - 1) && cipher == e.cipher {
      assert Matches(log[|g.before| + i], nonce, cipher, g.header);
    }
  }

  lemma OwnEntriesOnly(g: Genuine, j: nat)
    requires g.Valid() && j < |g.config().log|
    ensures g.config().log[j].header == g.header ==>
              |g.before| <= j < |g.before| + |g.chunks()| && g.config().log[j] == g.entries()[j - |g.before|]
  {
  }

  lemma MatchIsOwnEntry(g: Genuine, i: nat, final: bool, cipher: bytes, j: nat)
    requires g.Valid() && g.NoWrap() && i < |g.chunks()| && j < |g.config().log|
    requires Matches(g.config().log[j], NonceAt(i, final), cipher, g.header)
    ensures final == (i == |g.chunks()| - 1) && g.config().log[j] == g.entries()[i]
  {
    hide ChunkNonce, StreamLog, Cut;
    OwnEntriesOnly(g, j);
    var k := j - |g.before|;
    EntryAt(g, k);
    NonceInjective(i % TWO_TO_THE_64, final, k % TWO_TO_THE_64, k == |g.chunks()| - 1);
  }

  // Chunk i's ciphertext opens, however often the counter wrapped.
  lemma OpensItsChunk(g: Genuine, i: nat)
    requires g.Valid() && i < |g.chunks()|
    ensures Open(g.config().log, NonceAt(i, i == |g.chunks()| - 1), g.entries()[i].cipher, g.header)
         == Some(g.chunks()[i])
  {
    hide ChunkNonce, StreamLog, Cut;
    var log, nonce, cipher := g.config().log, NonceAt(i, i == |g.chunks()| - 1), g.entries()[i].cipher;
    EntryAt(g, i);
    assert Matches(log[|g.before| + i], nonce, cipher, g.header);
    forall j | 0 <= j < |log| && Matches(log[j], nonce, cipher, g.header) ensures log[j].plain == g.chunks()[i] {
      OwnEntriesOnly(g, j);
      EntryAt(g, j - |g.before|);
    }
  }

  lemma BodySteps(g: Genuine, i: nat)
    requires g.Valid() && i < |g.chunks()|
    ensures var cipher, size := g.entries()[i].cipher, g.config().cipherSize();
            && |cipher| == |g.chunks()[i]| + TAG_SIZE
            && (i < |g.chunks()| - 1 ==>
                  |cipher| == size && g.body(i) == cipher + g.body(i + 1) && |g.body(i + 1)| > 0)
            && (i == |g.chunks()| - 1 ==> g.body(i) == cipher && 0 < |cipher| <= size)
  {
    EntryAt(g, i);
    CutShape(g.data, g.size);
    var rest := g.entries()[i..];
    assert rest[0] == g.entries()[i] && rest[1..] == g.entries()[i + 1..];
    if i < |g.chunks()| - 1 {
      EntryAt(g, i + 1);
      assert g.entries()[i + 1..][0] == g.entries()[i + 1];
      assert |g.entries()[i + 1].cipher| >= TAG_SIZE;
    } else {
      assert rest[1..] == [] && Ciphers(rest) == rest[0].cipher + Ciphers(rest[1..]);
    }
  }

  // The whole body is a stream of the chunks.
  lemma {:induction false} GenuineIsStream(g: Genuine, i: nat)
    requires g.Valid() && i < |g.chunks()|
    ensures IsStream(g.config(), i, g.body(i), g.chunks()[i..])
    decreases |g.chunks()| - i
  {
    hide Open, NonceAt;
    BodySteps(g, i);
    var cipher, plains := g.entries()[i].cipher, g.chunks()[i..];
    OpensItsChunk(g, i);
    if i < |g.chunks()| - 1 {
      GenuineIsStream(g, i + 1);
      assert plains[0] == g.chunks()[i] && plains[1..] == g.chunks()[i + 1..];
      assert g.body(i)[..|cipher|] == cipher && g.body(i)[|cipher|..] == g.body(i + 1);
    }
  }

  lemma ConcatFrom(chunks: seq<bytes>, i: nat, m: nat)
    requires i < m <= |chunks|
    ensures Concat(chunks[i..m]) == chunks[i] + Concat(chunks[i + 1..m])
  {
    assert chunks[i..m][0] == chunks[i] && chunks[i..m][1..] == chunks[i + 1..m];
  }

  /**** Tampering ****/

  // Any body whatsoever, read from chunk i on, either is the genuine rest or yields whole chunks
  // of it and an error.
  lemma {:induction false} AnyBodyYieldsPrefix(g: Genuine, i: nat, body: bytes, sound: bool) returns (m: nat)
    requires g.Valid() && g.NoWrap() && i < |g.chunks()|
    ensures i <= m <= |g.chunks()|
    ensures Yield(g.config(), i, body, sound).0 == Concat(g.chunks()[i..m])
    ensures Yield(g.config(), i, body, sound).1 == Eof <==> sound && body == g.body(i)
    ensures m == |g.chunks()| <==> Yield(g.config(), i, body, sound).1 == Eof
    decreases |g.chunks()| - i
  {
    hide Open, NonceAt;
    var c, n := g.config(), |g.chunks()|;
    var size := c.cipherSize();
    BodySteps(g, i);
    assert g.chunks()[i..i] == [];
    if |body| <= size {
      m := i;
      if sound && body != [] {
        OpensOnlyItsChunks(g, i, true, body);
        OpensOnlyItsChunks(g, i, false, body);
        if i == n - 1 && body == g.entries()[i].cipher {
          m := n;
          assert g.chunks()[i..n] == [g.chunks()[i]] && [g.chunks()[i]][1..] == [];
        }
      }
    } else {
      OpensOnlyItsChunks(g, i, false, body[..size]);
      if i < n - 1 && body[..size] == g.entries()[i].cipher {
        m := AnyBodyYieldsPrefix(g, i + 1, body[size..], sound);
        ConcatFrom(g.chunks(), i, m);
        assert body == body[..size] + body[size..];
        assert g.body(i)[size..] == g.body(i + 1);
      } else {
        m := i;
      }
    }
  }

  // Tampering with the bytes of a genuine stream: a reader given any content under its header
  // returns whole chunks of the data in order, and reports the end only for the very same bytes.
  lemma TamperingIsRefused(g: Genuine, body: bytes, sound: bool)
    requires g.Valid() && g.NoWrap()
    ensures var (plain, end) := Remaining(g.config(), Start(body, sound));
            && (end == Eof <==> sound && body == StreamBody(g.aead, g.header, g.chunks(), 0))
            && (end == Eof ==> plain == g.data)
            && plain <= g.data
            && (end != Eof ==> exists m :: 0 <= m < |g.chunks()| && plain == Concat(g.chunks()[..m]))
  {
    assert Start(body, sound) == AtChunk(0, body, sound);
    ReaderYields(g.config(), 0, body, sound);
    var m := AnyBodyYieldsPrefix(g, 0, body, sound);
    CutShape(g.data, g.size);
    assert g.entries()[0..] == g.entries();
    assert g.chunks()[0..m] == g.chunks()[..m] && g.chunks() == g.chunks()[..m] + g.chunks()[m..];
    ConcatAppend(g.chunks()[..m], g.chunks()[m..]);
    if m == |g.chunks()| {
      assert g.chunks()[..m] == g.chunks();
    }
  }

  // Under a header nothing was sealed with - another key, another salt, a changed header - nothing
  // comes out.
  lemma NothingUnderAnotherHeader(c: Config, body: bytes, sound: bool)
    requires Fresh(c.log, c.header)
    ensures Remaining(c, Start(body, sound)).0 == [] && Remaining(c, Start(body, sound)).1 != Eof
  {
    assert Start(body, sound) == AtChunk(0, body, sound);
    ReaderYields(c, 0, body, sound);
  }

  /**** Cutting a stream short, and adding to it ****/

  // How many chunks come out of a stream cut after k bytes of its body: a whole number of chunks
  // loses the last of them, because it is tried as the final one.
  function ChunksBeforeCut(k: nat, size: nat): nat
    requires size > 0
  {
    if k % size == 0 && k > 0 then k / size - 1 else k / size
  }

  lemma ChunksBeforeCutSteps(k: nat, size: nat)
    requires size > 0
    ensures k <= size ==> ChunksBeforeCut(k, size) == 0
    ensures 0 < k < size ==> k % size != 0
    ensures k % size == 0 && k < size ==> k == 0
    ensures size % size == 0
    ensures k > size ==> ChunksBeforeCut(k, size) == 1 + ChunksBeforeCut(k - size, size) && k % size == (k - size) % size
  {
    DivModUnique(size, size, 1, 0);
    if k < size {
      DivModUnique(k, size, 0, k);
    } else {
      DivModStep(k, size);
      if k > size && k % size == 0 {
        assert k - size > 0;
      }
    }
  }

  lemma {:induction false} CutBodyYields(g: Genuine, i: nat, k: nat)
    requires g.Valid() && g.NoWrap() && i < |g.chunks()| && k < |g.body(i)|
    ensures var size := g.config().cipherSize();
            var m := i + ChunksBeforeCut(k, size);
            && m < |g.chunks()|
            && Yield(g.config(), i, g.body(i)[..k], true)
            == (Concat(g.chunks()[i..m]), if k % size == 0 then ErrTruncated else ErrOpen)
    decreases |g.chunks()| - i
  {
    hide Open, NonceAt, ChunksBeforeCut, StreamLog, Ciphers, Cut, Yield;
    var size, body := g.config().cipherSize(), g.body(i)[..k];
    BodySteps(g, i);
    ChunksBeforeCutSteps(k, size);
    assert g.chunks()[i..i] == [];
    if k <= size {
      ShortCutYields(g, i, k);
    } else {
      assert body[..size] == g.entries()[i].cipher;
      assert body[size..] == g.body(i + 1)[..k - size];
      OpensOnlyItsChunks(g, i, false, body[..size]);
      YieldLong(g.config(), i, body, g.chunks()[i]);
      CutBodyYields(g, i + 1, k - size);
      ConcatFrom(g.chunks(), i, i + ChunksBeforeCut(k, size));
    }
  }

  lemma YieldLong(c: Config, i: nat, body: bytes, plain: bytes)
    requires |body| > c.cipherSize()
    requires Open(c.log, NonceAt(i, false), body[..c.cipherSize()], c.header) == Some(plain)
    ensures var (more, end) := Yield(c, i + 1, body[c.cipherSize()..], true); Yield(c, i, body, true) == (plain + more, end)
  {
    hide Open, NonceAt;
  }

  lemma ShortCutYields(g: Genuine, i: nat, k: nat)
    requires g.Valid() && g.NoWrap() && i < |g.chunks()| && k < |g.body(i)| && k <= g.config().cipherSize()
    ensures var size := g.config().cipherSize();
            Yield(g.config(), i, g.body(i)[..k], true) == ([], if k % size == 0 then ErrTruncated else ErrOpen)
  {
    hide Open, NonceAt, StreamLog, Ciphers, Cut;
    var size, body := g.config().cipherSize(), g.body(i)[..k];
    BodySteps(g, i);
    ChunksBeforeCutSteps(k, size);
    if k > 0 {
      OpensOnlyItsChunks(g, i, true, body);
      OpensOnlyItsChunks(g, i, false, body);
      if k == size {
        assert body == g.entries()[i].cipher;
      }
    }
  }

  // Every strict prefix of a sealed stream is refused: as a bad format inside the header, as
  // truncated exactly when it ends on a chunk boundary, as altered otherwise.
  lemma EveryPrefixIsRefused(g: Genuine, salt: bytes, k: nat)
    requires g.Valid() && g.NoWrap() && |salt| == SALT_SIZE && g.header == Header(salt, g.size)
    requires k < |SealedStream(g.aead, salt, g.size, g.data)|
    ensures var prefix := SealedStream(g.aead, salt, g.size, g.data)[..k];
            var size := g.size + TAG_SIZE;
            if k < HEADER_SIZE then OpenHeader(prefix).None?
            else
              && OpenHeader(prefix) == Some((g.header, g.size, prefix[HEADER_SIZE..]))
              && ChunksBeforeCut(k - HEADER_SIZE, size) < |g.chunks()|
              && Remaining(g.config(), Start(prefix[HEADER_SIZE..], true))
              == (Concat(g.chunks()[..ChunksBeforeCut(k - HEADER_SIZE, size)]),
                  if (k - HEADER_SIZE) % size == 0 then ErrTruncated else ErrOpen)
  {
    hide Open, NonceAt, Header;
    var stream := SealedStream(g.aead, salt, g.size, g.data);
    var prefix := stream[..k];
    if k >= HEADER_SIZE {
      var cut := k - HEADER_SIZE;
      HeaderReadsBack(salt, g.size);
      assert prefix[..HEADER_SIZE] == g.header;
      assert g.entries()[0..] == g.entries();
      assert stream == g.header + g.body(0);
      assert prefix[HEADER_SIZE..] == g.body(0)[..cut];
      assert Start(prefix[HEADER_SIZE..], true) == AtChunk(0, g.body(0)[..cut], true);
      CutBodyYields(g, 0, cut);
      ReaderYields(g.config(), 0, g.body(0)[..cut], true);
    }
  }

  lemma {:induction false} ExtendedBodyYields(g: Genuine, i: nat, extra: bytes)
    requires g.Valid() && g.NoWrap() && i < |g.chunks()| && extra != []
    ensures Yield(g.config(), i, g.body(i) + extra, true) == (Concat(g.chunks()[i..|g.chunks()| - 1]), ErrOpen)
    decreases |g.chunks()| - i
  {
    hide Open, NonceAt;
    var c, n, body := g.config(), |g.chunks()|, g.body(i) + extra;
    var size := c.cipherSize();
    BodySteps(g, i);
    if i < n - 1 {
      assert body[..size] == g.entries()[i].cipher && body[size..] == g.body(i + 1) + extra;
      OpensOnlyItsChunks(g, i, false, body[..size]);
      ExtendedBodyYields(g, i + 1, extra);
      ConcatFrom(g.chunks(), i, n - 1);
    } else {
      assert g.chunks()[i..i] == [];
      OpensOnlyItsChunks(g, i, true, body);
      OpensOnlyItsChunks(g, i, false, body);
      if |body| > size {
        OpensOnlyItsChunks(g, i, false, body[..size]);
      }
    }
  }

  // Bytes added after a sealed stream are refused as alteration, never as trailing data.
  lemma EveryExtensionIsRefused(g: Genuine, extra: bytes)
    requires g.Valid() && g.NoWrap() && extra != []
    ensures Remaining(g.config(), Start(StreamBody(g.aead, g.header, g.chunks(), 0) + extra, true))
         == (Concat(g.chunks()[..|g.chunks()| - 1]), ErrOpen)
  {
    assert g.entries()[0..] == g.entries();
    assert g.chunks()[0..|g.chunks()| - 1] == g.chunks()[..|g.chunks()| - 1];
    ExtendedBodyYields(g, 0, extra);
    ReaderYields(g.config(), 0, g.body(0) + extra, true);
    assert Start(g.body(0) + extra, true) == AtChunk(0, g.body(0) + extra, true);
  }

  /**** Writer and reader together ****/

  // Whatever was written in whatever pieces, once a close has answered without an error a reader of
  // the output gives it back through buffers of any sizes, and then reports the end.
  lemma RoundTrip(c: W.Config, plan: seq<W.Fault>, logged: Log, after: Log, ops: seq<W.Op>, i: nat, sizes: seq<nat>)
    requires c.Valid() && c.aead.Sound() && Fresh(logged, c.header()) && Fresh(after, c.header())
    requires i < |ops| && ops[i].CloseOp?
    requires W.Answers(c, W.Initial(W.OutputState(c.header(), plan), logged), ops)[i].error == W.NoError
    ensures var s := W.Run(c, W.Initial(W.OutputState(c.header(), plan), logged), ops);
            && s.out.data == SealedStream(c.aead, c.salt, c.chunkSize, W.Written(ops))
            && OpenHeader(s.out.data) == Some((c.header(), c.chunkSize, s.out.data[HEADER_SIZE..]))
            && var (got, end) := ReadAll(Config(s.log + after, c.header(), c.chunkSize),
                                         Start(s.out.data[HEADER_SIZE..], true), sizes);
            && got <= W.Written(ops)
            && (end.Some? ==> got == W.Written(ops) && end == Some(Eof))
            && ((forall i :: 0 <= i < |sizes| ==> sizes[i] > 0) && |sizes| > |W.Written(ops)| ==> end.Some?)
  {
    hide W.Run, Header, Open, ReadAll;
    var header, data := c.header(), W.Written(ops);
    var s := W.Run(c, W.Initial(W.OutputState(header, plan), logged), ops);
    W.ClosedOutput(c, W.OutputState(header, plan), logged, ops, i);
    HeaderReadsBack(c.salt, c.chunkSize);
    var g := Genuine(c.aead, header, c.chunkSize, data, logged, after);
    assert g.entries()[0..] == g.entries() && g.chunks()[0..] == g.chunks();
    var body := s.out.data[HEADER_SIZE..];
    assert s.out.data == header + g.body(0) && body == g.body(0) && s.out.data[..HEADER_SIZE] == header;
    assert g.config() == Config(s.log + after, header, c.chunkSize);
    GenuineIsStream(g, 0);
    AcceptsExactlyStreams(g.config(), body, true);
    CutShape(data, c.chunkSize);
    ReadAllIsRemaining(g.config(), Start(body, true), sizes);
  }

  lemma {:induction false} CutIntoBytes(data: bytes)
    requires data != []
    ensures |Cut(data, 1)| == |data|
    decreases |data|
  {
    if |data| > 1 {
      CutIntoBytes(data[1..]);
    }
  }

  // Past 2^64 chunks an opening is no longer its own chunk's: where the reader stands at chunk 2^64 and
  // reads on, the first chunk opens again.
  lemma FirstChunkOpensAgain(g: Genuine)
    requires g.Valid() && |g.chunks()| > TWO_TO_THE_64
    ensures Open(g.config().log, NonceAt(TWO_TO_THE_64, false), g.entries()[0].cipher, g.header) == Some(g.chunks()[0])
  {
    hide ChunkNonce, StreamLog, Cut;
    OpensItsChunk(g, 0);
    assert TWO_TO_THE_64 % TWO_TO_THE_64 == 0;
  }

  // The format's limit: with one-byte chunks, 2^64 + 2 bytes of data make the counter wrap and the
  // nonce of chunk 0 be used again.
  lemma WrappingReusesNonces(aead: Aead, salt: bytes)
    requires |salt| == SALT_SIZE
    ensures var zeros: bytes := seq(TWO_TO_THE_64 + 2, _ => 0);
            !W.DistinctNonces(StreamLog(aead, Header(salt, 1), Cut(zeros, 1), 0))
  {
    hide Header, ChunkNonce, Cut, StreamLog;
    var zeros: bytes := seq(TWO_TO_THE_64 + 2, _ => 0);
    var chunks, header := Cut(zeros, 1), Header(salt, 1);
    var log := StreamLog(aead, header, chunks, 0);
    CutIntoBytes(zeros);
    StreamLogAt(aead, header, chunks, 0, 0);
    StreamLogAt(aead, header, chunks, 0, TWO_TO_THE_64);
    assert log[0].nonce == log[TWO_TO_THE_64].nonce;
  }
}
