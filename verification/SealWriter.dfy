// The sealing writer of shared/seal/seal.go: a full buffer is sealed only once more data arrives,
// so the last chunk can be marked final whatever its length.
module SealWriter {
  import opened Wrappers
  import opened Bytes
  import opened SealFormat

  /**** The underlying io.Writer ****/

  // What the underlying writer will do with its next writes: accept, or stop after some bytes with
  // an error. Past the end of the plan everything is accepted.
  datatype Fault = Accept | FailAfter(n: nat)

  datatype OutputState = OutputState(data: bytes, plan: seq<Fault>)

  function Put(o: OutputState, p: bytes): (OutputState, bool)
  {
    var plan := if o.plan == [] then [] else o.plan[1..];
    if o.plan != [] && o.plan[0].FailAfter? then
      var k := Min(o.plan[0].n, |p|);
      (OutputState(o.data + p[..k], plan), false)
    else (OutputState(o.data + p, plan), true)
  }

  class Output {
    var data: bytes
    var plan: seq<Fault>

    constructor (plan: seq<Fault>)
      ensures State() == OutputState([], plan)
    {
      data, this.plan := [], plan;
    }

    function State(): OutputState
      reads this
    {
      OutputState(data, plan)
    }

    method Write(p: bytes) returns (ok: bool)
      modifies this
      ensures (State(), ok) == Put(old(State()), p)
    {
      ok := true;
      var accepted := p;
      if plan != [] {
        if plan[0].FailAfter? {
          ok := false;
          accepted := p[..Min(plan[0].n, |p|)];
        }
        plan := plan[1..];
      }
      data := data + accepted;
    }
  }

  /**** The writer as a state machine ****/

  datatype Config = Config(aead: Aead, salt: bytes, chunkSize: nat) {
    predicate Valid() { |salt| == SALT_SIZE && ValidChunkSize(chunkSize) }
    function header(): bytes requires Valid() { Header(salt, chunkSize) }
  }

  datatype WriteError = NoError | ErrClosed | ErrWrite

  datatype State = State(buf: bytes, counter: nat, closed: bool, failed: bool, log: Log, out: OutputState) {
    predicate Valid(c: Config) {
      c.Valid() && |buf| <= c.chunkSize && counter < TWO_TO_THE_64
    }
  }

  function SealStep(c: Config, s: State, final: bool): (r: State)
    requires s.Valid(c)
    ensures r.Valid(c) && r.closed == s.closed
    ensures !r.failed ==> r.buf == []
  {
    var nonce := ChunkNonce(s.counter, final);
    var cipher := c.aead.enc(nonce, s.buf, c.header());
    var log := s.log + [LogEntry(nonce, c.header(), s.buf, cipher)];
    var (out, ok) := Put(s.out, cipher);
    if ok then s.(buf := [], counter := (s.counter + 1) % TWO_TO_THE_64, failed := false, log := log, out := out)
    else s.(failed := true, log := log, out := out)
  }

  // The two halves of a pass of the loop in Write: seal a full buffer, then take more data.
  function Emptied(c: Config, s: State): (r: State)
    requires s.Valid(c)
    ensures r.Valid(c) && r.closed == s.closed && (!r.failed ==> |r.buf| < c.chunkSize)
  {
    if |s.buf| == c.chunkSize then SealStep(c, s, false) else s
  }

  function Filled(c: Config, s: State, p: bytes): (r: State)
    requires s.Valid(c)
    ensures r.Valid(c) && r.closed == s.closed && r.failed == s.failed
  {
    s.(buf := s.buf + p[..Min(c.chunkSize - |s.buf|, |p|)])
  }

  // What the loop of Write makes of the rest of its argument.
  function WriteLoop(c: Config, s: State, p: bytes, written: nat): (r: (State, nat, WriteError))
    requires s.Valid(c) && !s.failed
    ensures r.0.Valid(c) && r.0.closed == s.closed && written <= r.1 <= written + |p|
    decreases |p|
  {
    if p == [] then (s, written, NoError)
    else
      var s1 := Emptied(c, s);
      if s1.failed then (s1, written, ErrWrite)
      else
        var n := Min(c.chunkSize - |s1.buf|, |p|);
        WriteLoop(c, Filled(c, s1, p), p[n..], written + n)
  }

  lemma WriteLoopUnfolds(c: Config, s: State, p: bytes, written: nat)
    requires s.Valid(c) && !s.failed
    ensures p == [] ==> WriteLoop(c, s, p, written) == (s, written, NoError)
    ensures p != [] && Emptied(c, s).failed ==> WriteLoop(c, s, p, written) == (Emptied(c, s), written, ErrWrite)
    ensures p != [] && !Emptied(c, s).failed ==>
              var n := Min(c.chunkSize - |Emptied(c, s).buf|, |p|);
              WriteLoop(c, s, p, written) == WriteLoop(c, Filled(c, Emptied(c, s), p), p[n..], written + n)
  {
  }

  function WriteStep(c: Config, s: State, p: bytes): (r: (State, nat, WriteError))
    requires s.Valid(c)
    ensures r.0.Valid(c) && r.1 <= |p|
  {
    if s.closed then (s, 0, ErrClosed)
    else if s.failed then (s, 0, ErrWrite)
    else WriteLoop(c, s, p, 0)
  }

  function CloseStep(c: Config, s: State): (r: (State, WriteError))
    requires s.Valid(c)
    ensures r.0.Valid(c)
  {
    if s.closed then (s, if s.failed then ErrWrite else NoError)
    else
      var s1 := s.(closed := true);
      if s.failed then (s1, ErrWrite)
      else var s2 := SealStep(c, s1, true); (s2, if s2.failed then ErrWrite else NoError)
  }

  /**** The writer as the source has it ****/

  class Writer {
    const config: Config
    const out: Output
    var buf: bytes
    var sealed: bytes
    var counter: nat
    var closed: bool
    var err: bool
    ghost var log: Log

    ghost predicate Valid()
      reads this, out
    {
      Machine().Valid(config)
    }

    ghost function Machine(): State
      reads this, out
    {
      State(buf, counter, closed, err, log, out.State())
    }

    // The caller has written the header already; `logged` is what this AEAD sealed before.
    constructor (config: Config, out: Output, ghost logged: Log)
      requires config.Valid()
      ensures Valid() && this.config == config && this.out == out
      ensures Machine() == State([], 0, false, false, logged, out.State())
    {
      this.config, this.out := config, out;
      buf, sealed, counter, closed, err, log := [], [], 0, false, false, logged;
    }

    method Seal(final: bool) returns (failed: bool)
      requires Valid() && !err
      modifies this, out
      ensures Valid() && Machine() == SealStep(config, old(Machine()), final) && failed == err
    {
      var nonce := ChunkNonce(counter, final);
      sealed := config.aead.enc(nonce, buf, config.header());
      log := log + [LogEntry(nonce, config.header(), buf, sealed)];
      var ok := out.Write(sealed);
      if !ok {
        err := true;
        return true;
      }
      buf := [];
      counter := (counter + 1) % TWO_TO_THE_64;
      return false;
    }

    // copy into the free part of the buffer.
    method Copy(p: bytes) returns (n: nat)
      requires Valid() && |buf| < config.chunkSize
      modifies this`buf
      ensures Valid() && Machine() == Filled(config, old(Machine()), p)
      ensures n == Min(config.chunkSize - |old(buf)|, |p|)
    {
      n := Min(config.chunkSize - |buf|, |p|);
      buf := buf + p[..n];
    }

    method Write(data: bytes) returns (written: nat, result: WriteError)
      requires Valid()
      modifies this, out
      ensures Valid() && (Machine(), written, result) == WriteStep(config, old(Machine()), data)
    {
      hide SealStep, WriteLoop, Filled;
      if closed {
        return 0, ErrClosed;
      }
      if err {
        return 0, ErrWrite;
      }
      var p := data;
      written := 0;
      while |p| > 0
        invariant Valid() && !err
        invariant WriteLoop(config, Machine(), p, written) == WriteLoop(config, old(Machine()), data, 0)
        decreases |p|
      {
        WriteLoopUnfolds(config, Machine(), p, written);
        if |buf| == config.chunkSize {
          var failed := Seal(false);
          if failed {
            return written, ErrWrite;
          }
        }
        var n := Copy(p);
        p := p[n..];
        written := written + n;
      }
      WriteLoopUnfolds(config, Machine(), p, written);
      return written, NoError;
    }

    method Close() returns (result: WriteError)
      requires Valid()
      modifies this, out
      ensures Valid() && (Machine(), result) == CloseStep(config, old(Machine()))
    {
      if closed {
        return if err then ErrWrite else NoError;
      }
      closed := true;
      if err {
        return ErrWrite;
      }
      var failed := Seal(true);
      return if failed then ErrWrite else NoError;
    }
  }

  datatype OpenError = ErrKey | ErrChunkSize | ErrSalt | ErrHeader

  const KEY_SIZE: nat := 32

  // newWriter: `salt` is what the random source gave, if it gave 32 bytes.
  method NewWriter(out: Output, aead: Aead, keyLength: nat, chunkSize: int, salt: Option<bytes>, ghost logged: Log)
    returns (r: Result<Writer, OpenError>)
    requires salt.Some? ==> |salt.value| == SALT_SIZE
    modifies out
    ensures keyLength != KEY_SIZE ==> r == Failure(ErrKey) && out.State() == old(out.State())
    ensures keyLength == KEY_SIZE && !ValidChunkSize(chunkSize) ==>
              r == Failure(ErrChunkSize) && out.State() == old(out.State())
    ensures keyLength == KEY_SIZE && ValidChunkSize(chunkSize) && salt.None? ==>
              r == Failure(ErrSalt) && out.State() == old(out.State())
    ensures keyLength == KEY_SIZE && ValidChunkSize(chunkSize) && salt.Some? ==>
              var put := Put(old(out.State()), Header(salt.value, chunkSize));
              out.State() == put.0 &&
              if !put.1 then r == Failure(ErrHeader) else
                r.Success? && fresh(r.value) && r.value.Valid() && r.value.out == out &&
                r.value.config == Config(aead, salt.value, chunkSize) &&
                r.value.Machine() == Initial(put.0, logged)
  {
    if keyLength != KEY_SIZE {
      return Failure(ErrKey);
    }
    if !ValidChunkSize(chunkSize) {
      return Failure(ErrChunkSize);
    }
    if salt.None? {
      return Failure(ErrSalt);
    }
    var ok := out.Write(Header(salt.value, chunkSize));
    if !ok {
      return Failure(ErrHeader);
    }
    var w := new Writer(Config(aead, salt.value, chunkSize), out, logged);
    return Success(w);
  }

  function Initial(out: OutputState, logged: Log): State {
    State([], 0, false, false, logged, out)
  }

  /**** Runs of Write and Close ****/

  datatype Op = WriteOp(p: bytes) | CloseOp

  function Apply(c: Config, s: State, op: Op): (r: State)
    requires s.Valid(c)
    ensures r.Valid(c)
  {
    match op
    case WriteOp(p) => WriteStep(c, s, p).0
    case CloseOp => CloseStep(c, s).0
  }

  function Run(c: Config, s: State, ops: seq<Op>): (r: State)
    requires s.Valid(c)
    ensures r.Valid(c)
    decreases |ops|
  {
    if ops == [] then s else Run(c, Apply(c, s, ops[0]), ops[1..])
  }

  // The data of the writes before the first Close, joined up.
  function Written(ops: seq<Op>): bytes {
    if ops == [] || ops[0].CloseOp? then [] else ops[0].p + Written(ops[1..])
  }

  /**** What every reachable state looks like ****/

  // Entries of full chunks that were not the last, numbered from 0.
  function PartialLog(c: Config, chunks: seq<bytes>): (log: Log)
    requires c.Valid()
    ensures |log| == |chunks|
  {
    if chunks == [] then []
    else
      var n := |chunks| - 1;
      PartialLog(c, chunks[..n]) + [SealedChunk(c.aead, c.header(), chunks[n], n, false)]
  }

  /** The writer has taken `data`, of which `chunks` were sealed and written out in full. */
  datatype History = History(before: Log, start: bytes, chunks: seq<bytes>, data: bytes)

  ghost predicate AllFull(c: Config, chunks: seq<bytes>) {
    forall i :: 0 <= i < |chunks| ==> |chunks[i]| == c.chunkSize
  }

  ghost predicate Aligned(c: Config, s: State, h: History)
    requires s.Valid(c)
  {
    && AllFull(c, h.chunks)
    && h.data == Concat(h.chunks) + s.buf
    && s.counter == |h.chunks| % TWO_TO_THE_64
    && s.log == h.before + PartialLog(c, h.chunks)
    && s.out.data == h.start + Ciphers(PartialLog(c, h.chunks))
    && !s.failed
  }

  // Sealing is delayed: once a chunk went out, the buffer is not empty.
  ghost predicate Buffering(c: Config, s: State, h: History)
    requires s.Valid(c)
  {
    !s.failed && Aligned(c, s, h) && (h.chunks != [] ==> s.buf != [])
  }

  // One more chunk was sealed, with this flag.
  ghost predicate SealedOne(c: Config, s: State, h: History, last: bytes, final: bool)
    requires s.Valid(c)
  {
    && s.log == h.before + PartialLog(c, h.chunks) + [SealedChunk(c.aead, c.header(), last, |h.chunks|, final)]
    && h.data == Concat(h.chunks) + last
    && |last| <= c.chunkSize
    && AllFull(c, h.chunks)
    && (h.chunks != [] ==> last != [])
  }

  ghost predicate Finished(c: Config, s: State, h: History)
    requires s.Valid(c)
  {
    && s.closed && !s.failed
    && SealedOne(c, s, h, LastOf(s.log), true)
    && s.out.data == h.start + Ciphers(s.log[|h.before|..])
  }

  ghost predicate Broken(c: Config, s: State, h: History)
    requires s.Valid(c)
  {
    && s.failed
    && exists final :: SealedOne(c, s, h, LastOf(s.log), final)
  }

  function LastOf(log: Log): bytes {
    if log == [] then [] else log[|log| - 1].plain
  }

  ghost predicate Reached(c: Config, s: State, h: History)
    requires s.Valid(c)
  {
    (!s.closed && Buffering(c, s, h)) || Finished(c, s, h) || Broken(c, s, h)
  }

  lemma SealAdds(c: Config, s: State, chunks: seq<bytes>, final: bool)
    requires s.Valid(c) && s.counter == |chunks| % TWO_TO_THE_64
    ensures var s' := SealStep(c, s, final);
            var entry := SealedChunk(c.aead, c.header(), s.buf, |chunks|, final);
            && s'.log == s.log + [entry] && LastOf(s'.log) == s.buf
            && (!s'.failed ==>
                  s'.out.data == s.out.data + entry.cipher && s'.buf == []
                  && s'.counter == (|chunks| + 1) % TWO_TO_THE_64)
  {
    hide ChunkNonce, Header;
  }

  lemma PartialLogAppend(c: Config, chunks: seq<bytes>, last: bytes, final: bool)
    requires c.Valid()
    ensures var entry := SealedChunk(c.aead, c.header(), last, |chunks|, final);
            && (!final ==> PartialLog(c, chunks + [last]) == PartialLog(c, chunks) + [entry])
            && Ciphers(PartialLog(c, chunks) + [entry]) == Ciphers(PartialLog(c, chunks)) + entry.cipher
    ensures Concat(chunks + [last]) == Concat(chunks) + last
  {
    var entry := SealedChunk(c.aead, c.header(), last, |chunks|, final);
    assert (chunks + [last])[..|chunks|] == chunks;
    CiphersAppend(PartialLog(c, chunks), [entry]);
    assert Ciphers([entry]) == entry.cipher + Ciphers([entry][1..]) == entry.cipher;
    ConcatAppend(chunks, [last]);
    assert Concat([last]) == last + Concat([last][1..]) == last;
  }

  // Sealing while the buffer is full leaves a longer run of full chunks, or breaks the writer.
  lemma SealMiddle(c: Config, s: State, h: History)
    requires s.Valid(c) && Buffering(c, s, h) && |s.buf| == c.chunkSize
    ensures var s' := SealStep(c, s, false);
            && (s'.failed ==> Broken(c, s', h))
            && (!s'.failed ==> Aligned(c, s', h.(chunks := h.chunks + [s.buf])))
  {
    hide SealStep, PartialLog, Ciphers, Concat, SealedChunk;
    var s' := SealStep(c, s, false);
    SealAdds(c, s, h.chunks, false);
    PartialLogAppend(c, h.chunks, s.buf, false);
    if s'.failed {
      assert SealedOne(c, s', h, s.buf, false);
    } else {
      var chunks := h.chunks + [s.buf];
      assert AllFull(c, chunks);
      assert s'.out.data == h.start + Ciphers(PartialLog(c, chunks));
    }
  }

  lemma SealLast(c: Config, s: State, h: History)
    requires s.Valid(c) && Buffering(c, s, h) && s.closed
    ensures var s' := SealStep(c, s, true);
            if s'.failed then Broken(c, s', h) else Finished(c, s', h)
  {
    hide SealStep, PartialLog, Ciphers, Concat, SealedChunk;
    var s' := SealStep(c, s, true);
    var entry := SealedChunk(c.aead, c.header(), s.buf, |h.chunks|, true);
    SealAdds(c, s, h.chunks, true);
    PartialLogAppend(c, h.chunks, s.buf, true);
    assert SealedOne(c, s', h, s.buf, true);
    assert s'.log[|h.before|..] == PartialLog(c, h.chunks) + [entry];
  }

  lemma FillKeeps(c: Config, s: State, h: History, p: bytes) returns (h': History)
    requires s.Valid(c) && Aligned(c, s, h) && p != [] && |s.buf| < c.chunkSize
    ensures h' == h.(data := h.data + p[..Min(c.chunkSize - |s.buf|, |p|)])
    ensures Buffering(c, Filled(c, s, p), h')
  {
    var n := Min(c.chunkSize - |s.buf|, |p|);
    h' := h.(data := h.data + p[..n]);
    assert (Concat(h.chunks) + s.buf) + p[..n] == Concat(h.chunks) + (s.buf + p[..n]);
  }

  // One pass of the loop in Write.
  lemma PassKeeps(c: Config, s: State, h: History, p: bytes) returns (h': History)
    requires s.Valid(c) && Buffering(c, s, h) && p != []
    ensures var s1 := Emptied(c, s);
            && (s1.failed ==> Broken(c, s1, h))
            && (!s1.failed ==>
                  && Buffering(c, Filled(c, s1, p), h') && h'.before == h.before && h'.start == h.start
                  && h'.data == h.data + p[..Min(c.chunkSize - |s1.buf|, |p|)])
  {
    h' := h;
    if |s.buf| < c.chunkSize {
      h' := FillKeeps(c, s, h, p);
    } else {
      SealMiddle(c, s, h);
      if !SealStep(c, s, false).failed {
        h' := FillKeeps(c, SealStep(c, s, false), h.(chunks := h.chunks + [s.buf]), p);
      }
    }
  }

  lemma {:induction false} WriteLoopKeeps(c: Config, s: State, h: History, p: bytes, written: nat)
    returns (h': History, s': State, n: nat, result: WriteError)
    requires s.Valid(c) && Buffering(c, s, h) && !s.closed && !s.failed
    ensures WriteLoop(c, s, p, written) == (s', n, result)
    ensures s'.Valid(c) && !s'.closed && h'.before == h.before && h'.start == h.start
    ensures written <= n <= written + |p| && h'.data == h.data + p[..n - written]
    ensures if result == NoError then Buffering(c, s', h') && n == written + |p| else Broken(c, s', h')
    decreases |p|
  {
    hide SealStep, Buffering, Broken, Emptied, Filled;
    if p == [] {
      h', s', n, result := h, s, written, NoError;
      assert h.data + p[..0] == h.data;
      return;
    }
    var h1 := PassKeeps(c, s, h, p);
    var s1 := Emptied(c, s);
    if s1.failed {
      h', s', n, result := h, s1, written, ErrWrite;
      assert h.data + p[..0] == h.data;
      return;
    }
    var k := Min(c.chunkSize - |s1.buf|, |p|);
    h', s', n, result := WriteLoopKeeps(c, Filled(c, s1, p), h1, p[k..], written + k);
    TakeSplit(h.data, p, k, n - written);
  }

  /**** Every run ****/

  lemma CloseKeeps(c: Config, s: State, h: History)
    requires s.Valid(c) && Reached(c, s, h)
    ensures var s' := CloseStep(c, s).0;
            Reached(c, s', h) && s'.closed && (s.failed ==> s'.failed)
  {
    hide SealStep, Aligned;
    if !s.closed {
      var s1 := s.(closed := true);
      if s.failed {
        var final :| SealedOne(c, s, h, LastOf(s.log), final);
        assert SealedOne(c, s1, h, LastOf(s1.log), final);
      } else {
        assert Buffering(c, s1, h) by { BufferingClosed(c, s, h); }
        SealLast(c, s1, h);
      }
    }
  }

  lemma BufferingClosed(c: Config, s: State, h: History)
    requires s.Valid(c) && Buffering(c, s, h)
    ensures Buffering(c, s.(closed := true), h)
  {
  }

  lemma ApplyKeeps(c: Config, s: State, h: History, op: Op) returns (h': History)
    requires s.Valid(c) && Reached(c, s, h)
    ensures var s' := Apply(c, s, op);
            && Reached(c, s', h') && h'.before == h.before && h'.start == h.start
            && (s.closed || op.CloseOp? ==> s'.closed && h'.data == h.data)
            && (!s.closed && op.WriteOp? ==> !s'.closed && h.data <= h'.data <= h.data + op.p)
            && (!s.closed && op.WriteOp? && !s'.failed ==> h'.data == h.data + op.p)
            && (s.failed ==> s'.failed && h'.data == h.data)
  {
    hide SealStep, WriteLoop, Buffering, SealedOne, CloseStep;
    h' := h;
    match op
    case WriteOp(p) =>
      if s.closed || s.failed {
        assert Apply(c, s, op) == s;
      } else {
        ghost var s', n, result;
        h', s', n, result := WriteLoopKeeps(c, s, h, p, 0);
        assert Apply(c, s, op) == s';
      }
    case CloseOp =>
      CloseKeeps(c, s, h);
  }

  lemma {:induction false} RunKeeps(c: Config, s: State, h: History, ops: seq<Op>) returns (h': History)
    requires s.Valid(c) && Reached(c, s, h)
    ensures Reached(c, Run(c, s, ops), h') && h'.before == h.before && h'.start == h.start
    ensures s.closed ==> h'.data == h.data
    ensures !s.closed ==> h.data <= h'.data <= h.data + Written(ops)
    ensures !s.closed && !Run(c, s, ops).failed ==> h'.data == h.data + Written(ops)
    ensures s.failed ==> Run(c, s, ops).failed && h'.data == h.data
    decreases |ops|
  {
    hide Reached, Apply;
    if ops == [] {
      h' := h;
    } else {
      var h1 := ApplyKeeps(c, s, h, ops[0]);
      h' := RunKeeps(c, Apply(c, s, ops[0]), h1, ops[1..]);
    }
  }

  lemma InitialReached(c: Config, out: OutputState, logged: Log) returns (h: History)
    requires c.Valid()
    ensures h == History(logged, out.data, [], []) && Reached(c, Initial(out, logged), h)
  {
    h := History(logged, out.data, [], []);
    assert Buffering(c, Initial(out, logged), h);
  }

  lemma {:induction false} PartialLogAt(c: Config, chunks: seq<bytes>, i: nat)
    requires c.Valid() && i < |chunks|
    ensures PartialLog(c, chunks)[i] == SealedChunk(c.aead, c.header(), chunks[i], i, false)
    decreases |chunks|
  {
    if i < |chunks| - 1 {
      PartialLogAt(c, chunks[..|chunks| - 1], i);
    }
  }

  // Entry i of a stream's log carries the i-th nonce, and only the last may be the final one.
  ghost predicate InOrder(log: Log, header: bytes) {
    forall i :: 0 <= i < |log| ==>
      && log[i].header == header
      && (log[i].nonce == NonceAt(i, false) || (i == |log| - 1 && log[i].nonce == NonceAt(i, true)))
  }

  lemma SealedOneInOrder(c: Config, chunks: seq<bytes>, last: bytes, final: bool)
    requires c.Valid()
    ensures InOrder(PartialLog(c, chunks), c.header())
    ensures InOrder(PartialLog(c, chunks) + [SealedChunk(c.aead, c.header(), last, |chunks|, final)], c.header())
  {
    forall i | 0 <= i < |chunks| ensures PartialLog(c, chunks)[i] == SealedChunk(c.aead, c.header(), chunks[i], i, false) {
      PartialLogAt(c, chunks, i);
    }
  }

  lemma SealedOneLog(c: Config, s: State, h: History, last: bytes, final: bool)
    requires s.Valid(c) && SealedOne(c, s, h, last, final)
    ensures h.before <= s.log && InOrder(s.log[|h.before|..], c.header())
  {
    hide InOrder, NonceAt, Header;
    SealedOneInOrder(c, h.chunks, last, final);
    DropFront(h.before, PartialLog(c, h.chunks), [SealedChunk(c.aead, c.header(), last, |h.chunks|, final)]);
  }

  lemma ReachedInOrder(c: Config, s: State, h: History)
    requires s.Valid(c) && Reached(c, s, h)
    ensures h.before <= s.log && InOrder(s.log[|h.before|..], c.header())
  {
    hide InOrder, SealedOne;
    if !s.failed && !s.closed {
      SealedOneInOrder(c, h.chunks, [], false);
      assert s.log[|h.before|..] == PartialLog(c, h.chunks);
    } else {
      var final :| SealedOne(c, s, h, LastOf(s.log), final);
      SealedOneLog(c, s, h, LastOf(s.log), final);
    }
  }

  // Whatever the calls and whichever underlying writes fail, the nonces used are the stream's own,
  // in order, the final one last.
  lemma NoncesInOrder(c: Config, out: OutputState, logged: Log, ops: seq<Op>)
    requires c.Valid()
    ensures var log := Run(c, Initial(out, logged), ops).log;
            && logged <= log
            && InOrder(log[|logged|..], c.header())
  {
    hide InOrder, Reached, SealedChunk, Header;
    var h0 := InitialReached(c, out, logged);
    var h := RunKeeps(c, Initial(out, logged), h0, ops);
    ReachedInOrder(c, Run(c, Initial(out, logged), ops), h);
  }

  ghost predicate DistinctNonces(log: Log) {
    forall i, j :: 0 <= i < j < |log| ==> log[i].nonce != log[j].nonce
  }

  // How many of a stream's entries are not final.
  function NonFinal(log: Log): nat {
    if log != [] && log[|log| - 1].nonce == NonceAt(|log| - 1, true) then |log| - 1 else |log|
  }

  // A (counter, final) pair is used twice exactly when the 64-bit counter wraps among the non-final chunks.
  lemma NoncesDistinctIffNoWrap(log: Log, header: bytes)
    requires InOrder(log, header)
    ensures DistinctNonces(log) <==> NonFinal(log) <= TWO_TO_THE_64
  {
    hide ChunkNonce;
    var n := NonFinal(log);
    if n <= TWO_TO_THE_64 {
      forall i, j | 0 <= i < j < |log| ensures log[i].nonce != log[j].nonce {
        NonceInjective(i % TWO_TO_THE_64, false, j % TWO_TO_THE_64, false);
        NonceInjective(i % TWO_TO_THE_64, false, j % TWO_TO_THE_64, true);
      }
    } else {
      assert log[0].nonce == NonceAt(0, false) || |log| == 1;
      var j := TWO_TO_THE_64;
      assert log[j].nonce == NonceAt(j, false);
      assert NonceAt(0, false) == NonceAt(j, false);
    }
  }

  // Once the writer is closed or has failed, nothing is sealed or written any more.
  lemma {:induction false} QuietAfterEnd(c: Config, s: State, ops: seq<Op>)
    requires s.Valid(c) && (s.closed || s.failed)
    ensures var s' := Run(c, s, ops); s'.log == s.log && s'.out == s.out && s'.failed == s.failed && (s.closed ==> s'.closed)
    decreases |ops|
  {
    if ops != [] {
      QuietAfterEnd(c, Apply(c, s, ops[0]), ops[1..]);
    }
  }

  lemma {:induction false} PartialThenLast(c: Config, all: seq<bytes>, chunks: seq<bytes>, last: bytes, first: nat)
    requires c.Valid() && first <= |chunks| && all == chunks[first..] + [last]
    ensures PartialLog(c, chunks)[first..] + [SealedChunk(c.aead, c.header(), last, |chunks|, true)]
         == StreamLog(c.aead, c.header(), all, first)
    decreases |chunks| - first
  {
    if first < |chunks| {
      PartialLogAt(c, chunks, first);
      assert all[1..] == chunks[first + 1..] + [last];
      assert all[0] == chunks[first];
      PartialThenLast(c, all[1..], chunks, last, first + 1);
      assert PartialLog(c, chunks)[first..] == [PartialLog(c, chunks)[first]] + PartialLog(c, chunks)[first + 1..];
    } else {
      assert PartialLog(c, chunks)[first..] == [];
    }
  }

  // Full chunks followed by a last one that is not empty unless it is alone: only one way to cut.
  lemma {:induction false} CutOfParts(chunks: seq<bytes>, last: bytes, size: nat)
    requires size > 0 && |last| <= size && (forall i :: 0 <= i < |chunks| ==> |chunks[i]| == size)
    requires chunks != [] ==> last != []
    ensures Cut(Concat(chunks) + last, size) == chunks + [last]
  {
    if chunks == [] {
      assert Concat(chunks) + last == last;
    } else {
      CutOfParts(chunks[1..], last, size);
      var data := Concat(chunks) + last;
      assert data == chunks[0] + (Concat(chunks[1..]) + last);
      assert data[..size] == chunks[0] && data[size..] == Concat(chunks[1..]) + last;
      assert [chunks[0]] + (chunks[1..] + [last]) == chunks + [last];
    }
  }

  // A writer that is closed and did not fail produced the sealed stream of the data written.
  lemma OutputOfClosed(c: Config, out: OutputState, logged: Log, ops: seq<Op>)
    requires c.Valid() && Run(c, Initial(out, logged), ops).closed && !Run(c, Initial(out, logged), ops).failed
    ensures var s := Run(c, Initial(out, logged), ops);
            var chunks := Cut(Written(ops), c.chunkSize);
            && s.out.data == out.data + StreamBody(c.aead, c.header(), chunks, 0)
            && s.log == logged + StreamLog(c.aead, c.header(), chunks, 0)
  {
    var h0 := InitialReached(c, out, logged);
    var s := Run(c, Initial(out, logged), ops);
    var h := RunKeeps(c, Initial(out, logged), h0, ops);
    var last := LastOf(s.log);
    assert Finished(c, s, h) && h.data == Written(ops);
    CutOfParts(h.chunks, last, c.chunkSize);
    assert h.chunks[0..] == h.chunks && PartialLog(c, h.chunks)[0..] == PartialLog(c, h.chunks);
    PartialThenLast(c, h.chunks + [last], h.chunks, last, 0);
    assert s.log[|logged|..] == StreamLog(c.aead, c.header(), h.chunks + [last], 0);
  }

  /**** What the calls answer ****/

  datatype Answer = Answer(written: nat, error: WriteError)

  function Answered(c: Config, s: State, op: Op): Answer
    requires s.Valid(c)
  {
    match op
    case WriteOp(p) => var r := WriteStep(c, s, p); Answer(r.1, r.2)
    case CloseOp => Answer(0, CloseStep(c, s).1)
  }

  function Answers(c: Config, s: State, ops: seq<Op>): (r: seq<Answer>)
    requires s.Valid(c)
    ensures |r| == |ops|
    decreases |ops|
  {
    if ops == [] then [] else [Answered(c, s, ops[0])] + Answers(c, Apply(c, s, ops[0]), ops[1..])
  }

  lemma {:induction false} RunSplit(c: Config, s: State, ops: seq<Op>, i: nat)
    requires s.Valid(c) && i <= |ops|
    ensures Run(c, s, ops) == Run(c, Run(c, s, ops[..i]), ops[i..])
    ensures i < |ops| ==> Answers(c, s, ops)[i] == Answered(c, Run(c, s, ops[..i]), ops[i])
    ensures i < |ops| ==> Run(c, s, ops[..i + 1]) == Apply(c, Run(c, s, ops[..i]), ops[i])
    decreases |ops|
  {
    hide Apply, Answered;
    if i == 0 {
      assert ops[..0] == [] && ops[0..] == ops;
      if ops != [] {
        assert ops[..1][1..] == [];
      }
    } else {
      var s1 := Apply(c, s, ops[0]);
      RunSplit(c, s1, ops[1..], i - 1);
      assert ops[..i][1..] == ops[1..][..i - 1] && ops[1..][i - 1..] == ops[i..];
      if i < |ops| {
        assert ops[..i + 1][1..] == ops[1..][..i];
      }
    }
  }

  // Whether one of the first n writes to the underlying writer fails.
  ghost predicate SomeFails(plan: seq<Fault>, n: nat) {
    exists i :: 0 <= i < n && i < |plan| && plan[i].FailAfter?
  }

  // The plan has been followed for as many writes as there are new entries in the log, and the writer
  // has failed if and only if one of these did.
  ghost predicate Followed(plan: seq<Fault>, logged: Log, s: State) {
    && |logged| <= |s.log|
    && s.out.plan == plan[Min(|s.log| - |logged|, |plan|)..]
    && (s.failed <==> SomeFails(plan, |s.log| - |logged|))
  }

  lemma SealFollows(c: Config, s: State, final: bool, plan: seq<Fault>, logged: Log)
    requires s.Valid(c) && Followed(plan, logged, s) && !s.failed
    ensures Followed(plan, logged, SealStep(c, s, final))
  {
    hide ChunkNonce;
    var k := |s.log| - |logged|;
    var s' := SealStep(c, s, final);
    assert |s'.log| - |logged| == k + 1;
    if k < |plan| {
      assert s.out.plan[0] == plan[k];
    }
  }

  lemma {:induction false} LoopFollows(c: Config, s: State, p: bytes, written: nat, plan: seq<Fault>, logged: Log)
    requires s.Valid(c) && !s.failed && Followed(plan, logged, s)
    ensures var r := WriteLoop(c, s, p, written);
            && Followed(plan, logged, r.0)
            && r.2 == (if r.0.failed then ErrWrite else NoError) && (!r.0.failed ==> r.1 == written + |p|)
    decreases |p|
  {
    hide SealStep, SomeFails;
    if p != [] {
      if |s.buf| == c.chunkSize {
        SealFollows(c, s, false, plan, logged);
      }
      var s1 := Emptied(c, s);
      if !s1.failed {
        var n := Min(c.chunkSize - |s1.buf|, |p|);
        LoopFollows(c, Filled(c, s1, p), p[n..], written + n, plan, logged);
      }
    }
  }

  // What a call answers: a write after a close is refused, and otherwise it reports an error, and a
  // close does, exactly when one of the writes to the underlying writer so far failed. A write
  // without an error took all it was given, and after a failure none takes anything.
  ghost predicate Told(s: State, s': State, op: Op, a: Answer) {
    if s.closed && op.WriteOp? then a == Answer(0, ErrClosed)
    else
      && a.error == (if s'.failed then ErrWrite else NoError)
      && (op.CloseOp? || s.failed ==> a.written == 0)
      && (op.WriteOp? ==> a.written <= |op.p| && (!s'.failed ==> a.written == |op.p|))
  }

  lemma ApplyFollows(c: Config, s: State, op: Op, plan: seq<Fault>, logged: Log)
    requires s.Valid(c) && Followed(plan, logged, s)
    ensures Followed(plan, logged, Apply(c, s, op)) && Told(s, Apply(c, s, op), op, Answered(c, s, op))
    ensures Apply(c, s, op).closed <==> s.closed || op.CloseOp?
  {
    hide SealStep, WriteLoop, SomeFails;
    match op
    case WriteOp(p) =>
      if !s.closed && !s.failed {
        LoopFollows(c, s, p, 0, plan, logged);
      }
    case CloseOp =>
      if !s.closed && !s.failed {
        SealFollows(c, s.(closed := true), true, plan, logged);
      }
  }

  lemma {:induction false} RunFollows(c: Config, s: State, ops: seq<Op>, plan: seq<Fault>, logged: Log)
    requires s.Valid(c) && Followed(plan, logged, s)
    ensures Followed(plan, logged, Run(c, s, ops))
    ensures Run(c, s, ops).closed <==> s.closed || CloseOp in ops
    decreases |ops|
  {
    hide Apply, Followed;
    if ops != [] {
      ApplyFollows(c, s, ops[0], plan, logged);
      RunFollows(c, Apply(c, s, ops[0]), ops[1..], plan, logged);
      assert ops == [ops[0]] + ops[1..];
    }
  }

  // How many writes a run made to the underlying writer: one for each chunk sealed.
  function WritesMade(c: Config, out: OutputState, logged: Log, ops: seq<Op>): int
    requires c.Valid()
  {
    |Run(c, Initial(out, logged), ops).log| - |logged|
  }

  lemma AnswerAt(c: Config, out: OutputState, logged: Log, ops: seq<Op>, i: nat)
    requires c.Valid() && i < |ops|
    ensures var s0, s1 := Run(c, Initial(out, logged), ops[..i]), Run(c, Initial(out, logged), ops[..i + 1]);
            && Told(s0, s1, ops[i], Answers(c, Initial(out, logged), ops)[i])
            && Followed(out.plan, logged, s0) && Followed(out.plan, logged, s1) && s0.log <= s1.log
            && (s0.closed <==> CloseOp in ops[..i]) && (s1.closed <==> CloseOp in ops[..i] || ops[i].CloseOp?)
  {
    hide *;
    NothingYet(c, out, logged);
    var s := Initial(out, logged);
    RunSplit(c, s, ops, i);
    RunFollows(c, s, ops[..i], out.plan, logged);
    var s0 := Run(c, s, ops[..i]);
    ApplyFollows(c, s0, ops[i], out.plan, logged);
    LogGrows(c, s0, ops[i]);
  }

  // Over any run and any plan, each call answers what became of the writes made so far.
  lemma AnswersTell(c: Config, out: OutputState, logged: Log, ops: seq<Op>, i: nat)
    requires c.Valid() && i < |ops|
    ensures var a := Answers(c, Initial(out, logged), ops)[i];
            var before, now := WritesMade(c, out, logged, ops[..i]), WritesMade(c, out, logged, ops[..i + 1]);
            && 0 <= before <= now
            && (if CloseOp in ops[..i] && ops[i].WriteOp? then a == Answer(0, ErrClosed)
                else
                  && a.error == (if SomeFails(out.plan, now) then ErrWrite else NoError)
                  && (ops[i].CloseOp? || SomeFails(out.plan, before) ==> a.written == 0)
                  && (ops[i].WriteOp? && !SomeFails(out.plan, now) ==> a.written == |ops[i].p|))
  {
    hide Apply, Run, SomeFails, Answered, Answers, SealStep, WriteLoop, Put, Written, Initial, State.Valid;
    AnswerAt(c, out, logged, ops, i);
  }

  lemma NothingYet(c: Config, out: OutputState, logged: Log)
    requires c.Valid()
    ensures var s := Initial(out, logged); s.Valid(c) && Followed(out.plan, logged, s) && !s.closed && !s.failed
  {
  }

  lemma LogGrows(c: Config, s: State, op: Op)
    requires s.Valid(c)
    ensures s.log <= Apply(c, s, op).log
  {
    hide SealStep, WriteLoop;
    match op
    case WriteOp(p) =>
      if !s.closed && !s.failed {
        LoopGrows(c, s, p, 0);
      }
    case CloseOp =>
      if !s.closed && !s.failed {
        SealGrows(c, s.(closed := true), true);
      }
  }

  lemma SealGrows(c: Config, s: State, final: bool)
    requires s.Valid(c)
    ensures s.log <= SealStep(c, s, final).log
  {
    hide ChunkNonce;
  }

  lemma {:induction false} LoopGrows(c: Config, s: State, p: bytes, written: nat)
    requires s.Valid(c) && !s.failed
    ensures s.log <= WriteLoop(c, s, p, written).0.log
    decreases |p|
  {
    hide SealStep, Emptied, Filled;
    if p != [] {
      EmptiedGrows(c, s, p);
      var s1 := Emptied(c, s);
      if !s1.failed {
        var n := Min(c.chunkSize - |s1.buf|, |p|);
        LoopGrows(c, Filled(c, s1, p), p[n..], written + n);
      }
    }
  }

  lemma EmptiedGrows(c: Config, s: State, p: bytes)
    requires s.Valid(c)
    ensures s.log <= Emptied(c, s).log && Filled(c, Emptied(c, s), p).log == Emptied(c, s).log
  {
    hide SealStep;
    if |s.buf| == c.chunkSize {
      SealGrows(c, s, false);
    }
  }

  // The bytes the writes said they took.
  function Taken(ops: seq<Op>, answers: seq<Answer>): bytes
    requires |ops| == |answers|
  {
    if ops == [] then []
    else (if ops[0].WriteOp? then ops[0].p[..Min(answers[0].written, |ops[0].p|)] else []) + Taken(ops[1..], answers[1..])
  }

  lemma ApplyTakes(c: Config, s: State, h: History, op: Op) returns (h': History)
    requires s.Valid(c) && Reached(c, s, h)
    ensures Reached(c, Apply(c, s, op), h') && h'.before == h.before && h'.start == h.start
    ensures h'.data == h.data + (if op.WriteOp? then op.p[..Min(Answered(c, s, op).written, |op.p|)] else [])
  {
    hide SealStep, WriteLoop, Buffering, SealedOne, CloseStep;
    h' := h;
    match op
    case WriteOp(p) =>
      if s.closed || s.failed {
        assert p[..0] == [] && h.data + [] == h.data;
      } else {
        ghost var s', n, result;
        h', s', n, result := WriteLoopKeeps(c, s, h, p, 0);
      }
    case CloseOp =>
      CloseKeeps(c, s, h);
      assert h.data + [] == h.data;
  }

  // The counts are honest: over any run, whatever fails, what the writes said they took is exactly what
  // was sealed and what is still in the buffer.
  lemma {:induction false} CountsAreKept(c: Config, s: State, h: History, ops: seq<Op>) returns (h': History)
    requires s.Valid(c) && Reached(c, s, h)
    ensures Reached(c, Run(c, s, ops), h') && h'.before == h.before && h'.start == h.start
    ensures h'.data == h.data + Taken(ops, Answers(c, s, ops))
    decreases |ops|
  {
    hide Reached, Apply, Answered;
    if ops == [] {
      h' := h;
      assert h.data + [] == h.data;
    } else {
      var h1 := ApplyTakes(c, s, h, ops[0]);
      h' := CountsAreKept(c, Apply(c, s, ops[0]), h1, ops[1..]);
      var answers := Answers(c, s, ops);
      assert answers[1..] == Answers(c, Apply(c, s, ops[0]), ops[1..]);
      var first := if ops[0].WriteOp? then ops[0].p[..Min(answers[0].written, |ops[0].p|)] else [];
      Assoc(h.data, first, Taken(ops[1..], answers[1..]));
    }
  }

  // Once a close has answered without an error, the output is the sealed stream of the data written,
  // however the writes were split and whatever is called after.
  lemma ClosedOutput(c: Config, out: OutputState, logged: Log, ops: seq<Op>, i: nat)
    requires c.Valid() && i < |ops| && ops[i].CloseOp? && Answers(c, Initial(out, logged), ops)[i].error == NoError
    ensures var s := Run(c, Initial(out, logged), ops);
            var chunks := Cut(Written(ops), c.chunkSize);
            && s.out.data == out.data + StreamBody(c.aead, c.header(), chunks, 0)
            && s.log == logged + StreamLog(c.aead, c.header(), chunks, 0)
  {
    hide *;
    NothingYet(c, out, logged);
    AnswerAt(c, out, logged, ops, i);
    var s := Initial(out, logged);
    var s1 := Run(c, s, ops[..i + 1]);
    NoErrorToldByClose(Run(c, s, ops[..i]), s1, ops[i], Answers(c, s, ops)[i]);
    RunSplit(c, s, ops, i + 1);
    QuietAfterEnd(c, s1, ops[i + 1..]);
    OutputOfClosed(c, out, logged, ops);
  }

  lemma NoErrorToldByClose(s: State, s': State, op: Op, a: Answer)
    requires Told(s, s', op, a) && op.CloseOp? && a.error == NoError
    ensures !s'.failed
  {
  }
}
