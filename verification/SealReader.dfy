// The unsealing reader of shared/seal/seal.go: a chunk is final exactly when nothing follows it.
module SealReader {
  import opened Wrappers
  import opened Bytes
  import opened SealFormat

  datatype ReadError = Eof | ErrOpen | ErrTruncated | ErrTrailing | ErrSource

  datatype Config = Config(log: Log, header: bytes, chunkSize: nat) {
    function cipherSize(): nat { chunkSize + TAG_SIZE }
  }

  /** `rest` is what the source still holds; then it reports its end, or fails with some other error. */
  datatype State = State(rest: bytes, sound: bool, plain: bytes, counter: nat, done: bool, err: Option<ReadError>) {
    predicate Valid() { counter < TWO_TO_THE_64 }
  }

  // The state after `chunk` was read off the source, and the error open returns.
  function OpenStep(c: Config, s: State, chunk: bytes, last: bool): (r: (State, Option<ReadError>))
    requires s.Valid()
    ensures r.0.Valid() && r.0.rest == s.rest && r.0.sound == s.sound && r.0.err == s.err
  {
    var plain := Open(c.log, ChunkNonce(s.counter, last), chunk, c.header);
    if plain.None? then
      (s, Some(if last && Open(c.log, ChunkNonce(s.counter, false), chunk, c.header).Some? then ErrTruncated else ErrOpen))
    else
      var s1 := s.(counter := (s.counter + 1) % TWO_TO_THE_64, plain := plain.value);
      if last && s.rest != [] then (s1, Some(ErrTrailing))
      else if last then (s1.(done := true), None)
      else (s1, None)
  }

  function NextStep(c: Config, s: State): (r: (State, Option<ReadError>))
    requires s.Valid()
    ensures r.0.Valid() && r.0.sound == s.sound && r.0.err == s.err && |r.0.rest| <= |s.rest|
    ensures r.1.None? ==> |r.0.rest| < |s.rest|
  {
    var size := c.cipherSize();
    if |s.rest| < size && !s.sound then (s.(rest := []), Some(ErrSource))
    else if s.rest == [] then (s, Some(ErrTruncated))
    else if |s.rest| < size then OpenStep(c, s.(rest := []), s.rest, true)
    else
      var s1 := s.(rest := s.rest[size..]);
      if s1.rest == [] && s.sound then OpenStep(c, s1, s.rest[..size], true)
      else if s1.rest == [] then (s1, Some(ErrSource))
      else OpenStep(c, s1, s.rest[..size], false)
  }

  // The loop of Read: the state it leaves and the error it returns, if any.
  function Refill(c: Config, s: State): (r: (State, Option<ReadError>))
    requires s.Valid()
    ensures r.0.Valid()
    ensures r.1.None? ==> r.0.plain != []
    decreases s.err.None?, |s.rest|
  {
    if s.plain != [] then (s, None)
    else if s.err.Some? then (s, s.err)
    else if s.done then (s, Some(Eof))
    else
      var (s1, err) := NextStep(c, s);
      Refill(c, s1.(err := err))
  }

  // Read into a buffer of `size` bytes.
  function ReadStep(c: Config, s: State, size: nat): (r: (State, bytes, Option<ReadError>))
    requires s.Valid()
    ensures r.0.Valid()
  {
    var (s1, err) := Refill(c, s);
    if err.Some? then (s1, [], err)
    else
      var n := Min(size, |s1.plain|);
      (s1.(plain := s1.plain[n..]), s1.plain[..n], None)
  }

  /**** The reader as the source has it ****/

  // bufio.Reader over some source.
  class Input {
    var rest: bytes
    const sound: bool

    constructor (content: bytes, sound: bool)
      ensures rest == content && this.sound == sound
    {
      rest, this.sound := content, sound;
    }

    // io.ReadFull: short with the end of the source, or with its error.
    method ReadFull(size: nat) returns (read: bytes, ok: bool)
      modifies this
      ensures ok == (size <= |old(rest)|)
      ensures read == old(rest)[..Min(size, |old(rest)|)] && rest == old(rest)[Min(size, |old(rest)|)..]
    {
      var n := Min(size, |rest|);
      read, ok := rest[..n], size <= |rest|;
      rest := rest[n..];
    }
  }

  class Reader {
    const config: Config
    const input: Input
    var plain: bytes
    var counter: nat
    var done: bool
    var err: Option<ReadError>

    ghost predicate Valid()
      reads this, input
    {
      Machine().Valid()
    }

    ghost function Machine(): State
      reads this, input
    {
      State(input.rest, input.sound, plain, counter, done, err)
    }

    constructor (config: Config, input: Input)
      ensures Valid() && this.config == config && this.input == input
      ensures Machine() == Start(input.rest, input.sound)
    {
      this.config, this.input := config, input;
      plain, counter, done, err := [], 0, false, None;
    }

    method OpenChunk(chunk: bytes, last: bool) returns (result: Option<ReadError>)
      requires Valid()
      modifies this`plain, this`counter, this`done
      ensures Valid() && (Machine(), result) == OpenStep(config, old(Machine()), chunk, last)
    {
      var nonce := ChunkNonce(counter, last);
      var got := Open(config.log, nonce, chunk, config.header);
      if got.None? {
        if last {
          var other := ChunkNonce(counter, false);
          var again := Open(config.log, other, chunk, config.header);
          if again.Some? {
            return Some(ErrTruncated);
          }
        }
        return Some(ErrOpen);
      }
      counter := (counter + 1) % TWO_TO_THE_64;
      plain := got.value;
      if last {
        if input.rest != [] {
          return Some(ErrTrailing);
        }
        done := true;
        if |plain| == 0 {
          plain := [];
        }
      }
      return None;
    }

    method Next() returns (result: Option<ReadError>)
      requires Valid()
      modifies this`plain, this`counter, this`done, input
      ensures Valid() && (Machine(), result) == NextStep(config, old(Machine()))
    {
      hide OpenStep;
      var size := config.cipherSize();
      ghost var before := Machine();
      var cipher, full := input.ReadFull(size);
      if !full {
        if !input.sound {
          return Some(ErrSource);
        } else if cipher == [] {
          return Some(ErrTruncated);
        }
        assert cipher == before.rest;
        result := OpenChunk(cipher, true);
      } else if input.rest == [] {
        if !input.sound {
          return Some(ErrSource);
        }
        result := OpenChunk(cipher, true);
      } else {
        result := OpenChunk(cipher, false);
      }
    }

    method Read(size: nat) returns (read: bytes, result: Option<ReadError>)
      requires Valid()
      modifies this, input
      ensures Valid() && (Machine(), read, result) == ReadStep(config, old(Machine()), size)
    {
      hide NextStep;
      while |plain| == 0
        invariant Valid() && Refill(config, Machine()) == Refill(config, old(Machine()))
        decreases err.None?, |input.rest|
      {
        if err.Some? {
          return [], err;
        }
        if done {
          return [], Some(Eof);
        }
        var e := Next();
        err := e;
      }
      var n := Min(size, |plain|);
      read := plain[..n];
      plain := plain[n..];
      return read, None;
    }
  }

  function Start(body: bytes, sound: bool): State {
    State(body, sound, [], 0, false, None)
  }

  datatype NewReaderError = ErrKey | ErrFormat

  const KEY_SIZE: nat := 32

  // What NewReader makes of a source: the chunk size its header claims and the bytes after it.
  function OpenHeader(content: bytes): (r: Option<(bytes, nat, bytes)>) {
    if |content| < HEADER_SIZE then None
    else
      var header := content[..HEADER_SIZE];
      var size := HeaderChunkSize(header);
      if size.None? then None else Some((header, size.value, content[HEADER_SIZE..]))
  }

  // `log` is what the AEAD of this key and the header's salt has sealed.
  method NewReader(input: Input, keyLength: nat, log: Log) returns (r: Result<Reader, NewReaderError>)
    modifies input
    ensures keyLength != KEY_SIZE ==> r == Failure(ErrKey)
    ensures keyLength == KEY_SIZE && OpenHeader(old(input.rest)).None? ==> r == Failure(ErrFormat)
    ensures keyLength == KEY_SIZE && OpenHeader(old(input.rest)).Some? ==>
              var (header, size, body) := OpenHeader(old(input.rest)).value;
              r.Success? && fresh(r.value) && r.value.Valid() && r.value.input == input &&
              r.value.config == Config(log, header, size) && r.value.Machine() == Start(body, input.sound)
  {
    if keyLength != KEY_SIZE {
      return Failure(ErrKey);
    }
    var header, full := input.ReadFull(HEADER_SIZE);
    if !full || header[..|MAGIC|] != MAGIC {
      return Failure(ErrFormat);
    }
    var size := HeaderChunkSize(header);
    if size.None? {
      return Failure(ErrFormat);
    }
    var reader := new Reader(Config(log, header, size.value), input);
    return Success(reader);
  }

  /**** What a reader yields, whatever the buffer sizes ****/

  // The plaintext still to come and how it ends.
  function Remaining(c: Config, s: State): (r: (bytes, ReadError))
    requires s.Valid()
    decreases s.err.None?, |s.rest|
  {
    if s.err.Some? then (s.plain, s.err.value)
    else if s.done then (s.plain, Eof)
    else
      var (s1, err) := NextStep(c, s.(plain := []));
      var (bytes, end) := Remaining(c, s1.(err := err));
      (s.plain + bytes, end)
  }

  lemma {:induction false} RefillKeepsRemaining(c: Config, s: State)
    requires s.Valid()
    ensures Remaining(c, Refill(c, s).0) == Remaining(c, s)
    ensures Refill(c, s).1.Some? ==> Remaining(c, s) == ([], Refill(c, s).1.value)
    decreases s.err.None?, |s.rest|
  {
    hide NextStep;
    if s.plain == [] && s.err.None? && !s.done {
      var (s1, err) := NextStep(c, s);
      assert s == s.(plain := []);
      RefillKeepsRemaining(c, s1.(err := err));
      assert s.plain + Remaining(c, s1.(err := err)).0 == Remaining(c, s1.(err := err)).0;
    }
  }

  // One Read gives a front part of what remains, non-empty for a non-empty buffer, or its end.
  lemma ReadTakes(c: Config, s: State, size: nat)
    requires s.Valid()
    ensures var (s1, read, err) := ReadStep(c, s, size);
            && |read| <= size
            && (err.Some? ==> Remaining(c, s) == ([], err.value) && read == [] && Remaining(c, s1) == ([], err.value))
            && (err.None? ==> var (bytes, end) := Remaining(c, s1); Remaining(c, s) == (read + bytes, end))
            && (err.None? && size > 0 ==> read != [])
  {
    hide NextStep, Refill;
    RefillKeepsRemaining(c, s);
    var (s1, err) := Refill(c, s);
    if err.None? {
      var n := Min(size, |s1.plain|);
      assert s1.plain == s1.plain[..n] + s1.plain[n..];
      var s2 := s1.(plain := s1.plain[n..]);
      if s1.err.None? && !s1.done {
        assert s2.(plain := []) == s1.(plain := []);
        var (s3, e) := NextStep(c, s1.(plain := []));
        Assoc(s1.plain[..n], s1.plain[n..], Remaining(c, s3.(err := e)).0);
      }
    }
  }

  // What a caller collects from Reads with these buffer sizes, and the error that stopped it.
  function ReadAll(c: Config, s: State, sizes: seq<nat>): (bytes, Option<ReadError>)
    requires s.Valid()
    decreases |sizes|
  {
    if sizes == [] then ([], None)
    else
      var (s1, read, err) := ReadStep(c, s, sizes[0]);
      if err.Some? then ([], err)
      else var (more, end) := ReadAll(c, s1, sizes[1..]); (read + more, end)
  }

  // However the buffers are sized, a caller collects a prefix of what remains, sees the end only
  // after all of it, and is there after one more non-empty buffer than there are bytes.
  lemma {:induction false} ReadAllIsRemaining(c: Config, s: State, sizes: seq<nat>)
    requires s.Valid()
    ensures var (bytes, end) := Remaining(c, s);
            var (got, err) := ReadAll(c, s, sizes);
            && got <= bytes
            && (err.Some? ==> got == bytes && err.value == end)
            && ((forall i :: 0 <= i < |sizes| ==> sizes[i] > 0) && |sizes| > |bytes| ==> err.Some?)
    decreases |sizes|
  {
    hide ReadStep, Remaining;
    if sizes != [] {
      ReadTakes(c, s, sizes[0]);
      var (s1, read, err) := ReadStep(c, s, sizes[0]);
      if err.None? {
        ReadAllIsRemaining(c, s1, sizes[1..]);
        assert forall i :: 0 <= i < |sizes[1..]| ==> sizes[1..][i] == sizes[i + 1];
      }
    }
  }
}
