// The printed form of a SHA-512 crypt hash: HashWith and IsHash of shared/crypt/sha512crypt.go.
module CryptHash {
  import opened Wrappers
  import opened Bytes
  import opened Numbers
  import opened Parts
  import opened CryptEncoding
  import opened Sha512Crypt

  const MIN_ROUNDS: int := 1000
  const MAX_ROUNDS: int := 999_999_999
  const PLAIN_ROUNDS: int := 5000
  const SALT_LENGTH: nat := 16

  datatype CryptError = InvalidRounds | InvalidSalt

  predicate IsSalt(salt: string) {
    forall i :: 0 <= i < |salt| ==> salt[i] in ITOA64
  }

  function Shortened(salt: string): string {
    if |salt| > SALT_LENGTH then salt[..SALT_LENGTH] else salt
  }

  function BytesOf(s: string): bytes
    requires forall i :: 0 <= i < |s| ==> s[i] as int < 256
  {
    seq(|s|, i requires 0 <= i < |s| => s[i] as int as byte)
  }

  lemma SaltIsAscii(salt: string)
    requires IsSalt(salt)
    ensures forall i :: 0 <= i < |salt| ==> salt[i] as int < 256 && salt[i] != '$' && salt[i] != '='
  {
    hide ITOA64;
    forall i | 0 <= i < |salt| ensures salt[i] as int < 256 && salt[i] != '$' && salt[i] != '=' {
      ValueReadsBack(salt[i]);
    }
  }

  // The rounds are left out when they are the format's own 5000.
  function Printed(rounds: nat, salt: string, text: string): string {
    "$6$" + (if rounds != PLAIN_ROUNDS then "rounds=" + Decimal(rounds) + "$" else "") + salt + "$" + text
  }

  function Hashed(sha: bytes -> bytes, password: bytes, salt: string, rounds: int): Result<string, CryptError>
    requires IsDigest(sha)
  {
    if rounds < MIN_ROUNDS || rounds > MAX_ROUNDS then Failure(InvalidRounds)
    else if !IsSalt(Shortened(salt)) then Failure(InvalidSalt)
    else
      SaltIsAscii(Shortened(salt));
      CryptedIsDigest(sha, password, BytesOf(Shortened(salt)), rounds);
      Success(Printed(rounds, Shortened(salt), Encoded(Crypted(sha, password, BytesOf(Shortened(salt)), rounds))))
  }

  method HashWith(sha: bytes -> bytes, password: bytes, salt: string, rounds: int) returns (r: Result<string, CryptError>)
    requires IsDigest(sha)
    ensures r == Hashed(sha, password, salt, rounds)
  {
    hide Crypted, Encoded, ITOA64;
    if rounds < MIN_ROUNDS || rounds > MAX_ROUNDS {
      return Failure(InvalidRounds);
    }
    var kept := if |salt| > SALT_LENGTH then salt[..SALT_LENGTH] else salt;
    for i := 0 to |kept|
      invariant forall k :: 0 <= k < i ==> kept[k] in ITOA64
    {
      if kept[i] !in ITOA64 {
        return Failure(InvalidSalt);
      }
    }
    SaltIsAscii(kept);
    var sum := Crypt(sha, password, BytesOf(kept), rounds);
    var out := "$6$";
    if rounds != PLAIN_ROUNDS {
      out := out + ("rounds=" + Decimal(rounds) + "$");
    } else {
      out := out + "";
    }
    out := out + kept;
    out := out + "$";
    var text := Encode(sum);
    return Success(out + text);
  }

  /**** Reading it ****/

  datatype Parsed = Parsed(rounds: nat, salt: string, text: string)

  const ROUNDS: string := "rounds="

  // A hash in the format of crypt(3): "$6$", perhaps the rounds, the salt and the digest.
  function Parse(hash: string): Option<Parsed> {
    var parts := Split(hash, '$');
    if |parts| == 4 && parts[0] == "" && parts[1] == "6" then Some(Parsed(PLAIN_ROUNDS, parts[2], parts[3]))
    else if |parts| == 5 && parts[0] == "" && parts[1] == "6" && ROUNDS <= parts[2] && Digits(parts[2][|ROUNDS|..])
            && Value(parts[2][|ROUNDS|..]) >= 0 then
      Some(Parsed(Value(parts[2][|ROUNDS|..]), parts[3], parts[4]))
    else None
  }

  const SCHEME: string := "{SHA512-CRYPT}"

  // strings.TrimPrefix(value, SCHEME).
  function Unschemed(value: string): string {
    if SCHEME <= value then value[|SCHEME|..] else value
  }

  predicate IsHash(value: string) {
    var bare := Unschemed(value);
    var parts := Split(bare, '$');
    "$6$" <= bare && |parts| >= 4 && |parts[|parts| - 1]| == 86
  }

  lemma NoDollar(s: string)
    requires IsSalt(s)
    ensures '$' !in s
  {
    hide ITOA64;
    SaltIsAscii(s);
  }

  lemma RoundsHaveNoDollar(rounds: nat)
    ensures '$' !in ROUNDS + Decimal(rounds)
  {
    hide Padded;
    PaddedReadsBack(rounds, 1);
  }

  // The parts of a printed hash, between its dollar signs.
  lemma PrintedParts(rounds: nat, salt: string, text: string)
    requires IsSalt(salt) && IsSalt(text)
    ensures Split(Printed(rounds, salt, text), '$')
         == ["", "6"] + (if rounds != PLAIN_ROUNDS then [ROUNDS + Decimal(rounds)] else []) + [salt, text]
  {
    hide Split, Decimal, IsSalt;
    NoDollar(salt);
    NoDollar(text);
    SplitOfFree(text, '$');
    SplitAtSeparator(salt, text, '$');
    var rest := salt + "$" + text;
    assert Split(rest, '$') == [salt] + [text];
    var tail := if rounds != PLAIN_ROUNDS then ROUNDS + Decimal(rounds) + "$" + rest else rest;
    if rounds != PLAIN_ROUNDS {
      RoundsHaveNoDollar(rounds);
      SplitAtSeparator(ROUNDS + Decimal(rounds), rest, '$');
    }
    SplitAtSeparator("6", tail, '$');
    SplitAtSeparator("", "6" + "$" + tail, '$');
    PrintedIs(rounds, salt, text, tail);
  }

  lemma PrintedIs(rounds: nat, salt: string, text: string, tail: string)
    requires tail == if rounds != PLAIN_ROUNDS then ROUNDS + Decimal(rounds) + "$" + (salt + "$" + text) else salt + "$" + text
    ensures Printed(rounds, salt, text) == "" + "$" + ("6" + "$" + tail)
  {
    hide Decimal;
    assert "$6$" == "" + "$" + "6" + "$";
  }

  // What is printed reads back as the rounds, the salt and the digest's text it was printed from, and
  // looks like a hash with or without its scheme.
  lemma PrintedReadsBack(rounds: nat, salt: string, text: string)
    requires IsSalt(salt) && IsSalt(text) && |text| == 86
    ensures Parse(Printed(rounds, salt, text)) == Some(Parsed(rounds, salt, text))
    ensures IsHash(Printed(rounds, salt, text)) && IsHash(SCHEME + Printed(rounds, salt, text))
  {
    hide Split, Value, Padded, IsSalt;
    PrintedParts(rounds, salt, text);
    var hash := Printed(rounds, salt, text);
    PaddedReadsBack(rounds, 1);
    var named := ROUNDS + Decimal(rounds);
    assert named[|ROUNDS|..] == Decimal(rounds);
    assert hash[0] == '$' && SCHEME[0] == '{';
    assert Unschemed(hash) == hash;
    assert (SCHEME + hash)[|SCHEME|..] == hash;
    assert hash[..3] == "$6$";
  }

  // A hash this package made determines its rounds, its salt and its digest: it is accepted as a hash,
  // and reading it gives back exactly what it was made of.
  lemma HashReadsBack(sha: bytes -> bytes, password: bytes, salt: string, rounds: int)
    requires IsDigest(sha) && Hashed(sha, password, salt, rounds).Success?
    ensures var hash := Hashed(sha, password, salt, rounds).value;
            && IsHash(hash) && IsHash(SCHEME + hash) && Parse(hash).Some?
            && Parse(hash).value.rounds == rounds && Parse(hash).value.salt == Shortened(salt)
            && |Parse(hash).value.text| == 86
            && IsSalt(Shortened(salt)) && (forall i :: 0 <= i < |Shortened(salt)| ==> Shortened(salt)[i] as int < 256)
            && Decoded(Parse(hash).value.text) == Crypted(sha, password, BytesOf(Shortened(salt)), rounds)
  {
    hide Crypted, Encoded, ITOA64, Parse, IsHash, Printed, Decoded;
    SaltIsAscii(Shortened(salt));
    CryptedIsDigest(sha, password, BytesOf(Shortened(salt)), rounds);
    var digest := Crypted(sha, password, BytesOf(Shortened(salt)), rounds);
    EncodingReadsBack(digest);
    PrintedReadsBack(rounds, Shortened(salt), Encoded(digest));
  }
}
