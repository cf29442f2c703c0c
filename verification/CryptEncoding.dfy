// The printable form of a SHA-512 digest in crypt(3): encode and writeGroup of
// shared/crypt/sha512crypt.go, and reading it back.
module CryptEncoding {
  import opened Bytes

  const UPPER: string := "ABCDEFGHIJKLMNOPQRSTUVWXYZ"
  const LOWER: string := "abcdefghijklmnopqrstuvwxyz"

  // itoa64, the alphabet of crypt(3).
  const ITOA64: string := "./0123456789" + UPPER + LOWER

  function Symbol(v: nat): char
    requires v < 64
  {
    AlphabetLength();
    ITOA64[v]
  }

  lemma AlphabetLength()
    ensures |ITOA64| == 64
  {
  }

  // Where a character stands in the alphabet; 64 for one that is not in it.
  function SymbolValue(c: char): nat {
    if c == '.' then 0
    else if c == '/' then 1
    else if '0' <= c <= '9' then c as int - '0' as int + 2
    else if 'A' <= c <= 'Z' then c as int - 'A' as int + 12
    else if 'a' <= c <= 'z' then c as int - 'a' as int + 38
    else 64
  }

  lemma UpperAt(i: nat)
    requires i < 26
    ensures UPPER[i] as int == 'A' as int + i
  {
  }

  lemma LowerAt(i: nat)
    requires i < 26
    ensures LOWER[i] as int == 'a' as int + i
  {
  }

  lemma SymbolReadsBack(v: nat)
    requires v < 64
    ensures SymbolValue(Symbol(v)) == v
  {
    hide UPPER, LOWER;
    AlphabetLength();
    PartLengths();
    if v >= 38 {
      LowerAt(v - 38);
      assert Symbol(v) == LOWER[v - 38];
    } else if v >= 12 {
      UpperAt(v - 12);
      assert Symbol(v) == UPPER[v - 12];
    } else {
      assert Symbol(v) == "./0123456789"[v];
    }
  }

  lemma PartLengths()
    ensures |UPPER| == 26 && |LOWER| == 26
  {
  }

  lemma ValueReadsBack(c: char)
    ensures SymbolValue(c) < 64 ==> Symbol(SymbolValue(c)) == c
    ensures c in ITOA64 <==> SymbolValue(c) < 64
  {
    hide UPPER, LOWER;
    AlphabetLength();
    PartLengths();
    var v := SymbolValue(c);
    if 38 <= v < 64 {
      LowerAt(v - 38);
      assert ITOA64[v] == LOWER[v - 38];
    } else if 12 <= v < 38 {
      UpperAt(v - 12);
      assert ITOA64[v] == UPPER[v - 12];
    } else if v < 12 {
      assert ITOA64[v] == "./0123456789"[v];
    }
    if c in ITOA64 {
      var k :| 0 <= k < 64 && ITOA64[k] == c;
      SymbolReadsBack(k);
    }
  }

  /**** One group ****/

  // `count` characters of a number, six bits each, the low ones first.
  function Group(value: nat, count: nat): (s: string)
    ensures |s| == count
  {
    if count == 0 then "" else [Symbol(value % 64)] + Group(value / 64, count - 1)
  }

  function Three(b2: byte, b1: byte, b0: byte): nat {
    b2 as nat * 65536 + b1 as nat * 256 + b0 as nat
  }

  method WriteGroup(written: string, b2: byte, b1: byte, b0: byte, count: nat) returns (out: string)
    ensures out == written + Group(Three(b2, b1, b0), count)
  {
    out := written;
    var value := Three(b2, b1, b0);
    for i := 0 to count
      invariant out + Group(value, count - i) == written + Group(Three(b2, b1, b0), count)
    {
      ghost var before := out;
      out := out + [Symbol(value % 64)];
      Assoc(before, [Symbol(value % 64)], Group(value / 64, count - i - 1));
      value := value / 64;
    }
    assert out + "" == out;
  }

  // What a group stands for.
  function GroupValue(s: string): nat {
    if s == "" then 0 else SymbolValue(s[0]) + 64 * GroupValue(s[1..])
  }

  function Pow64(k: nat): nat {
    if k == 0 then 1 else 64 * Pow64(k - 1)
  }

  lemma {:induction false} GroupReadsBack(value: nat, count: nat)
    requires value < Pow64(count)
    ensures GroupValue(Group(value, count)) == value
    decreases count
  {
    hide Symbol, SymbolValue;
    if count > 0 {
      SymbolReadsBack(value % 64);
      GroupReadsBack(value / 64, count - 1);
      var s := Group(value, count);
      assert s[1..] == Group(value / 64, count - 1);
    }
  }

  lemma {:induction false} GroupIsInAlphabet(value: nat, count: nat)
    ensures forall i :: 0 <= i < count ==> Group(value, count)[i] in ITOA64
    decreases count
  {
    hide ITOA64, SymbolValue, Symbol;
    if count > 0 {
      SymbolInAlphabet(value % 64);
      GroupIsInAlphabet(value / 64, count - 1);
    }
  }

  lemma SymbolInAlphabet(v: nat)
    requires v < 64
    ensures Symbol(v) in ITOA64
  {
    hide ITOA64;
    AlphabetLength();
  }

  /**** The order of the bytes ****/

  // The order the digest's bytes are written in, three at a time.
  const PERMUTATION: seq<(nat, nat, nat)> := [
    (0, 21, 42), (22, 43, 1), (44, 2, 23),
    (3, 24, 45), (25, 46, 4), (47, 5, 26),
    (6, 27, 48), (28, 49, 7), (50, 8, 29),
    (9, 30, 51), (31, 52, 10), (53, 11, 32),
    (12, 33, 54), (34, 55, 13), (56, 14, 35),
    (15, 36, 57), (37, 58, 16), (59, 17, 38),
    (18, 39, 60), (40, 61, 19), (62, 20, 41)]

  // The pattern of the table: a column's distance is 21, and each row is turned once more than the last.
  function Row(k: nat): (nat, nat, nat) {
    if k % 3 == 0 then (k, k + 21, k + 42)
    else if k % 3 == 1 then (k + 21, k + 42, k)
    else (k + 42, k, k + 21)
  }

  lemma RowsFollow(k: nat)
    requires k < 21
    ensures |PERMUTATION| == 21 && PERMUTATION[k] == Row(k)
  {
  }

  // Which of its row's three places a byte takes.
  function Column(i: nat): nat {
    (i / 21 + (3 - i % 21 % 3)) % 3
  }

  function Place(row: (nat, nat, nat), column: nat): nat {
    if column == 0 then row.0 else if column == 1 then row.1 else row.2
  }

  // Every byte but the last stands in exactly one place of the table.
  lemma EachByteOnce(i: nat, k: nat, column: nat)
    requires i < 63 && k < 21 && column < 3
    ensures Place(PERMUTATION[k], column) == i <==> k == i % 21 && column == Column(i)
  {
    hide PERMUTATION;
    RowsFollow(k);
    var q, r := i / 21, i % 21;
    assert i == 21 * q + r && q < 3;
  }

  /**** encode ****/

  function RowValue(digest: bytes, row: (nat, nat, nat)): nat
    requires row.0 < |digest| && row.1 < |digest| && row.2 < |digest|
  {
    Three(digest[row.0], digest[row.1], digest[row.2])
  }

  lemma RowsInRange(k: nat)
    requires k < 21
    ensures |PERMUTATION| == 21 && PERMUTATION[k].0 < 63 && PERMUTATION[k].1 < 63 && PERMUTATION[k].2 < 63
  {
    hide PERMUTATION;
    RowsFollow(k);
  }

  // The groups from the k-th row on.
  function Rows(digest: bytes, k: nat): string
    requires |digest| == 64 && k <= 21
    decreases 21 - k
  {
    if k == 21 then "" else RowsInRange(k); Group(RowValue(digest, PERMUTATION[k]), 4) + Rows(digest, k + 1)
  }

  function Encoded(digest: bytes): string
    requires |digest| == 64
  {
    Rows(digest, 0) + Group(Three(0, 0, digest[63]), 2)
  }

  method Encode(digest: bytes) returns (out: string)
    requires |digest| == 64
    ensures out == Encoded(digest)
  {
    hide PERMUTATION, Group, Three, Rows;
    out := "";
    for k := 0 to 21
      invariant out + Rows(digest, k) == Rows(digest, 0)
    {
      RowsInRange(k);
      var row := PERMUTATION[k];
      ghost var before := out;
      out := WriteGroup(out, digest[row.0], digest[row.1], digest[row.2], 4);
      RowsStep(digest, k);
      Assoc(before, Group(RowValue(digest, row), 4), Rows(digest, k + 1));
    }
    RowsEnd(digest);
    assert out + "" == out;
    out := WriteGroup(out, 0, 0, digest[63], 2);
  }

  lemma RowsStep(digest: bytes, k: nat)
    requires |digest| == 64 && k < 21
    ensures PERMUTATION[k].0 < 64 && PERMUTATION[k].1 < 64 && PERMUTATION[k].2 < 64
    ensures Rows(digest, k) == Group(RowValue(digest, PERMUTATION[k]), 4) + Rows(digest, k + 1)
  {
    hide PERMUTATION, Group, Three;
    RowsInRange(k);
  }

  lemma RowsEnd(digest: bytes)
    requires |digest| == 64
    ensures Rows(digest, 21) == ""
  {
    hide PERMUTATION, Group, Three;
  }

  /**** Reading it back ****/

  function DecodedByte(text: string, i: nat): byte
    requires |text| == 86 && i < 64
  {
    if i == 63 then (GroupValue(text[84..86]) % 256) as byte
    else
      var v := GroupValue(text[4 * (i % 21)..4 * (i % 21) + 4]);
      ((if Column(i) == 0 then v / 65536 else if Column(i) == 1 then v / 256 else v) % 256) as byte
  }

  function Decoded(text: string): (digest: bytes)
    requires |text| == 86
    ensures |digest| == 64
  {
    seq(64, i requires 0 <= i < 64 => DecodedByte(text, i))
  }

  lemma {:induction false} RowsAt(digest: bytes, from: nat, k: nat)
    requires |digest| == 64 && from <= k < 21
    ensures |Rows(digest, from)| == 4 * (21 - from) && PERMUTATION[k].0 < 63 && PERMUTATION[k].1 < 63 && PERMUTATION[k].2 < 63
    ensures Rows(digest, from)[4 * (k - from)..4 * (k - from) + 4] == Group(RowValue(digest, PERMUTATION[k]), 4)
    decreases 21 - from
  {
    hide PERMUTATION, Group, RowValue;
    RowsInRange(from);
    RowsInRange(k);
    var head := Group(RowValue(digest, PERMUTATION[from]), 4);
    if from < k {
      RowsAt(digest, from + 1, k);
      SliceAfter(head, Rows(digest, from + 1), 4 * (k - from - 1));
    } else {
      RowsLength(digest, from + 1);
      assert (head + Rows(digest, from + 1))[0..4] == head;
    }
  }

  lemma SliceAfter(head: string, rest: string, at: nat)
    requires |head| == 4 && at + 4 <= |rest|
    ensures (head + rest)[4 + at..4 + at + 4] == rest[at..at + 4]
  {
  }

  lemma {:induction false} RowsLength(digest: bytes, k: nat)
    requires |digest| == 64 && k <= 21
    ensures |Rows(digest, k)| == 4 * (21 - k)
    decreases 21 - k
  {
    hide PERMUTATION, Group, RowValue;
    if k < 21 {
      RowsInRange(k);
      RowsLength(digest, k + 1);
    }
  }

  lemma EncodedShape(digest: bytes, k: nat)
    requires |digest| == 64 && k < 21
    ensures var text := Encoded(digest);
            && |text| == 86 && text[84..86] == Group(Three(0, 0, digest[63]), 2)
            && PERMUTATION[k].0 < 63 && PERMUTATION[k].1 < 63 && PERMUTATION[k].2 < 63
            && text[4 * k..4 * k + 4] == Group(RowValue(digest, PERMUTATION[k]), 4)
  {
    hide PERMUTATION, Group, RowValue, Rows, Three;
    RowsLength(digest, 0);
    RowsAt(digest, 0, k);
    var text := Encoded(digest);
    assert text[4 * k..4 * k + 4] == Rows(digest, 0)[4 * k..4 * k + 4];
  }

  lemma ThreeParts(b2: byte, b1: byte, b0: byte)
    ensures var v := Three(b2, b1, b0);
            && v < 0x100_0000 && v / 65536 % 256 == b2 as nat && v / 256 % 256 == b1 as nat && v % 256 == b0 as nat
  {
    var v := Three(b2, b1, b0);
    DivModUnique(v, 256, b2 as nat * 256 + b1 as nat, b0 as nat);
    DivModUnique(b2 as nat * 256 + b1 as nat, 256, b2 as nat, b1 as nat);
    DivModUnique(v, 65536, b2 as nat, b1 as nat * 256 + b0 as nat);
  }

  lemma Powers()
    ensures Pow64(4) == 0x100_0000 && Pow64(2) == 4096
  {
    assert Pow64(4) == 64 * Pow64(3) && Pow64(3) == 64 * Pow64(2) && Pow64(2) == 64 * Pow64(1) && Pow64(1) == 64 * Pow64(0);
  }

  lemma ByteReadsBack(digest: bytes, i: nat)
    requires |digest| == 64 && i < 64
    ensures |Encoded(digest)| == 86 && DecodedByte(Encoded(digest), i) == digest[i]
  {
    hide PERMUTATION, Group, Rows, Encoded, Three, GroupValue, Column, Pow64;
    Powers();
    if i == 63 {
      EncodedShape(digest, 0);
      ThreeParts(0, 0, digest[63]);
      TailValue(digest[63]);
      GroupReadsBack(Three(0, 0, digest[63]), 2);
    } else {
      var k := i % 21;
      RowsInRange(k);
      EncodedShape(digest, k);
      var row := PERMUTATION[k];
      ThreeParts(digest[row.0], digest[row.1], digest[row.2]);
      GroupReadsBack(RowValue(digest, row), 4);
      ColumnBound(i);
      EachByteOnce(i, k, Column(i));
    }
  }

  lemma TailValue(b: byte)
    ensures Three(0, 0, b) == b as nat && Three(0, 0, b) < 4096
  {
  }

  lemma ColumnBound(i: nat)
    ensures Column(i) < 3
  {
  }

  // Every digest of 64 bytes is written in 86 characters of the alphabet, and reads back.
  lemma EncodingReadsBack(digest: bytes)
    requires |digest| == 64
    ensures |Encoded(digest)| == 86 && Decoded(Encoded(digest)) == digest
    ensures forall i :: 0 <= i < 86 ==> Encoded(digest)[i] in ITOA64
  {
    hide Encoded, DecodedByte, ITOA64;
    ByteReadsBack(digest, 0);
    forall i | 0 <= i < 64 ensures DecodedByte(Encoded(digest), i) == digest[i] {
      ByteReadsBack(digest, i);
    }
    forall i | 0 <= i < 86 ensures Encoded(digest)[i] in ITOA64 {
      CharacterInAlphabet(digest, i);
    }
  }

  lemma CharacterInAlphabet(digest: bytes, i: nat)
    requires |digest| == 64 && i < 86
    ensures |Encoded(digest)| == 86 && Encoded(digest)[i] in ITOA64
  {
    hide Encoded, ITOA64, PERMUTATION, Group, Three, RowValue;
    var text := Encoded(digest);
    if i >= 84 {
      EncodedShape(digest, 0);
      GroupIsInAlphabet(Three(0, 0, digest[63]), 2);
      assert text[i] == text[84..86][i - 84];
    } else {
      var k := i / 4;
      RowsInRange(k);
      EncodedShape(digest, k);
      GroupIsInAlphabet(RowValue(digest, PERMUTATION[k]), 4);
      assert text[i] == text[4 * k..4 * k + 4][i - 4 * k];
    }
  }

  // So two digests are never written alike.
  lemma EncodingIsInjective(a: bytes, b: bytes)
    requires |a| == 64 && |b| == 64 && Encoded(a) == Encoded(b)
    ensures a == b
  {
    hide Encoded, Decoded, ITOA64;
    EncodingReadsBack(a);
    EncodingReadsBack(b);
  }

  /**** Which texts are encodings ****/

  ghost predicate InAlphabet(s: string) {
    forall i :: 0 <= i < |s| ==> SymbolValue(s[i]) < 64
  }

  lemma {:induction false} GroupWritesBack(s: string)
    requires InAlphabet(s)
    ensures GroupValue(s) < Pow64(|s|) && Group(GroupValue(s), |s|) == s
  {
    hide Symbol, SymbolValue;
    if s != "" {
      GroupWritesBack(s[1..]);
      ValueReadsBack(s[0]);
      var v, rest := GroupValue(s), GroupValue(s[1..]);
      DivModUnique(v, 64, rest, SymbolValue(s[0]));
      assert s == [s[0]] + s[1..];
    }
  }

  lemma ThreeOfParts(v: nat, b2: byte, b1: byte, b0: byte)
    requires v < 0x100_0000 && b2 as nat == v / 65536 % 256 && b1 as nat == v / 256 % 256 && b0 as nat == v % 256
    ensures Three(b2, b1, b0) == v
  {
    assert v == 256 * (v / 256) + v % 256;
    assert v / 256 == 256 * (v / 256 / 256) + v / 256 % 256;
    assert v / 256 / 256 == v / 65536;
  }

  lemma RowOfDecoded(text: string, k: nat)
    requires |text| == 86 && k < 21
    ensures PERMUTATION[k].0 < 63 && PERMUTATION[k].1 < 63 && PERMUTATION[k].2 < 63
    ensures GroupValue(text[4 * k..4 * k + 4]) < 0x100_0000 ==>
              RowValue(Decoded(text), PERMUTATION[k]) == GroupValue(text[4 * k..4 * k + 4])
  {
    hide PERMUTATION, GroupValue, Column, Three;
    RowsInRange(k);
    var row := PERMUTATION[k];
    var v := GroupValue(text[4 * k..4 * k + 4]);
    EachByteOnce(row.0, k, 0);
    EachByteOnce(row.1, k, 1);
    EachByteOnce(row.2, k, 2);
    var digest := Decoded(text);
    assert digest[row.0] == DecodedByte(text, row.0) && digest[row.1] == DecodedByte(text, row.1)
        && digest[row.2] == DecodedByte(text, row.2);
    if v < 0x100_0000 {
      ThreeOfParts(v, digest[row.0], digest[row.1], digest[row.2]);
    }
  }

  lemma {:induction false} RowsOfDecoded(text: string, k: nat)
    requires |text| == 86 && k <= 21 && InAlphabet(text)
    ensures Rows(Decoded(text), k) == text[4 * k..84]
    decreases 21 - k
  {
    hide PERMUTATION, Group, GroupValue, Decoded, RowValue, Pow64, SymbolValue;
    if k < 21 {
      RowsInRange(k);
      RowsOfDecoded(text, k + 1);
      var part := text[4 * k..4 * k + 4];
      PartInAlphabet(text, 4 * k, 4 * k + 4);
      Powers();
      GroupWritesBack(part);
      RowOfDecoded(text, k);
      assert text[4 * k..84] == part + text[4 * (k + 1)..84];
    }
  }

  lemma PartInAlphabet(text: string, a: nat, b: nat)
    requires a <= b <= |text| && InAlphabet(text)
    ensures InAlphabet(text[a..b])
  {
    hide SymbolValue;
    assert forall i :: 0 <= i < b - a ==> text[a..b][i] == text[a + i];
  }

  lemma TailOfDecoded(text: string)
    requires |text| == 86 && InAlphabet(text)
    ensures Group(Three(0, 0, Decoded(text)[63]), 2) == text[84..86] <==> SymbolValue(text[85]) < 4
  {
    hide Group, Pow64, Symbol, Column;
    var tail := text[84..86];
    PartInAlphabet(text, 84, 86);
    Powers();
    GroupWritesBack(tail);
    var w := GroupValue(tail);
    TailIs(tail);
    assert Decoded(text)[63] == DecodedByte(text, 63);
    TailValue(Decoded(text)[63]);
    GroupReadsBack(w % 256, 2);
    GroupReadsBack(w, 2);
  }

  lemma TailIs(tail: string)
    requires |tail| == 2 && InAlphabet(tail)
    ensures GroupValue(tail) == SymbolValue(tail[0]) + 64 * SymbolValue(tail[1])
    ensures GroupValue(tail) % 256 == GroupValue(tail) <==> SymbolValue(tail[1]) < 4
  {
    hide SymbolValue;
    assert tail[1..] == [tail[1]];
    assert [tail[1]][1..] == "";
    assert GroupValue([tail[1]]) == SymbolValue(tail[1]) + 64 * GroupValue("");
  }

  // Of all texts of 86 characters of the alphabet, those that encode a digest are the ones whose last
  // character is one of the first four of it.
  lemma EncodingsExactly(text: string)
    requires |text| == 86 && InAlphabet(text)
    ensures Encoded(Decoded(text)) == text <==> SymbolValue(text[85]) < 4
  {
    hide Rows, Decoded, Group, Three, SymbolValue;
    RowsOfDecoded(text, 0);
    TailOfDecoded(text);
    var whole := Encoded(Decoded(text));
    assert text == text[0..84] + text[84..86];
    assert whole[84..] == Group(Three(0, 0, Decoded(text)[63]), 2);
    assert text[84..] == text[84..86];
  }
}
