// Reverse names: the zone of a network, the full name of an address and the owner name of its PTR
// record (shared/validate/dns.go; section 3.5 of RFC 1035 and section 2.5 of RFC 3596).
module ReverseDns {
  import opened Wrappers
  import opened Bytes
  import opened Numbers
  import opened Parts

  // Four bytes or sixteen.
  type Address = a: bytes | |a| == 4 || |a| == 16 witness [0, 0, 0, 0]

  // A network as net.ParseCIDR gives it, up to the bits its mask clears.
  datatype Network = Network(address: Address, ones: nat)

  predicate ValidNetwork(n: Network) {
    n.ones <= 8 * |n.address|
  }

  // A sixteen-byte address that stands for a four-byte one.
  predicate Mapped(a: Address): (r: bool)
    ensures r ==> |a| == 16
  {
    |a| == 16 && (forall i :: 0 <= i < 10 ==> a[i] == 0) && a[10] == 255 && a[11] == 255
  }

  // net.IP.To4, or the address itself where that is nil.
  function To4(a: Address): (r: Address)
    ensures |r| == 4 <==> |a| == 4 || Mapped(a)
    ensures |r| == |a| ==> r == a
  {
    if Mapped(a) then a[12..] else a
  }

  // A network whose address, with the bits its mask clears, is still one that stands for four bytes.
  predicate MappedNetwork(n: Network) {
    n.ones >= 96 && Mapped(n.address)
  }

  // The address and mask a network is compared by, in four bytes where it can be.
  function Compared(n: Network): Network {
    if MappedNetwork(n) then Network(n.address[12..], n.ones - 96) else n
  }

  datatype NameError = Unaligned | NotInside | NotInZone

  /**** Labels ****/

  function HexDigit(n: nat): char
    requires n < 16
  {
    if n < 10 then Digit(n) else ('a' as int + n - 10) as char
  }

  // The high half of byte index / 2 for an even index, the low half for an odd one.
  function Nibble(a: bytes, index: nat): nat
    requires index < 2 * |a|
  {
    if index % 2 == 0 then a[index / 2] as nat / 16 else a[index / 2] as nat % 16
  }

  // How many labels an address has, and the label at a position, the most significant first.
  function Size(a: Address): nat {
    if |a| == 4 then 4 else 32
  }

  function Label(a: Address, index: nat): string
    requires index < Size(a)
  {
    if |a| == 4 then Decimal(a[index] as nat) else [HexDigit(Nibble(a, index))]
  }

  // The first `count` labels, in reverse.
  function Labels(a: Address, count: nat): (labels: seq<string>)
    requires count <= Size(a)
    ensures |labels| == count
  {
    if count == 0 then [] else [Label(a, count - 1)] + Labels(a, count - 1)
  }

  function Family(a: Address): seq<string> {
    if |a| == 4 then ["in-addr", "arpa"] else ["ip6", "arpa"]
  }

  function Root(a: Address): string {
    if |a| == 4 then ".in-addr.arpa" else ".ip6.arpa"
  }

  // How many labels a network fixes; None where it has no zone of its own.
  function Aligned(n: Network): Option<nat>
    requires ValidNetwork(n)
  {
    if |n.address| == 4 then
      if n.ones == 8 || n.ones == 16 || n.ones == 24 then Some(n.ones / 8) else None
    else if n.ones % 4 != 0 || n.ones == 0 then None
    else Some(n.ones / 4)
  }

  function Zone(n: Network): Result<string, NameError>
    requires ValidNetwork(n)
  {
    var count := Aligned(n);
    if count.None? then Failure(Unaligned) else Success(Join(Labels(n.address, count.value), '.') + Root(n.address))
  }

  // All labels of an address as it stands, and those of the name the source gives it.
  function OwnName(a: Address): string {
    Join(Labels(a, Size(a)), '.') + Root(a)
  }

  function FullName(a: Address): string {
    OwnName(To4(a))
  }

  method ReverseZone(n: Network) returns (zone: Result<string, NameError>)
    requires ValidNetwork(n)
    ensures zone == Zone(n)
  {
    var a := n.address;
    var labels: seq<string> := [];
    if |a| == 4 {
      if n.ones != 8 && n.ones != 16 && n.ones != 24 {
        return Failure(Unaligned);
      }
      var index: nat := n.ones / 8;
      while index > 0
        invariant index <= n.ones / 8
        invariant labels + Labels(a, index) == Labels(a, n.ones / 8)
      {
        index := index - 1;
        Shift(labels, Label(a, index), Labels(a, index));
        labels := labels + [Decimal(a[index] as nat)];
      }
      assert labels + [] == labels;
      return Success(Join(labels, '.') + ".in-addr.arpa");
    }
    if n.ones % 4 != 0 || n.ones == 0 {
      return Failure(Unaligned);
    }
    var index: nat := n.ones / 4;
    while index > 0
      invariant index <= n.ones / 4
      invariant labels + Labels(a, index) == Labels(a, n.ones / 4)
    {
      index := index - 1;
      var octet := a[index / 2] as nat;
      if index % 2 == 0 {
        octet := octet / 16;
      }
      Shift(labels, Label(a, index), Labels(a, index));
      SmallOctet(octet);
      labels := labels + [[HexDigit(octet % 16)]];
    }
    assert labels + [] == labels;
    return Success(Join(labels, '.') + ".ip6.arpa");
  }

  lemma SmallOctet(octet: nat)
    ensures octet < 16 ==> octet % 16 == octet
  {
  }

  lemma Shift(labels: seq<string>, label0: string, rest: seq<string>)
    ensures labels + [label0] + rest == labels + ([label0] + rest)
  {
  }

  method ReverseName(a: Address) returns (name: string)
    ensures name == FullName(a)
  {
    hide Padded, Label, Join, HexDigit, Labels, Mapped;
    var v4 := To4(a);
    if |v4| == 4 {
      FourLabels(v4);
      return Decimal(v4[3] as nat) + "." + Decimal(v4[2] as nat) + "." + Decimal(v4[1] as nat) + "."
             + Decimal(v4[0] as nat) + ".in-addr.arpa";
    }
    var nibbles := ReverseNibbles(a);
    return Join(nibbles, '.') + ".ip6.arpa";
  }

  // Both halves of every byte, the last byte and the low half first.
  method ReverseNibbles(a: Address) returns (nibbles: seq<string>)
    requires |a| == 16
    ensures nibbles == Labels(a, 32)
  {
    hide Label, HexDigit, Labels;
    nibbles := [];
    var index: nat := 16;
    while index > 0
      invariant index <= 16
      invariant nibbles + Labels(a, 2 * index) == Labels(a, 32)
    {
      index := index - 1;
      TwoLabels(a, index);
      var low, high := [HexDigit(a[index] as nat % 16)], [HexDigit(a[index] as nat / 16)];
      Shift(nibbles, low, [high] + Labels(a, 2 * index));
      Shift(nibbles + [low], high, Labels(a, 2 * index));
      nibbles := nibbles + [low];
      nibbles := nibbles + [high];
    }
    NoLabels(a);
    assert nibbles + [] == nibbles;
  }

  lemma NoLabels(a: Address)
    ensures Labels(a, 0) == []
  {
  }

  lemma HalvesOf(a: Address, index: nat)
    requires |a| == 16 && index < 16
    ensures Nibble(a, 2 * index + 1) == a[index] as nat % 16 && Nibble(a, 2 * index) == a[index] as nat / 16
  {
    assert (2 * index + 1) / 2 == index && (2 * index) / 2 == index;
  }

  lemma TwoLabels(a: Address, index: nat)
    requires |a| == 16 && index < 16
    ensures Labels(a, 2 * index + 2)
         == [[HexDigit(a[index] as nat % 16)]] + ([[HexDigit(a[index] as nat / 16)]] + Labels(a, 2 * index))
  {
    hide Nibble, HexDigit, Padded;
    HalvesOf(a, index);
    LabelsStep(a, 2 * index + 1);
    LabelsStep(a, 2 * index);
  }

  lemma LabelsStep(a: Address, k: nat)
    requires k < Size(a)
    ensures Labels(a, k + 1) == [Label(a, k)] + Labels(a, k)
  {
    hide Label;
  }

  lemma FourLabels(a: Address)
    requires |a| == 4
    ensures OwnName(a) == Decimal(a[3] as nat) + "." + Decimal(a[2] as nat) + "." + Decimal(a[1] as nat) + "."
                          + Decimal(a[0] as nat) + ".in-addr.arpa"
  {
    hide Padded;
    var l0, l1, l2, l3 := Label(a, 0), Label(a, 1), Label(a, 2), Label(a, 3);
    assert Labels(a, 1) == [l0] by { assert Labels(a, 0) == []; }
    assert Labels(a, 2) == [l1, l0];
    assert Labels(a, 3) == [l2, l1, l0];
    assert Labels(a, 4) == [l3, l2, l1, l0];
    assert Labels(a, 4)[1..] == [l2, l1, l0] && [l2, l1, l0][1..] == [l1, l0] && [l1, l0][1..] == [l0];
    assert Join([l1, l0], '.') == l1 + "." + l0;
    assert Join([l2, l1, l0], '.') == l2 + "." + (l1 + "." + l0);
    assert Join([l3, l2, l1, l0], '.') == l3 + "." + (l2 + "." + (l1 + "." + l0));
  }

  /**** Being in a network ****/

  // 2 to the number of bits of a byte the mask clears.
  function Cleared(ones: nat): nat {
    match ones % 8
    case 0 => 256
    case 1 => 128
    case 2 => 64
    case 3 => 32
    case 4 => 16
    case 5 => 8
    case 6 => 4
    case _ => 2
  }

  // The same number of bytes and the same first bits.
  predicate Shares(n: Network, a: Address)
    requires ValidNetwork(n)
  {
    && |a| == |n.address|
    && (forall i :: 0 <= i < n.ones / 8 ==> a[i] == n.address[i])
    && (n.ones / 8 < |a| ==> a[n.ones / 8] as nat / Cleared(n.ones) == n.address[n.ones / 8] as nat / Cleared(n.ones))
  }

  // prefix.Contains.
  predicate Inside(n: Network, a: Address)
    requires ValidNetwork(n)
  {
    Shares(Compared(n), To4(a))
  }

  // For an aligned network that is to share the labels it fixes: those of the address in the network's
  // own family, or, where both stand for four bytes, the halves of these.
  lemma InsideByLabels(n: Network, a: Address)
    requires ValidNetwork(n) && Aligned(n).Some?
    ensures Aligned(n).value <= Size(n.address) && (MappedNetwork(n) ==> 24 <= Aligned(n).value)
    ensures !MappedNetwork(n) ==>
              (Inside(n, a) <==>
                 && |To4(a)| == |n.address|
                 && forall i :: 0 <= i < Aligned(n).value ==> Label(To4(a), i) == Label(n.address, i))
    ensures MappedNetwork(n) ==>
              (Inside(n, a) <==>
                 && |To4(a)| == 4
                 && forall i :: 24 <= i < Aligned(n).value ==> Nibble(To4(a), i - 24) == Nibble(n.address, i))
  {
    hide Label, Shares, Mapped, Nibble;
    if MappedNetwork(n) {
      if |To4(a)| == 4 {
        var count := Aligned(n).value - 24;
        NibblesDecide(Compared(n), To4(a), count);
        forall i | 0 <= i < count ensures Nibble(Compared(n).address, i) == Nibble(n.address, i + 24) {
          LaterNibble(n.address, i + 24);
        }
        LaterHalves(To4(a), Compared(n).address, n.address, count);
      } else {
        OtherFamily(Compared(n), To4(a));
      }
    } else if |To4(a)| == |n.address| {
      SharesByLabels(n, To4(a));
    } else {
      OtherFamily(n, To4(a));
    }
  }

  lemma OtherFamily(n: Network, a: Address)
    requires ValidNetwork(n) && |a| != |n.address|
    ensures !Shares(n, a)
  {
  }

  lemma LaterNibble(a: Address, i: nat)
    requires |a| == 16 && 24 <= i < 32
    ensures Nibble(a[12..], i - 24) == Nibble(a, i)
  {
    assert (i - 24) / 2 == i / 2 - 12 && (i - 24) % 2 == i % 2;
  }

  lemma LaterHalves(a: Address, b: Address, whole: Address, count: nat)
    requires |a| == 4 && |b| == 4 && |whole| == 16 && count <= 8
    requires forall i :: 0 <= i < count ==> Nibble(b, i) == Nibble(whole, i + 24)
    ensures (forall i :: 0 <= i < count ==> Nibble(a, i) == Nibble(b, i))
       <==> forall i :: 24 <= i < count + 24 ==> Nibble(a, i - 24) == Nibble(whole, i)
  {
    hide Nibble;
    if forall i :: 24 <= i < count + 24 ==> Nibble(a, i - 24) == Nibble(whole, i) {
      forall i | 0 <= i < count ensures Nibble(a, i) == Nibble(b, i) {
        assert Nibble(a, (i + 24) - 24) == Nibble(whole, i + 24);
      }
    }
    if forall i :: 0 <= i < count ==> Nibble(a, i) == Nibble(b, i) {
      forall i | 24 <= i < count + 24 ensures Nibble(a, i - 24) == Nibble(whole, i) {
        assert Nibble(b, i - 24) == Nibble(whole, (i - 24) + 24);
      }
    }
  }

  lemma SharesByLabels(n: Network, a: Address)
    requires ValidNetwork(n) && Aligned(n).Some? && |a| == |n.address|
    ensures Aligned(n).value <= Size(a)
    ensures Shares(n, a) <==> forall i :: 0 <= i < Aligned(n).value ==> Label(a, i) == Label(n.address, i)
  {
    hide Padded, HexDigit;
    var count := Aligned(n).value;
    if |a| == 4 {
      forall i | 0 <= i < count ensures Label(a, i) == Label(n.address, i) <==> a[i] == n.address[i] {
        OctetLabels(a, n.address, i);
      }
    } else {
      forall i | 0 <= i < count ensures Label(a, i) == Label(n.address, i) <==> Nibble(a, i) == Nibble(n.address, i) {
        NibbleLabels(a, n.address, i);
      }
      NibblesDecide(n, a, count);
    }
  }

  lemma OctetLabels(a: Address, b: Address, i: nat)
    requires |a| == 4 && |b| == 4 && i < 4
    ensures Label(a, i) == Label(b, i) <==> a[i] == b[i]
  {
    hide Padded;
    if Label(a, i) == Label(b, i) {
      DecimalIsInjective(a[i] as nat, b[i] as nat);
    }
  }

  lemma NibbleLabels(a: Address, b: Address, i: nat)
    requires |a| == 16 && |b| == 16 && i < 32
    ensures Label(a, i) == Label(b, i) <==> Nibble(a, i) == Nibble(b, i)
  {
    hide Nibble;
    var x, y := Nibble(a, i), Nibble(b, i);
    NibbleIsSmall(a, i);
    NibbleIsSmall(b, i);
    assert [HexDigit(x)][0] == HexDigit(x) && [HexDigit(y)][0] == HexDigit(y);
  }

  lemma NibbleIsSmall(a: Address, i: nat)
    requires i < 2 * |a|
    ensures Nibble(a, i) < 16
  {
  }

  lemma ByteOfNibbles(a: Address, b: Address, i: nat)
    requires |a| == |b| && i < |a|
    ensures a[i] == b[i] <==> Nibble(a, 2 * i) == Nibble(b, 2 * i) && Nibble(a, 2 * i + 1) == Nibble(b, 2 * i + 1)
  {
    assert 2 * i / 2 == i && (2 * i + 1) / 2 == i;
    assert a[i] as nat == 16 * (a[i] as nat / 16) + a[i] as nat % 16;
    assert b[i] as nat == 16 * (b[i] as nat / 16) + b[i] as nat % 16;
  }

  lemma NibblesDecide(n: Network, a: Address, count: nat)
    requires ValidNetwork(n) && |a| == |n.address| && n.ones == 4 * count && count <= 2 * |a|
    ensures Shares(n, a) <==> forall i :: 0 <= i < count ==> Nibble(a, i) == Nibble(n.address, i)
  {
    hide Nibble, Cleared;
    var b, whole := n.address, count / 2;
    assert n.ones / 8 == whole;
    if count < 2 * |a| {
      LastByte(n, a, count);
    }
    forall i | 0 <= i < whole
      ensures a[i] == b[i] <==> Nibble(a, 2 * i) == Nibble(b, 2 * i) && Nibble(a, 2 * i + 1) == Nibble(b, 2 * i + 1)
    {
      ByteOfNibbles(a, b, i);
    }
    if Shares(n, a) {
      forall i | 0 <= i < count ensures Nibble(a, i) == Nibble(b, i) {
        var k := i / 2;
        if k < whole {
          assert a[k] == b[k];
          assert i == 2 * k || i == 2 * k + 1;
        } else {
          assert i == 2 * whole;
        }
      }
    }
    if forall i :: 0 <= i < count ==> Nibble(a, i) == Nibble(b, i) {
      forall i | 0 <= i < whole ensures a[i] == b[i] {
        assert Nibble(a, 2 * i) == Nibble(b, 2 * i) && Nibble(a, 2 * i + 1) == Nibble(b, 2 * i + 1);
      }
    }
  }

  // The byte the prefix ends in: nothing of it counts, or its high half.
  lemma LastByte(n: Network, a: Address, count: nat)
    requires ValidNetwork(n) && |a| == |n.address| && n.ones == 4 * count && count < 2 * |a|
    ensures var k := count / 2;
            a[k] as nat / Cleared(n.ones) == n.address[k] as nat / Cleared(n.ones)
            <==> (count % 2 == 1 ==> Nibble(a, 2 * k) == Nibble(n.address, 2 * k))
  {
    var k := count / 2;
    assert 2 * k / 2 == k && 2 * k % 2 == 0;
    if count % 2 == 1 {
      assert n.ones % 8 == 4;
    } else {
      assert n.ones % 8 == 0;
    }
  }

  /**** Names as lists of labels ****/

  lemma LabelHasNoDot(a: Address, i: nat)
    requires i < Size(a)
    ensures '.' !in Label(a, i)
  {
    hide Padded, Nibble;
    if |a| == 4 {
      PaddedReadsBack(a[i] as nat, 1);
    } else {
      NibbleIsSmall(a, i);
    }
  }

  lemma {:induction false} LabelsAreFree(a: Address, count: nat)
    requires count <= Size(a)
    ensures Free(Labels(a, count) + Family(a), '.')
  {
    hide Label;
    if count == 0 {
      assert [] + Family(a) == Family(a);
    } else {
      LabelHasNoDot(a, count - 1);
      LabelsAreFree(a, count - 1);
      assert Labels(a, count) + Family(a) == [Label(a, count - 1)] + (Labels(a, count - 1) + Family(a));
    }
  }

  // A name with its root is all its labels joined.
  lemma RootIsFamily(a: Address, count: nat)
    requires 0 < count <= Size(a)
    ensures Join(Labels(a, count), '.') + Root(a) == Join(Labels(a, count) + Family(a), '.')
  {
    hide Label;
    JoinAppend(Labels(a, count), Family(a), '.');
    FamilyJoined(a);
    Assoc(Join(Labels(a, count), '.'), ".", Join(Family(a), '.'));
  }

  lemma FamilyJoined(a: Address)
    ensures Root(a) == "." + Join(Family(a), '.')
  {
    assert ["in-addr", "arpa"][1..] == ["arpa"];
    assert ["ip6", "arpa"][1..] == ["arpa"];
    assert Join(["in-addr", "arpa"], '.') == "in-addr" + "." + "arpa";
    assert Join(["ip6", "arpa"], '.') == "ip6" + "." + "arpa";
  }

  lemma DropOne(first: string, rest: seq<string>, k: nat)
    requires 1 <= k <= |rest| + 1
    ensures ([first] + rest)[k..] == rest[k - 1..]
  {
  }

  lemma {:induction false} LabelsTail(a: Address, total: nat, count: nat)
    requires count <= total <= Size(a)
    ensures Labels(a, total)[total - count..] == Labels(a, count)
    decreases total
  {
    hide Label, Labels;
    if count < total {
      LabelsTail(a, total - 1, count);
      LabelsStep(a, total - 1);
      DropOne(Label(a, total - 1), Labels(a, total - 1), total - count);
    }
  }

  lemma {:induction false} LabelsEqual(a: Address, b: Address, count: nat)
    requires |a| == |b| && count <= Size(a)
    ensures Labels(a, count) == Labels(b, count) <==> forall i :: 0 <= i < count ==> Label(a, i) == Label(b, i)
  {
    hide Label;
    if count > 0 {
      LabelsEqual(a, b, count - 1);
      var x, y := Labels(a, count), Labels(b, count);
      assert x[0] == Label(a, count - 1) && y[0] == Label(b, count - 1);
      assert x[1..] == Labels(a, count - 1) && y[1..] == Labels(b, count - 1);
    }
  }

  /**** What a reverse zone is asked ****/

  // An address's full name lies in a network's zone exactly when the address lies in the network, for
  // every network that leaves at least one label open, unless the network stands for one of four bytes.
  lemma InZoneIffInside(n: Network, a: Address)
    requires ValidNetwork(n) && Aligned(n).Some? && Aligned(n).value < Size(n.address)
    ensures Zone(n).Success?
    ensures HasSuffix(FullName(a), "." + Zone(n).value) <==> Inside(n, a) && !MappedNetwork(n)
  {
    hide Label, Labels, Join, HasSuffix, Root, OwnName, Zone, Mapped, Shares;
    AlignedBounds(n);
    var b := To4(a);
    if |b| != |n.address| {
      OtherRoot(n, b);
      if !MappedNetwork(n) {
        OtherFamily(n, b);
      }
    } else {
      OwnInZone(n, b);
      if MappedNetwork(n) {
        SharedIsMapped(n, b);
        OtherFamily(Compared(n), b);
      }
    }
  }

  // What has the first 96 bits of an address that stands for four bytes stands for four bytes.
  lemma SharedIsMapped(n: Network, a: Address)
    requires ValidNetwork(n) && MappedNetwork(n)
    ensures Shares(n, a) ==> Mapped(a)
  {
    assert n.ones / 8 >= 12;
  }

  lemma OwnInZone(n: Network, a: Address)
    requires ValidNetwork(n) && Aligned(n).Some? && |a| == |n.address| && Aligned(n).value < Size(a)
    ensures Zone(n).Success?
    ensures HasSuffix(OwnName(a), "." + Zone(n).value) <==> Shares(n, a)
  {
    hide Label, Labels, Join, Shares, HasSuffix, Root;
    var count := Aligned(n).value;
    var long, short := Labels(a, Size(a)) + Family(a), Labels(n.address, count) + Family(a);
    AlignedBounds(n);
    RootIsFamily(a, Size(a));
    RootIsFamily(n.address, count);
    LabelsAreFree(a, Size(a));
    LabelsAreFree(n.address, count);
    JoinSuffix(long, short, '.');
    LabelsTail(a, Size(a), count);
    LabelsEqual(a, n.address, count);
    SharesByLabels(n, a);
    EndsCompare(Labels(a, Size(a)), Labels(n.address, count), Family(a));
    SuffixForm(n, a, long, short);
  }

  // The names of the two families end differently.
  lemma OtherRoot(n: Network, a: Address)
    requires ValidNetwork(n) && Zone(n).Success? && |a| != |n.address|
    ensures !HasSuffix(OwnName(a), "." + Zone(n).value) && OwnName(a) != Zone(n).value
  {
    hide Labels, Join, Aligned;
    var mine, theirs := Root(a), Root(n.address);
    assert mine[|mine| - 6] != theirs[|theirs| - 6];
    var full, zone := OwnName(a), Zone(n).value;
    assert full[|full| - 6] == mine[|mine| - 6] && zone[|zone| - 6] == theirs[|theirs| - 6];
    assert ("." + zone)[|zone| + 1 - 6] == zone[|zone| - 6];
  }

  lemma SuffixForm(n: Network, a: Address, long: seq<string>, short: seq<string>)
    requires ValidNetwork(n) && Zone(n).Success? && OwnName(a) == Join(long, '.') && Zone(n).value == Join(short, '.')
    ensures HasSuffix(OwnName(a), "." + Zone(n).value) <==> HasSuffix(Join(long, '.'), ['.'] + Join(short, '.'))
  {
    hide Zone, OwnName, Join, HasSuffix;
    assert "." == ['.'];
  }

  lemma AlignedBounds(n: Network)
    requires ValidNetwork(n) && Aligned(n).Some?
    ensures 0 < Aligned(n).value <= Size(n.address) && Zone(n).Success?
    ensures Zone(n).value == Join(Labels(n.address, Aligned(n).value), '.') + Root(n.address)
  {
    hide Labels, Join, Root;
  }

  lemma EndsCompare(long: seq<string>, short: seq<string>, tail: seq<string>)
    requires |short| < |long|
    ensures (long + tail)[|long + tail| - |short + tail|..] == short + tail <==> long[|long| - |short|..] == short
  {
    var k := |long| - |short|;
    assert (long + tail)[k..] == long[k..] + tail;
    if long[k..] + tail == short + tail {
      assert (long[k..] + tail)[..|short|] == long[k..];
      assert (short + tail)[..|short|] == short;
    }
  }

  // The owner name of an address's PTR record in a network's zone.
  function PointerName(n: Network, a: Address): Result<string, NameError>
    requires ValidNetwork(n)
  {
    if !Inside(n, a) then Failure(NotInside)
    else
      var zone := Zone(n);
      if zone.Failure? then zone
      else
        var full, suffix := FullName(a), "." + zone.value;
        if !HasSuffix(full, suffix) then Failure(NotInZone) else Success(full[..|full| - |suffix|])
  }

  method ReversePointerName(n: Network, a: Address) returns (name: Result<string, NameError>)
    requires ValidNetwork(n)
    ensures name == PointerName(n, a)
  {
    hide Labels, Join;
    if !Inside(n, a) {
      return Failure(NotInside);
    }
    var zone := ReverseZone(n);
    if zone.Failure? {
      return zone;
    }
    var full := ReverseName(a);
    var suffix := "." + zone.value;
    if !HasSuffix(full, suffix) {
      return Failure(NotInZone);
    }
    return Success(full[..|full| - |suffix|]);
  }

  // A pointer is given exactly for the addresses of an aligned network that neither is a single address
  // nor stands for one of four bytes, and with the zone it makes up the full name.
  lemma PointerExactly(n: Network, a: Address)
    requires ValidNetwork(n)
    ensures PointerName(n, a).Success? <==>
              Inside(n, a) && Aligned(n).Some? && Aligned(n).value < Size(n.address) && !MappedNetwork(n)
    ensures PointerName(n, a).Success? ==>
              Zone(n).Success? && PointerName(n, a).value + "." + Zone(n).value == FullName(a)
    ensures PointerName(n, a) == Failure(NotInside) <==> !Inside(n, a)
    ensures PointerName(n, a) == Failure(Unaligned) <==> Inside(n, a) && Aligned(n).None?
  {
    hide Labels, Join, FullName, Root, Padded, Label, Inside, MappedNetwork;
    if Inside(n, a) && Aligned(n).Some? {
      AlignedBounds(n);
      if Aligned(n).value < Size(n.address) {
        InZoneIffInside(n, a);
      } else {
        WholeAddress(n, a);
      }
      SuffixParts(FullName(a), "." + Zone(n).value, Zone(n).value);
    }
  }

  lemma SuffixParts(full: string, suffix: string, zone: string)
    requires suffix == "." + zone
    ensures HasSuffix(full, suffix) ==> full[..|full| - |suffix|] + "." + zone == full
  {
    if HasSuffix(full, suffix) {
      assert full == full[..|full| - |suffix|] + suffix;
    }
  }

  // A network of one address is its own full name, or of the other family, so the name is not inside it.
  lemma WholeAddress(n: Network, a: Address)
    requires ValidNetwork(n) && Inside(n, a) && Aligned(n).Some? && Aligned(n).value == Size(n.address)
    ensures Zone(n).Success? && !HasSuffix(FullName(a), "." + Zone(n).value)
  {
    hide Labels, Join, Label, Mapped, Shares;
    AlignedBounds(n);
    var b := To4(a);
    if |b| != |n.address| {
      OtherRoot(n, b);
    } else {
      if MappedNetwork(n) || !Shares(n, b) {
        OtherFamily(Compared(n), b);
      }
      SharesByLabels(n, b);
      LabelsEqual(b, n.address, Size(b));
    }
  }

  // So the pointer of an IPv6 address in its own /128 is refused, though the network is accepted and
  // holds the address.
  lemma SingleAddressIsRefused(a: Address)
    requires |a| == 16
    ensures var n := Network(a, 128); ValidNetwork(n) && Zone(n).Success? && Inside(n, a) && PointerName(n, a) == Failure(NotInZone)
  {
    hide Labels, Join, Root, FullName, Mapped;
    WholeAddress(Network(a, 128), a);
  }

  // And so is every pointer in a network that stands for one of four bytes, whose zone is of the other
  // family than the names.
  lemma MappedNetworkIsRefused(n: Network, a: Address)
    requires ValidNetwork(n) && MappedNetwork(n) && Aligned(n).Some? && Inside(n, a)
    ensures Zone(n).Success? && PointerName(n, a) == Failure(NotInZone)
  {
    hide Labels, Join, Root, FullName, Inside, Zone;
    AlignedBounds(n);
    PointerExactly(n, a);
  }

  // ::ffff:192.0.2.1 in ::ffff:192.0.2.0/120, beside the same address in 192.0.2.0/24.
  lemma MappedAddressInTwoNetworks()
    ensures var zeros: bytes := [0, 0, 0, 0, 0, 0, 0, 0, 0, 0];
            var a: Address := zeros + [255, 255, 192, 0, 2, 1];
            var n, n4 := Network(zeros + [255, 255, 192, 0, 2, 0], 120), Network([192, 0, 2, 0], 24);
            && Inside(n, a) && Zone(n).Success? && PointerName(n, a) == Failure(NotInZone)
            && Inside(n4, a) && PointerName(n4, a).Success?
  {
    hide PointerName, Zone, FullName;
    var zeros: bytes := [0, 0, 0, 0, 0, 0, 0, 0, 0, 0];
    var a: Address := zeros + [255, 255, 192, 0, 2, 1];
    var n, n4 := Network(zeros + [255, 255, 192, 0, 2, 0], 120), Network([192, 0, 2, 0], 24);
    assert a[12..] == [192, 0, 2, 1] && n.address[12..] == [192, 0, 2, 0];
    assert Mapped(a) && Mapped(n.address);
    MappedNetworkIsRefused(n, a);
    PointerExactly(n4, a);
  }

  // Two addresses have the same full name, or the same pointer in one zone, only if they are the same
  // address to the source.
  lemma FullNamesDiffer(a: Address, b: Address)
    requires FullName(a) == FullName(b)
    ensures To4(a) == To4(b)
  {
    hide OwnName, Mapped;
    SameFamily(To4(a), To4(b));
    OwnNamesDiffer(To4(a), To4(b));
  }

  lemma SameFamily(a: Address, b: Address)
    requires OwnName(a) == OwnName(b)
    ensures |a| == |b|
  {
    hide Labels, Join;
    var x, y := Root(a), Root(b);
    assert OwnName(a)[|OwnName(a)| - 6] == x[|x| - 6] && OwnName(b)[|OwnName(b)| - 6] == y[|y| - 6];
  }

  lemma OwnNamesDiffer(a: Address, b: Address)
    requires |a| == |b| && OwnName(a) == OwnName(b)
    ensures a == b
  {
    hide Labels, Join, Root, Label, Split, Padded;
    var la, lb := Labels(a, Size(a)), Labels(b, Size(b));
    RootIsFamily(a, Size(a));
    RootIsFamily(b, Size(b));
    LabelsAreFree(a, Size(a));
    LabelsAreFree(b, Size(b));
    SplitOfJoin(la + Family(a), '.');
    SplitOfJoin(lb + Family(b), '.');
    assert (la + Family(a))[..|la|] == la && (lb + Family(b))[..|lb|] == lb;
    LabelsEqual(a, b, Size(a));
    SameLabels(a, b);
  }

  lemma SameLabels(a: Address, b: Address)
    requires |a| == |b| && forall i :: 0 <= i < Size(a) ==> Label(a, i) == Label(b, i)
    ensures a == b
  {
    hide Label, Nibble;
    forall i | 0 <= i < |a| ensures a[i] == b[i] {
      if |a| == 4 {
        OctetLabels(a, b, i);
      } else {
        NibbleLabels(a, b, 2 * i);
        NibbleLabels(a, b, 2 * i + 1);
        ByteOfNibbles(a, b, i);
      }
    }
  }

  lemma PointersDiffer(n: Network, a: Address, b: Address)
    requires ValidNetwork(n) && PointerName(n, a).Success? && PointerName(n, b) == PointerName(n, a)
    ensures To4(a) == To4(b)
  {
    hide PointerName, Zone, FullName, To4;
    PointerExactly(n, a);
    PointerExactly(n, b);
    FullNamesDiffer(a, b);
  }

  const HEX: string := "0123456789abcdef"

  // A full name read label by label: the four bytes in decimal from the last to the first, or the low and then
  // the high half of every byte from the last to the first, each one digit; and the two labels of the family.
  lemma NameReads(a: Address)
    requires |a| == 4 || |a| == 16
    ensures var b, read := To4(a), Split(FullName(a), '.');
            if |b| == 4 then
              read == [Decimal(b[3] as nat), Decimal(b[2] as nat), Decimal(b[1] as nat), Decimal(b[0] as nat), "in-addr", "arpa"]
            else
              && |read| == 34 && read[32] == "ip6" && read[33] == "arpa"
              && forall i :: 0 <= i < 16 ==>
                   && read[2 * i] == [HEX[b[15 - i] as nat % 16]]
                   && read[2 * i + 1] == [HEX[b[15 - i] as nat / 16]]
  {
    hide Split, Join, Mapped, Labels, Decimal, Label, HEX;
    var b := To4(a);
    LabelsAreFree(b, Size(b));
    RootIsFamily(b, Size(b));
    SplitOfJoin(Labels(b, Size(b)) + Family(b), '.');
    if |b| == 4 {
      FourInOrder(b);
    } else {
      SixteenDigits();
      forall i | 0 <= i < 16
        ensures Labels(b, 32)[2 * i] == [HEX[b[15 - i] as nat % 16]] && Labels(b, 32)[2 * i + 1] == [HEX[b[15 - i] as nat / 16]]
      {
        HalvesOf(b, 15 - i);
        LabelAt(b, 32, 2 * i);
        LabelAt(b, 32, 2 * i + 1);
        NibbleLabel(b, 2 * (15 - i));
        NibbleLabel(b, 2 * (15 - i) + 1);
      }
    }
  }

  lemma SixteenDigits()
    ensures |HEX| == 16
  {
  }

  lemma FourInOrder(b: Address)
    requires |b| == 4
    ensures Labels(b, 4) == [Decimal(b[3] as nat), Decimal(b[2] as nat), Decimal(b[1] as nat), Decimal(b[0] as nat)]
  {
    hide Labels, Decimal;
    LabelsStep(b, 3);
    LabelsStep(b, 2);
    LabelsStep(b, 1);
    LabelsStep(b, 0);
    NoLabels(b);
  }

  lemma {:induction false} LabelAt(a: Address, count: nat, i: nat)
    requires i < count <= Size(a)
    ensures Labels(a, count)[i] == Label(a, count - 1 - i)
  {
    hide Label;
    if i > 0 {
      LabelAt(a, count - 1, i - 1);
    }
  }

  lemma NibbleLabel(a: Address, index: nat)
    requires |a| == 16 && index < 32
    ensures Nibble(a, index) < 16 && Label(a, index) == [HEX[Nibble(a, index)]]
  {
    NibbleIsSmall(a, index);
  }
}
