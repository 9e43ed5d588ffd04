/**
 The text form of a password digest: 64 bytes in a fixed shuffle, three at a time, as base-64 digits
 with the least significant first.
 */
module CryptBase64 {
  import opened Octets
  import opened Wrappers

  type Digest = d: Bytes | |d| == 64 witness seq(64, _ => 0)

  /** The digit table "./0-9A-Za-z", as ASCII codes. */
  function DigitByte(v: nat): Byte
    requires v < 64
  {
    if v < 12 then 46 + v else if v < 38 then 65 + (v - 12) else 97 + (v - 38)
  }

  function DigitValue(b: Byte): Option<nat> {
    if 46 <= b < 58 then Some(b - 46)
    else if 65 <= b < 91 then Some(b - 65 + 12)
    else if 97 <= b < 123 then Some(b - 97 + 38)
    else None
  }

  predicate IsDigits(s: Bytes) {
    forall i :: 0 <= i < |s| ==> DigitValue(s[i]).Some?
  }

  // ---- One group ----

  function Digits(v: nat, count: nat): (s: Bytes)
    ensures |s| == count
  {
    if count == 0 then [] else [DigitByte(v % 64)] + Digits(v / 64, count - 1)
  }

  function FromDigits(s: Bytes): nat
    requires IsDigits(s)
  {
    if s == [] then 0 else DigitValue(s[0]).value + 64 * FromDigits(s[1..])
  }

  function Capacity(count: nat): nat {
    if count == 0 then 1 else 64 * Capacity(count - 1)
  }

  function Packed(b2: Byte, b1: Byte, b0: Byte): nat {
    var n2: nat, n1: nat, n0: nat := b2, b1, b0;
    65536 * n2 + 256 * n1 + n0
  }

  /** `crypt_b64` */
  method CryptB64(output: Bytes, b2: Byte, b1: Byte, b0: Byte, count: nat) returns (r: Bytes)
    ensures r == output + Digits(Packed(b2, b1, b0), count)
  {
    var value := Packed(b2, b1, b0);
    r := output;
    for i := 0 to count
      invariant output + Digits(Packed(b2, b1, b0), count) == r + Digits(value, count - i)
    {
      r := r + [DigitByte(value % 64)];
      value := value / 64;
    }
  }

  /** Digits lose nothing as long as the value fits. */
  lemma {:induction false} FromDigitsOfDigits(v: nat, count: nat)
    requires v < Capacity(count)
    ensures IsDigits(Digits(v, count)) && FromDigits(Digits(v, count)) == v
  {
    if count > 0 {
      FromDigitsOfDigits(v / 64, count - 1);
      var s := Digits(v, count);
      assert s[1..] == Digits(v / 64, count - 1);
      forall i | 0 <= i < |s| ensures DigitValue(s[i]).Some? {
        if i > 0 {
          assert s[i] == s[1..][i - 1];
        }
      }
    }
  }

  lemma {:induction false} DigitsOfFromDigits(s: Bytes)
    requires IsDigits(s)
    ensures FromDigits(s) < Capacity(|s|) && Digits(FromDigits(s), |s|) == s
  {
    hide DigitValue, DigitByte;
    if s != [] {
      var v, rest := DigitValue(s[0]).value, FromDigits(s[1..]);
      DigitsOfFromDigits(s[1..]);
      DigitBack(s[0]);
      LowestDigit(v, rest);
      assert s == [s[0]] + s[1..];
    }
  }

  lemma LowestDigit(v: nat, rest: nat)
    requires v < 64
    ensures (v + 64 * rest) % 64 == v && (v + 64 * rest) / 64 == rest
  {
  }

  lemma DigitBack(b: Byte)
    requires DigitValue(b).Some?
    ensures DigitValue(b).value < 64 && DigitByte(DigitValue(b).value) == b
  {
  }

  lemma Capacities()
    ensures Capacity(4) == 0x100_0000 && Capacity(2) == 0x1000
  {
    assert Capacity(1) == 64 && Capacity(2) == 64 * 64 && Capacity(3) == 64 * 64 * 64;
  }

  // ---- The shuffle ----

  /** The digest byte that stands at place `j` of group `k`. */
  function Source(k: nat, j: nat): (i: nat)
    requires k < 21 && j < 3
    ensures i < 63
  {
    21 * ((k + j) % 3) + k
  }

  /** Where digest byte `i` stands: the inverse of `Source`, so the groups partition the first 63 bytes. */
  function Group(i: nat): nat {
    i % 21
  }

  function Place(i: nat): (j: nat)
    ensures j < 3
  {
    (i / 21 - i % 21) % 3
  }

  lemma ShuffleIsBijective(i: nat, k: nat, j: nat)
    requires i < 63 && k < 21 && j < 3
    ensures Group(i) < 21 && Source(Group(i), Place(i)) == i
    ensures Group(Source(k, j)) == k && Place(Source(k, j)) == j
  {
    SourceSplits((k + j) % 3, k);
    var m, g := i / 21, i % 21;
    assert i == 21 * m + g && m < 3;
    RotatedBack(g, m);
    RotatedBack(k, (k + j) % 3);
  }

  lemma SourceSplits(m: nat, k: nat)
    requires m < 3 && k < 21
    ensures (21 * m + k) % 21 == k && (21 * m + k) / 21 == m
  {
  }

  lemma RotatedBack(k: nat, m: nat)
    requires m < 3
    ensures (k + (m - k) % 3) % 3 == m
  {
  }

  function GroupValue(d: Digest, k: nat): nat
    requires k < 21
  {
    Packed(d[Source(k, 0)], d[Source(k, 1)], d[Source(k, 2)])
  }

  function Groups(d: Digest, n: nat): (s: Bytes)
    requires n <= 21
    ensures |s| == 4 * n
  {
    if n == 0 then [] else Groups(d, n - 1) + Digits(GroupValue(d, n - 1), 4)
  }

  function Encode(d: Digest): (s: Bytes)
    ensures |s| == 86
  {
    Groups(d, 21) + Digits(Packed(0, 0, d[63]), 2)
  }

  lemma SourceIs(k: nat, j: nat, i: nat)
    requires k < 21 && j < 3 && i % 21 == k && i / 21 == (k + j) % 3
    ensures i == Source(k, j)
  {
  }

  /** One line of `sha512_crypt_encode`: the next group, with its three indices. */
  method NextGroup(output: Bytes, d: Digest, i: nat, j: nat, l: nat, ghost k: nat) returns (r: Bytes)
    requires k < 21 && output == Groups(d, k)
    requires i < 63 && i % 21 == k && i / 21 == k % 3
    requires j < 63 && j % 21 == k && j / 21 == (k + 1) % 3
    requires l < 63 && l % 21 == k && l / 21 == (k + 2) % 3
    ensures r == Groups(d, k + 1)
  {
    hide Source, Packed, Digits;
    SourceIs(k, 0, i);
    SourceIs(k, 1, j);
    SourceIs(k, 2, l);
    r := CryptB64(output, d[i], d[j], d[l], 4);
  }

  /** `sha512_crypt_encode`: its first seven groups, its middle ones and its last ones. */
  method FirstGroups(head: Bytes, d: Digest) returns (output: Bytes)
    requires head == Groups(d, 0)
    ensures output == Groups(d, 7)
  {
    hide Groups;
    output := NextGroup(head, d, 0, 21, 42, 0);
    output := NextGroup(output, d, 22, 43, 1, 1);
    output := NextGroup(output, d, 44, 2, 23, 2);
    output := NextGroup(output, d, 3, 24, 45, 3);
    output := NextGroup(output, d, 25, 46, 4, 4);
    output := NextGroup(output, d, 47, 5, 26, 5);
    output := NextGroup(output, d, 6, 27, 48, 6);
  }

  method MiddleGroups(head: Bytes, d: Digest) returns (output: Bytes)
    requires head == Groups(d, 7)
    ensures output == Groups(d, 14)
  {
    hide Groups;
    output := NextGroup(head, d, 28, 49, 7, 7);
    output := NextGroup(output, d, 50, 8, 29, 8);
    output := NextGroup(output, d, 9, 30, 51, 9);
    output := NextGroup(output, d, 31, 52, 10, 10);
    output := NextGroup(output, d, 53, 11, 32, 11);
    output := NextGroup(output, d, 12, 33, 54, 12);
    output := NextGroup(output, d, 34, 55, 13, 13);
  }

  method LastGroups(head: Bytes, d: Digest) returns (output: Bytes)
    requires head == Groups(d, 14)
    ensures output == Groups(d, 21)
  {
    hide Groups;
    output := NextGroup(head, d, 56, 14, 35, 14);
    output := NextGroup(output, d, 15, 36, 57, 15);
    output := NextGroup(output, d, 37, 58, 16, 16);
    output := NextGroup(output, d, 59, 17, 38, 17);
    output := NextGroup(output, d, 18, 39, 60, 18);
    output := NextGroup(output, d, 40, 61, 19, 19);
    output := NextGroup(output, d, 62, 20, 41, 20);
  }

  method Sha512CryptEncode(d: Digest) returns (output: Bytes)
    ensures output == Encode(d)
  {
    NoGroups(d);
    output := FirstGroups([], d);
    output := MiddleGroups(output, d);
    output := LastGroups(output, d);
    output := CryptB64(output, 0, 0, d[63], 2);
  }

  lemma NoGroups(d: Digest)
    ensures Groups(d, 0) == []
  {
  }

  // ---- Decoding ----

  /** What an encoded digest looks like: 86 digits, the last of them below four. */
  predicate IsEncoded(s: Bytes) {
    |s| == 86 && IsDigits(s) && DigitValue(s[85]).value < 4
  }

  function GroupDigits(s: Bytes, k: nat): (g: Bytes)
    requires |s| == 86 && IsDigits(s) && k < 21
    ensures |g| == 4 && IsDigits(g)
  {
    s[4 * k..4 * k + 4]
  }

  function Unpacked(v: nat, j: nat): Byte
    requires j < 3
  {
    if j == 0 then v / 65536 % 256 else if j == 1 then v / 256 % 256 else v % 256
  }

  /** The decoder: every byte from its place in its group. */
  function Decode(s: Bytes): Digest
    requires |s| == 86 && IsDigits(s)
  {
    seq(64, i requires 0 <= i < 64 =>
      if i == 63 then Unpacked(FromDigits(s[84..]), 2) else Unpacked(FromDigits(GroupDigits(s, Group(i))), Place(i)))
  }

  lemma UnpackedPacked(b2: Byte, b1: Byte, b0: Byte)
    ensures var v := Packed(b2, b1, b0);
            v < 0x100_0000 && Unpacked(v, 0) == b2 && Unpacked(v, 1) == b1 && Unpacked(v, 2) == b0
  {
    var n2: nat, n1: nat, n0: nat := b2, b1, b0;
    assert (65536 * n2 + 256 * n1 + n0) / 256 == 256 * n2 + n1;
    assert (65536 * n2 + 256 * n1 + n0) / 65536 == n2;
  }

  lemma PackedUnpacked(v: nat)
    requires v < 0x100_0000
    ensures Packed(Unpacked(v, 0), Unpacked(v, 1), Unpacked(v, 2)) == v
  {
    assert v / 65536 == v / 256 / 256;
    assert v == 256 * (v / 256) + v % 256;
    assert v / 256 == 256 * (v / 65536) + v / 256 % 256;
  }

  lemma {:induction false} GroupAt(d: Digest, n: nat, k: nat)
    requires k < n <= 21
    ensures Groups(d, n)[4 * k..4 * k + 4] == Digits(GroupValue(d, k), 4)
  {
    hide GroupValue, Digits;
    var before, last := Groups(d, n - 1), Digits(GroupValue(d, n - 1), 4);
    assert Groups(d, n) == before + last;
    if k < n - 1 {
      GroupAt(d, n - 1, k);
      assert (before + last)[4 * k..4 * k + 4] == before[4 * k..4 * k + 4];
    } else {
      assert (before + last)[4 * k..4 * k + 4] == last;
    }
  }

  lemma {:induction false} GroupsAreDigits(d: Digest, n: nat)
    requires n <= 21
    ensures IsDigits(Groups(d, n))
  {
    if n > 0 {
      var k := n - 1;
      GroupsAreDigits(d, k);
      UnpackedPacked(d[Source(k, 0)], d[Source(k, 1)], d[Source(k, 2)]);
      Capacities();
      FromDigitsOfDigits(GroupValue(d, k), 4);
    }
  }

  lemma EncodeIsEncoded(d: Digest)
    ensures IsEncoded(Encode(d))
  {
    GroupsAreDigits(d, 21);
    Capacities();
    var last := Packed(0, 0, d[63]);
    FromDigitsOfDigits(last, 2);
    assert Digits(last, 2) == [DigitByte(last % 64)] + Digits(last / 64, 1);
    assert Digits(last / 64, 1) == [DigitByte(last / 64 % 64)] + Digits(last / 64 / 64, 0);
    assert Encode(d)[85] == DigitByte(last / 64 % 64);
  }

  lemma DecodedByte(s: Bytes, k: nat, j: nat)
    requires |s| == 86 && IsDigits(s) && k < 21 && j < 3
    ensures Decode(s)[Source(k, j)] == Unpacked(FromDigits(GroupDigits(s, k)), j)
  {
    hide FromDigits, Unpacked, IsDigits, Source;
    ShuffleIsBijective(0, k, j);
  }

  lemma DecodedLastByte(s: Bytes)
    requires |s| == 86 && IsDigits(s)
    ensures Decode(s)[63] == Unpacked(FromDigits(s[84..]), 2)
  {
    hide FromDigits, Unpacked, IsDigits;
  }

  lemma GroupValueBack(d: Digest, k: nat)
    requires k < 21
    ensures var g := Digits(GroupValue(d, k), 4); IsDigits(g) && FromDigits(g) == GroupValue(d, k)
    ensures forall j :: 0 <= j < 3 ==> Unpacked(GroupValue(d, k), j) == d[Source(k, j)]
  {
    hide Digits, Packed, FromDigits, Unpacked;
    UnpackedPacked(d[Source(k, 0)], d[Source(k, 1)], d[Source(k, 2)]);
    Capacities();
    FromDigitsOfDigits(GroupValue(d, k), 4);
  }

  lemma ByteDecoded(d: Digest, i: nat)
    requires i < 63
    ensures IsEncoded(Encode(d)) && Decode(Encode(d))[i] == d[i]
  {
    hide Digits, GroupValue, FromDigits, Unpacked, Groups, IsDigits, Decode, Source;
    var s, k, j := Encode(d), Group(i), Place(i);
    EncodeIsEncoded(d);
    ShuffleIsBijective(i, 0, 0);
    DecodedByte(s, k, j);
    GroupAt(d, 21, k);
    assert GroupDigits(s, k) == Groups(d, 21)[4 * k..4 * k + 4];
    GroupValueBack(d, k);
  }

  lemma LastByteDecoded(d: Digest)
    ensures IsEncoded(Encode(d)) && Decode(Encode(d))[63] == d[63]
  {
    hide Digits, Groups, FromDigits, IsDigits;
    var s, v := Encode(d), Packed(0, 0, d[63]);
    EncodeIsEncoded(d);
    Capacities();
    assert s[84..] == Digits(v, 2);
    FromDigitsOfDigits(v, 2);
    UnpackedPacked(0, 0, d[63]);
  }

  /** Decoding gives every byte of the digest back. */
  lemma DecodeEncode(d: Digest)
    ensures IsEncoded(Encode(d)) && Decode(Encode(d)) == d
  {
    hide Encode, Decode, IsDigits;
    LastByteDecoded(d);
    forall i | 0 <= i < 64 ensures Decode(Encode(d))[i] == d[i] {
      if i < 63 {
        ByteDecoded(d, i);
      }
    }
  }

  lemma DecodedGroup(s: Bytes, k: nat)
    requires |s| == 86 && IsDigits(s) && k < 21
    ensures Digits(GroupValue(Decode(s), k), 4) == GroupDigits(s, k)
  {
    hide FromDigits, Unpacked, IsDigits, Packed, Digits, Decode, GroupDigits, Source;
    DecodedByte(s, k, 0);
    DecodedByte(s, k, 1);
    DecodedByte(s, k, 2);
    DigitsOfFromDigits(GroupDigits(s, k));
    Capacities();
    PackedUnpacked(FromDigits(GroupDigits(s, k)));
  }

  lemma {:induction false} DecodedGroups(s: Bytes, n: nat)
    requires |s| == 86 && IsDigits(s) && n <= 21
    ensures Groups(Decode(s), n) == s[..4 * n]
  {
    hide IsDigits, Decode, GroupValue, Digits;
    if n > 0 {
      DecodedGroups(s, n - 1);
      DecodedGroup(s, n - 1);
      assert s[..4 * n] == s[..4 * (n - 1)] + s[4 * (n - 1)..4 * n];
    }
  }

  /** The last two digits hold one byte exactly if the second of them is below four. */
  lemma TailDecoded(s: Bytes)
    requires IsEncoded(s)
    ensures Digits(Packed(0, 0, Decode(s)[63]), 2) == s[84..]
  {
    hide Digits;
    var tail := s[84..];
    DigitsOfFromDigits(tail);
    assert tail[1..] == [s[85]] && tail[1..][1..] == [];
    assert FromDigits(tail[1..]) == DigitValue(s[85]).value + 64 * FromDigits([]);
    assert FromDigits(tail) == DigitValue(s[84]).value + 64 * DigitValue(s[85]).value;
    DigitBack(s[84]);
    DecodedLastByte(s);
    assert Decode(s)[63] == FromDigits(tail);
  }

  /** Every text of the right shape is the encoding of its decoding, so the two are inverse bijections. */
  lemma EncodeDecode(s: Bytes)
    requires IsEncoded(s)
    ensures Encode(Decode(s)) == s
  {
    hide Groups, Digits, Decode, Packed;
    DecodedGroups(s, 21);
    TailDecoded(s);
    assert s == s[..84] + s[84..];
  }
}
