/**
 The password hash of "Unix crypt using SHA-256 and SHA-512" (Ulrich Drepper), over any hash function
 from byte strings to 64 bytes: the program's loops against the numbered steps of that document.
 */
module Sha512Crypt {
  import opened CryptBase64
  import opened Octets
  import opened Wrappers

  type Hash = Bytes -> Digest

  const DEFAULT_ROUNDS: nat := 5000

  // ---- The document's terms ----

  function Repeat(s: Bytes, n: nat): (r: Bytes)
    ensures |r| == n * |s|
  {
    if n == 0 then [] else Repeat(s, n - 1) + s
  }

  /** Steps 9-10, 16 and 20: the whole digest for every block of 64 bytes, then its first bytes. */
  function Blocks(d: Digest, n: nat): (r: Bytes)
    ensures |r| == n
  {
    Repeat(d, n / 64) + d[..n % 64]
  }

  /** The binary digits of `n`, lowest first, up to and including its highest 1-digit. */
  function Binary(n: nat): seq<bool> {
    if n == 0 then [] else [n % 2 == 1] + Binary(n / 2)
  }

  function BinaryValue(digits: seq<bool>): nat {
    if digits == [] then 0 else (if digits[0] then 1 else 0) + 2 * BinaryValue(digits[1..])
  }

  /** `Binary` is the one digit string of value `n` that does not end in a 0-digit. */
  lemma {:induction false} BinaryIff(n: nat, digits: seq<bool>)
    ensures digits == Binary(n) <==> BinaryValue(digits) == n && (digits == [] || digits[|digits| - 1])
  {
    if digits == [] {
    } else if |digits| == 1 {
      assert BinaryValue(digits[1..]) == 0;
      assert Binary(1) == [true] + Binary(0);
      assert digits == [digits[0]];
      if n > 1 {
        assert Binary(n / 2) != [];
      }
    } else {
      BinaryIff(n / 2, digits[1..]);
      assert digits == [digits[0]] + digits[1..];
      assert digits[|digits| - 1] == digits[1..][|digits| - 2];
    }
  }

  /** Step 11: the digest for each 1-digit, the password for each 0-digit. */
  function BitSteps(b: Digest, password: Bytes, digits: seq<bool>): Bytes {
    if digits == [] then []
    else (if digits[0] then b else password) + BitSteps(b, password, digits[1..])
  }

  /** Steps 4-8. */
  function DigestB(hash: Hash, password: Bytes, salt: Bytes): Digest {
    hash(password + salt + password)
  }

  /** Steps 1-12. */
  function DigestA(hash: Hash, password: Bytes, salt: Bytes): Digest {
    var b := DigestB(hash, password, salt);
    hash(password + salt + Blocks(b, |password|) + BitSteps(b, password, Binary(|password|)))
  }

  /** Steps 13-16. */
  function SequenceP(hash: Hash, password: Bytes): Bytes {
    Blocks(hash(Repeat(password, |password|)), |password|)
  }

  /** Steps 17-20. */
  function SequenceS(hash: Hash, salt: Bytes, a: Digest): Bytes {
    var extra: nat := a[0];
    Blocks(hash(Repeat(salt, 16 + extra)), |salt|)
  }

  /** What round `r` of step 21 absorbs after the digest `last`. */
  function RoundInput(last: Bytes, p: Bytes, s: Bytes, r: nat): Bytes {
    (if r % 2 == 1 then p else last)
    + (if r % 3 != 0 then s else [])
    + (if r % 7 != 0 then p else [])
    + (if r % 2 == 1 then last else p)
  }

  /** Step 21: the digest after `n` rounds. */
  function Rounds(hash: Hash, a: Digest, p: Bytes, s: Bytes, n: nat): Digest {
    if n == 0 then a else hash(RoundInput(Rounds(hash, a, p, s, n - 1), p, s, n - 1))
  }

  /** Steps 1-21. */
  function StandardDigest(hash: Hash, password: Bytes, salt: Bytes, rounds: nat): Digest {
    var a := DigestA(hash, password, salt);
    Rounds(hash, a, SequenceP(hash, password), SequenceS(hash, salt, a), rounds)
  }

  /** The digits are taken one after the other. */
  lemma {:induction false} BitStepsInOrder(b: Digest, password: Bytes, first: seq<bool>, rest: seq<bool>)
    ensures BitSteps(b, password, first + rest) == BitSteps(b, password, first) + BitSteps(b, password, rest)
    ensures BitSteps(b, password, [true]) == b && BitSteps(b, password, [false]) == password
  {
    assert [true][1..] == [] && [false][1..] == [];
    if first == [] {
      assert first + rest == rest;
    } else {
      assert (first + rest)[1..] == first[1..] + rest;
      BitStepsInOrder(b, password, first[1..], rest);
    }
  }

  /** The eight kinds of rounds. */
  lemma RoundKinds(last: Bytes, p: Bytes, s: Bytes, r: nat)
    ensures var input := RoundInput(last, p, s, r);
            && (r % 42 == 0 ==> input == last + p)
            && (r % 42 == 21 ==> input == p + last)
            && (r % 6 == 0 && r % 7 != 0 ==> input == last + p + p)
            && (r % 6 == 3 && r % 7 != 0 ==> input == p + p + last)
            && (r % 14 == 0 && r % 3 != 0 ==> input == last + s + p)
            && (r % 14 == 7 && r % 3 != 0 ==> input == p + s + last)
            && (r % 2 == 0 && r % 3 != 0 && r % 7 != 0 ==> input == last + s + p + p)
            && (r % 2 == 1 && r % 3 != 0 && r % 7 != 0 ==> input == p + s + p + last)
  {
    Divisors(r);
    var none: Bytes := [];
    assert last + none == last && p + none == p;
    assert last + s + none == last + s && p + s + none == p + s;
  }

  lemma Divisors(r: nat)
    ensures r % 42 == 0 <==> r % 2 == 0 && r % 3 == 0 && r % 7 == 0
    ensures r % 42 == 21 <==> r % 2 == 1 && r % 3 == 0 && r % 7 == 0
    ensures r % 6 == 0 <==> r % 2 == 0 && r % 3 == 0
    ensures r % 6 == 3 <==> r % 2 == 1 && r % 3 == 0
    ensures r % 14 == 0 <==> r % 2 == 0 && r % 7 == 0
    ensures r % 14 == 7 <==> r % 2 == 1 && r % 7 == 0
  {
    var q, m := r / 42, r % 42;
    assert r == 42 * q + m;
    Remainder(21 * q, m, 2);
    Remainder(14 * q, m, 3);
    Remainder(6 * q, m, 7);
    Remainder(7 * q, m, 6);
    Remainder(3 * q, m, 14);
    SmallDivisors(m);
  }

  lemma Remainder(k: nat, m: nat, d: nat)
    requires d in {2, 3, 6, 7, 14}
    ensures (d * k + m) % d == m % d
  {
  }

  lemma SmallDivisors(m: nat)
    requires m < 42
    ensures m == 0 <==> m % 2 == 0 && m % 3 == 0 && m % 7 == 0
    ensures m == 21 <==> m % 2 == 1 && m % 3 == 0 && m % 7 == 0
    ensures m % 6 == 0 <==> m % 2 == 0 && m % 3 == 0
    ensures m % 6 == 3 <==> m % 2 == 1 && m % 3 == 0
    ensures m % 14 == 0 <==> m % 2 == 0 && m % 7 == 0
    ensures m % 14 == 7 <==> m % 2 == 1 && m % 7 == 0
  {
  }

  /** Two rounds over a password of two bytes and a salt of one, written out. */
  lemma WorkedExample(hash: Hash, p: Byte, q: Byte, s: Byte)
    ensures
      var b := hash([p, q, s, p, q]);
      var a := hash([p, q, s] + b[..2] + [p, q] + b);
      var pSequence := hash([p, q, p, q])[..2];
      var extra: nat := a[0];
      var sSequence := hash(seq(16 + extra, _ => s))[..1];
      var first := hash(a + pSequence);
      StandardDigest(hash, [p, q], [s], 2) == hash(pSequence + sSequence + pSequence + first)
  {
    hide Blocks, BitSteps, Repeat, RoundInput;
    var pw, salt := [p, q], [s];
    var b := hash([p, q, s, p, q]);
    assert pw + salt + pw == [p, q, s, p, q];
    ShortBlocks(b, 2);
    TwoIsOneZero();
    BitStepsInOrder(b, pw, [false], [true]);
    assert [false] + [true] == [false, true];
    var a := DigestA(hash, pw, salt);
    assert pw + salt + b[..2] + (pw + b) == [p, q, s] + b[..2] + [p, q] + b;
    RepeatTwice(pw);
    assert pw + pw == [p, q, p, q];
    ShortBlocks(hash(pw + pw), 2);
    var extra: nat := a[0];
    RepeatByte(s, 16 + extra);
    ShortBlocks(hash(seq(16 + extra, _ => s)), 1);
    var pSequence, sSequence := SequenceP(hash, pw), SequenceS(hash, salt, a);
    RoundKinds(a, pSequence, sSequence, 0);
    RoundKinds(hash(a + pSequence), pSequence, sSequence, 1);
    TwoRounds(hash, a, pSequence, sSequence);
  }

  lemma TwoRounds(hash: Hash, a: Digest, p: Bytes, s: Bytes)
    ensures Rounds(hash, a, p, s, 2) == hash(RoundInput(hash(RoundInput(a, p, s, 0)), p, s, 1))
  {
    hide RoundInput;
    assert Rounds(hash, a, p, s, 1) == hash(RoundInput(Rounds(hash, a, p, s, 0), p, s, 0));
  }

  lemma ShortBlocks(d: Digest, n: nat)
    requires n < 64
    ensures Blocks(d, n) == d[..n]
  {
    assert Repeat(d, 0) == [];
  }

  lemma TwoIsOneZero()
    ensures Binary(2) == [false, true]
  {
    assert Binary(1) == [true] + Binary(0);
  }

  lemma RepeatTwice(s: Bytes)
    ensures Repeat(s, 2) == s + s
  {
    assert Repeat(s, 1) == Repeat(s, 0) + s;
  }

  lemma {:induction false} RepeatByte(s: Byte, n: nat)
    ensures Repeat([s], n) == seq(n, _ => s)
  {
    if n > 0 {
      RepeatByte(s, n - 1);
    }
  }

  const PREFIX: Bytes := [36, 54, 36]
  const DOLLAR: Byte := 36

  /** The salt string of a setting: it ends at the first `$`, and only its first 16 bytes count. */
  function SaltString(text: Bytes): (s: Bytes)
    ensures s <= text && |s| <= 16
  {
    UpToDollar(text, 16)
  }

  function UpToDollar(text: Bytes, limit: nat): (s: Bytes)
    ensures s <= text && |s| <= limit && DOLLAR !in s
    ensures s == text <==> |text| <= limit && DOLLAR !in text
  {
    if text == [] || text[0] == DOLLAR || limit == 0 then []
    else [text[0]] + UpToDollar(text[1..], limit - 1)
  }

  /** Step 22, for a setting that names no number of rounds. */
  function StandardText(hash: Hash, password: Bytes, setting: Bytes): Bytes {
    var salt := SaltString(setting);
    PREFIX + salt + [DOLLAR] + Encode(StandardDigest(hash, password, salt, DEFAULT_ROUNDS))
  }

  // ---- The program ----

  /** A hash context: it absorbs bytes and gives one digest of all of them. */
  class Sha512 {
    const hash: Hash
    var absorbed: Bytes

    constructor (hash: Hash)
      ensures this.hash == hash && absorbed == []
    {
      this.hash := hash;
      absorbed := [];
    }

    method Update(bytes: Bytes)
      modifies this
      ensures absorbed == old(absorbed) + bytes
    {
      absorbed := absorbed + bytes;
    }

    method Finalize() returns (digest: Digest)
      ensures digest == hash(absorbed)
    {
      digest := hash(absorbed);
    }
  }

  /** The sequence that both cycling loops compute. */
  function Cycle(d: Digest, n: nat): (r: Bytes)
    ensures |r| == n
  {
    seq(n, i requires 0 <= i < n => d[i % 64])
  }

  lemma CycleStep(d: Digest, n: nat)
    ensures n >= 64 ==> Cycle(d, n) == d + Cycle(d, n - 64)
    ensures n <= 64 ==> Cycle(d, n) == d[..n]
  {
    if n >= 64 {
      forall i | 0 <= i < n ensures Cycle(d, n)[i] == (d + Cycle(d, n - 64))[i] {
        if i >= 64 {
          assert (i - 64) % 64 == i % 64;
        }
      }
    }
  }

  lemma {:induction false} RepeatBefore(s: Bytes, n: nat)
    ensures Repeat(s, n + 1) == s + Repeat(s, n)
  {
    if n == 0 {
      assert Repeat(s, 1) == Repeat(s, 0) + s;
    } else {
      RepeatBefore(s, n - 1);
      assert s + (Repeat(s, n - 1) + s) == (s + Repeat(s, n - 1)) + s;
    }
  }

  /** The document's blocks are the cycle `i -> d[i % 64]`. */
  lemma {:induction false} BlocksAreCycle(d: Digest, n: nat)
    ensures Blocks(d, n) == Cycle(d, n)
  {
    hide Cycle;
    CycleStep(d, n);
    if n >= 64 {
      BlocksAreCycle(d, n - 64);
      assert (n - 64) / 64 == n / 64 - 1 && (n - 64) % 64 == n % 64;
      RepeatBefore(d, n / 64 - 1);
      assert Blocks(d, n) == (d + Repeat(d, n / 64 - 1)) + d[..n % 64];
      assert d + Blocks(d, n - 64) == (d + Repeat(d, n / 64 - 1)) + d[..n % 64];
    } else {
      assert Repeat(d, 0) == [];
    }
  }

  /** `update_repeated` */
  method UpdateRepeated(ctx: Sha512, d: Digest, len: nat)
    modifies ctx
    ensures ctx.absorbed == old(ctx.absorbed) + Cycle(d, len)
  {
    hide Cycle;
    var remaining: nat := len;
    while remaining > 64
      invariant ctx.absorbed + Cycle(d, remaining) == old(ctx.absorbed) + Cycle(d, len)
    {
      CycleStep(d, remaining);
      ctx.Update(d);
      remaining := remaining - 64;
    }
    CycleStep(d, remaining);
    if remaining > 0 {
      ctx.Update(d[..remaining]);
    }
  }

  /** `repeat_digest_to_len` */
  method RepeatDigestToLen(d: Digest, len: nat) returns (output: Bytes)
    ensures output == Cycle(d, len)
  {
    hide Cycle;
    output := [];
    while |output| < len
      invariant |output| <= len
      invariant output + Cycle(d, len - |output|) == Cycle(d, len)
    {
      var remaining := len - |output|;
      CycleStep(d, remaining);
      output := output + d[..if remaining < 64 then remaining else 64];
    }
  }

  /** The loop over the length's bits, lowest first, by halving. */
  method UpdateByLengthBits(ctx: Sha512, b: Digest, password: Bytes)
    modifies ctx
    ensures ctx.absorbed == old(ctx.absorbed) + BitSteps(b, password, Binary(|password|))
  {
    var count: nat := |password|;
    while count > 0
      invariant ctx.absorbed + BitSteps(b, password, Binary(count))
             == old(ctx.absorbed) + BitSteps(b, password, Binary(|password|))
    {
      FirstBit(b, password, count);
      if count % 2 == 1 {
        ctx.Update(b);
      } else {
        ctx.Update(password);
      }
      count := count / 2;
    }
    assert BitSteps(b, password, Binary(count)) == [];
  }

  lemma FirstBit(b: Digest, password: Bytes, n: nat)
    requires n > 0
    ensures BitSteps(b, password, Binary(n))
         == (if n % 2 == 1 then b else password) + BitSteps(b, password, Binary(n / 2))
  {
    assert Binary(n)[1..] == Binary(n / 2);
  }

  method UpdateTimes(ctx: Sha512, bytes: Bytes, times: nat)
    modifies ctx
    ensures ctx.absorbed == old(ctx.absorbed) + Repeat(bytes, times)
  {
    for k := 0 to times
      invariant ctx.absorbed == old(ctx.absorbed) + Repeat(bytes, k)
    {
      ctx.Update(bytes);
    }
  }

  /** The first digest: steps 1 to 12. */
  method FirstDigest(hash: Hash, password: Bytes, salt: Bytes) returns (digest: Digest)
    ensures digest == DigestA(hash, password, salt)
  {
    hide Cycle, Blocks, BitSteps, Binary;
    var ctx := new Sha512(hash);
    ctx.Update(password);
    ctx.Update(salt);
    var altCtx := new Sha512(hash);
    altCtx.Update(password);
    altCtx.Update(salt);
    altCtx.Update(password);
    assert altCtx.absorbed == password + salt + password;
    var alt := altCtx.Finalize();
    BlocksAreCycle(alt, |password|);
    UpdateRepeated(ctx, alt, |password|);
    UpdateByLengthBits(ctx, alt, password);
    assert ctx.absorbed
        == password + salt + Blocks(alt, |password|) + BitSteps(alt, password, Binary(|password|));
    digest := ctx.Finalize();
  }

  /** The sequence that steps 13 to 16 and 17 to 20 make: `bytes`, `times` over, hashed and cycled. */
  method CycledSequence(hash: Hash, bytes: Bytes, times: nat) returns (r: Bytes)
    ensures r == Blocks(hash(Repeat(bytes, times)), |bytes|)
  {
    hide Cycle, Blocks, Repeat;
    var ctx := new Sha512(hash);
    UpdateTimes(ctx, bytes, times);
    assert ctx.absorbed == Repeat(bytes, times);
    var digest := ctx.Finalize();
    BlocksAreCycle(digest, |bytes|);
    r := RepeatDigestToLen(digest, |bytes|);
  }

  /** One round of step 21. */
  method Round(hash: Hash, digest: Digest, p: Bytes, s: Bytes, round: nat) returns (next: Digest)
    ensures next == hash(RoundInput(digest, p, s, round))
  {
    var ctx := new Sha512(hash);
    if round % 2 == 0 {
      ctx.Update(digest);
    } else {
      ctx.Update(p);
    }
    ghost var first := ctx.absorbed;
    assert first == if round % 2 == 1 then p else digest;
    if round % 3 != 0 {
      ctx.Update(s);
    }
    ghost var second := first + if round % 3 != 0 then s else [];
    assert ctx.absorbed == second;
    if round % 7 != 0 {
      ctx.Update(p);
    }
    ghost var third := second + if round % 7 != 0 then p else [];
    assert ctx.absorbed == third;
    if round % 2 == 0 {
      ctx.Update(p);
    } else {
      ctx.Update(digest);
    }
    next := ctx.Finalize();
  }

  /** `sha512_crypt` */
  method Sha512Crypt(hash: Hash, password: Bytes, salt: Bytes, rounds: nat) returns (text: Bytes)
    ensures text == PREFIX + salt + [DOLLAR] + Encode(StandardDigest(hash, password, salt, rounds))
  {
    hide Encode, DigestA, Blocks, Repeat, Rounds, RoundInput;
    var digest := FirstDigest(hash, password, salt);
    ghost var a := digest;
    var p := CycledSequence(hash, password, |password|);
    var extra: nat := digest[0];
    var s := CycledSequence(hash, salt, 16 + extra);
    NoRounds(hash, digest, p, s);
    for round := 0 to rounds
      invariant digest == Rounds(hash, a, p, s, round)
    {
      RoundsStep(hash, a, p, s, round);
      digest := Round(hash, digest, p, s, round);
    }
    var encoded := Sha512CryptEncode(digest);
    text := PREFIX + salt + [DOLLAR] + encoded;
  }

  lemma RoundsStep(hash: Hash, a: Digest, p: Bytes, s: Bytes, n: nat)
    ensures Rounds(hash, a, p, s, n + 1) == hash(RoundInput(Rounds(hash, a, p, s, n), p, s, n))
  {
  }

  lemma NoRounds(hash: Hash, a: Digest, p: Bytes, s: Bytes)
    ensures Rounds(hash, a, p, s, 0) == a
  {
  }

  // ---- When the text is the standard one ----

  function ProgramText(hash: Hash, password: Bytes, salt: Bytes): Bytes {
    PREFIX + salt + [DOLLAR] + Encode(StandardDigest(hash, password, salt, DEFAULT_ROUNDS))
  }

  /** The program neither shortens a salt nor stops at a `$`, so it agrees with the standard exactly on these. */
  lemma StandardIff(hash: Hash, password: Bytes, salt: Bytes)
    ensures ProgramText(hash, password, salt) == StandardText(hash, password, salt)
       <==> |salt| <= 16 && DOLLAR !in salt
  {
    hide Encode, StandardDigest;
    var short := SaltString(salt);
    assert |ProgramText(hash, password, salt)| == 3 + |salt| + 1 + 86;
    assert |StandardText(hash, password, salt)| == 3 + |short| + 1 + 86;
    assert short == salt <==> |short| == |salt|;
  }

  /** A verifier that reads the stored text back finds the salt and the digest that were put there. */
  lemma TextReadsBack(hash: Hash, password: Bytes, salt: Bytes)
    requires |salt| <= 16 && DOLLAR !in salt
    ensures var text := ProgramText(hash, password, salt);
            && |text| == |salt| + 90 && SaltString(text[3..]) == salt
            && IsEncoded(text[|salt| + 4..])
            && Decode(text[|salt| + 4..]) == StandardDigest(hash, password, salt, DEFAULT_ROUNDS)
  {
    hide Encode, StandardDigest, IsEncoded, Decode;
    var d := StandardDigest(hash, password, salt, DEFAULT_ROUNDS);
    var text := ProgramText(hash, password, salt);
    assert text[|salt| + 4..] == Encode(d);
    DecodeEncode(d);
    assert text[3..] == salt + ([DOLLAR] + Encode(d));
    StopsAtDollar(salt, Encode(d), 16);
  }

  lemma {:induction false} StopsAtDollar(salt: Bytes, rest: Bytes, limit: nat)
    requires |salt| <= limit && DOLLAR !in salt
    ensures UpToDollar(salt + ([DOLLAR] + rest), limit) == salt
  {
    var text := salt + ([DOLLAR] + rest);
    if salt == [] {
      assert text[0] == DOLLAR;
    } else {
      assert text[1..] == salt[1..] + ([DOLLAR] + rest);
      StopsAtDollar(salt[1..], rest, limit - 1);
    }
  }

  /** `generate_shadow_salt`, over the 16 random bytes that it reads. */
  method GenerateShadowSalt(random: Bytes) returns (salt: Bytes)
    requires |random| == 16
    ensures |salt| == 16 && DOLLAR !in salt
    ensures forall i :: 0 <= i < 16 ==> DigitValue(salt[i]) == Some(random[i] % 64)
  {
    salt := [];
    for i := 0 to 16
      invariant |salt| == i && DOLLAR !in salt
      invariant forall k :: 0 <= k < i ==> DigitValue(salt[k]) == Some(random[k] % 64)
    {
      salt := salt + [DigitByte(random[i] % 64)];
    }
  }

  /** The hash that a password change stores: always the standard one. */
  method PasswordHash(hash: Hash, password: Bytes, random: Bytes) returns (salt: Bytes, text: Bytes)
    requires |random| == 16
    ensures |salt| == 16 && text == StandardText(hash, password, salt)
  {
    hide StandardText, Encode, StandardDigest;
    salt := GenerateShadowSalt(random);
    text := Sha512Crypt(hash, password, salt, DEFAULT_ROUNDS);
    StandardIff(hash, password, salt);
  }
}
