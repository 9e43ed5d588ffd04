/**
 The fixed address of a container: a hash of its name inside the bridge's subnet, and the gateway that
 the container and the bridge must agree on although two programs read the subnet text.
 */
module Addresses {
  import opened Octets
  import opened Text
  import opened Wrappers

  type Ipv4 = a: Bytes | |a| == 4 witness [0, 0, 0, 0]

  datatype Cidr = Cidr(base: Ipv4, prefix: nat)
  datatype Settings = Settings(address: Ipv4, gateway: Ipv4, prefix: nat)

  // ---- The name hash ----

  /** The bytes of a container's name, as words for the hash. */
  type Name = seq<bv8>

  /** 32-bit FNV-1a. */
  function Fnv(name: Name): bv32 {
    if name == [] then 2166136261 else FnvStep(Fnv(name[..|name| - 1]), name[|name| - 1])
  }

  function FnvStep(hash: bv32, b: bv8): bv32 {
    Times(Mix(hash, b as bv32))
  }

  function Mix(hash: bv32, b: bv32): bv32 {
    hash ^ b
  }

  /** `wrapping_mul` by the FNV prime. */
  function Times(x: bv32): bv32 {
    x * 16777619
  }

  method StableNameHash(name: Name) returns (hash: bv32)
    ensures hash == Fnv(name)
  {
    hash := 2166136261;
    for i := 0 to |name|
      invariant hash == Fnv(name[..i])
    {
      assert name[..i + 1][..i] == name[..i];
      hash := FnvStep(hash, name[i]);
    }
    assert name[..|name|] == name;
  }

  /** The multiplier is odd, so it has an inverse and a step loses nothing. */
  lemma StepCancels(g: bv32, h: bv32, b: bv8)
    ensures FnvStep(g, b) == FnvStep(h, b) <==> g == h
  {
    hide Times, Mix;
    var m := b as bv32;
    TimesCancels(Mix(g, m), Mix(h, m));
    MixBack(g, m);
    MixBack(h, m);
  }

  lemma TimesCancels(x: bv32, y: bv32)
    ensures Times(x) == Times(y) <==> x == y
  {
    hide Times, Back;
    TimesBack(x);
    TimesBack(y);
  }

  function Back(x: bv32): bv32 {
    x * 899433627
  }

  lemma TimesBack(x: bv32)
    ensures Back(Times(x)) == x
  {
    hide Back;
    ProductBack(x);
  }

  lemma ProductBack(x: bv32)
    ensures Back(x * 16777619) == x
  {
    hide Times;
  }

  lemma MixBack(x: bv32, m: bv32)
    ensures Mix(Mix(x, m), m) == x
  {
  }

  /** A common ending neither makes nor hides a collision. */
  lemma {:induction false} SuffixCancels(x: Name, y: Name, suffix: Name)
    ensures Fnv(x + suffix) == Fnv(y + suffix) <==> Fnv(x) == Fnv(y)
    decreases |suffix|
  {
    hide FnvStep;
    if suffix == [] {
      assert x + suffix == x && y + suffix == y;
    } else {
      var n := |suffix| - 1;
      assert (x + suffix)[..|x + suffix| - 1] == x + suffix[..n];
      assert (y + suffix)[..|y + suffix| - 1] == y + suffix[..n];
      SuffixCancels(x, y, suffix[..n]);
      StepCancels(Fnv(x + suffix[..n]), Fnv(y + suffix[..n]), suffix[n]);
    }
  }

  /** Two names that differ in one byte only never share a hash. */
  lemma OneByteApart(prefix: Name, b: bv8, c: bv8, suffix: Name)
    ensures Fnv(prefix + [b] + suffix) == Fnv(prefix + [c] + suffix) <==> b == c
  {
    hide Times, Mix;
    var h, m, n := Fnv(prefix), b as bv32, c as bv32;
    SuffixCancels(prefix + [b], prefix + [c], suffix);
    assert (prefix + [b])[..|prefix|] == prefix && (prefix + [c])[..|prefix|] == prefix;
    TimesCancels(Mix(h, m), Mix(h, n));
    MixCommutes(h, m);
    MixCommutes(h, n);
    MixBack(m, h);
    MixBack(n, h);
    Widened(b, c);
  }

  lemma MixCommutes(x: bv32, y: bv32)
    ensures Mix(x, y) == Mix(y, x)
  {
  }

  lemma Widened(b: bv8, c: bv8)
    ensures b as bv32 == c as bv32 <==> b == c
  {
  }

  // ---- Addresses ----

  /** `container_network_settings`, once the subnet is parsed. */
  method ContainerNetworkSettings(subnet: string, name: Name) returns (r: Settings)
    ensures r == SettingsOf(subnet, name)
  {
    hide Fnv;
    var cidr := SubnetOrDefault(subnet);
    var octets := new Byte[4](i requires 0 <= i < 4 => cidr.base[i]);
    octets[3] := 1;
    var gateway: Ipv4 := octets[..];
    var fnv := StableNameHash(name);
    var hash := fnv as nat;
    var address := new Byte[4](i requires 0 <= i < 4 reads octets => octets[i]);
    assert address[..] == gateway;
    address[2] := hash / 253 % 253 + 1;
    address[3] := hash % 253 + 2;
    assert address[..] == AddressAt(cidr.base, hash);
    AvoidGateway(address, gateway);
    assert address[..] == AddressAt(cidr.base, hash);
    assert gateway == cidr.base[3 := 1];
    r := Settings(address[..], gateway, cidr.prefix);
  }

  /** The correction of an address that hits the gateway; no hash needs it. */
  method AvoidGateway(address: array<Byte>, gateway: Ipv4)
    requires address.Length == 4
    modifies address
    ensures address[..] == if old(address[..]) == gateway then gateway[3 := 2] else old(address[..])
  {
    if address[..] == gateway {
      address[3] := 2;
    }
  }

  /** The address at a hash: two octets of the base and the hash's two lowest digits in base 253. */
  function AddressAt(base: Ipv4, hash: nat): Ipv4 {
    [base[0], base[1], hash / 253 % 253 + 1, hash % 253 + 2]
  }

  /** Addresses are counted up from the second octet pair `1.2`, the last octet first, from 2 to 254. */
  lemma AddressesCount(base: Ipv4, hash: nat)
    ensures AddressAt(base, 0) == [base[0], base[1], 1, 2]
    ensures var a, b := AddressAt(base, hash), AddressAt(base, hash + 1);
            if a[3] < 254 then b == a[3 := a[3] + 1]
            else b == a[3 := 2][2 := if a[2] < 253 then a[2] + 1 else 1]
  {
    var q, r := hash / 253, hash % 253;
    if r < 252 {
      QuotientOf(q, r + 1);
    } else {
      QuotientOf(q + 1, 0);
      QuotientOf(q / 253, q % 253);
      if q % 253 < 252 {
        QuotientOf(q / 253, q % 253 + 1);
      } else {
        QuotientOf(q / 253 + 1, 0);
      }
    }
  }

  lemma QuotientOf(q: nat, r: nat)
    requires r < 253
    ensures (253 * q + r) / 253 == q && (253 * q + r) % 253 == r
  {
  }

  function SettingsOf(subnet: string, name: Name): Settings {
    var cidr := SubnetOrDefault(subnet);
    Settings(AddressAt(cidr.base, Fnv(name) as nat), cidr.base[3 := 1], cidr.prefix)
  }

  lemma TwoDigits(h: nat)
    ensures h % 64009 == 253 * (h / 253 % 253) + h % 253
  {
    var q, r := h / 253, h % 253;
    var q1, r1 := q / 253, q % 253;
    assert h == 64009 * q1 + 253 * r1 + r;
  }

  /** Within one subnet, two names get the same address exactly if their hashes agree modulo 253 * 253. */
  lemma CollisionIff(subnet: string, x: Name, y: Name)
    ensures SettingsOf(subnet, x).address == SettingsOf(subnet, y).address
       <==> Fnv(x) as nat % 64009 == Fnv(y) as nat % 64009
  {
    hide Fnv, SubnetOrDefault;
    var g, h := Fnv(x) as nat, Fnv(y) as nat;
    TwoDigits(g);
    TwoDigits(h);
    var a, b := SettingsOf(subnet, x).address, SettingsOf(subnet, y).address;
    assert a == b <==> a[2] == b[2] && a[3] == b[3];
  }

  // ---- Subnets ----

  /** How many values the host bits of octet `i` take under a prefix of `p` bits. */
  function HostValues(p: nat, i: nat): (v: nat)
    ensures 0 < v <= 256
  {
    if p <= 8 * i then 256
    else
      match p - 8 * i
      case 1 => 128
      case 2 => 64
      case 3 => 32
      case 4 => 16
      case 5 => 8
      case 6 => 4
      case 7 => 2
      case _ => 1
  }

  predicate InSubnet(a: Ipv4, cidr: Cidr) {
    forall i :: 0 <= i < 4 ==> a[i] / HostValues(cidr.prefix, i) == cidr.base[i] / HostValues(cidr.prefix, i)
  }

  /** All host bits zero. */
  predicate IsNetwork(a: Ipv4, p: nat) {
    forall i :: 0 <= i < 4 ==> a[i] % HostValues(p, i) == 0
  }

  /** All host bits one. */
  predicate IsBroadcast(a: Ipv4, p: nat) {
    forall i :: 0 <= i < 4 ==> a[i] % HostValues(p, i) == HostValues(p, i) - 1
  }

  /** Each bit of the prefix halves the values of the octet that it is in. */
  lemma HostValuesHalve(p: nat, i: nat)
    ensures p <= 8 * i ==> HostValues(p, i) == 256
    ensures 8 * i <= p < 8 * i + 8 ==> HostValues(p, i) == 2 * HostValues(p + 1, i)
    ensures p >= 8 * i + 8 ==> HostValues(p, i) == 1
  {
  }

  /** The ends: a prefix of 32 bits leaves one address, and one of 0 bits all. */
  lemma SubnetEnds(a: Ipv4, b: Ipv4)
    ensures InSubnet(a, Cidr(b, 32)) <==> a == b
    ensures InSubnet(a, Cidr(b, 0))
    ensures IsNetwork(a, 0) <==> a == [0, 0, 0, 0]
    ensures IsBroadcast(a, 0) <==> a == [255, 255, 255, 255]
  {
    forall i | 0 <= i < 4 ensures HostValues(32, i) == 1 && HostValues(0, i) == 256 {
    }
    forall i | 0 <= i < 4 ensures a[i] % 256 == a[i] && a[i] / 256 == b[i] / 256 == 0 {
      var x: nat, y: nat := a[i], b[i];
      assert x < 256 && y < 256;
    }
    if IsNetwork(a, 0) {
      assert a[0] % 256 == a[1] % 256 == a[2] % 256 == a[3] % 256 == 0;
    }
    if IsBroadcast(a, 0) {
      assert a[0] % 256 == a[1] % 256 == a[2] % 256 == a[3] % 256 == 255;
    }
    if InSubnet(a, Cidr(b, 32)) {
      forall i | 0 <= i < 4 ensures a[i] == b[i] {
        assert a[i] / HostValues(32, i) == b[i] / HostValues(32, i);
      }
    }
  }

  /** Usable for a host on the subnet, besides the gateway. */
  predicate IsHostAddress(a: Ipv4, cidr: Cidr) {
    InSubnet(a, cidr) && !IsNetwork(a, cidr.prefix) && !IsBroadcast(a, cidr.prefix)
  }

  /** Up to a prefix of 16 bits, every name gets a usable address that is not the gateway's, itself usable. */
  lemma AddressUsable(subnet: string, name: Name)
    ensures var s, cidr := SettingsOf(subnet, name), SubnetOrDefault(subnet);
            && s.address != s.gateway
            && (cidr.prefix <= 16 ==> IsHostAddress(s.address, cidr) && IsHostAddress(s.gateway, cidr))
  {
    hide Fnv, SubnetOrDefault, HostValues;
    var s, cidr := SettingsOf(subnet, name), SubnetOrDefault(subnet);
    assert s.address[3] > 1 && s.gateway[3] == 1;
    if cidr.prefix <= 16 {
      WholeOctet(cidr.prefix, 2);
      WholeOctet(cidr.prefix, 3);
      assert s.address[3] % 256 == s.address[3] && s.gateway[3] % 256 == 1;
      assert s.address[2] / 256 == cidr.base[2] / 256 == 0;
      assert s.address[3] / 256 == cidr.base[3] / 256 == 0;
    }
  }

  lemma WholeOctet(p: nat, i: nat)
    requires p <= 8 * i
    ensures HostValues(p, i) == 256
  {
  }

  /** That all hashes give an address in the subnet is true exactly up to a prefix of 16 bits. */
  lemma InSubnetIff(cidr: Cidr)
    ensures (forall h: nat | h < 0x1_0000_0000 :: InSubnet(AddressAt(cidr.base, h), cidr)) <==> cidr.prefix <= 16
  {
    var p := cidr.prefix;
    if p > 16 {
      var h := if cidr.base[2] < 128 then 252 * 253 else 0;
      var a := AddressAt(cidr.base, h);
      assert h / 253 % 253 + 1 == if cidr.base[2] < 128 then 253 else 1;
      TopBitCounts(p, a[2], cidr.base[2]);
      assert !InSubnet(a, cidr);
    } else {
      forall h: nat | h < 0x1_0000_0000 ensures InSubnet(AddressAt(cidr.base, h), cidr) {
        WholeOctet(p, 2);
        WholeOctet(p, 3);
        Octets256(AddressAt(cidr.base, h), cidr.base);
      }
    }
  }

  lemma Octets256(a: Ipv4, b: Ipv4)
    ensures forall i :: 0 <= i < 4 ==> a[i] / 256 == b[i] / 256
  {
  }

  lemma TopBitCounts(p: nat, x: Byte, y: Byte)
    requires p > 16 && (x < 128 <==> y >= 128)
    ensures x / HostValues(p, 2) != y / HostValues(p, 2)
  {
  }

  /** From 24 bits on, a base whose third octet no hash can give leaves every container outside its subnet. */
  lemma NeverInSubnet(subnet: string, name: Name)
    requires var cidr := SubnetOrDefault(subnet); cidr.prefix >= 24 && (cidr.base[2] == 0 || cidr.base[2] > 253)
    ensures !InSubnet(SettingsOf(subnet, name).address, SubnetOrDefault(subnet))
  {
    hide Fnv, SubnetOrDefault;
    var s, cidr := SettingsOf(subnet, name), SubnetOrDefault(subnet);
    assert HostValues(cidr.prefix, 2) == 1;
    assert s.address[2] / 1 != cidr.base[2] / 1;
  }

  // ---- The two readers of the subnet text ----

  predicate AllDigits(s: string) {
    forall c :: c in s ==> IsDigit(c)
  }

  /** `str::parse::<u8>`: an optional plus sign, then digits, as many as there are. */
  function ParseU8(s: string): Option<Byte> {
    var digits := if s != "" && s[0] == '+' then s[1..] else s;
    if digits != "" && AllDigits(digits) && Value(digits) < 256 then Some(Value(digits)) else None
  }

  /** An octet as `Ipv4Addr` reads it: one to three digits, no sign and no leading zero. */
  predicate IsPlainOctet(s: string) {
    1 <= |s| <= 3 && AllDigits(s) && (|s| > 1 ==> s[0] != '0') && Value(s) < 256
  }

  /** Plain octets are the decimals of the numbers up to 255, and nothing else. */
  lemma PlainIffDecimal(s: string)
    ensures IsPlainOctet(s) <==> exists n: nat :: n < 256 && s == Decimal(n)
  {
    if IsPlainOctet(s) {
      DecimalOfValue(s);
      assert s == Decimal(Value(s));
    }
    if n: nat :| n < 256 && s == Decimal(n) {
      DecimalHead(n);
      ValueOfDecimal(n);
      assert Decimal(n / 10 / 10) == [Digit(n / 10 / 10)];
    }
  }

  lemma {:induction false} DecimalOfValue(s: string)
    requires s != "" && AllDigits(s) && (|s| > 1 ==> s[0] != '0')
    ensures Decimal(Value(s)) == s && (s[0] != '0' ==> Value(s) > 0)
  {
    hide Decimal, Value;
    var n := |s| - 1;
    assert s[n] in s && IsDigit(s[n]);
    LastDigit(s);
    if n > 0 {
      assert s[..n][0] == s[0];
      DecimalOfValue(s[..n]);
      DecimalStep(Value(s[..n]), s[n]);
      assert s == s[..n] + [s[n]];
    } else {
      DecimalStep(0, s[n]);
      assert s == [s[0]];
    }
  }

  lemma LastDigit(s: string)
    requires s != "" && AllDigits(s)
    ensures var n := |s| - 1;
            IsDigit(s[n]) && Value(s) == (if n == 0 then 0 else 10 * Value(s[..n])) + (s[n] as int - '0' as int)
  {
    assert s[|s| - 1] in s;
    if |s| == 1 {
      assert s[..0] == "";
    }
  }

  lemma DecimalStep(m: nat, c: char)
    requires IsDigit(c)
    ensures var d := c as int - '0' as int;
            Decimal(10 * m + d) == (if m == 0 then "" else Decimal(m)) + [c]
  {
    var d := c as int - '0' as int;
    assert Digit(d) == c;
    assert (10 * m + d) / 10 == m && (10 * m + d) % 10 == d;
  }

  lemma {:induction false} DecimalHead(n: nat)
    ensures Decimal(n)[0] == '0' <==> n == 0
  {
    if n >= 10 {
      DecimalHead(n / 10);
    }
  }

  function Zeros(k: nat): string {
    if k == 0 then "" else "0" + Zeros(k - 1)
  }

  /** `u8::from_str` reads more: a plus sign and leading zeros. */
  lemma U8Reads(sign: string, zeros: nat, n: nat)
    requires sign == "" || sign == "+"
    ensures ParseU8(sign + (Zeros(zeros) + Decimal(n))) == if n < 256 then Some(n) else None
  {
    hide Decimal, Value;
    var digits := Zeros(zeros) + Decimal(n);
    ZerosAreDigits(zeros, Decimal(n));
    ValueBehindZeros(zeros, Decimal(n));
    ValueOfDecimal(n);
    assert digits[0] in digits;
    if sign == "+" {
      assert (sign + digits)[1..] == digits;
    } else {
      assert sign + digits == digits;
    }
  }

  lemma {:induction false} ZerosAreDigits(k: nat, s: string)
    requires AllDigits(s) && s != ""
    ensures AllDigits(Zeros(k) + s) && Zeros(k) + s != ""
  {
    if k > 0 {
      ZerosAreDigits(k - 1, s);
      assert Zeros(k) + s == "0" + (Zeros(k - 1) + s);
    } else {
      assert Zeros(0) + s == s;
    }
  }

  lemma {:induction false} ValueBehindZeros(k: nat, s: string)
    requires AllDigits(s) && s != "" && AllDigits(Zeros(k) + s)
    ensures Value(Zeros(k) + s) == Value(s)
  {
    if k > 0 {
      ZerosAreDigits(k - 1, s);
      ValueBehindZeros(k - 1, s);
      ValueBehindZero(Zeros(k - 1) + s);
      assert Zeros(k) + s == "0" + (Zeros(k - 1) + s);
    } else {
      assert Zeros(0) + s == s;
    }
  }

  lemma {:induction false} ValueBehindZero(s: string)
    requires AllDigits(s) && AllDigits("0" + s)
    ensures Value("0" + s) == Value(s)
  {
    if s == "" {
      assert ("0" + s)[..0] == "" && "0" + s == "0";
    } else {
      var n := |s| - 1;
      assert ("0" + s)[..n + 1] == "0" + s[..n];
      ValueBehindZero(s[..n]);
    }
  }

  /** And nothing without a digit, or with anything but digits behind the first character. */
  lemma U8Refuses(s: string)
    requires s == "" || s == "+" || (exists i :: 0 < i < |s| && !IsDigit(s[i])) || (s[0] != '+' && !IsDigit(s[0]))
    ensures ParseU8(s).None?
  {
    var digits := if s != "" && s[0] == '+' then s[1..] else s;
    if i :| 0 < i < |s| && !IsDigit(s[i]) {
      assert s[i] in digits by {
        assert s[0] == '+' ==> digits[i - 1] == s[i];
      }
    } else if s != "" && s[0] != '+' {
      assert s[0] in digits;
    }
  }

  function DigitRun(s: string): (r: string)
    ensures r <= s && AllDigits(r)
    ensures |r| < |s| ==> !IsDigit(s[|r|])
  {
    if s == "" || !IsDigit(s[0]) then "" else [s[0]] + DigitRun(s[1..])
  }

  /** One octet of the strict parser, and the rest of the text. */
  function ReadOctet(s: string): Option<(Byte, string)> {
    var run := DigitRun(s);
    if IsPlainOctet(run) then Some((Value(run), s[|run|..])) else None
  }

  /** `Ipv4Addr::from_str`: `count` octets with a dot between them, and nothing after. */
  function ReadOctets(s: string, count: nat): Option<Bytes>
    requires count > 0
  {
    match ReadOctet(s)
    case None => None
    case Some((octet, rest)) =>
      if count == 1 then
        if rest == "" then Some([octet]) else None
      else if rest == "" || rest[0] != '.' then None
      else
        match ReadOctets(rest[1..], count - 1)
        case None => None
        case Some(octets) => Some([octet] + octets)
  }

  lemma {:induction false} OctetCount(s: string, count: nat)
    requires count > 0
    ensures var r := ReadOctets(s, count); r.Some? ==> |r.value| == count
  {
    var r := ReadOctet(s);
    if count > 1 && r.Some? && r.value.1 != "" {
      OctetCount(r.value.1[1..], count - 1);
    }
  }

  /** `parse_ipv4_cidr` */
  function ParseIpv4Cidr(text: string): (r: Option<Cidr>)
    ensures r.Some? ==> r.value.prefix <= 32
  {
    match SplitOnce(text, '/')
    case None => None
    case Some((addr, prefix)) =>
      match (ReadOctets(addr, 4), ParseU8(prefix))
      case (Some(base), Some(p)) =>
        OctetCount(addr, 4);
        if p <= 32 then Some(Cidr(base, p)) else None
      case _ => None
  }

  function SubnetOrDefault(text: string): Cidr {
    match ParseIpv4Cidr(text)
    case Some(cidr) => cidr
    case None => Cidr([172, 32, 0, 0], 16)
  }

  /** A subnet that cannot be read stands for 172.32.0.0/16. */
  lemma DefaultNetwork(subnet: string, name: Name)
    requires ParseIpv4Cidr(subnet).None?
    ensures var s := SettingsOf(subnet, name);
            s.gateway == [172, 32, 0, 1] && s.prefix == 16 && s.address[..2] == [172, 32]
    ensures '/' !in subnet ==> ParseIpv4Cidr(subnet).None?
  {
    hide Fnv;
  }

  /** The octets of `bridge_gateway_cidr`, in the loop's order: the first part that fails ends it. */
  function ParseParts(parts: seq<string>): Option<Bytes> {
    if parts == [] then Some([])
    else
      match (ParseU8(parts[0]), ParseParts(parts[1..]))
      case (Some(octet), Some(octets)) => Some([octet] + octets)
      case _ => None
  }

  lemma {:induction false} PartCount(parts: seq<string>)
    ensures var r := ParseParts(parts); r.Some? ==> |r.value| == |parts|
  {
    if parts != [] {
      PartCount(parts[1..]);
    }
  }

  function ShowOctets(a: Ipv4): string {
    Decimal(a[0]) + "." + Decimal(a[1]) + "." + Decimal(a[2]) + "." + Decimal(a[3])
  }

  /** The gateway that the bridge gets, and the prefix text that is copied behind it. */
  function BridgeGateway(subnet: string): Option<(Ipv4, string)> {
    match SplitOnce(subnet, '/')
    case None => None
    case Some((addr, prefix)) =>
      var parts := Split(addr, '.');
      if |parts| != 4 || ParseU8(prefix).None? || ParseU8(prefix).value > 32 then None
      else
        PartCount(parts);
        match ParseParts(parts)
        case None => None
        case Some(octets) => Some((octets[3 := 1], prefix))
  }

  /** `bridge_gateway_cidr`: one part after the other into the four octets. */
  method BridgeGatewayCidr(subnet: string) returns (r: Option<string>)
    ensures r == match BridgeGateway(subnet)
                 case None => None
                 case Some((gateway, prefix)) => Some(ShowOctets(gateway) + "/" + prefix)
  {
    hide ParseU8, Split, SplitOnce, ShowOctets, Value, Decimal;
    var split := SplitOnce(subnet, '/');
    if split.None? {
      return None;
    }
    var (addr, prefix) := split.value;
    var octets := new Byte[4](_ => 0);
    var parts := Split(addr, '.');
    if |parts| != 4 || ParseU8(prefix).None? || ParseU8(prefix).value > 32 {
      return None;
    }
    PartCount(parts);
    for index := 0 to 4
      invariant ParseParts(parts).Some? <==> ParseParts(parts[index..]).Some?
      invariant ParseParts(parts).Some? ==>
                  ParseParts(parts).value == octets[..index] + ParseParts(parts[index..]).value
    {
      assert parts[index..][1..] == parts[index + 1..];
      var octet := ParseU8(parts[index]);
      if octet.None? {
        return None;
      }
      octets[index] := octet.value;
    }
    assert parts[4..] == [];
    octets[3] := 1;
    assert octets[..] == ParseParts(parts).value[3 := 1];
    r := Some(ShowOctets(octets[..]) + "/" + prefix);
  }

  // ---- Their agreement ----

  predicate AllPlain(parts: seq<string>) {
    forall i :: 0 <= i < |parts| ==> IsPlainOctet(parts[i])
  }

  lemma PlainIsU8(s: string)
    requires IsPlainOctet(s)
    ensures ParseU8(s) == Some(Value(s))
  {
    assert IsDigit(s[0]);
  }

  /** The digit run before a dot is the first part. */
  lemma {:induction false} RunOfPart(part: string, rest: string)
    requires AllDigits(part) && (rest == "" || !IsDigit(rest[0]))
    ensures DigitRun(part + rest) == part
  {
    if part == "" {
      assert part + rest == rest;
    } else {
      assert IsDigit(part[0]);
      assert (part + rest)[1..] == part[1..] + rest;
      RunOfPart(part[1..], rest);
      assert part == [part[0]] + part[1..];
    }
  }

  lemma {:induction false} RunStopsEarly(part: string, rest: string)
    requires !AllDigits(part)
    ensures |DigitRun(part + rest)| < |part|
  {
    if IsDigit(part[0]) {
      assert (part + rest)[1..] == part[1..] + rest;
      RunStopsEarly(part[1..], rest);
    }
  }

  /** The strict parser accepts exactly the texts of `count` plain parts, and reads what `parse::<u8>` reads. */
  lemma {:induction false} StrictIffPlain(s: string, count: nat)
    requires count > 0
    ensures ReadOctets(s, count).Some? <==> |Split(s, '.')| == count && AllPlain(Split(s, '.'))
    ensures ReadOctets(s, count).Some? ==> ReadOctets(s, count) == ParseParts(Split(s, '.'))
    decreases count
  {
    hide ParseU8, IsPlainOctet, DigitRun;
    match SplitOnce(s, '.')
    case None =>
      LastPart(s, count);
      OnePart(s);
    case Some((before, after)) =>
      FirstPart(s, before, after);
      AllPlainSplit(Split(s, '.'));
      if count > 1 && IsPlainOctet(before) {
        StrictIffPlain(after, count - 1);
        PlainIsU8(before);
        NextOctets(s, before, after, count);
      }
  }

  lemma NextOctets(s: string, before: string, after: string, count: nat)
    requires count > 1 && SplitOnce(s, '.') == Some((before, after)) && IsPlainOctet(before)
    ensures ReadOctets(s, count) == match ReadOctets(after, count - 1)
                                    case None => None
                                    case Some(octets) => Some([Value(before)] + octets)
  {
    hide IsPlainOctet, ReadOctet;
    FirstPart(s, before, after);
    assert ("." + after)[1..] == after;
  }

  lemma OnePart(s: string)
    ensures AllPlain([s]) <==> IsPlainOctet(s)
  {
    assert [s][0] == s;
  }

  lemma AllPlainSplit(parts: seq<string>)
    requires parts != []
    ensures AllPlain(parts) <==> IsPlainOctet(parts[0]) && AllPlain(parts[1..])
  {
    hide IsPlainOctet;
    if IsPlainOctet(parts[0]) && AllPlain(parts[1..]) {
      forall i | 0 <= i < |parts| ensures IsPlainOctet(parts[i]) {
        if i > 0 {
          assert parts[i] == parts[1..][i - 1];
        }
      }
    }
    if AllPlain(parts) {
      forall i | 0 <= i < |parts[1..]| ensures IsPlainOctet(parts[1..][i]) {
        assert parts[1..][i] == parts[i + 1];
      }
    }
  }

  lemma FirstPart(s: string, before: string, after: string)
    requires SplitOnce(s, '.') == Some((before, after))
    ensures ReadOctet(s).Some? && ReadOctet(s).value.1 != "" && ReadOctet(s).value.1[0] == '.' <==> IsPlainOctet(before)
    ensures IsPlainOctet(before) ==> ReadOctet(s) == Some((Value(before), "." + after))
    ensures ReadOctet(s).Some? ==> ReadOctet(s).value.1 != ""
  {
    hide SplitOnce, Value, ParseU8;
    assert s[|before|] == '.';
    assert s == before + ("." + after);
    var run := DigitRun(s);
    if AllDigits(before) {
      RunOfPart(before, "." + after);
      assert s[|before|..] == "." + after;
    } else {
      RunStopsEarly(before, "." + after);
      assert s[|run|] in before;
    }
  }

  lemma LastPart(s: string, count: nat)
    requires count > 0 && '.' !in s
    ensures ReadOctets(s, count).Some? <==> count == 1 && IsPlainOctet(s)
    ensures IsPlainOctet(s) ==> ReadOctets(s, 1) == ParseParts([s])
  {
    var run := DigitRun(s);
    assert run < s ==> s[|run|] in s;
    if AllDigits(s) {
      RunOfPart(s, "");
      assert s + "" == s;
    }
    if IsPlainOctet(s) {
      OnePartRead(s);
    }
  }

  lemma OnePartRead(s: string)
    requires IsPlainOctet(s) && DigitRun(s) == s
    ensures ReadOctets(s, 1) == ParseParts([s]) == Some([Value(s)])
  {
    hide ParseU8, IsPlainOctet, DigitRun;
    PlainIsU8(s);
    var o: Bytes := [Value(s)];
    assert [s][1..] == [];
    assert ParseParts([]) == Some([]);
    assert o + [] == o;
    assert s[|s|..] == "";
    assert ReadOctet(s) == Some((Value(s), ""));
  }

  /** Whatever subnet the container side accepts, the bridge side accepts with the same gateway and prefix. */
  lemma GatewayOfAcceptedSubnet(text: string, name: Name)
    requires ParseIpv4Cidr(text).Some?
    ensures var s, b := SettingsOf(text, name), BridgeGateway(text);
            && b.Some? && b.value.0 == s.gateway && ParseU8(b.value.1) == Some(s.prefix)
  {
    hide ParseU8, Split, SplitOnce, ReadOctets, Fnv, AllPlain;
    var (addr, prefix) := SplitOnce(text, '/').value;
    StrictIffPlain(addr, 4);
    PartCount(Split(addr, '.'));
  }

  /** The bridge side accepts more; there the gateways agree exactly for plain octets or the default network. */
  lemma GatewaysAgreeIff(text: string, name: Name)
    requires BridgeGateway(text).Some?
    ensures var addr, gateway := SplitOnce(text, '/').value.0, BridgeGateway(text).value.0;
            SettingsOf(text, name).gateway == gateway
            <==> AllPlain(Split(addr, '.')) || gateway == [172, 32, 0, 1]
  {
    hide ParseU8, Split, SplitOnce, ReadOctets, Fnv, AllPlain;
    var (addr, prefix) := SplitOnce(text, '/').value;
    StrictIffPlain(addr, 4);
    PartCount(Split(addr, '.'));
    if ParseIpv4Cidr(text).Some? {
      GatewayOfAcceptedSubnet(text, name);
    } else {
      assert SettingsOf(text, name).gateway == [172, 32, 0, 1];
    }
  }
}
