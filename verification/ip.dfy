/** IPv4 validation for IP-CIDR rules (bot/validators/ip.py) together with
    the part of Python's `ipaddress.ip_network(s, strict=False)` it relies
    on: a bare address gets "/32", the address must be four canonical
    decimal octets, the prefix is a decimal length or a dotted netmask or
    hostmask, and the host bits are cleared. */
module Ip {
  import opened Wrappers
  import opened Strings

  const MsgIpv4Only := "Только IPv4 поддерживается."
  const MsgMaskRange := "Маска подсети должна быть 0..32."
  const MsgInvalid := "Некорректный IP-адрес или диапазон (ожидается IPv4 или IPv4/CIDR)."

  /** 2^32, the number of IPv4 addresses. */
  const AddressSpace: nat := 0x1_0000_0000

  function Pow2(k: nat): (r: nat)
    ensures r >= 1
  {
    if k == 0 then 1 else 2 * Pow2(k - 1)
  }

  lemma {:induction false} Pow2Monotone(j: nat, k: nat)
    requires j <= k
    ensures Pow2(j) <= Pow2(k)
    decreases k
  {
    if j < k {
      Pow2Monotone(j, k - 1);
    }
  }

  lemma {:induction false} Pow2Of32()
    ensures Pow2(32) == AddressSpace
  {
    assert Pow2(4) == 16;
    assert Pow2(8) == 256;
    assert Pow2(12) == 4096;
    assert Pow2(16) == 65536;
    assert Pow2(20) == 1048576;
    assert Pow2(24) == 16777216;
    assert Pow2(28) == 268435456;
  }

  // -----------------------------------------------------------------------
  // arithmetic on addresses

  /** `(q * m) % m == 0` and `(q * m) / m == q`. */
  lemma {:induction false} MulMod(q: nat, m: nat)
    requires m >= 1
    ensures (q * m) % m == 0 && (q * m) / m == q
  {
    DivModUnique(q * m, q, 0, m);
  }

  /** Euclidean division has one quotient and one remainder. */
  lemma {:induction false} DivModUnique(x: int, q: int, r: int, m: int)
    requires m >= 1 && 0 <= r < m && x == q * m + r
    ensures x / m == q && x % m == r
  {
    var d := x / m - q;
    assert d * m == r - x % m;
    if d >= 1 {
      MulAtLeast(d, m);
      assert false;
    } else if d <= -1 {
      MulAtLeast(-d, m);
      assert false;
    }
  }

  lemma {:induction false} MulAtLeast(d: int, m: int)
    requires d >= 1 && m >= 1
    ensures d * m >= m
  {
  }

  // -----------------------------------------------------------------------
  // octets and dotted addresses

  /** `_parse_octet`: one to three ASCII digits, no leading zero unless the
      octet is "0", value at most 255. What it accepts is exactly the
      decimal form of a number below 256. */
  function ParseOctet(s: string): (r: Option<nat>)
    ensures r.Some? ==> r.value < 256 && NatToString(r.value) == s
  {
    if s == [] || !AllDigits(s) || |s| > 3 then None
    else if s != "0" && s[0] == '0' then None
    else if DecimalValue(s) > 255 then None
    else
      CanonicalDigits(s);
      Some(DecimalValue(s))
  }

  /** A digit string without a leading zero is the decimal form of its
      value. */
  lemma {:induction false} CanonicalDigits(s: string)
    requires |s| >= 1 && AllDigits(s) && (|s| > 1 ==> s[0] != '0')
    ensures NatToString(DecimalValue(s)) == s
  {
    var last := |s| - 1;
    var d := DigitValue(s[last]);
    if |s| == 1 {
      assert DecimalValue(s) == 10 * DecimalValue([]) + d;
      assert [DigitChar(d)] == s;
    } else {
      var init := s[..last];
      assert init[0] == s[0];
      CanonicalDigits(init);
      LeadingDigitPositive(init);
      var v := DecimalValue(s);
      assert v == 10 * DecimalValue(init) + d;
      DivModUnique(v, DecimalValue(init), d, 10);
      assert DigitChar(d) == s[last];
      assert s == init + [s[last]];
    }
  }

  lemma {:induction false} LeadingDigitPositive(s: string)
    requires |s| >= 1 && AllDigits(s) && s[0] != '0'
    ensures DecimalValue(s) >= 1
  {
    if |s| > 1 {
      var init := s[..|s| - 1];
      assert init[0] == s[0];
      LeadingDigitPositive(init);
    }
  }

  /** Every number below 256 is accepted in its decimal form. */
  lemma {:induction false} OctetOfNatToString(n: nat)
    requires n < 256
    ensures ParseOctet(NatToString(n)) == Some(n)
  {
    var s := NatToString(n);
    NatToStringLength(n);
    NatToStringValue(n);
  }

  /** The address with octets a.b.c.d, most significant first, as
      `int.from_bytes(..., 'big')` computes it. */
  function AddressValue(a: nat, b: nat, c: nat, d: nat): nat {
    ((a * 256 + b) * 256 + c) * 256 + d
  }

  lemma {:induction false} AddressValueBound(a: nat, b: nat, c: nat, d: nat)
    requires a < 256 && b < 256 && c < 256 && d < 256
    ensures AddressValue(a, b, c, d) < AddressSpace
  {
  }

  /** The four octets of an address, most significant first. */
  function Octets(v: nat): (o: seq<nat>)
    requires v < AddressSpace
    ensures |o| == 4 && o[0] < 256 && o[1] < 256 && o[2] < 256 && o[3] < 256
    ensures AddressValue(o[0], o[1], o[2], o[3]) == v
  {
    var v1 := v / 256;
    var v2 := v1 / 256;
    [v2 / 256, v2 % 256, v1 % 256, v % 256]
  }

  /** Octets are unique: an address has no other octet decomposition. */
  lemma {:induction false} OctetsOfValue(a: nat, b: nat, c: nat, d: nat)
    requires a < 256 && b < 256 && c < 256 && d < 256
    ensures AddressValue(a, b, c, d) < AddressSpace
    ensures Octets(AddressValue(a, b, c, d)) == [a, b, c, d]
  {
    var v := AddressValue(a, b, c, d);
    DivModUnique(v, (a * 256 + b) * 256 + c, d, 256);
    DivModUnique((a * 256 + b) * 256 + c, a * 256 + b, c, 256);
    DivModUnique(a * 256 + b, a, b, 256);
  }

  /** `str(IPv4Address(v))`: the octets in decimal joined by dots. */
  function FormatAddress(v: nat): (s: string)
    requires v < AddressSpace
    ensures s != [] && IsDigit(s[0]) && IsDigit(s[|s| - 1])
    ensures forall i :: 0 <= i < |s| ==> IsDigit(s[i]) || s[i] == '.'
  {
    var o := Octets(v);
    var s := NatToString(o[0]) + "." + NatToString(o[1]) + "." + NatToString(o[2]) + "." + NatToString(o[3]);
    assert s[0] == NatToString(o[0])[0];
    s
  }

  /** `_ip_int_from_string`: exactly four dot-separated octets. What it
      accepts is exactly the canonical dotted form of an address. */
  function ParseAddress(s: string): (r: Option<nat>)
    ensures r.Some? ==> r.value < AddressSpace && FormatAddress(r.value) == s
  {
    var parts := Split(s, '.');
    if |parts| != 4 then None
    else
      match (ParseOctet(parts[0]), ParseOctet(parts[1]), ParseOctet(parts[2]), ParseOctet(parts[3]))
      case (Some(a), Some(b), Some(c), Some(d)) =>
        ParsedAddressCanonical(s, a, b, c, d);
        Some(AddressValue(a, b, c, d))
      case _ => None
  }

  lemma {:induction false} ParsedAddressCanonical(s: string, a: nat, b: nat, c: nat, d: nat)
    requires var parts := Split(s, '.');
             |parts| == 4 && ParseOctet(parts[0]) == Some(a) && ParseOctet(parts[1]) == Some(b)
             && ParseOctet(parts[2]) == Some(c) && ParseOctet(parts[3]) == Some(d)
    ensures AddressValue(a, b, c, d) < AddressSpace
    ensures FormatAddress(AddressValue(a, b, c, d)) == s
  {
    var parts := Split(s, '.');
    OctetsOfValue(a, b, c, d);
    JoinSplit(s, '.');
    JoinFour(parts);
  }

  lemma {:induction false} JoinFour(parts: seq<string>)
    requires |parts| == 4
    ensures Join(".", parts) == parts[0] + "." + parts[1] + "." + parts[2] + "." + parts[3]
  {
    assert Join(".", parts[2..]) == parts[2] + "." + parts[3] by {
      assert parts[2..][1..] == [parts[3]];
    }
    assert parts[1..][1..] == parts[2..];
    assert Join(".", parts[1..]) == parts[1] + "." + Join(".", parts[2..]);
  }

  /** Every address reads back from its dotted form. */
  lemma {:induction false} AddressRoundTrip(v: nat)
    requires v < AddressSpace
    ensures ParseAddress(FormatAddress(v)) == Some(v)
  {
    var o := Octets(v);
    var ns := [NatToString(o[0]), NatToString(o[1]), NatToString(o[2]), NatToString(o[3])];
    JoinFour(ns);
    assert Join(".", ns) == FormatAddress(v);
    forall i | 0 <= i < 4 ensures '.' !in ns[i] {
      var t := ns[i];
      assert forall k :: 0 <= k < |t| ==> IsDigit(t[k]);
    }
    SplitJoin(ns, '.');
    OctetOfNatToString(o[0]);
    OctetOfNatToString(o[1]);
    OctetOfNatToString(o[2]);
    OctetOfNatToString(o[3]);
  }

  // -----------------------------------------------------------------------
  // prefix lengths and masks

  /** The netmask of a prefix length: `p` one bits, then zero bits. */
  function MaskValue(p: nat): int
    requires p <= 32
  {
    AddressSpace - Pow2(32 - p)
  }

  /** The hostmask of a prefix length: `p` zero bits, then one bits. */
  function HostmaskValue(p: nat): nat
    requires p <= 32
  {
    Pow2(32 - p) - 1
  }

  /** `_prefix_from_ip_int`: the prefix length whose netmask is `m`,
      searched from `p` upwards; None when `m` is not a netmask. */
  function PrefixOfMask(m: nat, p: nat): (r: Option<nat>)
    requires p <= 33
    ensures r.Some? ==> p <= r.value <= 32 && MaskValue(r.value) == m
    ensures r.None? ==> forall q :: p <= q <= 32 ==> MaskValue(q) != m
    decreases 33 - p
  {
    if p > 32 then None
    else if MaskValue(p) == m then Some(p)
    else PrefixOfMask(m, p + 1)
  }

  /** `_make_netmask(s)[1]` for a string: a decimal length 0..32 (leading
      zeros allowed), else a dotted netmask, else a dotted hostmask. */
  function ParsePrefix(s: string): (r: Option<nat>)
    ensures r.Some? ==> r.value <= 32
    ensures |s| >= 1 && AllDigits(s) ==> (r.Some? <==> DecimalValue(s) <= 32)
    ensures |s| >= 1 && AllDigits(s) && r.Some? ==> r.value == DecimalValue(s)
  {
    if |s| >= 1 && AllDigits(s) && DecimalValue(s) <= 32 then Some(DecimalValue(s))
    else
      DigitsNotAddress(s);
      match ParseAddress(s)
      case None => None
      case Some(m) => PrefixOfDottedMask(m)
  }

  /** A string of digits alone has no dots, so it is never a dotted
      address: a decimal length over 32 is not read as a netmask. */
  lemma {:induction false} DigitsNotAddress(s: string)
    ensures AllDigits(s) ==> ParseAddress(s).None?
  {
    if AllDigits(s) {
      assert '.' !in s by {
        forall k | 0 <= k < |s| ensures s[k] != '.' {
          assert IsDigit(s[k]);
        }
      }
      assert IndexOf(s, '.') == |s|;
      assert Split(s, '.') == [s];
    }
  }

  /** `_prefix_from_ip_string`: the address read as a netmask, else as a
      hostmask (all bits flipped). */
  function PrefixOfDottedMask(m: nat): (r: Option<nat>)
    requires m < AddressSpace
    ensures r.Some? ==> r.value <= 32
    ensures r.Some? ==> MaskValue(r.value) == m || MaskValue(r.value) == AddressSpace - 1 - m
  {
    match PrefixOfMask(m, 0)
    case Some(p) => Some(p)
    case None => PrefixOfMask(AddressSpace - 1 - m, 0)
  }

  lemma {:induction false} Pow2Strict(j: nat, k: nat)
    requires j < k
    ensures Pow2(j) < Pow2(k)
    decreases k
  {
    if j < k - 1 {
      Pow2Strict(j, k - 1);
    }
  }

  /** Distinct lengths have distinct netmasks. */
  lemma {:induction false} MaskInjective(p: nat, q: nat)
    requires p <= 32 && q <= 32 && MaskValue(p) == MaskValue(q)
    ensures p == q
  {
    if p < q {
      Pow2Strict(32 - q, 32 - p);
    } else if q < p {
      Pow2Strict(32 - p, 32 - q);
    }
  }

  /** A prefix length is read back from its decimal form. */
  lemma {:induction false} PrefixOfDecimal(p: nat)
    requires p <= 32
    ensures ParsePrefix(NatToString(p)) == Some(p)
  {
    NatToStringValue(p);
  }

  /** A prefix length is read back from its dotted netmask. */
  lemma {:induction false} PrefixOfNetmask(p: nat)
    requires p <= 32
    ensures 0 <= MaskValue(p) < AddressSpace
    ensures ParsePrefix(FormatAddress(MaskValue(p))) == Some(p)
  {
    Pow2Of32();
    Pow2Monotone(32 - p, 32);
    MaskRead(p);
    DottedRead(MaskValue(p), p);
  }

  /** The hostmask of a length strictly between 0 and 32 is not itself a
      netmask: it is odd, and not all ones. */
  lemma {:induction false} HostmaskNotNetmask(p: nat)
    requires 1 <= p <= 31
    ensures PrefixOfMask(HostmaskValue(p), 0).None?
  {
    forall q | 0 <= q <= 32 ensures MaskValue(q) != HostmaskValue(p) {
      MaskNotHostmask(q, p);
    }
  }

  lemma {:induction false} MaskNotHostmask(q: nat, p: nat)
    requires q <= 32 && 1 <= p <= 31
    ensures MaskValue(q) != HostmaskValue(p)
  {
    Pow2Of32();
    assert Pow2(32 - p) == 2 * Pow2(31 - p);
    if q == 32 {
      Pow2Strict(32 - p, 32);
    } else {
      assert Pow2(32 - q) == 2 * Pow2(31 - q);
    }
  }

  /** A prefix length strictly between 0 and 32 is read back from its
      dotted hostmask. */
  lemma {:induction false} PrefixOfHostmask(p: nat)
    requires 1 <= p <= 31
    ensures HostmaskValue(p) < AddressSpace
    ensures ParsePrefix(FormatAddress(HostmaskValue(p))) == Some(p)
  {
    HostmaskRead(p);
    DottedRead(HostmaskValue(p), p);
  }

  /** An address whose value is a netmask or hostmask of length `p` reads
      back, in dotted form, as that length. */
  lemma {:induction false} DottedRead(m: nat, p: nat)
    requires m < AddressSpace && PrefixOfDottedMask(m) == Some(p)
    ensures ParsePrefix(FormatAddress(m)) == Some(p)
  {
    var s := FormatAddress(m);
    AddressRoundTrip(m);
    NotAllDigits(s);
    DottedPrefix(s, m);
  }

  /** The hostmask of such a length, as a number, gives back the length. */
  lemma {:induction false} HostmaskRead(p: nat)
    requires 1 <= p <= 31
    ensures HostmaskValue(p) < AddressSpace
    ensures PrefixOfDottedMask(HostmaskValue(p)) == Some(p)
  {
    Pow2Of32();
    Pow2Strict(32 - p, 32);
    HostmaskNotNetmask(p);
    MaskRead(p);
    DottedHostmask(HostmaskValue(p));
    assert AddressSpace - 1 - HostmaskValue(p) == MaskValue(p);
  }

  /** An address that is not a netmask is read as a hostmask. */
  lemma {:induction false} DottedHostmask(m: nat)
    requires m < AddressSpace && PrefixOfMask(m, 0).None?
    ensures PrefixOfDottedMask(m) == PrefixOfMask(AddressSpace - 1 - m, 0)
  {
  }

  /** A netmask, as a number, gives back its length. */
  lemma {:induction false} MaskRead(p: nat)
    requires p <= 32
    ensures 0 <= MaskValue(p) < AddressSpace
    ensures PrefixOfMask(MaskValue(p), 0) == Some(p)
  {
    Pow2Of32();
    Pow2Monotone(32 - p, 32);
    var r := PrefixOfMask(MaskValue(p), 0);
    assert r.Some?;
    MaskInjective(r.value, p);
  }

  /** How `_make_netmask` reads a dotted mask. */
  lemma {:induction false} DottedPrefix(s: string, m: nat)
    requires ParseAddress(s) == Some(m) && !AllDigits(s)
    ensures ParsePrefix(s) == PrefixOfDottedMask(m)
  {
  }

  /** A dotted address contains a '.', so it is never a decimal length. */
  lemma {:induction false} NotAllDigits(s: string)
    requires forall i :: 0 <= i < |s| ==> IsDigit(s[i]) || s[i] == '.'
    requires '.' in s
    ensures !AllDigits(s)
  {
  }

  // -----------------------------------------------------------------------
  // networks

  datatype Network = Network(address: nat, prefix: nat)

  /** The host bits of `v`, the low `32 - p`, are all zero: `v` is a
      multiple of the block size. */
  predicate HostBitsClear(v: nat, p: nat)
    requires p <= 32
  {
    v % Pow2(32 - p) == 0
  }

  /** The address with its host bits cleared: the one multiple of the
      block size `2^(32-p)` that is at most `v` and within one block of it. */
  function ClearHostBits(v: nat, p: nat): (r: nat)
    requires p <= 32
    ensures r <= v < r + Pow2(32 - p)
    ensures HostBitsClear(r, p)
  {
    var m := Pow2(32 - p);
    RoundDown(v, m);
    (v / m) * m
  }

  /** `v` rounded down to a multiple of `m`. */
  lemma {:induction false} RoundDown(v: nat, m: nat)
    requires m >= 1
    ensures var r := (v / m) * m; 0 <= r <= v < r + m && r % m == 0
  {
    var q := v / m;
    assert v == q * m + v % m;
    MulMod(q, m);
  }

  /** The network address is the block start of an address exactly when
      the address lies in the block of that network. */
  lemma {:induction false} ClearHostBitsIn(v: nat, p: nat, x: nat)
    requires p <= 32 && HostBitsClear(x, p)
    ensures ClearHostBits(v, p) == x <==> x <= v < x + Pow2(32 - p)
  {
    var m := Pow2(32 - p);
    var r := ClearHostBits(v, p);
    if x <= v < x + m && r != x {
      BlockStartUnique(r, x, v, m);
    }
  }

  /** Two multiples of m that are both within one block below v are equal. */
  lemma {:induction false} BlockStartUnique(r: nat, x: nat, v: nat, m: nat)
    requires m > 0 && r % m == 0 && x % m == 0
    requires r <= v < r + m && x <= v < x + m
    ensures r == x
  {
    assert r == (r / m) * m + r % m && x == (x / m) * m + x % m;
    DivModUnique(v, r / m, v - r, m);
    DivModUnique(v, x / m, v - x, m);
  }

  /** A network whose host bits are already clear is left alone. */
  lemma {:induction false} ClearHostBitsAligned(v: nat, p: nat)
    requires p <= 32 && HostBitsClear(v, p)
    ensures ClearHostBits(v, p) == v
  {
  }

  /** `IPv4Network(s, strict=False)`: address and optional prefix split on
      '/', at most one '/', host bits cleared. */
  function ParseNetwork(s: string): (r: Option<Network>)
    ensures r.Some? ==> r.value.prefix <= 32 && r.value.address < AddressSpace
    ensures r.Some? ==> HostBitsClear(r.value.address, r.value.prefix)
    ensures var parts := Split(s, '/');
            r.Some? <==> |parts| <= 2 && ParseAddress(parts[0]).Some? && (|parts| == 2 ==> ParsePrefix(parts[1]).Some?)
  {
    var parts := Split(s, '/');
    if |parts| > 2 then None
    else
      match ParseAddress(parts[0])
      case None => None
      case Some(v) =>
        match (if |parts| == 2 then ParsePrefix(parts[1]) else Some(32))
        case None => None
        case Some(p) => Some(NetworkOf(v, p))
  }

  /** The network of prefix length `p` that holds address `v`. */
  function NetworkOf(v: nat, p: nat): (net: Network)
    requires v < AddressSpace && p <= 32
    ensures net.prefix == p
    ensures net.address <= v < net.address + Pow2(32 - p)
    ensures HostBitsClear(net.address, net.prefix)
  {
    Network(ClearHostBits(v, p), p)
  }

  /** `f"{net.network_address}/{net.prefixlen}"` */
  function FormatNetwork(net: Network): (s: string)
    requires net.address < AddressSpace
    ensures Split(s, '/') == [FormatAddress(net.address), NatToString(net.prefix)]
  {
    var a := FormatAddress(net.address);
    var n := NatToString(net.prefix);
    forall i | 0 <= i < 2 ensures '/' !in [a, n][i] {
      if i == 1 {
        assert AllDigits(n);
      }
    }
    SplitJoin([a, n], '/');
    a + "/" + n
  }

  // -----------------------------------------------------------------------
  // normalize_ip

  /** The stripped input, with "/32" appended when it has no '/'. */
  function WithLength(raw: string): (r: string)
    ensures '/' in r
    ensures '/' in Strip(raw) ==> r == Strip(raw)
  {
    var s := Strip(raw);
    if '/' !in s then
      assert (s + "/32")[|s|] == '/';
      s + "/32"
    else s
  }

  /** `normalize_ip(raw)`. `ipv6Parses` is whether `ip_network` accepts the
      same text as an IPv6 network, which is consulted only when the IPv4
      parse fails; the prefix-range branch is kept as written although the
      parse never returns a length outside 0..32. */
  function NormalizeIp(raw: string, ipv6Parses: bool): (r: Result<string, string>)
    ensures r.Err? ==> (r.error == MsgIpv4Only <==> ipv6Parses)
    ensures r.Err? ==> r.error == MsgIpv4Only || r.error == MsgInvalid
    ensures r.Err? && !ipv6Parses ==> r.error == MsgInvalid
    ensures r.Ok? <==> ParseNetwork(WithLength(raw)).Some?
    ensures r.Ok? ==> r.value == FormatNetwork(ParseNetwork(WithLength(raw)).value)
  {
    match ParseNetwork(WithLength(raw))
    case None => if ipv6Parses then Err(MsgIpv4Only) else Err(MsgInvalid)
    case Some(net) =>
      if !(0 <= net.prefix <= 32) then Err(MsgMaskRange)
      else Ok(FormatNetwork(net))
  }

  /** Any address and length, written `a.b.c.d/p`, read back as the
      network of that length holding the address: the host bits of the
      written address are cleared, as `strict=False` does. */
  lemma {:induction false} ParseFormattedNetwork(net: Network)
    requires net.prefix <= 32 && net.address < AddressSpace
    ensures ParseNetwork(FormatNetwork(net)) == Some(NetworkOf(net.address, net.prefix))
  {
    var a := FormatAddress(net.address);
    var n := NatToString(net.prefix);
    assert '/' !in a && '/' !in n by {
      assert forall k :: 0 <= k < |a| ==> IsDigit(a[k]) || a[k] == '.';
      assert forall k :: 0 <= k < |n| ==> IsDigit(n[k]);
    }
    SplitJoin([a, n], '/');
    assert Join("/", [a, n]) == FormatNetwork(net);
    AddressRoundTrip(net.address);
    PrefixOfDecimal(net.prefix);
  }

  /** A network with clear host bits reads back from its formatted form. */
  lemma {:induction false} NetworkRoundTrip(net: Network)
    requires net.prefix <= 32 && net.address < AddressSpace
    requires HostBitsClear(net.address, net.prefix)
    ensures ParseNetwork(FormatNetwork(net)) == Some(net)
  {
    ParseFormattedNetwork(net);
    ClearHostBitsAligned(net.address, net.prefix);
  }

  /** A formatted network has no surrounding whitespace and has a '/'. */
  lemma {:induction false} FormattedNetworkShape(net: Network)
    requires net.prefix <= 32 && net.address < AddressSpace
    ensures Strip(FormatNetwork(net)) == FormatNetwork(net)
    ensures '/' in FormatNetwork(net)
  {
    var a := FormatAddress(net.address);
    var n := NatToString(net.prefix);
    var out := FormatNetwork(net);
    assert out[0] == a[0];
    assert out[|out| - 1] == n[|n| - 1];
    StripNoop(out);
    assert out[|a|] == '/';
  }

  /** A network with clear host bits, formatted, is accepted unchanged. */
  lemma {:induction false} NormalizeFormattedNetwork(net: Network, ipv6Parses: bool)
    requires net.prefix <= 32 && net.address < AddressSpace
    requires HostBitsClear(net.address, net.prefix)
    ensures NormalizeIp(FormatNetwork(net), ipv6Parses) == Ok(FormatNetwork(net))
  {
    FormattedNetworkShape(net);
    NetworkRoundTrip(net);
  }

  /** `normalize_ip("a.b.c.d/p")` accepts every address and length and
      answers with the address's host bits cleared: the network address
      is the block start at or below the written address. */
  lemma {:induction false} NormalizeIpClearsHostBits(net: Network, ipv6Parses: bool)
    requires net.prefix <= 32 && net.address < AddressSpace
    ensures NormalizeIp(FormatNetwork(net), ipv6Parses) == Ok(FormatNetwork(NetworkOf(net.address, net.prefix)))
  {
    FormattedNetworkShape(net);
    ParseFormattedNetwork(net);
  }

  /** The address 10.1.2.3 with length 8 becomes 10.0.0.0/8. */
  lemma {:induction false} TenSlashEight()
    ensures NetworkOf(10 * 16777216 + 1 * 65536 + 2 * 256 + 3, 8).address == 10 * 16777216
  {
    var v := 10 * 16777216 + 1 * 65536 + 2 * 256 + 3;
    assert Pow2(8) == 256 && Pow2(16) == 65536 && Pow2(24) == 16777216;
    DivModUnique(v, 10, 66051, Pow2(24));
  }

  /** What `normalize_ip` returns validates to itself. */
  lemma {:induction false} NormalizeIpIdempotent(raw: string, ipv6Parses: bool, again: bool)
    requires NormalizeIp(raw, ipv6Parses).Ok?
    ensures NormalizeIp(NormalizeIp(raw, ipv6Parses).value, again) == NormalizeIp(raw, ipv6Parses)
  {
    var s := Strip(raw);
    var t := if '/' !in s then s + "/32" else s;
    var net := ParseNetwork(t).value;
    assert NormalizeIp(raw, ipv6Parses) == Ok(FormatNetwork(net));
    NormalizeFormattedNetwork(net, again);
  }

  /** Text that is not an IPv4 network is refused with the generic
      message: an octet over 255, or a decimal length over 32. */
  lemma {:induction false} OutOfRangeRefused()
    ensures NormalizeIp("300.1.1.1/33", false) == Err(MsgInvalid)
    ensures NormalizeIp("1.2.3.4/33", false) == Err(MsgInvalid)
  {
    OctetExample();
    LengthExample();
  }

  lemma {:induction false} OctetExample()
    ensures NormalizeIp("300.1.1.1/33", false) == Err(MsgInvalid)
  {
    OctetOver255Refused();
    LiteralsPlain();
    SlashExample("300.1.1.1/33", "300.1.1.1", "33");
  }

  lemma {:induction false} LengthExample()
    ensures NormalizeIp("1.2.3.4/33", false) == Err(MsgInvalid)
  {
    LengthOver32Refused();
    LiteralsPlain();
    SlashExample("1.2.3.4/33", "1.2.3.4", "33");
  }

  lemma {:induction false} LiteralsPlain()
    ensures !IsSpace("300.1.1.1"[0]) && !IsSpace("1.2.3.4"[0]) && !IsSpace("33"[1])
    ensures '/' !in "300.1.1.1" && '/' !in "1.2.3.4" && '/' !in "33"
    ensures "300.1.1.1/33" == "300.1.1.1" + "/" + "33" && "1.2.3.4/33" == "1.2.3.4" + "/" + "33"
  {
  }

  lemma {:induction false} SlashExample(raw: string, a: string, b: string)
    requires raw == a + "/" + b && a != [] && b != []
    requires !IsSpace(a[0]) && !IsSpace(b[|b| - 1]) && '/' !in a && '/' !in b
    requires ParseAddress(a).None? || ParsePrefix(b).None?
    ensures NormalizeIp(raw, false) == Err(MsgInvalid)
  {
    assert Split(raw, '/') == [a, b] by {
      SplitJoin([a, b], '/');
      assert Join("/", [a, b]) == raw;
    }
    NetworkOfPartsRefused(raw, a, b);
    assert raw[0] == a[0] && raw[|raw| - 1] == b[|b| - 1] && raw[|a|] == '/';
    StripNoop(raw);
    assert WithLength(raw) == raw;
    UnparsedRefused(raw);
  }

  /** Input whose completed text does not parse is refused with the
      generic message when it is not IPv6 either. */
  lemma {:induction false} UnparsedRefused(raw: string)
    requires ParseNetwork(WithLength(raw)).None?
    ensures NormalizeIp(raw, false) == Err(MsgInvalid)
  {
    assert NormalizeIp(raw, false).Err?;
  }

  lemma {:induction false} NetworkOfPartsRefused(s: string, a: string, b: string)
    requires Split(s, '/') == [a, b]
    requires ParseAddress(a).None? || ParsePrefix(b).None?
    ensures ParseNetwork(s).None?
  {
  }

  lemma {:induction false} OctetOver255Refused()
    ensures ParseAddress("300.1.1.1").None?
  {
    OctetOver255();
    assert IndexOf("300.1.1.1", '.') == 3;
    assert "300.1.1.1"[..3] == "300";
    FirstOctetRefused("300.1.1.1");
  }

  lemma {:induction false} OctetOver255()
    ensures ParseOctet("300").None?
  {
    assert "300"[..2] == "30" && "30"[..1] == "3" && "3"[..0] == "";
    assert DecimalValue("300") == 300;
  }

  /** An address whose first octet does not parse does not parse. */
  lemma {:induction false} FirstOctetRefused(s: string)
    requires IndexOf(s, '.') < |s| && ParseOctet(s[..IndexOf(s, '.')]).None?
    ensures ParseAddress(s).None?
  {
    var parts := Split(s, '.');
    assert parts[0] == s[..IndexOf(s, '.')];
  }

  lemma {:induction false} LengthOver32Refused()
    ensures ParsePrefix("33").None?
  {
    assert DecimalValue("33") == 33;
  }

  /** A bare address is accepted as the /32 network of itself. */
  lemma {:induction false} BareAddressIsSlash32(raw: string, ipv6Parses: bool)
    requires ParseAddress(Strip(raw)).Some?
    ensures NormalizeIp(raw, ipv6Parses) == Ok(Strip(raw) + "/32")
  {
    var s := Strip(raw);
    var v := ParseAddress(s).value;
    assert '/' !in s by {
      assert forall k :: 0 <= k < |s| ==> IsDigit(s[k]) || s[k] == '.';
    }
    var net := Network(v, 32);
    NetworkRoundTrip(net);
    Slash32(s);
  }

  /** The decimal form of 32, after a slash. */
  lemma {:induction false} Slash32(s: string)
    ensures s + "/" + NatToString(32) == s + "/32"
  {
    assert NatToString(32) == "32";
  }
}
