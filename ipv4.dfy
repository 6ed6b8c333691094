/** The part of Python's ipaddress module that the inspector uses: reading
    "a.b.c.d[/n]" into an IPv4Network, writing addresses back in dotted
    decimal, the masks, broadcast address and address count of a network,
    and the number of networks that subnets(new_prefix=...) enumerates.
    Addresses are naturals below 2^32. */
module Ipv4 {
  import opened Pow2Arith
  import opened Text

  const AddressSpace: nat := 0x1_0000_0000

  type Address = n: nat | n < 0x1_0000_0000

  type Prefix = p: nat | p <= 32

  datatype Option<T> = None | Some(value: T)

  /** An address with its prefix length, as the text gave them (host bits
      possibly set). */
  datatype Cidr = Cidr(address: Address, prefix: Prefix)

  /** The number of addresses in a block of prefix length p. */
  function BlockSize(p: Prefix): (n: nat)
    ensures 1 <= n <= AddressSpace
    ensures Pow2(p) * n == AddressSpace
  {
    Pow2Add(p, 32 - p);
    Pow2Constants();
    MulMonotone(1, Pow2(p), Pow2(32 - p));
    Pow2(32 - p)
  }

  /** The network address of a within its /p block: host bits cleared
      (IPv4Network with strict=False). */
  function NetworkOf(a: Address, p: Prefix): (n: Address)
    ensures n <= a < n + BlockSize(p)
    ensures n % BlockSize(p) == 0
  {
    var size := BlockSize(p);
    RoundDownBounds(a, size);
    a - a % size
  }

  /** The netmask of prefix p: its top p bits set. */
  function Netmask(p: Prefix): Address
  {
    AddressSpace - BlockSize(p)
  }

  /** The hostmask of prefix p: its low 32 - p bits set. */
  function Hostmask(p: Prefix): Address
  {
    BlockSize(p) - 1
  }

  /** The netmask is the all-ones address with the host bits cleared. */
  lemma NetmaskOfAllOnes(p: Prefix)
    ensures Netmask(p) == NetworkOf(AddressSpace - 1, p)
  {
    var size := BlockSize(p);
    MulPredecessor(Pow2(p), size);
    DivModUnique(AddressSpace - 1, size, Pow2(p) - 1, size - 1);
  }

  /** The broadcast address: the last address of the block holding a. */
  function BroadcastOf(a: Address, p: Prefix): (b: Address)
    ensures NetworkOf(a, p) <= a <= b
    ensures b - NetworkOf(a, p) + 1 == Pow2(32 - p)
    ensures b == NetworkOf(a, p) <==> p == 32
  {
    BlockFits(a, p);
    Pow2Monotone(if p < 32 then 1 else 0, 32 - p);
    NetworkOf(a, p) + Hostmask(p)
  }

  /** The block holding a ends within the address space. */
  lemma BlockFits(a: Address, p: Prefix)
    ensures NetworkOf(a, p) + BlockSize(p) <= AddressSpace
  {
    var size := BlockSize(p);
    var q := a / size;
    RoundDown(a, size);
    assert NetworkOf(a, p) == q * size;
    DivBelow(a, size, Pow2(p));
    MulMonotone(q + 1, Pow2(p), size);
    MulPredecessor(q + 1, size);
  }

  /** num_addresses: broadcast - network + 1. */
  function NumAddresses(a: Address, p: Prefix): (count: nat)
    ensures count == Pow2(32 - p)
  {
    BroadcastOf(a, p) - NetworkOf(a, p) + 1
  }

  /** The netmask has exactly its top p bits set. */
  lemma NetmaskBits(p: Prefix, i: nat)
    requires i < 32
    ensures Bit(Netmask(p), i) == if i >= 32 - p then 1 else 0
  {
    MulPredecessor(Pow2(p), Pow2(32 - p));
    assert Netmask(p) == (Pow2(p) - 1) * Pow2(32 - p) + 0;
    BitOfSum(Pow2(p) - 1, 0, 32 - p, i);
    if i < 32 - p {
      BitOfZero(i);
    } else {
      BitOfAllOnes(p, i - (32 - p));
    }
  }

  /** The hostmask is the bitwise complement of the netmask. */
  lemma HostmaskIsComplement(p: Prefix, i: nat)
    requires i < 32
    ensures Bit(Hostmask(p), i) == 1 - Bit(Netmask(p), i)
  {
    NetmaskBits(p, i);
    BitOfAllOnes(32 - p, i);
  }

  /** The network address is the address ANDed with the netmask. */
  lemma NetworkIsMasked(a: Address, p: Prefix, i: nat)
    requires i < 32
    ensures Bit(NetworkOf(a, p), i) == Bit(a, i) * Bit(Netmask(p), i)
  {
    var b := BlockSize(p);
    NetmaskBits(p, i);
    RoundDown(a, b);
    assert b == Pow2(32 - p);
    assert a == (a / b) * b + a % b;
    assert NetworkOf(a, p) == (a / b) * b + 0;
    BitOfSum(a / b, 0, 32 - p, i);
    BitOfSum(a / b, a % b, 32 - p, i);
    if i < 32 - p {
      BitOfZero(i);
    }
  }

  /** The broadcast address is the network address ORed with the hostmask. */
  lemma BroadcastIsNetworkOrHostmask(a: Address, p: Prefix, i: nat)
    requires i < 32
    ensures Bit(BroadcastOf(a, p), i)
         == if Bit(NetworkOf(a, p), i) == 1 || Bit(Hostmask(p), i) == 1 then 1 else 0
  {
    var b := BlockSize(p);
    RoundDown(a, b);
    assert BroadcastOf(a, p) == (a / b) * b + (b - 1);
    assert NetworkOf(a, p) == (a / b) * b + 0;
    BitOfSum(a / b, b - 1, 32 - p, i);
    BitOfSum(a / b, 0, 32 - p, i);
    BitOfAllOnes(32 - p, i);
    if i < 32 - p {
      BitOfZero(i);
    }
  }

  /** Clearing the host bits twice is clearing them once. */
  lemma NetworkOfNetwork(a: Address, p: Prefix)
    ensures NetworkOf(NetworkOf(a, p), p) == NetworkOf(a, p)
  {
  }

  /** Two addresses share a /p network exactly when they agree on the top
      p bits, i.e. have the same quotient by the block size. */
  lemma SameNetwork(a: Address, c: Address, p: Prefix)
    ensures NetworkOf(a, p) == NetworkOf(c, p) <==> a / BlockSize(p) == c / BlockSize(p)
  {
    var size := BlockSize(p);
    RoundDown(a, size);
    RoundDown(c, size);
    DivModUnique(NetworkOf(a, p), size, a / size, 0);
    DivModUnique(NetworkOf(c, p), size, c / size, 0);
  }

  // ---- Dotted-decimal text ----

  /** The four octets of a, most significant first. */
  function Octets(a: Address): (o: seq<nat>)
    ensures |o| == 4 && forall k :: 0 <= k < 4 ==> o[k] < 256
    ensures a == ((o[0] * 256 + o[1]) * 256 + o[2]) * 256 + o[3]
  {
    var b1 := a / 256;
    var b2 := b1 / 256;
    [b2 / 256, b2 % 256, b1 % 256, a % 256]
  }

  /** Four octets determine the address they spell. */
  lemma OctetsOfValue(o0: nat, o1: nat, o2: nat, o3: nat)
    requires o0 < 256 && o1 < 256 && o2 < 256 && o3 < 256
    ensures ((o0 * 256 + o1) * 256 + o2) * 256 + o3 < AddressSpace
    ensures Octets(((o0 * 256 + o1) * 256 + o2) * 256 + o3) == [o0, o1, o2, o3]
  {
    var b2 := o0 * 256 + o1;
    var b1 := b2 * 256 + o2;
    var a := b1 * 256 + o3;
    DivModUnique(a, 256, b1, o3);
    DivModUnique(b1, 256, b2, o2);
    DivModUnique(b2, 256, o0, o1);
  }

  /** str(IPv4Address): the octets in decimal, joined by dots. */
  function FormatAddress(a: Address): string
  {
    var o := Octets(a);
    Join([NatToString(o[0]), NatToString(o[1]), NatToString(o[2]), NatToString(o[3])], '.')
  }

  /** The text of an address is digits and exactly three dots. */
  lemma FormatAddressText(a: Address)
    ensures multiset(FormatAddress(a))['.'] == 3
    ensures forall i :: 0 <= i < |FormatAddress(a)| ==> IsDigit(FormatAddress(a)[i]) || FormatAddress(a)[i] == '.'
  {
    var o := Octets(a);
    DottedJoin([NatToString(o[0]), NatToString(o[1]), NatToString(o[2]), NatToString(o[3])]);
  }

  /** One octet as the library accepts it: 1 to 3 ASCII digits, no leading
      zero unless the octet is "0", value at most 255. */
  function ParseOctet(s: string): (r: Option<nat>)
    ensures r.Some? ==> r.value < 256 && AllDigits(s) && 1 <= |s| <= 3
  {
    if |s| == 0 || !AllDigits(s) || |s| > 3 || (|s| > 1 && s[0] == '0') then None
    else if DigitsValue(s) > 255 then None
    else Some(DigitsValue(s))
  }

  /** IPv4Address(s): exactly four octets separated by dots. */
  function ParseAddress(s: string): Option<Address>
  {
    var parts := Split(s, '.');
    if |parts| != 4 then None
    else
      match (ParseOctet(parts[0]), ParseOctet(parts[1]), ParseOctet(parts[2]), ParseOctet(parts[3]))
      case (Some(o0), Some(o1), Some(o2), Some(o3)) =>
        OctetsOfValue(o0, o1, o2, o3);
        Some(((o0 * 256 + o1) * 256 + o2) * 256 + o3)
      case _ => None
  }

  /** Text read as an address is digits and exactly three dots. */
  lemma ParseAddressText(s: string)
    requires ParseAddress(s).Some?
    ensures multiset(s)['.'] == 3
    ensures forall i :: 0 <= i < |s| ==> IsDigit(s[i]) || s[i] == '.'
  {
    SplitCount(s, '.');
    DottedText(s);
  }

  /** Four digit strings joined by dots are digits and three dots. */
  lemma DottedJoin(parts: seq<string>)
    requires |parts| == 4 && forall k :: 0 <= k < 4 ==> AllDigits(parts[k])
    ensures multiset(Join(parts, '.'))['.'] == 3
    ensures forall i :: 0 <= i < |Join(parts, '.')| ==> IsDigit(Join(parts, '.')[i]) || Join(parts, '.')[i] == '.'
  {
    assert forall k :: 0 <= k < 4 ==> '.' !in parts[k];
    SplitJoin(parts, '.');
    SplitCount(Join(parts, '.'), '.');
    JoinOfDigits(parts, '.');
  }

  /** Text that splits at its dots into four digit strings is digits and
      three dots. */
  lemma DottedText(s: string)
    requires |Split(s, '.')| == 4
    requires forall k :: 0 <= k < 4 ==> AllDigits(Split(s, '.')[k])
    ensures forall i :: 0 <= i < |s| ==> IsDigit(s[i]) || s[i] == '.'
  {
    JoinSplit(s, '.');
    JoinOfDigits(Split(s, '.'), '.');
  }

  /** A prefix length in decimal: ASCII digits (leading zeros allowed),
      value at most 32. */
  function ParsePrefix(s: string): (r: Option<Prefix>)
    ensures r.Some? ==> AllDigits(s) && |s| >= 1 && r.value == DigitsValue(s)
  {
    if |s| == 0 || !AllDigits(s) then None
    else if DigitsValue(s) > 32 then None
    else Some(DigitsValue(s))
  }

  /** The text of an IPv4 network: "address" or "address/prefix"; a missing
      prefix means /32, more than one '/' is an error. */
  function ParseCidr(s: string): Option<Cidr>
  {
    var parts := Split(s, '/');
    if |parts| > 2 then None
    else
      match ParseAddress(parts[0])
      case None => None
      case Some(a) =>
        if |parts| == 1 then Some(Cidr(a, 32))
        else
          match ParsePrefix(parts[1])
          case None => None
          case Some(p) => Some(Cidr(a, p))
  }

  /** Text read as a network has at most one '/'; the address is read from
      the text before it, and without a '/' the prefix is 32. */
  lemma ParseCidrText(s: string)
    requires ParseCidr(s).Some?
    ensures multiset(s)['/'] <= 1
    ensures ParseAddress(Split(s, '/')[0]) == Some(ParseCidr(s).value.address)
    ensures '/' !in s ==> ParseCidr(s).value.prefix == 32
    ensures '/' in s ==> |Split(s, '/')| == 2 && ParsePrefix(Split(s, '/')[1]) == Some(ParseCidr(s).value.prefix)
  {
    SplitCount(s, '/');
  }

  /** "x/d" with no other '/' reads exactly when x reads as an address and d
      is decimal digits of value at most 32; the prefix is then d's value. */
  lemma ParseCidrPieces(x: string, d: string)
    requires '/' !in x && '/' !in d
    ensures ParseCidr(x + "/" + d).Some? <==> ParseAddress(x).Some? && |d| >= 1 && AllDigits(d) && DigitsValue(d) <= 32
    ensures ParseCidr(x + "/" + d).Some? ==> ParseCidr(x + "/" + d).value == Cidr(ParseAddress(x).value, DigitsValue(d))
  {
    SplitPiece(x, '/', d);
    SplitWithoutSeparator(d, '/');
    assert Split(x + "/" + d, '/') == [x, d];
  }

  /** "address/prefix" in the library's own spelling. */
  function FormatCidr(c: Cidr): string
  {
    FormatAddress(c.address) + "/" + NatToString(c.prefix)
  }

  lemma {:induction false} DigitsValueZero(s: string)
    requires AllDigits(s) && DigitsValue(s) == 0
    ensures forall i :: 0 <= i < |s| ==> s[i] == '0'
  {
    if s != [] {
      DigitsValueZero(s[..|s| - 1]);
      assert forall i :: 0 <= i < |s| - 1 ==> s[i] == s[..|s| - 1][i];
    }
  }

  /** Digits without a superfluous leading zero are what str() writes for
      their value. */
  lemma {:induction false} CanonicalDigits(s: string)
    requires |s| >= 1 && AllDigits(s) && (|s| > 1 ==> s[0] != '0')
    ensures NatToString(DigitsValue(s)) == s
  {
    if |s| > 1 {
      var u := s[..|s| - 1];
      var d := DigitValue(s[|s| - 1]);
      assert u[0] == s[0];
      CanonicalDigits(u);
      if DigitsValue(u) == 0 {
        DigitsValueZero(u);
        assert false;
      }
      var n := DigitsValue(s);
      assert n == DigitsValue(u) * 10 + d;
      DivModUnique(n, 10, DigitsValue(u), d);
      assert NatToString(n) == NatToString(DigitsValue(u)) + [DigitChar(d)];
      assert u + [s[|s| - 1]] == s;
    }
  }

  lemma OctetRoundTrip(o: nat)
    requires o < 256
    ensures ParseOctet(NatToString(o)) == Some(o)
  {
    NatToStringLength(o);
    NatToStringValue(o);
  }

  lemma ParsedOctetIsCanonical(s: string)
    requires ParseOctet(s).Some?
    ensures NatToString(ParseOctet(s).value) == s
  {
    CanonicalDigits(s);
  }

  lemma {:induction false} JoinSplit(s: string, sep: char)
    ensures Join(Split(s, sep), sep) == s
  {
    if s != [] {
      JoinSplit(s[1..], sep);
      assert [s[0]] + s[1..] == s;
    }
  }

  lemma NoSeparatorInNumber(n: nat, c: char)
    requires !IsDigit(c)
    ensures c !in NatToString(n)
  {
  }

  /** Parsing the dotted-decimal text of an address gives the address. */
  lemma ParseFormatAddress(a: Address)
    ensures ParseAddress(FormatAddress(a)) == Some(a)
  {
    var o := Octets(a);
    var parts := [NatToString(o[0]), NatToString(o[1]), NatToString(o[2]), NatToString(o[3])];
    forall i | 0 <= i < 4
      ensures '.' !in parts[i]
    {
      NoSeparatorInNumber(o[i], '.');
    }
    SplitJoin(parts, '.');
    OctetRoundTrip(o[0]);
    OctetRoundTrip(o[1]);
    OctetRoundTrip(o[2]);
    OctetRoundTrip(o[3]);
  }

  /** Conversely, text the parser accepts is exactly the dotted-decimal text
      of the address it yields: no other spelling of an address is read. */
  lemma FormatParseAddress(s: string)
    requires ParseAddress(s).Some?
    ensures FormatAddress(ParseAddress(s).value) == s
  {
    var parts := Split(s, '.');
    var a := ParseAddress(s).value;
    ParsedOctetIsCanonical(parts[0]);
    ParsedOctetIsCanonical(parts[1]);
    ParsedOctetIsCanonical(parts[2]);
    ParsedOctetIsCanonical(parts[3]);
    OctetsOfValue(ParseOctet(parts[0]).value, ParseOctet(parts[1]).value,
                  ParseOctet(parts[2]).value, ParseOctet(parts[3]).value);
    assert parts == [parts[0], parts[1], parts[2], parts[3]];
    JoinSplit(s, '.');
  }

  lemma PrefixRoundTrip(p: Prefix)
    ensures ParsePrefix(NatToString(p)) == Some(p)
  {
    NatToStringValue(p);
  }

  /** "address/prefix" text splits at its one '/' into the two parts. */
  lemma SplitCidrText(c: Cidr)
    ensures Split(FormatCidr(c), '/') == [FormatAddress(c.address), NatToString(c.prefix)]
  {
    var text := FormatAddress(c.address);
    FormatAddressText(c.address);
    assert '/' !in text;
    SplitPiece(text, '/', NatToString(c.prefix));
    NoSeparatorInNumber(c.prefix, '/');
    SplitWithoutSeparator(NatToString(c.prefix), '/');
  }

  /** Parsing "address/prefix" text gives back the address and prefix. */
  lemma ParseFormatCidr(c: Cidr)
    ensures ParseCidr(FormatCidr(c)) == Some(c)
  {
    SplitCidrText(c);
    ParseFormatAddress(c.address);
    PrefixRoundTrip(c.prefix);
  }

  // ---- Subnet enumeration ----

  /** len(list(range(start, end, step))): the number of steps of size step
      from start that stay below end. */
  function RangeLength(start: nat, end: nat, step: nat): (r: nat)
    requires step >= 1
    ensures r == 0 <==> start >= end
    ensures start < end ==> start + (r - 1) * step < end <= start + r * step
    decreases end - start
  {
    if start >= end then 0
    else
      var rest := RangeLength(start + step, end, step);
      assert start + rest * step == start + step + (rest - 1) * step;
      1 + rest
  }

  lemma {:induction false} RangeLengthExact(start: nat, k: nat, step: nat)
    requires step >= 1
    decreases k
    ensures RangeLength(start, start + k * step, step) == k
  {
    if k > 0 {
      RangeLengthExact(start + step, k - 1, step);
      assert start + step + (k - 1) * step == start + k * step;
    }
  }

  /** How many networks net.subnets(new_prefix=s) yields for the network
      with address n and prefix p; None where the library raises ValueError.
      A /32 network yields itself whatever s is; otherwise s must lie in
      [p, 32], and the subnets start every (hostmask + 1) >> (s - p)
      addresses from the network address up to the broadcast address. */
  function SubnetCount(n: Address, p: Prefix, s: int): (r: Option<nat>)
    requires n % BlockSize(p) == 0
    ensures p == 32 ==> r == Some(1)
    ensures p < 32 && p <= s <= 32 ==> r == Some(Pow2(s - p))
    ensures p < 32 && !(p <= s <= 32) ==> r == None
  {
    if p == 32 then Some(1)
    else if s < p then None
    else if s > 32 then None
    else
      SubnetEnumeration(n, p, s);
      Some(RangeLength(n, BroadcastOf(n, p) + 1, ShiftRight(Hostmask(p) + 1, s - p)))
  }

  /** Stepping from the network address to the broadcast address by the
      size of a /s block visits 2^(s - p) subnets. */
  lemma SubnetEnumeration(n: Address, p: Prefix, s: Prefix)
    requires n % BlockSize(p) == 0 && p <= s
    ensures ShiftRight(Hostmask(p) + 1, s - p) == Pow2(32 - s)
    ensures RangeLength(n, BroadcastOf(n, p) + 1, ShiftRight(Hostmask(p) + 1, s - p)) == Pow2(s - p)
  {
    ShiftRightPow2(32 - s, s - p);
    assert 32 - s + (s - p) == 32 - p;
    Pow2Split(32 - s, 32 - p);
    assert BroadcastOf(n, p) + 1 == n + Pow2(s - p) * Pow2(32 - s);
    RangeLengthExact(n, Pow2(s - p), Pow2(32 - s));
  }
}
