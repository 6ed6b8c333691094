/** inspect_ipv4: from the text of an IPv4 network ("a.b.c.d/n", or the
    address and prefix separated by whitespace) to the record of its derived
    facts — network and broadcast addresses, masks, host range, address
    count, the octet stride between neighbouring networks of the same size,
    and optionally how many subnets of a longer prefix it splits into. */
module Inspector {
  import opened Pow2Arith
  import opened Text
  import opened Ipv4

  /** Why an inspection fails. ParseError and HostBitsSet are the library's
      ValueError (unreadable text; host bits set when the text is re-read
      strictly for a subnet split); InvalidPrefix is the error message
      returned for a /0 network; InvalidSubnetPrefix is the ValueError for
      a subnet prefix outside [prefix, 32]. */
  datatype Error = ParseError | InvalidPrefix | HostBitsSet | InvalidSubnetPrefix

  datatype Result<T> = Ok(value: T) | Err(error: Error)

  /** The optional "subnets" entry. */
  datatype SubnetInfo = SubnetInfo(subnetsPrefix: nat, subnetsCount: nat, subnetsHosts: nat)

  /** The returned record; addresses and masks are dotted-decimal text. */
  datatype NetworkInfo = NetworkInfo(
    networkAddress: string,
    broadcastAddress: string,
    prefix: Prefix,
    netmask: string,
    hostRangeBegin: string,
    hostRangeEnd: string,
    hosts: nat,
    hostmask: string,
    networkIncrement: nat,
    subnets: Option<SubnetInfo>)

  // ---- The three inner helpers ----

  /** hosts_in_subnet: the number of addresses in a /cidrPrefix block, so
      that 2^cidrPrefix such blocks fill the address space. */
  function HostsInSubnet(cidrPrefix: Prefix): (total: nat)
    ensures total >= 1 && Pow2(cidrPrefix) * total == AddressSpace
  {
    assert Pow2(cidrPrefix) * BlockSize(cidrPrefix) == AddressSpace;
    Pow2(32 - cidrPrefix)
  }

  /** host_bits: how far the prefix is from the next octet boundary (8, 16,
      24 or 32) at or above it; a /0 is 8 bits from the first boundary. */
  function HostBits(x: Prefix): (r: nat)
    ensures x >= 1 ==> r < 8 && (x + r) % 8 == 0
    ensures x == 0 ==> r == 8
  {
    if x <= 8 then 8 - x
    else if x <= 16 then 16 - x
    else if x <= 24 then 24 - x
    else 32 - x
  }

  /** ip_increment: pow(2, x). */
  function IpIncrement(x: nat): nat
  {
    Pow2(x)
  }

  // ---- Whitespace handling ----

  /** Drops the whitespace at the start of s. */
  function DropSpaces(s: string): (r: string)
    ensures |r| <= |s| && (r == [] || !IsSpace(r[0]))
    ensures r == s[|s| - |r|..] && AllSpace(s[..|s| - |r|])
  {
    if s != [] && IsSpace(s[0]) then DropSpaces(s[1..]) else s
  }

  /** re.sub(r"\s+", "/", s): every maximal run of whitespace becomes one '/'. */
  function CollapseWhitespace(s: string): (r: string)
    ensures NoSpace(r)
    decreases |s|
  {
    if s == [] then []
    else if IsSpace(s[0]) then "/" + CollapseWhitespace(DropSpaces(s[1..]))
    else [s[0]] + CollapseWhitespace(s[1..])
  }

  /** Drops the whitespace at the end of s. */
  function DropTrailingSpaces(s: string): (r: string)
    ensures |r| <= |s| && (r == [] || !IsSpace(r[|r| - 1]))
    ensures r == s[..|r|] && AllSpace(s[|r|..])
  {
    if s != [] && IsSpace(s[|s| - 1]) then
      var r := DropTrailingSpaces(s[..|s| - 1]);
      assert s[|r|..] == s[..|s| - 1][|r|..] + [s[|s| - 1]];
      r
    else s
  }

  /** str.strip(): whitespace removed from both ends. */
  function Strip(s: string): (r: string)
    ensures r == [] || (!IsSpace(r[0]) && !IsSpace(r[|r| - 1]))
  {
    DropTrailingSpaces(DropSpaces(s))
  }

  /** What strip() keeps is a piece of s between a whitespace prefix and a
      whitespace suffix; i is where it starts. */
  lemma StripKeepsMiddle(s: string) returns (i: nat)
    ensures i + |Strip(s)| <= |s|
    ensures Strip(s) == s[i..i + |Strip(s)|]
    ensures AllSpace(s[..i]) && AllSpace(s[i + |Strip(s)|..])
  {
    var d := DropSpaces(s);
    i := |s| - |d|;
    MiddlePiece(s, d, Strip(s), i);
  }

  /** A whitespace-free tail d of s with a whitespace-free head r of d: r
      sits between a whitespace prefix and a whitespace suffix of s. */
  lemma MiddlePiece(s: string, d: string, r: string, i: nat)
    requires |d| <= |s| && i == |s| - |d| && d == s[i..] && AllSpace(s[..i])
    requires |r| <= |d| && r == d[..|r|] && AllSpace(d[|r|..])
    ensures i + |r| <= |s|
    ensures r == s[i..i + |r|]
    ensures AllSpace(s[..i]) && AllSpace(s[i + |r|..])
  {
    assert d[|r|..] == s[i + |r|..];
  }

  /** Text without whitespace passes the substitution unchanged. */
  lemma {:induction false} CollapseWithoutSpace(s: string)
    requires NoSpace(s)
    ensures CollapseWhitespace(s) == s
  {
    if s != [] {
      CollapseWithoutSpace(s[1..]);
      assert [s[0]] + s[1..] == s;
    }
  }

  /** Stripping text without whitespace changes nothing; so the strip()
      applied after the substitution never has anything to do. */
  lemma StripWithoutSpace(s: string)
    requires NoSpace(s)
    ensures Strip(s) == s
  {
    if s != [] {
      assert !IsSpace(s[0]) && !IsSpace(s[|s| - 1]);
    }
  }

  lemma StripAfterCollapse(s: string)
    ensures Strip(CollapseWhitespace(s)) == CollapseWhitespace(s)
  {
    StripWithoutSpace(CollapseWhitespace(s));
  }

  lemma {:induction false} DropSpacesOfRun(w: string, y: string)
    requires AllSpace(w)
    requires y == [] || !IsSpace(y[0])
    ensures DropSpaces(w + y) == y
  {
    if w != [] {
      assert (w + y)[1..] == w[1..] + y;
      DropSpacesOfRun(w[1..], y);
    }
  }

  /** One whitespace run between whitespace-free text x and text y that does
      not start with whitespace becomes a single '/'. */
  lemma {:induction false} CollapseRun(x: string, w: string, y: string)
    requires NoSpace(x) && |w| >= 1 && AllSpace(w)
    requires y == [] || !IsSpace(y[0])
    ensures CollapseWhitespace(x + w + y) == x + "/" + CollapseWhitespace(y)
  {
    if x == [] {
      assert x + w + y == w + y;
      assert (w + y)[1..] == w[1..] + y;
      DropSpacesOfRun(w[1..], y);
    } else {
      assert (x + w + y)[1..] == x[1..] + w + y;
      CollapseRun(x[1..], w, y);
      assert [x[0]] + x[1..] == x;
    }
  }

  // ---- The record ----

  /** The host range (lines 42, 49, 50): a /31 or /32 network uses all its
      addresses; any other leaves out the network and broadcast addresses.
      Either way the range lies inside the block, is symmetric within it, and
      holds every address or all but two. */
  function HostRange(n: Address, p: Prefix): (range: (Address, Address))
    requires n % BlockSize(p) == 0
    ensures n <= range.0 <= range.1 <= BroadcastOf(n, p)
    ensures range.0 - n == BroadcastOf(n, p) - range.1
    ensures range.1 - range.0 + 1 == if p >= 31 then HostsInSubnet(p) else HostsInSubnet(p) - 2
  {
    var broadcast := BroadcastOf(n, p);
    if p == 31 || p == 32 then (n, broadcast)
    else
      Pow2Monotone(2, 32 - p);
      (n + 1, broadcast - 1)
  }

  /** The record of lines 44-54 for the network with address n and prefix
      p. */
  function Describe(n: Address, p: Prefix): (info: NetworkInfo)
    requires 1 <= p && n % BlockSize(p) == 0
    ensures info.prefix == p && info.hosts == HostsInSubnet(p)
    ensures info.networkIncrement == Pow2(HostBits(p)) && 1 <= info.networkIncrement <= 128
    ensures info.subnets == None
  {
    Pow2Monotone(HostBits(p), 7);
    assert Pow2(7) == 128;
    var range := HostRange(n, p);
    NetworkInfo(
      networkAddress := FormatAddress(n),
      broadcastAddress := FormatAddress(BroadcastOf(n, p)),
      prefix := p,
      netmask := FormatAddress(Netmask(p)),
      hostRangeBegin := FormatAddress(range.0),
      hostRangeEnd := FormatAddress(range.1),
      hosts := NumAddresses(n, p),
      hostmask := FormatAddress(Hostmask(p)),
      networkIncrement := IpIncrement(HostBits(p)),
      subnets := None)
  }

  /** Every address field of the record is dotted-decimal text that reads
      back as the address it stands for: the network address itself, its
      broadcast address, the masks and the ends of the host range. */
  lemma DescribeFields(n: Address, p: Prefix)
    requires 1 <= p && n % BlockSize(p) == 0
    ensures ParseAddress(Describe(n, p).networkAddress) == Some(n)
    ensures ParseAddress(Describe(n, p).broadcastAddress) == Some(BroadcastOf(n, p))
    ensures ParseAddress(Describe(n, p).netmask) == Some(Netmask(p))
    ensures ParseAddress(Describe(n, p).hostmask) == Some(Hostmask(p))
    ensures ParseAddress(Describe(n, p).hostRangeBegin) == Some(HostRange(n, p).0)
    ensures ParseAddress(Describe(n, p).hostRangeEnd) == Some(HostRange(n, p).1)
  {
    ParseFormatAddress(n);
    ParseFormatAddress(BroadcastOf(n, p));
    ParseFormatAddress(Netmask(p));
    ParseFormatAddress(Hostmask(p));
    ParseFormatAddress(HostRange(n, p).0);
    ParseFormatAddress(HostRange(n, p).1);
  }

  // ---- Subnet breakdown ----

  /** The subnet count that line 58 obtains from the library, as written:
      the normalised text is read again strictly (host bits set is an
      error), and the library's subnet enumeration is counted. For a /32
      network the library yields the network itself whatever the requested
      prefix, so the count is 1 for a shorter requested prefix and for one
      above 32 alike; only a shorter network checks the requested prefix. */
  function SubnetCountAsWritten(rs: string, subnetsPrefix: int): (r: Result<nat>)
    requires subnetsPrefix > 0
    ensures r.Ok? ==> r.value >= 1
  {
    match ParseCidr(rs)
    case None => Err(ParseError)
    case Some(c) =>
      if NetworkOf(c.address, c.prefix) != c.address then Err(HostBitsSet)
      else
        match SubnetCount(c.address, c.prefix, subnetsPrefix)
        case None => Err(InvalidSubnetPrefix)
        case Some(count) => Ok(count)
  }

  /** What the count as written is, case by case, for text that reads as
      c: host bits set is an error; a /32 network counts 1 whatever the
      requested prefix; a shorter network counts 2^(s - p) for s in
      [p, 32] and is an error otherwise. Unreadable text is an error. */
  lemma SubnetCountAsWrittenCases(rs: string, s: int)
    requires s > 0
    ensures SubnetCountAsWritten(rs, s) == Err(ParseError) <==> ParseCidr(rs).None?
    ensures ParseCidr(rs).Some? ==>
      var c := ParseCidr(rs).value;
      && (SubnetCountAsWritten(rs, s) == Err(HostBitsSet) <==> NetworkOf(c.address, c.prefix) != c.address)
      && (SubnetCountAsWritten(rs, s) == Err(InvalidSubnetPrefix)
          <==> NetworkOf(c.address, c.prefix) == c.address && c.prefix < 32 && !(c.prefix <= s <= 32))
      && (NetworkOf(c.address, c.prefix) == c.address && c.prefix == 32 ==> SubnetCountAsWritten(rs, s) == Ok(1))
      && (NetworkOf(c.address, c.prefix) == c.address && c.prefix <= s <= 32
          ==> SubnetCountAsWritten(rs, s) == Ok(Pow2(s - c.prefix)))
  {
    match ParseCidr(rs)
    case None =>
    case Some(c) =>
      if NetworkOf(c.address, c.prefix) == c.address {
        var _ := SubnetCount(c.address, c.prefix, s);
      }
  }

  /** The subnet breakdown of lines 57-59, with the requested prefix checked
      against the base prefix for every network (a /32 included): the text
      must be an exact network, the requested prefix must lie in
      [prefix, 32], and the block then splits into 2^(s - p) subnets of
      2^(32 - s) addresses, which together hold exactly the block. */
  function SubnetBreakdown(rs: string, subnetsPrefix: int): (r: Result<SubnetInfo>)
    requires subnetsPrefix > 0
    ensures r == Err(ParseError) <==> ParseCidr(rs).None?
    ensures r == Err(HostBitsSet)
        <==> ParseCidr(rs).Some? && NetworkOf(ParseCidr(rs).value.address, ParseCidr(rs).value.prefix) != ParseCidr(rs).value.address
    ensures r == Err(InvalidSubnetPrefix)
        <==> ParseCidr(rs).Some? && NetworkOf(ParseCidr(rs).value.address, ParseCidr(rs).value.prefix) == ParseCidr(rs).value.address
             && !(ParseCidr(rs).value.prefix <= subnetsPrefix <= 32)
    ensures r.Ok?
        <==> ParseCidr(rs).Some? && NetworkOf(ParseCidr(rs).value.address, ParseCidr(rs).value.prefix) == ParseCidr(rs).value.address
             && ParseCidr(rs).value.prefix <= subnetsPrefix <= 32
    ensures r.Ok? ==>
      && ParseCidr(rs).Some?
      && var p := ParseCidr(rs).value.prefix;
      && r.value.subnetsPrefix == subnetsPrefix
      && r.value.subnetsCount == Pow2(subnetsPrefix - p)
      && r.value.subnetsHosts == HostsInSubnet(subnetsPrefix)
      && r.value.subnetsCount * r.value.subnetsHosts == HostsInSubnet(p)
  {
    match ParseCidr(rs)
    case None => Err(ParseError)
    case Some(c) =>
      if NetworkOf(c.address, c.prefix) != c.address then Err(HostBitsSet)
      else if subnetsPrefix < c.prefix || subnetsPrefix > 32 then Err(InvalidSubnetPrefix)
      else
        match SubnetCount(c.address, c.prefix, subnetsPrefix)
        case None => Err(InvalidSubnetPrefix)
        case Some(count) =>
          Pow2Split(32 - subnetsPrefix, 32 - c.prefix);
          assert 32 - c.prefix - (32 - subnetsPrefix) == subnetsPrefix - c.prefix;
          Ok(SubnetInfo(subnetsPrefix, count, HostsInSubnet(subnetsPrefix)))
  }

  // ---- inspect_ipv4 ----

  /** inspect_ipv4(ipAddress, subnets_prefix): collapse whitespace runs to
      '/', read the network (host bits cleared), refuse a /0, build the
      record, and add the subnet breakdown when subnetsPrefix > 0. */
  function InspectIpv4(ipAddress: string, subnetsPrefix: int): (r: Result<NetworkInfo>)
    ensures r.Ok? ==>
      && 1 <= r.value.prefix
      && r.value.hosts == HostsInSubnet(r.value.prefix)
      && 1 <= r.value.networkIncrement <= 128
      && (r.value.subnets.Some? <==> subnetsPrefix > 0)
  {
    var rs := CollapseWhitespace(ipAddress);
    match ParseCidr(Strip(rs))
    case None => Err(ParseError)
    case Some(c) =>
      if c.prefix == 0 then Err(InvalidPrefix)
      else
        var results := Describe(NetworkOf(c.address, c.prefix), c.prefix);
        if subnetsPrefix > 0 then
          match SubnetBreakdown(rs, subnetsPrefix)
          case Err(e) => Err(e)
          case Ok(sub) => Ok(results.(subnets := Some(sub)))
        else Ok(results)
  }

  /** Which inputs fail and why: unreadable text (after the whitespace
      substitution) is a parse error, a /0 network is refused, and with a
      split requested the text must name its network exactly and the
      requested prefix must lie in [prefix, 32]; everything else succeeds. */
  lemma InspectErrors(ipAddress: string, k: int)
    ensures var parsed := ParseCidr(CollapseWhitespace(ipAddress));
      && (InspectIpv4(ipAddress, k) == Err(ParseError) <==> parsed.None?)
      && (InspectIpv4(ipAddress, k) == Err(InvalidPrefix) <==> parsed.Some? && parsed.value.prefix == 0)
      && (InspectIpv4(ipAddress, k) == Err(HostBitsSet)
          <==> k > 0 && parsed.Some? && parsed.value.prefix >= 1
               && NetworkOf(parsed.value.address, parsed.value.prefix) != parsed.value.address)
      && (InspectIpv4(ipAddress, k) == Err(InvalidSubnetPrefix)
          <==> k > 0 && parsed.Some? && parsed.value.prefix >= 1
               && NetworkOf(parsed.value.address, parsed.value.prefix) == parsed.value.address
               && !(parsed.value.prefix <= k <= 32))
  {
    var rs := CollapseWhitespace(ipAddress);
    StripAfterCollapse(ipAddress);
    match ParseCidr(rs)
    case None =>
    case Some(c) =>
      InspectReads(ipAddress, c, k);
      if c.prefix >= 1 && k > 0 && NetworkOf(c.address, c.prefix) == c.address && c.prefix <= k <= 32 {
        assert InspectIpv4(ipAddress, k).Ok?;
      }
  }

  // ---- Properties of the network increment ----

  /** For every accepted prefix the increment is a power of two from 1 to
      128, and it is 1 exactly at the octet boundaries /8, /16, /24, /32. */
  lemma NetworkIncrementRange(p: Prefix)
    requires 1 <= p
    ensures 1 <= IpIncrement(HostBits(p)) <= 128
    ensures IpIncrement(HostBits(p)) == 1 <==> p in {8, 16, 24, 32}
  {
    Pow2Monotone(HostBits(p), 7);
    assert Pow2(7) == 128;
    if HostBits(p) >= 1 {
      Pow2Monotone(1, HostBits(p));
    }
  }

  /** The block of a /p network measured in units of the octet the prefix
      ends in (the one whose low bit is worth 2^(32 - 8 * ceil(p / 8))) is
      the increment: neighbouring /p networks are that many units apart. */
  lemma NetworkIncrementIsOctetStride(p: Prefix)
    requires 1 <= p
    ensures HostsInSubnet(p) == IpIncrement(HostBits(p)) * Pow2(32 - 8 * ((p + 7) / 8))
  {
    assert p + HostBits(p) == 8 * ((p + 7) / 8);
    Pow2Add(HostBits(p), 32 - 8 * ((p + 7) / 8));
  }

  /** Octet k (0 is the leftmost) of an address. */
  function OctetAt(a: Address, k: nat): (o: nat)
    requires k < 4
    ensures o < 256
  {
    a / Pow2(24 - 8 * k) % 256
  }

  /** Moving from a /p network to the next one adds the increment, modulo
      256, to the octet the prefix ends in. */
  lemma NextNetworkOctet(n: Address, p: Prefix)
    requires 1 <= p && n + BlockSize(p) < AddressSpace
    ensures OctetAt(n + BlockSize(p), (p + 7) / 8 - 1)
         == (OctetAt(n, (p + 7) / 8 - 1) + IpIncrement(HostBits(p))) % 256
  {
    var k := (p + 7) / 8 - 1;
    var unit := Pow2(24 - 8 * k);
    var inc := IpIncrement(HostBits(p));
    NetworkIncrementIsOctetStride(p);
    assert 24 - 8 * k == 32 - 8 * ((p + 7) / 8);
    assert BlockSize(p) == inc * unit;
    DigitAddUnits(n, unit, inc, 256);
  }

  // ---- Properties of inspect_ipv4 ----

  lemma {:induction false} CollapseAfterPlainText(x: string, y: string)
    requires NoSpace(x)
    ensures CollapseWhitespace(x + y) == x + CollapseWhitespace(y)
  {
    if x != [] {
      assert (x + y)[0] == x[0] && !IsSpace(x[0]);
      assert (x + y)[1..] == x[1..] + y;
      assert NoSpace(x[1..]);
      CollapseAfterPlainText(x[1..], y);
      assert [x[0]] + x[1..] == x;
    } else {
      assert x + y == y;
    }
  }

  lemma FormatCidrNoSpace(c: Cidr)
    ensures NoSpace(FormatCidr(c))
  {
    FormatAddressText(c.address);
    var t := FormatCidr(c);
    var a := FormatAddress(c.address);
    forall i | 0 <= i < |t|
      ensures !IsSpace(t[i])
    {
      if i < |a| {
        assert t[i] == a[i];
      } else if i > |a| {
        assert t[i] == NatToString(c.prefix)[i - |a| - 1];
      }
    }
  }

  /** What inspecting text that reads as address and prefix c yields: a /0
      is refused; otherwise the record describes the network that holds
      the address. When a split is requested the text must name the
      network exactly and the requested prefix must lie in [prefix, 32]. */
  lemma InspectReads(ipAddress: string, c: Cidr, k: int)
    requires ParseCidr(CollapseWhitespace(ipAddress)) == Some(c)
    ensures c.prefix == 0 ==> InspectIpv4(ipAddress, k) == Err(InvalidPrefix)
    ensures c.prefix >= 1 && k <= 0 ==>
      InspectIpv4(ipAddress, k) == Ok(Describe(NetworkOf(c.address, c.prefix), c.prefix))
    ensures c.prefix >= 1 && k > 0 && NetworkOf(c.address, c.prefix) != c.address ==>
      InspectIpv4(ipAddress, k) == Err(HostBitsSet)
    ensures c.prefix >= 1 && k > 0 && NetworkOf(c.address, c.prefix) == c.address && !(c.prefix <= k <= 32) ==>
      InspectIpv4(ipAddress, k) == Err(InvalidSubnetPrefix)
    ensures c.prefix >= 1 && k > 0 && NetworkOf(c.address, c.prefix) == c.address && c.prefix <= k <= 32 ==>
      InspectIpv4(ipAddress, k)
      == Ok(Describe(c.address, c.prefix).(subnets := Some(SubnetInfo(k, Pow2(k - c.prefix), Pow2(32 - k)))))
  {
    StripAfterCollapse(ipAddress);
    if k > 0 {
      BreakdownOfParsed(CollapseWhitespace(ipAddress), c, k);
    }
  }

  /** The subnet breakdown of text that reads as c, case by case. */
  lemma BreakdownOfParsed(rs: string, c: Cidr, k: int)
    requires ParseCidr(rs) == Some(c) && k > 0
    ensures NetworkOf(c.address, c.prefix) != c.address ==> SubnetBreakdown(rs, k) == Err(HostBitsSet)
    ensures NetworkOf(c.address, c.prefix) == c.address && !(c.prefix <= k <= 32) ==>
      SubnetBreakdown(rs, k) == Err(InvalidSubnetPrefix)
    ensures NetworkOf(c.address, c.prefix) == c.address && c.prefix <= k <= 32 ==>
      SubnetBreakdown(rs, k) == Ok(SubnetInfo(k, Pow2(k - c.prefix), Pow2(32 - k)))
  {
  }

  /** The text of an address and prefix passes the whitespace substitution
      and the strip unchanged and reads back as that address and prefix. */
  lemma ReadFormatted(c: Cidr)
    ensures CollapseWhitespace(FormatCidr(c)) == FormatCidr(c)
    ensures Strip(CollapseWhitespace(FormatCidr(c))) == FormatCidr(c)
    ensures ParseCidr(FormatCidr(c)) == Some(c)
  {
    FormatCidrNoSpace(c);
    CollapseWithoutSpace(FormatCidr(c));
    StripWithoutSpace(FormatCidr(c));
    ParseFormatCidr(c);
  }

  /** Two texts inspect alike when the second reads as the network of the
      block the first reads as, provided a split is not requested or the
      first already names its network. */
  lemma InspectAsNetwork(x: string, y: string, c: Cidr, k: int)
    requires ParseCidr(CollapseWhitespace(x)) == Some(c)
    requires ParseCidr(CollapseWhitespace(y)) == Some(Cidr(NetworkOf(c.address, c.prefix), c.prefix))
    requires k <= 0 || NetworkOf(c.address, c.prefix) == c.address
    ensures InspectIpv4(x, k) == InspectIpv4(y, k)
  {
    var n := NetworkOf(c.address, c.prefix);
    if k > 0 {
      assert Cidr(n, c.prefix) == c;
      InspectOfReading(x, y, k);
    } else {
      NetworkOfNetwork(c.address, c.prefix);
      InspectReads(x, c, k);
      InspectReads(y, Cidr(n, c.prefix), k);
    }
  }

  /** Host bits are discarded: an address and the network address of its
      block inspect alike when no split is requested. */
  lemma InspectIgnoresHostBits(a: Address, p: Prefix)
    ensures InspectIpv4(FormatCidr(Cidr(a, p)), 0) == InspectIpv4(FormatCidr(Cidr(NetworkOf(a, p), p)), 0)
  {
    ReadFormatted(Cidr(a, p));
    ReadFormatted(Cidr(NetworkOf(a, p), p));
    InspectAsNetwork(FormatCidr(Cidr(a, p)), FormatCidr(Cidr(NetworkOf(a, p), p)), Cidr(a, p), 0);
  }

  /** Inspecting the returned network address and prefix again gives the
      identical record. */
  lemma InspectIdempotent(ipAddress: string, k: int)
    requires InspectIpv4(ipAddress, k).Ok?
    ensures var info := InspectIpv4(ipAddress, k).value;
      InspectIpv4(info.networkAddress + "/" + NatToString(info.prefix), k) == Ok(info)
  {
    var c := ParseCidr(CollapseWhitespace(ipAddress)).value;
    var info := InspectIpv4(ipAddress, k).value;
    InspectNames(ipAddress, k);
    var n := NetworkOf(c.address, c.prefix);
    var t := info.networkAddress + "/" + NatToString(info.prefix);
    assert t == FormatCidr(Cidr(n, c.prefix));
    ReadFormatted(Cidr(n, c.prefix));
    InspectAsNetwork(ipAddress, t, c, k);
  }

  /** A successful inspection names the network and prefix the text reads
      as (host bits cleared); with a split requested the text named that
      network exactly. */
  lemma InspectNames(ipAddress: string, k: int)
    requires InspectIpv4(ipAddress, k).Ok?
    ensures ParseCidr(CollapseWhitespace(ipAddress)).Some?
    ensures var c := ParseCidr(CollapseWhitespace(ipAddress)).value;
      var info := InspectIpv4(ipAddress, k).value;
      && info.networkAddress == FormatAddress(NetworkOf(c.address, c.prefix))
      && info.prefix == c.prefix
      && (k > 0 ==> NetworkOf(c.address, c.prefix) == c.address)
  {
    InspectErrors(ipAddress, k);
    InspectReads(ipAddress, ParseCidr(CollapseWhitespace(ipAddress)).value, k);
  }

  /** A whitespace run between the address and the prefix reads like a
      '/': "172.16.0.1 20" and "172.16.0.1/20" inspect alike. */
  lemma InspectWhitespaceSeparator(x: string, w: string, y: string, k: int)
    requires NoSpace(x) && |w| >= 1 && AllSpace(w)
    requires y == [] || !IsSpace(y[0])
    ensures InspectIpv4(x + w + y, k) == InspectIpv4(x + "/" + y, k)
  {
    CollapseRun(x, w, y);
    assert NoSpace(x + "/");
    CollapseAfterPlainText(x + "/", y);
    assert x + "/" + CollapseWhitespace(y) == CollapseWhitespace(x + "/" + y);
    InspectOfReading(x + w + y, x + "/" + y, k);
  }

  /** inspect_ipv4 sees its input only through what the text reads as
      after the whitespace substitution. */
  lemma InspectOfReading(s: string, t: string, k: int)
    requires ParseCidr(CollapseWhitespace(s)) == ParseCidr(CollapseWhitespace(t))
    ensures InspectIpv4(s, k) == InspectIpv4(t, k)
  {
    var parsed := ParseCidr(CollapseWhitespace(s));
    if parsed.None? {
      InspectErrors(s, k);
      InspectErrors(t, k);
    } else {
      var c := parsed.value;
      InspectReads(s, c, k);
      InspectReads(t, c, k);
      if c.prefix >= 1 && k > 0 && NetworkOf(c.address, c.prefix) == c.address && c.prefix <= k <= 32 {
        assert InspectIpv4(s, k) == InspectIpv4(t, k);
      }
    }
  }

  /** Leading whitespace becomes a leading '/', so the address part is
      empty and the text is refused. */
  lemma LeadingWhitespaceRejected(w: string, y: string, k: int)
    requires |w| >= 1 && AllSpace(w)
    ensures InspectIpv4(w + y, k) == Err(ParseError)
  {
    var rs := CollapseWhitespace(w + y);
    var rest := CollapseWhitespace(DropSpaces((w + y)[1..]));
    assert rs == ['/'] + rest;
    SplitPiece([], '/', rest);
    assert [] + ['/'] + rest == rs;
    assert Split([], '.') == [[]];
  }

  /** Trailing whitespace becomes a trailing '/', which leaves an empty
      prefix or a third piece, and the text is refused. */
  lemma TrailingWhitespaceRejected(x: string, w: string, k: int)
    requires |w| >= 1 && AllSpace(w)
    ensures InspectIpv4(x + w, k) == Err(ParseError)
  {
    var rs := CollapseWhitespace(x + w);
    CollapseEndsInSeparator(x + w);
    var r := rs[..|rs| - 1];
    assert rs == r + ['/'];
    TrailingSeparatorUnreadable(r);
    InspectErrors(x + w, k);
  }

  /** A trailing '/' leaves an empty prefix piece or a third piece. */
  lemma TrailingSeparatorUnreadable(r: string)
    ensures ParseCidr(r + ['/']).None?
  {
    SplitTrailingSeparator(r, '/');
    var parts := Split(r + ['/'], '/');
    assert |parts| >= 2 && parts[|parts| - 1] == [];
  }

  /** A prefix that is empty, not decimal digits, or above 32 makes the
      text unreadable: "1.2.3.4/33" and "1.2.3.4/x" are refused. */
  lemma BadPrefixRejected(x: string, d: string, k: int)
    requires NoSpace(x + "/" + d) && '/' !in x && '/' !in d
    requires d == [] || !AllDigits(d) || DigitsValue(d) > 32
    ensures InspectIpv4(x + "/" + d, k) == Err(ParseError)
  {
    CollapseWithoutSpace(x + "/" + d);
    ParseCidrPieces(x, d);
    InspectErrors(x + "/" + d, k);
  }

  /** Text that ends in whitespace ends in '/' after the substitution. */
  lemma {:induction false} CollapseEndsInSeparator(s: string)
    requires |s| >= 1 && IsSpace(s[|s| - 1])
    ensures |CollapseWhitespace(s)| >= 1
    ensures CollapseWhitespace(s)[|CollapseWhitespace(s)| - 1] == '/'
    decreases |s|
  {
    if IsSpace(s[0]) {
      var d := DropSpaces(s[1..]);
      if d != [] {
        assert d[|d| - 1] == s[|s| - 1];
        CollapseEndsInSeparator(d);
      }
    } else {
      CollapseEndsInSeparator(s[1..]);
    }
  }

  // ---- The subnet split of a /32 (see the findings) ----

  /** As written, a /32 network split to any positive prefix reports one
      subnet. Below 32 that subnet has 2^(32 - s) addresses, more than the
      network holds; above 32 the requested prefix is not checked at all. */
  lemma HostRouteSplitAsWritten(a: Address, s: int)
    requires 0 < s
    ensures SubnetCountAsWritten(FormatCidr(Cidr(a, 32)), s) == Ok(1)
    ensures SubnetCountAsWritten(FormatAddress(a), s) == Ok(1)
    ensures s < 32 ==> 1 * HostsInSubnet(s) > HostsInSubnet(32)
  {
    ParseFormatCidr(Cidr(a, 32));
    ParseBareAddress(a);
    if s < 32 {
      Pow2Monotone(1, 32 - s);
    }
  }

  /** Bare address text reads as a /32 network. */
  lemma ParseBareAddress(a: Address)
    ensures ParseCidr(FormatAddress(a)) == Some(Cidr(a, 32))
  {
    var t := FormatAddress(a);
    FormatAddressText(a);
    assert '/' !in t;
    SplitWithoutSeparator(t, '/');
    ParseFormatAddress(a);
  }

  /** The corrected breakdown refuses a /32 network split to any prefix
      other than 32. */
  lemma HostRouteSplitRejected(a: Address, s: int)
    requires 0 < s && s != 32
    ensures SubnetBreakdown(FormatCidr(Cidr(a, 32)), s) == Err(InvalidSubnetPrefix)
  {
    ParseFormatCidr(Cidr(a, 32));
  }

  /** Apart from a /32 network split to a prefix other than 32, the
      corrected breakdown counts what the code as written counts and fails
      where it fails. */
  lemma BreakdownAgreesBelowSlash32(rs: string, s: int)
    requires s > 0
    requires ParseCidr(rs).None? || ParseCidr(rs).value.prefix < 32 || s == 32
    ensures SubnetCountAsWritten(rs, s)
         == match SubnetBreakdown(rs, s)
            case Ok(info) => Ok(info.subnetsCount)
            case Err(e) => Err(e)
  {
  }
}
