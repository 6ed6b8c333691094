/** The worked examples that come with the inspector, stated as lemmas about
    the model: each input text inspects to the record listed beside it.
    The proofs are split into one small lemma per numeral, per address and
    per reading, and the reading lemmas take their numbers as parameters
    pinned by their requires, so that each proof obligation stays within
    the solver's resource budget. */
module Vectors {
  import opened Pow2Arith
  import opened Text
  import opened Ipv4
  import opened Inspector

  /** The dotted-decimal text of the address with octets o0 . o1 . o2 . o3. */
  lemma Dotted(o0: nat, o1: nat, o2: nat, o3: nat)
    requires o0 < 256 && o1 < 256 && o2 < 256 && o3 < 256
    ensures ((o0 * 256 + o1) * 256 + o2) * 256 + o3 < AddressSpace
    ensures FormatAddress(((o0 * 256 + o1) * 256 + o2) * 256 + o3)
         == Join([NatToString(o0), NatToString(o1), NatToString(o2), NatToString(o3)], '.')
  {
    OctetsOfValue(o0, o1, o2, o3);
    var a := ((o0 * 256 + o1) * 256 + o2) * 256 + o3;
    assert Octets(a) == [o0, o1, o2, o3];
  }

  /** The record of the /p network at n, field by field. */
  lemma Record(n: Address, p: Prefix)
    requires 1 <= p && n % BlockSize(p) == 0
    ensures Describe(n, p) == NetworkInfo(
      networkAddress := FormatAddress(n),
      broadcastAddress := FormatAddress(BroadcastOf(n, p)),
      prefix := p,
      netmask := FormatAddress(Netmask(p)),
      hostRangeBegin := FormatAddress(HostRange(n, p).0),
      hostRangeEnd := FormatAddress(HostRange(n, p).1),
      hosts := Pow2(32 - p),
      hostmask := FormatAddress(Hostmask(p)),
      networkIncrement := Pow2(HostBits(p)),
      subnets := None)
  {
  }

  /** The powers of two that occur in the examples. */
  lemma Powers()
    ensures Pow2(0) == 1 && Pow2(1) == 2 && Pow2(4) == 16 && Pow2(8) == 256
    ensures Pow2(12) == 4096 && Pow2(16) == 65536 && Pow2(20) == 1048576 && Pow2(24) == 16777216
  {
    Pow2Constants();
    assert Pow2(4) == 16;
    Pow2Add(4, 8);
    Pow2Add(4, 16);
  }

  // ---- Decimal numerals that occur in the examples ----

  lemma Decimal0()
    ensures NatToString(0) == "0"
  {
  }

  lemma Decimal1()
    ensures NatToString(1) == "1"
  {
  }

  lemma Decimal8()
    ensures NatToString(8) == "8"
  {
  }

  lemma Decimal10()
    ensures NatToString(10) == "10"
  {
  }

  lemma Decimal12()
    ensures NatToString(12) == "12"
  {
  }

  lemma Decimal14()
    ensures NatToString(14) == "14"
  {
  }

  lemma Decimal15()
    ensures NatToString(15) == "15"
  {
  }

  lemma Decimal16()
    ensures NatToString(16) == "16"
  {
  }

  lemma Decimal20()
    ensures NatToString(20) == "20"
  {
  }

  lemma Decimal24()
    ensures NatToString(24) == "24"
  {
  }

  lemma Decimal28()
    ensures NatToString(28) == "28"
  {
  }

  lemma Decimal31()
    ensures NatToString(31) == "31"
  {
  }

  lemma Decimal32()
    ensures NatToString(32) == "32"
  {
  }

  lemma Decimal100()
    ensures NatToString(100) == "100"
  {
  }

  lemma Decimal168()
    ensures NatToString(168) == "168"
  {
  }

  lemma Decimal172()
    ensures NatToString(172) == "172"
  {
  }

  lemma Decimal192()
    ensures NatToString(192) == "192"
  {
  }

  lemma Decimal240()
    ensures NatToString(240) == "240"
  {
  }

  lemma Decimal254()
    ensures NatToString(254) == "254"
  {
  }

  lemma Decimal255()
    ensures NatToString(255) == "255"
  {
  }

  // ---- The addresses in the examples, spelled out ----

  lemma Address_0_0_0_0()
    ensures FormatAddress(0) == "0.0.0.0"
  {
    Decimal0();
    Dotted(0, 0, 0, 0);
    assert Join(["0", "0", "0", "0"], '.') == "0.0.0.0";
  }

  lemma Address_0_0_0_1()
    ensures FormatAddress(1) == "0.0.0.1"
  {
    Decimal0(); Decimal1();
    Dotted(0, 0, 0, 1);
    assert Join(["0", "0", "0", "1"], '.') == "0.0.0.1";
  }

  lemma Address_0_0_0_15()
    ensures FormatAddress(15) == "0.0.0.15"
  {
    Decimal0(); Decimal15();
    Dotted(0, 0, 0, 15);
    assert Join(["0", "0", "0", "15"], '.') == "0.0.0.15";
  }

  lemma Address_0_0_0_255()
    ensures FormatAddress(255) == "0.0.0.255"
  {
    Decimal0(); Decimal255();
    Dotted(0, 0, 0, 255);
    assert Join(["0", "0", "0", "255"], '.') == "0.0.0.255";
  }

  lemma Address_0_0_15_255()
    ensures FormatAddress(4095) == "0.0.15.255"
  {
    Decimal0(); Decimal15(); Decimal255();
    Dotted(0, 0, 15, 255);
    assert Join(["0", "0", "15", "255"], '.') == "0.0.15.255";
  }

  lemma Address_0_0_255_255()
    ensures FormatAddress(65535) == "0.0.255.255"
  {
    Decimal0(); Decimal255();
    Dotted(0, 0, 255, 255);
    assert Join(["0", "0", "255", "255"], '.') == "0.0.255.255";
  }

  lemma Address_0_15_255_255()
    ensures FormatAddress(1048575) == "0.15.255.255"
  {
    Decimal0(); Decimal15(); Decimal255();
    Dotted(0, 15, 255, 255);
    assert Join(["0", "15", "255", "255"], '.') == "0.15.255.255";
  }

  lemma Address_0_255_255_255()
    ensures FormatAddress(16777215) == "0.255.255.255"
  {
    Decimal0(); Decimal255();
    Dotted(0, 255, 255, 255);
    assert Join(["0", "255", "255", "255"], '.') == "0.255.255.255";
  }

  lemma Address_10_0_0_0()
    ensures FormatAddress(167772160) == "10.0.0.0"
  {
    Decimal10(); Decimal0();
    Dotted(10, 0, 0, 0);
    assert Join(["10", "0", "0", "0"], '.') == "10.0.0.0";
  }

  lemma Address_10_0_0_1()
    ensures FormatAddress(167772161) == "10.0.0.1"
  {
    Decimal10(); Decimal0(); Decimal1();
    Dotted(10, 0, 0, 1);
    assert Join(["10", "0", "0", "1"], '.') == "10.0.0.1";
  }

  lemma Address_10_0_255_254()
    ensures FormatAddress(167837694) == "10.0.255.254"
  {
    Decimal10(); Decimal0(); Decimal255(); Decimal254();
    Dotted(10, 0, 255, 254);
    assert Join(["10", "0", "255", "254"], '.') == "10.0.255.254";
  }

  lemma Address_10_0_255_255()
    ensures FormatAddress(167837695) == "10.0.255.255"
  {
    Decimal10(); Decimal0(); Decimal255();
    Dotted(10, 0, 255, 255);
    assert Join(["10", "0", "255", "255"], '.') == "10.0.255.255";
  }

  lemma Address_10_1_1_1()
    ensures FormatAddress(167837953) == "10.1.1.1"
  {
    Decimal10(); Decimal1();
    Dotted(10, 1, 1, 1);
    assert Join(["10", "1", "1", "1"], '.') == "10.1.1.1";
  }

  lemma Address_10_10_10_0()
    ensures FormatAddress(168430080) == "10.10.10.0"
  {
    Decimal10(); Decimal0();
    Dotted(10, 10, 10, 0);
    assert Join(["10", "10", "10", "0"], '.') == "10.10.10.0";
  }

  lemma Address_10_10_10_1()
    ensures FormatAddress(168430081) == "10.10.10.1"
  {
    Decimal10(); Decimal1();
    Dotted(10, 10, 10, 1);
    assert Join(["10", "10", "10", "1"], '.') == "10.10.10.1";
  }

  lemma Address_10_255_255_254()
    ensures FormatAddress(184549374) == "10.255.255.254"
  {
    Decimal10(); Decimal255(); Decimal254();
    Dotted(10, 255, 255, 254);
    assert Join(["10", "255", "255", "254"], '.') == "10.255.255.254";
  }

  lemma Address_10_255_255_255()
    ensures FormatAddress(184549375) == "10.255.255.255"
  {
    Decimal10(); Decimal255();
    Dotted(10, 255, 255, 255);
    assert Join(["10", "255", "255", "255"], '.') == "10.255.255.255";
  }

  lemma Address_172_16_0_0()
    ensures FormatAddress(2886729728) == "172.16.0.0"
  {
    Decimal172(); Decimal16(); Decimal0();
    Dotted(172, 16, 0, 0);
    assert Join(["172", "16", "0", "0"], '.') == "172.16.0.0";
  }

  lemma Address_172_16_0_1()
    ensures FormatAddress(2886729729) == "172.16.0.1"
  {
    Decimal172(); Decimal16(); Decimal0(); Decimal1();
    Dotted(172, 16, 0, 1);
    assert Join(["172", "16", "0", "1"], '.') == "172.16.0.1";
  }

  lemma Address_172_16_15_254()
    ensures FormatAddress(2886733822) == "172.16.15.254"
  {
    Decimal172(); Decimal16(); Decimal15(); Decimal254();
    Dotted(172, 16, 15, 254);
    assert Join(["172", "16", "15", "254"], '.') == "172.16.15.254";
  }

  lemma Address_172_16_15_255()
    ensures FormatAddress(2886733823) == "172.16.15.255"
  {
    Decimal172(); Decimal16(); Decimal15(); Decimal255();
    Dotted(172, 16, 15, 255);
    assert Join(["172", "16", "15", "255"], '.') == "172.16.15.255";
  }

  lemma Address_172_31_255_254()
    ensures FormatAddress(2887778302) == "172.31.255.254"
  {
    Decimal172(); Decimal31(); Decimal255(); Decimal254();
    Dotted(172, 31, 255, 254);
    assert Join(["172", "31", "255", "254"], '.') == "172.31.255.254";
  }

  lemma Address_172_31_255_255()
    ensures FormatAddress(2887778303) == "172.31.255.255"
  {
    Decimal172(); Decimal31(); Decimal255();
    Dotted(172, 31, 255, 255);
    assert Join(["172", "31", "255", "255"], '.') == "172.31.255.255";
  }

  lemma Address_192_168_1_0()
    ensures FormatAddress(3232235776) == "192.168.1.0"
  {
    Decimal192(); Decimal168(); Decimal1(); Decimal0();
    Dotted(192, 168, 1, 0);
    assert Join(["192", "168", "1", "0"], '.') == "192.168.1.0";
  }

  lemma Address_192_168_1_1()
    ensures FormatAddress(3232235777) == "192.168.1.1"
  {
    Decimal192(); Decimal168(); Decimal1();
    Dotted(192, 168, 1, 1);
    assert Join(["192", "168", "1", "1"], '.') == "192.168.1.1";
  }

  lemma Address_192_168_1_10()
    ensures FormatAddress(3232235786) == "192.168.1.10"
  {
    Decimal192(); Decimal168(); Decimal1(); Decimal10();
    Dotted(192, 168, 1, 10);
    assert Join(["192", "168", "1", "10"], '.') == "192.168.1.10";
  }

  lemma Address_192_168_1_14()
    ensures FormatAddress(3232235790) == "192.168.1.14"
  {
    Decimal192(); Decimal168(); Decimal1(); Decimal14();
    Dotted(192, 168, 1, 14);
    assert Join(["192", "168", "1", "14"], '.') == "192.168.1.14";
  }

  lemma Address_192_168_1_15()
    ensures FormatAddress(3232235791) == "192.168.1.15"
  {
    Decimal192(); Decimal168(); Decimal1(); Decimal15();
    Dotted(192, 168, 1, 15);
    assert Join(["192", "168", "1", "15"], '.') == "192.168.1.15";
  }

  lemma Address_192_168_1_254()
    ensures FormatAddress(3232236030) == "192.168.1.254"
  {
    Decimal192(); Decimal168(); Decimal1(); Decimal254();
    Dotted(192, 168, 1, 254);
    assert Join(["192", "168", "1", "254"], '.') == "192.168.1.254";
  }

  lemma Address_192_168_1_255()
    ensures FormatAddress(3232236031) == "192.168.1.255"
  {
    Decimal192(); Decimal168(); Decimal1(); Decimal255();
    Dotted(192, 168, 1, 255);
    assert Join(["192", "168", "1", "255"], '.') == "192.168.1.255";
  }

  lemma Address_192_168_100_0()
    ensures FormatAddress(3232261120) == "192.168.100.0"
  {
    Decimal192(); Decimal168(); Decimal100(); Decimal0();
    Dotted(192, 168, 100, 0);
    assert Join(["192", "168", "100", "0"], '.') == "192.168.100.0";
  }

  lemma Address_192_168_100_1()
    ensures FormatAddress(3232261121) == "192.168.100.1"
  {
    Decimal192(); Decimal168(); Decimal100(); Decimal1();
    Dotted(192, 168, 100, 1);
    assert Join(["192", "168", "100", "1"], '.') == "192.168.100.1";
  }

  lemma Address_255_0_0_0()
    ensures FormatAddress(4278190080) == "255.0.0.0"
  {
    Decimal255(); Decimal0();
    Dotted(255, 0, 0, 0);
    assert Join(["255", "0", "0", "0"], '.') == "255.0.0.0";
  }

  lemma Address_255_240_0_0()
    ensures FormatAddress(4293918720) == "255.240.0.0"
  {
    Decimal255(); Decimal240(); Decimal0();
    Dotted(255, 240, 0, 0);
    assert Join(["255", "240", "0", "0"], '.') == "255.240.0.0";
  }

  lemma Address_255_255_0_0()
    ensures FormatAddress(4294901760) == "255.255.0.0"
  {
    Decimal255(); Decimal0();
    Dotted(255, 255, 0, 0);
    assert Join(["255", "255", "0", "0"], '.') == "255.255.0.0";
  }

  lemma Address_255_255_240_0()
    ensures FormatAddress(4294963200) == "255.255.240.0"
  {
    Decimal255(); Decimal240(); Decimal0();
    Dotted(255, 255, 240, 0);
    assert Join(["255", "255", "240", "0"], '.') == "255.255.240.0";
  }

  lemma Address_255_255_255_0()
    ensures FormatAddress(4294967040) == "255.255.255.0"
  {
    Decimal255(); Decimal0();
    Dotted(255, 255, 255, 0);
    assert Join(["255", "255", "255", "0"], '.') == "255.255.255.0";
  }

  lemma Address_255_255_255_240()
    ensures FormatAddress(4294967280) == "255.255.255.240"
  {
    Decimal255(); Decimal240();
    Dotted(255, 255, 255, 240);
    assert Join(["255", "255", "255", "240"], '.') == "255.255.255.240";
  }

  lemma Address_255_255_255_254()
    ensures FormatAddress(4294967294) == "255.255.255.254"
  {
    Decimal255(); Decimal254();
    Dotted(255, 255, 255, 254);
    assert Join(["255", "255", "255", "254"], '.') == "255.255.255.254";
  }

  lemma Address_255_255_255_255()
    ensures FormatAddress(4294967295) == "255.255.255.255"
  {
    Decimal255();
    Dotted(255, 255, 255, 255);
    assert Join(["255", "255", "255", "255"], '.') == "255.255.255.255";
  }

  // ---- "192.168.1.10/24": a /24 network; the host bits of the address are cleared ----

  lemma TextBasicSlash24()
    ensures FormatCidr(Cidr(3232235786, 24)) == "192.168.1.10/24"
  {
    Address_192_168_1_10();
    Decimal24();
  }

  lemma ReadBasicSlash24(n: Address, p: Prefix)
    requires n == 3232235776 && p == 24 && n % BlockSize(p) == 0
    ensures InspectIpv4("192.168.1.10/24", 0) == Ok(Describe(n, p))
  {
    var c := Cidr(3232235786, 24);
    TextBasicSlash24();
    ReadFormatted(c);
    InspectReads("192.168.1.10/24", c, 0);
    Powers();
    assert NetworkOf(3232235786, 24) == 3232235776;
  }

  lemma RecordBasicSlash24(n: Address, p: Prefix)
    requires n == 3232235776 && p == 24 && n % BlockSize(p) == 0
    ensures Describe(n, p) == NetworkInfo(
      networkAddress := "192.168.1.0", broadcastAddress := "192.168.1.255", prefix := 24,
      netmask := "255.255.255.0", hostRangeBegin := "192.168.1.1", hostRangeEnd := "192.168.1.254",
      hosts := 256, hostmask := "0.0.0.255", networkIncrement := 1, subnets := None)
  {
    Powers();
    Record(n, p);
    Address_192_168_1_0();
    Address_192_168_1_255();
    Address_255_255_255_0();
    Address_192_168_1_1();
    Address_192_168_1_254();
    Address_0_0_0_255();
    assert BroadcastOf(3232235776, 24) == 3232236031;
    assert HostRange(3232235776, 24) == (3232235777, 3232236030);
    assert HostBits(24) == 0;
  }

  /** "192.168.1.10/24": a /24 network; the host bits of the address are cleared. */
  lemma BasicSlash24()
    ensures InspectIpv4("192.168.1.10/24", 0) == Ok(NetworkInfo(
      networkAddress := "192.168.1.0", broadcastAddress := "192.168.1.255", prefix := 24,
      netmask := "255.255.255.0", hostRangeBegin := "192.168.1.1", hostRangeEnd := "192.168.1.254",
      hosts := 256, hostmask := "0.0.0.255", networkIncrement := 1, subnets := None))
  {
    Powers();
    assert 3232235776 % BlockSize(24) == 0;
    ReadBasicSlash24(3232235776, 24);
    RecordBasicSlash24(3232235776, 24);
  }

  // ---- "10.0.0.0/16" split to /24: a /16 network split into /24 subnets ----

  lemma TextSplitSlash16()
    ensures FormatCidr(Cidr(167772160, 16)) == "10.0.0.0/16"
  {
    Address_10_0_0_0();
    Decimal16();
  }

  lemma ReadSplitSlash16(n: Address, p: Prefix)
    requires n == 167772160 && p == 16 && n % BlockSize(p) == 0
    ensures InspectIpv4("10.0.0.0/16", 24) == Ok(Describe(n, p).(subnets := Some(SubnetInfo(24, 256, 256))))
  {
    var c := Cidr(167772160, 16);
    TextSplitSlash16();
    ReadFormatted(c);
    InspectReads("10.0.0.0/16", c, 24);
    Powers();
    assert NetworkOf(167772160, 16) == 167772160;
  }

  lemma RecordSplitSlash16(n: Address, p: Prefix)
    requires n == 167772160 && p == 16 && n % BlockSize(p) == 0
    ensures Describe(n, p) == NetworkInfo(
      networkAddress := "10.0.0.0", broadcastAddress := "10.0.255.255", prefix := 16,
      netmask := "255.255.0.0", hostRangeBegin := "10.0.0.1", hostRangeEnd := "10.0.255.254",
      hosts := 65536, hostmask := "0.0.255.255", networkIncrement := 1, subnets := None)
  {
    Powers();
    Record(n, p);
    Address_10_0_0_0();
    Address_10_0_255_255();
    Address_255_255_0_0();
    Address_10_0_0_1();
    Address_10_0_255_254();
    Address_0_0_255_255();
    assert BroadcastOf(167772160, 16) == 167837695;
    assert HostRange(167772160, 16) == (167772161, 167837694);
    assert HostBits(16) == 0;
  }

  /** "10.0.0.0/16" with a split to /24: a /16 network split into /24 subnets. */
  lemma SplitSlash16()
    ensures InspectIpv4("10.0.0.0/16", 24) == Ok(NetworkInfo(
      networkAddress := "10.0.0.0", broadcastAddress := "10.0.255.255", prefix := 16,
      netmask := "255.255.0.0", hostRangeBegin := "10.0.0.1", hostRangeEnd := "10.0.255.254",
      hosts := 65536, hostmask := "0.0.255.255", networkIncrement := 1, subnets := Some(SubnetInfo(24, 256, 256))))
  {
    Powers();
    assert 167772160 % BlockSize(16) == 0;
    ReadSplitSlash16(167772160, 16);
    RecordSplitSlash16(167772160, 16);
  }

  // ---- "192.168.100.0/31": a /31 point-to-point network, whose two addresses are both hosts ----

  lemma TextPointToPoint()
    ensures FormatCidr(Cidr(3232261120, 31)) == "192.168.100.0/31"
  {
    Address_192_168_100_0();
    Decimal31();
  }

  lemma ReadPointToPoint(n: Address, p: Prefix)
    requires n == 3232261120 && p == 31 && n % BlockSize(p) == 0
    ensures InspectIpv4("192.168.100.0/31", 0) == Ok(Describe(n, p))
  {
    var c := Cidr(3232261120, 31);
    TextPointToPoint();
    ReadFormatted(c);
    InspectReads("192.168.100.0/31", c, 0);
    Powers();
    assert NetworkOf(3232261120, 31) == 3232261120;
  }

  lemma RecordPointToPoint(n: Address, p: Prefix)
    requires n == 3232261120 && p == 31 && n % BlockSize(p) == 0
    ensures Describe(n, p) == NetworkInfo(
      networkAddress := "192.168.100.0", broadcastAddress := "192.168.100.1", prefix := 31,
      netmask := "255.255.255.254", hostRangeBegin := "192.168.100.0", hostRangeEnd := "192.168.100.1",
      hosts := 2, hostmask := "0.0.0.1", networkIncrement := 2, subnets := None)
  {
    Powers();
    Record(n, p);
    Address_192_168_100_0();
    Address_192_168_100_1();
    Address_255_255_255_254();
    Address_0_0_0_1();
    assert BroadcastOf(3232261120, 31) == 3232261121;
    assert HostRange(3232261120, 31) == (3232261120, 3232261121);
    assert HostBits(31) == 1;
  }

  /** "192.168.100.0/31": a /31 point-to-point network, whose two addresses are both hosts. */
  lemma PointToPoint()
    ensures InspectIpv4("192.168.100.0/31", 0) == Ok(NetworkInfo(
      networkAddress := "192.168.100.0", broadcastAddress := "192.168.100.1", prefix := 31,
      netmask := "255.255.255.254", hostRangeBegin := "192.168.100.0", hostRangeEnd := "192.168.100.1",
      hosts := 2, hostmask := "0.0.0.1", networkIncrement := 2, subnets := None))
  {
    Powers();
    assert 3232261120 % BlockSize(31) == 0;
    ReadPointToPoint(3232261120, 31);
    RecordPointToPoint(3232261120, 31);
  }

  // ---- "10.1.1.1/32": a /32 host route ----

  lemma TextHostRoute()
    ensures FormatCidr(Cidr(167837953, 32)) == "10.1.1.1/32"
  {
    Address_10_1_1_1();
    Decimal32();
  }

  lemma ReadHostRoute(n: Address, p: Prefix)
    requires n == 167837953 && p == 32 && n % BlockSize(p) == 0
    ensures InspectIpv4("10.1.1.1/32", 0) == Ok(Describe(n, p))
  {
    var c := Cidr(167837953, 32);
    TextHostRoute();
    ReadFormatted(c);
    InspectReads("10.1.1.1/32", c, 0);
    Powers();
    assert NetworkOf(167837953, 32) == 167837953;
  }

  lemma RecordHostRoute(n: Address, p: Prefix)
    requires n == 167837953 && p == 32 && n % BlockSize(p) == 0
    ensures Describe(n, p) == NetworkInfo(
      networkAddress := "10.1.1.1", broadcastAddress := "10.1.1.1", prefix := 32,
      netmask := "255.255.255.255", hostRangeBegin := "10.1.1.1", hostRangeEnd := "10.1.1.1",
      hosts := 1, hostmask := "0.0.0.0", networkIncrement := 1, subnets := None)
  {
    Powers();
    Record(n, p);
    Address_10_1_1_1();
    Address_255_255_255_255();
    Address_0_0_0_0();
    assert BroadcastOf(167837953, 32) == 167837953;
    assert HostRange(167837953, 32) == (167837953, 167837953);
    assert HostBits(32) == 0;
  }

  /** "10.1.1.1/32": a /32 host route. */
  lemma HostRoute()
    ensures InspectIpv4("10.1.1.1/32", 0) == Ok(NetworkInfo(
      networkAddress := "10.1.1.1", broadcastAddress := "10.1.1.1", prefix := 32,
      netmask := "255.255.255.255", hostRangeBegin := "10.1.1.1", hostRangeEnd := "10.1.1.1",
      hosts := 1, hostmask := "0.0.0.0", networkIncrement := 1, subnets := None))
  {
    Powers();
    assert 167837953 % BlockSize(32) == 0;
    ReadHostRoute(167837953, 32);
    RecordHostRoute(167837953, 32);
  }

  // ---- "10.0.0.0/8": a /8 network ----

  lemma TextLargeSlash8()
    ensures FormatCidr(Cidr(167772160, 8)) == "10.0.0.0/8"
  {
    Address_10_0_0_0();
    Decimal8();
  }

  lemma ReadLargeSlash8(n: Address, p: Prefix)
    requires n == 167772160 && p == 8 && n % BlockSize(p) == 0
    ensures InspectIpv4("10.0.0.0/8", 0) == Ok(Describe(n, p))
  {
    var c := Cidr(167772160, 8);
    TextLargeSlash8();
    ReadFormatted(c);
    InspectReads("10.0.0.0/8", c, 0);
    Powers();
    assert NetworkOf(167772160, 8) == 167772160;
  }

  lemma RecordLargeSlash8(n: Address, p: Prefix)
    requires n == 167772160 && p == 8 && n % BlockSize(p) == 0
    ensures Describe(n, p) == NetworkInfo(
      networkAddress := "10.0.0.0", broadcastAddress := "10.255.255.255", prefix := 8,
      netmask := "255.0.0.0", hostRangeBegin := "10.0.0.1", hostRangeEnd := "10.255.255.254",
      hosts := 16777216, hostmask := "0.255.255.255", networkIncrement := 1, subnets := None)
  {
    Powers();
    Record(n, p);
    Address_10_0_0_0();
    Address_10_255_255_255();
    Address_255_0_0_0();
    Address_10_0_0_1();
    Address_10_255_255_254();
    Address_0_255_255_255();
    assert BroadcastOf(167772160, 8) == 184549375;
    assert HostRange(167772160, 8) == (167772161, 184549374);
    assert HostBits(8) == 0;
  }

  /** "10.0.0.0/8": a /8 network. */
  lemma LargeSlash8()
    ensures InspectIpv4("10.0.0.0/8", 0) == Ok(NetworkInfo(
      networkAddress := "10.0.0.0", broadcastAddress := "10.255.255.255", prefix := 8,
      netmask := "255.0.0.0", hostRangeBegin := "10.0.0.1", hostRangeEnd := "10.255.255.254",
      hosts := 16777216, hostmask := "0.255.255.255", networkIncrement := 1, subnets := None))
  {
    Powers();
    assert 167772160 % BlockSize(8) == 0;
    ReadLargeSlash8(167772160, 8);
    RecordLargeSlash8(167772160, 8);
  }

  // ---- "172.16.0.1 20": a blank in place of the '/' ----

  lemma TextBlankSeparator()
    ensures FormatCidr(Cidr(2886729729, 20)) == "172.16.0.1/20"
  {
    Address_172_16_0_1();
    Decimal20();
  }

  lemma ReadBlankSeparator(n: Address, p: Prefix)
    requires n == 2886729728 && p == 20 && n % BlockSize(p) == 0
    ensures InspectIpv4("172.16.0.1/20", 0) == Ok(Describe(n, p))
  {
    var c := Cidr(2886729729, 20);
    TextBlankSeparator();
    ReadFormatted(c);
    InspectReads("172.16.0.1/20", c, 0);
    Powers();
    assert NetworkOf(2886729729, 20) == 2886729728;
  }

  lemma RecordBlankSeparator(n: Address, p: Prefix)
    requires n == 2886729728 && p == 20 && n % BlockSize(p) == 0
    ensures Describe(n, p) == NetworkInfo(
      networkAddress := "172.16.0.0", broadcastAddress := "172.16.15.255", prefix := 20,
      netmask := "255.255.240.0", hostRangeBegin := "172.16.0.1", hostRangeEnd := "172.16.15.254",
      hosts := 4096, hostmask := "0.0.15.255", networkIncrement := 16, subnets := None)
  {
    Powers();
    Record(n, p);
    Address_172_16_0_0();
    Address_172_16_15_255();
    Address_255_255_240_0();
    Address_172_16_0_1();
    Address_172_16_15_254();
    Address_0_0_15_255();
    assert BroadcastOf(2886729728, 20) == 2886733823;
    assert HostRange(2886729728, 20) == (2886729729, 2886733822);
    assert HostBits(20) == 4;
  }

  lemma BlankAsSlash(s: string)
    requires s == "172.16.0.1 20"
    ensures InspectIpv4(s, 0) == InspectIpv4("172.16.0.1/20", 0)
  {
    var x, w, y := "172.16.0.1", " ", "20";
    assert s == x + w + y;
    assert x + "/" + y == "172.16.0.1/20";
    InspectWhitespaceSeparator(x, w, y, 0);
  }

  /** "172.16.0.1 20": a blank in place of the '/'. */
  lemma BlankSeparator()
    ensures InspectIpv4("172.16.0.1 20", 0) == Ok(NetworkInfo(
      networkAddress := "172.16.0.0", broadcastAddress := "172.16.15.255", prefix := 20,
      netmask := "255.255.240.0", hostRangeBegin := "172.16.0.1", hostRangeEnd := "172.16.15.254",
      hosts := 4096, hostmask := "0.0.15.255", networkIncrement := 16, subnets := None))
  {
    Powers();
    assert 2886729728 % BlockSize(20) == 0;
    ReadBlankSeparator(2886729728, 20);
    RecordBlankSeparator(2886729728, 20);
    BlankAsSlash("172.16.0.1 20");
  }

  // ---- "192.168.1.0/28": a /28 network, whose increment is 16 in the last octet ----

  lemma TextSmallSlash28()
    ensures FormatCidr(Cidr(3232235776, 28)) == "192.168.1.0/28"
  {
    Address_192_168_1_0();
    Decimal28();
  }

  lemma ReadSmallSlash28(n: Address, p: Prefix)
    requires n == 3232235776 && p == 28 && n % BlockSize(p) == 0
    ensures InspectIpv4("192.168.1.0/28", 0) == Ok(Describe(n, p))
  {
    var c := Cidr(3232235776, 28);
    TextSmallSlash28();
    ReadFormatted(c);
    InspectReads("192.168.1.0/28", c, 0);
    Powers();
    assert NetworkOf(3232235776, 28) == 3232235776;
  }

  lemma RecordSmallSlash28(n: Address, p: Prefix)
    requires n == 3232235776 && p == 28 && n % BlockSize(p) == 0
    ensures Describe(n, p) == NetworkInfo(
      networkAddress := "192.168.1.0", broadcastAddress := "192.168.1.15", prefix := 28,
      netmask := "255.255.255.240", hostRangeBegin := "192.168.1.1", hostRangeEnd := "192.168.1.14",
      hosts := 16, hostmask := "0.0.0.15", networkIncrement := 16, subnets := None)
  {
    Powers();
    Record(n, p);
    Address_192_168_1_0();
    Address_192_168_1_15();
    Address_255_255_255_240();
    Address_192_168_1_1();
    Address_192_168_1_14();
    Address_0_0_0_15();
    assert BroadcastOf(3232235776, 28) == 3232235791;
    assert HostRange(3232235776, 28) == (3232235777, 3232235790);
    assert HostBits(28) == 4;
  }

  /** "192.168.1.0/28": a /28 network, whose increment is 16 in the last octet. */
  lemma SmallSlash28()
    ensures InspectIpv4("192.168.1.0/28", 0) == Ok(NetworkInfo(
      networkAddress := "192.168.1.0", broadcastAddress := "192.168.1.15", prefix := 28,
      netmask := "255.255.255.240", hostRangeBegin := "192.168.1.1", hostRangeEnd := "192.168.1.14",
      hosts := 16, hostmask := "0.0.0.15", networkIncrement := 16, subnets := None))
  {
    Powers();
    assert 3232235776 % BlockSize(28) == 0;
    ReadSmallSlash28(3232235776, 28);
    RecordSmallSlash28(3232235776, 28);
  }

  // ---- "172.16.0.0/12": a /12 network, whose increment is 16 in the second octet ----

  lemma TextCrossOctetSlash12()
    ensures FormatCidr(Cidr(2886729728, 12)) == "172.16.0.0/12"
  {
    Address_172_16_0_0();
    Decimal12();
  }

  lemma ReadCrossOctetSlash12(n: Address, p: Prefix)
    requires n == 2886729728 && p == 12 && n % BlockSize(p) == 0
    ensures InspectIpv4("172.16.0.0/12", 0) == Ok(Describe(n, p))
  {
    var c := Cidr(2886729728, 12);
    TextCrossOctetSlash12();
    ReadFormatted(c);
    InspectReads("172.16.0.0/12", c, 0);
    Powers();
    assert NetworkOf(2886729728, 12) == 2886729728;
  }

  lemma RecordCrossOctetSlash12(n: Address, p: Prefix)
    requires n == 2886729728 && p == 12 && n % BlockSize(p) == 0
    ensures Describe(n, p) == NetworkInfo(
      networkAddress := "172.16.0.0", broadcastAddress := "172.31.255.255", prefix := 12,
      netmask := "255.240.0.0", hostRangeBegin := "172.16.0.1", hostRangeEnd := "172.31.255.254",
      hosts := 1048576, hostmask := "0.15.255.255", networkIncrement := 16, subnets := None)
  {
    Powers();
    Record(n, p);
    Address_172_16_0_0();
    Address_172_31_255_255();
    Address_255_240_0_0();
    Address_172_16_0_1();
    Address_172_31_255_254();
    Address_0_15_255_255();
    assert BroadcastOf(2886729728, 12) == 2887778303;
    assert HostRange(2886729728, 12) == (2886729729, 2887778302);
    assert HostBits(12) == 4;
  }

  /** "172.16.0.0/12": a /12 network, whose increment is 16 in the second octet. */
  lemma CrossOctetSlash12()
    ensures InspectIpv4("172.16.0.0/12", 0) == Ok(NetworkInfo(
      networkAddress := "172.16.0.0", broadcastAddress := "172.31.255.255", prefix := 12,
      netmask := "255.240.0.0", hostRangeBegin := "172.16.0.1", hostRangeEnd := "172.31.255.254",
      hosts := 1048576, hostmask := "0.15.255.255", networkIncrement := 16, subnets := None))
  {
    Powers();
    assert 2886729728 % BlockSize(12) == 0;
    ReadCrossOctetSlash12(2886729728, 12);
    RecordCrossOctetSlash12(2886729728, 12);
  }

  // ---- "10.10.10.0/31": another /31 network ----

  lemma TextSecondPointToPoint()
    ensures FormatCidr(Cidr(168430080, 31)) == "10.10.10.0/31"
  {
    Address_10_10_10_0();
    Decimal31();
  }

  lemma ReadSecondPointToPoint(n: Address, p: Prefix)
    requires n == 168430080 && p == 31 && n % BlockSize(p) == 0
    ensures InspectIpv4("10.10.10.0/31", 0) == Ok(Describe(n, p))
  {
    var c := Cidr(168430080, 31);
    TextSecondPointToPoint();
    ReadFormatted(c);
    InspectReads("10.10.10.0/31", c, 0);
    Powers();
    assert NetworkOf(168430080, 31) == 168430080;
  }

  lemma RecordSecondPointToPoint(n: Address, p: Prefix)
    requires n == 168430080 && p == 31 && n % BlockSize(p) == 0
    ensures Describe(n, p) == NetworkInfo(
      networkAddress := "10.10.10.0", broadcastAddress := "10.10.10.1", prefix := 31,
      netmask := "255.255.255.254", hostRangeBegin := "10.10.10.0", hostRangeEnd := "10.10.10.1",
      hosts := 2, hostmask := "0.0.0.1", networkIncrement := 2, subnets := None)
  {
    Powers();
    Record(n, p);
    Address_10_10_10_0();
    Address_10_10_10_1();
    Address_255_255_255_254();
    Address_0_0_0_1();
    assert BroadcastOf(168430080, 31) == 168430081;
    assert HostRange(168430080, 31) == (168430080, 168430081);
    assert HostBits(31) == 1;
  }

  /** "10.10.10.0/31": another /31 network. */
  lemma SecondPointToPoint()
    ensures InspectIpv4("10.10.10.0/31", 0) == Ok(NetworkInfo(
      networkAddress := "10.10.10.0", broadcastAddress := "10.10.10.1", prefix := 31,
      netmask := "255.255.255.254", hostRangeBegin := "10.10.10.0", hostRangeEnd := "10.10.10.1",
      hosts := 2, hostmask := "0.0.0.1", networkIncrement := 2, subnets := None))
  {
    Powers();
    assert 168430080 % BlockSize(31) == 0;
    ReadSecondPointToPoint(168430080, 31);
    RecordSecondPointToPoint(168430080, 31);
  }

  // ---- "10.1.1.1/32" split to /24 or /33: the finding on host routes ----

  /** As written, the host route 10.1.1.1/32 split to /24 reports one
      subnet of 256 addresses, more than the single address it holds; split
      to /33 it also reports one subnet, and so does the bare address
      "10.1.1.1", which reads as /32. */
  lemma HostRouteSplitAsWrittenExample()
    ensures SubnetCountAsWritten("10.1.1.1/32", 24) == Ok(1)
    ensures SubnetCountAsWritten("10.1.1.1/32", 33) == Ok(1)
    ensures SubnetCountAsWritten("10.1.1.1", 24) == Ok(1)
    ensures HostsInSubnet(24) == 256 && HostsInSubnet(32) == 1
  {
    TextHostRoute();
    Address_10_1_1_1();
    HostRouteSplitAsWritten(167837953, 24);
    HostRouteSplitAsWritten(167837953, 33);
    Powers();
  }

  /** With the requested prefix checked for every network, the same input
      is refused for a split to /24 and to /33. */
  lemma HostRouteSplitExample()
    ensures InspectIpv4("10.1.1.1/32", 24) == Err(InvalidSubnetPrefix)
    ensures InspectIpv4("10.1.1.1/32", 33) == Err(InvalidSubnetPrefix)
  {
    HostRouteSplitRefused(24);
    HostRouteSplitRefused(33);
  }

  lemma HostRouteSplitRefused(k: int)
    requires 0 < k && k != 32
    ensures InspectIpv4("10.1.1.1/32", k) == Err(InvalidSubnetPrefix)
  {
    var c := Cidr(167837953, 32);
    TextHostRoute();
    ReadFormatted(c);
    InspectReads("10.1.1.1/32", c, k);
  }
}
