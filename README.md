# IPv4 subnet inspector, modelled in Dafny

`inspect_ipv4(ipAddress, subnets_prefix)` takes an IPv4 network as text.
The text is either `"a.b.c.d/n"` or the address and the prefix separated by
whitespace. The function returns a record of the network's derived facts:
- the network address and the broadcast address;
- the netmask, the hostmask and the prefix length;
- the host range;
- the number of addresses;
- the `network_increment`, the step in the octet the prefix ends in between
  neighbouring networks of the same size;
- optionally, when a positive `subnets_prefix` is given, how many subnets of
  that length the network splits into and how many addresses each subnet
  holds.

This project models that function and the three inner helpers it defines. It
also models the behaviour of Python's `ipaddress` module that the function
relies on:
- how `ip_network` reads the text, with and without `strict`;
- how addresses are written back as dotted decimal;
- masks, broadcast and `num_addresses`;
- how many networks `subnets(new_prefix=...)` enumerates.

Lemmas then prove the properties the function is meant to have. Addresses
are naturals below 2^32, and prefixes are naturals up to 32. Bitwise facts
(masking, OR, complement) are stated bit by bit through `Bit(x, i)`.

Files:
- `arith.dfy` (module `Pow2Arith`): powers of two, bits, and the division
  facts the rest rests on.
- `text.dfy` (module `Text`): Python's whitespace set, `str.split` and
  `str.join` on one separator, and `str(int)` and `int(str)` in decimal.
- `ipv4.dfy` (module `Ipv4`): the `ipaddress` behaviour listed above, with
  round-trip lemmas between reading and writing text.
- `inspector.dfy` (module `Inspector`): `inspect_ipv4`, its helpers, and
  the lemmas about it.
- `vectors.dfy` (module `Vectors`): each worked example in
  `test_ipv4_inspector.py` as a lemma that the model yields the expected
  record.

How the model treats the source's behaviour:
- The whitespace substitution is followed as the code writes it. Every run
  of whitespace becomes one `/`.
- The `strip()` that follows has nothing left to remove (`StripAfterCollapse`).
- Leading or trailing whitespace becomes a leading or trailing `/`, so such
  text is refused (`LeadingWhitespaceRejected`, `TrailingWhitespaceRejected`).
  This is the code's behaviour, and it is stricter than a reading in which
  surrounding whitespace is trimmed away.
- With a split requested, line 58 reads the same text again in strict mode.
  Text whose address has host bits set is then refused with `HostBitsSet`,
  even though the record itself would have been built.

Errors are values of `Inspector.Result`. `ParseError` and `HostBitsSet` stand
for the library's `ValueError`. `InvalidSubnetPrefix` stands for the
`ValueError` that `subnets()` raises. `InvalidPrefix` stands for the message
string returned for a /0 network.

## Model

| member | source | states |
|---|---|---|
| `Inspector.InspectIpv4` | ipv4_inspector.py:33-59 | An accepted input has a prefix of at least 1, `hosts == 2^(32 - prefix)` and an increment from 1 to 128. The record has a `subnets` entry exactly when `subnetsPrefix > 0`. |
| `Inspector.InspectErrors` | ipv4_inspector.py:33-59 | Each error, as an if-and-only-if over what the substituted text reads as. Unreadable text is a parse error, and a /0 is refused. With a split requested, host bits set is an error, and a subnet prefix outside [prefix, 32] is an error. |
| `Inspector.InspectReads` | ipv4_inspector.py:33-59 | For text that reads as address a and prefix p, the exact result in every case. A /0 is refused. Without a split, the result is the record of the network holding a. With a split, the result is either that record plus 2^(s-p) subnets of 2^(32-s) addresses, or the matching error. |
| `Inspector.HostsInSubnet` | ipv4_inspector.py:5-18 | The count is at least 1, and 2^cidrPrefix such blocks fill the 2^32 address space. |
| `Inspector.HostBits` | ipv4_inspector.py:20-28 | For p >= 1, the result is below 8, and p plus the result is a multiple of 8, the next octet boundary. For p = 0 the result is 8. |
| `Inspector.NetworkIncrementRange` | ipv4_inspector.py:20-31 | `ip_increment(host_bits(p))` lies in [1, 128] and equals 1 exactly when p is 8, 16, 24 or 32. |
| `Inspector.NetworkIncrementIsOctetStride` | ipv4_inspector.py:20-31 | A /p block measured in units of the octet the prefix ends in holds exactly `network_increment` units. |
| `Inspector.NextNetworkOctet` | ipv4_inspector.py:53 | Going from a /p network to the next one adds the increment, modulo 256, to the octet the prefix ends in. |
| `Inspector.HostRange` | ipv4_inspector.py:42-50 | The range lies inside [network, broadcast] and is symmetric within it. For /31 and /32 it holds every address; for any other prefix it holds all but two. |
| `Inspector.Describe` | ipv4_inspector.py:44-54 | The record carries the prefix, the address count 2^(32 - p), and an increment of 2^host_bits(p) in [1, 128]. It has no `subnets` entry. |
| `Inspector.DescribeFields` | ipv4_inspector.py:44-52 | Every address field of the record is dotted-decimal text that reads back as the address it names: network, broadcast, netmask, hostmask and both ends of the host range. |
| `Inspector.CollapseWhitespace` | ipv4_inspector.py:33-34 | After the substitution no whitespace is left. |
| `Inspector.Strip` | ipv4_inspector.py:35 | The result neither starts nor ends with whitespace. |
| `Inspector.StripKeepsMiddle` | ipv4_inspector.py:35 | What `strip()` keeps is a contiguous piece of the text, and everything before and after it is whitespace. |
| `Inspector.StripAfterCollapse` | ipv4_inspector.py:33-35 | `strip()` applied after the substitution changes nothing. |
| `Inspector.CollapseRun` | ipv4_inspector.py:33-34 | A whitespace run between whitespace-free text and text that does not start with whitespace becomes exactly one '/'. |
| `Inspector.InspectWhitespaceSeparator` | ipv4_inspector.py:33-35 | `"x<blanks>y"` inspects exactly as `"x/y"`. |
| `Inspector.InspectOfReading` | ipv4_inspector.py:33-35 | Two inputs that read as the same network inspect alike. |
| `Inspector.LeadingWhitespaceRejected` | ipv4_inspector.py:33-35 | Input that starts with whitespace is refused as unreadable. |
| `Inspector.TrailingWhitespaceRejected` | ipv4_inspector.py:33-35 | Any input that ends in whitespace is refused as unreadable. |
| `Inspector.CollapseEndsInSeparator` | ipv4_inspector.py:34 | Text that ends in whitespace ends in '/' after the substitution. |
| `Inspector.TrailingSeparatorUnreadable` | ipv4_inspector.py:35 | Text ending in '/' does not read as a network: the prefix piece is empty or there is a third piece. |
| `Inspector.BadPrefixRejected` | ipv4_inspector.py:33-35 | A prefix that is empty, not decimal digits, or above 32 is refused as unreadable, as in `"1.2.3.4/33"` and `"1.2.3.4/x"`. |
| `Inspector.InspectAsNetwork` | ipv4_inspector.py:35 | Text naming an address inspects like text naming the network of its block, when no split is requested or the address already is that network. |
| `Inspector.InspectIgnoresHostBits` | ipv4_inspector.py:35 | Without a split, "a/p" and "network(a, p)/p" give the same record: host bits are discarded. |
| `Inspector.InspectNames` | ipv4_inspector.py:35-47 | A successful record names the network address (host bits cleared) and the prefix that the text reads as. With a split requested, the text already named that network. |
| `Inspector.InspectIdempotent` | ipv4_inspector.py:35-47 | Inspecting the returned `network_address/prefix` again gives the identical record. |
| `Inspector.SubnetCountAsWritten` | ipv4_inspector.py:58 | The count as the code obtains it: the text is re-read strictly and the library's enumeration is counted. A successful count is at least 1. |
| `Inspector.SubnetCountAsWrittenCases` | ipv4_inspector.py:58 | The as-written count case by case. Unreadable text and host bits set are errors, each as an if-and-only-if. A /32 network counts 1 for every requested prefix. A shorter network counts 2^(s - p) for s in [p, 32] and is an error, as an if-and-only-if, otherwise. |
| `Inspector.SubnetBreakdown` | ipv4_inspector.py:57-59 | Each error as an if-and-only-if: unreadable text, host bits set, a subnet prefix outside [prefix, 32]. On success the count is 2^(s - p) and the hosts are 2^(32 - s), and together the subnets hold exactly the network's addresses. |
| `Inspector.HostRouteSplitAsWritten` | ipv4_inspector.py:58-59 | As written, a /32 split to any s > 0 reports one subnet, for "a/32" text and for bare address text alike. For s < 32 that subnet's 2^(32 - s) addresses are more than the network holds. |
| `Inspector.ParseBareAddress` | ipv4_inspector.py:35 | Address text without a prefix reads as a /32 network. |
| `Inspector.HostRouteSplitRejected` | ipv4_inspector.py:57-59 | The corrected breakdown refuses a /32 split to any prefix other than 32. |
| `Inspector.BreakdownAgreesBelowSlash32` | ipv4_inspector.py:57-59 | The corrected breakdown counts and fails exactly as the code does, except for a /32 base split to a prefix other than 32. |
| `Ipv4.BlockSize` | ipv4_inspector.py:16 | A /p block holds between 1 and 2^32 addresses, and 2^p blocks fill the address space. |
| `Ipv4.NetworkOf` | ipv4_inspector.py:35 | The network address is the multiple of the block size at or just below the address. |
| `Ipv4.NetworkIsMasked` | ipv4_inspector.py:45 | Each bit of the network address is the AND of the address bit and the netmask bit. |
| `Ipv4.NetworkOfNetwork` | ipv4_inspector.py:35 | Clearing host bits twice is the same as clearing them once. |
| `Ipv4.SameNetwork` | ipv4_inspector.py:35 | Two addresses share a /p network exactly when their quotients by the block size agree. |
| `Ipv4.BroadcastOf` | ipv4_inspector.py:46 | The broadcast address is at or above both network and address. The block holds 2^(32 - p) addresses. Broadcast equals network exactly when p = 32. |
| `Ipv4.BroadcastIsNetworkOrHostmask` | ipv4_inspector.py:46 | Each broadcast bit is the OR of the network bit and the hostmask bit. |
| `Ipv4.BlockFits` | ipv4_inspector.py:46 | A block ends within the 32-bit address space. |
| `Ipv4.NetmaskOfAllOnes` | ipv4_inspector.py:48 | `Netmask(p)` is the all-ones address with the host bits of a /p network cleared. |
| `Ipv4.NetmaskBits` | ipv4_inspector.py:48 | The netmask has exactly its top p bits set. |
| `Ipv4.HostmaskIsComplement` | ipv4_inspector.py:52 | The hostmask is the bitwise complement of the netmask. |
| `Ipv4.NumAddresses` | ipv4_inspector.py:51 | `num_addresses` is 2^(32 - p). |
| `Ipv4.Octets` | ipv4_inspector.py:45 | Four octets below 256 that spell the address in base 256. |
| `Ipv4.OctetsOfValue` | ipv4_inspector.py:45 | Four octets below 256 spell an address, and that address has exactly those octets. |
| `Ipv4.FormatAddressText` | ipv4_inspector.py:45 | `FormatAddress` writes digits and exactly three dots. |
| `Ipv4.ParseAddressText` | ipv4_inspector.py:35 | Text that `ParseAddress` accepts is digits and exactly three dots. |
| `Ipv4.ParseCidrText` | ipv4_inspector.py:35 | Text that `ParseCidr` accepts has at most one '/'. The address comes from the text before it. With a '/', the prefix is what `ParsePrefix` reads from the text after it; without one, the prefix is 32. |
| `Ipv4.ParseCidrPieces` | ipv4_inspector.py:35 | `"x/d"` reads as a network exactly when x reads as an address and d is decimal digits of value at most 32. The prefix is then d's value. |
| `Ipv4.ParseOctet` | ipv4_inspector.py:35 | An accepted octet is 1 to 3 ASCII digits with a value below 256. |
| `Ipv4.ParsePrefix` | ipv4_inspector.py:35 | An accepted prefix is a non-empty run of ASCII digits, and its value is the prefix. |
| `Ipv4.ParseFormatAddress` | ipv4_inspector.py:45 | Reading the dotted decimal written for an address gives the address back. |
| `Ipv4.FormatParseAddress` | ipv4_inspector.py:35 | Text accepted as an address is exactly the dotted decimal of that address, so no other spelling is read. |
| `Ipv4.ParseFormatCidr` | ipv4_inspector.py:35 | Reading `"address/prefix"` text gives back the address and the prefix. |
| `Ipv4.SubnetCount` | ipv4_inspector.py:58 | The length of `subnets(new_prefix=s)`. A /32 yields 1. For p < 32 and s in [p, 32] it yields 2^(s - p). Otherwise it is an error. |
| `Ipv4.SubnetEnumeration` | ipv4_inspector.py:58 | Stepping from the network address to the broadcast address by the /s block size visits 2^(s - p) subnets. |
| `Ipv4.RangeLength` | ipv4_inspector.py:58 | `len(range(start, end, step))`: 0 exactly when start >= end; otherwise the last step is below end and the next is not. |
| `Ipv4.RangeLengthExact` | ipv4_inspector.py:58 | A range of k steps has length k. |
| `Text.NatToString` | ipv4_inspector.py:45-47 | `str(n)` is a non-empty run of decimal digits that starts with '0' only for 0. |
| `Text.NatToStringValue` | ipv4_inspector.py:45-47 | Reading back what `str(n)` writes gives n. |
| `Text.SplitCount` | ipv4_inspector.py:35 | `s.split(sep)` has exactly one piece more than s has separators. |
| `Text.SplitJoin` | ipv4_inspector.py:35 | Splitting joined pieces that do not contain the separator gives the pieces back. |
| `Vectors.BasicSlash24` | test_ipv4_inspector.py:34-45 | `"192.168.1.10/24"` yields the listed /24 record, with the host bits cleared. |
| `Vectors.SplitSlash16` | test_ipv4_inspector.py:52-68 | `"10.0.0.0/16"` split to /24 yields the /16 record plus 256 subnets of 256 addresses. |
| `Vectors.PointToPoint` | test_ipv4_inspector.py:75-86 | `"192.168.100.0/31"` yields a range holding both addresses, 2 hosts and an increment of 2. |
| `Vectors.HostRoute` | test_ipv4_inspector.py:93-104 | `"10.1.1.1/32"` yields network = broadcast = 10.1.1.1, 1 host and an increment of 1. |
| `Vectors.LargeSlash8` | test_ipv4_inspector.py:111-122 | `"10.0.0.0/8"` yields the /8 record with 16777216 addresses. |
| `Vectors.BlankSeparator` | test_ipv4_inspector.py:129-140 | `"172.16.0.1 20"` yields the /20 record with an increment of 16. |
| `Vectors.SmallSlash28` | test_ipv4_inspector.py:147-158 | `"192.168.1.0/28"` yields the /28 record with an increment of 16. |
| `Vectors.CrossOctetSlash12` | test_ipv4_inspector.py:165-176 | `"172.16.0.0/12"` yields the /12 record with an increment of 16 in the second octet. |
| `Vectors.SecondPointToPoint` | test_ipv4_inspector.py:186-194 | `"10.10.10.0/31"` yields a range of both addresses and 2 hosts. |
| `Vectors.HostRouteSplitAsWrittenExample` | ipv4_inspector.py:58-59 | As written, `"10.1.1.1/32"` split to /24 counts 1 subnet of 256 addresses, while the network holds 1 address. Split to /33 it also counts 1, and so does the bare `"10.1.1.1"` split to /24. |
| `Vectors.HostRouteSplitExample` | ipv4_inspector.py:57-59 | The model refuses `"10.1.1.1/32"` split to /24 or to /33 with `InvalidSubnetPrefix`. |

## Left out

- The `debug` parameter and the prints at ipv4_inspector.py:60-67 are console
  output. The model has no `debug` parameter, so the record cannot depend on
  it. The mutable default dict at line 4 has no behaviour of its own.
- The record is a Python dict. It is modelled as the datatype `NetworkInfo`,
  and the optional `subnets` key is an `Option` field.
- Exceptions raised by `ipaddress` are `Err` values rather than exceptions.
  The message string returned for a /0 network (lines 37-39) is
  `Err(InvalidPrefix)` rather than a string in place of the record.
- `Ipv4.ParseCidr` reads only dotted-quad addresses with an optional decimal
  prefix. `ip_network` would also accept the following text, which the model
  reports as `ParseError`:
  - IPv6 text;
  - a netmask-style or hostmask-style prefix (`/255.255.0.0`).
- An integer, bytes or a tuple as `ipAddress` makes `re.sub` at line 34
  raise TypeError before `ip_network` is reached. Such arguments lie outside
  the model, whose `ipAddress` is a string.
- `Ipv4.ParseOctet` follows current CPython and refuses octets with a leading
  zero. Older Python releases read such octets as decimal.
- `Inspector.InspectIpv4` does not build the list of subnets at line 58. The
  count is the closed-form length of the enumeration the library performs
  (`RangeLength`), not a materialised list. Performance and memory are not
  modelled.
- `Inspector.InspectIpv4` uses the corrected subnet breakdown described under
  Findings. For a /32 network split to any prefix other than 32, it returns
  `InvalidSubnetPrefix` where the code as written reports one subnet. For a
  requested prefix below 32 that subnet is larger than the network. For a
  requested prefix above 32, `subnets_hosts` is the float 2^(32 - s), below 1.
  The as-written count is kept in `Inspector.SubnetCountAsWritten`.
- `Inspector.HostsInSubnet` takes prefixes up to 32 only. Python computes a
  float for a larger argument. Line 59 reaches it with such a prefix only for
  a /32 base, because for any shorter network line 58 raises first. The
  model refuses that /32 case (see Findings), so no float is modelled.
- `Inspector.IpIncrement` has no contract of its own; it is `Pow2`. What it
  yields at line 53 is stated by `Inspector.NetworkIncrementRange` and
  `Inspector.NetworkIncrementIsOctetStride`.
- Unicode whitespace is the fixed set that `str.isspace` accepts (Python's
  `\s` on `str`). No other Unicode handling is modelled.

## Findings

| source | as written | input that shows it | evidently intended | confidence | as-written member | corrected member |
|---|---|---|---|---|---|---|
| ipv4_inspector.py:58-59 | The subnet count comes from `subnets(new_prefix=s)`. For a /32 network the library yields the network itself for any s and never checks s. So a /32 split to any s other than 32 reports 1 subnet of 2^(32 - s) addresses: more than the network holds for s < 32, and a float below 1 for s > 32. | `inspect_ipv4("10.1.1.1/32", subnets_prefix=24)` reports 1 subnet of 256 addresses for a network of 1 address. `inspect_ipv4("10.1.1.1/32", subnets_prefix=33)` reports 1 subnet of 0.5 addresses. | A subnet prefix outside [prefix, 32] is refused, as it is for every other prefix length. | not executed | `Inspector.HostRouteSplitAsWritten`, `Vectors.HostRouteSplitAsWrittenExample` | `Inspector.SubnetBreakdown`, `Inspector.HostRouteSplitRejected`, `Vectors.HostRouteSplitExample` |
