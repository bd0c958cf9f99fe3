# krixon/net IP addresses in Dafny

A model of the two immutable IP-address value types of the PHP library
krixon/net, `IPv6Address` and `IPv4Address`, together with explicit
definitions of the PHP primitives they are built from, and proofs of what
the classes promise.

- `errors.dfy` (`Errors`): `Option`, `Result`, and the `InvalidIPAddress`
  failure carrying the refused input (a string or an integer).
- `numerals.dfy` (`Numerals`): digits and their values in a base, the
  spelling of decimal and lower-case hex numerals, and reading them back.
- `text.dfy` (`Text`): `explode`/`implode` on one separator character
  (`Split`/`Join`), `str_split` (`Chunks`), concatenation.
- `bytes.dfy` (`Bytes`): `pack('N')`/`unpack('N')`, `pack('n*')`/`unpack('n*')`
  and `unpack('H*')` on byte strings, with their round trips.
- `dotted_quad.dfy` (`DottedQuad`): the strict dotted-quad validator of
  `filter_var` with `FILTER_FLAG_IPV4`, `ip2long` of an accepted text, and
  `long2ip`.
- `ipv6_text.dfy` (`Ipv6Text`): the IPv6 literal grammar of section 2.2 of
  RFC 4291 (`filter_var` with `FILTER_FLAG_IPV6`, and `inet_pton`), and the
  recommended text form of section 4 of RFC 5952 (`inet_ntop`): lower-case
  hex, no leading zeros, the longest run of two or more zero groups (the
  leftmost of equals) written as "::".
- `ipv6_address.dfy` (`IPv6`): the `IPv6Address` class: construction,
  `toIntegerArray`, `toString`, `toBinaryString`, `expand`, `compress`.
- `ipv4_address.dfy` (`IPv4`): the `IPv4Address` class: construction from
  an integer or a string, `toBinaryString`, `toString`, `toInteger` and
  `toIpv6Address`.
- `examples_from_tests.dfy` (`TestCases`): the cases of the unit tests,
  stated as lemmas about the model.

A thrown `InvalidIPAddress` is a `Failure` carrying the input the class
refused. `IPv4Address`'s private `pack`/`unpack` are `Bytes.PackN` and
`Bytes.UnpackN`; `IPv6Address`'s private `pack` is `inet_pton`, modelled by
`Ipv6Text.InetPton`, and its private `unpack` is `Bytes.UnpackWords`. The stored `$address` binary string is the datatype's
only field.

## Model

| member | source | states |
|---|---|---|
| IPv6.New | src/IPv6Address.php:10-17 | succeeds exactly on IPv6 literals; refuses anything else with InvalidIPAddress carrying the string; stores the big-endian bytes of the literal's eight groups |
| IPv6.FromString | src/IPv6Address.php:20-23 | succeeds exactly on IPv6 literals; refuses anything else with InvalidIPAddress carrying the string; stores the big-endian bytes of the literal's eight groups |
| IPv6.ToIntegerArray | src/IPv6Address.php:34-37 | eight groups, each below 65536, most significant first, that pack back to the stored bytes |
| IPv6.ToString | src/IPv6Address.php:47-52 | the text is a literal that reads back as the stored groups; expanded it is the eight four-digit groups joined by ':', otherwise the RFC 5952 compressed form |
| IPv6.ToBinaryString | src/IPv6Address.php:60-63 | the sixteen stored bytes, the big-endian packing of the integer array |
| IPv6.Expand | src/IPv6Address.php:75-80 | eight groups of four lower-case hex digits joined by ':', 39 characters, denoting the same groups as the input |
| IPv6.Compress | src/IPv6Address.php:92-95 | the RFC 5952 form of the input's groups, a literal that denotes the same groups |
| IPv6.ExpandCompress | src/IPv6Address.php:75-95 | expanding a compressed literal gives the literal's expansion |
| IPv6.ExpandExpand | src/IPv6Address.php:75-80 | expanding is idempotent |
| IPv6.CompressExpand | src/IPv6Address.php:75-95 | compressing an expansion gives the literal's compression; compressing is idempotent |
| IPv6.ToStringOfNew | src/IPv6Address.php:10-52 | an address built from any literal prints, expanded, as `expand` of that literal and, compressed, as `compress` of it |
| IPv6.ToIntegerArrayAsWritten | src/IPv6Address.php:118-121 | the array `unpack('n*')` returns has exactly the keys 1 to 8, key k holding group k-1 |
| IPv6.IntegerArrayKeysStartAtOne | src/IPv6Address.php:26-37 | the documented key 0 is missing from the returned array and key 8 is present |
| Ipv6Text.InetPton | src/IPv6Address.php:105-108 | sixteen bytes whose big-endian words are the literal's groups |
| Ipv6Text.Parse | src/IPv6Address.php:12 | every accepted literal denotes exactly eight groups (what is accepted and refused is stated by the lemmas that follow) |
| Ipv6Text.IsLiteral | src/IPv6Address.php:12 | the validator accepts exactly the texts `Parse` reads as eight groups (no contract of its own; see the acceptance and refusal lemmas) |
| Ipv6Text.LongestZeroRun | src/IPv6Address.php:49 | a run of zero groups inside the groups, no shorter than any other, and the leftmost of the longest |
| Ipv6Text.ParseCompressed | src/IPv6Address.php:49 | what `inet_ntop` prints reads back as the same groups |
| Ipv6Text.CompressedUsesDoubleColon | src/IPv6Address.php:94 | the printed form contains "::" exactly when the groups hold two or more consecutive zeros |
| Ipv6Text.ParseJoinedAround | src/IPv6Address.php:12 | group texts around one "::" denote the head groups, the zeros that make eight, and the tail groups |
| Ipv6Text.ParseJoinedQuad | src/IPv6Address.php:12 | six group texts, ':' and a strict dotted quad read as the six groups and the high and low halves of the quad's value |
| Ipv6Text.ParseAroundQuad | src/IPv6Address.php:12 | group texts around one "::" followed by a dotted quad read as the head groups, the zeros that make eight, the tail groups and the quad's two halves |
| Ipv6Text.TooManyGroupsRefused | src/IPv6Address.php:12-13 | nine or more group texts joined by ':' are refused |
| Ipv6Text.TooManyAroundRefused | src/IPv6Address.php:12-13 | group texts around "::" that already make eight or more groups are refused, since "::" stands for at least one zero group |
| Ipv6Text.SecondDoubleColonRefused | src/IPv6Address.php:12-13 | a text with "::" at two places is refused |
| Ipv6Text.NonGroupPieceRefused | src/IPv6Address.php:12-13 | colon-separated pieces are refused when one is not one to four hex digits, unless it is a strict dotted quad in last place |
| Ipv6Text.Compressed | src/IPv6Address.php:49 | the RFC 5952 text of eight groups (no contract of its own; ParseCompressed and CompressedUsesDoubleColon state it) |
| Ipv6Text.InetNtop | src/IPv6Address.php:94 | `inet_ntop` of sixteen bytes is the RFC 5952 text of their big-endian words (no contract of its own) |
| Ipv6Text.ParseFourDigitGroups | src/IPv6Address.php:79 | eight four-digit groups joined by ':' read back as those groups |
| Bytes.PackWords | src/IPv6Address.php:107 | two bytes per 16-bit word, the byte layout `inet_pton` writes; UnpackPackWords and PackUnpackWords make it the inverse of UnpackWords |
| Bytes.UnpackWords | src/IPv6Address.php:120 | `unpack('n*')` gives half as many words as there are bytes, each read big-endian |
| Bytes.HexOfBytes | src/IPv6Address.php:77 | `unpack('H*')` gives two lower-case hex digits per byte |
| Bytes.UnpackPackWords | src/IPv6Address.php:118-121 | unpacking the big-endian packing of 16-bit words gives the words back |
| Bytes.PackUnpackWords | src/IPv6Address.php:118-121 | packing the words of an even-length byte string gives the bytes back |
| Bytes.HexOfPackedWords | src/IPv6Address.php:77 | the hex dump of packed words is the words' four-digit texts in order |
| IPv6.ColonAfterEachFour | src/IPv6Address.php:79 | the replacement adds one ':' after each full four characters |
| IPv6.DropLast | src/IPv6Address.php:79 | `substr(..., 0, -1)` removes exactly the last character, and gives "" for "" |
| IPv6.ColonAfterEachFourJoins | src/IPv6Address.php:79 | the regular-expression replacement without its last character joins four-character pieces by ':' |
| IPv4.New | src/IPv4Address.php:10-17 | succeeds exactly on 0 to 4294967295; refuses anything else with InvalidIPAddress carrying the integer; the stored bytes read back as the integer |
| IPv4.FromString | src/IPv4Address.php:20-27 | succeeds exactly on strict dotted quads; refuses anything else with InvalidIPAddress carrying the string; the integer is `ip2long` of the text, and the address prints back as that text |
| IPv4.FromInteger | src/IPv4Address.php:30-33 | succeeds exactly on 0 to 4294967295; refuses anything else with InvalidIPAddress carrying the integer; `toInteger` of the result is the given integer |
| IPv4.ToBinaryString | src/IPv4Address.php:41-44 | four bytes, the big-endian encoding of the address's integer |
| IPv4.ToString | src/IPv4Address.php:52-55 | a dotted quad the validator accepts and `ip2long` reads as the address's integer |
| IPv4.ToInteger | src/IPv4Address.php:63-66 | a 32-bit value whose big-endian encoding is the stored bytes |
| IPv4.MappedTextGroups | src/IPv4Address.php:76-78 | the built literal "::ffff:" plus the hex halves denotes five zero groups, 0xffff, and the high and low halves of the integer |
| IPv4.MappedText | src/IPv4Address.php:76-78 | "::ffff:" and the hex dump of the four bytes cut into fours and joined by ':' (no contract of its own; MappedTextGroups states what it reads as) |
| IPv4.MappedQuadGroups | src/IPv4Address.php:74-81 | "::ffff:" followed by a dotted quad of value n reads as the same eight groups as the hex form the class builds |
| IPv4.MappedDottedText | src/IPv4Address.php:74-81 | "::ffff:" followed by this address's dotted text reads as the groups of `toIpv6Address` |
| Text.Chunks | src/IPv4Address.php:77 | `str_split` cuts a text into pieces of the given length, the last one possibly shorter, that concatenate back to it |
| Text.Join | src/IPv4Address.php:77 | `join` puts the separator between neighbouring pieces (no contract of its own; SplitJoin makes Split its inverse) |
| IPv4.ToIpv6Address | src/IPv4Address.php:74-81 | the IPv6 address has the groups 0, 0, 0, 0, 0, 0xffff, n div 65536, n mod 65536, and its last four bytes are this address's bytes |
| Bytes.PackN | src/IPv4Address.php:86 | `pack('N')` gives four bytes worth the value in place values 2^24, 2^16, 2^8, 1 |
| Bytes.UnpackN | src/IPv4Address.php:92 | `unpack('N')` reads four bytes as that place-value sum |
| Bytes.UnpackPackN | src/IPv4Address.php:84-93 | unpacking the packing of a 32-bit value gives it back |
| Bytes.PackUnpackN | src/IPv4Address.php:84-93 | packing the value of four bytes gives the bytes back |
| DottedQuad.Parse | src/IPv4Address.php:22-26 | the validator and `ip2long` (no contract of its own; ParseRefuses, ParseValue and ParseIsInverseOfFormat state it) |
| DottedQuad.Format | src/IPv4Address.php:54 | `long2ip` (no contract of its own; FormatParses and ParseFormats state it) |
| DottedQuad.ParseIsInverseOfFormat | src/IPv4Address.php:22-26 | the validator accepts a text with value n exactly when `long2ip(n)` is that text |
| DottedQuad.FormatParses | src/IPv4Address.php:54 | what `long2ip` prints is accepted and reads back as the printed value |
| DottedQuad.ParseFormats | src/IPv4Address.php:22-26 | every accepted text is what `long2ip` prints for its value |
| DottedQuad.ParseRefuses | src/IPv4Address.php:22-24 | the validator refuses exactly the texts that do not split at dots into four octets |
| DottedQuad.ParseValue | src/IPv4Address.php:26 | an accepted text has four octets and is worth a·2^24 + b·2^16 + c·2^8 + d |
| TestCases.ExpandShort | tests/IPv6AddressTest.php:16-27 | `expand('2607:f0d0:1002:51::4')` is `2607:f0d0:1002:0051:0000:0000:0000:0004` |
| TestCases.CompressLong | tests/IPv6AddressTest.php:36-47 | `compress` of the expanded text is `2607:f0d0:1002:51::4` |
| TestCases.ConstructFirstAddress | tests/IPv6AddressTest.php:56-73 | both the short and the expanded literal construct an address that prints, expanded, as the expanded text |
| TestCases.ConstructSecondAddress | tests/IPv6AddressTest.php:74 | `2001:db8:85a3::8a2e:370:7334` prints, expanded, as `2001:0db8:85a3:0000:0000:8a2e:0370:7334` |
| TestCases.NotAnAddress | src/IPv6Address.php:12-13 | the constructor refuses `not:an:address` |
| TestCases.FromQuad | tests/IPv4AddressTest.php:16-26 | four octet texts joined by '.' are accepted, worth their place values, and print back as themselves |
| TestCases.Loopback | tests/IPv4AddressTest.php:32 | `127.0.0.1` is accepted as 2130706433 |
| TestCases.PrivateAddress | tests/IPv4AddressTest.php:33 | `192.168.0.100` is accepted as 3232235620 |
| TestCases.TenNet | tests/IPv4AddressTest.php:34 | `10.0.0.1` is accepted as 167772161 |
| TestCases.Broadcast | tests/IPv4AddressTest.php:35 | `255.255.255.255` is accepted as 4294967295 |
| TestCases.FirstResolver | tests/IPv4AddressTest.php:122-137 | `8.8.8.8` is accepted as 134744072 and prints as itself |
| TestCases.SecondResolver | tests/IPv4AddressTest.php:37 | `8.8.4.4` is accepted as 134743044 |
| TestCases.FirstResolverBytes | tests/IPv4AddressTest.php:113-119 | the binary string of 134744072 is four bytes of 8, which read back big-endian as 134744072 |
| TestCases.QuadRefused | tests/IPv4AddressTest.php:65-70 | dot-free pieces joined by '.' are refused unless they are four octets |
| TestCases.OctetTooLarge | tests/IPv4AddressTest.php:76 | `255.255.255.256` is refused |
| TestCases.NegativeOctet | tests/IPv4AddressTest.php:77 | `10.0.-1.0` is refused |
| TestCases.FreeText | tests/IPv4AddressTest.php:78 | `not an IP address at all` is refused |
| TestCases.InvalidIntegers | tests/IPv4AddressTest.php:88-102 | PHP_INT_MAX and -1 are refused, with the integer in the error |

## Left out

- PHP's C-level IPv6 validator may differ from the RFC 4291 grammar in corner cases its source shows nowhere; the model accepts exactly the grammar: up to eight groups of one to four hex digits, at most one "::" standing for one or more zero groups, and an optional strict dotted-quad tail worth two groups.
- `inet_ntop` prints IPv4-mapped and IPv4-compatible addresses with a dotted tail (`::ffff:8.8.8.8`); the model always prints hex groups.
- The exception message and class hierarchy of `InvalidIPAddress` are not modelled; a failure carries only the refused input.
- 32-bit PHP builds, where `ip2long('255.255.255.255')` is negative, are not modelled; integers are those of a 64-bit build.
- Equality and hashing of instances are not modelled; the source defines neither.
- The regular expression's character class `[A-f0-9]` runs from 'A' to 'f', so it also admits 'G' to 'Z' and the characters between 'Z' and 'a'; its input is always lower-case hex from `unpack('H*')`, so the model matches four lower-case hex digits.
- IPv6.Expand, IPv6.Compress: take the literal as a precondition; the source does no validation there and PHP would emit warnings on bad input.
- The mapped address of `8.8.8.8` (`::ffff:808:808`) is not stated as a concrete case; IPv4.ToIpv6Address states the groups for every address.
- The PHPUnit test runner and its data providers are not modelled; each test case is a lemma.

## Findings

| source | as written | input that shows it | evidently intended | confidence | as-written member | corrected member |
|---|---|---|---|---|---|---|
| src/IPv6Address.php:26-37 | `toIntegerArray` returns `unpack('n*', ...)`, whose keys are 1 to 8 | any address, e.g. `::1`: key 0 is absent and key 8 holds the least significant group | keys 0 to 7, most significant group at 0, as the doc comment says | not executed | IPv6.ToIntegerArrayAsWritten | IPv6.ToIntegerArray |
