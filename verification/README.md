# tcpstats: a model and its proofs

tcpstats is a FreeBSD character device that streams one fixed-size record for every TCP connection a reader may see
and a filter string asks for, together with user-space readers for FreeBSD and macOS.  This project models

* the filter language: its parser, which works destructively in one buffer, the struct it fills, and the chain of
  checks that runs the struct against every socket (`Text`, `Numbers`, `Bits`, `Cidr`, `Ipv4`, `Ipv6`, `Ipv6Exact`,
  `Filter`, `FilterParser`, `Matching`);
* what a filter string means, which strings are accepted and which mean the same, and what shape a compiled filter has
  (`Meaning`, `Settings`, `Words`, `Acceptance`, `Shape`, `Printing`, `Reordering`, `CaseFolding`);
* the read path with its limits, counters and life cycle, the record it emits, why a socket is skipped, and what a
  client sees of the sockets it asked for (`Record`, `Layout`, `Scan`, `Skips`, `Device`, `Families`);
* the atomic counters under every interleaving: admission, the batched statistics and the maximum (`Admission`,
  `Flush`, `CasMax`);
* the registry of named profiles (`Profiles`, `Effects`, `Registry`);
* the readers: the 320-byte records joined with `kern.file`, and the macOS tagged stream (`Kld`, `Pcblist`,
  `Written`).

Run `dafny verify dfyconfig.toml` to check everything.

## How to read it

Code that changes things step by step is a method over arrays or objects with the loops and branches of the
original, and its contract equates the outcome with a pure function: `FilterParser.ParseFilterString` with
`Filter.Compile`, `Matching.RunChain` with `Matching.Judge`, `Scan.ScanSockets` with the relation `Scan.IsScan`,
`Registry.SetHandler` with `Profiles.Serve`, `Pcblist.ParsePcblistN` with `Pcblist.ParsePcblist`.  What the original
promises is then proved about those functions as lemmas, in terms of texts, bytes and numbers that are written out:
what each word of a filter string stands for (`Settings`, `Words`), where each byte of a record lies (`Layout`), what is
read of values that were written (`Written`, `Kld.ParseKernFile`), what a request does to the list of profiles
(`Effects`).  Threads are steps of a state machine; the lemmas speak of every state of every run.

A bit mask is the set of the numbers of its one bits.  Ports and IPv4 addresses are host-order numbers, IPv6
addresses are sixteen bytes.  A character buffer is an array with C strings in it (`Text.IsCStr`).

`Device.EndToEnd` puts the parts together: string, struct, scan, bytes, decoded records.

## Where code and documentation differ

The model follows the code.

* The documentation lets a tab separate directives; the printable check refuses it first (`Shape.TabsRejected`).
* An address directive is documented as a CIDR block; because a zero IPv6 network stands for an unused field, one with
  a prefix longer than 0, such as the single address `::`, selects every address (`Shape.BlockUnlessZero`).
* An address filter says nothing about sockets of the other family, and the matcher looks at the IPv4 bit first
  while the record filler looks at the IPv6 bit first.  So a record need not show an address of the network that was
  asked for, nor version 4 under `ipv4_only`: of the sockets a filter constrains, exactly those with both bits break
  the promise (`Families.KeepsPromise4`, `Families.KeepsPromise6`, `Families.ShownEndToEnd`;
  `Families.DualBitExample` is one).
* The order of directives matters in exactly three cases: two different `format`s, two different `fields` lists, and
  an empty `exclude` together with `include_state` (`Reordering.SwapExactly`).
* Texts with an embedded dotted quad are listed as handled; they are refused (`Ipv6Exact.EmbeddedQuadRefused`).
* IPv6 texts outside RFC 4291 are accepted: with text after the eighth group, a third colon, or runs of more than four
  digits (`Ipv6Exact.TrailingTextIgnored`, `Ipv6Exact.ExtraColonSkipped`, `Ipv6Exact.LongRunSplit`).  An accepted text
  is one of the two forms if and only if it is tidy, which a caller can check (`Ipv6Exact.RfcExactly`).
* The integration test expects visited to be emitted plus skipped; that leaves out scans that were cut short
  (`Flush.TestEquationExactly`).
* Profile names of 32 characters pass validation but lose their last character when stored (`Profiles.PutUnique`,
  `Profiles.FoundAfterCreate`).
* The offsets of the macOS reader put the version byte inside the remote IPv6 address, so the reader takes a socket for
  IPv6 exactly when one bit of that address is set (`Written.RemoteOverlapsVersion`).
* A macOS record that is said to be shorter than its own header makes the reader panic instead of returning an error
  (`Pcblist.BadRecordSpoils`).
* The macOS reader's length tests are strict: a field that ends with the body is not read (`Pcblist.StrictLength`).

A read that runs into its deadline returns success with the records so far, as documented, and the descriptor is
finished.  `Scan.CompleteExactly` says when such an answer is complete, `Scan.ShortListComplete` when a caller can know
that it is, and `Scan.DeadlineCutsShort` when it is not.

## Model

| member | source | states |
|---|---|---|
| `Numbers.PortExact` | kmod/tcpstats/tcp_statsdev_filter.c:368-420 | a text is accepted as a port with value v if and only if 1 <= v <= 65535 and the text is the decimal text of v |
| `Numbers.NumberExact` | kmod/tcpstats/tcp_statsdev_filter.c:603-643 | a text is accepted as a prefix length with value v if and only if v is at most the maximum and the text is the decimal text of v |
| `Numbers.DecimalInjective` | kmod/tcpstats/tcp_statsdev_filter.c:405-418 | two numbers with the same decimal text are equal, so printing and parsing undo each other |
| `Numbers.ReadDigits` | kmod/tcpstats/tcp_statsdev_filter.c:396-406 | the shared digit loop succeeds exactly on digits and returns their decimal value |
| `Numbers.ParsePortNumber` | kmod/tcpstats/tcp_statsdev_filter.c:368-420 | the port parser, reading at most six characters of a C string, computes exactly that function |
| `Numbers.ParsePrefixLength` | kmod/tcpstats/tcp_statsdev_filter.c:603-643 | the prefix parser computes exactly that function although it looks at only four characters |
| `Text.StrSep` | kmod/tcpstats/tcp_statsdev_filter.c:208-218 | `strsep` cuts the C string at its first delimiter: both halves are C strings and only the delimiter's byte changes |
| `Text.LowerInPlace` | kmod/tcpstats/tcp_statsdev_filter.c:275-277 | the lower-casing loop leaves the lower-cased C string and writes inside it only |
| `Text.LowerCase` | kmod/tcpstats/tcp_statsdev_filter.c:275-277 | lower case takes one alphabet to the other and leaves every other character |
| `Text.StrLCpy` | kmod/tcpstats/tcp_statsdev_filter.c:656-676 | `strlcpy` leaves the text, or its first size-1 characters, as a terminated C string |
| `Text.JoinOfFields` | kmod/tcpstats/tcp_statsdev_filter.c:684-727 | splitting at a character and joining again is the identity |
| `Text.FieldsOfJoin` | kmod/tcpstats/tcp_statsdev_filter.c:684-727 | joining separator-free parts and splitting again is the identity |
| `Text.ItemsOfJoin` | kmod/tcpstats/tcp_statsdev_filter.c:208-218 | non-empty parts joined by a delimiter are the pieces of the joined text |
| `Text.ItemsAdd` | kmod/tcpstats/tcp_statsdev_filter.c:208-218 | the pieces of two texts with a delimiter between them are the pieces of the one, then those of the other |
| `Ipv4.V4Exact` | kmod/tcpstats/tcp_statsdev_filter.c:645-754 | a text is accepted as network n if and only if n has zero host bits and the text is its canonical dotted quad, with the prefix length after a slash or, for /32, without |
| `Ipv4.ParseOctet` | kmod/tcpstats/tcp_statsdev_filter.c:685-714 | the digit loop reads at most four digits: on success an octet that no digit follows, on failure the dot-separated field is no octet |
| `Ipv4.SeparateV4` | kmod/tcpstats/tcp_statsdev_filter.c:653-676 | the address before the slash is copied into a sixteen-byte buffer, or refused exactly when it does not fit |
| `Ipv4.ReadPrefix` | kmod/tcpstats/tcp_statsdev_filter.c:666-669 | the prefix length after the slash, the longest one without a slash |
| `Ipv4.NextOctet` | kmod/tcpstats/tcp_statsdev_filter.c:684-727 | one turn of the octet loop accepts exactly a canonical octet of at most 255 that is followed by a dot, or by the end after the fourth |
| `Ipv4.ParseOctets` | kmod/tcpstats/tcp_statsdev_filter.c:678-738 | the four-octet loop accepts exactly the dotted quads and stores their octets |
| `Ipv4.LongAddress` | kmod/tcpstats/tcp_statsdev_filter.c:660-675 | refusing sixteen characters or more before the slash refuses no valid address |
| `Ipv4.CombineV4` | kmod/tcpstats/tcp_statsdev_filter.c:735-751 | shifting and or-ing the octets gives the 32-bit value, and the `addr & ~mask` test is the test for zero host bits |
| `Ipv4.ParseIpv4Addr` | kmod/tcpstats/tcp_statsdev_filter.c:645-754 | the whole IPv4 parser computes exactly that function, address and contiguous netmask |
| `Ipv6.EightGroups` | kmod/tcpstats/tcp_statsdev_filter.c:786-891 | every eight groups of one to four hex digits, of either case, joined by colons parse to the sixteen bytes of those groups (form 1 of section 2.2 of RFC 4291) |
| `Ipv6.CompressedGroups` | kmod/tcpstats/tcp_statsdev_filter.c:786-891 | every `pre::post` with at most seven groups, at any split, parses to pre, zeros and post (form 2) |
| `Ipv6.GroupBytesValue` | kmod/tcpstats/tcp_statsdev_filter.c:885-891 | the sixteen bytes are the same 128-bit number as the eight groups |
| `Ipv6.GroupBound` | kmod/tcpstats/tcp_statsdev_filter.c:841-853 | a group of one to four hex digits is below 0x10000, so no group is truncated |
| `Ipv6.V6TextExact` | kmod/tcpstats/tcp_statsdev_filter.c:756-913 | with or without a prefix length, a text of either form parses to exactly its network, or is refused exactly when the prefix length is not 0 and host bits are set |
| `Ipv6.ParseGroup` | kmod/tcpstats/tcp_statsdev_filter.c:816-853 | the hex loop accepts exactly one to four hex digits up to a colon, slash or the end, and computes their value |
| `Ipv6.ExpandGap` | kmod/tcpstats/tcp_statsdev_filter.c:857-876 | the backward in-place shift and the zero fill leave exactly the groups before the gap, zeros, and the groups after it |
| `Ipv6.ReadGroup` | kmod/tcpstats/tcp_statsdev_filter.c:816-854 | one hex group is stored in the next slot and the cursor moves to its end |
| `Ipv6.GroupTurn` | kmod/tcpstats/tcp_statsdev_filter.c:789-855 | one turn of the group loop: `::` once, a single colon skipped, a group read |
| `Ipv6.ToBytes` | kmod/tcpstats/tcp_statsdev_filter.c:885-891 | the eight groups become sixteen bytes, high byte first |
| `Ipv6.ParseAddress6` | kmod/tcpstats/tcp_statsdev_filter.c:786-891 | the address without its prefix length |
| `Ipv6.ScanGroups` | kmod/tcpstats/tcp_statsdev_filter.c:786-855 | the group loop accepts exactly what the recursive reading accepts, with the same groups and gap |
| `Ipv6.ParseIpv6Addr` | kmod/tcpstats/tcp_statsdev_filter.c:756-913 | the whole IPv6 parser computes exactly the function that the text lemmas are about |
| `Ipv6Exact.RfcExactly` | kmod/tcpstats/tcp_statsdev_filter.c:786-891 | a text is one of forms 1 and 2 of RFC 4291 if and only if it is accepted and tidy: no slash, no `:::`, no field of more than four characters, and at most seven non-empty fields or exactly eight fields |
| `Ipv6Exact.V6Exact` | kmod/tcpstats/tcp_statsdev_filter.c:756-913 | a text with a tidy address is read as network n if and only if n has no host bits below a non-zero prefix length and the text is an RFC 4291 spelling of it, with its prefix length or, for /128, without |
| `Ipv6Exact.EmbeddedQuadRefused` | kmod/tcpstats/tcp_statsdev_filter.c:816-839 | form 3, a dotted quad after up to seven groups with or without `::`, is refused |
| `Ipv6Exact.TrailingTextIgnored` | kmod/tcpstats/tcp_statsdev_filter.c:789-855 | whatever follows the eighth group is ignored if the group has four digits or a colon or slash comes next |
| `Ipv6Exact.ExtraColonSkipped` | kmod/tcpstats/tcp_statsdev_filter.c:805-814 | one colon too many after `::` is skipped |
| `Ipv6Exact.LongRunSplit` | kmod/tcpstats/tcp_statsdev_filter.c:822-855 | a run of hex digits of any length, after a colon or not, is read as if a colon stood after its first four digits |
| `Cidr.ShiftIsBlock` | kmod/tcpstats/tcp_statsdev.c:829-855 | comparing the top bits of two numbers is membership in the interval of the network, when the network has no host bits |
| `Cidr.MaskIsBlock` | kmod/tcpstats/tcp_statsdev.c:1297-1301 | the IPv4 mask comparison is membership in the interval [net, net + 2^(32-p)) |
| `Cidr.BlocksNestOrDisjoint` | kmod/tcpstats/tcp_statsdev_filter.c:915-951 | two accepted blocks are nested or disjoint |
| `Cidr.MatchV6Prefix` | kmod/tcpstats/tcp_statsdev.c:829-855 | the byte-wise prefix match compares exactly the top p bits of the two 128-bit numbers |
| `Cidr.ValidateV6Cidr` | kmod/tcpstats/tcp_statsdev_filter.c:915-951 | the validator accepts exactly prefix length 0 and the addresses whose low 128-p bits are zero |
| `Cidr.AndHost4` | kmod/tcpstats/tcp_statsdev_filter.c:740-751 | `addr & ~mask` is the host part of the address |
| `Filter.ParsedIsDirective` | kmod/tcpstats/tcp_statsdev_filter.c:256-362 | every token that is read gives a well-formed directive: distinct ports in 1..65535, states at most 10, networks without host bits, a non-empty field mask within 0x3FF |
| `FilterParser.Cut` | kmod/tcpstats/tcp_statsdev_filter.c:208-218 | one `strsep` of a splitting loop: the pieces so far and the pieces of what is left are the pieces of the whole, and only bytes of what was left change |
| `FilterParser.CopyInput` | kmod/tcpstats/tcp_statsdev_filter.c:189-200 | the copy succeeds exactly for printable input and leaves the text before the first NUL as a C string |
| `FilterParser.LookupName` | kmod/tcpstats/tcp_statsdev_filter.c:492-497 | the table search with `strcmp` finds the first entry with the name |
| `FilterParser.LookupState` | kmod/tcpstats/tcp_statsdev_filter.c:480-501 | looking a state name up through a 31-character copy gives what the full name would |
| `FilterParser.AddPort` | kmod/tcpstats/tcp_statsdev_filter.c:440-464 | one turn of the port loop: refused exactly when it is one too many, malformed or a repetition; otherwise stored in the next slot |
| `FilterParser.ReadPortList` | kmod/tcpstats/tcp_statsdev_filter.c:437-470 | the port loop accepts exactly lists of one to eight distinct ports and leaves them, then unused slots, in the array |
| `FilterParser.Contains` | kmod/tcpstats/tcp_statsdev_filter.c:455-462 | the duplicate search finds exactly the ports stored so far |
| `FilterParser.AddState` | kmod/tcpstats/tcp_statsdev_filter.c:525-539 | one turn of a state loop: refused exactly when unknown or repeated; otherwise its bit is new |
| `FilterParser.LookupGroup` | kmod/tcpstats/tcp_statsdev_filter.c:1036-1047 | one field item is lower-cased in place and looked up; the rest of the list is untouched |
| `FilterParser.FilterStruct.ParsePortList` | kmod/tcpstats/tcp_statsdev_filter.c:422-474 | a port directive does to the struct exactly what it means, or fails |
| `FilterParser.FilterStruct.ParseExcludeList` | kmod/tcpstats/tcp_statsdev_filter.c:503-542 | clearing the state bits one by one is the meaning of `exclude`, with its duplicate and conflict checks |
| `FilterParser.FilterStruct.ParseIncludeStateList` | kmod/tcpstats/tcp_statsdev_filter.c:544-597 | the same for `include_state` |
| `FilterParser.FilterStruct.ParseFormat` | kmod/tcpstats/tcp_statsdev_filter.c:999-1020 | the same for `format` |
| `FilterParser.FilterStruct.ParseFieldList` | kmod/tcpstats/tcp_statsdev_filter.c:1022-1063 | the same for `fields`, lower-casing each item in place |
| `FilterParser.FilterStruct.ParseAddr` | kmod/tcpstats/tcp_statsdev_filter.c:953-993 | the same for the address directives of either direction and family |
| `FilterParser.FilterStruct.CopyFrom` | kmod/tcpstats/tcp_statsdev_filter.c:247-249 | the final structure copy gives `out` every field of the temporary struct |
| `FilterParser.FilterStruct.SetFlag` | kmod/tcpstats/tcp_statsdev_filter.c:298-318 | the two version flags are set, and refuse a value |
| `FilterParser.SplitKey` | kmod/tcpstats/tcp_statsdev_filter.c:260-277 | splitting a token at its first `=`: lower-cased key, value untouched, empty value refused, nothing written outside the token |
| `FilterParser.FilterStruct.Dispatch` | kmod/tcpstats/tcp_statsdev_filter.c:279-361 | the dispatch on the first character, then the whole key, loses no key and accepts no other |
| `FilterParser.FilterStruct.ParseDirective` | kmod/tcpstats/tcp_statsdev_filter.c:256-362 | one token in place: it writes only inside the token's bytes and does to the struct what the token means |
| `FilterParser.LaterTokensStay` | kmod/tcpstats/tcp_statsdev_filter.c:235-240 | non-interference: work inside one token leaves every later token as it was first cut |
| `FilterParser.NextToken` | kmod/tcpstats/tcp_statsdev_filter.c:208-218 | one turn of pass 1: an empty piece is dropped, another becomes the next token, and the earlier tokens stay |
| `FilterParser.Tokenize` | kmod/tcpstats/tcp_statsdev_filter.c:202-219 | pass 1 accepts at most sixteen tokens, which are the pieces between blanks, each a C string that ends before the next starts |
| `FilterParser.ParseTokens` | kmod/tcpstats/tcp_statsdev_filter.c:235-240 | pass 2 runs the tokens in order on the struct, stopping at the first error |
| `FilterParser.ParseFilterString` | kmod/tcpstats/tcp_statsdev_filter.c:163-250 | for every input the parser returns the outcome of the pure compilation; on success `out` is its filter, on any error `out` is unchanged |
| `Settings.KeysAndValues` | kmod/tcpstats/tcp_statsdev_filter.c:260-277 | for a key without an equals sign, `key=value` has that key in lower case and that value |
| `Settings.StatesExactly` | kmod/tcpstats/tcp_statsdev_filter.c:87-107 | a word stands for the TCP state n if and only if its lower case is one of the fourteen names written out with the numbers 0 to 10; the aliases are those of 10, 5 and 3 |
| `Words.TokenAccepted` | kmod/tcpstats/tcp_statsdev_filter.c:256-362 | a token is a directive if and only if it is a version flag without a value, or one of the eight keys with a non-empty right value: one to eight different port numbers, names of different states (at least one for `include_state`), a network, `compact` or `full`, or at least one field group |
| `Words.ReadAllExactly` | kmod/tcpstats/tcp_statsdev_filter.c:437-542 | a list is read if and only if every item is read and no two items are read as the same value |
| `Settings.SettingsMeaning` | kmod/tcpstats/tcp_statsdev_filter.c:1000-1063 | for every accepted string: the format is 1 if and only if the last token with key `format` has the value `full` in any case, else 0; the field mask has exactly the fields named, one by one, in the last token with key `fields`, or fields 0 to 3 and 7 without one |
| `Meaning.TokenMeaning` | kmod/tcpstats/tcp_statsdev_filter.c:256-362 | the directive read from a token holds of a socket exactly when the text of the token says so |
| `Meaning.ApplyMeaning` | kmod/tcpstats/tcp_statsdev.c:1170-1366 | adding one directive to the struct adds exactly its condition to the chain of checks |
| `Meaning.CheckStep` | kmod/tcpstats/tcp_statsdev.c:1170-1366 | a directive adds its condition to its own one of the four checks and changes no other check |
| `Meaning.CompiledMeaning` | kmod/tcpstats/tcp_statsdev.c:1170-1366 | meaning preservation: for every accepted string and every visible socket of the snapshot, the chain emits the socket if and only if every directive of the string, read on its own, holds of it |
| `Meaning.SpelledBlock` | kmod/tcpstats/tcp_statsdev_filter.c:756-913 | an address filter with an RFC 4291 text says that the 128-bit address of an IPv6-only socket lies in the written block, or that the network or the prefix length is zero |
| `Skips.CheckMeaning` | kmod/tcpstats/tcp_statsdev.c:1185-1330 | the filter of a string passes each of the four checks exactly when every token whose key belongs to that check says so of the socket |
| `Skips.VerdictMeaning` | kmod/tcpstats/tcp_statsdev.c:1170-1366 | the verdict of the chain by the tokens alone: newer than the snapshot, then the version tokens, the state tokens, visibility, the port tokens, the address tokens |
| `Skips.CountersMeaning` | kmod/tcpstats/tcp_statsdev.c:1170-1366 | each of the six skip counters of a scan is the number of judged positions whose socket passes the earlier checks of the string and fails this one |
| `Matching.FindPort` | kmod/tcpstats/tcp_statsdev.c:1245-1254 | the port loop finds exactly the ports before the first unused slot |
| `Matching.CheckPort` | kmod/tcpstats/tcp_statsdev.c:1238-1292 | the port check of one direction |
| `Matching.CheckAddr` | kmod/tcpstats/tcp_statsdev.c:1295-1330 | the address check of one direction, IPv4 bit first, zero IPv6 network as any |
| `Matching.RunChain` | kmod/tcpstats/tcp_statsdev.c:1170-1366 | the chain of early `continue`s gives the verdict of the first check that fails |
| `Acceptance.AppliesExactly` | kmod/tcpstats/tcp_statsdev_filter.c:235-240 | directives can be added one after the other if and only if none clashes with an earlier one: same direction of ports or address, `exclude` after `include_state`, `include_state` after another or after an `exclude` that names a state |
| `Acceptance.CompatibleExactly` | kmod/tcpstats/tcp_statsdev_filter.c:1069-1114 | the cross-directive checks pass if and only if the directives do not name both IP versions or a version and a non-zero network of the other family |
| `Acceptance.AcceptedExactly` | kmod/tcpstats/tcp_statsdev_filter.c:163-250 | a string is accepted if and only if it is empty up to its first NUL, or it is at most 511 printable characters with at most sixteen tokens that are all directives, none clashing with an earlier one, with fitting versions; the error is ENAMETOOLONG if and only if it is 512 characters or longer and does not start with NUL |
| `Shape.CompiledShape` | kmod/tcpstats/tcp_statsdev_filter.c:229-249 | the output invariant: version 2, known flags, never both IP versions, one family per direction, contiguous masks without host bits, distinct non-zero ports then zeros with the flag set exactly when non-empty, field mask non-zero within 0x3FF, one of the two legal state masks |
| `Shape.TabsRejected` | kmod/tcpstats/tcp_statsdev_filter.c:189-197 | no accepted non-empty string contains a tab, although the documentation allows tabs |
| `Shape.BlockUnlessZero` | kmod/tcpstats/tcp_statsdev.c:1312-1318 | an IPv6 filter means its CIDR block if and only if the network is not zero or the prefix length is 0 |
| `Printing.PrintedIsRead` | kmod/tcpstats/tcp_statsdev_filter.c:256-362 | printing and parsing: every well-formed directive without repeated states has a text that is read as that directive |
| `Printing.Text6Read` | kmod/tcpstats/tcp_statsdev_filter.c:756-913 | every IPv6 network is read back from its eight-group text with a prefix length |
| `Printing.Text4Read` | kmod/tcpstats/tcp_statsdev_filter.c:645-754 | every IPv4 network is read back from its dotted quad with a prefix length |
| `Printing.StateNameRead` | kmod/tcpstats/tcp_statsdev_filter.c:87-107 | every state has a name that is read as it, before all aliases |
| `Printing.GroupNameRead` | kmod/tcpstats/tcp_statsdev_filter.c:111-128 | every field group has a name that is read as its one bit |
| `Printing.Printed` | kmod/tcpstats/tcp_statsdev_filter.c:163-250 | every well-shaped compatible filter is the filter of some string of at most 511 characters |
| `Printing.TokensOfJoin` | kmod/tcpstats/tcp_statsdev_filter.c:202-219 | printable words without blanks, joined by spaces, are the tokens of the string |
| `Printing.ShapeIsExact` | kmod/tcpstats/tcp_statsdev_filter.c:163-250 | the filters that strings compile to are exactly the well-shaped compatible ones |
| `Reordering.SwapExactly` | kmod/tcpstats/tcp_statsdev_filter.c:503-597 | two directives give the same result in either order from every filter if and only if neither overwrites the other and no empty `exclude` meets `include_state` |
| `Reordering.Rearrange` | kmod/tcpstats/tcp_statsdev_filter.c:235-240 | any two arrangements of pairwise commuting tokens run to the same result |
| `Reordering.OrderIndependent` | kmod/tcpstats/tcp_statsdev_filter.c:163-250 | two strings with the same commuting directives in any order have the same outcome |
| `Reordering.PlainOrderIndependent` | kmod/tcpstats/tcp_statsdev_filter.c:163-250 | the same in a caller's terms: `format` and `fields` at most once and no empty `exclude` |
| `CaseFolding.V6Lower` | kmod/tcpstats/tcp_statsdev_filter.c:822-839 | the case of hexadecimal digits does not matter |
| `CaseFolding.TokenLower` | kmod/tcpstats/tcp_statsdev_filter.c:256-362 | a token means the same in lower case |
| `CaseFolding.CaseInvariant` | kmod/tcpstats/tcp_statsdev_filter.c:163-250 | for every input, replacing A-Z by a-z changes neither the outcome nor the filter |
| `Record.RecordSize` | kmod/tcpstats/tcp_statsdev.h:57-155 | the field widths add up to 320 bytes |
| `Record.CutConcat` | src/platform/freebsd_layout.rs:28-115 | cutting laid-out fields at their widths gives the same fields |
| `Record.ConcatCut` | src/platform/freebsd_layout.rs:28-115 | any bytes of the right length are the layout of the fields cut from them |
| `Record.LeRoundTrip` | src/platform/freebsd.rs:121-129 | a number that fits is read back from its bytes |
| `Record.LowByteFirst` | src/platform/freebsd.rs:121-129 | two, four and eight bytes are worth what they are low byte first |
| `Record.FillWidths` | kmod/tcpstats/tcp_statsdev.c:861-902 | a filled record has the declared width in every field |
| `Kld.FilledShows` | kmod/tcpstats/tcp_statsdev.c:861-902 | a filled record converts to one that shows the socket: ports, state, id, generation, version and addresses |
| `Kld.FilledDetails` | kmod/tcpstats/tcp_statsdev.c:861-902 | and the record length, both flag bits, the owner and the six timers, where negative timers become 0 |
| `Layout.EmittedBytes` | kmod/tcpstats/tcp_statsdev.h:57-155 | every emitted record byte by byte: version and length in bytes 0 to 7, flags at 8, family at 16, ports at 20 and 22, addresses at 24 and 40, state at 56, the control block's fields from 60 to 247, socket address, owner and generation at 248, 256 and 260, zeros from 268 |
| `Layout.ReadBytes` | src/platform/freebsd.rs:145-280 | the same for the reader on any 320 bytes: which bytes give ports, addresses and version, state, the six timers from 208 on, socket address, owner and generation |
| `Kld.EmittedIsAccepted` | src/platform/freebsd.rs:96-142 | whatever is emitted is accepted by the record parser: one record per socket, in order, showing that socket |
| `Kld.ParseKldRecords` | src/platform/freebsd.rs:96-142 | all records or none: a size that is no multiple of 320, or the first wrong version, is the error; otherwise record i is the conversion of chunk i |
| `Kld.ParseKernFile` | src/platform/freebsd.rs:317-380 | for whatever list of entries the buffer was written from (size, pid, uid, fd, flags, type, padding, data, then padding up to the stride), the map holds, for every socket address among them, the pid and fd of the first socket entry with it, negative ones included, and nothing else; degenerate strides give the empty map |
| `Kld.ReadKernFile` | src/platform/freebsd.rs:317-380 | the walk over the entries, for any buffer: the first socket entry with an address wins |
| `Kld.EnrichWithPidMapping` | src/platform/freebsd.rs:282-299 | the in-place join gives every record its joined form |
| `Kld.JoinIsFirstEntry` | src/platform/freebsd.rs:282-299 | a record gets the pid and fd of the first socket entry with its id, and is unchanged if there is none |
| `Scan.ScanSockets` | kmod/tcpstats/tcp_statsdev.c:1127-1391 | the scan loop emits the records of the selected ones among the sockets it judged, with an exact tally, stops early only for room, a signal, the deadline or a copy error, and leaves no socket locked |
| `Scan.RecordsAreSelected` | kmod/tcpstats/tcp_statsdev.c:1127-1385 | the records are a prefix of the selected sockets, at most floor(resid/320); and exactly the first floor(resid/320) of them unless a signal, the deadline or a copy error stopped the scan |
| `Scan.Undisturbed` | kmod/tcpstats/tcp_statsdev.c:1147-1164 | a scan that meets no signal, passed deadline or copy error on its way ends by running out of sockets or room |
| `Scan.CompleteExactly` | kmod/tcpstats/tcp_statsdev.c:1127-1385 | a scan, however it ended, emitted all it should if and only if the buffer has no room for another record or no selected socket is left among those it did not judge |
| `Scan.ShortListComplete` | kmod/tcpstats/tcp_statsdev.c:1142-1168 | with fewer than 1024 sockets and no copy error the scan is complete, whatever signals and clock do |
| `Scan.DeadlineCutsShort` | kmod/tcpstats/tcp_statsdev.c:1157-1164 | a longer list whose deadline has passed by the 1024th visit, with a selected socket still to come, ends without an error and with fewer records |
| `Scan.StopsSoon` | kmod/tcpstats/tcp_statsdev.c:1142-1168 | once a signal is pending or the deadline has passed, at most 1024 more sockets are visited |
| `Scan.ScanBalanced` | kmod/tcpstats/tcp_statsdev.c:1139-1383 | visited = emitted + six skip counts + timed out + interrupted + copy errors, where each of the last three is 1 if the scan ended that way and 0 otherwise |
| `Device.ScanEndsFor` | kmod/tcpstats/tcp_statsdev.c:1107-1168 | how a scan ends in terms of signals, clock and the limit in milliseconds: no multiple of 1024 visits goes by after a signal or more than the limit; with sockets and room left, EINTR for a signal at such a visit, else success by timeout, else EFAULT for a failed copy; never a timeout with limit 0 |
| `Device.PlusFields` | kmod/tcpstats/tcp_statsdev.c:213-255 | counters are added field by field, each to itself |
| `Device.Globals.Read` | kmod/tcpstats/tcp_statsdev.c:1050-1421 | a read is empty when the descriptor is finished, refused with EBUSY and without a trace exactly when the readers are at the limit or the last read was less than the interval ago, or scans and finishes the descriptor however it ends; the time limit, the error and the timeout are stated in the tunables and the clock; the reader slot is given back, no socket stays locked and the counters stay balanced on every way out |
| `Device.Ioctl` | kmod/tcpstats/tcp_statsdev.c:1423-1466 | the ioctls: wrong filter version refused, reset clears the finished flag only |
| `Device.QuietUntilReset` | kmod/tcpstats/tcp_statsdev.c:1078-1079 | after a scan has ended for any reason, every later read up to the next reset succeeds and returns nothing |
| `Device.FilterIsLastSet` | kmod/tcpstats/tcp_statsdev.c:1447-1459 | in every history the filter in force is the last one set with the right version |
| `Device.EndToEnd` | kmod/tcpstats/tcp_statsdev.c:1050-1421 | from the string to the decoded records: the selected sockets are those the string asks for, what any scan emits decodes into one record for each of the first of them, in order, each showing its socket, and the answer is complete if and only if the buffer is full or no asked socket is left |
| `Device.EndToEndShort` | kmod/tcpstats/tcp_statsdev.c:1050-1421 | with fewer than 1024 sockets, a buffer for all and no copy error, every asked socket is decoded |
| `Families.Shown4` | kmod/tcpstats/tcp_statsdev.c:1297-1301 | a socket selected by an IPv4 network filter through its IPv4 address is shown with an address of the network if and only if it has not the IPv6 bit too |
| `Families.Shown6` | kmod/tcpstats/tcp_statsdev.c:871-880 | a socket with only the IPv6 bit that an IPv6 network filter selects is shown with an address the filter means |
| `Families.ShownVersion` | kmod/tcpstats/tcp_statsdev.c:871-880 | a record is of version 4 if and only if the socket has not the IPv6 bit |
| `Families.KeepsPromise4` | kmod/tcpstats/tcp_statsdev.c:1295-1311 | among all sockets with the same two version bits, an IPv4 network filter always shows addresses of its network if and only if the bits are IPv4 and not IPv6 |
| `Families.KeepsPromise6` | kmod/tcpstats/tcp_statsdev.c:1312-1329 | the same for a non-zero IPv6 network: if and only if the bits are IPv6 and not IPv4 |
| `Families.DualBitShown` | kmod/tcpstats/tcp_statsdev.c:871-880 | every socket with both bits whose IPv4 address is in a network is asked for by that network's filter string and shown as version 6 with its IPv6 address |
| `Families.DualBitVersion` | kmod/tcpstats/tcp_statsdev.c:1185-1196 | every socket with both bits is asked for by `ipv4_only` and shown as version 6 |
| `Families.DualBitExample` | kmod/tcpstats/tcp_statsdev.c:871-880 | a concrete one: 10.0.0.1 and ::1, selected by the filter for 10.0.0.1 and not shown with it |
| `Families.ShownEndToEnd` | src/platform/freebsd.rs:145-160 | for every directive of an accepted string and every decoded record: an address or version filter shows what it was asked for exactly for sockets without the other bit |
| `Admission.Admitted` | kmod/tcpstats/tcp_statsdev.c:384-401 | in every state of every interleaving, with the limit changing at any time, holders never exceed the largest limit so far, and the counter is holders plus attempts in flight |
| `Admission.FixedLimit` | kmod/tcpstats/tcp_statsdev.c:801-820 | while the limit is unchanged it is never exceeded |
| `Admission.NoUnderflow` | kmod/tcpstats/tcp_statsdev.c:1468-1477 | no decrement takes the counter below zero |
| `Admission.Decision` | kmod/tcpstats/tcp_statsdev.c:1082-1086 | an attempt is let in exactly when holders plus attempts in flight at its increment were below the limit; with nothing in flight, exactly when a slot is free |
| `Admission.SpuriousRefusal` | kmod/tcpstats/tcp_statsdev.c:1082-1086 | a run in which an attempt is refused although no slot is held |
| `CasMax.RunSafe` | kmod/tcpstats/tcp_statsdev.c:260-272 | in every state of every interleaving the maximum equals the largest value of any finished update |
| `CasMax.NeverDecreases` | kmod/tcpstats/tcp_statsdev.c:260-272 | the maximum never decreases |
| `CasMax.NothingLost` | kmod/tcpstats/tcp_statsdev.c:260-272 | the value of a finished update stays at most the maximum for ever |
| `CasMax.FailureMeansProgress` | kmod/tcpstats/tcp_statsdev.c:264-271 | an exchange fails if and only if another update raised the maximum since the load |
| `Flush.QuietTotals` | kmod/tcpstats/tcp_statsdev.c:213-255 | after any interleaving of per-field additions, once no flush is under way the totals are the sums of the batches and balance |
| `Flush.TestEquationExactly` | tests/kmod-integration/src/targets/sysctl_counters.rs:10-11 | the equation of the integration test holds of the quiet totals if and only if no scan was ever cut short by a signal, the deadline or a copy error |
| `Flush.UnbalancedInBetween` | kmod/tcpstats/tcp_statsdev.c:213-255 | a run in which the totals do not balance while a flush is under way |
| `Profiles.ServeGood` | kmod/tcpstats/tcp_statsdev.c:598-760 | every request keeps at most sixteen profiles, each with the filter its untruncated text compiles to; a rejected request changes nothing |
| `Profiles.RunGood` | kmod/tcpstats/tcp_statsdev.c:598-760 | the same after every run of requests |
| `Profiles.RunUnique` | kmod/tcpstats/tcp_statsdev.c:697-760 | after every run of requests with names shorter than 32 characters, names are unique |
| `Profiles.PutUnique` | kmod/tcpstats/tcp_statsdev.c:697-743 | setting a profile keeps names unique if and only if the name exists or its stored form does not |
| `Profiles.FoundAfterCreate` | kmod/tcpstats/tcp_statsdev.c:722-743 | a new profile is found under its name if and only if the name is shorter than 32 characters |
| `Profiles.ProfileMeaning` | kmod/tcpstats/tcp_statsdev.c:371-406 | in every reachable registry, the filter of a profile selects exactly the sockets its stored text asks for |
| `Effects.SetEffect` | kmod/tcpstats/tcp_statsdev.c:598-760 | writing `name text`: the five errors and when each occurs; else the first profile with that name has exactly that text and its filter and every other profile is as it was, or a new one is at the head |
| `Effects.DeleteEffect` | kmod/tcpstats/tcp_statsdev.c:635-668 | writing a name alone: the first profile with that name is gone, every other is as it was, in the same order |
| `Effects.SetOneEffect` | kmod/tcpstats/tcp_statsdev.c:504-590 | writing to a profile's node: an empty text removes it, another replaces text and filter of the first profile with the name, or fails without one |
| `Effects.UniqueEffects` | kmod/tcpstats/tcp_statsdev.c:487-495 | with unique names, a removal leaves exactly the profiles with other names |
| `Registry.ProfileList.Lookup` | kmod/tcpstats/tcp_statsdev.c:450-461 | the search returns the first profile with the name |
| `Registry.ProfileList.Detach` | kmod/tcpstats/tcp_statsdev.c:487-495 | detaching removes one profile from the list and keeps the count equal to the length |
| `Registry.ProfileList.Delete` | kmod/tcpstats/tcp_statsdev.c:656-666 | deleting removes the profile with the name, if there is one |
| `Registry.ProfileList.Update` | kmod/tcpstats/tcp_statsdev.c:699-710 | an update replaces text and filter of one struct in place |
| `Registry.ProfileList.Insert` | kmod/tcpstats/tcp_statsdev.c:722-743 | a new profile with the stored form of its name goes to the head of the list |
| `Registry.ProfileList.Store` | kmod/tcpstats/tcp_statsdev.c:697-743 | update, else create within the limit of sixteen and with a device |
| `Registry.SetHandler` | kmod/tcpstats/tcp_statsdev.c:598-760 | the create/update/delete handler does to the list of structs, and to the count, what the request means |
| `Registry.SetOneHandler` | kmod/tcpstats/tcp_statsdev.c:504-590 | the per-profile handler likewise |
| `Registry.DestroyAll` | kmod/tcpstats/tcp_statsdev.c:762-789 | the list is emptied and the sixteen-slot array holds every detached profile without overflow |
| `Pcblist.RuleEffect` | src/platform/macos.rs:115-295 | a record body sets exactly the fields whose length test it passes, each to what its bytes say |
| `Pcblist.StrictLength` | src/platform/macos.rs:212-231 | a length test asks whether the field fits, except that a field of several bytes at the very end of a body is not read |
| `Pcblist.GroupsCut` | src/platform/macos.rs:354-363 | the groups are the stream from its first socket record on, cut before every socket record |
| `Pcblist.OnePerSocket` | src/platform/macos.rs:354-378 | one connection per socket record |
| `Pcblist.UnknownIgnored` | src/platform/macos.rs:365-368 | records of an unknown kind may be inserted anywhere without changing the result |
| `Pcblist.ReadsWhatWasWritten` | src/platform/macos.rs:310-381 | for any header and trailer, whatever tagged records are written are read back as one connection per group of them |
| `Pcblist.BadRecordSpoils` | src/platform/macos.rs:330-352 | after any records, one that is said to be longer than the rest of the buffer is an error, and one that is said to be shorter than its header makes the reader panic |
| `Written.ConnectionsRoundTrip` | src/platform/macos.rs:310-381 | whatever connections are written, five records each at the offsets of the kernel's structs, ports high byte first, numbers low byte first, negative pids and states included, are read back in order with all 34 fields as written |
| `Written.GroupRead` | src/platform/macos.rs:115-295 | the same for the five records of one connection |
| `Written.GroupsOfFlat` | src/platform/macos.rs:354-363 | cutting the records of several groups, written one after the other, gives those groups |
| `Written.RemoteOverlapsVersion` | src/platform/macos_layout.rs:43-55 | a record with a given remote IPv6 address that is read as IPv6 exists if and only if bit 1 of the thirteenth byte of the address is set, because that byte is the version byte |
| `Pcblist.Accumulator.Read` | src/platform/macos.rs:115-151 | the length-guarded reads of one record body, rule by rule |
| `Pcblist.Accumulator.ParseXSocket` | src/platform/macos.rs:116-131 | a socket record starts a connection with its own fields |
| `Pcblist.Accumulator.Take` | src/platform/macos.rs:363-368 | the dispatch on the other kinds |
| `Pcblist.Accumulator.ParseXInpcb` | src/platform/macos.rs:153-210 | the address record: IPv6 bit first, then the fields of that family, then ports and generation |
| `Pcblist.Dispatch` | src/platform/macos.rs:354-369 | a socket record finishes the connection before it and starts a new one; any other record adds to the current one |
| `Pcblist.ReadStream` | src/platform/macos.rs:330-378 | the loop over the tagged records ends for every buffer and collects exactly the connections of the records before the end |
| `Pcblist.ParsePcblistN` | src/platform/macos.rs:310-381 | the parser returns exactly the specified outcome, errors and panics included |

## Left out

- Kernel services: device nodes, credentials, memory allocation, virtual network stacks and the delivery of sysctl
  data; what the model needs of them is a parameter (visibility of a socket, a failed device node, the input string).
- Signals, the clock and copy errors are functions of how far a scan has come; a pending signal stays pending and the
  clock does not go back.
- The socket list is the sequence of blocks the iterator visits; blocks that come and go during a scan are not
  modelled beyond the generation check.
- A call on the same descriptor during a scan: the filter of a descriptor does not change while it is being read.
- Device.Globals.Read: asks for a filter with prefix lengths of at most 128, as every compiled filter has; a filter set
  by ioctl is not checked for that by the original, which then compares beyond the sixteen bytes of an address.
- Matching.CheckAddr: asks for the same.
- Matching.RunChain: asks for the same.
- Scan.ScanSockets: asks for the same; and an IPv4 address and an IPv6 address of the same block are independent here,
  while the original stores one inside the other.
- The wrap-around of the 32-bit and 64-bit counters, and the race between opening a profile and updating it.
- Byte order: numbers in records and streams are little-endian, as on the machines that both write and read them.
- Fields of a record that are copied one for one (windows, sequence numbers, buffers, names) are bytes without a
  meaning; only their place and width are modelled.  Times in ticks are converted but not related to real time.
- Registry.SetHandler: the input is a C string that is trimmed and split as a value, not in its buffer; log lines and
  the last-error text are left out.
- Registry.SetOneHandler: takes the name as a value; the original keeps a node's pointer to the name inside the struct
  after the profile is deleted and its memory freed, and what a later write to such a node does is not modelled.
- Error texts, logging, probes, the read side of the sysctls and the version reply's contents.
- Command line, exporter, JSON and protobuf output, the echo tools and their rate limiter, and the build files.
