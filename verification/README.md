# arptables command line, modelled in Dafny

This project models the user-space half of `arptables`: the program that
turns one command line into rules for the kernel's ARP filter. The model
follows `arptables.c` from the text parsers up to the calls the program
makes on the rule engine (libarptc):

- **Libc** (`libc.dfy`) holds small models of the libc parsers the program
  leans on (`strtol`, `sscanf("%llu")`, `ether_aton`, `strchr`/`strrchr`),
  plus `string_to_number`.
- **Ipv4** (`ipv4.dfy`) holds dotted quads (`dotted_to_addr`,
  `addr_to_dotted`), masks (`parse_mask`, `mask_to_dotted`), host lookup
  (`parse_hostnetwork`) and `parse_hostnetworkmask` with its in-place
  compaction loop over an `array`. The name service is a `Resolver` value
  that maps names to networks and to host address lists.
- **ArpFields** (`arpfields.dfy`) holds the ARP header fields:
  - `getlength_and_mask` and `get16_and_mask`, with 16-bit values in
    network byte order;
  - the opcode names;
  - `getmac_and_mask`, which writes into 6-byte buffers;
  - `parse_interface`, which fills the interface name and mask arrays;
  - `parse_rulenumber` and `parse_target`.
- **Legality** (`legality.dfy`) holds the command and option bitmasks:
  - `add_command`, `set_option` and `check_inverse`;
  - `opt2char` and `cmd2char` over `optflags`/`cmdflags`;
  - `generic_opt_check` over the `commands_v_options` table, as shipped.
- **Extensions** (`extensions.dfy`) holds the match and target registries
  as a `Registry` class whose lists are sequence fields:
  - `find_match`/`find_target`, which mark an entry loaded and used;
  - `register_match`/`register_target`;
  - `merge_options`, which grows the global option offset by 256 a call.
- **Rule** (`rule.dfy`) holds:
  - the target block `do_command` fills: its 16-bit size, the jump
    name copied with `strncpy` or `strcpy`, and the target's revision;
  - `generate_entry` (the entry header followed by the target block);
  - `make_delete_mask`, which paints an `array`.
- **Dispatch** (`dispatch.dfy`) holds:
  - the rule engine as an `Engine` object that records every call it
    receives and answers each through a fixed reply function, a listing
    from its chain list;
  - `append_entry`, `insert_entry`, `delete_entry` and `replace_entry`,
    which walk every source × destination pair;
  - `for_each_chain`;
  - the thin forwards `flush_entries`, `zero_entries` and `delete_chain`.
- **Command** (`command.dfy`) holds the option scan of `do_command`, one
  function per option case over a `ParseState` value, and the checks after
  the scan:
  - defaulting and resolving the addresses;
  - the refusals of `!` and of multiple addresses;
  - the chain name length;
  - the interface-direction checks;
  - choosing the target and building the entry.
- **Execution** (`execute.dfy`) holds `do_command` from the parsed state to
  its `switch` over the command. It is proved against the plan of engine
  calls each command makes.

The model keeps the behaviour of the code as written. In particular:

- the compaction loop stops at the first duplicate address;
- `cmdflags` has no letter for the rename command;
- an error in `--h-length` is ignored;
- a symbolic opcode after `!` is refused;
- the symbolic opcode, hardware type and protocol type are compared with
  the text before the last `/`, which `get16_and_mask` cuts off in place,
  and a mask given after a name is kept;
- the delete mask takes its target size from the head of the target list;
- match blocks are left out of generated entries;
- the standard-target fallback size is not aligned;
- the option table's rows are one initialiser short.

## Model

| member | source | states |
|---|---|---|
| Libc.StringToNumber | arptables.c:951-968 | A result is present only for a non-empty string, and it lies within [min, max] |
| Libc.StringToNumberReadsDec | arptables.c:951-968 | The decimal text of any n within [min, max] reads back as n |
| Libc.NumberHasNoSeparator | arptables.c:951-968 | Text accepted as a number contains no '.' and no '/' |
| Ipv4.DottedToAddrSpec | arptables.c:380-413 | Text shorter than 19 characters is accepted iff it is four '.'-separated parts, each a number 0..255 by string_to_number; the address bytes are those numbers in order |
| Ipv4.AddrToDotted | arptables.c:902-910 | Printing an address gives 7 to 15 characters |
| Ipv4.DottedRoundTrip | arptables.c:380-413 | Parsing the dotted text of any address gives that address back |
| Ipv4.NetworkOrderRoundTrip | arptables.c:925-931 | Converting between host order and network order and back is the identity, both ways |
| Ipv4.ShiftedOnesIsPrefix | arptables.c:746-748 | `0xFFFFFFFF << (32 - bits)` is the word of `bits` leading ones, for 1..32 |
| Ipv4.PrefixMaskBits | arptables.c:746-748 | Bit k of the prefix-n mask, counted from the most significant bit in network order, is set iff k < n |
| Ipv4.PrefixWordInjective | arptables.c:938-941 | Different prefix lengths give different mask words |
| Ipv4.ParseMaskDefaultAndDotted | arptables.c:729-741 | No mask gives all ones; a dotted mask is taken verbatim |
| Ipv4.ParseMaskNumber | arptables.c:742-752 | A non-dotted mask is accepted iff it is a number 0..32, and then it is the prefix mask of that length |
| Ipv4.ParseMaskPrefix | arptables.c:742-752 | The decimal text of n in 0..32 parses to the prefix-n mask |
| Ipv4.PrefixMaskZero | arptables.c:751-752 | The prefix-0 mask is all zeroes |
| Ipv4.ParseMask | arptables.c:742-744 | A refused mask is reported as an invalid mask naming the text |
| Ipv4.MaskToDotted | arptables.c:925-948 | A prefix-n mask prints as "" for n = 32 and "/n" otherwise; any other mask prints as "/" and its dotted form |
| Ipv4.ParseHostNetwork | arptables.c:711-726 | A dotted quad gives that one address; otherwise a known network gives its address and a known host its address list; else "host/network not found" |
| Ipv4.Resolve | arptables.c:764-776 | The mask is parsed from the text after the last '/'; a zero mask resolves the host as 0.0.0.0; mask errors are passed on |
| Ipv4.ZeroMaskMeansAnyHost | arptables.c:772-776 | With a zero mask the result is the single address 0.0.0.0 and the count is 1 |
| Ipv4.Compact | arptables.c:777-788 | The in-place loop leaves the count at the first index whose masked address repeats an earlier one, and the array holds the masked prefix with the rest as the loop leaves it |
| Ipv4.SeenBefore | arptables.c:780-786 | The inner loop finds a duplicate iff the last kept slot equals an earlier one |
| Ipv4.ParseHostNetworkMask | arptables.c:756-789 | The returned mask, address array and count are those of resolving the name and then compacting |
| Ipv4.CompactCountBounds | arptables.c:777-788 | The count never exceeds the number of resolved addresses, and is at least 1 when there are any |
| Ipv4.CompactKeepsAllIffDistinct | arptables.c:777-788 | Every address is kept iff the masked addresses are pairwise distinct |
| Ipv4.CompactedAddressesMasked | arptables.c:777-788 | The kept addresses are distinct and each has no bits outside the mask |
| Ipv4.CompactStopsAtFirstDuplicate | arptables.c:777-788 | For [A,B,A,C] with A and B distinct under the mask, the count is 2 and C is never moved |
| Ipv4.MaskAddrIdempotent | arptables.c:780 | Masking twice is the same as masking once |
| Ipv4.DottedResolves | arptables.c:714-719 | The dotted text of an address resolves to that address alone, whatever the resolver knows |
| ArpFields.ByteOrderRoundTrip | arptables.c:344-348 | htons and ntohs are inverse on 16-bit values, both ways |
| ArpFields.LengthAndMaskSpec | arptables.c:312-330 | Success iff the value and the optional mask after the last '/' are read completely by decimal strtol as 0..255 (empty text reads as 0); the stored value is the number, or unchanged on failure; no mask gives 255 |
| ArpFields.LengthAndMaskRoundTrip | arptables.c:312-330 | "len/mask" and "len" parse to their numbers, and the mask defaults to 255 |
| ArpFields.IntFieldOfEmpty | arptables.c:325-327 | Empty text is read completely by strtol, as 0, so an empty length or mask is accepted |
| ArpFields.Get16AndMaskSpec | arptables.c:332-350 | Success iff the value and the optional mask after the last '/' are read completely by strtol in the given base as 0..65535; the value is stored in network order without masking; no mask gives 0xFFFF, a mask that parses is stored as htons(mask), and one that does not leaves the old mask |
| ArpFields.Get16AndMaskRoundTrip | arptables.c:332-350 | "v/m" and "v" parse to htons(v) and htons(m) or 0xFFFF |
| ArpFields.WordIsNoNumber | arptables.c:332-350 | A word starting with a letter fails as a number, leaving the value and setting the mask to 0xFFFF |
| ArpFields.NoNumberKeepsValue | arptables.c:332-350 | When the text before the last '/' is no number, the parse fails and keeps the value; the mask is 0xFFFF without a '/', htons of a mask that parses, or the old mask |
| ArpFields.LetterWordIsNoField | arptables.c:345-347 | Text starting with a letter is never read completely by strtol in base 0 or a base up to ten |
| ArpFields.EthernetIsNoHex | arptables.c:2035-2036 | "Ethernet" in any case is no hexadecimal number: strtol reads the 'E' and stops at the 't' |
| ArpFields.OpcodeNameIsNoNumber | arptables.c:2019-2025 | Text equal to an opcode name ignoring case is no decimal number |
| ArpFields.OpcodeIndex | arptables.c:2022-2025 | The index is the first opcode name equal to the text ignoring case, or the number of names if there is none |
| ArpFields.FindOpcode | arptables.c:2022-2025 | The search loop stops at the index OpcodeIndex specifies |
| ArpFields.OpcodeIndexOfName | arptables.c:259-271 | Each opcode name is found at its own index; "!" is no opcode name |
| ArpFields.OpcodeNamesDistinct | arptables.c:259-271 | No two opcode names are equal ignoring case |
| ArpFields.MacAndMaskSpec | arptables.c:297-310 | For text other than the three type words: success iff the address and the optional mask after the last '/' both parse; with no mask the mask is all ones and the address is kept as parsed |
| ArpFields.MacWithinMask | arptables.c:276-310 | On success no stored address bit lies outside the mask |
| ArpFields.ParsedMacWithinMask | arptables.c:297-310 | The same for an address read from text rather than one of the three type words |
| ArpFields.OverlayParts | arptables.c:276-310 | Storing six bytes into a buffer sets its first six bytes and keeps the rest |
| ArpFields.GetMacAndMask | arptables.c:276-310 | The buffers' first six bytes become the parsed address and mask, or are left unchanged where parsing stopped; the result is the parse verdict |
| ArpFields.InterfaceMaskMeaning | arptables.c:819-854 | A name ending in '+' matches exactly the interfaces with that prefix; any other name matches only itself |
| ArpFields.ParseInterface | arptables.c:819-854 | Names of 16 characters or more are refused and clear both buffers; otherwise the name is copied with a mask over its characters (the '+' wildcard excluded); odd characters are reported |
| ArpFields.ParseRuleNumber | arptables.c:858-867 | An accepted rule number lies in 1..INT_MAX; a refusal names the text |
| ArpFields.RuleNumberRoundTrip | arptables.c:858-867 | The decimal text of any n in 1..INT_MAX parses to n |
| ArpFields.CheckedTarget | arptables.c:870-888 | A name is accepted iff it has 1 to 31 characters and no white space; it is returned unchanged; each refusal has its own error |
| ArpFields.ParseTarget | arptables.c:870-888 | The scan over the characters decides exactly as CheckedTarget |
| Legality.SetOptionEffect | arptables.c:971-989 | set_option fails iff the bit is already set or the option is not invertible under '!'; on success it adds the bit and ORs in the inversion flag |
| Legality.RepeatedOptionRefused | arptables.c:973-976 | Setting the same option twice fails with "multiple flags" |
| Legality.Invertibility | arptables.c:199-217 | Exactly -n, --p-length, -j, -v, --line-numbers and -c cannot be inverted; the other inversion flags are distinct |
| Legality.OptionIndex | arptables.c:981 | The bit search finds the index of a single-bit option |
| Legality.InverseLatch | arptables.c:621-638 | A '!' is taken only when the latch is clear and an argument follows; it sets the latch, moves past one argument, and a second '!' is refused |
| Legality.OnlyListAndZeroCombine | arptables.c:610-618 | The first command is always accepted; a second one is accepted iff the two are List and Zero, giving their union |
| Legality.Opt2Char | arptables.c:592-598 | The letter is the optflags entry of the option's highest bit |
| Legality.Cmd2Char | arptables.c:601-607 | The letter is the cmdflags entry of the command's highest bit |
| Legality.HighestBitOfBit | arptables.c:595 | The bit search returns k for 2^k |
| Legality.RenameHasNoLetter | arptables.c:91-92 | The rename command's highest bit indexes one past the end of cmdflags, and the last letter, 'E', sits at the check command's position 11 |
| Legality.CompleteTableCoversEveryCommand | arptables.c:91-92 | A table with a check letter inserted before 'E' has a letter for every command: it agrees with cmdflags for the first eleven, gives the check command 'C' and rename 'E' |
| Legality.OptCheckMeaning | arptables.c:556-589 | The check passes iff no option has a problem, and a failure names the first option that has one |
| Legality.GenericOptCheck | arptables.c:556-589 | The loop over options computes that verdict, stopping at the first option with a problem |
| Legality.CheckColumn | arptables.c:565-587 | The loop over the selected commands finds one option's problem: unused and marked '+' by a selected command, or used and marked 'x' by every selected command |
| Legality.ShippedTableRefusesNothing | arptables.c:180-197 | The shipped table is blank, apart from each row's last entry, which is '\0'; with it the check never fails |
| Extensions.FindMeaning | arptables.c:992-1024 | The lookup fails only when the extension must load and is not found; a found entry is the first of that name, marked loaded and used, and nothing else changes |
| Extensions.Registry.FindMatch | arptables.c:792-816 | find_match updates the match list as the lookup says and leaves the targets and the offset alone |
| Extensions.Registry.FindTarget | arptables.c:992-1024 | find_target looks up the standard names as "standard" and otherwise the same way |
| Extensions.Registry.RegisterMatch | arptables.c:1051-1080 | Refuses a version mismatch, a name that is already loaded, and an unaligned size, in that order; otherwise appends the match with cleared flags |
| Extensions.Registry.RegisterTarget | arptables.c:1083-1108 | Applies the same refusals; otherwise puts the target at the head of the list |
| Extensions.NewMatchIsFoundLast | arptables.c:1073-1079 | A newly registered match is found at the end of the list |
| Extensions.LaterTargetShadows | arptables.c:1103-1107 | A newly registered target is found before any older one of the same name |
| Extensions.LaterMatchIsShadowed | arptables.c:1073-1079 | A match added under a name already present is never found |
| Extensions.Registry.MergeOptions | arptables.c:1027-1048 | The global offset grows by 256, and the new table is the old entries, then the new ones shifted by that offset, then a terminator |
| Extensions.MergedTable | arptables.c:1027-1048 | The merged table keeps the old entries, shifts the new values into [offset, offset+256), and counts old plus new |
| Extensions.Registry.ResetForParse | arptables.c:1803-1822 | Option parsing restarts with offset 0 and every target unused with cleared flags |
| Rule.Truncated | arptables.c:2068 | What `strncpy` with a bound copies of a name is its prefix of at most that many characters |
| Rule.TargetBlockLayout | arptables.c:2062-2069 | A block built for a name of at most 28 characters records its size modulo 2^16, holds the name NUL-padded to the end of the name field, the revision in byte 31, and zeros after the header |
| Rule.BlockSizeRecorded | arptables.c:2067 | The first two bytes, low byte first, read back as the block size modulo 2^16 |
| Rule.BlockNameRecorded | arptables.c:2068 | The name field read up to its first NUL gives back the bytes of the name written into it |
| Rule.DistinctNamesDistinctEntries | arptables.c:2062-2069 | Two rules whose target blocks carry different names are different rules, whatever the sizes and revisions |
| Rule.EntryBlock | arptables.c:1743-1759 | A generated rule holds its target block at its target offset, with the revision and the name readable from it |
| Rule.GeneratedLayout | arptables.c:1723-1762 | The entry's target offset is the header size, the next offset adds the target's size, and the target is found at the target offset |
| Rule.DeleteMaskLayout | arptables.c:1470-1507 | The mask covers the header with 0xFF, then each used match, then the list head's target: 0xFF over its user-space part and 0 after it |
| Rule.DeleteMaskFitsOnlyHeadTarget | arptables.c:1486-1504 | With no matches in use, the mask is as long as the generated entry iff the rule's target block has the size of the list head's target |
| Rule.MatchesSize | arptables.c:1477-1481 | The size loop sums the aligned spans of the used matches |
| Rule.PaintMatch | arptables.c:1493-1499 | One pass paints the region of match i, if it is used, right after the regions before it |
| Rule.PaintMatches | arptables.c:1492-1500 | The match loop paints the mask of every used match after the header |
| Rule.MakeDeleteMask | arptables.c:1470-1507 | The new array is the delete mask of the matches and the list head's target |
| Dispatch.Engine.constructor | arptables.c:1631-1658 | An engine answers a listing with whether the named chain, or any chain when none is named, is in its chain list; other calls through the given reply |
| Dispatch.Engine.Submit | arptables.c:1418 | Each engine call is recorded, and its answer is the reply to it given the calls before |
| Dispatch.AllAcceptedMeaning | arptables.c:1410-1422 | The `ret &=` fold is 1 iff every call from the start of the command was accepted |
| Dispatch.AcceptedSplit | arptables.c:2451-2461 | Folding two batches of calls is the conjunction of folding each |
| Dispatch.ProductLength | arptables.c:1412-1420 | The rules tried number |sources| × |destinations| |
| Dispatch.ProductAt | arptables.c:1412-1420 | The pair (i, j) is tried at position i·|destinations| + j with the rule's addresses replaced by that pair |
| Dispatch.ForEachPair | arptables.c:1412-1420 | The nested loops make one call per pair in source-major order and fold the answers |
| Dispatch.AppendEntry | arptables.c:1400-1423 | append_entry appends each source/destination variant of the rule, in order, and returns whether all were accepted |
| Dispatch.InsertEntry | arptables.c:1443-1467 | insert_entry inserts each variant at the same rule number |
| Dispatch.DeleteEntry | arptables.c:1510-1534 | delete_entry deletes each variant with the mask built once beforehand |
| Dispatch.ReplaceEntry | arptables.c:1426-1440 | replace_entry makes one call with the single source and destination |
| Dispatch.ReplaceIsSinglePair | arptables.c:1426-1440 | That call is the single pair of the product of one source and one destination |
| Dispatch.ReachedMeaning | arptables.c:1537-1570 | The chains visited are all chains, or only the user-defined ones when built-ins are skipped, in engine order |
| Dispatch.ForEachChain | arptables.c:1537-1570 | The operation is called on each visited chain in order, and the answers are folded |
| Dispatch.ChainCommand | arptables.c:1573-1606 | Flush, zero and delete-chain act on the named chain, or on every chain when none is named (delete-chain skips the built-ins) |
| Command.InitialIsSound | arptables.c:1766-1822 | The scan starts with no command, no option, no '!', an empty rule and every target unused |
| Command.WithOption | arptables.c:971-989 | Each option case sets its bit exactly as set_option does and changes nothing else |
| Command.Flag | arptables.c:1995-2000 | An option with an argument first takes an optional '!' as check_inverse does, then sets the bit, and reads its value from the argument just consumed |
| Command.RuleCommand | arptables.c:1833-1872 | -A/-D/-R/-I keep the parse state consistent (see the next three rows for what they record) |
| Command.RuleCommandRecords | arptables.c:1833-1872 | A pending '!' or clashing command is refused with add_command's error; on success the chain is recorded, the command is add_command's result (or delete-by-number for -D), and only command, chain, rule number and optind change |
| Command.RuleNumberTaken | arptables.c:1839-1872 | A plain word after -D/-R/-I is parsed as the rule number and consumed, and -D becomes CMD_DELETE_NUM; a word that is no rule number is refused |
| Command.RuleNumberMissing | arptables.c:1833-1872 | Without a plain word, -R is refused with "requires a rule number", -I gets rule 1, -D and -A keep the rule number; nothing is consumed |
| Command.ListingChain | arptables.c:1873-1922 | -L/-F/-Z/-X record add_command's result, with -L and -Z allowed together; the chain is the attached argument, else a plain next word (consumed), else unchanged; add_command's errors pass through |
| Command.ListThenZero | arptables.c:1873-1899 | -L then -Z is accepted and records both commands; -F then -L is refused |
| Command.ChainNaming | arptables.c:1900-1949 | -N, -E and -P keep the parse state consistent (see the next two rows) |
| Command.NewChainRefusals | arptables.c:1900-1913 | -N refuses a name starting with '-', and a name that find_target finds or loads; on success only the new-chain command and the chain are recorded, and no target has that name |
| Command.SecondWordTaken | arptables.c:1923-1949 | -E stores the next plain word as the new name and -P as the policy, consuming it; without one each is refused with its own error |
| Command.AddressOption | arptables.c:1960-1994 | -s, -d and the MAC options keep the parse state consistent (see the next two rows) |
| Command.HostOption | arptables.c:1960-1972 | -s/-d set their option bit as set_option does, inverted when a '!' is in force, and record their argument as the source or destination host text; the rule is otherwise unchanged |
| Command.MacOptionStored | arptables.c:1974-1993 | A MAC option that parses stores the parsed address and mask into the first six bytes of its device address, keeping the other bytes and the other device address; one that does not is refused with the source- or destination-MAC error |
| Command.StoreMacWrites | arptables.c:276-310 | After a successful MAC parse the first six address and mask bytes are the parsed ones and the rest are kept |
| Command.HeaderFields | arptables.c:1995-2052 | The header options leave the device addresses alone |
| Command.OpcodeNameAccepted | arptables.c:2015-2030 | Text whose part before the last '/' is an opcode name in any case gives htons(position + 1); the mask is all ones without '/', htons of a mask that parses, or the old mask |
| Command.NameIndex | arptables.c:2022-2025 | Text equal to an opcode name ignoring case is found at that name's position |
| Command.OpcodeNameWithMask | arptables.c:2015-2030 | Opcode name + "/" + decimal m gives htons(position + 1) with mask htons(m), as "Request/5" gives 1 under mask 5 |
| Command.HTypeWordsAccepted | arptables.c:2031-2041 | --h-type succeeds iff the text is a hex number with an optional hex mask, or its part before the last '/' is "Ethernet" in any case; otherwise it fails as a bad hardware type |
| Command.PTypeWordsAccepted | arptables.c:2042-2052 | --proto-type succeeds iff the text is a number with an optional mask in C notation, or its part before the last '/' is "ipv4" in any case; otherwise it fails as a bad protocol type |
| Command.HTypeNameAccepted | arptables.c:2031-2041 | "Ethernet[/mask]" gives hardware type htons(1); the mask is all ones, htons of a hex mask that parses, or the old mask |
| Command.PTypeNameAccepted | arptables.c:2042-2052 | "ipv4[/mask]" gives protocol type htons(0x800); the mask is all ones, htons of a mask that parses, or the old mask |
| Command.InvertedOpcodeNameRefused | arptables.c:2015-2030 | After '!', a symbolic opcode is refused, because the name is looked up in the "!" argument |
| Command.LengthErrorIgnored | arptables.c:1995-2001 | --h-length never fails on a bad length; the length is then left as it was |
| Command.Interface | arptables.c:2080-2099 | -i stores the name field and wildcard mask of its argument as the incoming interface, -o as the outgoing one; nothing else of the rule changes |
| Command.InterfaceRuleMatches | arptables.c:2080-2099 | After -i/-o the rule matches an interface iff its name equals the argument, or starts with it when the argument ends in '+' |
| Command.JumpNotInvertible | arptables.c:2053-2056 | -j after '!' is refused |
| Command.Adopt | arptables.c:2060-2076 | A found target becomes the rule's target; its block size is the aligned header size plus its own size, its option offset is the next window, the option table becomes the old table merged with its options at that offset, and nothing else changes |
| Command.CountersNeedBothNumbers | arptables.c:2154-2179 | -c succeeds iff a plain second word follows and both words scan as unsigned numbers, storing them as the packet and byte counters and consuming the second word; each failure has its own error |
| Command.VerboseCounts | arptables.c:2100-2105 | -v sets its option bit on first use only; later uses only raise the level, so repeating -v is no "multiple flags" error |
| Command.OtherSettings | arptables.c:2125-2152 | -t refuses a pending '!' and otherwise names the table; -n and --line-numbers only set their option bits; --modprobe records its argument |
| Command.Step | arptables.c:1826-2280 | Each scanned token keeps the state consistent; only a lone '!' leaves the latch set, and it sets it only when clear |
| Command.DoubleBangRefused | arptables.c:2181-2188 | Two consecutive '!' are refused |
| Command.BangBeforeJumpRefused | arptables.c:2053-2056 | A '!' followed by -j is refused |
| Command.Parse | arptables.c:1826-2280 | Scanning keeps the parse state consistent |
| Command.ParseConcat | arptables.c:1826-2280 | Scanning two runs of tokens is scanning the first and then the second from where it left off, stopping at the first error |
| Command.Scan | arptables.c:1826-2280 | The getopt loop computes the same state as the scan function |
| Command.Addresses | arptables.c:2310-2316 | Resolved addresses come with their mask, are distinct and have no bits outside the mask; no host text gives none |
| Command.DefaultHosts | arptables.c:2303-2308 | The default "0.0.0.0/0" resolves to the single address 0.0.0.0 with a zero mask |
| Command.ZeroMaskHosts | arptables.c:772-776 | Any host text with a zero mask resolves to 0.0.0.0 alone |
| Command.Checked | arptables.c:2294-2371 | Acceptance needs all arguments consumed, a command, no dangling '!', no '!' with several addresses, unique addresses for -R, a short chain name and a legal interface direction; rule commands default to any address with a zero mask; only the masks of the rule change |
| Command.ResolveHost | arptables.c:2310-2316 | Resolving one side gives its mask and addresses, or keeps the mask when no host was given |
| Command.PostParse | arptables.c:2294-2371 | The post-scan checks compute exactly that verdict |
| Command.WithStandardTarget | arptables.c:2382-2397 | The fallback loads the standard target or fails naming it; the rule gets an unaligned block of the header and the standard target's size, with the whole jump copied in as its name and the standard target's revision |
| Command.Assemble | arptables.c:2373-2407 | A target that is not a chain is used with the block -j built for it (aligned size, jump cut to 28 characters, the target's revision); an empty jump or a chain name uses the standard target; anything else fails as a missing target |
| Command.JumpBlockRecorded | arptables.c:2060-2069 | With a -j target that is no chain, the handed-over rule's block has the target's size, its revision in byte 31, and the jump cut to 28 characters as its name, so -j ACCEPT and -j DROP give different rules |
| Command.StandardBlockRecorded | arptables.c:2384-2397 | Without -j or with a chain jump, the rule is built iff the standard target is registered; its block has the standard size, the standard revision, and the jump (or "") as its name when it fits the name field |
| Command.StandardBlock | arptables.c:2388-2395 | The block the fallback builds reads back its size, revision and name |
| Execution.RulePlanPairs | arptables.c:2409-2436 | A rule command makes one call per address pair, carrying that pair, to the chain |
| Execution.RunRule | arptables.c:2411-2436 | -A/-D/-R/-I run their dispatch function, making the plan's calls and folding the answers |
| Execution.List | arptables.c:1609-1659 | The walk over the chain list answers whether the named chain, or any chain when none is named, is there; one listing call is logged |
| Execution.RunOther | arptables.c:2437-2473 | The chain commands run as planned; -L -Z zeroes only after a listing that found its chain |
| Execution.Prepare | arptables.c:1764-2407 | A prepared command is consistent; it has an entry iff it is a rule command, and -R has one address each way |
| Execution.DoCommand | arptables.c:1764-2483 | Errors before the switch make no engine call; an unknown command is refused; otherwise the engine receives exactly the command's plan and the result is whether every call was accepted |

## Left out

- Printing and help are not modelled. This covers `print_*`, `exit_printhelp`, `-h` and `-V`, the warning about a chain that shadows a target, and `dump_entries` for `-vv`.
- Process exit is not modelled. `exit_error` and `exit_tryhelp` become `Err` results carrying a `Problem`.
- Handle start-up is not modelled: `arptc_init`, `arptables_insmod` and `get_modprobe` read `/proc`, fork and exec. The `--modprobe` argument is only recorded.
- The name service is a `Resolver` value of networks and hosts. `network_to_addr`, `host_to_addr` and the reverse lookups are not part of this model.
- The rule engine is the `Engine` object. It records calls and answers them through a fixed reply function, so the engine's tables and their changes are not modelled. The chain list is fixed for one run. A listing is answered from that list, and what it prints is left out.
- Extension callbacks are not modelled (`init`, `parse`, `final_check`, `print`). In the default option case the chosen target's parser is not called, and the option changes nothing, which is what happens when no target claims it (the error for that case is commented out). A target block holds what `do_command` itself writes: its size, the name and the revision. The data bytes a target's `init` would write stay zero.
- Rule.TargetBlock: `u.target_size` is stored low byte first, as on a little-endian host. A `strcpy` of a name longer than the block would write past its end in C; the model cuts the name at the block's end. This cannot arise with a standard target of 8 data bytes and names of at most 31 characters.
- Option permutation by `getopt_long` is not modelled. The scan takes the tokens as getopt delivers them, with each option's `optarg` and `optind`.
- The commented-out match code is not modelled. This covers `-m`, `--p-length` and the match checks after the scan. Generated entries carry no match blocks, as the code does.
- Ipv4.DottedToAddr: requires fewer than 19 characters. The code copies at most 19 bytes into an unterminated 20-byte buffer, so longer text has no defined meaning. `parse_mask` and `parse_hostnetwork` treat such text as not dotted.
- Libc.Strtol: models `strtol` and `sscanf("%llu")` in the C locale. Only the `ERANGE` value of `errno` is modelled.
- Command.Step: the `do_command` state is a `ParseState` value threaded through the scan, not the global `Registry` object. The scan's effect on the target list is carried in that value.
- Dispatch.DeleteEntry: takes the mask from the head of the target list, as the code does. An empty target list would be dereferenced at arptables.c:1487; it cannot arise after target assembly, so the model requires a non-empty list.
- Command.Assemble: `find_target(jumpto, LOAD_MUST_SUCCEED)` at arptables.c:2403 finding the target is proved unreachable, because an earlier lookup under the same name failed.
- Execution.DoCommand: `CMD_CHECK` is never set by any option, so it reaches the `default` case like any other unknown command.
- Sizes follow the LP64 Linux layout: an entry is 192 bytes, a target or match header 32, and alignment is 8. The `ARPT_INV_*` values and the empty `ARPT_STANDARD_TARGET` name follow the Linux `arp_tables.h` header, which is not part of this model.
- Offsets are unbounded naturals, so the 16-bit wrap of `target_offset` and `next_offset` is not modelled.

## Findings

| source | as written | input that shows it | evidently intended | confidence | as-written member | corrected member |
|---|---|---|---|---|---|---|
| arptables.c:91-92 | `cmdflags` has 12 letters for 13 commands, so `cmd2char(CMD_RENAME_CHAIN)` reads past the end of the array | `-E OLD` with no new name: the error message asks `cmd2char(CMD_RENAME_CHAIN)` for its letter | a letter for the check command before 'E', so that rename gets 'E' as 13th letter | not executed | Legality.RenameHasNoLetter | Legality.CompleteTableCoversEveryCommand |
