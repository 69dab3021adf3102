# libscapi MAC allocator and helpers, modelled in Dafny

This project models the core of MaxLinear's libscapi system-configuration library.

The main part is the MAC address allocator of `scapi_get_nextmac.c` and `scapi_remove_nextmac.c`. It derives one address per network interface from the board's base MAC and keeps two files:

- the **whitelist** (`sup_mac=<N>` followed by the permitted addresses);
- the **registry** (one `<ifname>> <mac>` line per interface).

The allocator looks an interface up in the registry. When the interface has no entry, it generates candidates from the base. Each candidate is checked against the whitelist and against the live interfaces and the registry, and the first unique one is appended. At most 1000 candidates are tried. The registry can also be rewritten through a temporary file, to remove an interface or to swap the addresses of two WAN interfaces.

Alongside the allocator, the project models these smaller parts of the library:

- the interface-configuration block reader and value normaliser (`scapi_interfaces_list.c`);
- the procd/ubus command builder (`scapi_procdSpawn.c`);
- the kernel-module name normaliser and `insmod` command builder (`scapi_insmod.c`);
- the DHCP lease dump (`scapi_dumpleases.c`);
- the `/proc/<pid>/stat` process-name reader (`scapi_get_process_name.c`);
- the ping checksum (`scapi_ping.c`, the Internet checksum of section 1 of RFC 1071);
- the argument handling and escalation order of `utils/try_reboot.c`.

Everything is written as immutable datatypes and pure functions. Files are passed in as sequences of lines, or as `None` when absent. Flag files are booleans. The outputs of `popen` queries and the live interface list are values in an `Env` record, and the allocator returns the new file state. Two procedures with loops, the lease dump and its record loop, are methods.

Where the code has a defect, the affected functions take a `fixed: bool` argument:

- `false` models the code as written;
- `true` models the evidently intended behaviour.

The 6 GHz allocator (`Allocator.MbssidStages`) is the exception: `true` corrects only its retry loop and its malformed-entry candidate, and two defects of its 6 GHz flow stay under both settings (see its line under "## Left out").

The "## Findings" section lists each defect with both halves.

Modules, one per file:

| module | file |
|---|---|
| `Wrappers` | `Option`, `Result` |
| `Codes` | the return codes |
| `CString` | C string functions: `strstr`, `strtok`, `strncasecmp`, `atoi`, `%d` |
| `MacCodec` | MAC text, parsing and the two incrementers |
| `Whitelist` | generation, read-back and limit check of the whitelist, and the reserved list |
| `Registry` | lookup, removal and swap |
| `Allocator` | `scapi_getNextMacaddr` and `scapi_getMbssidNextMacaddr` |
| `AllocatorProps` | properties of the allocator |
| `IfaceList` | interface list |
| `Procd` | procd/ubus command builder |
| `Insmod` | module name and `insmod` command |
| `Leases` | DHCP lease dump |
| `ProcName` | process-name reader |
| `PingChecksum` | ping checksum |
| `TryReboot` | `try_reboot` |

Two behaviours of the code that its comments and names do not suggest, modelled as written:

- The registry lookup returns the **first** line that holds `<ifname>>`, not the last one (`Registry.GetMacFromFile`).
- The lines written by the swap keep the blank after `>`. The second `strtok_s` splits only at newlines, so the captured address starts with the blank (`Registry.CaptureEntry`).

## Model

| member | source | states |
|---|---|---|
| MacCodec.IsValidMacIff | scapi_get_nextmac.c:101-124 | scapi_isValidMac accepts a NUL-free text exactly when it has 17 characters: hex digits at positions not 2 mod 3, colons at positions 2 mod 3 |
| MacCodec.IsValidMacAddress | scapi_get_nextmac.c:1601-1632 | the regex validator returns only success or validation failure |
| MacCodec.IsValidMacAddressIff | scapi_get_nextmac.c:1601-1632 | the regex validator returns success exactly for the empty string or a text scapi_isValidMac accepts |
| MacCodec.FormatParse | scapi_get_nextmac.c:1040-1041 | the printed address is well formed and lower case, and parsing it gives back the same six octets |
| MacCodec.ParseFormatCase | scapi_get_nextmac.c:1418-1424 | parsing a well-formed text and printing it again gives the same text up to letter case |
| MacCodec.WithLastPair | scapi_get_nextmac.c:1402-1415 | the base adjustment changes only characters 15 and 16; the first five pairs are kept |
| MacCodec.ScanOctets | scapi_get_nextmac.c:1418-1424 | the first five octets read by the sscanf are the values of the base's first five pairs |
| MacCodec.TokOctets | scapi_get_nextmac.c:1004-1011 | the generators' strtok parse reads the same first five octets as the allocator's sscanf |
| MacCodec.BasePrefixCase | scapi_get_nextmac.c:1004-1011 | the first whitelist entry spells the base's first five pairs, up to case |
| MacCodec.ParsesAgreeWellFormed | scapi_get_nextmac.c:1418-1424 | on a well-formed base both parses give the octets the text denotes |
| MacCodec.ParsesDisagree | scapi_get_nextmac.c:1418-1424 | the two parses differ exactly when the last pair is a colon followed by a non-zero hex digit |
| MacCodec.IncrementMacaddr | scapi_get_nextmac.c:193-227 | adds one to the 24-bit number in octets 3-5; fails with input-validation exactly when those octets are all 0xFF; octets 1-2 kept; octet 0 kept when global and exactly 0x02 otherwise |
| MacCodec.IncStep | scapi_get_nextmac.c:678-700 | one scapi_incMacAddr step is undefined only at the all-0xFF end; the parent index moves left by at most one and never back; octets left of it are untouched |
| MacCodec.IncNDefined | scapi_get_nextmac.c:678-700 | every step count below the counter's room is defined, so a whitelist of up to 1000 entries can always be generated |
| MacCodec.StepIsIncrement | scapi_get_nextmac.c:678-700 | without a double carry, one generator step equals one scapi_incrementMacaddr step |
| MacCodec.AgreeUntilDoubleCarry | scapi_get_nextmac.c:678-700 | until the first double carry the generator counts octets 3-5 up by one per step, like the allocator's increment |
| MacCodec.DivergeAfterDoubleCarry | scapi_get_nextmac.c:678-700 | after a double carry the generator jumps octet 3 by two within 257 steps, skipping 65280 addresses the allocator's increment visits |
| Whitelist.GetRunTimeVal | scapi_get_nextmac.c:821-872 | sup_mac is never 0: 64 when the query fails, prints nothing or prints 0; res_mac is an error only when popen fails, is 2 for empty output, and otherwise is the atoi of the output |
| Whitelist.Entries | scapi_get_nextmac.c:1035-1045 | entry i is the base after i generator steps, printed |
| Whitelist.GenResevMacTable | scapi_get_nextmac.c:972-1053 | header sup_mac=N first, then N-R entries counted from the base; pool-exhausted exactly when N-R exceeds 1000 (after the header is written); nothing is written when res_mac cannot be read |
| Whitelist.Gen6gResevMacTable | scapi_get_nextmac.c:887-958 | the 6 GHz whitelist always holds its header and 32 entries counted from the base |
| Whitelist.ReadLoopRecords | scapi_get_nextmac.c:1086-1107 | the recorded line is the second buffer read, cut at its first '=' |
| Whitelist.ReadLoopEntries | scapi_get_nextmac.c:1092-1098 | over entry lines (no '=') the count ends as 64 as written, and is kept when corrected |
| Whitelist.GetMacAddrFromResvList | scapi_get_nextmac.c:1070-1117 | a missing or empty file is a file error; otherwise success exactly when the recorded line is non-empty and under 32 characters, and the recorded line is reported |
| Whitelist.ReadBackGenerated | scapi_get_nextmac.c:1070-1117 | a header with entries reads back as count 64 as written, or the header's count when corrected, and the first entry as the recorded line |
| Whitelist.ReadBackHeaderOnly | scapi_get_nextmac.c:1070-1117 | a whitelist holding only its header records "sup_mac" |
| Whitelist.GeneratedReadBackValue | scapi_get_nextmac.c:1070-1117 | a generated whitelist reads back its first entry, the base's own octets; the count is 64 as written and sup_mac when corrected |
| Whitelist.GeneratedReadsBack | scapi_get_nextmac.c:1070-1117 | any completed whitelist reads back without error |
| Whitelist.ValidateLimit | scapi_get_nextmac.c:770-805 | a private address always passes; a global one passes exactly when the whitelist exists and some line equals its first 17 characters ignoring case |
| Whitelist.AnyLineMatchesIff | scapi_get_nextmac.c:780-795 | the getline loop finds a match exactly when some line from its position on matches in 17 characters ignoring case |
| Whitelist.EntryWithinLimit | scapi_get_nextmac.c:770-805 | every spelling of a whitelist entry, in any letter case, passes the limit check |
| Whitelist.HeaderNeverMatches | scapi_get_nextmac.c:770-805 | the header line never admits a well-formed address |
| Whitelist.GetReservedMac | scapi_get_nextmac.c:1647-1731 | fails before storing a count when res_mac cannot be read; otherwise the result is that of the reserved-list computation for both settings |
| Whitelist.ReservedFor | scapi_get_nextmac.c:1697-1728 | succeeds exactly with a base, N-R at most 1000, R non-negative and all steps defined; then returns R addresses, the generator steps that follow the whitelist's entries |
| Whitelist.ReservedFollowsWhitelist | scapi_get_nextmac.c:1647-1731 | the whitelist entries followed by the reserved addresses are consecutive generator states from the base |
| Registry.FirstWith | scapi_get_nextmac.c:340-348 | finds the first line at or after i containing the pattern, and None exactly when no line does |
| Registry.ParseEntry | scapi_get_nextmac.c:350-371 | a found address is non-empty, fits the buffer and holds no '>' or blank |
| Registry.GetMacFromFile | scapi_get_nextmac.c:323-389 | key overflow exactly when the name does not fit the key buffer; not-found exactly when no line contains "<ifname>>"; any other result comes from a line containing the key |
| Registry.LookupEntry | scapi_get_nextmac.c:323-389 | for the first line holding the key, an entry "<ifname>> <mac>" is looked up as mac: the lookup inverts the append |
| Registry.KeySkipsLongerName | scapi_get_nextmac.c:340-371 | a line for eth0_1 is not taken for eth0 |
| Registry.KeyMatchesNameSuffix | scapi_get_nextmac.c:340-371 | a line for veth0 is taken for eth0 |
| Registry.NameSuffixMatches | scapi_get_nextmac.c:340-371 | any name with one extra leading character shares the interface's entry |
| Registry.LookupAfter | scapi_get_nextmac.c:350-371 | the address is parsed from where the key is first found in the line |
| Registry.Kept | scapi_remove_nextmac.c:74-83 | every kept line comes from the registry and does not mention the name |
| Registry.KeptAppend | scapi_remove_nextmac.c:74-83 | the filter works line by line, so it distributes over concatenation and keeps the order |
| Registry.KeptOne | scapi_remove_nextmac.c:74-83 | a line is kept exactly when its buffer does not mention the name |
| Registry.RemoveNextMacaddr | scapi_remove_nextmac.c:59-97 | success exactly when the registry exists, the temp file opens and the rename succeeds; then the registry is the old temp content followed by the kept lines; a failed rename is a file error and leaves the registry; the rename is tried even when the registry cannot be opened, replacing it by the temporary file |
| Registry.RemoveForgets | scapi_remove_nextmac.c:59-97 | after a successful removal the interface has no entry |
| Registry.SwapNextMacaddr | scapi_remove_nextmac.c:115-202 | success exactly when the registry exists, the temp file opens and the rename succeeds; on failure the registry is unchanged; on success the registry has at least the two rewritten lines |
| Registry.SwapOutput | scapi_remove_nextmac.c:183-186 | the temporary file always receives at least the two rewritten lines |
| Registry.SwapScanUntouched | scapi_remove_nextmac.c:139-150 | lines mentioning neither name are copied in order |
| Registry.MacVlanLinesCopied | scapi_remove_nextmac.c:139-150 | lines mentioning eth1_wan or ptm0_wan are copied in order, whatever names are swapped |
| Registry.SwapLineNew | scapi_remove_nextmac.c:148-164 | a line mentioning the new WAN is dropped and its address captured, even if it also mentions the old one |
| Registry.SwapLineOld | scapi_remove_nextmac.c:165-177 | a line mentioning only the old WAN is dropped and its address captured |
| Registry.CaptureEntry | scapi_remove_nextmac.c:161-163 | the text captured from an entry line is the blank and the address |
| Registry.KeyThenValue | scapi_remove_nextmac.c:183-184 | writing "%s>%s" with a captured value rebuilds an entry line |
| Registry.SwapEntries | scapi_remove_nextmac.c:135-179 | the loop over the two entry lines captures both addresses and copies neither line |
| Registry.SwapScanExchanges | scapi_remove_nextmac.c:135-179 | over a registry ending in the two entries, the loop keeps the other lines and captures both addresses |
| Registry.SwapOutputExchanges | scapi_remove_nextmac.c:135-186 | the temp file holds the other lines, then the two entries with their addresses exchanged |
| Registry.SwapExchanges | scapi_remove_nextmac.c:115-202 | the swap exchanges the two interfaces' addresses and leaves every other line as it was |
| Allocator.LiveScan | scapi_get_nextmac.c:477-514 | unique exactly when every live interface is the caller's own, gone, or holds another address; otherwise in-use, with another interface holding the candidate as witness, or interface-not-up |
| Allocator.ValidateMacaddr | scapi_get_nextmac.c:463-547 | missing registry is a file error; a failed glob, or one that matches nothing (GLOB_NOMATCH, since the flags are 0), is a glob error; unique exactly when no other live interface has the candidate and no registry line contains it; in-use only with such a witness |
| Allocator.Validate6gMacaddr | scapi_get_nextmac.c:410-443 | fails exactly when the 6 GHz registry is missing; unique exactly when no line of it contains the candidate |
| Allocator.Attempt | scapi_get_nextmac.c:1527-1569 | a finished pass is sound and changes no file unless it appends a unique address; a retried candidate is within the whitelist and in use |
| Allocator.Loop | scapi_get_nextmac.c:1524-1580 | at most 1000 candidates; an append adds exactly one line "<ifname>> <mac>" at the end of the registry; without an append no file changes and the code is an error; corrected, an appended address is unique |
| Allocator.Direct | scapi_get_nextmac.c:1488-1522 | without a registry no uniqueness check is made: either the registry is created holding exactly the new entry, or the call fails pool-exhausted with no file changed |
| Allocator.FindRecorded | scapi_get_nextmac.c:1464-1487 | a call that succeeds without appending changes no file and returns what the registry records for the interface, an address scapi_isValidMac accepts; when the interface has no entry, a new one goes after the existing lines, or forms a new registry |
| Allocator.FromRegistry | scapi_get_nextmac.c:1466-1487 | a recorded address is returned only when scapi_isValidMac accepts it; a missing entry or overlong name leads to one appended line |
| Allocator.Reissue | scapi_get_nextmac.c:1473-1480 | the malformed-entry path never succeeds without appending and leaves the whitelist and boot marker alone |
| Allocator.GetNextStages | scapi_get_nextmac.c:1392-1460 | an append happens only after the boot marker and the whitelist exist, and (without the 6 GHz marker) the whitelist reads back; when the interface had no entry, the new entry is the only line holding the key |
| Allocator.Tables | scapi_get_nextmac.c:1427-1460 | an append leaves the boot marker set and a whitelist that is either untouched or reads back; when the interface had no entry, the new entry is the only line holding the key |
| Allocator.AfterGen | scapi_get_nextmac.c:1436-1460 | a generator failure is returned with only the whitelist written, but after a regeneration the code as written reports success instead; an append leaves a whitelist that reads back and adds one line after the existing ones when the interface had no entry |
| Allocator.MbssidStages | scapi_get_nextmac.c:1136-1343 | every outcome of the 6 GHz allocator is sound: an appended entry ends the 6 GHz registry and a global address is within the whitelist |
| Allocator.PrivateMark | scapi_get_nextmac.c:1382-1389 | the text of a non-empty private request starts with "02" and keeps its other characters; a one-character text has its NUL overwritten and runs on to the next NUL of the buffer; a global or empty one is unchanged |
| Allocator.Allocate | scapi_get_nextmac.c:1363-1587 | missing or empty name, or missing buffer, is input-validation failure and an unreadable base a base failure, both with no file touched; every other outcome is sound |
| AllocatorProps.WellFormedIsPlain | scapi_get_nextmac.c:101-124 | a well-formed address is one scapi_isValidMac accepts and one a registry line can carry |
| AllocatorProps.RepeatCallReturnsRecorded | scapi_get_nextmac.c:1464-1473 | after a call appends a well-formed address, the next call for the interface returns it and changes no file, whatever buffer is passed |
| AllocatorProps.FirstCallState | scapi_get_nextmac.c:1427-1580 | after a call appends, the boot marker and whitelist exist, the whitelist reads back, and the lookup finds the new address |
| AllocatorProps.RecordedLookup | scapi_get_nextmac.c:1570-1580 | the appended entry is what scapi_getMacFromFile returns for the interface |
| AllocatorProps.SecondCallFinds | scapi_get_nextmac.c:1464-1473 | with the whitelist in place, the marker set and a valid entry recorded, the call returns it and writes nothing |
| AllocatorProps.StagesFindRecorded | scapi_get_nextmac.c:1392-1473 | from the base adjustment on, a recorded valid entry is returned and nothing written |
| AllocatorProps.TablesFindRecorded | scapi_get_nextmac.c:1427-1473 | with the boot marker set the whitelist is not regenerated and a recorded valid entry is returned |
| AllocatorProps.AppendedIsLast | scapi_get_nextmac.c:1570-1580 | an appended entry is the registry's last line |
| AllocatorProps.HeaderNameIsStale | scapi_get_nextmac.c:1434-1451 | a recorded "sup_mac" never matches a base address |
| AllocatorProps.RegenerationFailure | scapi_get_nextmac.c:1436-1442 | when the stale whitelist cannot be regenerated, the registry is gone and no address is given; the code is success as written and pool-exhausted when corrected |
| AllocatorProps.RegenerationFailureReportsSuccess | scapi_get_nextmac.c:1436-1442 | as written: success without an address after the registry was deleted |
| AllocatorProps.RegenerationFailureReported | scapi_get_nextmac.c:1436-1442 | corrected: the generator's error is returned |
| AllocatorProps.StuckLoop | scapi_get_nextmac.c:1527-1549 | with an empty registry the candidate is never stepped, so every remaining attempt retries the same address |
| AllocatorProps.Exhaustion | scapi_get_nextmac.c:1524-1580 | with an empty registry and the base held by another interface, 1000 attempts end pool-exhausted when corrected and append the held address as written |
| AllocatorProps.ExhaustionAppendsAddressInUse | scapi_get_nextmac.c:1524-1580 | as written: success with an address another live interface holds |
| AllocatorProps.ExhaustionReported | scapi_get_nextmac.c:1524-1580 | corrected: pool-exhausted and no file changed |
| AllocatorProps.CurrentWhitelistDiscardsRegistry | scapi_get_nextmac.c:1434-1451 | as written, with sup_mac not 64, the first call of a boot deletes the registry although the whitelist is current: afterwards it holds at most this call's line |
| AllocatorProps.RecordedMatchesBase | scapi_get_nextmac.c:1406-1436 | the recorded first entry and the adjusted base agree in 17 characters ignoring case |
| AllocatorProps.CurrentWhitelistKeepsRegistry | scapi_get_nextmac.c:1434-1451 | corrected, a current whitelist keeps the registry: a call leaves it or appends one line |
| AllocatorProps.MalformedEntryReissued | scapi_get_nextmac.c:1473-1549 | with at least one live interface, none of which holds either address, a malformed private entry is removed and replaced by the generated address when corrected, or by itself as written |
| AllocatorProps.MalformedEntryRecordedAgain | scapi_get_nextmac.c:1473-1549 | as written the malformed address is recorded again and returned with success |
| AllocatorProps.MalformedEntryReplaced | scapi_get_nextmac.c:1473-1549 | corrected, a different address that scapi_isValidMac accepts is recorded |
| IfaceList.ValidateParameter | scapi_interfaces_list.c:102-147 | the result is always accepted; an accepted value is kept; anything else becomes the default; switch values stay only as "true" in any case or "false" |
| IfaceList.DefaultAccepted | scapi_interfaces_list.c:30-39 | every default is a value its parameter accepts |
| IfaceList.ValidateIdempotent | scapi_interfaces_list.c:102-147 | normalising twice is normalising once |
| IfaceList.MatchKey | scapi_interfaces_list.c:252-360 | the first field in code order whose name starts with the key; none exactly when no name matches |
| IfaceList.EmptyKeyIsType | scapi_interfaces_list.c:252-254 | a line "=value" sets the type whatever the key names are |
| IfaceList.StripSpec | scapi_interfaces_list.c:227-236 | stripping removes every tab, carriage return and vertical tab and keeps every other character as often as it occurs |
| IfaceList.FitValue | scapi_interfaces_list.c:253-257 | a value is kept exactly when it fits the value buffer or is empty |
| IfaceList.ParseLine | scapi_interfaces_list.c:227-257 | a line that strips to nothing aborts the read as written and is ignored when corrected; any other line without '=' is ignored; an assigned value fits its buffer and holds no '#'; only the code as written aborts the read |
| IfaceList.CommentLine | scapi_interfaces_list.c:238-246 | a '#' before the first '=' or right after it makes the line a comment |
| IfaceList.CommentedValue | scapi_interfaces_list.c:252-257 | "key=value#comment" with a known key aborts as written and assigns the value before '#' when corrected |
| IfaceList.CommentEndsRead | scapi_interfaces_list.c:252-257 | as written a block that begins with a commented value lists nothing |
| IfaceList.CommentedValueRead | scapi_interfaces_list.c:252-257 | corrected the commented value is read as the text before '#' |
| IfaceList.BlankLineEndsRead | scapi_interfaces_list.c:227-236 | as written a line inside a block that strips to nothing ends the read: the open block and everything after it are not listed |
| IfaceList.BlankFirstLineListsNothing | scapi_interfaces_list.c:221-236 | as written a file whose first block opens with a blank line lists nothing |
| IfaceList.BlankLineSkipped | scapi_interfaces_list.c:227-236 | corrected, a blank line inside a block is skipped: the read goes on from the next line with the record and the list unchanged |
| IfaceList.FillDefaults | scapi_interfaces_list.c:153-168 | type and name kept, every other field its default, the result normalised |
| IfaceList.Assign1 | scapi_interfaces_list.c:252-369 | a type is set only when it is WAN or LAN in some letter case and a name only when non-empty; the name match is set exactly by the wanted name; other fields leave the flags alone |
| IfaceList.CloseBlock | scapi_interfaces_list.c:373-383 | a record is listed exactly when the filter selects it and both the type and the name flag are set |
| IfaceList.ReadFrom | scapi_interfaces_list.c:221-389 | the list only grows, every record satisfies the filter, a name filter lists at most one record, an unknown filter lists none |
| IfaceList.GetInterfaceList | scapi_interfaces_list.c:174-397 | open failure exactly when the file is missing; every listed record is normalised, named, typed WAN or LAN and selected by the filter; at most one record with a name filter |
| IfaceList.LowerCaseLanFiltered | scapi_interfaces_list.c:259-374 | "lan" is accepted as a type but not selected by the LAN-only filter |
| IfaceList.EmptyBlockRepeats | scapi_interfaces_list.c:373-384 | the flags outlive a block: a following empty block lists the previous record again |
| Procd.MethodOf | scapi_procdSpawn.c:373-381 | start means set, stop means delete, anything else has no method |
| Procd.UbusCommand | scapi_procdSpawn.c:84-148 | no command exactly when the service name is empty, or the method is set and the command is empty |
| Procd.DeleteNamesServiceOnly | scapi_procdSpawn.c:84-337 | a delete sends exactly the service name |
| Procd.TokensJoin | scapi_procdSpawn.c:124-129 | splitting blank-joined words gives the words back |
| Procd.CommandArray | scapi_procdSpawn.c:114-142 | the command array holds the quoted words of the command, in order and comma separated, with no comma before its closing bracket |
| Procd.TrimAcc | scapi_procdSpawn.c:131-138 | items each written with a comma, trimmed once, equal their comma-separated join |
| Procd.RespawnPart | scapi_procdSpawn.c:150-186 | the respawn array lists the values that are not -1, in order, comma separated |
| Procd.RespawnAllSet | scapi_procdSpawn.c:150-186 | with all three set, threshold, timeout and retry appear in that order |
| Procd.RespawnNoneSet | scapi_procdSpawn.c:150-186 | with none set the respawn array is empty |
| Procd.NiceOnly | scapi_procdSpawn.c:189-193 | nice is written exactly when it is non-zero and within -20 to 19 |
| Procd.ListPart | scapi_procdSpawn.c:210-276 | an env, limits or data table lists its pairs in list order, comma separated |
| Procd.TriggersPart | scapi_procdSpawn.c:294-324 | the triggers array holds one reload entry per trigger, in list order |
| Procd.SetProcdParamList | scapi_procdSpawn.c:395-440 | a node is added exactly for a non-empty name and a value that fit; it goes at the tail and the old nodes are kept |
| Procd.AddAllKeepsOrder | scapi_procdSpawn.c:395-440 | pairs that fit end up in the list in the order they were added |
| Procd.ListPartOrder | scapi_procdSpawn.c:210-276 | a list built by successive additions is written in insertion order |
| Procd.FreshObjectSet | scapi_procdSpawn.c:464-477 | an initialised object given a name and a command sends only those: no respawn, nice, file, netdev, table or trigger |
| Procd.PlainObjectSet | scapi_procdSpawn.c:84-337 | an object with none of the options set sends the name and the command array only |
| Procd.AfterSplit | scapi_procdSpawn.c:119-129 | the split changes only the object's command field, and not at all when corrected or when no command array is built |
| Procd.ProcdSpawn | scapi_procdSpawn.c:366-387 | an unknown action fails before anything is built; the spawn's failure, then the child's status, is returned; success exactly when both succeed |
| Procd.RestartLosesArguments | scapi_procdSpawn.c:119-129 | as written, starting a two-word command cuts the caller's command, so a second start sends the first word alone |
| Procd.RestartKeepsArguments | scapi_procdSpawn.c:119-129 | corrected, the object is unchanged and a repeated start sends the same command |
| Insmod.WithSuffix | scapi_insmod.c:154-186 | a path with the suffix is kept; a short one without it gains ".ko"; the result always ends in ".ko" |
| Insmod.BareSuffixDoubled | scapi_insmod.c:154-186 | ".ko" alone becomes ".ko.ko" |
| Insmod.WithSuffixIdempotent | scapi_insmod.c:154-186 | adding the suffix twice is adding it once |
| Insmod.WithModulesDir | scapi_insmod.c:189-206 | a name without '*' that stat cannot find is prefixed with the modules directory; otherwise it is kept |
| Insmod.FirstMatch | scapi_insmod.c:208-229 | a NULL path vector is -EINVAL; the first match replaces the name; no match keeps it |
| Insmod.Argument | scapi_insmod.c:230-256 | the name alone without options, the name, a blank and the options otherwise; empty options fail |
| Insmod.ScapiInsmod | scapi_insmod.c:137-284 | a NULL or empty path is -EINVAL; success exactly when an "insmod ..." command line was built, whatever the command returns |
| Insmod.InsmodCommandShape | scapi_insmod.c:137-284 | a findable path gives "insmod <path>.ko" (or "insmod <path>" with the suffix present), with the options after a blank |
| Insmod.MissingModuleSearched | scapi_insmod.c:189-229 | a module stat cannot find is looked for under the modules directory: no glob vector is -EINVAL, no match keeps the prefixed name |
| Insmod.ModError | scapi_insmod.c:55-69 | four errno values have fixed messages; every other is strerror's |
| Insmod.ModErrorFixedDistinct | scapi_insmod.c:55-69 | the four fixed messages tell their errors apart |
| Leases.Dotted | scapi_dumpleases.c:114-125 | the dotted address always fits the 16-byte field |
| Leases.Clamp | scapi_dumpleases.c:89-91 | the write time is at most now and at most the recorded time, and is one of them |
| Leases.ReadRecords | scapi_dumpleases.c:95-139 | the live leases in file order, up to the first hostname that does not fit, which makes the code -EXIT_FAILURE |
| Leases.ScapiDumpLease | scapi_dumpleases.c:60-145 | an empty name selects the default file; a file that cannot be opened is -errno; otherwise the report of the live leases against the clamped write time |
| Leases.ReportSound | scapi_dumpleases.c:95-139 | the report has one entry per live lease, each a live record of the file with its exact time left |
| Leases.ReportAppend | scapi_dumpleases.c:95-139 | the report of a split file is the report of its two parts, in order |
| Leases.ExpiredDropped | scapi_dumpleases.c:129-134 | an expired record changes nothing in the report |
| Leases.RemainingExact | scapi_dumpleases.c:129-138 | a live lease's time left is expires plus write time minus now, positive and at most its expiry |
| Leases.FutureFileFullTime | scapi_dumpleases.c:89-138 | a file written in the future reports every lease with its full expiry left |
| Leases.EmptyHostUnknown | scapi_dumpleases.c:118-127 | a live record with an empty hostname is reported as "unknown" |
| ProcName.FirstLine | scapi_get_process_name.c:75-81 | fgets reads up to and including the first newline, within the 128-byte buffer; nothing from an empty file |
| ProcName.Between | scapi_get_process_name.c:82-96 | no name without both parentheses; the name is shorter than the line |
| ProcName.GetProcessName | scapi_get_process_name.c:57-109 | the result is INVAL PROCESS or a name that fits the 16-byte buffer, read from the first line between the parentheses |
| ProcName.DecimalPidField | scapi_get_process_name.c:61-61 | a pid written in decimal holds no parenthesis or newline |
| ProcName.StatPathFits | scapi_get_process_name.c:60-64 | the stat path fits the 128-byte buffer for every 32-bit pid |
| ProcName.StatLineName | scapi_get_process_name.c:77-97 | the first line of a short stat line is read whole and the name is the text between the parentheses |
| ProcName.StatFirstLine | scapi_get_process_name.c:75-81 | fgets takes a stat line up to its newline or its first 127 characters, whatever follows |
| ProcName.NameRoundTrip | scapi_get_process_name.c:57-109 | a name without parentheses that fits the 16-byte buffer is read back exactly from a stat line of any length, when its ')' lies within the 127 characters read |
| ProcName.NameOutsideBufferFails | scapi_get_process_name.c:77-103 | an empty name, or one of 16 characters or more, is INVAL PROCESS, whatever the length of the line |
| ProcName.MissingParenFails | scapi_get_process_name.c:82-94 | a first line lacking '(' or ')' is INVAL PROCESS |
| ProcName.FirstLineOnly | scapi_get_process_name.c:75-81 | only the first line matters |
| ProcName.ParenInNameCut | scapi_get_process_name.c:90-96 | as written a name holding ')' is cut at it, in a stat line of any length whose first ')' lies within the 127 characters read |
| ProcName.NameToFirstClose | scapi_get_process_name.c:90-97 | as written the name read is the name field up to its first ')', in a stat line of any length when that ')' lies within the 127 characters read |
| ProcName.ParenInNameKept | scapi_get_process_name.c:90-97 | corrected, a name holding ')' is read back whole, in a stat line of any length whose name field lies within the 127 characters read |
| ProcName.NameToLastClose | scapi_get_process_name.c:90-97 | corrected, the name read is the whole name field, in a stat line of any length whose name field lies within the 127 characters read |
| PingChecksum.HostWord | scapi_ping.c:66-71 | the word read from two bytes: first byte high on a big-endian host, low on a little-endian one |
| PingChecksum.HostWords | scapi_ping.c:70-73 | one word per pair of bytes plus one for an odd byte |
| PingChecksum.Accumulate | scapi_ping.c:67-73 | the unsigned int accumulator stays below 2^32 |
| PingChecksum.OcAdd | scapi_ping.c:74-75 | one's-complement addition is addition modulo 0xFFFF, zero only for two zeros |
| PingChecksum.FoldEndAround | scapi_ping.c:74-75 | the two folds give the canonical one's-complement value of any 32-bit accumulator |
| PingChecksum.Checksum | scapi_ping.c:64-78 | an empty packet gives 0xFFFF |
| PingChecksum.EmptyIsAllOnes | scapi_ping.c:76-77 | the complement of the zero sum is 0xFFFF, on either host |
| PingChecksum.ChecksumIsOnesComplement | scapi_ping.c:70-77 | below 131074 bytes the result is the complement of the one's-complement sum of the words |
| PingChecksum.WordOrderIndependent | scapi_ping.c:70-77 | exchanging two blocks of whole words leaves the checksum unchanged (section 2(A) of RFC 1071) |
| PingChecksum.OnesSumSwap | scapi_ping.c:70-77 | the one's-complement sum commutes with swapping the bytes of every word (section 2(B) of RFC 1071) |
| PingChecksum.BigEndianWords | scapi_ping.c:70-73 | with the odd byte read as a word's first byte (fixed = true), a big-endian host reads exactly the RFC 1071 words, padding included |
| PingChecksum.LittleEndianWords | scapi_ping.c:70-73 | with the odd byte read as a word's first byte (fixed = true), a little-endian host reads the RFC 1071 words byte-swapped |
| PingChecksum.FixedMatchesRfc | scapi_ping.c:64-78 | with the odd byte read as a word's first byte, the stored checksum is the RFC 1071 checksum in network order, on either host |
| PingChecksum.LittleEndianOddByteSame | scapi_ping.c:72-73 | on a little-endian host the odd byte as written is already correct |
| PingChecksum.BigEndianOddByteWrong | scapi_ping.c:72-73 | as written, a big-endian host gets 0xFFFE for the packet 0x01 where RFC 1071 gives 0xFEFF |
| TryReboot.RawDelay | utils/try_reboot.c:53-61 | no argument gives 20; a numeric argument is atoi's value taken modulo 2^32 |
| TryReboot.Clamp | utils/try_reboot.c:63-69 | the delay ends within 1 to 60, kept exactly when already there, with the matching message when moved |
| TryReboot.ClampIdempotent | utils/try_reboot.c:63-69 | clamping a clamped delay changes nothing and prints nothing |
| TryReboot.Run | utils/try_reboot.c:44-95 | the exit code is 0; a help argument prints the usage only; otherwise a reboot is attempted |
| TryReboot.NoArgumentWaitsDefault | utils/try_reboot.c:53-61 | without an argument the wait is 20 seconds |
| TryReboot.HelpPrintsUsageOnly | utils/try_reboot.c:53-56 | an argument starting with -h or --h prints the usage and does nothing else |
| TryReboot.NegativeWaitsMax | utils/try_reboot.c:58-69 | a negative argument wraps through the unsigned conversion and waits 60 seconds |
| TryReboot.NonNumericWaitsMin | utils/try_reboot.c:58-69 | a non-numeric argument reads as 0 and waits 1 second |
| TryReboot.InRangeWaitsAsGiven | utils/try_reboot.c:58-69 | a number from 1 to 60 is the wait, without a message |
| TryReboot.EscalationOrder | utils/try_reboot.c:71-90 | SIGTERM to init comes before the forced reboot, which follows delay+1 seconds of sleep; SIGSEGV to init follows five seconds later |
| TryReboot.EscalationAfter | utils/try_reboot.c:71-90 | the same order holds after any clamping messages |

## Left out

- File and process I/O is idealised. This covers `fopen`, `getline`/`fgets`, `rename`, `stat`, `glob`, `popen`, `system` and `open`/`read`. Files are sequences of lines, or `None` when absent. Queries, live interfaces, `stat`/`glob` answers and spawn results are parameters. Opening "a+" or "w" creates the file, and the allocator's rename succeeds when its temporary file exists. `scapi_getFilePtr` and `scapi_fileExists` are therefore not modelled as separate members.
- `fgets` chunking is not modelled for the registry, the whitelist and the interface list: each of their lines is read whole. This covers the 64- and 128-byte registry and whitelist buffers. `IfaceList.ReadFrom` likewise reads each line of the interface list whole, although the code reads it into a 100-byte buffer and its strip loop runs to the next '\n': a line of 99 characters or more, or a last line without a newline, is read past the buffer there. The process-name reader does model its 128-byte `fgets` (`ProcName.FirstLine`).
- `sscanf` `%hhx` whitespace, signs and `0x` prefixes are not modelled: the base is a 17-character text with colons in place and hex digits in the first five pairs. The code ignores the `sscanf` result (scapi_get_nextmac.c:1418); its last pair may hold anything.
- `scapi_getBaseMac` is not modelled. The base address is a parameter (`Env.baseMac`), `None` when it cannot be read.
- `scapi_validateWithBase` is not modelled: it is static and never called.
- The values of header constants that are not part of this model are chosen where needed. These are the configuration key names, the interface-list filter flags, `MAX_LEN_PARAM_*`, `LEASES_FILE` and the numeric error codes. Error codes are named constructors of `Codes.Code`.
- Concurrency and crash atomicity are not modelled: the registry and whitelist files are unlocked, and each call is one step from one file state to the next.
- Logging and `set_libscapi_loglevel` are not modelled; they do not affect results.
- Memory management is not modelled: allocation failure, `scapi_createListNode`, `scapi_createProcdParam`, list freeing and the `pcOptionsDup` aliasing in `scapi_insmod`.
- `scapi_getFileData` and the `init_module` path of `scapi_insmod.c` are not modelled: `scapi_insmod` runs `insmod` through `system`.
- Of `scapi_ping.c` only `checksum` is modelled. Sockets, ICMP and timing are I/O.
- `PingChecksum.ChecksumIsOnesComplement` is stated below 131074 bytes: above that the 32-bit accumulator can wrap. A negative `len` is not modelled.
- The signal-handler registration of `try_reboot` is not modelled. Its effects (sync, kill, sleep, reboot, print) are events of a trace.
- `TryReboot.RawDelay`: `atoi` beyond the `int` range is undefined in C. The model takes any value modulo 2^32.
- `ProcName`: the pid field of a stat line is any text without parentheses or newlines. `ProcName.DecimalPidField` links it to the decimal pid. A process actually named `INVAL PROCESS` cannot be told apart from the failure value.
- `Allocator.MbssidStages`: its contract states only soundness and the corrected retry bound, and with `fixed = true` the 6 GHz flow keeps two defects of the code. First, the 6 GHz whitelist is read back as written, so the entry lines overwrite its count with 64 (scapi_get_nextmac.c:1086-1098, reached at :1193). Correcting that alone would not give the intended behaviour either: `scapi_gen6gResevMacTable` writes `sup_mac=32` (:54, :927-929), and :1199-1200 compare it with the runtime `sup_mac`, so every call without the UCI marker would find the table stale and delete the 6 GHz registry unless `sup_mac` is 32. Which count was meant is not evident, so the model keeps the code. Second, a malformed 6 GHz entry is removed from the main registry, not from the 6 GHz one (:1226-1229), under both settings (`Allocator.Reissue`). The findings lemmas of `AllocatorProps` are stated for `scapi_getNextMacaddr` only; the 6 GHz stale-whitelist path has no lemma of its own.
- `Allocator.Reissue`: its contract only says that this path never succeeds without appending. For the 6 GHz allocator it removes the entry from the main registry, as the code does, under both settings. What it appends is stated by `AllocatorProps.MalformedEntryReissued` and its two partners.
- `MacCodec.IsValidMacAddress`: its own contract states only the two possible codes. When it succeeds is stated by `MacCodec.IsValidMacAddressIff`.
- `Allocator.Allocate`: its contract states validation, base failure and soundness. Idempotence and the findings are lemmas in `AllocatorProps`.
- `PingChecksum.Checksum`: its own contract states only the empty case. Its meaning is stated by `PingChecksum.ChecksumIsOnesComplement` and `PingChecksum.FixedMatchesRfc`.
- `Procd.UbusCommand`: its contract states when a command is produced. The shapes of the commands are stated by `Procd.DeleteNamesServiceOnly`, `Procd.PlainObjectSet` and the part functions.
- `Registry.SwapOutput`: its contract states only that the two rewritten lines are written. The content is stated by `Registry.SwapOutputExchanges`.
- `Allocator.PrivateMark`: a caller buffer shorter than two characters is written past its end by the code; the model reads the bytes past it as NUL.
- `ProcName.Between`: its contract states only when a name can be produced. The text produced is stated by `ProcName.StatLineName` and the lemmas after it.
- `Leases.Dotted`: only its length bound is stated. The decimal text of the bytes is not restated.
- Sizes of `sprintf_s` targets are modelled only where a value can overflow them (key and value buffers, the 16-byte name, the 20-byte hostname). Other formatted buffers are assumed large enough.

## Findings

| source | as written | input that shows it | evidently intended | confidence | as-written member | corrected member |
|---|---|---|---|---|---|---|
| scapi_get_nextmac.c:1436-1442 | when the stale whitelist cannot be regenerated, the registry is already deleted and the call returns the sup_mac query's EXIT_SUCCESS without an address | a first call of a boot with a stale whitelist and sup_mac minus res_mac above 1000 | the generator's error is returned | not executed | AllocatorProps.RegenerationFailureReportsSuccess | AllocatorProps.RegenerationFailureReported |
| scapi_get_nextmac.c:1524-1580 | after 1000 candidates in use the loop falls through to finish and appends the last candidate with success | an empty registry (the candidate is never stepped) and another live interface holding the base-derived address | the pool is reported exhausted and nothing is written | not executed | AllocatorProps.ExhaustionAppendsAddressInUse | AllocatorProps.ExhaustionReported |
| scapi_get_nextmac.c:1086-1098 | the read-back count is overwritten by every line, and an entry line gives 64, so the header's count is lost | sup_mac set to 32: every first call of a boot finds the whitelist stale and deletes the registry | the count is taken from the sup_mac header only | not executed | AllocatorProps.CurrentWhitelistDiscardsRegistry | AllocatorProps.CurrentWhitelistKeepsRegistry |
| scapi_get_nextmac.c:1473-1549 | a recorded address that fails scapi_isValidMac is removed, then left in the caller's buffer, taken as the first candidate and recorded again | a registry line "eth0> zz" for a private request on eth0, with only the loopback interface (address 00:00:00:00:00:00) up | a fresh address is generated | not executed | AllocatorProps.MalformedEntryRecordedAgain | AllocatorProps.MalformedEntryReplaced |
| scapi_interfaces_list.c:227-236 | a line inside a block that is empty once tabs, carriage returns and vertical tabs are removed is copied back with sprintf_s, which writes nothing and so reports failure; the read ends and the open block is never listed | the lines "{", "type=WAN", "ifname=eth0", "", "}" list no interface | the blank line is skipped | not executed | IfaceList.BlankLineEndsRead | IfaceList.BlankLineSkipped |
| scapi_interfaces_list.c:252-257 | for "key=value#comment" the value is copied into a buffer of the value's length, so sprintf_s fails and the read ends | a block whose first line is "type=WAN#uplink" | the value before '#' is assigned | not executed | IfaceList.CommentEndsRead | IfaceList.CommentedValueRead |
| scapi_procdSpawn.c:119-129 | strtok_s splits the caller's command field in place, leaving only its first word | a ProcdObj with command "dnsmasq -k" started twice | the split works on a copy | not executed | Procd.RestartLosesArguments | Procd.RestartKeepsArguments |
| scapi_get_process_name.c:90-96 | the name ends at the first ')' of the line, so a name containing ')' is cut | the stat line "1 (a)b) S 1" gives "a" | the name ends at the last ')' | not executed | ProcName.ParenInNameCut | ProcName.ParenInNameKept |
| scapi_ping.c:72-73 | an odd last byte is added as the low byte of a word, as in the sample code of section 4.1 of RFC 1071, which holds only on a little-endian host | the one-byte packet 0x01 on a big-endian host gives 0xFFFE | 0xFEFF, the byte padded with a zero octet as section 1 of RFC 1071 requires | not executed | PingChecksum.BigEndianOddByteWrong | PingChecksum.FixedMatchesRfc |
