# Verified model of the hardware abstraction layer

A Dafny model of the three parts of the RDK-B hardware abstraction layer that hold state, loops and
arithmetic, with proofs of what they are for. `dafny verify dfyconfig.toml` checks all of it.

**VLAN groups** (`source/vlan/vlan_hal.c`). `VlanConfig` is the heap-allocated linked list of default
VLAN IDs, with its links relinked in place. `Bridges` is the second state, Linux bridges and VLAN devices:
the commands that change it, the listings that show it, and the `%[^.].%s` scan of a listing line.
`Clearing` is the delete-while-listing loop. `VlanHal` has the HAL calls as methods and `Effect`, the
effect of one call on the pair of states; `VlanRuns` executes sequences of calls and proves what runs keep and
undo.

**Text from commands** (`source/wifi/wifi_hal.c`). `CTypes` has status codes and 32-bit integers, `CText`
C strings, tokens and decimal numbers; `CBuffers` has `fgets` on a pipe and `strtok` on a buffer it
overwrites; `Capture` is `_syscmd`. On these stand `Kick` (kicking stations by access list), `Stations` (the
station table), `TrafficStats` (four labelled counters) and `ApName` (access point names).

**DHCP lease data** (`source/dhcpv4c/dhcpv4c_api.c`, the `UDHCPC_SWITCH` part). `LeaseTimers` has the
remaining times as ordered reads of a record and a clock that change between the reads (T1 and T2 are the
defaults of section 4.4.5 of RFC 2131), `Netmask` the prefix-to-mask arithmetic, `DnsServers` the server
list.

Where a property the code suggests is false, the model keeps the code and proves exactly when it holds:

- `addGroup` on an existing group reports success without storing the given ID
  (`AddGroupStoresDefaultWhenNew`, `SecondDefaultIsIgnored`), although the comment above it promises the
  expected VLAN ID.
- `addInterface` reports success when another group holds the device (`AddInterfaceJoinsUnlessElsewhere`,
  `InterfaceStaysElsewhere`).
- `delInterface` succeeds without taking the device out of the group when the interface name has a dot, because
  listing lines are split at the first one, or when `vconfig` did not make the device
  (`WhenDelInterfaceTakesOut`, `DottedInterfaceStays`, `FoundDeviceStays`).
- `delInterface` gives `brctl delif` the bare interface name, so it takes the base interface out of the group
  too and undoes `addInterface` only when the group does not hold it (`WhenDelInterfaceUndoesAdd`,
  `BareInterfaceIsLost`).
- Clearing a group leaves dotted members that `vconfig` did not make (`WhenClearedIsEmpty`,
  `DottedDeviceStays`).
- Creating a group, adding interfaces and deleting it restores everything, except that a VLAN device left over
  outside all bridges is destroyed when an `addInterface` names it (`SessionLeaves`, `SessionRestores`,
  `LeftoverDeviceIsTaken`).
- Only the first 28 associated stations can be kicked, and in allow mode an address inside a longer access-list
  line counts as listed (`KicksAreExact`, `WhenTruncationIsHarmless`, `WhenKicksAreTheDecision`,
  `StrangerIsNotKicked`, `DeniedIsNotKicked`, `LongerLineAdmits`).
- A station table line of more than 198 characters is read in pieces, so that the rows behind it come from the
  wrong lines (`WhenPiecesAreLines`, `LinesOfTable`, `LongLineShiftsRows`).
- Remaining times wrap after their deadline (`RemainingUntilDeadline`); T2 is 7/8 of the lease, and not before
  T1, up to 613566756 seconds only (`RebindingIsSevenEighths`, `DeadlinesAreOrdered`); a shorter lease announced
  between the reads can make the report too long (`ReportIsSafe`, `SafeWhenNotRenewedLast`,
  `ShorterLeaseIsOverreported`).

## Model

| member | source | states |
|---|---|---|
| VlanConfig.ConfigList.Insert | source/vlan/vlan_hal.c:674-726 | the list stays acyclic and gains one entry at its end; the only nodes it adds are new |
| VlanConfig.ConfigList.Append | source/vlan/vlan_hal.c:707-723 | linking a node behind the tail, or as the head of an empty list |
| VlanConfig.ConfigList.FindEntry | source/vlan/vlan_hal.c:741-766 | the walk stops at the first entry of the group, with its predecessor, or at the end when there is none |
| VlanConfig.ConfigList.Unlink | source/vlan/vlan_hal.c:747-761 | relinking around a node removes just that entry and keeps the list acyclic |
| VlanConfig.ConfigList.Delete | source/vlan/vlan_hal.c:729-769 | the list loses the first entry of the group and nothing else |
| VlanConfig.ConfigList.Get | source/vlan/vlan_hal.c:772-819 | the first ID stored for the group, or an error when there is none |
| VlanConfig.InsertEnqueues | source/vlan/vlan_hal.c:674-726 | as a map from names to queues: insertion enqueues at its own name, other queues are unchanged |
| VlanConfig.DeleteDropsFront | source/vlan/vlan_hal.c:729-769 | deletion drops the front of its own queue, other queues are unchanged |
| VlanConfig.GetIsFront | source/vlan/vlan_hal.c:772-819 | lookup returns the front of the queue |
| VlanConfig.DistinctIsAMap | source/vlan/vlan_hal.c:674-819 | a queue is empty exactly for names not in the list, and with distinct names has at most one ID |
| VlanConfig.WhenDeleteLeavesAnEntry | source/vlan/vlan_hal.c:745-766 | a deleted name is still in the list exactly when it was stored at least twice |
| VlanConfig.DeleteLeavesTheOthers | source/vlan/vlan_hal.c:729-769 | with distinct names a deletion leaves just the entries of the other groups, in order |
| Bridges.ScanUndoesPrint | source/vlan/vlan_hal.c:258-263 | scanning "if.vlan" gives the pair back if and only if the interface name is dot-free and the ID white-space-free (an empty name only with an empty ID) |
| Bridges.LineMatches | source/vlan/vlan_hal.c:531-556 | a listing line matches a pair exactly when it is that device's line and the interface name has no dot; lines without a dot never match |
| Bridges.ScanLines | source/vlan/vlan_hal.c:601-627 | the search loop answers whether some line of the listing scans as the pair |
| Bridges.GroupProbeIsExact | source/vlan/vlan_hal.c:568-636 | the probe of one group answers 1 exactly when the device is its member and the interface name has no dot, empty groups included |
| Bridges.AnyProbeIsExact | source/vlan/vlan_hal.c:506-565 | the probe of all groups answers 1 exactly when some group has the device and the interface name has no dot |
| Clearing.ProgressStep | source/vlan/vlan_hal.c:452-468 | handling one line of a listing taken earlier keeps the account of what is gone and what is left, whatever the line names |
| Clearing.DotlessLine | source/vlan/vlan_hal.c:458-467 | a line without a dot, such as the STP column of an empty bridge, takes out at most the bare name |
| Clearing.DottedLine | source/vlan/vlan_hal.c:346-361 | a line "if.id" takes out the VLAN device, from both states, and the bare interface |
| Clearing.ProgressEnd | source/vlan/vlan_hal.c:422-476 | when all lines are handled the group holds just the dotted names `vconfig` did not make, its VLAN devices are gone and other groups are unchanged |
| Clearing.WhenClearedIsEmpty | source/vlan/vlan_hal.c:422-476 | the group ends up empty if and only if each of its dotted members is a VLAN device |
| VlanHal.Hal.InterfaceInAnyBridge | source/vlan/vlan_hal.c:506-565 | true exactly when the device is in some bridge and the interface name has no dot |
| VlanHal.Hal.AddGroup | source/vlan/vlan_hal.c:66-113 | new state and status of the call on both states |
| VlanHal.Hal.DelGroup | source/vlan/vlan_hal.c:118-181 | new state and status of the call on both states |
| VlanHal.Hal.AddInterface | source/vlan/vlan_hal.c:187-273 | new state and status, with a NULL ID standing for the stored default; a dotted interface name is never found, so its commands are issued, and refused, even when a bridge has the device |
| VlanHal.Hal.DelInterface | source/vlan/vlan_hal.c:278-366 | new state and status for single-word interface names, dotted ones included, and for any scanned pair the effect of probe and commands |
| VlanHal.Hal.DeleteAllInterfaces | source/vlan/vlan_hal.c:422-476 | the reading loop over an earlier listing has the closed-form effect of clearing the group; on a missing group nothing changes |
| VlanHal.LeaveIsRemoval | source/vlan/vlan_hal.c:332-361 | for single-word interface names probe and commands together remove the device and the bare interface from the group, or do nothing |
| VlanRuns.Execute | source/vlan/vlan_hal.c:66-476 | calling the methods one after the other on a HAL object ends in the state, and reports the statuses, that the runs below are about |
| VlanRuns.WhenCallsFail | source/vlan/vlan_hal.c:66-476 | the status of all five calls in every state: -1 exactly for a NULL argument, and in the interface calls for a group that does not exist or a missing ID without a stored default; refused calls change nothing |
| VlanRuns.WhenGroupCallsDoNothing | source/vlan/vlan_hal.c:79-147 | creating a group that exists, and deleting or clearing one that does not, changes nothing |
| VlanRuns.ResolveIs | source/vlan/vlan_hal.c:212-235 | an interface call works with the given ID, or else the oldest one stored for the group |
| VlanRuns.AddGroupMakesAnEmptyGroup | source/vlan/vlan_hal.c:88-113 | a new group has no members, its ID is stored behind what its name has, and nothing else changes |
| VlanRuns.WhatClearingLeaves | source/vlan/vlan_hal.c:422-476 | clearing takes out exactly the members without a dot and the VLAN devices; those devices are gone, all else is untouched |
| VlanRuns.StepKeepsInv | source/vlan/vlan_hal.c:66-476 | each call keeps: config names distinct, each naming an existing bridge, every device in at most one bridge |
| VlanRuns.RunFromStart | source/vlan/vlan_hal.c:55-476 | over every run from an empty config list, on any bridges, that invariant holds and every queue has at most one ID |
| VlanRuns.RunKeepsNoOrphans | source/vlan/vlan_hal.c:66-476 | over every run no VLAN device is left outside all bridges |
| VlanRuns.OtherGroupsUntouched | source/vlan/vlan_hal.c:66-476 | over every run whose calls name other groups a group's bridge, its members, which of them are VLAN devices, and its stored IDs stay as they are |
| VlanRuns.DelGroupRemovesTheGroupOnly | source/vlan/vlan_hal.c:118-181 | the bridge, its devices and its config entry are gone; every other bridge and VLAN device is as before, and so are the other entries, in order |
| VlanRuns.SessionRestores | source/vlan/vlan_hal.c:66-476 | creating a group, any interface calls on it, then deleting it restores both states exactly, config order included, if and only if no `addInterface` among them names a VLAN device that was outside all bridges |
| VlanRuns.SessionLeaves | source/vlan/vlan_hal.c:66-476 | such a session leaves both states as they were less the VLAN devices outside all bridges that its calls named |
| VlanRuns.DelGroupUndoesAddGroup | source/vlan/vlan_hal.c:66-181 | deleting a group just created restores both states from every state runs reach |
| VlanRuns.LeftoverDeviceIsTaken | source/vlan/vlan_hal.c:66-476 | a three-call session that destroys a leftover VLAN device |
| VlanRuns.AddInterfaceJoinsUnlessElsewhere | source/vlan/vlan_hal.c:241-272 | after success the device, of the given or the oldest stored ID, is in the group if and only if no other group has it, and it is a VLAN device if no group had it before; all else is untouched |
| VlanRuns.InterfaceStaysElsewhere | source/vlan/vlan_hal.c:241-252 | two successful calls after which the device is not in the group |
| VlanRuns.AddGroupStoresDefaultWhenNew | source/vlan/vlan_hal.c:63-113 | after success the stored default is the given ID if and only if the group was new or had that default |
| VlanRuns.SecondDefaultIsIgnored | source/vlan/vlan_hal.c:63-113 | two successful calls of which the second default is not stored |
| VlanRuns.WhenDelInterfaceTakesOut | source/vlan/vlan_hal.c:275-366 | after success the device has left the group if and only if the interface name has no dot and the device is a VLAN device; the bare interface has left if and only if the device was found; all other memberships are untouched |
| VlanRuns.FoundDeviceStays | source/vlan/vlan_hal.c:332-361 | a successful deletion that finds its device and leaves it in the group |
| VlanRuns.DottedInterfaceStays | source/vlan/vlan_hal.c:187-366 | an addition and a deletion on a dotted interface, both successful, after which the device is in the group |
| VlanRuns.WhenDelInterfaceUndoesAdd | source/vlan/vlan_hal.c:187-366 | exactly when deleting the interface just added, under a given or the stored ID, restores the state, dotted interface names included |
| VlanRuns.BareInterfaceIsLost | source/vlan/vlan_hal.c:187-366 | two successful calls that take the base interface out of its group |
| VlanRuns.DottedDeviceStays | source/vlan/vlan_hal.c:422-476 | a successful clearing that leaves a dotted device |
| CText.TokensAreTheMaximalRuns | source/wifi/wifi_hal.c:1980-1986 | the tokens of repeated `strtok` calls are exactly the maximal delimiter-free runs, in order |
| CText.TokensOfLines | source/wifi/wifi_hal.c:1989-1995 | cutting joined lines gives the lines back, and an unfinished last line |
| CText.EqualNoCaseIs | source/wifi/wifi_hal.c:1982-1991 | two texts are equal up to case if and only if their letters are, one by one, where an ASCII capital and its small letter are 32 apart |
| CText.ContainsNoCaseIs | source/wifi/wifi_hal.c:1982-1991 | the case-insensitive search succeeds if and only if the needle stands somewhere letter by letter in any case |
| CText.ScanSkipsSpace | source/wifi/wifi_hal.c:1345-1357 | a printed number is read back behind any white space, and behind a plus sign |
| CText.ScanNothing | source/wifi/wifi_hal.c:1744-1755 | nothing is read where neither white space, a sign nor a digit stands |
| CText.PrintsDecimal | source/wifi/wifi_hal.c:1730-1735 | numbers are printed in base ten, the highest digit first |
| CBuffers.Strtok.Next | source/wifi/wifi_hal.c:2695-2700 | one `strtok` call on a buffer: the first token becomes a string in place, the rest follows, one character is written |
| CBuffers.Pipe.Gets | source/wifi/wifi_hal.c:194-203 | one `fgets`: what it stores, where, and exactly when it reports end of file |
| Capture.Syscmd | source/wifi/wifi_hal.c:180-213 | all writes stay in the buffer and the captured string is a prefix of the output; stored bytes and room left always add up to the buffer size |
| Capture.CaptureIsWholeOrFull | source/wifi/wifi_hal.c:191-211 | for every buffer size and line structure the capture is the whole output, or one or two bytes short of the buffer |
| Capture.WhenOutputFits | source/wifi/wifi_hal.c:191-211 | output of at most size - 2 characters is never cut, output of size or more always is |
| Capture.CapturedLength | source/wifi/wifi_hal.c:191-211 | the exact length of every capture: all of the output, or all but two bytes of the buffer, or all but one, the last exactly when a read starts 128 bytes from the end and meets no newline before its last character |
| Capture.CapturedLengthOfOneLine | source/wifi/wifi_hal.c:191-211 | for output without newlines: one byte short if and only if 127 divides the buffer size less one |
| Kick.KickLoop | source/wifi/wifi_hal.c:1980-1995 | the in-place token loop kicks the entries the substring test picks, in order |
| Kick.KickAclAssociatedDevices | source/wifi/wifi_hal.c:1924-1999 | capture, length check and the loop of the chosen mode together |
| Kick.RunInToken | source/wifi/wifi_hal.c:1982 | a delimiter-free stretch of a text lies inside one token |
| Kick.CrlfLines | source/wifi/wifi_hal.c:1980-1995 | a list whose lines end in CR LF reads as its lines |
| Kick.FoundIffContained | source/wifi/wifi_hal.c:1982-1991 | a needle without line breaks is found in a text if and only if it is, up to case, inside one of its lines |
| Kick.FoundIffListed | source/wifi/wifi_hal.c:1982-1991 | a needle at least as long as every line is found by substring search if and only if it is, up to case, a whole line |
| Kick.CaptureOfStations | source/wifi/wifi_hal.c:1924-1937 | the capture of a station list is its first 28 lines and a beginning too short to be an address |
| Kick.DenyIsExact | source/wifi/wifi_hal.c:1977-1986 | deny mode, for any access-list text: what the loop picks against the truncated capture is the list filtered by the first 28 stations |
| Kick.AllowIsExact | source/wifi/wifi_hal.c:1987-1997 | allow mode, for any access-list text: the loop never picks more stations than are absent from the list, and picks all of those if and only if no station is part of a longer line without being a line |
| Kick.KicksAreExact | source/wifi/wifi_hal.c:1965-1999 | for any access-list text and number of stations the kicks are the in-order filter of the list by association (deny), or of the first 28 stations by absence from the list (allow), up to case: in deny mode always, in allow mode if and only if no such station is part of a longer list line without being a line |
| Kick.PlainListsAreExact | source/wifi/wifi_hal.c:1965-1999 | with list lines of at most 17 characters both modes are exact |
| Kick.KicksOfOne | source/wifi/wifi_hal.c:1965-1999 | one station and a list of one address, in any spelling: deny mode kicks, and allow mode spares, exactly when the letters agree up to case |
| Kick.CapitalsKickSmalls | source/wifi/wifi_hal.c:1982-1991 | an address listed in capitals and its station in small letters, in both modes |
| Kick.LongerLineAdmits | source/wifi/wifi_hal.c:1988-1995 | for any address, a one-line list that makes allow mode go wrong |
| Kick.WhenTruncationIsHarmless | source/wifi/wifi_hal.c:1965-1999 | exactly when the truncated station list gives the kicks of the whole list |
| Kick.WhenKicksAreTheDecision | source/wifi/wifi_hal.c:1924-1999 | exactly when the kicks are the decision over all stations, truncation and substring search together |
| Kick.StrangerIsNotKicked | source/wifi/wifi_hal.c:1924-1999 | 29 stations of which the last, not in the list, is not kicked |
| Kick.DeniedIsNotKicked | source/wifi/wifi_hal.c:1924-1999 | 29 stations of which the last, on the deny list, is not kicked |
| Stations.ParseRow | source/wifi/wifi_hal.c:2695-2724 | six `strtok` calls and two nested ones on one buffer yield the fields of that line's own columns |
| Stations.RateNumber | source/wifi/wifi_hal.c:2718-2719 | the nested `strtok` writes inside the rate token only: nothing in front of it, nor its NUL, nor what is behind |
| Stations.GetAssociatedDevices | source/wifi/wifi_hal.c:2633-2744 | the array has the printed size, row k comes from line k as far as both go, other rows are zero |
| Stations.LinesOfTable | source/wifi/wifi_hal.c:2681-2690 | up to line k the pieces read are the lines if and only if each of those lines has at most 198 characters, whatever is behind them |
| Stations.WhenPiecesAreLines | source/wifi/wifi_hal.c:2681-2690 | a table is read in at least as many pieces as it has lines, and in no more if and only if every line has at most 198 characters |
| Stations.RateOfDigits | source/wifi/wifi_hal.c:2718-2719 | a rate that starts with a digit is readable and keeps its number when cut at `M` |
| Stations.RateBehindMs | source/wifi/wifi_hal.c:2718-2719 | leading `M`s do not hide the number of a rate |
| Stations.RowComesFromItsOwnLine | source/wifi/wifi_hal.c:2681-2740 | when the lines up to line k have at most 198 characters and line k is blank-separated, of six or more columns with digit rates, row k is that line's signal less 100 and its two rates |
| Stations.RowCountOfPrinted | source/wifi/wifi_hal.c:2661-2663 | the size is the printed count, through the capture, blanks in front of it or not |
| Stations.TableIsDelivered | source/wifi/wifi_hal.c:2661-2744 | a printed count and a table whose lines fit give an array of that size, with the record of each line in turn and empty records behind |
| Stations.LongLineShiftsRows | source/wifi/wifi_hal.c:2681-2740 | two-line tables with a first line of 199 characters: row 1 comes from its newline and has zeros for the numbers of the second line |
| TrafficStats.ReadCounters | source/wifi/wifi_hal.c:1343-1358 | status and counters of the four chained searches, zero from the first missing label on |
| TrafficStats.GetBasicTrafficStats | source/wifi/wifi_hal.c:1321-1369 | the same on the captured output, and the number of associations after success only |
| TrafficStats.CountersOfCompose | source/wifi/wifi_hal.c:1343-1358 | searching a text composed of filler, labels and numbers gives the numbers back, and no more when the next label is missing |
| TrafficStats.CountersAreRecovered | source/wifi/wifi_hal.c:1333-1358 | the same through the 1280-byte capture: exactly the initial segment of counters present is recovered when the text up to the last number fits, whatever follows |
| TrafficStats.AnswerOfCompose | source/wifi/wifi_hal.c:1333-1369 | the whole call: status 0 with the four values and the printed station count, or -1 with the values found, zeros behind them and no count |
| ApName.GetApName | source/wifi/wifi_hal.c:1730-1741 | "ath" and the index in the caller's buffer, or an error for NULL |
| ApName.NameFits | source/wifi/wifi_hal.c:1729-1735 | every 32-bit index gives a name that fits 16 bytes |
| ApName.GetIndexFromName | source/wifi/wifi_hal.c:1744-1755 | every access point name gives its index; an error, with index -1, if and only if the prefix occurs nowhere |
| ApName.IndexOfName | source/wifi/wifi_hal.c:1730-1755 | a printed name is read back to its index, also inside a longer text |
| ApName.IndexWithoutNumber | source/wifi/wifi_hal.c:1744-1755 | a prefix without a number behind it gives -1, and the call succeeds |
| ApName.NameRoundTrip | source/wifi/wifi_hal.c:1730-1755 | reading a name gives its index for every 32-bit index, negatives included |
| ApName.NamesAreDistinct | source/wifi/wifi_hal.c:1730-1741 | two access points never have the same name |
| LeaseTimers.ReadRecord | source/dhcpv4c/dhcpv4c_api.c:218-234 | the reads in the order lease, start, uptime, with any events in front of each |
| LeaseTimers.GetRemaining | source/dhcpv4c/dhcpv4c_api.c:206-325 | the value the three reads add up to; a failed read leaves the caller's value alone |
| LeaseTimers.TimeGoesOn | source/dhcpv4c/dhcpv4c_api.c:218-234 | the world after any events: last lease announced, start at the last binding, clock advanced by all seconds; the start never passes the clock |
| LeaseTimers.ReportIsSafe | source/dhcpv4c/dhcpv4c_api.c:218-318 | for all three deadlines and any interleaving: the elapsed time is never negative, an unexpired report is the limit less it, and it is at most the true remaining time if and only if the limit read is at most the one last announced plus what a later binding gained |
| LeaseTimers.SafeWhenNotRenewedLast | source/dhcpv4c/dhcpv4c_api.c:218-318 | without a binding behind the start read: if and only if the limit read is at most that of the lease last announced before it |
| LeaseTimers.SafeWhenNoneShorter | source/dhcpv4c/dhcpv4c_api.c:218-318 | however many bindings come in between, none of them shorter makes the report safe (T2: leases up to 613566756 seconds) |
| LeaseTimers.ClockMustBeReadLast | source/dhcpv4c/dhcpv4c_api.c:218-236 | reading the clock before the start, with any events in between, gives a real elapsed time if and only if no binding comes after a second has passed |
| LeaseTimers.ShorterLeaseIsOverreported | source/dhcpv4c/dhcpv4c_api.c:218-239 | a concrete renewal to a shorter lease that makes the report too long |
| LeaseTimers.RemainingUntilDeadline | source/dhcpv4c/dhcpv4c_api.c:236-318 | a remaining time is a real one exactly until its deadline and wraps afterwards |
| LeaseTimers.DeadlinesOfLease | source/dhcpv4c/dhcpv4c_api.c:236-318 | the limits of every lease: itself, half of it, and an eighth of what 32 bits keep of seven times it, rounded down |
| LeaseTimers.RebindingIsSevenEighths | source/dhcpv4c/dhcpv4c_api.c:304-305 | T2 is the floor of 7/8 of the lease if and only if the lease is at most 613566756 seconds |
| LeaseTimers.DeadlinesAreOrdered | source/dhcpv4c/dhcpv4c_api.c:236-318 | T1 and T2 never exceed the lease, and T1 <= T2 if and only if the lease is at most 613566756 seconds |
| LeaseTimers.RemainingIsOrdered | source/dhcpv4c/dhcpv4c_api.c:236-318 | until T1 and T2 the remaining times are ordered as the deadlines are |
| LeaseTimers.DropsWithTheClock | source/dhcpv4c/dhcpv4c_api.c:236-318 | when the clock advances dt a remaining time drops by dt if and only if that much was left |
| LeaseTimers.DifferencesAreConstant | source/dhcpv4c/dhcpv4c_api.c:236-318 | in every state two remaining times differ, modulo 2^32, by what their limits differ |
| LeaseTimers.GetUpTime | source/dhcpv4c/dhcpv4c_api.c:149-182 | the first token of the uptime line as a number, leading blanks and dots skipped, or -1 when there is no line |
| LeaseTimers.UpTimeOfLine | source/dhcpv4c/dhcpv4c_api.c:156-177 | the seconds are read off whatever follows the dot |
| LeaseTimers.UpTimeIsRead | source/dhcpv4c/dhcpv4c_api.c:149-182 | the same through the 64-byte line buffer, however long the line is |
| Netmask.GetMask | source/dhcpv4c/dhcpv4c_api.c:436-461 | the mask in network byte order, or a failure that leaves the value alone |
| Netmask.HtonlTwice | source/dhcpv4c/dhcpv4c_api.c:457 | the byte swap is its own inverse |
| Netmask.HtonlOfBytes | source/dhcpv4c/dhcpv4c_api.c:457 | the byte swap reverses the four bytes |
| Netmask.MaskValue | source/dhcpv4c/dhcpv4c_api.c:455-456 | the mask is 2^32 less 2^(32-p) |
| Netmask.MaskTakesOffTheHost | source/dhcpv4c/dhcpv4c_api.c:455-456 | an address AND the mask is the address less its remainder modulo 2^(32-p) |
| Netmask.SameNetwork | source/dhcpv4c/dhcpv4c_api.c:455-456 | masked addresses agree if and only if the addresses agree in their upper p bits |
| Netmask.MasksAreMonotone | source/dhcpv4c/dhcpv4c_api.c:455-456 | a longer prefix gives a larger mask |
| DnsServers.GetDnsServers | source/dhcpv4c/dhcpv4c_api.c:501-551 | the number is min(count, 4) with negative counts huge; slot i is written exactly when it is below that and its own lookup succeeded |
| DnsServers.PublishedOfPrinted | source/dhcpv4c/dhcpv4c_api.c:510-526 | for a printed count 0 to 4 servers are published as counted, and four for every other count, negative ones included |
| DnsServers.SlotHoldsOwnAddress | source/dhcpv4c/dhcpv4c_api.c:528-543 | a written slot holds its own server's address, or, if `inet_aton` rejects the text, the last good one before it, or what the stack held when there is none |

## Left out

- The stub files (cable modem, MoCA, MTA, EPON, Ethernet switch, platform and others) and the constant getters and setters of `wifi_hal.c`: one branch each.
- Shells and commands: every command is an effect on the bridge state or an arbitrary output text, and succeeds; `popen`, `malloc` and the start of a process do not fail. A lone `.` on a command line is taken to do nothing and the lines around it to run.
- Text fields: names fit their buffers. The sizes `VLAN_HAL_MAX_*` are in a header that is not part of this model.
- Command lines: names hold no characters with a meaning for the shell, and a VLAN ID names its device as it is written, without the leading zeros that `vconfig` would drop.
- Stacked VLAN devices: removing a VLAN device does not remove the devices made on top of it, such as `eth0.7.8` with `eth0.7`, as Linux does.
- The `grep -w` probe for a group: taken as exact, without the 512-byte buffer it goes through.
- The order in which `brctl show` lists ports and bridges: a bridge holds a set of members and every listing order is covered. A listing line is a name and a newline; the header and the columns `awk` drops are not modelled.
- The contents of the access list: the fixed text of `wifi_getApAclDevices` is replaced by an arbitrary one of less than 512 characters.
- CText.Atoi: yields the mathematical value; C leaves values outside `int` undefined. `LeaseTimers`, `DnsServers` and `Stations.RowCount` then convert to an unsigned int by wrap-around.
- CText.ContainsNoCase: folds ASCII letters only, as in the C locale.
- VlanHal.Hal.AddInterface: asks for an interface name that does not start with a dot, and for a name and an ID without white space, at which the shell would split its command line.
- Kick.KickLoop: the loops of the two modes differ in the list walked and the test only, and are one method.
- Stations.GetAssociatedDevices: asks that no rate column consists of `M` only, because the code passes NULL to `atoi` there. The `%x` scan into address bytes, the constant fields of the record and the width of its fields, whose declaration is not part of this model, are not modelled.
- Netmask.GetMask: asks for a prefix length of 1 to 32; C does not define the shift by 32 of prefix 0. The host is little-endian.
- LeaseTimers.GetRemaining: the uptime read succeeds, the start time is the uptime at binding, and the interface name does not change between the reads. The three getters are one method with the deadline as a parameter.
- LeaseTimers.GetUpTime: asks that a line holds something besides blanks and dots, because the code passes NULL to `atoi` otherwise.
- NULL output pointers, other than the one of `wifi_getApName`: answered with an error status before anything else happens.
- `dhcpv4c_get_ert_fsm_state_udhcp`, the remaining event getters, the dispatchers and the ecm and emta wrappers: table lookups and forwarding.
- VlanHal.Hal.DelInterface: the effect on names with embedded white space is not modelled beyond the newline that a scanned line leaves at the end of a name.
- `print*` functions, `printf` logging and `ERR_CHK` reporting.
