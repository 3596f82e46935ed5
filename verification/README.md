# udev: a verified model

This project models five parts of udev and proves what they promise.

- **The hardware database.** Match patterns go into a radix trie whose nodes are split in place, and every
  string goes into a buffer in which strings share their tails (`Strbufs`, `Radix`, `HwdbTrie`). The trie is
  written to a file of records with absolute offsets (`HwdbFile`, `HwdbStore`), and a reader walks the file,
  taking children as literals or handing whole subtrees to fnmatch() (`HwdbReader`). `HwdbUpdate` puts
  the parts together: rules in, file out, lookup answered, stated on the rules alone; `LookupLimits` says for which
  strings that fails.
- **The rules.** The keys of a rule are sorted by type into a block of tokens, GOTOs become token indices, and
  one loop with skips and jumps runs all of it (`RuleCompiler`, `RuleParser`, `RuleInterpreter`). It
  does what the rules mean when they are read one by one (`RuleSemantics`, `RuleRuns`), and what they mean is said of
  whole runs, key by key (`RuleAssignments`).
- **The monitor.** Filters are compiled to classic BPF over hashed header fields; the program agrees with a
  closed formula and loses nothing that the exact filter passes (`MonitorFilter`, `Monitor`, `MonitorLimits`).
- **Device names.** Claims on links, symlinks, the tag index and the database stay coherent over every
  sequence of events (`DeviceNames`), whatever the rules make of them (`EventHandling`).
- **Containers and codecs.** The hash map (`HashChains`, `Hashmaps`), the list of unique names (`UdevLists`),
  the order of an enumeration (`Enumeration`, `EnumerateContexts`), escaping and its inverse (`Escaping`, `Utf8`,
  `DevnodeNames`).

What the source updates in place is a class with methods. Linked structures live in a pool of records in
which a pointer is an index; a freed record stays in the pool, linked to nothing. fnmatch(), the hash functions and
whether plain char is signed are parameters, so everything holds whatever they are. qsort(), bsearch(), strstr() and
the like are taken as the C library's. A file is a sequence of bytes; directories of claims and tag files are maps
and sets.

`dafny verify dfyconfig.toml` checks the project.

## Findings

Where a property fails, the condition under which it holds is proved.

- A special character in the lookup string can be taken as the label of a child, and patterns behind it are then
  matched from there on. Lookups of a string agree with the plain scan over all rules, whatever these are, exactly
  when fnmatch() carries over the special characters of the string (`LookupLimits.AnsweredExactly`). For every
  fnmatch() at once these are the strings without `*`, `?` and `[` (`LookupLimits.AnsweredForEveryFnmatch`); with one
  in which characters match themselves only `[` and the backslash can go wrong
  (`LookupLimits.AnsweredWithoutBrackets`). With rules for "a" and "a[b]", looking up "a[b]" does
  (`LookupLimits.BracketLookedUp`).
- Where plain char is signed, a byte above 127 is never taken for the same inside a node's prefix. A rule can then be
  missed, be it for the very string, exactly for strings with such a byte behind their first and in front of their
  first special character (`LookupLimits.MissesExactly`), and the trie has nodes it does not need.
- The jump over the tag block is stored in a byte. With 44 to 84 tags it wraps and lands inside the code of a
  later tag, and a message for the first tag can be dropped (`MonitorLimits.FaithfulExactly`).
- The array of 512 instructions is checked only after a subsystem's code is complete, and never for
  tags: 102 subsystems with a devtype, or 85 tags, write behind its end (`MonitorLimits.OverrunExactly`,
  `MonitorLimits.ManySubsystems`, `MonitorLimits.ManyTags`).
- A rule key with bars and special characters is cut to 1023 characters before it is matched. That is harmless for
  every fnmatch() exactly when the cut pattern has the same alternatives (`RuleMatch.CutExactly`).
- Enumeration holds back one control node at a time. One that ends the holding back of another is listed at
  once, before the rest of its card (`Enumeration.TwoCards`); one whose card is listed itself, with no other
  control node between the two, is held back (`Enumeration.HeldBehindCard`).
- A device that has left the system is not found when another gives up a link both claim. The symlink is
  removed although the first one's claim and record remain until its own remove event
  (`DeviceNames.DeviceIndex.LinkUpdate`, `DeviceNames.BothLeave`).
- cunescape() looks at the byte behind the NUL of a string that ends with an escape without a digit. It makes no
  difference what is there (`Escaping.UnescapeString`).

## Model

| member | source | states |
|---|---|---|
| HwdbUpdate.UpdateAndLookup | src/udevadm/udevadm-hwdb.c:536-660 | update, then look up: -EFBIG exactly if the file would reach 2^63 bytes, of which the strings take no more than those of the rules; every rule whose bytes in front of its first `*`, `?` or `[` begin the string and whose remainder passes fnmatch() gives its property, named by its key without the leading space, and every value comes from a rule that fits so from some point on; for strings without special characters, or over which fnmatch() carries, a property is found exactly if a matching rule gives it, with the value of the last rule for a pattern of longest literal head; where char is signed, if the bytes compared are not above 127 |
| HwdbUpdate.Update | src/udevadm/udevadm-hwdb.c:590-635 | -EFBIG exactly if the file would reach 2^63 bytes; else the file stored spells out a tree that maps exactly what the rules give, the last one winning, with nodes only where patterns end or part (where char is signed, for patterns without bytes above 127) |
| HwdbUpdate.Import | src/udevadm/udevadm-hwdb.c:409-432 | after inserting rule by rule the trie maps what the last rule for each pattern and key says, and its strings take no more than those of the rules |
| HwdbUpdate.LookupAnswered | lib/libudev-hwdb.c:189-258 | where fnmatch() carries over the string, what the traversal collects in an index of the rules is what a scan over all rules gives, by precedence |
| HwdbUpdate.LookupBracketed | lib/libudev-hwdb.c:189-258 | for any lookup string each value comes from a rule that repeats the string up to a point from which it matches; no matching rule is missed, where char is signed if no byte above 127 is behind the first one and in front of the first special character |
| HwdbUpdate.LookupSays | lib/libudev-hwdb.c:189-258 | what a lookup finds, on the rules and on bytes written out: no rule that fits is missed, no value is invented, and without special characters in the string it is that of the longest literal head |
| HwdbUpdate.GlobRuleLookedUp | lib/libudev-hwdb.c:205-247 | a rule for a head, one of the bytes 42, 63 and 91 and a tail is found for every string that begins with the head and goes on as fnmatch() asks |
| LookupLimits.AnsweredExactly | lib/libudev-hwdb.c:189-258 | lookups of a string agree with the scan, whatever the rules, if and only if fnmatch() carries over the special characters of the string |
| LookupLimits.AnsweredForEveryFnmatch | lib/libudev-hwdb.c:189-258 | they agree for all fnmatch() if and only if the string has no special character |
| LookupLimits.AnsweredWithoutBrackets | lib/libudev-hwdb.c:205-256 | with an fnmatch() in which characters match themselves they agree unless [ or a backslash is in the string, from its first special character on |
| LookupLimits.BracketLookedUp | lib/libudev-hwdb.c:205-256 | an input that goes wrong: rules for "a" and "a[b]", looking up "a[b]" |
| LookupLimits.MissesExactly | lib/libudev-hwdb.c:199-213 | with an fnmatch() in which a star matches everything no matching rule is ever missed, whatever the rules, if and only if char is unsigned or no byte above 127 is behind the first and in front of the first special character |
| LookupSpec.SearchExact | lib/libudev-hwdb.c:189-258 | where fnmatch() carries, and so for every string without special characters, a hit is found if and only if the trie has it, its literal head is a prefix of the string and the remainder matches the rest |
| LookupSpec.SearchSound | lib/libudev-hwdb.c:189-258 | for any string, a pattern found repeats the string up to a point from which it passes fnmatch(), or repeats all of it |
| LookupSpec.SearchComplete | lib/libudev-hwdb.c:189-258 | for any string, every matching pattern of the trie is found |
| LookupSpec.SelfMatchingCarries | lib/libudev-hwdb.c:156-187 | an fnmatch() in which characters match themselves carries over every string that has no [ and no backslash from its first special character on |
| SignedSearch.SignedWithin | lib/libudev-hwdb.c:199-213 | compiled with signed characters the traversal adds no hit |
| SignedSearch.RootComplete | lib/libudev-hwdb.c:199-213 | and finds every matching pattern whose head has no byte above 127 behind its first |
| SignedSearch.RootSame | lib/libudev-hwdb.c:199-213 | for a string without such bytes behind its first it finds the same, in the same order |
| PatternTree.SubtreeExact | lib/libudev-hwdb.c:156-187 | a subtree adds exactly its patterns whose remainder passes fnmatch() |
| Precedence.WinnerOutranks | lib/libudev-hwdb.c:143-258 | where fnmatch() carries, the value left for a key comes from a matching pattern of longest literal head; for a string without special characters an exact pattern beats every other |
| Precedence.SearchNondecreasing | lib/libudev-hwdb.c:205-256 | patterns are found in the order of their literal heads, the exact one last |
| HwdbReader.Hwdb.TrieSearch | lib/libudev-hwdb.c:189-258 | walking the file leaves in the property list what the traversal of the tree it spells out gives, with char signed or not |
| HwdbReader.Hwdb.Fnmatch | lib/libudev-hwdb.c:156-187 | a subtree of the file adds its hits, and the line buffer is as found afterwards |
| HwdbReader.Hwdb.NodeLookup | lib/libudev-hwdb.c:131-141 | bisection finds the child for a byte exactly if the node has one |
| HwdbReader.Hwdb.New | lib/libudev-hwdb.c:287-306 | a file is taken exactly if it is long enough, has the signature and its own length in the header |
| HwdbReader.Hwdb.GetProperties | lib/libudev-hwdb.c:383-398 | the properties are those of the hits of this lookup, the later replacing the earlier |
| HwdbStore.TrieF.Store | src/udevadm/udevadm-hwdb.c:342-407 | the file begins with KSLPHHRH, version and sizes, each at its offset, has header, nodes and strings, and as many bytes as computed beforehand; reading from the root offset spells out the tree, every child before its parent; -EFBIG exactly from 2^63 bytes on |
| HwdbStore.TrieF.StoreNodes | src/udevadm/udevadm-hwdb.c:287-340 | the nodes written for a subtree are found at the offset returned, all strings intact |
| HwdbStore.TrieF.StoreNodesSize | src/udevadm/udevadm-hwdb.c:274-285 | the size computed beforehand is the size of the tree's records |
| HwdbStore.NodeStored | src/udevadm/udevadm-hwdb.c:287-340 | a node's record behind its children's records spells out the subtree |
| HwdbFile.StoredExtend | src/udevadm/udevadm-hwdb.c:287-340 | what a file spells out it goes on to spell out as it grows |
| HwdbFile.HeaderRead | src/udevadm/udevadm-hwdb.c:347-384 | every field of the header is read as it was written |
| HwdbFile.LeRoundTrip | lib/libudev-hwdb-def.h:26-73 | a number that fits k bytes is read back from its little-endian form |
| HwdbFile.U64Bytes | lib/libudev-hwdb-def.h:26-73 | of the eight bytes of a number the lowest comes first |
| TrieTree.TrieIsTree | src/udevadm/udevadm-hwdb.c:46-79 | the records in memory are one ordered tree, which maps exactly what the trie maps |
| TrieTree.TreeCompact | src/udevadm/udevadm-hwdb.c:176-261 | without spare nodes every node but the root has values or at least two children |
| HwdbTrie.Trie.Insert | src/udevadm/udevadm-hwdb.c:176-261 | the mapping changes at the pattern and key only; the trie stays sorted and counted and, but for spare nodes, compact with at most two nodes for a pattern; no node is spare unless char is signed and a pattern has a byte above 127 |
| HwdbTrie.Trie.SplitNode | src/udevadm/udevadm-hwdb.c:194-225 | a node split inside its prefix leaves records, strings and counters linked as the split says |
| HwdbTrie.Trie.SplitAndGoOn | src/udevadm/udevadm-hwdb.c:186-236 | a byte of the prefix that is the same but as a signed char differs: the node is split, one node is spare, nothing else is mapped, and the walk goes on in the new child |
| HwdbTrie.Trie.AddValue | src/udevadm/udevadm-hwdb.c:137-174 | the value of a key is replaced, or a pair entered at its place |
| HwdbTrie.Trie.AddChildEntry | src/udevadm/udevadm-hwdb.c:88-105 | the child is entered where its byte belongs, and the counters follow |
| HwdbTrie.Trie.Descend | src/udevadm/udevadm-hwdb.c:181-260 | the walk ends inside a prefix that differs, at the pattern's node, or where no pattern goes on |
| Radix.SplitMaps | src/udevadm/udevadm-hwdb.c:194-225 | splitting a node changes neither what is mapped nor the patterns |
| Radix.SplitSpares | src/udevadm/udevadm-hwdb.c:194-225 | a split that no pattern needs leaves the mapping, and one spare node more |
| Radix.ChildUpdated | src/udevadm/udevadm-hwdb.c:237-255 | a new child with the value is the update of the mapping, and keeps the bound on the nodes |
| Radix.PairsUpdated | src/udevadm/udevadm-hwdb.c:229-231 | a value set at a node is the update of the mapping, and keeps the bound on the nodes |
| Radix.NoNodeInside | src/udevadm/udevadm-hwdb.c:186-194 | where a prefix differs from the pattern no other node of the trie has the pattern |
| Strbufs.Strbuf.AddString | shared/strbuf.c:129-201 | the offset holds the string, now and in all later states; 0 exactly for the empty string; the buffer grows exactly if the string is no tail of a stored one; the length is what the counters say |
| Strbufs.LeafAdded | shared/strbuf.c:171-200 | a leaf hung where the walk stopped keeps the index of all tails |
| ChildArrays.Bsearch | src/udevadm/udevadm-hwdb.c:107-116 | bisection over sorted children finds the entry exactly if it is there |
| ChildArrays.InsertSorted | shared/strbuf.c:103-126 | one entry more, at its place: still sorted, nothing else changed |
| RuleRuns.LoadAndApply | src/core/udev-rules.c:1919-2613 | compiled, linked and run, the token array makes of the event what the rules of the files mean; owner, group, mode, name and each link that were not there before come from a key of the rules, and no link is lost unless some SYMLINK key has = or := |
| RuleAssignments.RunTraced | src/core/udev-rules.c:2301-2552 | at the end of every run owner, group, mode, name and each link are as before or the user, group, octal number, replaced text or word that a key of that kind stands for; links only grow unless some SYMLINK key has = or := |
| RuleAssignments.LinksWritten | src/core/udev-rules.c:2507-2552 | wherever in a rule, SYMLINK with = or := leaves the words of the formatted value, otherwise these and the links there were, with the characters replaced that string_escape asks for; nothing if links are final or there is no node |
| RuleAssignments.LinksAddUp | src/core/udev-rules.c:2507-2552 | two rules one after the other that add links: both are there in the end, and those from before |
| RuleAssignments.OwnerWritten | src/core/udev-rules.c:2301-2387 | OWNER sets the user of the formatted value, or the number, unless the owner is final |
| RuleAssignments.GroupWritten | src/core/udev-rules.c:2327-2399 | GROUP likewise |
| RuleAssignments.ModeWritten | src/core/udev-rules.c:2353-2411 | MODE likewise, but a text that is no octal number changes nothing |
| RuleAssignments.NameWritten | src/core/udev-rules.c:2476-2506 | NAME sets the formatted value, characters replaced but for slashes; a device with a node keeps its own name, though := takes effect |
| RuleInterpreter.Write | src/core/udev-rules.c:2287-2552 | the case of the loop for each assignment computes what it means |
| RuleInterpreter.ApplyToEvent | src/core/udev-rules.c:1939-2613 | the loop ends, stays in the array, and its result is that of the rules from the first on |
| RuleInterpreter.AtMatch | src/core/udev-rules.c:2607-2611 | after a match the loop stands at the next token, or at the next rule or the end when it failed |
| RuleInterpreter.AtAssignment | src/core/udev-rules.c:2591-2595 | after an assignment the loop stands at the next token, after a linked GOTO at the rule with its label |
| RuleInterpreter.MatchParents | src/core/udev-rules.c:2033-2093 | a sequence of parent matches passes at the first device that passes all of them |
| RuleParser.RulesLoad | src/core/udev-rules.c:1692-1744 | the tokens of all files lie one after the other, each GOTO linked inside its file, and end with TK_END |
| RuleParser.ParseFile | src/core/udev-rules.c:1532-1614 | the rules of a file are added, and each GOTO gets the index of the next rule of this file with its label, or 0 |
| RuleParser.LinkAt | src/core/udev-rules.c:1594-1612 | a GOTO gets the index of the first later rule with its label, or 0; every other token, and all earlier links, stay |
| RuleLayout.BoundMoves | src/core/udev-rules.c:1593-1612 | linking one token more keeps the whole layout |
| RuleLayout.RuleAdded | src/core/udev-rules.c:1517-1526 | one block more keeps all earlier ones, their links included |
| RuleCompiler.Rules.SortToken | src/core/udev-rules.c:1023-1056 | the keys emitted are the rule's keys sorted by type, in spite of the marking and of the shrinking window |
| RuleCompiler.Rules.AddToken | src/core/udev-rules.c:447-468 | the token is appended, and growing the array loses none |
| RuleCompiler.FirstLive | src/core/udev-rules.c:1029-1046 | the first unmarked key of smallest type is the one that sorting takes next |
| RuleTokens.SortedPermutation | src/core/udev-rules.c:1023-1056 | sorting loses and adds no key |
| RuleTokens.SortedByType | src/core/udev-rules.c:1023-1056 | types do not decrease |
| RuleTokens.SortedStable | src/core/udev-rules.c:1023-1056 | keys of one type keep their order |
| RuleTokens.TypesByNumber | src/core/udev-rules.c:121-179 | which numbers of the enumeration are matches, parent matches and assignments |
| RuleRuns.PermissionsBeforeStaticNode | src/core/udev-rules.c:2615-2672 | permissions and tags of a rule come before its static nodes |
| RuleRuns.RunKeepsFinal | src/core/udev-rules.c:2301-2552 | what is final keeps its value to the end of every run |
| RuleRuns.FinalIsInForce | src/core/udev-rules.c:2301-2552 | an := that takes effect makes its value final, and it is in force at the end of the run |
| RuleRuns.FailedRuleAssignsNothing | src/core/udev-rules.c:2609-2611 | a rule one of whose matches fails does exactly what it would do without its assignments, and the next rule follows |
| RuleRuns.RemoveKeepsNames | src/core/udev-rules.c:1935-1950 | when names may not be set, as on every remove event, a whole run leaves owner, group, mode, name and links as they were |
| RuleRuns.GotoStaysInFile | src/core/udev-rules.c:1593-1612 | a jump goes to a later rule of the same file, with a label some GOTO of the rule names |
| RuleMatch.MatchKey | src/core/udev-rules.c:1790-1862 | a key passes exactly if one of its alternatives fits, or for != none does |
| RuleMatch.TryAlternatives | src/core/udev-rules.c:1806-1849 | the loop over the alternatives finds one exactly if there is one |
| RuleMatch.CutExactly | src/core/udev-rules.c:1831-1849 | a pattern with bars and special characters is matched as written if and only if cutting it off leaves the same alternatives |
| RuleMatch.LongPatternCut | src/core/udev-rules.c:1831-1849 | a pattern whose last alternative is lost |
| MonitorFilter.ProgramMeans | lib/libudev-monitor.c:268-365 | with up to 43 tags the program drops a message exactly if it has the magic and no tag's Bloom bits are all set or no subsystem's hashes are equal, where there are any; every other it passes whole |
| MonitorFilter.TooManyTags | lib/libudev-monitor.c:299-318 | with 44 to 84 tags a message for the first tag only is dropped |
| MonitorLimits.FaithfulExactly | lib/libudev-monitor.c:246-322 | the program agrees with the formula for all hashes and messages if and only if there are at most 43 tags |
| MonitorLimits.OverrunExactly | lib/libudev-monitor.c:270-357 | an instruction is written behind the array if and only if the tags leave no room, or a subsystem's code begins below the limit and ends above the array |
| MonitorLimits.ManySubsystems | lib/libudev-monitor.c:325-350 | 102 subsystems with a devtype do so |
| MonitorLimits.ManyTags | lib/libudev-monitor.c:290-322 | 85 tags do so, 84 alone do not |
| Monitor.FilterUpdate | lib/libudev-monitor.c:268-365 | an instruction is written behind the array exactly if more than 512 are; else the program is the one to install, none without filters, or -E2BIG exactly if the check finds it too long |
| Monitor.SendDevice | lib/libudev-monitor.c:715-777 | the header begins with libudev and the magic and tells the device's subsystem and devtype, the Bloom bits of its tags and no others, and the sizes, word by word; -EINVAL exactly for less than 32 bytes of properties |
| Monitor.SendAndReceive | lib/libudev-monitor.c:594-661 | what is sent is taken for a message of udev, with its properties where they are, unless it fills the 8192 bytes of the buffer |
| Monitor.TestHeader | lib/libudev-monitor.c:594-661 | a message is taken for one of udev exactly if it has the prefix, the magic and room for 32 bytes of properties, for one of the kernel exactly without the prefix |
| Monitor.BloomBit | lib/libudev-util.c:279-289 | bit n is set exactly if one of the four lowest groups of six bits of the hash is n |
| Monitor.TagBits | lib/libudev-monitor.c:745-748 | a bit is set exactly if it is one of some tag's |
| Monitor.SameTagsSameBloom | lib/libudev-monitor.c:745-752 | two headers for the same tags, in whatever order, have the same Bloom fields |
| Monitor.PassesFilter | lib/libudev-monitor.c:513-549 | passes exactly if some subsystem filter and some tag filter does, each if there are any |
| Monitor.NothingLost | lib/libudev-monitor.c:513-549 | what passes the exact filter the program passes whole in the header built for it |
| Monitor.FilterAndSend | lib/libudev-monitor.c:268-365 | filters updated, device sent, program run: if nothing was written behind the array and there are at most 43 tags, a message that passes the exact filter passes whole |
| DeviceNames.DeviceIndex.HandleEvents | src/core/udev-event.c:768-866 | coherence after any sequence of add, change and remove events and of devices leaving; and the database this leaves |
| DeviceNames.DeviceIndex.LinkExactly | src/core/udev-node.c:112-207 | in a coherent state, for a link none of whose claimants has left: the symlink exists exactly if a record lists it, and points to a claimant of highest priority |
| DeviceNames.DeviceIndex.LinkUpdate | src/core/udev-node.c:166-207 | only this link is touched; the claim is set or gone; the symlink stays exactly if the device adds itself or another claimant is found |
| DeviceNames.DeviceIndex.FindPrioritized | src/core/udev-node.c:112-163 | the target is that of a claimant no other one found outranks, whatever the order of the directory |
| DeviceNames.DeviceIndex.GiveUpLinks | src/core/udev-node.c:209-236 | the links no longer wanted are given up, all others agree with the database as before |
| DeviceNames.DeviceIndex.RenewLinks | src/core/udev-node.c:303-327 | the links wanted are claimed at the new priority |
| DeviceNames.DeviceIndex.Store | src/core/udev-event.c:789-865 | an add or change event keeps coherence and stores the new record |
| DeviceNames.DeviceIndex.Delete | src/core/udev-event.c:777-788 | a remove event removes the record and gives up all its links, each of which keeps its symlink exactly if another claimant is found; coherence is kept |
| DeviceNames.BothLeave | src/core/udev-node.c:112-207 | two claimants leave: after the first remove event the symlink is gone though the second's claim and record are there, after the second nothing is left |
| EventHandling.ExecuteRules | src/core/udev-event.c:768-866 | one event with the rules in it: coherence is kept; after an add or change event record and claims have exactly the links the run of the rules gave, record and tag index its tags, the record its priority, and every such link exists; after a remove event nothing of the device is left |
| EventHandling.RulesAndEvents | src/core/udev-event.c:768-866 | the same for every sequence of events and of devices leaving, whatever the rules: of every device its last event is to be seen, and its links exist if it has not left |
| EventHandling.LoadAndHandle | src/core/udev-event.c:768-866 | the same from the rules files on |
| EventHandling.EveryLastSeen | src/core/udev-event.c:768-866 | in a coherent state each device shows what its last event made of it, whatever came for others since |
| DeviceNames.DeviceIndex.TagIndex | lib/device/libudev-device-private.c:164-193 | the device's tag files are those of its new tags, all others as before |
| DeviceNames.StageDone | src/core/udev-node.c:209-343 | links given up and renewed one by one end in agreement with the new record |
| Hashmaps.Hashmap.Put | shared/hashmap.c:458-489 | a new key goes to the end, an existing one keeps its value and gives 0 or -EEXIST |
| Hashmaps.Hashmap.Replace | shared/hashmap.c:491-506 | the key has the value afterwards, at its place if it was there |
| Hashmaps.Hashmap.Update | shared/hashmap.c:508-521 | the value of an existing key is replaced, a missing one gives -ENOENT |
| Hashmaps.Hashmap.Get | shared/hashmap.c:523-536 | found exactly if the key is in the map, with its value |
| Hashmaps.Hashmap.Remove | shared/hashmap.c:566-583 | the key's item is taken out, the order of the others kept |
| Hashmaps.Hashmap.RemoveAndPut | shared/hashmap.c:613-637 | the old key's item is replaced by one at the end unless the new key exists |
| Hashmaps.Hashmap.RemoveAndReplace | shared/hashmap.c:639-665 | the same, an item that has the new key going first |
| Hashmaps.Hashmap.StealFirst | shared/hashmap.c:809-822 | the first item is taken out |
| Hashmaps.Hashmap.Clear | shared/hashmap.c:355-361 | no item is left |
| Hashmaps.Hashmap.Merge | shared/hashmap.c:863-880 | the other map's items whose keys are missing are added, in their order |
| Hashmaps.Hashmap.Move | shared/hashmap.c:882-906 | these items go over, those whose keys exist stay behind |
| Hashmaps.Hashmap.MoveOne | shared/hashmap.c:908-930 | one item goes over, or an error and nothing changes |
| Hashmaps.Hashmap.ResizeBuckets | shared/hashmap.c:400-456 | under any new hash key every entry is in its bucket; contents and order are unchanged |
| Hashmaps.Hashmap.LinkEntry | shared/hashmap.c:244-269 | chains and iteration list hold the entry, first of its bucket and last of the list |
| Hashmaps.Hashmap.UnlinkEntry | shared/hashmap.c:271-297 | neither holds it any more, everything else is as it was |
| Hashmaps.Hashmap.HashScan | shared/hashmap.c:388-398 | the chain of the key's bucket has the key exactly if the map has |
| HashChains.BucketsPushed | shared/hashmap.c:248-253 | an entry pushed in front of its bucket's chain keeps all chains |
| HashChains.BucketsPopped | shared/hashmap.c:286-293 | an entry taken out of its bucket's chain keeps all chains |
| HashChains.IterateRemoved | shared/hashmap.c:275-284 | an entry taken out of the iteration list keeps the list |
| UdevLists.UdevList.Add | lib/libudev-list.c:143-223 | a unique list maps the name to the value, the array sorted as the ring; any other list gets the entry at its end |
| UdevLists.UdevList.Delete | lib/libudev-list.c:225-244 | the entry leaves ring, array and map |
| UdevLists.UdevList.Cleanup | lib/libudev-list.c:246-266 | nothing is left |
| UdevLists.UdevList.Search | lib/libudev-list.c:119-141 | bisection finds the name, or its place in the order |
| UdevLists.UdevList.GetByName | lib/libudev-list.c:305-319 | the entry of a unique list exactly if the map has the name |
| UdevLists.InsertedSorted | lib/libudev-list.c:204-217 | a new name at its place keeps the order, and the map gains it |
| UdevLists.RemovedLinked | lib/libudev-list.c:78-88 | an entry's neighbours joined are the ring without it |
| EnumerateContexts.Enumerate.GetListEntry | lib/libudev-enumerate.c:268-340 | the list is made when it is out of date, and is the listing of the paths that were added: each once, those with /block/md or /block/dm- behind all others, otherwise in byte order but for control nodes, which come behind the rest of their card if that is listed and no other control node is between |
| EnumerateContexts.Enumerate.MakeList | lib/libudev-enumerate.c:279-337 | sorting, the pass with its array growing on the way, and the end give that listing |
| EnumerateContexts.Enumerate.Visit | lib/libudev-enumerate.c:283-322 | one turn of the loop is one step of the listing, the array moved or not |
| EnumerateContexts.Enumerate.SyspathAdd | lib/libudev-enumerate.c:168-197 | one path more, the others kept, the list out of date |
| Enumeration.ListingOrder | lib/libudev-enumerate.c:268-340 | of any two paths the smaller comes first, except that md and dm devices come last and a control node held back comes after what shares its card's prefix |
| Enumeration.ListingInOrder | lib/libudev-enumerate.c:268-340 | the same order with the bytes of the names written out |
| Enumeration.DelayEndMeans | lib/libudev-enumerate.c:218-232 | a path goes to the end exactly if behind its first four bytes it has /block/md or /block/dm- |
| Enumeration.DelayLaterMeans | lib/libudev-enumerate.c:234-258 | what a control node shares with its card ends with the slash in front of controlC, the first behind the first /sound/card |
| Enumeration.ControlFound | lib/libudev-enumerate.c:234-258 | every path that may be held back is such a control node |
| Enumeration.FindFirst | lib/libudev-enumerate.c:218-258 | strstr() gives the first place or none |
| Enumeration.EachOnce | lib/libudev-enumerate.c:286-290 | every path added is on the list once, and nothing else is |
| Enumeration.SlotOrder | lib/libudev-enumerate.c:301-326 | of two paths not delayed to the end the larger comes first if and only if the smaller is held back and the prefix shared |
| Enumeration.HeldLast | lib/libudev-enumerate.c:234-258 | a control node held back comes after all that shares its card's prefix |
| Enumeration.HeldBehindCard | lib/libudev-enumerate.c:301-319 | a control node is held back if its card is listed and no other control node is between them |
| Enumeration.TwoCards | lib/libudev-enumerate.c:301-321 | three paths that are listed as they are, the second card's control node before the rest of its card |
| Enumeration.SyspathCmpIsOrder | lib/libudev-enumerate.c:199-215 | the comparison is the order of byte strings, equal only for equal ones |
| Enumeration.PathsSorted | lib/libudev-enumerate.c:280 | sorting gives an ascending permutation |
| Escaping.CRoundTrip | shared/util.c:430-504 | cunescape() undoes cescape() |
| Escaping.XRoundTrip | shared/util.c:645-672 | cunescape() undoes xescape(), whatever is to be escaped |
| Escaping.CEscapeLeaves | shared/util.c:430-504 | cescape() leaves a string as it is exactly if it is printable and has no quotes and no backslash |
| Escaping.XEscapeLeaves | shared/util.c:645-672 | xescape() does exactly if it is printable and has no backslash and nothing to be escaped |
| Escaping.CEscapePrintable | shared/util.c:430-504 | whatever cescape() writes is printable ASCII |
| Escaping.CEscapedIs | shared/util.c:439-497 | which characters are written with which letter, and which in octal |
| Escaping.HexRead | shared/util.c:573-590 | two hexadecimal digits are read in upper and lower case |
| Escaping.LetterRead | shared/util.c:531-572 | which letter stands for which character, s for a space; behind any other the backslash stays |
| Escaping.CEscapeString | shared/util.c:430-504 | the loop writes the escaped string and a NUL into 4n + 1 bytes |
| Escaping.XEscapeString | shared/util.c:645-672 | the loop writes the escaped string and a NUL into 4n + 1 bytes |
| Escaping.UnescapeString | shared/util.c:506-633 | the loop writes prefix, unescaped string and NUL, never more than it reads; the byte behind the NUL is looked at exactly if the string ends with an escape without a digit, and does not matter |
| DevnodeNames.DevnodeRoundTrip | shared/device-nodes.c:40-74 | cunescape() undoes encode_devnode_name() |
| DevnodeNames.EncodeDevnodeName | shared/device-nodes.c:40-74 | the encoded name and a NUL, or -EINVAL exactly if they do not fit; 4n + 1 bytes always do |
| DevnodeNames.EncodedIsSafe | shared/device-nodes.c:30-38 | nothing is written but whitelisted characters, escapes and bytes above 127 |
| DevnodeNames.LeftAsItIs | shared/device-nodes.c:30-74 | an ASCII name is left as it is exactly if it has only letters, digits and #+-.:=@_ |
| DevnodeNames.HighPiece | shared/device-nodes.c:40-74 | a character of several bytes that RFC 3629 knows is written as it is, any other byte above 127 as an escape |
| DevnodeNames.AsciiPiece | shared/device-nodes.c:30-74 | an ASCII byte is written as it is exactly if it is a letter, a digit or one of #+-.:=@_ |
| Utf8.EncodedValidUnichar | shared/utf8.c:279-308 | the length of a valid character, and the test of the highest bits excludes nothing that decoding would accept |
| Utf8.ToUnichar | shared/utf8.c:105-142 | the loop decodes the character, or fails at the first byte that is no continuation |
| Utf8.AcceptedIsEncoding | shared/utf8.c:279-308 | what is accepted with several bytes is the encoding of a valid character as section 3 of RFC 3629 has it |
| Utf8.EncodingIsAccepted | shared/utf8.c:279-308 | every such encoding is accepted, at its length |

## Left out

- UpdateAndLookup: patterns of more than 2046 characters. The reader's line buffer has 2048 bytes and its functions fail beyond that.
- Store: writing cannot fail; -EFBIG stands for offsets that do not fit the signed 64-bit file position.
- AddKey: at most 64 keys in a rule, the size of the temporary array; the 65th would be written behind it.
- AddRule: the text of a line is not parsed. A line is its label, its flags and its keys, and strings stand for their offsets in the string buffer.
- ApplyToEvent: what PROGRAM, IMPORT, attributes, properties, format substitution, user and group lookups do are functions of the event, whose results may depend on everything but may change only a `world` that the other fields are not part of.
- MatchParents: which test a parent key is belongs to such a function. It is given the first key of the sequence too, because src/core/udev-rules.c:2071 reads that one's value for TAGS.
- RunKeepsFinal: no claim for RUN, whose run_final field the source declares and never reads.
- FilterUpdate: what happens once an instruction is written behind the array is not modelled, only that it is.
- SendDevice: devices without a subsystem are not sent, because the hash of a null pointer is not defined.
- TestHeader: of a message of the kernel only that it is taken for one; senders and credentials are not looked at.
- UnescapeString: whole strings, as cunescape() passes them; a length that cuts an escape is not modelled.
- ProgramMeans: messages shorter than the header, which a load behind their end drops.
- HandleEvents: file operations succeed, there are no conflicting nodes, and a device that is added or changed has its node. Handling is sequential; workers on the same link directory at the same time are not modelled.
- Store of an event: the links below /dev/block and /dev/char, permissions, watches, timestamps, renamed network interfaces and the properties of a record.
- Put: keys are equal exactly if they compare equal, and equal keys have equal hashes. Iterators, the pools of entries and freeing of values are not part of the model.
- SyspathAdd: paths begin with "/sys", as all paths of devices do; shorter ones are never added.
- Cleanup: list entries that are freed stay in the pool as records nothing points to. Flags and numbers of entries are left out.
- EncodeDevnodeName: null pointers as arguments.
- Allocation failures, in all modules.
- Reference counting, logging, the parsing of .hwdb files and of conf directories, the choice of matched devices by an enumeration, netlink sockets and credentials.
- Hardware probes, udevadm command lines, labels and time formatting: flat code with little to prove.
