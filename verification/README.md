# Wikimedia Puppet repository: models and proofs

Dafny models of the parts of this configuration repository that carry state machines,
reconcilers, windows and routing rules, with proofs of what they keep over every input
and every run. `dafny verify dfyconfig.toml` checks the whole project.

How the models are built:

- Code that changes state step by step is a class or a method with the source's loops
  and branches. Each such method is proved equal to a specification function, and the
  results are lemmas about that function or invariants of the class.
- Clock readings, random numbers, the enumeration order of Python's dictionaries and
  sets, the printing order of firewall chains, the order a sort gives to equal keys and
  the outcome of compiling a regular expression are parameters or nondeterministic
  choices. Ruby's hashes are walked in the order of insertion, as Ruby does since 1.9:
  the tables in their declared order, the current rules in print order.
- Exceptions and error returns are values (`Outcome`, `Option`).

The modules:

| module | subject |
|---|---|
| `FirewallKernel`, `FirewallLists`, `FirewallResource` | The Puppet `iptables` type: the lists it assembles; delete-until-nothing-matches, then append everything and drop the old prefix |
| `SaveText`, `SaveTextLaws`, `SaveTextContents` | Nova's rewriting of `iptables-save` text, its convergence, and the lines it returns |
| `IptablesTable`, `StartUp` | Nova's in-memory chains and rules of one table, and those it sets up at the start |
| `Counters` | The backported `Counter` class |
| `HtcpWindow`, `HtcpStatistics` | The HTCP sequence-number window, the totals and the sliding loss rate |
| `InstanceSearch`, `InstanceFilters` | Nova's instance search, split between the query and filters in memory; what each filter finds, and whom it confines |
| `BlockDevices`, `BlockDeviceCreation` | The block-device-mapping table and the three passes that fill it; the row each mapping leaves |
| `InstanceMetadata` | Metadata rows as a dictionary, with quota |
| `AddressAllocation`, `AddressRuns` | Fixed addresses and networks: who holds what, and since when; whole runs of calls |
| `NagiosPurge` | Commenting out the Nagios definitions of missing hosts |
| `SwiftRewrite` | Routing of upload URLs to Swift containers and objects |
| `Shuffle` | The Fisher-Yates shuffle of the stdlib module |
| `Lists`, `Text`, `Wrappers` | Filters, removals, look-ups, stripping, splitting, joining and missing values, used by the others |

Some results are about where the code falls short of what one would expect. Each comes
with the exact condition and with an input that shows it:

- A second firewall run is quiet if and only if the first did not reload or every
  declared list follows the printing order of its chains (`FirewallKernel.SecondRunQuiet`).
  The sort sees to that for the resources; the pre and post files, added after the sort,
  can break it (`FirewallLists.AssembledInPrintOrderIff`, `SecondFinalizeQuietIff`,
  `SecondRunIsNotAlwaysQuiet`).
- Without a reload a surplus copy of a declared rule stays: the kernel ends exactly as
  declared if and only if there is a reload or each table is left with as many rules as
  are declared for it (`FirewallKernel.EndsAsDeclaredIff`, `SurplusCopyStays`).
- A pre file makes the run fail if and only if some line has more lines for other tables
  before it than its own table had rules (`FirewallLists.HoleIff`, `TwoTablesFail`).
- Rewriting save text twice is not always rewriting it once; three times is always twice
  (`SaveTextLaws.TwiceIsOnceIff`, `TwiceIsNotAlwaysOnce`, `ThreeTimesIsTwice`). The filter
  table that Nova starts with settles at once, its nat table only behind another component
  (`StartUp.FilterSettlesAtOnce`, `NatSettlesAtOnceIff`, `NatDoesNotSettleAtOnce`).
- Removing a forwarding that was only partly added takes rules that were there before, if
  and only if one of the missing rules was (`IptablesTable.PartlyAdded`,
  `RemovalTakesOlderRule`).
- Purging the HTCP window is exact for every length of the buffer if and only if its
  timestamps are sorted. They are as long as the clock is not set back; when it is, an old
  slot can stay (`HtcpWindow.PurgeExactIffSorted`, `PurgeIsExact`, `OldSlotStays`).
  Everything else about the window and the statistics holds for any clock.
- The Nagios filter drops lines if and only if a definition is not closed
  (`NagiosPurge.LosesLinesIff`, `UnclosedIsDropped`).
- A math or score path can be taken for an upload or timeline of a wiki of that name, and
  a public object under `temp` for one of the zone `temp` (`SwiftRewrite.MathRoutedIff`,
  `ScoreRoutedIff`, `PublicUploadRoutedIff`, `SomePathsAreMistaken`).
- Two paths share container and object if and only if they agree in repository, zone,
  object and the joined name of the wiki (`SwiftRewrite.SameTargetIff`). So a path shares
  them with another one if and only if it is an upload or a timeline of a wiki with a dash
  behind the first character of its project or before the last one of its language
  (`SharedTargetIff`, `RouteIsInjective`, `DashesCollide`).
- An address that several rows have can be assigned twice without being freed. For a
  table in which every live row has a network and none is held, some run of calls does so
  if and only if there is an instance and two live rows of the address differ in network or
  reserved flag or the later one is a free row of the pool (`AddressRuns.RunsFreeAddressesIff`,
  `PoolAssignsTwice`). Where live addresses are distinct none does, whatever networks the
  rows have (`DistinctAddressesFreed`).

By design, `network_associate` with `force` gives a project a second network, exactly if it
has one and another one is free (`AddressAllocation.Networks.Associate`).

## Model

| member | source | states |
|---|---|---|
| `FirewallKernel.PassProgress` | modules/ip/lib/puppet/type/iptables.rb:521-561 | One round on a table removes as many undeclared rules as it ran commands, leaves every chain's declared rules in place, and removes nothing only if none was left |
| `FirewallKernel.PassKernel` | modules/ip/lib/puppet/type/iptables.rb:419-420 | The same over the four tables: the number of undeclared copies is the loop's measure, although each round deletes one copy of each line only |
| `FirewallKernel.DeleteStep` | modules/ip/lib/puppet/type/iptables.rb:545-556 | Deleting one undeclared rule by specification keeps the declared rules in place and takes exactly one off the undeclared ones |
| `FirewallKernel.AppendedChain` | modules/ip/lib/puppet/type/iptables.rb:429-442 | Appending the declared rules puts each chain's share, in order, behind what the chain held |
| `FirewallKernel.BeheadedChain` | modules/ip/lib/puppet/type/iptables.rb:444-458 | One head deletion per old line removes from each chain exactly the prefix of as many rules as the chain had lines |
| `FirewallKernel.ReloadExact` | modules/ip/lib/puppet/type/iptables.rb:427-458 | Append-everything-then-drop-the-old leaves every chain with exactly its declared rules in declared order |
| `FirewallKernel.FinalizeMeetsDeclaration` | modules/ip/lib/puppet/type/iptables.rb:393-487 | After a run every kernel rule is declared; after a reload each chain is the declared list of that chain; without a reload each declared list is a prefix of the printed one |
| `FirewallKernel.EndsAsDeclaredIff` | modules/ip/lib/puppet/type/iptables.rb:416-458 | Every chain ends as its declared list if and only if there is a reload or each table is left with as many rules as are declared for it |
| `FirewallKernel.SurplusCopyStays` | modules/ip/lib/puppet/type/iptables.rb:416-458 | A chain with a declared rule twice, which stays so |
| `FirewallKernel.PrefixIffOrdered` | modules/ip/lib/puppet/type/iptables.rb:499-519 | The numbered comparison finds no difference after a reload exactly when the list was declared in the printing order of its chains |
| `FirewallKernel.SecondRunQuiet` | modules/ip/lib/puppet/type/iptables.rb:416-458 | A second run with the same resources issues no command if and only if the first did not reload or every list is in print order |
| `FirewallKernel.SortedIsInPrintOrder` | modules/ip/lib/puppet/type/iptables.rb:394-398 | A list sorted by chain priority is in print order when the table prints its chains by priority |
| `FirewallKernel.ReplayAppend` | modules/ip/lib/puppet/type/iptables.rb:426-458 | The kernel after two runs of commands is that of the second after that of the first: what lets the log of a whole run be replayed command by command |
| `FirewallKernel.ReloadNeverBare` | modules/ip/lib/puppet/type/iptables.rb:426-458 | At every moment of the second loop of a reload, each chain still ends with all its declared rules in order: only rules from before have gone |
| `FirewallLists.AssembledTable` | modules/ip/lib/puppet/type/iptables.rb:396-402 | Where the lines for a table lead the pre file, its assembled list is those lines, the sorted resources, the lines of the post file |
| `FirewallLists.PriorityLayout` | modules/ip/lib/puppet/type/iptables.rb:35-43 | A table that prints its chains in the order of `@@chain_order` prints the chains of any resources by priority |
| `FirewallLists.ChainOrder` | modules/ip/lib/puppet/type/iptables.rb:35-43 | `PREROUTING`, `INPUT`, `FORWARD`, `OUTPUT`, `POSTROUTING`, in this order; any other chain comes first |
| `FirewallLists.TextLeIff` | modules/ip/lib/puppet/type/iptables.rb:396-398 | Texts are compared by the first character at which they differ, and a beginning of a text comes before it |
| `FirewallLists.SortedByChainNameSource` | modules/ip/lib/puppet/type/iptables.rb:396-398 | Of two resources of a sorted list, the earlier has the earlier chain, or the same one and the earlier name, or that too and the earlier source |
| `FirewallLists.AssembledInPrintOrderIff` | modules/ip/lib/puppet/type/iptables.rb:394-402 | Where the chains of the resources are printed by priority, and whatever the sort does with equal keys, that list is in print order if and only if both files are and no rule of the pre file, or of the resources, belongs to a chain printed after that of a rule that follows it in the resources or the post file |
| `FirewallLists.SecondFinalizeQuietIff` | modules/ip/lib/puppet/type/iptables.rb:393-487 | From the resources and the files: a second run issues no command if and only if the first did not reload or the files fit the resources in this way |
| `FirewallLists.LeadingLines` | modules/ip/lib/puppet/type/iptables.rb:358-388 | Lines of the pre file come in front of their table's rules if no line for another table precedes them |
| `FirewallLists.LinesStay` | modules/ip/lib/puppet/type/iptables.rb:374-384 | Wherever the lines for other tables stand: line n of the pre file ends at position n of its table's list |
| `FirewallLists.HoleIff` | modules/ip/lib/puppet/type/iptables.rb:360-384 | The pre file leaves a hole in a list, on which the numbering fails, if and only if some line has more lines for other tables before it than its own table had rules |
| `FirewallLists.TwoTablesFail` | modules/ip/lib/puppet/type/iptables.rb:360-384 | A pre file of two lines that does |
| `FirewallLists.PushedLines` | modules/ip/lib/puppet/type/iptables.rb:378-382 | Lines of the post file come behind their table's rules, and never leave a hole |
| `FirewallLists.SecondRunIsNotAlwaysQuiet` | modules/ip/lib/puppet/type/iptables.rb:400-458 | With an `OUTPUT` rule before an `INPUT` rule, the second run on an empty table issues commands again |
| `FirewallResource.ResourceType.LoadRulesFromFile` | modules/ip/lib/puppet/type/iptables.rb:358-388 | Line by line, inserting at the counter that runs along with the lines of all tables, or pushing; false if a line leaves a hole |
| `FirewallResource.ResourceType.Assemble` | modules/ip/lib/puppet/type/iptables.rb:396-402 | Sort, pre file and post file leave the assembled lists, or fail on a hole |
| `FirewallResource.ResourceType.Execute` | modules/ip/lib/puppet/type/iptables.rb:429-458 | One command is logged and takes its effect on the kernel; every change of the kernel goes through here |
| `FirewallResource.ResourceType.DeleteNotMatchedRules` | modules/ip/lib/puppet/type/iptables.rb:521-561 | One round: the new kernel, which is what the logged commands make of the old one; these are one `-D` with the specification of each undeclared line, in print order; no change and no command in noop mode |
| `FirewallResource.ResourceType.DeleteUntilNoneLeft` | modules/ip/lib/puppet/type/iptables.rb:416-420 | The loop ends, with every undeclared copy deleted by one command each and nothing else touched, and the commands replayed give the kernel; in noop mode after one round |
| `FirewallResource.ResourceType.LoadCurrentRules` | modules/ip/lib/puppet/type/iptables.rb:321-334 | Numbered, every printed line counts; unnumbered, duplicates collapse into one |
| `FirewallResource.ResourceType.RulesAreDifferent` | modules/ip/lib/puppet/type/iptables.rb:499-519 | True exactly when some declared list is not a prefix of what its table prints |
| `FirewallResource.ResourceType.Reload` | modules/ip/lib/puppet/type/iptables.rb:426-458 | After the two command loops each chain holds its declared rules in order; the commands are one `-A` per declared rule and then one `-D chain 1` per old rule, in these orders, and replayed they give the kernel |
| `FirewallResource.ResourceType.Reconcile` | modules/ip/lib/puppet/type/iptables.rb:416-484 | The same for given lists: delete until nothing is left to delete, compare, reload, persist, drop the declarations; the commands replayed give the final kernel |
| `FirewallResource.ResourceType.Finalize` | modules/ip/lib/puppet/type/iptables.rb:393-487 | From the resources and files to the final kernel and the number of commands in closed form, and the commands replayed on the old kernel give it; a hole in a list fails before any command; noop mode runs none; the declarations are dropped, and the rules persisted where there is a command for it, exactly when they differed |
| `SaveText.ModifyRules` | files/example/files/openstack/diablo/nova/linux_net.py:320-374 | The loops and splices return the text whose lines `SaveTextContents` states and whose order and convergence the lemmas of `SaveTextLaws` state |
| `SaveText.FindRulesIndex` | files/example/files/openstack/diablo/nova/linux_net.py:329-337 | The index found by the flag loop, including the text that ends inside the declarations |
| `SaveText.WeedOutDuplicates` | files/example/files/openstack/diablo/nova/linux_net.py:359-374 | Reverse, filter by a set of seen lines and reverse again keeps of equal stripped lines the last |
| `SaveTextLaws.ModifiedContents` | files/example/files/openstack/diablo/nova/linux_net.py:325-374 | For any text: no two equal stripped lines; the stripped lines are those of others plus the component's own; other lines keep the order of their last occurrences |
| `SaveTextLaws.IndexPastChains` | files/example/files/openstack/diablo/nova/linux_net.py:329-348 | The index, computed before the top rules are taken out, still points just past the chain declarations |
| `SaveTextLaws.DroppedSections` | files/example/files/openstack/diablo/nova/linux_net.py:342-347 | Taking the top rules out removes lines behind that index only |
| `SaveTextLaws.ModifiedSections` | files/example/files/openstack/diablo/nova/linux_net.py:320-374 | The result on well-formed text, section by section |
| `SaveTextLaws.ResultWellFormed` | files/example/files/openstack/diablo/nova/linux_net.py:320-374 | The result is well-formed again |
| `SaveTextLaws.DeclarationsPrecedeRules` | files/example/files/openstack/diablo/nova/linux_net.py:350-357 | Every chain declaration precedes every rule line |
| `SaveTextLaws.TopRulesPrecedeOthers` | files/example/files/openstack/diablo/nova/linux_net.py:342-350 | A top rule precedes every rule of another component |
| `SaveTextLaws.ThreeTimesIsTwice` | files/example/files/openstack/diablo/nova/linux_net.py:320-374 | Three applications to well-formed text are two |
| `SaveTextLaws.TwiceIsOnceIff` | files/example/files/openstack/diablo/nova/linux_net.py:320-374 | Two are one if and only if no inserted rule line that a later application does not recognise stands before one that it does |
| `SaveTextLaws.ClaimedSettlesAtOnce` | files/example/files/openstack/diablo/nova/linux_net.py:325-347 | Two are one whenever each rule is a top rule or its printed line mentions the component |
| `SaveTextLaws.WrappedMentions` | files/example/files/openstack/diablo/nova/linux_net.py:102-107 | A wrapped rule's printed line mentions the component |
| `SaveTextLaws.TwiceIsNotAlwaysOnce` | files/example/files/openstack/diablo/nova/linux_net.py:320-374 | A text and two rules for which two are not one |
| `SaveTextContents.ModifiedExactly` | files/example/files/openstack/diablo/nova/linux_net.py:320-374 | For any text: a stripped line is in the result if and only if somebody else put it there, or it is `:component-chain - [0:0]` for a chain of the table or `:chain - [0:0]` for a shared one, or `-A chain rule` for one of the rules, with `component-` in front of the chain if the rule is wrapped |
| `SaveTextContents.RuleReachesItsChain` | files/example/files/openstack/diablo/nova/linux_net.py:102-107 | A rule for a chain of the table, wrapped or not, is appended to the very chain that the result declares |
| `SaveTextContents.WeedingKeepsLast` | files/example/files/openstack/diablo/nova/linux_net.py:359-374 | Of lines that are equal when stripped the last is kept, in its place among the others |
| `SaveTextContents.SampleResult` | files/example/files/openstack/diablo/nova/linux_net.py:320-374 | A text and two rules, and the text they give |
| `StartUp.SetUpFilter` | files/example/files/openstack/diablo/nova/linux_net.py:248-274 | The chains of the filter table at the start, and its rules, which `FilterRulesAre` spells out |
| `StartUp.SetUpNat` | files/example/files/openstack/diablo/nova/linux_net.py:260-292 | The chains of the nat table at the start, and its rules, which `NatRulesAre` spells out |
| `StartUp.FilterRulesAre` | files/example/files/openstack/diablo/nova/linux_net.py:248-274 | The six rules of the filter table, as texts and in order: two top rules, the jump to the local chain, and one from each built-in chain |
| `StartUp.NatRulesAre` | files/example/files/openstack/diablo/nova/linux_net.py:260-292 | The six rules of the nat table, as texts and in order |
| `StartUp.WrapChains` | files/example/files/openstack/diablo/nova/linux_net.py:270-274 | The loop adds a wrapped chain and a jump to it for each built-in chain |
| `StartUp.JumpStored` | files/example/files/openstack/diablo/nova/linux_net.py:178-186 | A jump to `$name` is stored as one to the component's chain of that name |
| `StartUp.FilterSettlesAtOnce` | files/example/files/openstack/diablo/nova/linux_net.py:248-274 | With the start-up filter table, two applications to any well-formed text are one |
| `StartUp.NatSettlesAtOnceIff` | files/example/files/openstack/diablo/nova/linux_net.py:260-292 | With the start-up nat table they are if and only if another component has put `-A POSTROUTING -j nova-postrouting-bottom` into the text already, or that line mentions the component |
| `StartUp.NatDoesNotSettleAtOnce` | files/example/files/openstack/diablo/nova/linux_net.py:276-292 | An empty nat table for which they are not |
| `IptablesTable.WrapTargetsWords` | files/example/files/openstack/diablo/nova/linux_net.py:178-186 | Each word that starts with `$` becomes the name of the component, a dash and the rest of the word; all other words stay |
| `IptablesTable.WrapTargetsWordsIff` | files/example/files/openstack/diablo/nova/linux_net.py:178-186 | It does so word by word if and only if the component's name has no space or no word is a target |
| `IptablesTable.AddThenRemove` | files/example/files/openstack/diablo/nova/linux_net.py:449-460 | Adding rules and removing them restores the multiset of rules, and the list itself when none of them was there before |
| `IptablesTable.PartlyAdded` | files/example/files/openstack/diablo/nova/linux_net.py:449-460 | When only the first of the rules were added and all are removed, the multiset of rules is restored if and only if none of the others was there before |
| `IptablesTable.RemovalTakesOlderRule` | files/example/files/openstack/diablo/nova/linux_net.py:449-460 | A missing chain and an older rule for which it is not restored |
| `IptablesTable.StoredAsGiven` | files/example/files/openstack/diablo/nova/linux_net.py:178-186 | Rules for addresses without `$` are stored as they are given |
| `IptablesTable.FloatingWords` | files/example/files/openstack/diablo/nova/linux_net.py:463-467 | The three rules of a forwarding, word by word: what goes to the floating address goes to the fixed one, what the fixed one sends comes from the floating one |
| `IptablesTable.Table.AddChain` | files/example/files/openstack/diablo/nova/linux_net.py:118-133 | The name joins the wrapped or the unwrapped chains, and wrapped rules keep their chains |
| `IptablesTable.Table.RemoveChain` | files/example/files/openstack/diablo/nova/linux_net.py:135-162 | The chain, its rules and the rules that jump to it go, all others stay in order; an unknown chain changes nothing |
| `IptablesTable.Table.AddRule` | files/example/files/openstack/diablo/nova/linux_net.py:164-181 | Refused exactly for a wrapped rule in an unknown chain; otherwise appended; every wrapped rule's chain is declared |
| `IptablesTable.Table.RemoveRule` | files/example/files/openstack/diablo/nova/linux_net.py:188-202 | The first equal rule goes; an absent rule changes nothing |
| `IptablesTable.Table.EmptyChain` | files/example/files/openstack/diablo/nova/linux_net.py:204-209 | The repeated removal of the first equal rule is the filter that drops the chain's rules and keeps the rest in order |
| `IptablesTable.Table.EnsureFloatingForward` | files/example/files/openstack/diablo/nova/linux_net.py:449-453 | The three rules, their targets wrapped, are appended up to the first whose chain is unknown |
| `IptablesTable.Table.RemoveFloatingForward` | files/example/files/openstack/diablo/nova/linux_net.py:456-467 | The same three rules are removed, first equal copy each |
| `IptablesTable.Table.ForwardAndBack` | files/example/files/openstack/diablo/nova/linux_net.py:449-467 | Forwarding an address and removing the forwarding: all is as before when every chain is known, and otherwise exactly if none of the rules that were not added was there |
| `Counters.Laws` | files/example/files/ganglia/plugins/compat.py:119-186 | For counts that are not negative: (A+B)-B = A, (A-B)+(A&B) = A, (A\|B)+(A&B) = A+B |
| `Counters.ByKey` | files/example/files/ganglia/plugins/compat.py:119-186 | The four operators for one key and counts of any sign: sum, difference, maximum and minimum where positive, and no other keys |
| `Counters.Update` | files/example/files/ganglia/plugins/compat.py:80-87 | Pointwise addition, the fast path for an empty counter included |
| `Counters.UpdateFrom` | files/example/files/ganglia/plugins/compat.py:88-91 | One more for each occurrence in the iterable |
| `Counters.Elements` | files/example/files/ganglia/plugins/compat.py:45-58 | Each key as often as its count, and never for a count of zero or less |
| `Counters.Recount` | files/example/files/ganglia/plugins/compat.py:45-91 | Counting the elements again gives the positive part, for any counts |
| `Counters.Add` | files/example/files/ganglia/plugins/compat.py:119-134 | The positive sums, whatever the order of the keys |
| `Counters.Sub` | files/example/files/ganglia/plugins/compat.py:136-150 | The positive differences |
| `Counters.Or` | files/example/files/ganglia/plugins/compat.py:152-167 | The positive maxima |
| `Counters.And` | files/example/files/ganglia/plugins/compat.py:169-186 | The positive minima; the swap of the operands by size does not show |
| `HtcpWindow.StepKeepsWindow` | files/example/files/ganglia/plugins/htcpseqcheck.py:43-96 | Every packet keeps the window contiguous, with each slot, in the window or gone, marked as received exactly if its number arrived while it was there; and sorted by time if the clock was never set back |
| `HtcpWindow.PurgeIsExact` | files/example/files/ganglia/plugins/htcpseqcheck.py:88-94 | The purge removes only slots older than the buffer and stops at one that is not; with a clock that was never set back it removes exactly the older ones |
| `HtcpWindow.PurgeExactIffSorted` | files/example/files/ganglia/plugins/htcpseqcheck.py:88-94 | Dropping leading slots is exact for every length of the buffer if and only if the timestamps are sorted |
| `HtcpWindow.OldSlotStays` | files/example/files/ganglia/plugins/htcpseqcheck.py:88-94 | Three clock readings for which an old slot stays behind a younger one |
| `HtcpWindow.TakenAccount` | files/example/files/ganglia/plugins/htcpseqcheck.py:55-79 | A packet adds one received slot unless it is counted as a duplicate or as ancient |
| `HtcpWindow.AddCountsByKey` | files/example/files/ganglia/plugins/htcpseqcheck.py:83-96 | What one call counts: one received, as many dequeued as slots left, as many lost as of those were never received |
| `HtcpWindow.CountedAsWhatItIs` | files/example/files/ganglia/plugins/htcpseqcheck.py:55-79 | A packet is counted as ancient exactly if its number is below a window that is not empty; as a duplicate exactly if the window has a slot for it and it arrived since the slot was made; as out of order exactly if it has a slot and did not |
| `HtcpWindow.RunTallies` | files/example/files/ganglia/plugins/htcpseqcheck.py:43-96 | Over every run, each of these three totals is the number of packets that were of that sort when they came |
| `HtcpWindow.StepKeepsBalance` | files/example/files/ganglia/plugins/htcpseqcheck.py:55-96 | Every packet keeps received - ancient - dups = dequeued - lost + received slots in the window |
| `HtcpWindow.RunBalances` | files/example/files/ganglia/plugins/htcpseqcheck.py:43-96 | So does every run from an empty buffer, with received the number of calls and lost at most dequeued |
| `HtcpWindow.RingBuffer.Add` | files/example/files/ganglia/plugins/htcpseqcheck.py:43-86 | One call is one step of the specification, whose counts `CountedAsWhatItIs` and `AddCountsByKey` state; the assertion and the look-ups by position never fail |
| `HtcpWindow.RingBuffer.TakeIn` | files/example/files/ganglia/plugins/htcpseqcheck.py:50-79 | In order, gap, ancient, duplicate or late: the window, and what the packet is counted as, which is what `CountedAsWhatItIs` says it is |
| `HtcpWindow.RingBuffer.Deque` | files/example/files/ganglia/plugins/htcpseqcheck.py:88-96 | The expired prefix goes, is counted, and the counts are added to the buffer's |
| `HtcpStatistics.SlideIsExact` | files/example/files/ganglia/plugins/htcpseqcheck.py:107-115 | The sliding counts stay the plain sum of the recent counters, of which there are never more than the limit: the truncating subtraction cuts nothing off |
| `HtcpStatistics.RecentIsLast` | files/example/files/ganglia/plugins/htcpseqcheck.py:107-115 | Over every run the deque holds the counters of the last packets, as many as the limit allows, and the sliding counts are their sum |
| `HtcpStatistics.TotalsAreExact` | files/example/files/ganglia/plugins/htcpseqcheck.py:122-130 | The totals stay the sum of all sources' counts |
| `HtcpStatistics.SourcesRunApart` | files/example/files/ganglia/plugins/htcpseqcheck.py:117-130 | Over every run, the window and the counts of a source are those of a run over the packets of that source alone |
| `HtcpStatistics.CheckKeepsStats` | files/example/files/ganglia/plugins/htcpseqcheck.py:117-130 | Every packet keeps all windows, the totals and the sliding sum valid |
| `HtcpStatistics.LossPercentExact` | files/example/files/ganglia/plugins/htcpseqcheck_ganglia.py:136-145 | The reported percentage times the dequeued packets is a hundred times the lost ones; none is reported exactly if nothing was dequeued |
| `HtcpStatistics.LossPercentInRange` | files/example/files/ganglia/plugins/htcpseqcheck_ganglia.py:136-145 | Over every run the reported loss percentage lies in 0..100 |
| `HtcpStatistics.ReportDividesByPositive` | files/example/files/ganglia/plugins/htcpseqcheck.py:141-159 | Whenever the report is printed, both of its divisors are positive, the unguarded one too |
| `HtcpStatistics.HtcpCheck.UpdateSlidingCounts` | files/example/files/ganglia/plugins/htcpseqcheck.py:107-115 | One update is the slide that `SlideIsExact` shows to keep the plain sum |
| `HtcpStatistics.HtcpCheck.CheckHtcpSeq` | files/example/files/ganglia/plugins/htcpseqcheck.py:117-130 | The critical section is one step of the specification, on a heap of separate buffers |
| `HtcpStatistics.HtcpCheck.SetDefault` | files/example/files/ganglia/plugins/htcpseqcheck.py:123 | A known source keeps its buffer, a new one gets a fresh one |
| `InstanceSearch.InstanceGetAllByFilters` | files/example/files/openstack/diablo/nova/sqlalchemy-api.py:1208-1359 | Whatever the order of the filters and their split between query and memory, the result is the newest-first list of the rows that pass all of them; and exactly when the search raises |
| `InstanceSearch.Query` | files/example/files/openstack/diablo/nova/sqlalchemy-api.py:1269-1335 | The query returns the rows that pass the conjunction of the time, exact and address filters |
| `InstanceSearch.HoldersOf` | files/example/files/openstack/diablo/nova/sqlalchemy-api.py:1309-1333 | The two sub-queries together find exactly the instances tied to the address |
| `InstanceSearch.FilterByIp` | files/example/files/openstack/diablo/nova/sqlalchemy-api.py:1220-1232 | True exactly if some fixed address, or a floating one of a fixed one, matches |
| `InstanceSearch.FilterByMetadata` | files/example/files/openstack/diablo/nova/sqlalchemy-api.py:1234-1245 | True exactly if every wanted item is among the instance's |
| `InstanceSearch.KeepMatching` | files/example/files/openstack/diablo/nova/sqlalchemy-api.py:1343-1357 | One filter pass over the rows in memory |
| `InstanceSearch.FilterOrdered` | files/example/files/openstack/diablo/nova/sqlalchemy-api.py:1269-1272 | Filtering and the newest-first order commute |
| `InstanceSearch.FoundExactly` | files/example/files/openstack/diablo/nova/sqlalchemy-api.py:1209-1212 | A row is found if and only if it passes every filter, as often as it is stored, and no row comes before one that was created later |
| `InstanceSearch.SecondPass` | files/example/files/openstack/diablo/nova/sqlalchemy-api.py:1278-1280 | The time filter, which stays in the dictionary and comes round again as a column filter, does no harm there |
| `InstanceSearch.FurtherFilterNarrows` | files/example/files/openstack/diablo/nova/sqlalchemy-api.py:1209-1212 | One filter more keeps of the rows found exactly those that pass it, in the same order |
| `InstanceSearch.DeletedRowsFound` | files/example/files/openstack/diablo/nova/sqlalchemy-api.py:1209-1212 | A search that does not mention the column accepts a row whatever is in it; without a filter every row is found |
| `InstanceFilters.ExactFilterFinds` | files/example/files/openstack/diablo/nova/sqlalchemy-api.py:1256-1267 | With one filter on one of the six exact columns a row is found if and only if the column holds the text, or one of the listed texts, or is null; a dictionary raises |
| `InstanceFilters.SinceFilterFinds` | files/example/files/openstack/diablo/nova/sqlalchemy-api.py:1278-1280 | `changes-since` finds exactly the rows updated later than the moment given |
| `InstanceFilters.AddressFilterFinds` | files/example/files/openstack/diablo/nova/sqlalchemy-api.py:1309-1335 | `ip` finds exactly the instances named by a live row with the fixed address, or by one with a live floating address, whether that row is live or not |
| `InstanceFilters.AddressPatternsFind` | files/example/files/openstack/diablo/nova/sqlalchemy-api.py:1213-1232 | `ip6` and `ip_re` find exactly the rows with an interface, or a fixed or floating address below an interface, that is not empty and matches |
| `InstanceFilters.MetadataFilterFinds` | files/example/files/openstack/diablo/nova/sqlalchemy-api.py:1234-1245 | `metadata` finds exactly the rows that have every item of a dictionary, or for a list every entry as an item of their own |
| `InstanceFilters.ColumnPatternFinds` | files/example/files/openstack/diablo/nova/sqlalchemy-api.py:1247-1254 | Any other filter finds the rows without such a column and those whose column is not falsy and matches |
| `InstanceFilters.BadPatternRaisesIff` | files/example/files/openstack/diablo/nova/sqlalchemy-api.py:1335-1348 | An expression that does not compile raises if and only if there are rows |
| `InstanceFilters.SearchIsIntersection` | files/example/files/openstack/diablo/nova/sqlalchemy-api.py:1208-1359 | A search with many filters finds exactly the rows that the searches with each of them find |
| `InstanceFilters.RaisesIff` | files/example/files/openstack/diablo/nova/sqlalchemy-api.py:1208-1359 | When a search raises: for the values given, or because some row passes the filters of the database and an expression does not compile |
| `InstanceFilters.OnlyOwnInstances` | files/example/files/openstack/diablo/nova/sqlalchemy-api.py:1282-1287 | A caller who is no administrator finds exactly the rows that hold its project in `project_id`, or, without a project, its user (or nothing, without a user) in `user_id`, and that pass its other filters, whatever it asks for in that column |
| `InstanceFilters.AdministratorIsNotConfined` | files/example/files/openstack/diablo/nova/sqlalchemy-api.py:1282-1287 | An administrator's search is the one asked for, and without a filter finds every row |
| `InstanceFilters.TwoProjects` | files/example/files/openstack/diablo/nova/sqlalchemy-api.py:1282-1287 | Two instances of two projects, of which the caller of the one finds its own, whichever project it asks for |
| `BlockDevices.UpsertKeepsUnique` | files/example/files/openstack/diablo/nova/sqlalchemy-api.py:2624-2651 | A call keeps at most one live row per device and at most one per swap or ephemeral name |
| `BlockDevices.RunsKeepUnique` | files/example/files/openstack/diablo/nova/sqlalchemy-api.py:2624-2651 | So does every run of calls |
| `BlockDevices.UpsertSeen` | files/example/files/openstack/diablo/nova/sqlalchemy-api.py:2624-2651 | A call writes the row of its device, column by column, keeping the columns it does not give; it takes the row of the device that held the swap or ephemeral name, and leaves every other device of the instance |
| `BlockDevices.UpsertSeenElsewhere` | files/example/files/openstack/diablo/nova/sqlalchemy-api.py:2627-2651 | Nothing that other instances see changes |
| `BlockDevices.LastMentionWins` | files/example/files/openstack/diablo/nova/sqlalchemy-api.py:2624-2651 | After any run a device has a live row if and only if it was named and no later call reused its name; the row has the virtual name and the size of its last mention, and the other columns too if that gave them |
| `BlockDevices.EarlierSourceStays` | files/example/files/openstack/diablo/nova/sqlalchemy-api.py:2624-2651 | Where the last mention does not give the other columns, they are those of the last earlier one that did, if the device has kept its row since |
| `BlockDevices.OtherwiseBlank` | files/example/files/openstack/diablo/nova/sqlalchemy-api.py:2624-2651 | And they are empty if it has lost its row since each of those, or there was none |
| `BlockDevices.CreationAgreesWithLastMention` | files/example/files/openstack/diablo/nova/compute-api.py:412-419 | The same after the three passes of instance creation: image, image block mappings, command line |
| `BlockDevices.Database.UpdateOrCreate` | files/example/files/openstack/diablo/nova/sqlalchemy-api.py:2624-2651 | One call, eviction of the reused name included, is the upsert that `UpsertSeen` and `UpsertKeepsUnique` characterise |
| `BlockDevices.Database.UpdateImageBlockDeviceMapping` | files/example/files/openstack/diablo/nova/compute-api.py:311-340 | The pass is a run of upserts in order, what each mapping gives being what `OneImageMapping` says |
| `BlockDevices.Database.UpdateBlockDeviceMapping` | files/example/files/openstack/diablo/nova/compute-api.py:342-377 | The pass is a run of upserts in order, what each mapping gives being what `OneMapping` says |
| `BlockDevices.Database.CreateMappings` | files/example/files/openstack/diablo/nova/compute-api.py:412-419 | The three passes are the run of upserts that `CreationAgreesWithLastMention` is about |
| `BlockDeviceCreation.SeenIff` | files/example/files/openstack/diablo/nova/sqlalchemy-api.py:2627-2632 | What a reader sees for a device is its live row |
| `BlockDeviceCreation.UniqueMeans` | files/example/files/openstack/diablo/nova/sqlalchemy-api.py:2640-2651 | Two live rows of an instance with the same device, with swap, or with the same ephemeral disk are one |
| `BlockDeviceCreation.OneImageMapping` | files/example/files/openstack/diablo/nova/compute-api.py:290-340 | What a mapping of the image writes: swap with the size of the type, the first ephemeral disk with the local size, and nothing for sizes of zero, later disks and other names |
| `BlockDeviceCreation.OneMapping` | files/example/files/openstack/diablo/nova/compute-api.py:290-377 | What a block mapping writes: its own columns, with the size of the type for swap and the first ephemeral disk; nothing for one without a size; only the flag for `NoDevice` |
| `BlockDeviceCreation.CommandLineRow` | files/example/files/openstack/diablo/nova/compute-api.py:342-419 | The row of a device after creation is that of its last mapping on the command line, column by column, whatever the image says, unless a later mapping takes its swap or ephemeral name |
| `BlockDeviceCreation.ImageBlockRow` | files/example/files/openstack/diablo/nova/compute-api.py:342-419 | Without one there, that of the last block mapping in the image |
| `BlockDeviceCreation.ImageRow` | files/example/files/openstack/diablo/nova/compute-api.py:311-419 | Without that either, that of the last mapping in the image, with the columns empty that this pass does not write |
| `BlockDeviceCreation.NoDeviceOverrides` | files/example/files/openstack/diablo/nova/compute-api.py:366-374 | `NoDevice` in the last mapping of its device on the command line leaves a row that says so and is empty otherwise, whatever the image says |
| `InstanceMetadata.ReadsFirstLive` | files/example/files/openstack/diablo/nova/sqlalchemy-api.py:3529-3583 | With one live row per key, reading all rows and looking one key up agree |
| `InstanceMetadata.ReadsExactly` | files/example/files/openstack/diablo/nova/sqlalchemy-api.py:3529-3543 | An instance has an item if and only if a live row of it says so |
| `InstanceMetadata.PutReads` | files/example/files/openstack/diablo/nova/sqlalchemy-api.py:3604-3617 | Writing a key writes that key of that instance's dictionary and no other, and keeps live rows unique |
| `InstanceMetadata.MarkReads` | files/example/files/openstack/diablo/nova/sqlalchemy-api.py:3594-3599 | Marking a live row as deleted removes that key of that instance's dictionary only |
| `InstanceMetadata.Compute.DbUpdate` | files/example/files/openstack/diablo/nova/sqlalchemy-api.py:3588-3619 | Afterwards the dictionary reads as given when `delete` is set, else as the old one overlaid; other instances read as before |
| `InstanceMetadata.Compute.DbDelete` | files/example/files/openstack/diablo/nova/sqlalchemy-api.py:3545-3553 | The key is gone from this dictionary, and nothing else |
| `InstanceMetadata.Compute.CheckQuota` | files/example/files/openstack/diablo/nova/compute-api.py:134-156 | Passes exactly if the number of items is within the limit and keys and values are within 255 characters |
| `InstanceMetadata.Compute.Create` | files/example/files/openstack/diablo/nova/sqlalchemy-api.py:1063-1091 | A new instance reads as its metadata; over quota nothing changes; every instance stays within quota |
| `InstanceMetadata.Compute.UpdateInstanceMetadata` | files/example/files/openstack/diablo/nova/compute-api.py:1441-1457 | The result and the dictionary afterwards, which failure is reported, no change on failure; every instance stays within quota |
| `InstanceMetadata.Compute.DeleteInstanceMetadata` | files/example/files/openstack/diablo/nova/compute-api.py:1437-1439 | The key goes; every instance stays within quota |
| `InstanceMetadata.Compute.Rebuild` | files/example/files/openstack/diablo/nova/compute-api.py:1063-1085 | Only an active instance within quota has its metadata replaced; every instance stays within quota |
| `AddressAllocation.AssignKeepsTrace` | files/example/files/openstack/diablo/nova/sqlalchemy-api.py:698-709 | Assigning an unheld live row keeps that between two assignments of a row there is a freeing step |
| `AddressAllocation.FreeKeepsTrace` | files/example/files/openstack/diablo/nova/sqlalchemy-api.py:753-760 | So does freeing one |
| `AddressAllocation.FreesTimedOut` | files/example/files/openstack/diablo/nova/sqlalchemy-api.py:764-778 | The steps that a time-out logs free each row of the networks that is held, not confirmed and older than the time once, and no other row |
| `AddressAllocation.AddressTrace` | files/example/files/openstack/diablo/nova/sqlalchemy-api.py:676-778 | Where no two live rows have the same address, there is a freeing step between two assignments of one address |
| `AddressRuns.RunsFreeAddressesIff` | files/example/files/openstack/diablo/nova/sqlalchemy-api.py:676-778 | Some run of calls on a table of networked, unheld rows assigns an address twice without freeing it if and only if there is an instance and two live rows of the address differ in network or reserved flag, or the later one is neither reserved nor bound to a host |
| `AddressRuns.NoClashFreed` | files/example/files/openstack/diablo/nova/sqlalchemy-api.py:676-778 | Otherwise every run frees an address before it is assigned again |
| `AddressRuns.PoolReaches` | files/example/files/openstack/diablo/nova/sqlalchemy-api.py:713-741 | Call after call, the pool works its way up to any available row |
| `AddressRuns.PoolAssignsTwice` | files/example/files/openstack/diablo/nova/sqlalchemy-api.py:713-741 | Two pool rows of one address and two calls to the pool that assign it twice |
| `AddressRuns.DistinctAddressesFreed` | files/example/files/openstack/diablo/nova/sqlalchemy-api.py:676-778 | Where live addresses are distinct, every run frees an address before it is assigned again, whatever networks the rows have |
| `AddressRuns.RanKeepsTrace` | files/example/files/openstack/diablo/nova/sqlalchemy-api.py:676-778 | Every run keeps that between two assignments of a row there is a freeing step |
| `AddressAllocation.FixedIps.Associate` | files/example/files/openstack/diablo/nova/sqlalchemy-api.py:676-709 | The first live row with the address and reserved flag, of the network or of none, is taken and joins the network, or which failure is raised; a held address is refused; no effect on failure; the trace property is kept |
| `AddressAllocation.FixedIps.AssociatePool` | files/example/files/openstack/diablo/nova/sqlalchemy-api.py:713-741 | Never a reserved, deleted or held address, and exhausted exactly if there is no other; the trace property is kept |
| `AddressAllocation.FixedIps.Disassociate` | files/example/files/openstack/diablo/nova/sqlalchemy-api.py:753-760 | The first live row of the address is freed, or none is found |
| `AddressAllocation.FixedIps.DisassociateAllByTimeout` | files/example/files/openstack/diablo/nova/sqlalchemy-api.py:764-778 | Exactly the rows of the host's networks that are held, not confirmed and older than the time lose their instance and lease, and are counted |
| `AddressAllocation.ServeKeepsHosts` | files/example/files/openstack/diablo/nova/sqlalchemy-api.py:1984-2001 | Telling a caller the host keeps that all callers since the last disassociation learned the same one |
| `AddressAllocation.GiveUpKeepsHosts` | files/example/files/openstack/diablo/nova/sqlalchemy-api.py:1799-1801 | So does a disassociation |
| `AddressAllocation.Networks.Associate` | files/example/files/openstack/diablo/nova/sqlalchemy-api.py:1693-1736 | The project's network, else, or with `force` at once, the first free one, else none; a project gets a second live network exactly if `force` is set, it has one and another is free |
| `AddressAllocation.Networks.GetNetworks` | files/example/files/openstack/diablo/nova/sqlalchemy-api.py:3162-3175 | All live networks of the project, after associating one if there was none and it was asked for, or the exception when none is left; no project gets two |
| `AddressAllocation.Networks.Disassociate` | files/example/files/openstack/diablo/nova/sqlalchemy-api.py:1799-1801 | Project and host of that network are cleared |
| `AddressAllocation.Networks.SetHost` | files/example/files/openstack/diablo/nova/sqlalchemy-api.py:1984-2001 | The first host stays and every caller learns it until a disassociation |
| `NagiosPurge.FilterServices` | files/example/files/nagios/purge-nagios-resources.py:25-49 | The streaming loop writes the text that `EveryLineInPlace` and `LosesLinesIff` describe, and fails exactly if a `host_name` line in a definition has no value |
| `NagiosPurge.InDefinitionStep` | files/example/files/nagios/purge-nagios-resources.py:33-39 | The flag is true exactly inside an opened and not yet closed definition |
| `NagiosPurge.LineIs` | files/example/files/nagios/purge-nagios-resources.py:31-47 | Blanks around it aside, a line opens a definition if it starts with `define ` and more, closes one if it starts with `}`, and names a host if it starts with `host_name` |
| `NagiosPurge.SecondWordIs` | files/example/files/nagios/purge-nagios-resources.py:46-47 | The host is the second word of the line, whatever follows |
| `NagiosPurge.NoSecondWord` | files/example/files/nagios/purge-nagios-resources.py:46-47 | A line of one word has none |
| `NagiosPurge.HostMissingIff` | files/example/files/nagios/purge-nagios-resources.py:46-47 | A host is missing if and only if the word behind `host_name` is none of the hosts |
| `NagiosPurge.EveryLineInPlace` | files/example/files/nagios/purge-nagios-resources.py:25-49 | With all definitions closed, every line is in its place, with `#` in front if and only if it lies in a definition whose last host is missing |
| `NagiosPurge.ServiceFiltered` | files/example/files/nagios/purge-nagios-resources.py:25-49 | A definition of three lines, for any host: as it was if the host exists, and commented out line by line if not |
| `NagiosPurge.LosesLinesIff` | files/example/files/nagios/purge-nagios-resources.py:36-49 | No line is lost if and only if every definition is closed |
| `NagiosPurge.UnclosedLoses` | files/example/files/nagios/purge-nagios-resources.py:36-49 | An unclosed definition loses lines |
| `NagiosPurge.UnclosedIsDropped` | files/example/files/nagios/purge-nagios-resources.py:36-49 | A file of one unclosed definition comes out empty |
| `NagiosPurge.SecondRunChangesNothing` | files/example/files/nagios/purge-nagios-resources.py:25-49 | Whether or not the last definition was closed, a second run with the same hosts does not fail where the first did not, and changes nothing |
| `SwiftRewrite.HandleRequest` | files/example/files/swift/SwiftMedia/wmf/rewrite.py:171-291 | Collapsing, the successive match attempts and the container name amount to the route that the lemmas of this module characterise |
| `SwiftRewrite.UploadIs` | files/example/files/swift/SwiftMedia/wmf/rewrite.py:201-224 | A hash directory of one and one of two hexadecimal digits, with more behind them and perhaps `temp` or `archive` in front, make an upload, whose shard is the second of them |
| `SwiftRewrite.NoOtherUploads` | files/example/files/swift/SwiftMedia/wmf/rewrite.py:201-224 | Nothing else does |
| `SwiftRewrite.UploadTarget` | files/example/files/swift/SwiftMedia/wmf/rewrite.py:201-299 | An upload, from its path to its container and object: zoned or public, archived or not, with the shard behind the dot exactly where the container is sharded |
| `SwiftRewrite.ZonedUploadRouted` | files/example/files/swift/SwiftMedia/wmf/rewrite.py:201-224 | An upload path with a zone goes to that zone, with the hash directory as shard |
| `SwiftRewrite.PublicUploadRoutedIff` | files/example/files/swift/SwiftMedia/wmf/rewrite.py:196-224 | One without a zone goes to `public` if and only if the object does not start with `temp` |
| `SwiftRewrite.TimelineRouted` | files/example/files/swift/SwiftMedia/wmf/rewrite.py:226-236 | A timeline path is routed as one |
| `SwiftRewrite.MathRoutedIff` | files/example/files/swift/SwiftMedia/wmf/rewrite.py:238-248 | A math path is routed as one if and only if what follows cannot be the rest of an upload |
| `SwiftRewrite.ScoreRoutedIff` | files/example/files/swift/SwiftMedia/wmf/rewrite.py:250-261 | A score path is routed as one if and only if what follows its first directory is not an upload, with or without a zone, and not a timeline |
| `SwiftRewrite.SomePathsAreMistaken` | files/example/files/swift/SwiftMedia/wmf/rewrite.py:214-261 | A math path, two score paths and an object under `temp` that are taken for something else |
| `SwiftRewrite.RoutedPath` | files/example/files/swift/SwiftMedia/wmf/rewrite.py:283-299 | The path text of a match is routed to `proj-lang-repo-zone`, with `.shard` behind it exactly where that container is sharded, and to the object below it |
| `SwiftRewrite.ContainerTellsAll` | files/example/files/swift/SwiftMedia/wmf/rewrite.py:285-291 | The container name tells the joined name of the wiki, the repository and the zone, under any sharding setting |
| `SwiftRewrite.SameTargetIff` | files/example/files/swift/SwiftMedia/wmf/rewrite.py:214-299 | Two paths are routed to the same container and object if and only if they agree in those three and the object, across all four families and under any sharding setting |
| `SwiftRewrite.RouteIsInjective` | files/example/files/swift/SwiftMedia/wmf/rewrite.py:214-299 | A path whose wiki has no dash behind the first character of the project or before the last one of the language shares its target with no other path |
| `SwiftRewrite.DashesCollide` | files/example/files/swift/SwiftMedia/wmf/rewrite.py:285-286 | A dash between two parts of a wiki's name may belong to either: every upload or timeline of the one wiki collides with that of the other |
| `SwiftRewrite.SharedTargetIff` | files/example/files/swift/SwiftMedia/wmf/rewrite.py:214-299 | Another path has the same target if and only if the path is an upload or a timeline of a wiki with such a dash; the same among collapsed paths |
| `SwiftRewrite.CollapseLeavesSingles` | files/example/files/swift/SwiftMedia/wmf/rewrite.py:170-171 | After collapsing no two slashes are adjacent, and a path without such is unchanged |
| `SwiftRewrite.DoubleIsSingle` | files/example/files/swift/SwiftMedia/wmf/rewrite.py:170-171 | Two adjacent slashes count as one, wherever they are |
| `Shuffle.ShuffleInPlace` | files/example/modules/stdlib/lib/puppet/parser/functions/shuffle.rb:26-38 | The swaps in place produce the list that `ShuffleIsBijection` is about |
| `Shuffle.ShuffledIsSwaps` | files/example/modules/stdlib/lib/puppet/parser/functions/shuffle.rb:34-38 | The list it produces is that of swapping the element at each position in turn with the one as many places on as was chosen |
| `Shuffle.ShuffledIsPermutation` | files/example/modules/stdlib/lib/puppet/parser/functions/shuffle.rb:34-38 | Every result is a rearrangement, repeated elements or not |
| `Shuffle.EveryPermutationReached` | files/example/modules/stdlib/lib/puppet/parser/functions/shuffle.rb:34-38 | Every rearrangement is the result of some choices |
| `Shuffle.ReachedOnce` | files/example/modules/stdlib/lib/puppet/parser/functions/shuffle.rb:34-38 | With distinct elements the choices can be read back from the result |
| `Shuffle.ShuffleIsBijection` | files/example/modules/stdlib/lib/puppet/parser/functions/shuffle.rb:32-38 | With distinct elements, choice vectors and rearrangements correspond one to one |

## Left out

Firewall resources (`iptables.rb`):

- Scanning of rule text, name look-ups and option formatting: rules are opaque values with a chain, and the printed form of a rule equals its declared form.
- Comments in the pre and post files, and what the rule lists hold after a failure. The result of the sort is a parameter, any list with the same resources in the order of their keys.
- What the persist command writes, the debug messages, and the counting of resources that triggers `finalize`.
- Rules that fail to apply for another reason than a missing chain, and other programs that change the kernel meanwhile.
- The identical copy of the type under `modules/users`.

Nova's firewall (`linux_net.py`):

- Packet counters in the chain lines of real save text, and `apply` with its locks and commands.
- The choice of protocols and tables at start-up; each table is set up by itself.
- Two chain sets enumerated in another order by a later application: the order is fixed per table view.
- `IptablesTable.Table.ForwardAndBack`: for addresses that contain a `$`, only which rules are left, not whether they are those of before.

HTCP statistics:

- Sockets, unpacking, the lock, printing, and wrap-around of 32-bit transaction ids, for which the code has no handling.
- Keyword arguments of `Counter.update`, `most_common`, copying and printing of counters.

Nova's database (`sqlalchemy-api.py`, `compute-api.py`):

- Sessions, locking and concurrent transactions: each database function is one step. Relationships (`instance`, `network`) are read as their id columns, and empty or zero ids as none.
- Authorization of callers other than the project and user constraint of the search.
- `InstanceSearch.InstanceGetAllByFilters`: rows of the same creation time come in table order, which a database does not promise; a `changes-since` value that is neither a time nor null raises; values of an unsuitable kind for a text column match nothing, except dictionaries, which raise.
- The quota look-up outside these files, taken as the smaller of request and limit; the other quotas of creation and rebuild; the vm states other than whether an instance is active.
- Deletion time stamps of rows.
- `AddressRuns.RunsFreeAddressesIff`: no rows are created during the run, every live row has a network, and none is held at its start; for rows without a network only `DistinctAddressesFreed` is stated.
- Block devices: the helper module for device names is not part of this model. Virtual names are a datatype, the `/dev/` prefix has been added, and device names are not null.
- The other accessors of `sqlalchemy-api.py` and the remote calls of `compute-api.py`.

Other:

- `SwiftRewrite.HandleRequest`: paths are without line breaks, objects are not percent-decoded, and the monitoring branch, the 404 handler and the forwarded request are not modelled.
- Reading the hosts file of the Nagios script, and replacing the resource file.
- Copying of the shuffled value and the conversion of strings to arrays and back.
- The other stdlib functions, facts, metric pollers, log tailers, web interfaces and manifests of the repository.
