# Citadel: a verified model of the decision core

Citadel is a DNS filtering proxy. For every query it decides whether to forward or to block, and forwards through
a list of upstream servers. This project models that core and proves what it promises.

| files | part of the system |
|---|---|
| `Text`, `Durations`, `Config` | string helpers, time units, the configuration the rules engine reads |
| `Wildcard` | the dynamic-programming matcher, and what a pattern means |
| `Precedence`, `RulesEngine`, `RuleLaws`, `Specificity` | specificity order, in-place stable sort, rule evaluation, the decision and its trace, what is picked level by level |
| `Windows`, `TimeSpan`, `SpanFormat`, `Validation` | minutes and cyclic weekdays, both time-span parsers, the documented formats read back, the configuration validator |
| `Devices`, `Collapse`, `Discovery`, `MergeOrder` | the device name cache, folding discovered records, merging them into the store, and when map iteration order shows |
| `Accounting`, `Ledger` | the session and budget state machine, and what whole runs of requests leave in the books |
| `Policy`, `Proxy` | per-user domain rules and windows, and the handler that composes everything |
| `Breaker`, `Cache`, `CacheKeys`, `Upstream`, `Forwarding`, `TwoCalls` | failover, circuit breaker, response cache, rewriting of messages, and what one call means for the next |

Components whose methods update fields are classes with those fields (`Accounting.Manager`, `Devices.DeviceCache`,
`Discovery.DeviceStore`, `Cache.ResponseCache`, `Cache.Msg`, `Upstream.UpstreamResolver`, `Proxy.Handler`). Loops stay
loops, the lookup table and the sorted list stay arrays. Each such method is proved against a function or a history,
and the promises are proved about that function or over every run.

## How the model reads the code

- Instants and durations are nanoseconds. The clock is a parameter; one query is handled at one instant. Over a run the
  clock never goes back, and a calendar day never returns once it is over.
- The time-zone database and the wall clock in a zone are functions (`TimeSpan.Calendar`) shared by all components.
  Clock times reduce to minutes of the day. A day is whatever the budget time zone says (`dayOf`).
- The network is a function from the number of the contact within one call to an answer or a fault.
- Text is ASCII. MAC and IP addresses are their texts; an address that is present is not blank. Name-cache results are
  stated for lower-case address texts, which is what Go prints.
- Settings the validator keeps non-negative are `nat`. `int64(d.Seconds())` is truncation to whole seconds, which is what the
  floating-point computation gives for spans within a day.
- An upstream that never failed has no last failure; the Go zero time is older than every configured window.
- A matching pattern is kept with its place in the list instead of a pointer to its entry.
- Go's stable sort is modelled by the insertion sort it runs on short blocks. `Precedence.StableSortIsUnique` shows that
  only one list has the same candidates in order, so the choice of stable algorithm does not matter.
- A device may name an owner who does not exist. Policy compilation then puts a blank user on record for that owner: no
  id, no budget. The handler model includes this user; all such owners share its one account.
- The accounting decision is read after the store mutation, which is what callers rely on: Go leaves the order open.
- The methods of `TwoCalls` have no counterpart in the code: they make two calls in a row, so that their contracts can say
  what the first one means for the second.
- The ghost fields `history`, `log`, `histories`, `queries` record what happened. Methods prove that the real fields
  summarise them.

## Where code and documentation differ

The model follows the code.

- The documentation says the default rule is returned only if nothing matches. It is also returned when a host matches,
  none of its rules acts, and no domain entry and inner host match. And when a domain entry and inner host do match but
  all of that host's rules are inactive, no action is returned instead of the default rule (`RuleLaws.DecisionMeaning`,
  and for instance `RuleLaws.OutsideHoursHidesDefault`).
- Windows across midnight are documented as supported, with weekdays. The hours after midnight are tested against their
  own weekday: nights that begin on listed days run on only if no weekday or every weekday is listed
  (`TimeSpan.NightsRunOnIff`).
- On an error the trace still names the default rule as the final action although the error rule is returned
  (`RulesEngine.Engine.Explain`).
- The validator lets three kinds of unreadable rule through: a time-span action without a span, a blank span, and
  weekday names that are none (`Validation.ValidatedRuleFailsIff`).
- The policy is said to use the same syntax as the rules engine. The two parsers differ on weekday ranges with blanks
  around a name, on the names "tues" and "thurs", and on zones that do not load, and on nothing else
  (`TimeSpan.ParsersDifferOnlyOn`).
- Usage is not active time. Time within a session is charged gap by gap, and the whole session again once it is closed
  by idleness (`Ledger.ExactLedger`). Blocked requests do not advance the session: each charges the time since the last
  served request again, until one comes after the idle timeout; that one charges the whole session, and later ones
  charge nothing (`Ledger.BlockedRequestsChargeAgain`).
- An exact domain rule of a user does not always win: it is found exactly when every other matching rule gives way in
  length and wildcards, and a star in front of the name does not (`Policy.LiteralFoundIff`,
  `Policy.StarredNameBeatsLiteral`).
- The result of a merge can depend on map iteration order, exactly when some device is not determined in the sense of
  `MergeOrder.MergesAgreeIff`: its own record and the one with its MAC are not compatible, or a MAC of the batch is
  shared by several devices and brings something new to one of them. A static device that was given a MAC is enough
  (`MergeOrder.StaticRecordWitness`).

## Model

| member | source | states |
|---|---|---|
| Wildcard.WildcardPatternMatch | internal/utils/utils.go:30-80 | filling the lookup table decides exactly whether the string splits into one segment per pattern character, `*` taking any, `?` one character, a literal itself |
| Wildcard.AcceptsIffMatches | internal/utils/utils.go:53-77 | the recurrence of the table holds for a string and a pattern iff such a split exists |
| Wildcard.MatchesConcatenation | internal/utils/utils.go:30-80 | a string matches the concatenation of two patterns iff some split of it matches them in turn |
| Wildcard.AcceptsItself | internal/utils/utils.go:53-77 | any text matches itself, wildcards included |
| Wildcard.LiteralMatchesOnlyItself | internal/utils/utils.go:53-77 | a pattern without wildcards matches one string only |
| Wildcard.NonStarsFit | internal/utils/utils.go:53-77 | a matching pattern has no more non-star characters than the string; without stars the lengths are equal |
| Precedence.DomainComparatorIsBefore | internal/rules/rulesengine.go:287-299 | the comparator of domains, built from two calls and a text comparison, is the four-level comparator of hosts |
| Precedence.BeforeIsStrictWeakOrder | internal/rules/rulesengine.go:263-274 | the comparator is a strict weak order in which only equal pattern texts tie |
| Precedence.MoveLeft | internal/rules/rulesengine.go:222-238 | swapping an element left while it comes strictly before its neighbour inserts it into the sorted part, the rest unchanged |
| Precedence.SliceStable | internal/rules/rulesengine.go:222-238 | the in-place stable sort leaves the stable sorting of what was there |
| Precedence.StableSortedMeaning | internal/rules/rulesengine.go:222-240 | the sorted list has the same candidates, in order, ties in list order, and its head is the best candidate of a one-pass search |
| Precedence.StableSortIsUnique | internal/rules/rulesengine.go:222-240 | only one list has the same candidates in order, ties in list order: whatever stable algorithm sorts, the result is this one |
| Precedence.BestIndexMeaning | internal/rules/rulesengine.go:210-241 | an entry is picked iff it matches and is ahead of every other match; none is picked iff nothing matches |
| Precedence.PickIgnoresOrder | internal/rules/rulesengine.go:210-241 | the pattern picked depends on which entries match, not on their order |
| RulesEngine.Engine.EvaluateRule | internal/rules/rulesengine.go:333-368 | the action of one rule at one moment, its errors, and whether its span covers the moment |
| RuleLaws.RuleActsInItsHours | internal/rules/rulesengine.go:384-416 | a rule with hours in the documented formats acts exactly on its days, within its hours, by the wall clock in its zone, same-day and overnight |
| RuleLaws.RuleWithoutHours | internal/rules/rulesengine.go:333-368 | without hours a rule acts always, does nothing if its action is none or unknown, and fails if its action needs hours |
| RulesEngine.Engine.EvaluateRules | internal/rules/rulesengine.go:303-324 | the loop returns the first rule that acts or cannot be read, its index and its span, or nothing |
| RulesEngine.VerdictMeaning | internal/rules/rulesengine.go:24 | the verdict on a rule list is the only one whose earlier rules are all inactive |
| RulesEngine.MatchHost | internal/rules/rulesengine.go:182-200 | a host pattern is the address itself, or matches the device name; the address only when the name is unknown |
| RulesEngine.PickBestHost | internal/rules/rulesengine.go:210-241 | filtering, sorting and taking the head gives the best host |
| RulesEngine.PickBestDomain | internal/rules/rulesengine.go:276-301 | filtering, sorting and taking the head gives the best domain |
| RulesEngine.Engine.EvaluateDomains | internal/rules/rulesengine.go:139-164 | the second stage: best domain's best host, else the default rule, with a trace that explains it |
| RulesEngine.Engine.EvaluateInternal | internal/rules/rulesengine.go:102-165 | the decision of the two stages; the trace is kept when asked for and on errors, and names the deciding pattern, rule and span |
| RulesEngine.Engine.Evaluate | internal/rules/rulesengine.go:72-81 | the decision for a query |
| RulesEngine.Engine.Explain | internal/rules/rulesengine.go:84-86 | the same decision as Evaluate, a true trace, and exactly when the trace's final action is not the action returned |
| RuleLaws.BestHostMeaning | internal/rules/rulesengine.go:18-23 | a host is picked iff one matches, and every other match is less specific, or has the same text and comes later |
| RuleLaws.BestDomainMeaning | internal/rules/rulesengine.go:276-301 | the same for domains under the declarative meaning of patterns |
| Specificity.PickedDomainLevels | internal/rules/rulesengine.go:263-301 | the picked domain against every other match, level by level: the query itself, else fewer wildcards, then longer, then alphabetically first |
| Specificity.PickedDomainIsFirst | internal/rules/rulesengine.go:276-301 | of several entries with the picked name the first is picked |
| Specificity.PickedHostLevels | internal/rules/rulesengine.go:182-241 | the picked host against every other match, where a match is the address itself or the device's name, and only a plain address is exact |
| Specificity.PickedHostIsFirst | internal/rules/rulesengine.go:210-241 | of several entries with the picked name the first is picked |
| Specificity.NothingPicked | internal/rules/rulesengine.go:210-301 | no host or domain is picked exactly when none matches |
| Specificity.LongerDomainWins | internal/rules/rulesengine.go:263-274 | of two matching patterns with equally many wildcards the longer is picked, in either order |
| Specificity.LongerHostWins | internal/rules/rulesengine.go:228-239 | the same for hosts |
| Specificity.FewerWildcardsWin | internal/rules/rulesengine.go:263-274 | of two matching patterns the one with fewer wildcards is picked, in either order |
| Text.LexLessMeaning | internal/rules/rulesengine.go:239 | alphabetical order: at the first difference the smaller character, or the end, comes first |
| RuleLaws.DecisionMeaning | internal/rules/rulesengine.go:102-165 | for every action: it is decided without error iff the best host's first acting rule says so, or hosts give way and the inner host of the best domain says so, stays silent with no action, or is missing and the default applies |
| RuleLaws.InactiveDomainHidesDefault | internal/rules/rulesengine.go:150-159 | with one domain entry for the query and one host entry for the client, inactive rules yield no action whatever the default rule is |
| RuleLaws.OutsideHoursHidesDefault | internal/rules/rulesengine.go:150-159 | for instance a site blocked by the hour, at any moment outside those hours |
| RuleLaws.FailsIff | internal/rules/rulesengine.go:119-160 | an evaluation fails iff it reaches a rule that cannot be read, and then returns the error rule |
| RuleLaws.ExactDomainWins | internal/rules/rulesengine.go:276-301 | a domain entry equal to the query is chosen whatever else is configured |
| RuleLaws.ExactHostWins | internal/rules/rulesengine.go:210-241 | a host entry equal to the client address is chosen whatever else is configured |
| RuleLaws.DeviceNameWins | internal/rules/rulesengine.go:182-241 | without an entry for the address, the entry equal to the device name is chosen |
| RuleLaws.LiteralDomainIsExact | internal/rules/rulesengine.go:276-301 | a chosen domain entry without wildcards is the query itself |
| RuleLaws.HostOrderIsIrrelevant | internal/rules/rulesengine.go:210-241 | reordering the hosts never changes the name picked, nor the entry when names are distinct |
| RuleLaws.DomainOrderIsIrrelevant | internal/rules/rulesengine.go:276-301 | reordering the domains never changes the name picked, nor the entry when names are distinct |
| RuleLaws.DecisionIgnoresOrder | internal/rules/rulesengine.go:102-165 | with distinct names the whole decision does not depend on the order of hosts and domains |
| Windows.WindowLength | internal/policy/timewindow.go:22-35 | a same-day window is open end - start minutes, an overnight one 1440 - start + end + 1 |
| Windows.WindowAndReverse | internal/rules/rulesengine.go:397-415 | the windows s-e and e-s cover the day and meet at minute s only |
| Windows.MarkDays | internal/rules/rulesengine.go:513-518 | the weekday loop ends after ((end - start) mod 7) + 1 steps and adds exactly the cyclic interval |
| Windows.CyclicDaysRun | internal/policy/timewindow.go:122-127 | the interval has ((end - start) mod 7) + 1 days, runs day by day from one end to the other, and leaves out exactly the days strictly between its end and its start |
| TimeSpan.ParseWeekdays | internal/rules/rulesengine.go:488-528 | the loop yields the union of the days of all items, or fails iff one cannot be read |
| TimeSpan.ParseTimeSpan | internal/rules/rulesengine.go:431-486 | what the rules engine reads from a definition, or that it refuses it |
| TimeSpan.ParsePolicyTimeSpan | internal/policy/timewindow.go:46-95 | what the policy reads from a definition, or that it refuses it |
| TimeSpan.ParsersAgree | internal/policy/timewindow.go:11-95 | a definition both parsers accept gives the same start, end, weekdays and zone, and the same verdict at every instant |
| TimeSpan.ParsersDifferOnlyOn | internal/policy/timewindow.go:11-95 | what the rules engine accepts the policy refuses exactly over a padded weekday range; what the policy accepts the rules engine refuses exactly over "tues", "thurs" or a zone that does not load |
| TimeSpan.DayReadersAgree | internal/policy/timewindow.go:139-157 | a weekday name both readers know is the same day to both |
| TimeSpan.DayReadersDiffer | internal/rules/rulesengine.go:530-549 | on single names the readers differ exactly on blanks around a name and on two long names |
| SpanFormat.RulesDayMeaning | internal/rules/rulesengine.go:530-549 | the rules engine reads a day exactly from its short or full name, in any letter case, trimmed |
| SpanFormat.PolicyDayMeaning | internal/policy/timewindow.go:139-157 | the policy reads a day exactly from its short or full name in any letter case, or "tues" or "thurs" |
| TimeSpan.LastZoneCounts | internal/rules/rulesengine.go:460-474 | of several zones the last counts; for the policy the last that loads |
| TimeSpan.NightsRunOnIff | internal/rules/rulesengine.go:397-415 | an overnight window covers the nights that begin on its listed days, past midnight and at every moment, exactly when it lists no weekday or all of them |
| SpanFormat.ClockMeaning | internal/rules/rulesengine.go:452-459 | a text is read as a clock time iff it is that time written HH:MM or H:MM |
| SpanFormat.FormattedSpanIsRead | readme.md:41 | round trip: definitions in the documented formats, with any list of weekdays and ranges, any ends and any zone that loads, are read back by both parsers as what was written |
| SpanFormat.PolicyHours | internal/policy/timewindow.go:11-36 | a definition in the documented formats holds for the policy exactly on its days, within its hours, by the wall clock in its zone |
| SpanFormat.WeekdaysMeaning | internal/policy/timewindow.go:97-137 | the days of a list: those an item names, or a range passes from its first to its last, modulo the week |
| SpanFormat.PaddedRangeDivides | internal/policy/timewindow.go:97-137 | "mon - fri" with any range is accepted by the rules engine and refused by the policy |
| SpanFormat.LongNameDivides | internal/rules/rulesengine.go:530-549 | "tues" and "thurs" with any range are accepted by the policy and refused by the rules engine |
| SpanFormat.UnknownZoneDivides | internal/policy/timewindow.go:73-83 | a zone that does not load is refused by the rules engine and passed over by the policy, whatever days and range |
| Validation.ValidatedSpanIsRead | internal/config/validate.go:244-296 | a validated definition is read at run time iff its weekday names are, and with the same, unequal start and end |
| Validation.FormattedSpanValidates | internal/config/validate.go:244-296 | a definition in the documented formats validates iff its two ends differ |
| Validation.FormattedRuleValidates | internal/config/validate.go:158-168 | a rule with such a definition validates iff its action is known and the ends differ |
| Validation.OptionValidates | internal/config/validate.go:278-294 | with one option more, a definition validates iff its ends differ and the option is blank or names a zone that loads |
| Validation.BlankSpanIsNotRead | internal/config/validate.go:158-168 | a blank span, which the validator skips, cannot be read at run time |
| Validation.ValidatedRuleFailsIff | internal/config/validate.go:158-168 | a validated rule fails at run time in exactly three cases |
| Validation.UnreadSpansValidate | internal/config/validate.go:158-168 | two rules that validate and fail: a time-span action without a span, and a blank span |
| Validation.AnyWeekdayTextValidates | internal/config/validate.go:244-296 | any text that is no weekday name validates in place of one and fails |
| Validation.CleanRulesNeverFail | internal/rules/rulesengine.go:303-324 | a rule list without those cases is evaluated without error |
| Validation.CleanConfigNeverFails | internal/rules/rulesengine.go:72-165 | a validated configuration without those cases never makes an evaluation fail |
| Devices.DeviceCache.Upsert | internal/device/devicecache.go:173-200 | the two tables stay the replay of all upserts |
| Devices.DeviceCache.IPToName | internal/device/devicecache.go:107-121 | the name the tables give an address |
| Devices.LastUpsertNamesTheAddress | internal/device/devicecache.go:107-200 | an address resolves iff an upsert carried it, to the name the last of those got, never a blank one |
| Devices.NameForMeaning | internal/device/devicecache.go:179-195 | the name a record gets: its own, else the one known for its MAC or address, else its hostname, else that MAC or address |
| Devices.NormalizeMACMeaning | internal/device/discovery/manager.go:244-247 | MACs are compared with colons for dashes and in lower case |
| Devices.FriendlyNamesStay | internal/device/devicecache.go:184-188 | a friendly name is only replaced by a record that brings one |
| Collapse.Collapse | internal/device/discovery/manager.go:175-216 | the loop folds the records of all sources into one per key, and the keys are those of usable records |
| Collapse.MergeSecondary | internal/device/discovery/manager.go:200-212 | a secondary record fills in the address and moves the time forward; the branches for name and hostname never act |
| Collapse.CollapseMeaning | internal/device/discovery/manager.go:175-216 | the result under a key is the first record of highest priority, with the first address and the latest time from it on; it exists iff a usable record has that key |
| Collapse.CollapsedIsNamed | internal/device/discovery/manager.go:190-195 | a collapsed device always has a name and a hostname |
| Collapse.CollapsedNames | internal/device/discovery/manager.go:189-232 | name and hostname of a collapsed device: those of its base, else the hostname, the MAC, the address |
| Collapse.CollapsedTime | internal/device/discovery/manager.go:181-212 | its time is that of a record from the base on, none of those is later, and an undated one counts as seen now |
| Collapse.CollapsedKeepsItsKey | internal/device/discovery/manager.go:234-242 | a collapsed device with a MAC stays under that MAC |
| Collapse.CollapsedSource | internal/device/discovery/manager.go:249-260 | a collapsed device comes from the router if any of its records does, else from the static configuration, else from ARP |
| Collapse.KeysIdentify | internal/device/discovery/manager.go:234-242 | usable records are folded together iff their MACs agree up to case and separators, or both lack one and the addresses agree |
| Collapse.CollapseIgnoresClock | internal/device/discovery/manager.go:181-183 | without undated records the result does not depend on the clock |
| Discovery.DeviceStore.IndexByMAC | internal/device/discovery/manager.go:121-127 | in whatever order the map is walked, the index names for each stored MAC a device that has it |
| Discovery.DeviceStore.Apply | internal/device/discovery/manager.go:128-166 | one record updates one device, field by field |
| Discovery.DeviceStore.Merge | internal/device/discovery/manager.go:114-173 | a merge applies the collapsed records one by one in some order, each once, and tells the name cache about each |
| Discovery.MergeKeepsDevices | internal/device/discovery/manager.go:128-166 | in any order no device disappears and each keeps its owner, creation time, name and user-managed source; last-seen never goes back |
| Discovery.MACsStayUnique | internal/device/discovery/manager.go:114-172 | if no two devices had the same normalised MAC, none do afterwards |
| Discovery.MACOrigin | internal/device/discovery/manager.go:154-158 | the MAC of a merged device is that of a record taken for it, or the stored one |
| Discovery.IndexIsUnique | internal/device/discovery/manager.go:121-127 | with unique MACs the index does not depend on the order of the walk |
| Discovery.OrderIsIrrelevant | internal/device/discovery/manager.go:128-171 | when records belong to distinct devices, the result does not depend on the order of the walk |
| Discovery.RecordsArrive | internal/device/discovery/manager.go:128-166 | when records belong to distinct devices, each replaces on its device exactly what it says, keeps the rest, sets up a new device, and moves its time to the later one; other devices stay as they were |
| Discovery.MergeIsDeterministic | internal/device/discovery/manager.go:114-173 | so a merge is deterministic in spite of both map walks |
| Discovery.IdsAreStable | internal/device/discovery/manager.go:129-132 | after a merge every record of the batch still belongs to the same device |
| Discovery.MergeAgainChangesNothing | internal/device/discovery/manager.go:114-172 | merging the same batch again changes nothing but the update time |
| Discovery.SameBatchAnyTime | internal/device/discovery/manager.go:114-116 | dated records collapse to the same batch at any time |
| Discovery.CollapseMakesBatch | internal/device/discovery/manager.go:175-216 | what collapsing yields is a batch as the merge results need it |
| Discovery.MergedAddressesResolve | internal/device/discovery/manager.go:168-170 | after a merge the name cache resolves every address of the batch, to the name of a record that carries it |
| MergeOrder.CompatibleIffCommute | internal/device/discovery/manager.go:133-166 | two records may be applied to a device in either order exactly when they agree field by field: name unless stored, address, MAC, hostname, vendor, and source unless exactly one is the user's |
| MergeOrder.AtMostTwo | internal/device/discovery/manager.go:129-132 | a record reaches a device exactly when it is under the device's own id and that is no MAC, or has its MAC and the index names the device |
| MergeOrder.OrdersAgreeIff | internal/device/discovery/manager.go:128-171 | for any index, all walks of the batch give the same store exactly when every two records of one device are compatible |
| MergeOrder.MergesAgreeIff | internal/device/discovery/manager.go:121-171 | for any store, shared MACs included: all merges give the same store exactly when at every device own record and MAC record are compatible, and a shared MAC brings nothing new |
| MergeOrder.UniqueMACsAgreeIff | internal/device/discovery/manager.go:121-171 | with unique MACs that is the case exactly when every two records of one device are compatible |
| MergeOrder.ClashingMACsDependOnOrder | internal/device/discovery/manager.go:154-158 | two records of one device that both carry a MAC make full walks of the batch differ |
| MergeOrder.SharedMACsDependOnWalk | internal/device/discovery/manager.go:121-127 | a MAC of the batch that two devices share makes merges differ, unless the device was updated at the same instant or has a record of its own |
| MergeOrder.StaticRecordClashes | internal/device/discovery/manager.go:128-171 | a device filed under its address that has a MAC, its static record and the record with that MAC, with different hostnames: merges differ |
| MergeOrder.StaticRecordWitness | internal/device/discovery/manager.go:128-171 | a store of one device and two records of which one has a MAC, with unique MACs, that give two different stores |
| Accounting.Manager.constructor | internal/accounting/accounting.go:37-53 | the idle timeout, ten minutes when not set, and empty tables |
| Accounting.Manager.ProcessRequest | internal/accounting/accounting.go:56-68 | one request moves its user's account one step, no other, and reports the step's verdict |
| Accounting.Manager.ApplyForDay | internal/accounting/accounting.go:70-123 | the field-by-field update is that step |
| Accounting.SecondsArePassed | internal/accounting/accounting.go:94-101 | the seconds of a span are those that have passed in full: it is less than one more, and no less |
| Ledger.ChargeAtMostTwice | internal/accounting/accounting.go:88-101 | a day is charged at most twice the time since its first request, and the open session only once |
| Ledger.WholeSecondCharge | internal/accounting/accounting.go:88-101 | with whole-second times the charge is exactly twice the closed sessions plus the open one |
| Ledger.ChargeKeepsToTheTime | internal/accounting/accounting.go:88-101 | the charge of a day never runs ahead of the time within sessions plus that of closed sessions, and falls behind by less than a second per request |
| Ledger.TwoRequestsOfADay | internal/accounting/accounting.go:88-110 | the second of two requests within the timeout is blocked iff the whole budget has passed between them |
| Ledger.RunReflectsLedger | internal/accounting/accounting.go:70-123 | after any run of requests of any users, every account is exactly the ledger of its user's last day, a function of that day's request times |
| Ledger.ExactLedger | internal/accounting/accounting.go:70-123 | of a user not stopped: usage is the floored gaps within sessions plus the floored spans of closed sessions, the session is the open one |
| Ledger.OneSessionUsage | internal/accounting/accounting.go:70-123 | after any run, a user served all day in one session has the time from first to last request on the books, to less than a second per request |
| Ledger.SecondsReachBudget | internal/accounting/accounting.go:104-110 | the stored seconds, blocked requests included, reach a positive budget exactly when the charge of the day's times does |
| Ledger.ReachableAccounts | internal/accounting/accounting.go:71-86 | usage and session are about the same day, and an active session starts, and was last seen, on that day and not after the clock |
| Ledger.BlockedIffOverBudget | internal/accounting/accounting.go:104-110 | a request of a run is blocked iff the budget is positive and the ledger of its user's day has reached it |
| Ledger.LockedOutForTheDay | internal/accounting/accounting.go:104-110 | once blocked by the budget, a user is blocked for the rest of the day |
| Ledger.BlockedRequestsChargeAgain | internal/accounting/accounting.go:104-110 | the exact account of a stopped user after any run: the day splits at the first request that finds the budget spent; usage is the charge up to it plus the floored times since the last served request while within the timeout, plus the session once if a request came later; the session stays that of the last served request |
| Ledger.WithinMeaning | internal/accounting/accounting.go:94-101 | the blocked requests charged one by one are exactly those within the idle timeout of the last served one |
| Policy.MatchDomainRule | internal/policy/evaluator.go:68-90 | the loop finds the matched rule |
| Policy.MatchedRuleIsEarliestBest | internal/policy/evaluator.go:68-90 | a rule is found iff one matches, and it is the earliest of the highest score |
| Policy.EarliestBestIsUnique | internal/policy/evaluator.go:68-90 | the earliest best rule is the one that is found |
| Policy.ScoreIsNotNegative | internal/policy/evaluator.go:75-86 | the score is twice the literals plus the wildcards, so it always beats the initial -1 |
| Policy.ScoreIsPoints | internal/policy/evaluator.go:81-83 | the score of a rule is two points for each literal character of its pattern and one for each wildcard |
| Policy.LiteralFoundIff | internal/policy/evaluator.go:68-90 | an exact rule of a list is the one returned exactly when every other matching rule is short or wild enough: twice its length less its wildcards is at most twice the name's length, and less if it comes earlier |
| Policy.LiteralAgainstPattern | internal/policy/evaluator.go:68-90 | so the first exact rule is returned when no matching pattern is longer than the name |
| Policy.StarredNameBeatsLiteral | internal/policy/evaluator.go:68-90 | of an exact rule and the same name with a star in front, in either order, the starred one is returned |
| Policy.InAllowWindow | internal/policy/evaluator.go:93-107 | a user without windows is allowed; else iff one window holds now |
| Breaker.FailRunMeaning | internal/proxy/upstream.go:167-187 | the counted run is the longest trailing run of failures with gaps below the window |
| Breaker.OpenIff | internal/proxy/upstream.go:176-187 | a breaker is open exactly when the last maxFails attempts all failed, each less than a window after the one before, and the last less than one ago |
| Breaker.ReopensAfterWindow | internal/proxy/upstream.go:176-187 | an upstream whose last attempt is a window ago is never skipped |
| Breaker.ContactsInOrder | internal/proxy/upstream.go:139-163 | contacts go round by round in list order |
| Breaker.FirstSuccessWins | internal/proxy/upstream.go:139-164 | the reply is that of the first contact to succeed; there is none iff every contact made failed |
| Breaker.NoContactIffAllOpen | internal/proxy/upstream.go:139-143 | a call contacts nobody iff every breaker is open |
| Breaker.SkippedIffOpen | internal/proxy/upstream.go:139-143 | until the call is answered, an upstream is skipped in a round exactly when its breaker is open, given its failures earlier in the call |
| Breaker.ContactsAreRecorded | internal/proxy/upstream.go:144-150 | each contact ends up in the history of its upstream, failures first and the answered one as a success; no other history changes |
| Breaker.ContactBound | internal/proxy/upstream.go:134-164 | one call contacts each upstream at most tries times, and at most maxFails times when a limit and a window are set |
| Breaker.TotalContactBound | internal/proxy/upstream.go:134-164 | one call makes at most tries times upstreams contacts |
| Breaker.FailoverKeepsLimit | internal/proxy/upstream.go:167-187 | no run of failures ever passes the limit |
| Cache.Msg.Copy | internal/proxy/upstream.go:48 | a copy has the same value and shares no object |
| Cache.Msg.MinTTL | internal/proxy/upstream.go:110-121 | the loop finds the smallest TTL |
| Cache.SmallestTTLIsLeast | internal/proxy/upstream.go:110-121 | it is a lower bound some record attains, and as a duration fits int64 for every uint32 |
| Cache.LastPutMeaning | internal/proxy/upstream.go:51-65 | the last put under a key is the latest since the last clear, and is missing only when a clear followed every one |
| Cache.ResponseCache.Get | internal/proxy/upstream.go:38-49 | a hit is a private copy of the last message put since the last clear, until it expires |
| Cache.ResponseCache.Put | internal/proxy/upstream.go:51-59 | a put extends the history and stores a copy that shares nothing with the message |
| Cache.ResponseCache.Clear | internal/proxy/upstream.go:61-65 | a clear extends the history and forgets everything |
| CacheKeys.CacheKeyInjective | internal/proxy/upstream.go:106-108 | two questions share a key iff name, letter case aside, and type are equal |
| Upstream.UpstreamResolver.constructor | internal/proxy/upstream.go:82-104 | a new resolver has no history |
| Upstream.UpstreamResolver.IsUnhealthy | internal/proxy/upstream.go:176-187 | the counters decide exactly whether the history's breaker is open |
| Upstream.UpstreamResolver.MarkFail | internal/proxy/upstream.go:167-170 | the counters summarise the history with the failure |
| Upstream.UpstreamResolver.MarkSuccess | internal/proxy/upstream.go:172-174 | the counters summarise the history with the success |
| Upstream.UpstreamResolver.TryUpstreams | internal/proxy/upstream.go:134-164 | the rounds make the contacts, the reply and the histories of the failover on histories |
| Upstream.UpstreamResolver.Keep | internal/proxy/upstream.go:151-159 | an answer is remembered for the override or its smallest TTL, when the cache is on and that is positive, and is itself unchanged |
| Upstream.UpstreamResolver.Exchange | internal/proxy/upstream.go:123-165 | a hit answers under the id of the request without contact or change; else the failover answers and its answer is remembered for its lifetime; no message given or returned is ever one the cache holds |
| TwoCalls.AskAgain | internal/proxy/upstream.go:123-165 | two calls for one question, letter case aside: an answer the first one fetched is given to the second under its own id, without contact or change, exactly up to the override or its smallest TTL; otherwise the second makes its own rounds, at least one |
| Upstream.UpstreamResolver.CacheNegative | internal/proxy/upstream.go:190-199 | a failure is remembered for the negative lifetime when the cache is on and that is positive |
| Upstream.UpstreamResolver.ClearCache | internal/proxy/upstream.go:201-203 | the cache forgets everything, its history says so |
| Upstream.UpstreamResolver.HitMeaning | internal/proxy/upstream.go:123-159 | a hit is the latest remembered answer to the same question since the last clear, within the override, its smallest TTL or the negative lifetime |
| Upstream.UpstreamResolver.LatestAnswerHits | internal/proxy/upstream.go:123-159 | the latest answer is a hit for exactly as long as its lifetime |
| Forwarding.UpperKeepsCacheKey | internal/proxy/proxy.go:467 | upper-casing the question does not change where it is cached |
| Forwarding.CachedInAnyCase | internal/proxy/proxy.go:467 | an answer is cached for a question in whatever letter case it is asked |
| Forwarding.LowerAnswers | internal/proxy/proxy.go:482-484 | the loop lower-cases the names of all records in place, even when records are shared |
| Forwarding.Forward | internal/proxy/proxy.go:469-486 | the client gets what the resolver answers, in lower case; a failure is remembered; the cache is not reached by the rewriting |
| Forwarding.DoDnsExchange | internal/proxy/proxy.go:465-487 | the client gets the reply in lower case; rewriting request and reply in place never reaches the cache, whose history gains only what the upstream sent, or the failure |
| Forwarding.RewrittenMeaning | internal/proxy/proxy.go:481-484 | a reply keeps everything but its names, of question and answers, which are in lower case |
| TwoCalls.FailAgain | internal/proxy/proxy.go:465-487 | two queries for one question of which the first failed: for the negative lifetime the second is told SERVFAIL under its own id without contact, afterwards the upstreams are asked again |
| Proxy.BudgetBlocksIff | internal/proxy/proxy.go:520-525 | over any run, a query that counts is stopped by the budget iff the ledger of its user's day has reached it |
| Proxy.ForwardedIff | internal/proxy/proxy.go:495-544 | a query of any run is forwarded iff the configuration lets it pass and a known user is in a window, within the ledger of the day and not ruled out |
| Proxy.ReasonMeaning | internal/proxy/proxy.go:507-542 | for every query of any run, exactly when it is stopped for its windows, the configuration, the budget or a domain rule |
| Proxy.ChargedOnArrival | internal/proxy/proxy.go:515-520 | a query is charged exactly when its user is known and in a window and the configuration lets it pass |
| Proxy.BudgetLockout | internal/proxy/proxy.go:502-538 | once the budget stopped a query of a user, every later one on that day is stopped, from any device and whatever rules allow |
| Proxy.BudgetStaysBroke | internal/proxy/proxy.go:515-520 | a later query of that user and day that counts is stopped by the budget again |
| Proxy.Handler.Charge | internal/proxy/proxy.go:515-520 | charging a request keeps the books of every user equal to those of the run |
| Proxy.Handler.Overrule | internal/proxy/proxy.go:506-536 | windows, budget and domain rules of a user, each overwriting the one before: which of them ends up as action and reason, and whether the request was charged |
| Proxy.Handler.Judge | internal/proxy/proxy.go:495-538 | configuration and policy together give the first cause in the order window, configuration, budget, domain rule; the reason is empty iff nothing blocks |
| Proxy.Handler.ConfigurationDecides | internal/proxy/proxy.go:497-542 | without a known user action and reason are the configuration's; with any, a blocking configuration is never forwarded |
| Proxy.Handler.KnownUserDecides | internal/proxy/proxy.go:509-538 | action and reason for a known user, case by case: windows, configuration, budget, block rule, allow rule |
| Proxy.Handler.InWindowsMeaning | internal/policy/evaluator.go:93-107 | a user is in a window iff none is set or the hours of one hold now in the local zone |
| Proxy.Handler.Handle | internal/proxy/proxy.go:490-546 | over any run of calls, the reason of each query is the one the run determines, and the books stay those of the run; the reason is empty iff the action is none of the three blocking ones; what the configuration blocks is never forwarded, and without a known user it alone decides |

## Left out

- Locks and concurrent access: steps are serial, as the store's and the caches' mutexes make them; `upstreams` has no lock in the code.
- Failing store updates and persistence, including the second granularity of stored times: an update is one successful step in memory.
- Sleeping between rounds, timeouts and the transport protocol of an exchange.
- int64 overflow of durations configured in seconds, which the validator does not bound; the TTL arithmetic is covered.
- Messages with several questions, and the parts of a message other than id, question, response code and answers.
- Reloading of the policy while queries run: `Proxy.Handler` keeps one compiled policy, whose owner table stands for the device lookup by address.
- Local names (`sys.Resolver().Resolve`) and the writing of block responses: the handler ends with the decision, `DoDnsExchange` starts after it.
- An absent accounting manager or an absent name cache in discovery: both are optional in the code, and without them their steps are skipped.
- Stripping the port from client addresses and the trailing dot from names: inputs are as they are after that.
- NameToIP, LoadStaticDevices, router refresh, ARP and other providers: a batch of records is an input.
- MAC and IP byte forms: records carry texts, and parsing and printing of addresses are not part of this model.
- Unicode, where byte length and character count differ.
- Precedence.SliceStable: models the insertion sort that `sort.SliceStable` runs on short blocks, not its merging of longer lists; by `StableSortedMeaning` any stable sort leaves the same list.
- Discovery.MergeAgainChangesNothing: assumes no stored device under the empty id, which neither merging nor the admin interface creates.
- Proxy.BudgetLockout: a user's budget is fixed during the run.
- The admin server, web front ends, logging, statistics, `internal/fastdns`, configuration accessors and policy compilation.
