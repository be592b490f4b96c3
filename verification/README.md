# Reactaio, verified model

A Dafny model of the algorithmic and stateful parts of Reactaio, a Discord moderation bot, with proofs of what they promise. Loops and objects are modelled as methods and classes; each is tied to a specification function or to sets, about which the theorems are proved.

| module | part of the bot |
|---|---|
| `Chunking` | packing messages into embed-sized texts (`join_with_limit`) |
| `Matching` | finding all occurrences of a text and replacing them in place |
| `Characters`, `Tokens` | character filters and the digit/letter tokenizer |
| `Decimals`, `Durations`, `HumanTime`, `DatabaseTime`, `UnitLengths` | durations: printer, conversion to seconds, the two readers, the time that texts stand for |
| `UniqueVectors`, `SetAlgebra` | the sorted vector without duplicates and the set operations on it |
| `MemberActions` | success and failure bookkeeping of the asynchronous requests per member |
| `Permissions` | the checks before members are kicked, banned or muted |
| `BanPages` | cursor pagination of a guild's bans |
| `DirectorySnapshots`, `EventReplay`, `DirectoryWatchers` | the directory watcher's rescan: its events, what a reader of them ends up with, the loops |
| `InotifyWalk`, `EventQueue` | the watcher's record decoding, and delivery between its threads |
| `Paginators` | the page buttons |
| `Options`, `Sequences`, `WatchEvents` | shared definitions |

## Readings of the code

- `parse_human_time` (`src/cogs/core/helpers.cpp:82`) rejects even token counts although its comment asks for even ones, and line 85 bounds a loop over pairs by the number of tokens. Both readings are modelled. `HumanTime.ParseHumanTimeAsWritten` follows the code and shows, for every text, that it never gives a duration: it throws exactly when the stripped text starts and ends with a digit, and gives nothing otherwise. `HumanTime.ParseHumanTime` follows the comments: odd counts are rejected and the tokens are taken two by two. The other theorems about parsing are about this reading.
- `unique_vector::insert` (`src/cogs/core/containers/unique_vector.h:260`) reads the result of `lower_bound` without an end test; the model inserts when the position is the end or holds a different value.
- `set_symmetric_difference` (`src/cogs/core/algorithm.h:70`) calls a two-argument `set_intersection` that is not declared; the model uses the three-argument one of line 99.
- `join_with_limit` does not count the newlines it adds. It is modelled as written: a chunk may pass the limit. By how much is `Chunking.ChunkShapes`, that the bound is attained is `Chunking.ChunkBoundIsTight`, and exactly when the limit is kept is `Chunking.ChunksKeepLimit`.
- The documentation of `duration::to_string` gives `5d 5m` as its output; the code puts a blank between number and unit. The database reader therefore throws on what `to_string` prints, unless nothing is printed (`DatabaseTime.ReaderOnPrintedText`). It also knows fewer unit names than the parser and assigns where the parser adds; exactly when the two agree is `DatabaseTime.ReadersAgreeExactly`.
- A sign in a database token stays with the unit's name and hides it, so `-5days` sets nothing (`DatabaseTime.SignedTokenSetsNothing`).
- Users, members, roles and bans are known by their ids, so the "top role" is the one with the greatest id. The code keeps shared pointers in its sorted vectors, which compare by address.
- The permission loops read the front of the bot's, the author's and each member's roles, which is undefined for an empty vector. The model takes the front as an option and ends the check there: it is defined exactly when all of them hold a role.
- `walkAndSeeChanges` (`src/modules/FileWatch.hpp:975-988`) hands its events on one by one in time order. Taken together they explain the new names (`DirectorySnapshots.EventsExplainNames`); one by one they do not when a name was taken before it was given up, as in a swap, or when an older file is moved over a tracked one, because its arrival carries the time of its last modification. `EventReplay.InStepByTimes` gives the exact conditions.
- `find_index_all` and `find_all_of` do not end on an empty pattern (`Matching.ScanEnds`); `replace_all` returns at once.
- The watcher's first snapshot (`src/modules/FileWatch.hpp:1177-1182`) is a scan from the empty snapshot without the events, so runs may start there.
- Characters are classified as in the C locale. `uint`, `int` and `size_t` loop counters are unbounded; 64-bit amounts of time and the 16-bit page number wrap as in the code.
- The three permission loops of kick, ban and mute read alike but for the verb in their messages. They are one method, `Permissions.CommandWrapper.CheckPossible`, with the verb as a parameter.
- The order in which hash maps and directory listings are walked, the order of callbacks, the place of every file, the server's answers and the interleaving of threads are parameters or left open by contracts, so the theorems hold for all of them.

## Model

| member | source | states |
|---|---|---|
| Chunking.JoinWithLimit | src/cogs/core/helpers.cpp:14-34 | the result spells exactly the kept entries, one per line and in order, and no order-preserving partition of them into feasible runs has fewer parts than it has non-empty chunks |
| Chunking.ChunksConserveText | src/cogs/core/helpers.cpp:19-32 | concatenating the chunks gives every entry of at most `length` characters, in order, each followed by a newline |
| Chunking.KeptInOrder | src/cogs/core/helpers.cpp:20-25 | kept are exactly the entries of at most `length` characters, in their order |
| Chunking.OneEntry | src/cogs/core/helpers.cpp:20-31 | one entry gives one line, behind an empty chunk if it fills the limit, or only an empty chunk if it is longer; no entries give no chunk |
| Chunking.ChunkShapes | src/cogs/core/helpers.cpp:20-31 | no entry is split; a chunk of k entries has at most `length` characters of text and at most `length` + k - 1 in all (`length` + 1 for a single entry); a chunk ends only where the next entry would not have fitted; only the first chunk can be empty, exactly when nothing is kept or the first kept entry fills the limit |
| Chunking.ChunkBoundIsTight | src/cogs/core/helpers.cpp:20-22 | for every number of entries there is an input whose single chunk reaches that bound, so the limit itself is passed from two entries on |
| Chunking.ChunksKeepLimit | src/cogs/core/helpers.cpp:20-28 | every chunk keeps within the limit exactly if each kept entry is shorter than the limit and a packer that counted the newlines would cut the entries at the same places |
| Chunking.PackStaysAhead | src/cogs/core/helpers.cpp:19-32 | greedy stays ahead: from any point on, with a run open, it closes no more runs than any feasible runs covering the same entries |
| Chunking.ChunksAreFewest | src/cogs/core/helpers.cpp:14-34 | greedy chunking is optimal among all packings of the kept entries |
| Matching.FindIsFirst | src/cogs/core/helpers.cpp:50-50 | a search finds an occurrence whenever there is one, and none precedes it |
| Matching.FindIndexAll | src/cogs/core/helpers.cpp:47-55 | the positions are true, pairwise disjoint occurrences, an occurrence is missing only if it overlaps one that starts before it, and no set of disjoint occurrences is larger |
| Matching.FindAllOf | src/cogs/core/helpers.cpp:37-45 | the result is one copy of the pattern for every position the scan reports |
| Matching.ScanEnds | src/cogs/core/helpers.cpp:47-55 | the scan of any text ends exactly on patterns that are not empty |
| Matching.PositionsAreMaximal | src/cogs/core/helpers.cpp:49-53 | leftmost-first scanning takes as many occurrences as any disjoint choice |
| Matching.Text.ReplaceAll | src/cogs/core/strings.h:109-117 | the text after the in-place loop is the original with every scanned match replaced; the loop ends although the text may grow |
| Matching.ReplacedIsSplice | src/cogs/core/strings.h:112-116 | in-place replacement is one splice at exactly the positions `find_index_all` reports on the original text |
| Matching.ReplacedLength | src/cogs/core/strings.h:113-116 | the length changes by the number of matches times the difference of the two lengths |
| Matching.ReplacedBySelf | src/cogs/core/strings.h:109-117 | replacing a pattern by itself changes nothing |
| Matching.NoMatchRemains | src/cogs/core/strings.h:103-117 | a non-empty replacement that shares no character with the pattern leaves no match behind |
| Matching.ReplaceRoundTrip | src/cogs/core/strings.h:109-117 | replacing with characters foreign to the text can be undone by the opposite replacement |
| Tokens.GetTokens | src/cogs/core/helpers.cpp:57-76 | for any text, a token is given for each place where one ends, from the last place before it where one ended or started; of a text of letters, digits and blanks these are the maximal runs of letters and of digits, in order |
| Tokens.TokensOfText | src/cogs/core/helpers.cpp:62-74 | on letters, digits and blanks those pieces are the maximal runs that are not blank, and on letters and digits all runs |
| Tokens.PunctuationStays | src/cogs/core/helpers.cpp:63-65 | characters other than letters, digits and blanks do not end a token |
| Characters.Classes | src/cogs/core/helpers.cpp:63-68 | the digits, letters and blanks, character by character |
| Characters.Removals | src/cogs/core/strings.h:26-50 | each filter drops its characters one by one and keeps the order of the others |
| Tokens.RunsAreRuns | src/cogs/core/helpers.cpp:62-74 | the runs concatenate back to the text, are non-empty and of one class, and neighbours differ in class |
| Tokens.RunsAreUnique | src/cogs/core/helpers.cpp:62-74 | a text has only one such decomposition |
| Tokens.TrailingSpace | src/cogs/core/helpers.cpp:59-59 | the blank appended before scanning adds no token |
| HumanTime.TokensAreTheRuns | src/cogs/core/helpers.cpp:80-80 | the tokens of a stripped text are the one way to cut it into runs of alternating class, each a number or a word |
| Decimals.DecimalRoundTrip | src/cogs/core/discord/duration.h:203-203 | reading a printed number gives the number back |
| Decimals.DecimalIsUnique | src/cogs/core/discord/duration.h:203-203 | a printed number is the only text of digits with its value and without a superfluous leading zero |
| Decimals.StoullOfDigits | src/cogs/core/helpers.cpp:87-87 | on digits `stoull` gives their value if it fits 64 bits and throws otherwise |
| Decimals.StoullOfNumeral | src/cogs/core/discord/duration.h:167-167 | on blanks, an optional sign, digits and a rest: without digits `invalid_argument`, a value from 2^64 on `out_of_range`, otherwise the value, negated modulo 2^64 behind a minus |
| Decimals.EveryNumeral | src/cogs/core/discord/duration.h:167-167 | every text has that form |
| Durations.PrintedNames | src/cogs/core/discord/duration.h:32-40 | the first and the last name of a unit consist of letters and are names of no other unit |
| Durations.UnitNamesDisjoint | src/cogs/core/discord/duration.h:32-40 | no name is shared by two units |
| Durations.ToString | src/cogs/core/discord/duration.h:195-208 | the text is the numbers and unit names of the non-zero parts, joined by single blanks |
| Durations.PrintedText | src/cogs/core/discord/duration.h:195-208 | the text spelled out: years first, each non-zero part its number, a blank and its short or long name, and nothing for the zero duration |
| Durations.PartialCountModulo | src/cogs/core/discord/duration.h:184-188 | each left-to-right partial sum, in the common period of its operands, is the exact one modulo 2^64 |
| Durations.PartialCountsExact | src/cogs/core/discord/duration.h:184-188 | if the weighted total is below 2^64, no partial sum wraps or exceeds the total |
| Durations.ToSecondsExact | src/cogs/core/discord/duration.h:184-188 | the conversion gives the weighted total exactly when that is below 2^63 |
| Durations.ToSecondsWraps | src/cogs/core/discord/duration.h:184-188 | in any case it gives the weighted total wrapped into 64 signed bits |
| Durations.CommonPeriods | src/cogs/core/discord/duration.h:185-187 | each partial sum counts in the greatest common period of its operands: a year, a month, then 378, 54, 18, 6 and 1 seconds |
| HumanTime.ParseHumanTime | src/cogs/core/helpers.cpp:78-101 | in the commented reading, the result is the sum of the number-and-unit pairs of the stripped text's runs |
| HumanTime.ParseHumanTimeAsWritten | src/cogs/core/helpers.cpp:78-101 | as written, no text gives a value: the call throws exactly when the stripped text starts and ends with a digit |
| HumanTime.Accumulate | src/cogs/core/helpers.cpp:89-93 | the number is added, modulo 2^64, to every unit that has the given name, and to no other |
| HumanTime.RejectedTexts | src/cogs/core/helpers.cpp:82-98 | exactly the texts whose stripped form starts with a letter or ends with a digit are rejected |
| HumanTime.ParsedTotals | src/cogs/core/helpers.cpp:85-94 | an accepted text throws `out_of_range` exactly if one of its numbers does not fit 64 bits; otherwise each part is the sum of the numbers before the names of its unit, modulo 2^64, and unknown names count for nothing |
| HumanTime.PrintParseRoundTrip | src/cogs/core/discord/duration.h:195-208 | parsing what the printer writes, in long or short form, gives back every duration |
| HumanTime.EvalAccumulates | src/cogs/core/helpers.cpp:85-94 | parsing on top of earlier values adds the values parsed from zero, modulo 2^64 |
| HumanTime.ParseConcatenation | src/cogs/core/helpers.cpp:78-101 | for all texts that parse, the concatenation parses to the componentwise sum modulo 2^64 |
| HumanTime.ParsedSecondsAdd | src/cogs/core/helpers.cpp:78-101 | below 2^64 that is the plain sum, and the seconds of the concatenation are the sum of the seconds while the total is below 2^63 |
| DatabaseTime.ReadDuration | src/cogs/core/discord/duration.h:164-177 | the values are those assigned by the blank-separated tokens from left to right, with the first exception that `stoull` raises |
| DatabaseTime.SplitJoin | src/cogs/core/strings.h:63-65 | splitting at single blanks undoes joining by them, empty words included |
| DatabaseTime.JoinSplit | src/cogs/core/strings.h:63-65 | joining undoes splitting, whose words have no blanks |
| DatabaseTime.ReadInTurn | src/cogs/core/discord/duration.h:166-176 | the first token that cannot be read decides; without one, later tokens go on from the values so far |
| DatabaseTime.SignedTokenSetsNothing | src/cogs/core/discord/duration.h:167-172 | a token with a sign throws as its number does, and otherwise sets nothing, because the sign hides the unit's name |
| DatabaseTime.UnitIsFound | src/cogs/core/discord/duration.h:169-171 | the first or last name of a unit finds that unit |
| DatabaseTime.ReaderOnPrintedText | src/cogs/core/discord/duration.h:164-208 | on printed durations this reader throws `invalid_argument`, except for the zero duration, which it reads back |
| DatabaseTime.CompactReadings | src/cogs/core/discord/duration.h:164-177 | on any compact tokens of a number and a word this reader ends with the last number before the first or last name of each unit, the parser with the sum of the numbers before any of its names, modulo 2^64; both throw if some number does not fit 64 bits |
| DatabaseTime.ReadersAgreeExactly | src/cogs/core/discord/duration.h:164-177 | on any compact tokens the two readers agree exactly if some number does not fit 64 bits, or for every unit that sum equals that last number |
| DatabaseTime.ReadersAgree | src/cogs/core/discord/duration.h:164-177 | so they agree when each unit is named at most once, by its first or last name |
| DatabaseTime.ReadersOnRepeatedUnit | src/cogs/core/discord/duration.h:174-174 | and on two tokens for one unit exactly when the first number is zero |
| UnitLengths.ParsedSeconds | src/cogs/core/discord/duration.h:32-40 | any compact text whose numbers fit 64 bits parses to the sum of its numbers times the seconds of the names behind them, spelled out name by name, while that is below 2^63 |
| UnitLengths.NamedSeconds | src/cogs/core/discord/duration.h:32-40 | n followed by any name stands for n times the seconds of that name, for the parser with all names and for the database reader with the first and last ones; other words stand for nothing |
| UniqueVectors.UniqueVector.Insert | src/cogs/core/containers/unique_vector.h:258-262 | the vector stays strictly ascending and its set grows by the value |
| UniqueVectors.UniqueVector.InsertRange | src/cogs/core/containers/unique_vector.h:293-298 | the vector stays strictly ascending and its set grows by the range |
| UniqueVectors.UniqueVector.Find | src/cogs/core/containers/unique_vector.h:329-340 | the first position of the value, or the size if it does not occur |
| UniqueVectors.UniqueVector.Contains | src/cogs/core/containers/unique_vector.h:348-350 | true exactly for elements, however the vector is ordered |
| UniqueVectors.UniqueVector.EraseValue | src/cogs/core/containers/unique_vector.h:376-378 | removes the value from the set, keeps the others and their order |
| UniqueVectors.UniqueVector.ReverseOrder | src/cogs/core/containers/unique_vector.h:320-322 | the vector holds its elements in opposite order |
| UniqueVectors.UniqueVector.Equals | src/cogs/core/containers/unique_vector.h:117-119 | on ascending vectors equality of the containers decides equality of the sets |
| UniqueVectors.CanonicalForm | src/cogs/core/containers/unique_vector.h:12-17 | a set has one ascending sequence only |
| UniqueVectors.RunIsSortedSet | src/cogs/core/containers/unique_vector.h:258-378 | after every run of insertions, range insertions and removals from empty the container is the sorted form of the set those operations mean |
| UniqueVectors.EqualRuns | src/cogs/core/containers/unique_vector.h:117-119 | two runs end in equal containers exactly when they mean the same set |
| UniqueVectors.InsertsCommute | src/cogs/core/containers/unique_vector.h:258-262 | insertions commute and are idempotent |
| SetAlgebra.SetDifference | src/cogs/core/algorithm.h:54-59 | the output grows by exactly the difference and stays sorted, in whatever order the inputs are |
| SetAlgebra.SetIntersection | src/cogs/core/algorithm.h:98-103 | the output grows by exactly the intersection and stays sorted |
| SetAlgebra.SetSymmetricDifference | src/cogs/core/algorithm.h:68-73 | the output grows by exactly the symmetric difference and stays sorted |
| SetAlgebra.CopyIf | src/cogs/core/algorithm.h:29-34 | the output grows by exactly the elements that satisfy the predicate |
| SetAlgebra.Transform | src/cogs/core/algorithm.h:84-88 | the output grows by exactly the images of the input |
| SetAlgebra.DifferenceAndIntersectionSizes | src/cogs/core/algorithm.h:54-103 | difference and intersection share out the elements of the first input |
| MemberActions.MemberWrapper.LambdaCallback | src/cogs/moderation/wrappers/kick/kick_wrapper.cpp:150-158 | an error adds one message and the member to the error set, a success changes neither |
| MemberActions.MemberWrapper.KickedMembers | src/cogs/moderation/wrappers/kick/kick_wrapper.cpp:210-217 | the reported members are exactly those without errors, and the call of the symmetric difference changes nothing |
| MemberActions.MemberWrapper.ProcessResponse | src/cogs/moderation/wrappers/kick/kick_wrapper.cpp:210-217 | the report is left out exactly when all members have errors; otherwise it names at least one member, and exactly those without |
| MemberActions.AfterIsFailed | src/cogs/moderation/wrappers/kick/kick_wrapper.cpp:150-158 | after any callbacks the error container is the sorted set of the failed members, and the messages are those of the failures in order |
| MemberActions.MessagesOfErrors | src/cogs/moderation/wrappers/kick/kick_wrapper.cpp:150-154 | each error leaves exactly one message, with its member, code and text |
| MemberActions.CallbacksConfluent | src/cogs/moderation/wrappers/kick/kick_wrapper.cpp:150-158 | whatever the order of the callbacks, the error container is the same and so are the messages as a multiset |
| MemberActions.ErrorsPartitionMembers | src/cogs/moderation/wrappers/member_wrapper.h:63-65 | errors and successes partition the members, and the size test holds exactly when no member succeeded |
| Permissions.GetRolesSorted | src/cogs/core/helpers.cpp:114-123 | the roles in descending order; the front is the greatest |
| Permissions.CommandWrapper.CheckMember | src/cogs/moderation/wrappers/kick/kick_wrapper.cpp:40-94 | one turn of the loop adds exactly the complaints about the member, which do not depend on the owner flag, and cancels exactly if the member is forbidden; it is defined exactly if the member holds a role |
| Permissions.CommandWrapper.CheckPossible | src/cogs/moderation/wrappers/kick/kick_wrapper.cpp:31-95 | the check is defined exactly when bot, author and all members hold a role, and then cancels exactly when some member is the author, the owner or the bot, holds a protected role, or outranks bot or author |
| Permissions.HeldProtectedFacts | src/cogs/moderation/wrappers/kick/kick_wrapper.cpp:66-80 | the roles listed are exactly the protected ones the member holds |
| Permissions.CheckIsVerdict | src/cogs/moderation/wrappers/ban/ban_wrapper.cpp:366-428 | for every list of members, a defined check gives errors exactly when some member is forbidden |
| Permissions.VerdictIsOrderFree | src/cogs/moderation/wrappers/mute/mute_wrapper.cpp:26-87 | for every list of members, neither their order nor the kind of action changes whether the check is defined, or its verdict |
| Permissions.CheckComplaints | src/cogs/moderation/wrappers/kick/kick_wrapper.cpp:43-93 | each kind of complaint is among the errors exactly if some member gives its reason |
| Permissions.MemberComplaints | src/cogs/moderation/wrappers/kick/kick_wrapper.cpp:43-93 | one member gets exactly the complaints that apply |
| Permissions.ComplaintsInOrder | src/cogs/moderation/wrappers/kick/kick_wrapper.cpp:43-93 | each once and in the order of the checks |
| Permissions.ComplaintsAppend | src/cogs/moderation/wrappers/kick/kick_wrapper.cpp:40-94 | the members' complaints follow one another in the order of the members |
| BanPages.BanServer.GetBans | src/cogs/moderation/wrappers/bans/guild_bans_wrapper.cpp:75-81 | the answer assumed of the server: an error, or the up to 1000 smallest ids above the cursor, each once, in any order |
| BanPages.GuildBansWrapper.ReceivePage | src/cogs/moderation/wrappers/bans/guild_bans_wrapper.cpp:82-88 | every id of the page is stored and the next cursor is the greatest of them |
| BanPages.GuildBansWrapper.RecursiveCall | src/cogs/moderation/wrappers/bans/guild_bans_wrapper.cpp:74-95 | the recursion ends; it stores what `Crawled` describes with one request per full page and one more, and adds exactly the error of its last request if that failed |
| BanPages.GuildBansWrapper.FetchBans | src/cogs/moderation/wrappers/bans/guild_bans_wrapper.h:20-20 | the crawl starts at cursor 1: it stores every ban with a greater id or, if a cursor's request fails, those up to the first such cursor and its error |
| BanPages.CrawlIsComplete | src/cogs/moderation/wrappers/bans/guild_bans_wrapper.cpp:90-92 | the crawl fails exactly when the request for some cursor fails; otherwise every ban above the start is received exactly once and nothing else is |
| BanPages.FullPage | src/cogs/moderation/wrappers/bans/guild_bans_wrapper.cpp:84-92 | a full page covers exactly the ids up to its greatest, the cursors after it are those of a crawl from there, and fewer ids remain |
| BanPages.CrawlGoesOn | src/cogs/moderation/wrappers/bans/guild_bans_wrapper.cpp:90-92 | a full page followed by a crawl from its greatest id is a crawl from the start: up to the first failing cursor, or complete |
| DirectorySnapshots.EventsExplainNames | src/modules/FileWatch.hpp:905-973 | the new names are the old ones without the removed and the renamed, with the new names of renamed and added files |
| DirectorySnapshots.NextTracksDirectory | src/modules/FileWatch.hpp:951-973 | the tracked names are those of the directory's files that match or were tracked before, each with its file, and no file is tracked twice |
| DirectorySnapshots.RunIsExplained | src/modules/FileWatch.hpp:892-973 | over every run of scans of a changing directory, a reader who takes the events of each scan together knows exactly the tracked names |
| DirectorySnapshots.SecondScan | src/modules/FileWatch.hpp:929-950 | a second scan of an unchanged directory reports modifications only, exactly of the files the first found renamed and modified since |
| DirectorySnapshots.ScansSettle | src/modules/FileWatch.hpp:905-973 | from the third scan of an unchanged directory on there are no events and the snapshot stays as it is |
| DirectorySnapshots.ModifiedEvents | src/modules/FileWatch.hpp:941-949 | a tracked file is reported as modified, with the time of the modification, exactly if it kept its name and its second is newer than the one remembered |
| DirectorySnapshots.ModifiedAgain | src/modules/FileWatch.hpp:942-943 | a second scan reports a file exactly if it is newer than what the first scan saw and than what was remembered before |
| DirectorySnapshots.ModifiedAfterAdded | src/modules/FileWatch.hpp:844-855 | for a file that the first scan added, exactly if it is newer than the first scan saw it |
| DirectorySnapshots.ModifiedInRun | src/modules/FileWatch.hpp:933-952 | over any run of scans of a changing directory, a file that stays in it under whatever names is reported exactly if it kept its name and its second exceeds all those seen before, save by scans that found it renamed |
| EventReplay.InStepWhenOrdered | src/modules/FileWatch.hpp:975-988 | applied one by one, in whatever order, the events of a scan lead to exactly the tracked names if and only if every name's removal or renaming precedes its reappearance |
| EventReplay.InStepByTimes | src/modules/FileWatch.hpp:906-980 | however the sort resolves ties, a reader of the events ends with the tracked names exactly if every reused name was given up strictly before it was taken; some resolution leads there exactly if none was taken strictly before |
| EventReplay.EarlierIsLess | src/modules/FileWatch.hpp:975-980 | times compare as their total nanoseconds |
| EventReplay.SwapLosesName | src/modules/FileWatch.hpp:933-944 | after a swap of two names the reader has lost the name that the second file to be renamed left |
| EventReplay.SwapExample | src/modules/FileWatch.hpp:933-980 | such a swap of `a` and `b`, after which the reader knows only `a` |
| EventReplay.CycleIsTooEarly | src/modules/FileWatch.hpp:933-980 | files renamed around a cycle of any length leave no order that works, unless all of them were renamed at the same instant |
| EventReplay.ReplacedFile | src/modules/FileWatch.hpp:909-966 | when an untracked file takes the place of a removed one, its name is lost if the file was last modified before the removal, and known if after |
| EventReplay.ReplacementExample | src/modules/FileWatch.hpp:909-966 | such a replacement of `a`, after which the reader knows nothing |
| EventReplay.RunInStep | src/modules/FileWatch.hpp:975-988 | over every run of scans, a reader of all the events knows the tracked names after every scan exactly if every scan gave names up before they were taken |
| EventReplay.RunInStepByTimes | src/modules/FileWatch.hpp:892-990 | so it does, however the sorts resolve ties, exactly if in every scan each reused name was given up strictly before it was taken |
| DirectoryWatchers.DirectoryWatcher.WalkEntries | src/modules/FileWatch.hpp:905-953 | in any order of the entries, the loop yields exactly the events and states of the tracked files, each once, without ever meeting an occupied name |
| DirectoryWatchers.DirectoryWatcher.WalkDirectory | src/modules/FileWatch.hpp:955-971 | in any order of the listing, exactly the new matching files are added and reported |
| DirectoryWatchers.SortByTime | src/modules/FileWatch.hpp:975-980 | the same events, none before an earlier one |
| DirectoryWatchers.DirectoryWatcher.WalkAndSeeChanges | src/modules/FileWatch.hpp:892-990 | the snapshot becomes the next one, exactly the events of the change are appended to the queue, each once and in time order, and applied one by one they lead to the new names exactly if each name is given up first, which the files' times decide unless they are equal |
| InotifyWalk.ParseEvents | src/modules/FileWatch.hpp:622-650 | on any concatenation of records the walk visits exactly their boundaries, stops at the length, and reports in order one event per named, passing record, created before deleted before modified |
| InotifyWalk.ReportOfRecord | src/modules/FileWatch.hpp:630-648 | a record with a passing name is reported with exactly that name, without its padding, as added, removed or modified by the first of the bits 0x100, 0x200 and 2 that is set, whatever other bits are |
| InotifyWalk.ReportsAppend | src/modules/FileWatch.hpp:627-650 | the reports of records follow one another in their order |
| InotifyWalk.HeaderAt | src/modules/FileWatch.hpp:629-632 | what is read at a boundary is the record that was written there |
| InotifyWalk.RecordBytes | src/modules/FileWatch.hpp:629-629 | a record's bytes are four little-endian numbers and its field, 16 bytes further |
| InotifyWalk.EncodingIsInjective | src/modules/FileWatch.hpp:627-650 | the bytes determine the records |
| EventQueue.RunsKeepInv | src/modules/FileWatch.hpp:1217-1240 | in every interleaving, delivered events, the rest of the batch and the queue make up what was produced; the mutex separates the threads |
| EventQueue.DeliveredIsPrefix | src/modules/FileWatch.hpp:1217-1240 | delivery is exactly once and in order: the delivered events are a prefix of the produced ones, and the missing ones are the rest of the batch and the queue |
| EventQueue.SwapTakesWholeBatches | src/modules/FileWatch.hpp:652-656 | the callback thread takes only whole appends of the producer, and an empty queue only when the watcher is being destroyed |
| EventQueue.EndedThreadFinishedBatch | src/modules/FileWatch.hpp:1219-1239 | a thread that ended because of the flag has delivered its whole batch; only queued events are lost |
| EventQueue.QueueDrains | src/modules/FileWatch.hpp:1219-1238 | in every reachable state in which the mutex is free and the thread waits or tests the flag with something to do, its own steps are enabled, deliver all that was produced and leave the queue empty |
| EventQueue.EventsGetThrough | src/modules/FileWatch.hpp:652-656 | what the producer appends next can be delivered right away, behind everything produced before |
| EventQueue.DestroyedThreadCanEnd | src/modules/FileWatch.hpp:1219-1223 | a destroyed watcher's thread that waits or tests the flag can end, a waiting one after delivering everything |
| EventQueue.NothingAfterFailure | src/modules/FileWatch.hpp:1229-1238 | a callback that fails with anything but a standard exception is the last one |
| Paginators.MessagePaginator.GoForward | src/cogs/core/discord/message_paginator.cpp:104-117 | shows the next page, an existing one |
| Paginators.MessagePaginator.GoBackward | src/cogs/core/discord/message_paginator.cpp:119-135 | shows the previous page, an existing one |
| Paginators.MessagePaginator.GoLast | src/cogs/core/discord/message_paginator.cpp:137-150 | shows the page of the number of the last one cut to 16 bits |
| Paginators.MessagePaginator.GoFirst | src/cogs/core/discord/message_paginator.cpp:153-166 | shows the first page |
| Paginators.ClicksStayInRange | src/cogs/core/discord/message_paginator.cpp:54-67 | every run of clicks stays on an existing page |
| Paginators.ClickValues | src/cogs/core/discord/message_paginator.cpp:104-154 | where each button leads on any number of pages, beyond what 16 bits can number as well |
| Paginators.ButtonsWorkUpTo65536Pages | src/cogs/core/discord/message_paginator.cpp:104-150 | forward and backward undo each other and the last page can be reached, on every page, exactly when there are at most 65536 pages |
| Paginators.EveryPageInReach | src/cogs/core/discord/message_paginator.cpp:153-154 | with at most 65536 pages, the first-page button and then t clicks forward show page t |
| Paginators.ForwardsAdd | src/cogs/core/discord/message_paginator.cpp:104-105 | with at most 65536 pages, k clicks forward move k pages on, around the end |

## Left out

- Discord calls, embeds, webhooks, SQL and logging: external effects; only their inputs and outcomes appear, as parameters.
- FindIndexAll: requires a non-empty pattern, exactly the patterns on which the loop of the source ends (`Matching.ScanEnds`); the same holds for `FindAllOf`.
- GetBans: is an assumption about the server written as a method, not code of the repository.
- WalkEntries: the descriptor leaked by `makeFileState` and the link count it stores are not modelled; a directory that cannot be opened, or files with several names in the directory, are not modelled either.
- ParseEvents: filter and single-file mode are one predicate on names, and the buffer holds complete, well-formed little-endian records, as the kernel delivers them.
- EventQueue.RunsKeepInv: is about safety only; the destroy flag is set outside the mutex, so the callback thread may wait on; what the threads can do from every state is shown (`EventQueue.QueueDrains`), not that they will.
- CheckMember: the wording of the messages is reduced to their kind, the action, and the members or roles they name.
- ProcessResponse: describes the report once all callbacks have run; the source computes it right after sending the requests.
- Transform: elements are integers; the vector is generic in the source.
- `log_modcase`, the hybrid wrappers, `unlock_wrapper`, the audit log recursion and the range overload of `find_index_all` are not part of this model.
- Sized construction and `resize` of the vector, and insertion after `reverse`: not part of this model; the theorems are about vectors built by insertion, range insertion and removal.
- `add_page` and `remove_page` append and remove a page of the paginator, and the theorems are about a fixed number of pages; `fifo_map` and `fixed_map` are containers, and case conversion and ordinals format text. No claim is made about them.
