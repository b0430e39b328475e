# A verified model of the data engine

This project models the in-memory data engine of a Redis-compatible server written in Rust, together with
its vector collections, and proves what its components keep, refine or undo.  Everything is in Dafny 4.11;
`dafny verify dfyconfig.toml` checks the whole project.

The server keeps many things twice: a sorted set is a skip list and a hash map, a set is a hash set of
integers or of bytes, a string is an integer or bytes, a collection point is found over two identifiers, and
a watched key is known to the database and to the client.  Most of the theorems say that the two sides agree
after every operation, or give the exact condition under which they do not.

| file | models |
|---|---|
| `Machine`, `ByteStrings`, `Text`, `Sequences`, `Decimal` | machine integers and the two build profiles, byte order, letter case, iteration orders, decimal text |
| `DbUtil`, `StringValue`, `SetValue`, `ListValue`, `ListRemoval` | `dbutil.rs`, `string.rs`, `set.rs`, `list.rs` |
| `Scores`, `SortedSetOrder`, `SortedSetRanges`, `SortedSetAggregate`, `SortedSetState`, `SortedSet`, `SortedSetScan` | `zset.rs` |
| `VectorIndex`, `QdrantCollection` | `vector_index.rs`, `qdrant_api.rs` |
| `Keyspace`, `Database`, `Accesses`, `ListCommands`, `LremCommand`, `Scan` | keys, eviction, access times, watches, RPOPLPUSH, LREM and the SCAN cursors |
| `TransactionSpec`, `TransactionRuns`, `Transactions`, `LtrimCommand` | WATCH, MULTI, EXEC and DISCARD over interleaved clients; LTRIM as a command that may panic |

Conventions that hold throughout:

- Objects that the source updates in place are classes; each method is proved against a function of the old
  state, and the theorems are about that function.
- Scores and distances are `real` plus the two infinities and NaN; there is no rounding, no negative zero and
  no overflow to infinity.
- Arithmetic that can leave its machine type takes the build profile as a parameter: it panics in a debug
  build and wraps in a release build.  `Outcome` says which.
- Hash containers iterate in an arbitrary order, chosen anew each time.  Random choices are arbitrary choices,
  and the clock is a parameter.
- The graph of a collection measures one distance, which is a parameter.  The source always builds it with the cosine
  distance, whatever the collection asks for; only the conversion to a score depends on the collection.
- `OrderedSkipList` is a strictly sorted sequence with the operations its documentation describes, and the HNSW
  graph is a map that only grows, whose search returns distinct inserted nodes with their true distances.

Places where the code does something other than what its documentation or its commands suggest.  For each there is
the exact condition, and an input on which it happens:

- LREM passes `count < 0` on as "from the front", the reverse of what Redis documents and `tests/unit/type/list.tcl`
  expects.  The results agree exactly when the count is 0, all occurrences go, or the occurrences stand next to one
  another (`LremCommand.LremMeetsDocument`, `LremFromTheWrongEnd`); the least i64 panics in a debug build.
- EXEC unwraps the results of its commands.  It unwinds exactly when one of them panics or its result is an `Err`, and
  it unwinds where the commands by themselves would not exactly when none panics and one gives an `Err`: a blocking
  command that would wait, or a SUBSCRIBE (`TransactionRuns.TransactionIsSequence`, `SubscribeUnwindsExec`;
  `LtrimCommand.LtrimUnwindsExec` for a command that panics).
- SELECT lets the index `databases` through, at which there is no database; the first access then panics
  (`TransactionRuns.SelectThenAccess`, `SelectSixteenThenWatch`).
- The policy name is lowercased where keys are evicted and not where accesses are noted, so under an LRU policy the
  scores are access times exactly when "lru" is spelled in lower case (`Accesses.ScoresNeedLowerCase`,
  `UpperCaseScoresNothing`).
- `zincrby` takes the skip-list node away before it checks for NaN, so a present member whose sum is NaN stays in the
  hash map only, until a later command stores a score of it or removes it (`SortedSetState.LostAfterRun`,
  `FailedIncrementLoses`).  ZRANK of such a member underflows or answers another's rank (`SortedSet.RankMeaning`,
  `LostRankUnderflows`), and ZSCAN misses it (`SortedSetScan.MissedByScan`).
- With CH, `zadd` answers that something changed also for some updates that leave the score as it was
  (`SortedSetState.ZaddReplyCounts`, `IdleIncrementCounts`).
- ZUNIONSTORE with MAX or MIN drops members all of whose weighted scores are the default infinity or NaN
  (`SortedSetAggregate.UnionKeeps`, `InfinitiesAreDropped`).
- A leading `+` is accepted when text is parsed as a number but never printed, so `+5` is stored as `5`
  (`StringValue.NewPreservesBytes`, `PlusIsForgotten`; the `Exact` lemmas of `SetValue`, `PlusFiveFools`).
- SET to `0` stores text that INCR then refuses (`StringValue.PrintedTextIsNumber`, `StoredZeroIsNoNumber`).
- LRANGE and LTRIM misbehave when the start lies past the stop (`ListValue.RangedIsWindow`, `CrossedRangeAnswers`,
  `ListValue.ValueList.Ltrim`, `CrossedTrimPanics`).
- `len - 1` underflows on an empty container (`StringValue.ValueString.GetRange`, `EmptyGetRangePanics`,
  `SortedSetRanges.NormalizeRangeMeaning`, `EmptyRangeOverflows`), and ZRANGEBYLEX unwraps the first element of an
  empty skip list (`SortedSet.SortedSet.Zrangebylex`), which a stored key can have (`SortedSetState.OnlyLostMembers`).
- A query with `limit` 0 still returns one point (`QdrantCollection.LimitKept`, `LimitZeroReturnsOne`), and very large
  limits overflow under the lock on the collections (`QdrantCollection.Collection.QueryPoints`, `HugeLimitsPanic`).
- `get_or_create` drops the deadline of an expired key but not its value (`Database.ExpiredValueComesBack`,
  `ExpiredListIsHandedOut`), so RPOPLPUSH onto an expired list brings its elements back (`ListCommands.SeenConserved`,
  `ExpiredElementsComeBack`; making room may also evict the source, `SourceCanBeEvicted`), and RPOPLPUSH onto an expired
  value that is no list loses the element (`ListCommands.GenericRpoplpush`, `ElementIsLost`).
- Eviction under a random policy with no samples gives up at once (`Database.Database.EvictKeys`,
  `NoSamplesKeepsTheKey`).

## Model

| member | source | states |
|---|---|---|
| Decimal.PrintDenotes | database/src/dbutil.rs:47-49 | printing a number gives digits that denote it, and a leading zero only for 0 |
| Decimal.PrintValue | database/src/dbutil.rs:63-73 | digits without a needless leading zero are what printing their value gives |
| Decimal.ParsePrint | database/src/dbutil.rs:47-73 | printed text parses back and starts with no sign |
| Decimal.PrintInjective | database/src/dbutil.rs:47-49 | different numbers print differently |
| Decimal.DigitCodes | database/src/dbutil.rs:47-49 | the codes of the digits |
| Decimal.PrintSample | database/src/dbutil.rs:47-49 | -1024 in ASCII |
| Decimal.ParseDigitsExact | database/src/dbutil.rs:63-73 | a text of digits denotes a number iff it is its printed form behind zeros |
| ByteStrings.CompareMeaning | database/src/zset.rs:92 | byte strings are ordered lexicographically: by the first difference, a prefix first |
| Machine.WrapMeaning | database/src/list.rs:83-114 | wrapping keeps the remainder modulo 2^64 and numbers in range |
| DbUtil.NormalizePosition | database/src/dbutil.rs:23-37 | a signed position names an index exactly when it lies inside, and otherwise the flag tells which end it missed |
| DbUtil.UsizeRoundTrip | database/src/dbutil.rs:47-73 | a printed member parses back to the same number |
| DbUtil.VecRoundTrip | database/src/dbutil.rs:63-73 | parsing loses the spelling of a member exactly when it starts with `+` |
| DbUtil.VecToUsizeExact | database/src/dbutil.rs:63-73 | a member parses as a number iff it is its printed form, or that behind a `+` and zeros |
| DbUtil.WindowMeaning | database/src/dbutil.rs:23-37 | the window between two signed positions and what it leaves out, by index |
| DbUtil.WindowReverse | database/src/zset.rs:390-443 | naming a window of the reversed sequence is naming the window between the mirrored positions |
| StringValue.ParseUtf8Print | database/src/string.rs:19-25 | the printed form of an i64 is recognised as that number, except for 0 |
| StringValue.NewPreservesBytes | database/src/string.rs:28-40 | a stored string reads back unchanged iff it is not an i64 spelled with `+` or `-0` |
| StringValue.EncodeExact | database/src/string.rs:19-33 | which texts are stored as which numbers, and are numbers to INCR: the printed form, or that with a `+` or with zeros behind a sign |
| StringValue.LettersAreNoNumber | database/src/string.rs:59-63 | "abc" is no number |
| StringValue.BitMeaning | database/src/string.rs:126-173 | bit 0 is the most significant bit of the first byte; there are none past the last byte |
| StringValue.PrintedPrefixIsPlain | database/src/string.rs:49-57 | appending to a stored integer never produces such a spelling |
| StringValue.PrintedTextIsNumber | database/src/string.rs:59-63 | text that prints an i64 counts as that number for INCR iff it is not the stored text "0" |
| StringValue.StoredZeroIsNoNumber | database/src/string.rs:19-33 | "0" is stored as text and is then no number |
| StringValue.PlusIsForgotten | database/src/string.rs:19-40 | `+5` reads back as `5` |
| StringValue.WithBitChangesOneBit | database/src/string.rs:142-149 | the two mask operations set one bit of a byte and leave the other seven |
| StringValue.PaddedBitWrite | database/src/string.rs:126-152 | writing into a zero-padded string changes one bit of the whole string |
| StringValue.ValueString.Append | database/src/string.rs:49-57 | the new byte string is the old one followed by the payload, for every encoding and overflow |
| StringValue.ValueString.Incr | database/src/string.rs:59-70 | succeeds exactly when the value is a number and the sum fits an i64; otherwise nothing changes |
| StringValue.ValueString.GetRange | database/src/string.rs:89-124 | returns the documented window, and panics exactly on an empty string with start < 0 <= stop in a debug build |
| StringValue.EmptyGetRangePanics | database/src/string.rs:104-113 | GETRANGE from -1 to 0 on an empty string panics in a debug build, where the window is empty |
| StringValue.ValueString.SetBit | database/src/string.rs:126-152 | returns the old bit, grows the string just enough and changes that bit only |
| StringValue.ValueString.GetBit | database/src/string.rs:154-173 | reads the bit, false past the end |
| StringValue.ValueString.SetRange | database/src/string.rs:175-202 | the push and swap_remove loop is zero padding followed by overwriting: which byte is where afterwards |
| SetValue.SaddExact | database/src/set.rs:69-84 | adding keeps the denoted set right iff no `+` spelling meets an integer set that has room |
| SetValue.SoughtExact | database/src/set.rs:86-108 | lookup and removal are right iff they are not fooled by a `+` spelling of a held integer |
| SetValue.EncodeSetExact | database/src/set.rs:32-47 | a stored result keeps its members iff it does not turn into integers with a `+` spelling among them |
| SetValue.SdiffExact | database/src/set.rs:249-291 | SDIFF is the difference of the denoted sets iff no member of an integer set is held under a `+` spelling only |
| SetValue.SinterExact | database/src/set.rs:293-349 | SINTER is the intersection iff no member of an integer set is shared only thanks to `+` spellings |
| SetValue.PlusFiveFools | database/src/set.rs:69-108 | `+5` is added as `5`, found where only `5` is held, and `{5}` less `{+5}` is empty |
| SetValue.UnionMembers | database/src/set.rs:351-379 | SUNION holds exactly the members of some operand, for every mix of encodings |
| SetValue.IntegerMatches | database/src/set.rs:268-288 | what it means for an operand of either encoding to hold an integer |
| SetValue.SpelledSize | database/src/set.rs:110-115 | an integer set has as many members as integers |
| SetValue.DescendingFits | database/src/set.rs:225-245 | taking descending positions one by one, each is still inside after the removals before it |
| SetValue.GetRandomPositions | database/src/set.rs:157-178 | gives min(len, count) distinct positions in descending order |
| SetValue.ParsedPrefix | database/src/set.rs:32-47 | comparing sizes after a loop that stops at the first non-number decides the encoding, for every iteration order |
| SetValue.ValueSet.CreateWithHashset | database/src/set.rs:32-47 | becomes integers iff all members parse and no two spell the same integer |
| SetValue.ValueSet.MakeData | database/src/set.rs:56-67 | changes the encoding and not the denoted set |
| SetValue.ValueSet.Sadd | database/src/set.rs:69-84 | adds one member, converting exactly when the limit or the text requires it, and tells whether it was new |
| SetValue.ValueSet.Srem | database/src/set.rs:86-96 | removes the member sought and tells whether it was there |
| SetValue.ValueSet.Sismember | database/src/set.rs:98-108 | tells whether the member sought is denoted |
| SetValue.ValueSet.Spop | database/src/set.rs:215-247 | returns min(count, size) distinct former members and leaves the old set minus those |
| SetValue.ValueSet.Sdiff | database/src/set.rs:249-291 | the nested loops compute `Diff`, whatever the encodings |
| SetValue.ValueSet.Sinter | database/src/set.rs:293-349 | the loops, with their early exit, compute `Inter` |
| SetValue.ValueSet.Sunion | database/src/set.rs:351-379 | the loop computes `Union` |
| ListValue.RemoveLeftMeaning | database/src/list.rs:116-135 | exactly the first `limit` occurrences go, or all if there are fewer, and the rest keeps its order |
| ListValue.RemovedCount | database/src/list.rs:116-135 | how many occurrences go: all for a limit of 0, otherwise at most the limit |
| ListValue.RemoveAll | database/src/list.rs:116-135 | with limit 0 every occurrence goes |
| ListValue.RangedIsWindow | database/src/list.rs:83-114 | LRANGE answers the documented window iff the request is not crossed (or is crossed by one position in a release build) |
| ListValue.CrossedRangeAnswers | database/src/list.rs:83-114 | LRANGE 2 0 on three elements panics, or answers the last one in a release build |
| ListValue.CrossedTrimPanics | database/src/list.rs:177-209 | LTRIM 2 0 on three elements panics with one element left |
| ListValue.TrimmedWindow | database/src/list.rs:177-209 | cutting at the end and then at the start leaves the window |
| ListValue.ValueList.Push | database/src/list.rs:26-36 | adds at the chosen end |
| ListValue.ValueList.Pop | database/src/list.rs:38-48 | undoes a push at the chosen end |
| ListValue.ValueList.Linsert | database/src/list.rs:62-75 | puts the value next to the first pivot, and changes nothing when there is none |
| ListValue.ValueList.Lrange | database/src/list.rs:83-114 | returns what skip and take with wrapping arithmetic give |
| ListValue.ValueList.Ltrim | database/src/list.rs:177-209 | keeps the window, or panics exactly when crossed by two or more (or empty in a debug build) with the list already cut |
| ListValue.ValueList.Lrem | database/src/list.rs:116-160 | removal from the right is removal from the left conjugated by reversal |
| ListRemoval.EndsAgree | database/src/list.rs:116-160 | removing some but not all occurrences does the same from both ends iff they stand next to one another |
| ListRemoval.AllGone | database/src/list.rs:116-160 | removing all occurrences does the same from both ends |
| ListRemoval.LeftCut | database/src/list.rs:121-135 | removal from the front cuts a prefix that holds exactly the quota |
| ListRemoval.RightCut | database/src/list.rs:136-156 | removal from the back cuts a suffix that holds exactly the quota |
| ListRemoval.AgreeingEndsBlock | database/src/list.rs:116-160 | if the ends agree, the occurrences are one block |
| ListRemoval.BlockEndsAgree | database/src/list.rs:116-160 | in a block the ends agree |
| LremCommand.MagnitudeIsExact | command/src/command.rs:1576 | `count.abs() as usize` is the magnitude, and panics exactly on the least i64 in a debug build |
| LremCommand.LremMeetsDocument | command/src/command.rs:1570-1584 | the command does what is documented iff it does not panic and the count is 0, all occurrences go, or they are adjacent |
| LremCommand.LremFromTheWrongEnd | command/src/command.rs:1570-1584 | LREM 1 x on x y x leaves x y where y x is documented |
| LremCommand.LremPresent | command/src/command.rs:1575-1583 | which reply, and the list after it, for a key that is there |
| LremCommand.Lrem | command/src/command.rs:1570-1584 | which reply in every case, the data after it, and that the watches on the key go unless it panics |
| ListCommands.MoveConserves | command/src/command.rs:1275-1315 | no stored element is lost or made, the last one becomes the first, the others keep their order, and no other key is touched |
| ListCommands.TakeLast | command/src/command.rs:1286-1302 | the source is read and popped; an expired one is removed |
| ListCommands.PushFront | command/src/command.rs:1304-1309 | the destination is found or created, possibly after evictions, and the push fails exactly on a stored value that is no list |
| ListCommands.GenericRpoplpush | command/src/command.rs:1275-1315 | which of the four outcomes occurs, and the whole state after each |
| ListCommands.MovedData | command/src/command.rs:1275-1315 | a move is the pure move on the stored lists less the evicted keys, and drops the watches on both keys |
| ListCommands.SeenConserved | command/src/command.rs:1275-1315 | the elements clients see are conserved iff no expired elements of the destination come back and the source, if evicted to make room, had no other element |
| ListCommands.SeenConservedUnlimited | command/src/command.rs:1275-1315 | without a memory limit: conserved iff the destination is no expired list with elements |
| ListCommands.SafeSourceStays | command/src/command.rs:1304-1309 | the source is not evicted when the destination exists, or the memory fits, or the policy does not offer the source |
| ListCommands.SeenConservedBeforehand | command/src/command.rs:1275-1315 | under that condition, which a caller can look up: conserved iff the destination is no expired list with elements |
| ListCommands.SourceCanBeEvicted | command/src/command.rs:1304-1309 | a state in which the source is evicted and its other element lost |
| ListCommands.ExpiredElementsComeBack | command/src/command.rs:1275-1315 | moving x onto an expired list of y shows x and y |
| ListCommands.ElementIsLost | command/src/command.rs:1304-1308 | a state in which the element is popped and the push refused |
| ListCommands.RotationConserved | command/src/command.rs:1275-1315 | a list rotated onto itself keeps its elements |
| SortedSetOrder.CmpFlip | database/src/zset.rs:81-94 | swapping the arguments flips the comparison, upper boundaries included |
| SortedSetOrder.CmpEqual | database/src/zset.rs:81-94 | only identical members compare equal |
| SortedSetOrder.CmpMeaning | database/src/zset.rs:82-94 | stored members are ordered by score, and lexicographically where scores are equal |
| SortedSetOrder.CmpTransitive | database/src/zset.rs:81-94 | the comparison is transitive on stored members |
| SortedSetOrder.SortedUnique | database/src/zset.rs:109-114 | a sorted list is determined by its set of members |
| SortedSetOrder.InsertSorted | database/src/zset.rs:170-171 | insertion keeps the list sorted and adds just that member |
| SortedSetOrder.RemoveSorted | database/src/zset.rs:161 | removal keeps the list sorted and drops just that member |
| SortedSetOrder.BlockFilter | database/src/zset.rs:354-388 | the members of an interval form one block that starts after those below it |
| SortedSetRanges.BoundaryIsScore | database/src/zset.rs:260-293 | the artificial boundaries cut exactly at the score, for every member string |
| SortedSetRanges.RangeByScoreExact | database/src/zset.rs:260-293 | a score range selects precisely the members in the numeric interval, in order |
| SortedSetRanges.RangeByLexExact | database/src/zset.rs:299-336 | what a lexicographic range selects for any scores: the interval among the lowest score, and all higher scores iff the end is open |
| SortedSetRanges.RangeByLexEqualScores | database/src/zset.rs:299-336 | with equal scores it selects precisely the byte-string interval |
| SortedSetRanges.RangeIsBlock | database/src/zset.rs:354-388 | counting below and inside a range locates it in the list |
| SortedSetRanges.ScoreBlock | database/src/zset.rs:354-370 | the separately counted position is where the score range starts |
| SortedSetRanges.LexBlock | database/src/zset.rs:372-388 | the same for lexicographic ranges |
| SortedSetRanges.NormalizeRangeMeaning | database/src/zset.rs:390-443 | the pair names the requested window, forward or mirrored, and arithmetic overflows exactly on the stated requests |
| SortedSetRanges.EmptyRangeOverflows | database/src/zset.rs:430-439 | from -1 to 0 on an empty set `len - 1` underflows |
| SortedSetRanges.RenderBackwards | database/src/zset.rs:470-485 | a reply built with each score before its member and turned round keeps member and score together |
| SortedSetRanges.RenderMeaning | database/src/zset.rs:460-535 | a reply shows the members in order, each followed by its score if wanted, and nothing else |
| SortedSetRanges.PageMeaning | database/src/zset.rs:499-535 | skipping and taking in either direction shows the members at the positions that LIMIT names |
| SortedSetRanges.InScoresMeaning | database/src/zset.rs:537-580 | which numbers and infinities lie in a score interval with open, included and excluded ends |
| SortedSetRanges.BytesMeaning | database/src/zset.rs:582-650 | which byte strings lie in a lexicographic interval |
| SortedSetState.ListFollowsMap | database/src/zset.rs:109-114 | the hash map and the lost members determine the skip list |
| SortedSetState.LostAreUnlisted | database/src/zset.rs:235-258 | lost members are exactly those that the hash map has and the list has not |
| SortedSetState.LostAfterRun | database/src/zset.rs:130-388 | after any run of commands the lost members are those that a failing ZINCRBY lost and nothing settled since, and no score is NaN |
| SortedSetState.ApplyKeeps | database/src/zset.rs:130-388 | the effect of each command on the lost members |
| SortedSetState.InStepWithoutFailures | database/src/zset.rs:130-388 | without a failing ZINCRBY both representations stay in step |
| SortedSetState.DropListed | database/src/zset.rs:354-388 | range removals act on listed members only |
| SortedSetState.FailedIncrementLoses | database/src/zset.rs:235-258 | ZADD inf and then ZINCRBY -inf loses the member |
| SortedSetState.OnlyLostMembers | database/src/zset.rs:586-598 | a set whose only member is lost has an empty skip list |
| SortedSetState.ZaddReplyCounts | database/src/zset.rs:130-179 | without CH the reply tells additions; with CH it tells changes, except for updates that are idle by the flags, the given and the stored score |
| SortedSetState.IdleIncrementCounts | database/src/zset.rs:130-179 | INCR by 1 of a member at +inf is counted as a change |
| SortedSetState.ZaddRespectsFlags | database/src/zset.rs:130-179 | NX never changes a score, XX never adds a member, no flag touches another member; otherwise the score, or with INCR the sum, is stored with the reply, 0 in place of NaN where asked for, and an error otherwise |
| SortedSetState.MapFollowsFilter | database/src/zset.rs:354-388 | what leaves the hash map with the selected list members: the lost ones stay |
| SortedSet.MapOutsideScores | database/src/zset.rs:354-370 | the hash map keeps the members outside the score interval and the lost ones |
| SortedSet.MapOutsideLex | database/src/zset.rs:372-388 | the same for a lexicographic range |
| SortedSet.SortedSet.Zadd | database/src/zset.rs:130-179 | for all flags and failures the new scores and reply, and the effect on the lost members: a stored score puts the list entry back |
| SortedSet.SortedSet.Zincrby | database/src/zset.rs:235-258 | the reply and the new score; a present member whose sum is NaN becomes lost, any stored sum settles it |
| SortedSet.SortedSet.Zrem | database/src/zset.rs:342-352 | removes the member from both representations and tells whether it was there |
| SortedSet.SortedSet.RemoveBlock | database/src/zset.rs:365-368 | removing at one position `count` times removes that block, in both representations |
| SortedSet.SortedSet.Zremrangebyscore | database/src/zset.rs:354-370 | exactly the listed members inside the interval go from both representations, the others keep their order, lost ones stay |
| SortedSet.SortedSet.Zremrangebylex | database/src/zset.rs:372-388 | the same for a lexicographic range |
| SortedSet.SortedSet.Zremrangebyrank | database/src/zset.rs:445-460 | exactly the window goes, and the only panic is the stated overflow |
| SortedSet.SortedSet.Zrange | database/src/zset.rs:462-497 | the reply shows the members at the positions asked for, one by one, counted from the greatest down in reverse; panics exactly where the positions overflow or the set is empty |
| SortedSet.SortedSet.Zrank | database/src/zset.rs:637-654 | the position of a listed member, none for an absent one, and for a lost one the stated other rank, wrap-around or panic; the exact panic condition |
| SortedSet.RankMeaning | database/src/zset.rs:637-654 | `count() - 1` for listed and lost members |
| SortedSet.LostRankIsAnothers | database/src/zset.rs:637-654 | the rank a lost member is given is that of the greatest smaller one |
| SortedSet.LostRankUnderflows | database/src/zset.rs:648-653 | ZRANK of the only, lost, member underflows |
| SortedSetScan.ScannedMembers | database/src/zset.rs:190-227 | ZSCAN gives each matching member of the hash map that is not lost once, in order, with its score |
| SortedSetScan.MissedByScan | database/src/zset.rs:190-233 | a member that has a score is missed by ZSCAN iff it is lost |
| SortedSet.RankIsPosition | database/src/zset.rs:637-654 | for members that are not lost, rank i holds iff the window from i to i is that member |
| SortedSet.SortedSet.RangeReply | database/src/zset.rs:499-536 | LIMIT by position: after `offset` members, from the greatest down in reverse, as many as are left up to `count`, each followed by its score if wanted; panics in a debug build iff offset and count overflow in reverse |
| SortedSet.SortedSet.Zrangebyscore | database/src/zset.rs:538-584 | of the members in the numeric interval, the reply shows position by position those that LIMIT leaves, in reverse from the greatest down |
| SortedSet.SortedSet.Zrangebylex | database/src/zset.rs:586-635 | the same for the lexicographic interval; panics on an empty skip list |
| SortedSetAggregate.UnionSum | database/src/zset.rs:671-675 | SUM stores every member of the union with the sum of its weighted scores |
| SortedSetAggregate.UnionMax | database/src/zset.rs:676-685 | MAX stores the greatest weighted score, and drops a member iff none is above -inf |
| SortedSetAggregate.UnionMin | database/src/zset.rs:686-694 | MIN stores the least weighted score, and drops a member iff none is below +inf |
| SortedSetAggregate.UnionKeeps | database/src/zset.rs:656-699 | which members of the union are kept, for each aggregate |
| SortedSetAggregate.InfinitiesAreDropped | database/src/zset.rs:676-694 | MAX over a single -inf and MIN over a single +inf drop the member |
| SortedSetAggregate.UnionAgreesWithInter | database/src/zset.rs:656-761 | on finite weighted scores union and intersection aggregate alike |
| SortedSetAggregate.UnionOfFinite | database/src/zset.rs:656-699 | a member of finite scores is kept iff some operand holds it, with the real sum, the greatest or the least of its weighted scores |
| SortedSetAggregate.InterOfFinite | database/src/zset.rs:701-760 | a member that all operands hold gets the same |
| SortedSetAggregate.OppositeInfinities | database/src/zset.rs:656-760 | both commands store a sum of opposite infinities as 0 |
| Scores.LtMeaning | database/src/zset.rs:82-94 | which of two scores is less, with the infinities and NaN |
| Scores.AddMeaning | database/src/zset.rs:656-760 | when a sum is NaN or infinite, and the real sum otherwise |
| Scores.MulMeaning | database/src/zset.rs:656-760 | when a weighted score is NaN or infinite and with which sign, and the real product otherwise |
| SortedSetAggregate.WeightedMember | database/src/zset.rs:656-761 | a member has a weighted score per operand that holds it |
| SortedSet.SortedSet.Zunion | database/src/zset.rs:656-699 | into a new set and on finite scores: the members of all operands, each with the real sum, the greatest or the least of its scores times the weights, or of its scores alone without weights; in general the fold over them |
| SortedSet.SortedSet.Zinter | database/src/zset.rs:701-761 | the same for the members that all operands hold |
| SortedSet.ComputeInterScore | database/src/zset.rs:730-757 | the inner loop computes that fold |
| VectorIndex.AddSound | database/src/vector_index.rs:109-149 | adding keeps the two id maps mutually inverse and counted, on a node the graph never had |
| VectorIndex.RemoveSound | database/src/vector_index.rs:214-232 | removing leaves the node in the graph without a mapping |
| VectorIndex.SearchAnswers | database/src/vector_index.rs:160-199 | whatever distinct nodes the graph offers, the hits are the live documents among them, once each, true distances, ascending |
| VectorIndex.SortKeeps | database/src/vector_index.rs:194-196 | the sort orders by distance and keeps the hits |
| VectorIndex.CandidateListMeaning | database/src/vector_index.rs:174 | the candidate list is twice the neighbours asked for, at least 20, or as the caller says |
| VectorIndex.HnswVectorIndex.Add | database/src/vector_index.rs:109-149 | refuses a wrong dimension or a known document without change, otherwise maps a fresh node |
| VectorIndex.HnswVectorIndex.Remove | database/src/vector_index.rs:214-232 | unmaps the document, or refuses an unknown one without change |
| VectorIndex.HnswVectorIndex.Search | database/src/vector_index.rs:160-199 | answers as above, refuses exactly queries of a wrong dimension, and panics exactly when doubling `k` overflows in a debug build |
| QdrantCollection.DistanceRoundTrip | src/qdrant_api.rs:90-96 | the name written to disk parses back to the same metric |
| QdrantCollection.DistanceNames | src/qdrant_api.rs:90-96 | the names written, and which names in any case ask for which metric |
| QdrantCollection.FilterMeaning | src/qdrant_api.rs:434-452 | a payload is turned away by a `must` condition it fails, a `must_not` condition it meets, or `should` conditions that it all fails, and by nothing else |
| QdrantCollection.IndexHoldsPoints | src/qdrant_api.rs:67-75 | the index counts the points, exactly their nodes are mapped, and their vectors have the dimension |
| QdrantCollection.UpsertKeepsLinks | src/qdrant_api.rs:113-135 | an upsert succeeds iff the dimension is right, keeps the chain intact, and retires the superseded node for good |
| QdrantCollection.UpsertIsDeleteThenInsert | src/qdrant_api.rs:113-135 | upserting an existing point is deleting it and inserting it |
| QdrantCollection.DeleteKeepsLinks | src/qdrant_api.rs:137-144 | a deletion keeps the chain intact and retires the node for good |
| QdrantCollection.RunKeepsLinks | src/qdrant_api.rs:113-144 | after any run of upserts and deletes every live point leads to a graph node with its latest vector, and retired nodes stay retired |
| QdrantCollection.LatestDecides | src/qdrant_api.rs:113-144 | after any history a point is as its latest upsert left it, or gone |
| QdrantCollection.UnaffectedStays | src/qdrant_api.rs:113-144 | operations on other points leave a point alone |
| QdrantCollection.SnapshotRoundTrip | src/qdrant_api.rs:146-175 | rebuilding from a snapshot in any order gives the points back, none dropped |
| QdrantCollection.ReloadRestores | src/qdrant_api.rs:146-175 | a reloaded collection has the same dimension, metric and points, with an intact chain |
| QdrantCollection.DeleteByFilter | src/qdrant_api.rs:836-846 | deleting by filter removes exactly the points that pass it, in any order |
| QdrantCollection.SurvivorsAreEligible | src/qdrant_api.rs:721-752 | the rows are the live, passing, offered points with the score of their current vector |
| QdrantCollection.FirstRowsAreBest | src/qdrant_api.rs:721-752 | cutting at the limit keeps the best eligible points, best first |
| QdrantCollection.RowsAreWanted | src/qdrant_api.rs:726-752 | the best rows have the payload and the score of their point and the payload passes the filter, condition by condition |
| QdrantCollection.WantedHaveRows | src/qdrant_api.rs:726-752 | no offered point that passes the filter, condition by condition, is missed, unless the limit is used up by nearer ones |
| QdrantCollection.FetchMeaning | src/qdrant_api.rs:714-723 | with a filter 16 more neighbours are asked for than the limit, or four times it from 6 on |
| QdrantCollection.LimitKept | src/qdrant_api.rs:748-750 | the limit is kept iff it is at least 1 or nothing is eligible |
| QdrantCollection.HugeLimitsPanic | src/qdrant_api.rs:714-723 | 2^62 with a filter and 2^63 without one overflow in a debug build |
| QdrantCollection.LimitZeroReturnsOne | src/qdrant_api.rs:748-750 | limit 0 over one point returns it |
| QdrantCollection.Collection.constructor | src/qdrant_api.rs:78-88 | a new collection is empty |
| QdrantCollection.Collection.Upsert | src/qdrant_api.rs:113-135 | the whole new state and the reply |
| QdrantCollection.Collection.DeleteById | src/qdrant_api.rs:137-144 | the whole new state |
| QdrantCollection.Collection.UpsertPoints | src/qdrant_api.rs:643-648 | a batch stops at the first wrong dimension and keeps what came before it |
| QdrantCollection.Collection.DeletePoints | src/qdrant_api.rs:836-846 | the passing points are collected first and deleted in some order |
| QdrantCollection.Collection.ToPersisted | src/qdrant_api.rs:146-161 | the snapshot lists every point once, in some order |
| QdrantCollection.Collection.FromPersisted | src/qdrant_api.rs:165-175 | the collection is the run of upserts of the snapshot |
| QdrantCollection.Collection.QueryPoints | src/qdrant_api.rs:693-756 | every row is an offered live point with its payload and score whose payload meets each `must`, no `must_not` and, if there are any, some `should` condition; every such point has a row or the limit is used up by rows at least as near; nearest first, no point twice; panics in a debug build exactly for the stated limits |
| QdrantCollection.Collection.CollectRows | src/qdrant_api.rs:726-752 | the loop with its breaks returns the first survivors of the filter, whose meaning `FilterMeaning` states |
| Keyspace.EvictAllKeeps | database/src/lib.rs:2475-2511 | keys that are not evicted keep value, deadline and access time; evicted ones lose all three; watches stay |
| Keyspace.IneligibleSurvive | database/src/lib.rs:2330-2340 | keys that the policy does not offer always survive |
| Keyspace.EvictedOnce | database/src/lib.rs:2314-2405 | every evicted key was eligible at the start and goes once |
| Keyspace.EvictedFirst | database/src/lib.rs:2362-2379 | under LRU and TTL no surviving eligible key has a lower score than an evicted one; `EvictionByName` says what that means in deadlines and access times |
| Keyspace.EvictionByName | database/src/lib.rs:2303-2410 | under volatile-ttl evicted keys had a deadline and none that stays an earlier one; under the LRU policies none that stays was accessed earlier; under the volatile policies keys without a deadline stay; under other names nothing goes; keys of other databases stay |
| Keyspace.OfferedByName | database/src/lib.rs:2330-2340 | the allkeys policies offer every key of the database, the volatile ones those with a deadline, other names none |
| Keyspace.PolicyNames | database/src/lib.rs:2310-2345 | the policy names, read in any case |
| Keyspace.EvictMeaning | database/src/lib.rs:2395-2401 | an eviction is a removal, counted iff the key still showed a value |
| Keyspace.Shows | database/src/lib.rs:2174-2440 | a key shows its value iff it is stored and its deadline is still to come, or a dump is loaded |
| Keyspace.SizeMeaning | database/src/lib.rs:2225-2292 | the estimated size of a key with a list, element by element |
| Keyspace.RemoveMeaning | database/src/lib.rs:2475-2511 | removal forgets the key and touches no other; the memory of a value that still shows is given back |
| Keyspace.KeyWatchMeaning | database/src/lib.rs:2632-2655 | `key_watch` adds one pair of key and client to the watches |
| Keyspace.KeyUpdatedMeaning | database/src/lib.rs:2659-2680 | `key_updated` ends the watches on the key and no other, and removes the key iff it is empty |
| Keyspace.ClearMeaning | database/src/lib.rs:2530-2543 | exactly the keys of the named database go, with their deadlines, and exactly the watches on its present keys end |
| Keyspace.ContainsMeaning | database/src/lib.rs:2296 | the policy contains "lru" iff some slice of it is that |
| Text.LowercaseMeaning | database/src/lib.rs:2309 | capital ASCII letters become small and nothing else changes |
| Accesses.ActRecords | database/src/lib.rs:2295-2300 | which operations note an access, forget a key, or leave the access times alone |
| Accesses.TimesAreLatest | database/src/lib.rs:2295-2300 | if accesses are noted, a key has the time of its latest access since it was last removed, and no time without one |
| Accesses.NoTimes | database/src/lib.rs:2295-2300 | otherwise no key ever has a time |
| Accesses.ScoresNeedLowerCase | database/src/lib.rs:2296-2345 | under an LRU policy the scores are the times of the latest accesses iff the policy contains "lru" in lower case |
| Accesses.UpperCaseScoresNothing | database/src/lib.rs:2296-2345 | under ALLKEYS-LRU every key scores 0, whatever was accessed |
| Database.Database.Remove | database/src/lib.rs:2475-2511 | the whole new state; an expired value is not returned and its memory not given back |
| Database.Database.EvictKeys | database/src/lib.rs:2303-2410 | terminates; true iff there is no limit or the memory fits it; which keys go and which stay under each policy name, by deadline and by access time; it fails with an eligible key left iff a random policy looks at no samples and eviction was needed; every eviction was needed |
| Database.NoSamplesKeepsTheKey | database/src/lib.rs:2378-2393 | a state in which that happens |
| Database.Database.Candidates | database/src/lib.rs:2319-2354 | lists exactly the eligible keys with their scores; `OfferedByName` and `EvictionByName` say which those are and what the scores do |
| Database.Database.Select | database/src/lib.rs:2361-2393 | picks a candidate of least score, or under the random policies the smallest of some samples, and none without samples |
| Database.Database.EvictOne | database/src/lib.rs:2395-2401 | the chosen key goes, and counts as evicted unless it had expired |
| Database.Database.GetOrCreate | database/src/lib.rs:2561-2612 | the key then has a value; evictions happen only for a new key |
| Database.PlaceMeaning | database/src/lib.rs:2561-2612 | the key keeps its value or gets `Nil`; memory, peak and access time in every case; other keys stay as they are |
| Database.DropDeadlineMeaning | database/src/lib.rs:2561-2568 | the deadline of the key is dropped iff it has passed and no dump is loaded |
| Database.ExpiredValueComesBack | database/src/lib.rs:2561-2568 | the value handed out is what a read would have shown iff no expired value is still stored |
| Database.ExpiredListIsHandedOut | database/src/lib.rs:2561-2568 | an expired list is not read and yet handed out |
| Database.Database.KeyWatch | database/src/lib.rs:2632-2642 | adds the client to the key's watchers |
| Database.Database.KeyWatchVerify | database/src/lib.rs:2650-2655 | tells whether the client still watches the key |
| Database.Database.KeyUpdated | database/src/lib.rs:2659-2680 | drops an emptied value and every watch on the key |
| Database.Database.Clear | database/src/lib.rs:2530-2543 | empties one database; the watches on its present keys go, those on absent keys stay |
| Scan.Scan | database/src/lib.rs:2986-3017 | one call returns the matching elements of its page and the next cursor |
| Scan.PageElements | database/src/lib.rs:2998-3015 | a page holds the matching elements up to the next cursor, or up to the end when the cursor is 0 |
| Scan.WalkIsTheRest | database/src/set.rs:126-155 | from any cursor the pages are the matching elements from there on |
| Scan.WalkIsComplete | database/src/zset.rs:190-227 | for every count from 1 on, following the cursors from 0 terminates and gives every matching element once, in order, each with its score |
| Scan.WalkVisitsEachOnce | database/src/set.rs:126-155 | for every iteration order the pages list the matching members of the collection, each once |
| Scan.AcceptedCountsComplete | command/src/command.rs:2820-2841 | no COUNT that the commands accept makes a page panic or the walk incomplete |
| Scan.CountOfValues | command/src/command.rs:2820-2841 | COUNT is 10 if absent or 0, and refused if negative |
| Scan.ZeroCountStops | database/src/lib.rs:2998-3016 | called with count 0, `scan` ends at once, which is complete iff nothing matches |
| TransactionSpec.Command | command/src/command.rs:5214-5271 | in every state the queue is empty outside MULTI and holds no transaction command; a queueable command never leaves MULTI set or the watch set changed, whether it replies, gives an `Err` or panics |
| TransactionSpec.RunQueue | command/src/command.rs:4449-4453 | the queue yields one reply per command, or unwinds at the first `Err` or panic |
| TransactionRuns.WatchRegisters | command/src/command.rs:4386-4402 | WATCH of any number of keys puts each of them, in the selected database, into the client's watch set and the client into the watchers of each, and changes nothing else |
| TransactionRuns.TransactionCommands | command/src/command.rs:4419-4465 | what UNWATCH, MULTI, EXEC and DISCARD do in the states in which they are refused or need no queue; WATCH and UNWATCH inside MULTI are errors that change nothing |
| TransactionRuns.Authentication | command/src/command.rs:5219-5244 | a client without the password is refused everything but AUTH, which grants exactly the password; without a password to ask for everything is let in and AUTH refused |
| TransactionRuns.SelectSets | command/src/command.rs:5264-5272 | which indices SELECT accepts, and that it sets them |
| TransactionRuns.OtherRuns | command/src/command.rs:5272-5275 | any other command outside MULTI has the effect and the ending that its handler decides on, or panics without effect where there is no database |
| TransactionRuns.SubscriptionsReplyElsewhere | command/src/command.rs:3024-3088 | commands about subscriptions answer with an `Err`, but a SUBSCRIBE to nothing with an error reply |
| TransactionRuns.CommandExecutes | command/src/command.rs:4440-4454 | every command but WATCH changes the keyspace by the operations of its handler, or of the handlers of its queue, and by nothing else |
| TransactionRuns.OpsEndWatches | database/src/lib.rs:2530-2680 | a series of operations ends exactly the watches on the keys that it updates |
| TransactionRuns.StepWatchSet | command/src/command.rs:5488-5511 | after a move a key is in a client's watch set iff the move is its WATCH of it, or it was in and the move is no UNWATCH, EXEC or DISCARD of that client |
| TransactionRuns.StepVerify | command/src/command.rs:5488-5511 | after a move a watch verifies iff the move is that client's WATCH, or it verified and the move does not update the key |
| TransactionRuns.LatestWatch | command/src/command.rs:4386-4402 | a watched key has a latest WATCH among the moves |
| TransactionRuns.CurrentMeansNotUpdated | database/src/lib.rs:2650-2680 | for a watched key, having a WATCH after which no move updated it means that no move updated it since the latest WATCH |
| TransactionRuns.WatchesAfterRun | database/src/lib.rs:2632-2680 | after every run the watch set holds the keys that were watched and not drained since, and `key_watch_verify` answers whether a WATCH was followed by no update, despite reused ids |
| TransactionRuns.Run | command/src/command.rs:5488-5511 | in every reachable state the queue of a client is empty outside MULTI and holds no transaction command |
| TransactionRuns.ExecRunsIffNotStale | command/src/command.rs:4440-4454 | after every run of moves that did not end in a panic, EXEC runs its queue iff no key that the client's WATCH requests named, since its last UNWATCH, EXEC or DISCARD, was updated after its latest WATCH; otherwise it answers nil and leaves the database alone |
| TransactionRuns.QueueingChangesNothing | command/src/command.rs:5254-5263 | inside MULTI commands pile up in order and nothing else changes |
| TransactionRuns.QueueIsEach | command/src/command.rs:4449-4453 | EXEC unwinds iff one of the commands run one by one panics or gives an `Err`; if none gives an `Err` it has their effect and replies, also when it unwinds |
| TransactionRuns.MultiThen | command/src/command.rs:5246-5263 | MULTI, commands and one last request, in one equation |
| TransactionRuns.TransactionIsSequence | command/src/command.rs:4431-4454 | MULTI, commands, EXEC has the effect of the commands and replies with their replies; it unwinds iff one panics or gives an `Err`, and where they would not iff none panics and one gives an `Err` |
| TransactionRuns.SubscribeUnwindsExec | command/src/command.rs:3023-3050 | MULTI, SUBSCRIBE, EXEC unwinds although nothing waits |
| TransactionRuns.PanicUnwindsExec | command/src/command.rs:4449-4453 | a command that panics unwinds its EXEC, having done what it does by itself |
| LtrimCommand.Ltrim | command/src/command.rs:1602-1615 | the command updates the database, replies or panics as its handler says |
| LtrimCommand.TrimItems | database/src/list.rs:177-209 | what it leaves of the list, and when it panics |
| LtrimCommand.LtrimList | command/src/command.rs:1602-1615 | on a list the command leaves its window, drops it when that is empty and updates the key, or panics with the list cut short and the key not updated |
| LtrimCommand.LtrimOther | command/src/command.rs:1602-1615 | on anything else it returns and updates the key, and an expired or empty value goes |
| LtrimCommand.LtrimUnwindsExec | command/src/command.rs:1602-1615 | MULTI, LTRIM k 2 0, EXEC on three elements unwinds with one element left |
| TransactionRuns.SelectedIndex | command/src/command.rs:5264-5272 | no command selects an index beyond `databases` |
| TransactionRuns.SelectThenAccess | command/src/command.rs:5264-5272 | after an accepted SELECT, WATCH panics iff the index is `databases`, and another command that looks into the database iff that or by itself |
| TransactionRuns.SelectSixteenThenWatch | command/src/command.rs:5264-5272 | SELECT 16 of 16 databases is answered OK, and WATCH then panics |
| TransactionRuns.DiscardIsNothing | command/src/command.rs:4456-4465 | MULTI, commands, DISCARD leaves everything as it was but the watches |
| Transactions.Client.Watch | command/src/command.rs:4386-4402 | registers the client with every key and the keys with the client, or panics at once when there is no such database |
| Transactions.Client.GenericUnwatch | command/src/command.rs:4404-4417 | empties the watch set and tells whether every key verified, for every drain order and despite the early exit |
| Transactions.Client.Discard | command/src/command.rs:4456-4465 | the whole new client state |
| Transactions.Client.Exec | command/src/command.rs:4440-4454 | the recursion through `command` terminates and does what the specification says |
| Transactions.Client.RunAll | command/src/command.rs:4449-4453 | the loop over the queue |
| Transactions.Client.ExecuteCommand | command/src/command.rs:5214-5271 | the dispatch refines the specification, on the shared database and the client |

## Left out

- Floating point: rounding, negative zero (ZADD compares bit patterns) and overflow of a sum to infinity.
- Skip list, HNSW graph, hash maps, std sorting: taken at their documented behaviour; search quality is open.
- Counters: `next_uid`, `next_id`, memory and eviction counters do not overflow in the model.
- SetValue.GetRandomPositions: draws that repeat are skipped, so the rejection loop is taken to end; duplicates allowed, as SRANDMEMBER asks for with a negative count, are not modelled.
- VectorIndex.HnswVectorIndex.Search: distances are reals, so the fallback for incomparable distances does not occur, and `k` and `ef_search` only choose what the graph offers.
- SortedSet.SortedSet.Zrangebyscore: the bounds are not NaN, which the command parser refuses; the same holds for Zremrangebyscore.
- QdrantCollection.Collection.FromPersisted: the graph parameter `m` is not persisted and not modelled.
- QdrantCollection.Collection.QueryPoints: how a condition matches a payload is a parameter, and distance names are lowercased as ASCII only.
- QdrantCollection.Collection.UpsertPoints: writing the snapshot to disk, which is skipped when a batch fails, is not modelled.
- Database.Database.EvictKeys: the estimated size is opened up for lists only, and the clock may have any reading at each eviction.
- Database.Database.KeyUpdated: subscribers, notifications and rehashing are not modelled.
- ListCommands.GenericRpoplpush: the clock has one reading during the command.
- SortedSet.SortedSet.Zrange: how a score is printed is a parameter.
- Scan.Scan: the pattern is a parameter, and so is whether a reply carries a score.
- TransactionSpec.Command: what commands other than the transaction commands do is a parameter, decided from the keyspace and the selected database; replies are told apart only where transactions depend on them; who is subscribed to what is not kept.
- TransactionRuns.Run: client ids of connected clients are distinct, and each request runs alone on the database, as the server's lock provides; a panic poisons that lock, after which connections close at their next request.
- Blocking pops, publish and subscribe, AOF and the slow log, replication, RDB encoding, configuration, HTTP and gRPC.
- Hashes, bloom filters, HyperLogLog, SORT, BITCOUNT, BITPOS: they would add only easy members or lie in external code.
- The exactness of the used-memory counter, which the code keeps approximate by design.
