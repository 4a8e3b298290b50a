# Verified models of serviceframe's stateful headers

Dafny models of the parts of `common/` that keep state or build and read text, with proofs of what callers rely on.
`dafny verify dfyconfig.toml` checks everything.

| files | what they model |
|---|---|
| `BlockArithmetic`, `BlockLedger`, `BlockBuffer` | `BlockBuffer`: a byte buffer in whole blocks, its class-wide counters, its allocator |
| `ForwardBuffer` | `ForwardBuffer`: a cursor that erases the front of a buffer late |
| `PopulationModel`, `Population` | any number of buffers of one class, and any interleaving of what is done to them |
| `WatchTable`, `Notification`, `WatchHelper` | `WatchHelper`: a fixed table of watchers and its notification loops |
| `ListText`, `MySet` | the list printers of MySQL++, `set2container`, and `Set` |
| `Conversion` | `ColData::conv` for the signed integer types, and the conversion to `Null` |
| `Iterators`, `ResultCursor`, `RowConsumers` | subscript iterators, result cursors, and the loops of `Query` that consume rows |
| `QueryText` | the INSERT statements of `Query` |
| `WordArithmetic`, `Hashers` | the three integer hashes, over words of any width |

## How the block buffer is put together

`Pool` holds what all buffers of one instantiation share. Its ghost `steps` records what buffers did (construct, grow, be
refused, give back, be destroyed); `calls` is the allocator's own log, written only by `OrderedMalloc` and `OrderedFree`.
`BlockLedger.Run` computes from `steps` which buffer holds what, the counters and the calls there must have been, and
`Pool.Valid` says that the real counters and the real log agree with it. `BlockLedger` proves, for all runs, what such
books satisfy. Each operation states its effect on the bytes, the exact step it adds (`Granted`: least block count,
success exactly when there is room or the allocator grants it), and that every other live buffer keeps its bytes
(`OthersKept`). Buffers and storage have numbers, so that the books are plain values.

`PopulationModel` is a population without storage, counters or allocator: for each buffer its bytes and its number of
blocks, and what each event makes of them given the allocator's answer. `Population.RunAll` shows that real buffers on
the heap, cursors included, follow it over any run, and that the class-wide counter and peak are its total and the
largest total on the way.

## What turned out different from what is documented or might be expected

- `value_list_b` and `equal_list_b` document plain omission of suppressed items. The code prints a leading delimiter when
  item 0 is suppressed and a later one is not (`SparseIsSelectedWhen` gives the exact condition).
- The `ColData` comment says that "12.86" in an integer context is 12. `conv` refuses that text (`CommentExampleIsRefused`).
- A granted `reserve(n)` need not give a capacity of `n`: `Reserve` states the exact condition, `ReserveFallsShort` a
  buffer for which it fails.
- A failed `replace` keeps only the bytes before `pos` when `pos < size()`.
- A `ForwardBuffer` that erased nothing gives back the storage of a buffer that was empty but held storage; a plain buffer
  would have kept it. This is the only difference (`SameBlocksInTheEnd`).
- A watcher that another callback revokes and watches again during a pass can be called twice or not at all
  (`CanBeCalledTwice`). It is called exactly once if and only if it comes back on the side of the loop that it was taken
  from (`ReturnedToItsSide`); a newcomer is called if and only if the first hole is ahead of the loop (`ReturnedAtHole`).
  `CallsInPass` is the law for all passes.
- `subscript_iterator`'s `!=` is not the negation of `==` across containers (`Trichotomy`).
- A result of 2^32 rows or more is walked only up to its wrapped size (`Walk`).

## Model

| member | source | states |
|---|---|---|
| BlockArithmetic.LeastBlocks | common/blockbuffer.h:219-223 | `BlocksFor` is the least block count that holds the bytes |
| BlockArithmetic.GrowthIsLeast | common/blockbuffer.h:215-223 | crediting free space first, dividing and rounding up arrives at that least count |
| BlockArithmetic.BlocksNeeded | common/blockbuffer.h:215-223 | the computation in `size_t` yields the least count and never overflows |
| BlockArithmetic.ReserveReaches | common/blockbuffer.h:153-156 | a granted `reserve(n)` reaches capacity `n` exactly when less was free than `n` needs in its last block |
| BlockLedger.FreedOnce | common/blockbuffer.h:24-27 | in a disciplined log storage is handed out at most once, and freed once exactly if no longer outstanding |
| BlockLedger.FreedAsAllocated | common/blockbuffer.h:24-27 | every free is of storage handed out with the same block count |
| BlockLedger.GrowKeepsSound | common/blockbuffer.h:226-240 | growth keeps ownership one to one, the counter equal to the sum, the peak equal to the maximum |
| BlockLedger.ReleaseKeepsSound | common/blockbuffer.h:126-135 | giving storage back keeps them too |
| BlockLedger.StepKeepsSound | common/blockbuffer.h:69-70 | so does every step of any buffer |
| BlockLedger.RunIsSound | common/blockbuffer.h:99-100 | over every run of any population: conservation of blocks, peak as the largest value ever, ownership as a bijection |
| BlockLedger.PeakFollows | common/blockbuffer.h:235-237 | from step to step the peak is the larger of itself and the counter |
| BlockLedger.NothingLeaks | common/blockbuffer.h:126-135 | when all buffers are gone nothing is outstanding, the counter is 0, each allocation was freed exactly once with its count |
| BlockBuffers.ErasedAt | common/blockbuffer.h:189-204 | byte by byte, for every `n`: what is before `pos` stays, `n` bytes or all that are left go, the rest moves down |
| BlockBuffers.PaddedAt | common/blockbuffer.h:159-170 | byte by byte: old bytes as far as they reach, then the fill byte |
| BlockBuffers.OverwrittenAt | common/blockbuffer.h:173-186 | position by position what `replace` leaves, also beyond the end |
| BlockBuffers.UndoneBytes | common/blockbuffer.h:138-204 | append, padding, insertion and overwriting are each undone by one further operation |
| BlockBuffers.Pool.OrderedMalloc | common/blockbuffer.h:24-25 | may refuse; otherwise new storage of exactly the bytes asked for; both are logged |
| BlockBuffers.Pool.OrderedFree | common/blockbuffer.h:26-27 | takes only outstanding storage with its own block count |
| BlockBuffers.Pool.AddBlocks | common/blockbuffer.h:235-237 | the counter rises by the blocks gained and the peak follows it |
| BlockBuffers.BlockBuffer.constructor | common/blockbuffer.h:69 | an empty live buffer; the others stay live |
| BlockBuffers.BlockBuffer.GiveBackStorage | common/blockbuffer.h:126-135 | what is held is returned once, with its count, and the counter falls by it |
| BlockBuffers.BlockBuffer.Destroy | common/blockbuffer.h:70 | the buffer leaves the books; every other live buffer keeps its bytes |
| BlockBuffers.BlockBuffer.MoveInto | common/blockbuffer.h:229-240 | bytes copied, old storage freed, counters and fields in step with the books |
| BlockBuffers.BlockBuffer.IncreaseCapacity | common/blockbuffer.h:206-242 | contents kept; a need up to the capacity or beyond `max_blocks * blocksize` asks nobody, any other makes exactly one request, for the least count; a refusal changes nothing else |
| BlockBuffers.BlockBuffer.Append | common/blockbuffer.h:138-150 | old bytes and new ones on success, old bytes on failure; which of the three it is, and the request made, in terms of `max_blocks * blocksize` |
| BlockBuffers.BlockBuffer.Reserve | common/blockbuffer.h:153-156 | contents kept; asks for room beyond the size; exactly when a granted call reaches capacity `n` |
| BlockBuffers.ReserveFallsShort | common/blockbuffer.h:153-156 | a buffer on which a granted `reserve(n)` leaves less than `n` |
| BlockBuffers.BlockBuffer.Resize | common/blockbuffer.h:159-170 | cut or padded on success, byte by byte; unchanged on failure |
| BlockBuffers.BlockBuffer.Replace | common/blockbuffer.h:173-186 | overwritten, extended or appended; a failure leaves the prefix before `pos`, or everything when `pos` is not inside |
| BlockBuffers.BlockBuffer.Erase | common/blockbuffer.h:189-204 | bytes deleted, byte by byte and for every `n`, also beyond the end; storage given back exactly when emptied and not held |
| BlockBuffers.BlockBuffer.Apart | common/blockbuffer.h:102-104 | live buffers of one pool never share storage |
| BlockBuffers.BlockBuffer.OtherIsKept | common/blockbuffer.h:99-104 | a step of one buffer leaves another one live |
| BlockBuffers.CountersMatchBuffers | common/blockbuffer.h:89-100 | for live objects: counter = sum of their block counts, peak = maximum ever, outstanding storage = what they hold |
| ForwardBuffers.AdvanceErasesVisible | common/blockbuffer.h:254-263 | one lazy erase is an eager erase of the visible bytes |
| ForwardBuffers.LazyRefinesEager | common/blockbuffer.h:244-269 | for any sequence of erases visible bytes and final bytes are those of a plain buffer, which is never emptied on the way |
| ForwardBuffers.FrontIsKept | common/blockbuffer.h:254-265 | all that was taken off the front is still there before the cursor, in order, and the rest follows it |
| ForwardBuffers.FrontCutsSplit | common/blockbuffer.h:254-260 | what cuts at the front took and what they left are what there was |
| ForwardBuffers.EagerBlocksEnd | common/blockbuffer.h:189-204 | a plain buffer loses its blocks exactly if erases emptied it |
| ForwardBuffers.SameBlocksInTheEnd | common/blockbuffer.h:249 | both end with equally many blocks, except for no erase of an empty buffer that holds storage |
| ForwardBuffers.ForwardBuffer.Erase | common/blockbuffer.h:254-263 | at the front the cursor moves and no byte does; elsewhere bytes go and the cursor stays; no storage is given back while it lives, other buffers keep theirs |
| ForwardBuffers.ForwardBuffer.Destroy | common/blockbuffer.h:249 | the skipped front is erased; storage goes exactly if nothing is left; other buffers keep theirs |
| ForwardBuffers.ForwardBuffer.Release | common/blockbuffer.h:265 | detached: the destructor then may change nothing |
| ForwardBuffers.EraseLazily | common/blockbuffer.h:254-263 | a living cursor after any cuts: what is visible, and every byte that is there |
| ForwardBuffers.ConsumeAndRelease | common/blockbuffer.h:244-269 | a cursor released before its end leaves the front in place; after front cuts only, the buffer as it was |
| ForwardBuffers.EraseEach | common/blockbuffer.h:189-204 | the plain buffer of the comparison: the same erases on a real buffer give its bytes and blocks |
| ForwardBuffers.Consume | common/blockbuffer.h:244-269 | the whole life of a cursor does to a real buffer what the same erases do directly (`EraseEach`), and nothing to others |
| PopulationModel.BytesFollowAnswers | common/blockbuffer.h:138-204 | bytes depend on events and the allocator's answers, never on block size or who holds how many blocks |
| PopulationModel.TotalIsSum | common/blockbuffer.h:89-100 | the model's total is the sum that the books keep |
| Populations.Population.Add | common/blockbuffer.h:69 | one more buffer, empty; all others as they were |
| Populations.Population.Act | common/blockbuffer.h:138-204 | the buffer's bytes and blocks become what the model says of the answer, which was a possible one, and a refusal of what would have fitted is on record; all others as they were |
| Populations.Population.Remove | common/blockbuffer.h:70 | the buffer is gone; all others as they were, in order |
| Populations.Population.CurrentIsTotal | common/blockbuffer.h:89-100 | the class-wide counter is the blocks of all buffers together |
| Populations.Population.RunAll | common/blockbuffer.h:61-111 | any interleaving on any number of buffers ends as the model says of the answers given; exactly as many refusals go on record as answers deny what would have fitted; the counter is its last total, the peak the largest of the totals and the peak before; at the end nothing leaks |
| WatchTable.FullWithoutHole | common/watch_helper.h:21-29 | distinct watchers fill the table exactly when there is no hole |
| WatchTable.WatchInserts | common/watch_helper.h:18-32 | insertion: idempotent, moves nobody, fails exactly when the table is full of others |
| WatchTable.RevokeRemoves | common/watch_helper.h:34-42 | removal: everyone else stays in place |
| WatchTable.RunRefinesSet | common/watch_helper.h:18-49 | over any run slots stay distinct and stand for a bounded set |
| WatchTable.ReturnedToFirstHole | common/watch_helper.h:21-28 | a watcher let in takes the first hole and keeps it |
| WatchTable.RenewedIsNotLater | common/watch_helper.h:21-28 | revoking and watching again takes a slot not behind the one left |
| WatchHelpers.WatchHelper.Watch | common/watch_helper.h:18-32 | nothing if there already, the first hole if not, and `assert(false)` exactly if there is none |
| WatchHelpers.WatchHelper.Revoke | common/watch_helper.h:34-42 | the array afterwards |
| WatchHelpers.WatchHelper.ClearWatcher | common/watch_helper.h:44-49 | the array afterwards |
| WatchHelpers.WatchHelper.FindInArray | common/watch_helper.h:146-152 | whether the watcher is in some slot |
| WatchHelpers.WatchHelper.ForEachWatcher | common/watch_helper.h:137-142 | table and calls of the pass, with callbacks that operate on the table while the loop runs; idle callbacks leave it alone |
| Notification.EveryCallIsCurrent | common/watch_helper.h:51-56 | whatever callbacks do: each call goes to a watcher registered then, slots go upwards, at most as many calls as slots |
| Notification.OnlyCallbacksChange | common/watch_helper.h:137-142 | at every moment of a pass the table is what the callbacks so far made of the first one |
| Notification.TableAfterPass | common/watch_helper.h:137-142 | afterwards, and at each call, the table is the first one after all operations of the calls before, in order |
| Notification.QuietPass | common/watch_helper.h:137-142 | callbacks that do nothing leave every slot as it was |
| Notification.NobodyComesUncalled | common/watch_helper.h:137-142 | whoever is registered at the end was so at the start or was let in by a callback |
| Notification.CalledOnceIfAhead | common/watch_helper.h:51-56 | at any moment, a watcher nobody removes is called once more if ahead of the loop and not at all if behind it |
| Notification.StayersCalledOnce | common/watch_helper.h:137-142 | in a whole pass each watcher that stays, or only renews itself, is called exactly once |
| Notification.SlotNeverMoves | common/watch_helper.h:18-49 | a watcher nobody removes keeps its slot at every call of the pass |
| Notification.CallsAreGains | common/watch_helper.h:137-142 | at any moment of any pass: calls made and due are balanced by what callbacks bring ahead of the loop or take from there |
| Notification.CallsInPass | common/watch_helper.h:137-142 | whatever callbacks do, a watcher is called once if registered at the start, plus gains, minus losses |
| Notification.ReturnedAtHole | common/watch_helper.h:18-32 | a watcher let in by a callback is called afterwards exactly if the first hole is ahead of the loop |
| Notification.ReturnedOnce | common/watch_helper.h:18-49 | the number of calls, at any moment, of a watcher that one callback takes out and lets in again |
| Notification.ReturnedToItsSide | common/watch_helper.h:137-142 | in a whole pass such a watcher is called once, twice or never exactly by where it was and where the hole is |
| Notification.CanBeCalledTwice | common/watch_helper.h:137-142 | a concrete pass in which a watcher another callback removes and returns is called twice |
| ListText.JoinByParts | common/mysql++/vallist.h:329-344 | nothing, one text, and the delimiter between two lists: this fixes what a join is |
| ListText.OnlyRendered | common/mysql++/vallist.h:337-341 | the items printed are what the manipulator makes of each, in order |
| ListText.OnlyPairs | common/mysql++/vallist.h:278-285 | the pairs printed are left side, `equl`, manipulated right side, up to the end of the shorter list |
| ListText.PickedAt | common/mysql++/vallist.h:352-372 | the selected items, each behind as many as there are flags before its own, and no others |
| ListText.PrintValues | common/mysql++/vallist.h:329-344 | the join of the manipulated items |
| ListText.PrintSomeValues | common/mysql++/vallist.h:352-372 | the sparse text of the items and the mask |
| ListText.PrintPairs | common/mysql++/vallist.h:272-288 | the join of the pairs, cut to the shorter list |
| ListText.PrintSomePairs | common/mysql++/vallist.h:296-317 | the sparse text of those pairs |
| ListText.FullMaskIsDense | common/mysql++/vallist.h:352-372 | with nothing suppressed the sparse text is the join |
| ListText.SparseIsSelectedWhen | common/mysql++/vallist.h:347-372 | the text is the join of the selected items exactly when item 0 is selected, none is, or the delimiter is empty; otherwise one delimiter precedes it |
| ListText.LeadingDelimiterExample | common/mysql++/vallist.h:352-372 | a mask for which it is not |
| ListText.Set2Container | common/mysql++/myset.h:132-150 | inserts the comma-separated pieces of the text up to its NUL, in order |
| ListText.OnePieceMoreThanCommas | common/mysql++/myset.h:132-150 | as many inserts as commas, and one |
| ListText.JoinOfSplit | common/mysql++/myset.h:132-150 | splitting loses nothing: joining the pieces gives the text |
| ListText.SplitInvertsJoin | common/mysql++/vallist.h:329-344 | a printed list is taken apart into itself exactly when no item has a comma or a NUL |
| MySets.LessIsLexicographic | common/mysql++/myset.h:71-76 | the order of the set is that of the first difference, stated on positions |
| MySets.AllInOrder | common/mysql++/myset.h:71-76 | any two elements of a set are so ordered |
| MySets.SortedIsUnique | common/mysql++/myset.h:71-76 | elements determine the set's representation |
| MySets.InsertedAllIsSet | common/mysql++/myset.h:46-55 | inserting pieces gives the ordered set of them |
| MySets.FromTextIsSet | common/mysql++/myset.h:79-88 | what is read from a text is the ordered set of its pieces, never empty |
| MySets.PrintThenParse | common/mysql++/myset.h:79-116 | a set read from its own text, NUL and all, is itself exactly when no element has a comma or a NUL |
| MySets.ParseThenPrintThenParse | common/mysql++/myset.h:79-116 | for every text: parse, print, parse is parse |
| MySets.MySet.FromString | common/mysql++/myset.h:79-88 | the constructors build the ordered set of the pieces |
| MySets.MySet.Insert | common/mysql++/myset.h:46-55 | adds the element and keeps the set in lexicographic order, without duplicates |
| MySets.MySet.OutStream | common/mysql++/myset.h:98-112 | the elements in order, joined by commas |
| MySets.MySet.ToString | common/mysql++/stream2string.h:43-51 | that text and a final NUL |
| Conversion.BlanksGo | common/mysql++/coldata.h:364-365 | blanks go, every other character stays |
| Conversion.RangesInFigures | common/mysql++/convert.h:67-87 | the ranges of the types; `strtol` stops at the nearest end of `long` |
| Conversion.NarrowWraps | common/mysql++/convert.h:67-87 | a value too wide for the type wraps around |
| Conversion.NumeralInCharacters | common/mysql++/coldata.h:361-382 | which characters make up a numeral with its fraction |
| Conversion.StrtolOfNumeral | common/mysql++/convert.h:67-87 | value and end of `strtol` on a numeral |
| Conversion.Conv | common/mysql++/coldata.h:361-382 | result or exception of the conversion code, for each signed type |
| Conversion.AcceptsExactly | common/mysql++/coldata.h:361-382 | on every text: success with `v` exactly when the text denotes a number that narrows to `v` |
| Conversion.ScanIsLongest | common/mysql++/coldata.h:361-382 | the scan ends behind the longest prefix that denotes a number |
| Conversion.RefusesExactly | common/mysql++/coldata.h:361-382 | on every text: refused exactly when something follows that prefix, and the exception gives its length |
| Conversion.DigitsByName | common/mysql++/coldata.h:361-382 | digits by their usual names, in base ten |
| Conversion.PrintedIsReadBack | common/mysql++/coldata.h:361-382 | every value of the type, printed with or without a fraction of zeros, is read back |
| Conversion.DecoratedIsReadBack | common/mysql++/coldata.h:361-382 | white space other than blanks, a sign of either kind, zeros in front: every value is read back, negated for a minus |
| Conversion.CommentExampleIsRefused | common/mysql++/coldata.h:65-74 | the text of the class comment is refused at its fourth character |
| Conversion.NullIsNoNumber | common/mysql++/coldata.h:341-359 | only the text NULL is null, and it takes nothing away from the numbers |
| Iterators.DistanceThenPlus | common/mysql++/resiter.h:225-254 | adding a distance leads back, modulo 2^32 |
| Iterators.PlusThenMinus | common/mysql++/resiter.h:218-245 | adding and subtracting cancel, modulo 2^32 |
| Iterators.DistanceIsTrue | common/mysql++/resiter.h:248-254 | a distance is the true one exactly when it fits in `int` |
| Iterators.BeforeIsSteps | common/mysql++/resiter.h:149-161 | before means that steps forward without wrapping lead there; after is the converse |
| Iterators.Trichotomy | common/mysql++/resiter.h:135-161 | exactly one of the comparisons within a container, none across; `!=` negates `==` only within |
| ResultCursor.ResUse.FetchRow | common/mysql++/result.h:105-126 | next row, or the end as an exception or an empty row |
| ResultCursor.ResUse.At | common/mysql++/result.h:405-427 | row `i` from any cursor position; the next fetch gives row `i + 1` or the end |
| ResultCursor.ResUse.Size | common/mysql++/result.h:396-414 | the number of rows exactly below 2^32 of them; beyond, too few by whole multiples of 2^32, so every index below it is a row |
| ResultCursor.Walk | common/mysql++/resiter.h:94-100 | begin to end yields the rows in order whatever is fetched in between; all of them exactly when they number less than 2^32 |
| RowConsumers.AllUsable | common/mysql++/query.h:387 | the loops see all rows exactly when every row has a column |
| RowConsumers.UsableIsFront | common/mysql++/query.h:387 | the loops see the rows in front of the first one without columns |
| RowConsumers.AcceptedByParts | common/mysql++/query.h:461-475 | each row is judged after all before it; this fixes which rows a functor accepts |
| RowConsumers.NoExceptions.constructor | common/mysql++/noexceptions.h:110-115 | the flag is saved and switched off |
| RowConsumers.NoExceptions.Destroy | common/mysql++/noexceptions.h:120-123 | the flag is as saved |
| RowConsumers.ForEach | common/mysql++/query.h:381-414 | one call per row in order, no exception leaves, the flag is restored |
| RowConsumers.StoreIf | common/mysql++/query.h:461-475 | exactly the accepted rows are appended in order, also for a functor that keeps state |
| RowConsumers.StoreInSequence | common/mysql++/query.h:875-889 | the rows converted, appended in order |
| RowConsumers.StoreInSet | common/mysql++/query.h:900-914 | exactly the elements that the sequence version appends are inserted |
| QueryText.Query.Insert | common/mysql++/query.h:732-742 | the text in full; it is also the statement of the range of one record |
| QueryText.Query.InsertRange | common/mysql++/query.h:757-777 | header of the first record and all value lists joined by commas; nothing for an empty range |
| QueryText.OneMore | common/mysql++/query.h:770-774 | a further record adds its value list and nothing else |
| WordArithmetic.XorIsBitwise | common/google/hashers.h:9-47 | the model's exclusive or is the one on bits |
| WordArithmetic.ShrIsQuotient | common/google/hashers.h:9-47 | the model's right shift is division by a power of two |
| Hashers.AddShiftedIsUndone | common/google/hashers.h:14-18 | `(a + c) + (a << k)` is undone by an inverse factor, at any width |
| Hashers.AddNotShiftedIsUndone | common/google/hashers.h:40-44 | so is `a + ~(a << k)` |
| Hashers.XorShiftedIsUndone | common/google/hashers.h:15-19 | `(a ^ c) ^ (a >> k)` is undone from the high bits down |
| Hashers.AddThenXorIsUndone | common/google/hashers.h:17 | `(a + c) ^ (a << k)` is undone from the low bits up |
| Hashers.XorThenAddIsUndone | common/google/hashers.h:30 | so is `(a ^ c) + (a << k)` |
| Hashers.Hash1InFigures | common/google/hashers.h:14-19 | the hash with products, quotients and remainders for shifts and wrap-around |
| Hashers.Hash2InFigures | common/google/hashers.h:29-31 | the same for the second |
| Hashers.Hash3InFigures | common/google/hashers.h:40-45 | the same for the third |
| Hashers.HashesArePermutations | common/google/hashers.h:9-47 | each hash permutes the 32-bit words, with an explicit two-sided inverse |

## Left out

- `data()`, `tail()`, the buffer tick counters and the unused `new`/`delete` allocator of `blockbuffer.h`: nothing to prove of them.
- BlockBuffers.BlockBuffer.MaxSize: the exact product; the source multiplies two enumerators in `int`, which overflows from 2^31 on.
- BlockBuffers.BlockBuffer.Append: the bytes appended are a value, so a pointer into the same buffer is not modelled, nor bytes that together with the buffer exceed the address space.
- BlockBuffers.BlockBuffer.Replace: as for `Append`; in particular `pos + n` does not wrap around.
- The class-wide counters are unbounded numbers, and one thread uses them; `size_t` has 64 bits.
- Addresses are not reused: storage has a new number each time it is handed out.
- Populations.Population.RunAll: a driver that the source does not have; it exists to state what holds over interleavings. Events that cannot happen are passed over. A cursor lives and dies within one event, so that nothing else happens to its buffer meanwhile.
- WatchHelpers.WatchHelper.Watch: `assert(false)` is a result, after which the table is unchanged, as in a build without assertions.
- WatchHelpers.WatchHelper.ForEachWatcher: a callback's operations are a function of the calls made so far in the pass; a nested pass appears only through what it does to the table. The parameters handed to callbacks, in which the source's loops differ, are not modelled.
- Streams are strings, manipulators functions on strings; `create_vector` and the functions that only build `value_list` and `equal_list` objects are not part of this model.
- The container of `Set` is `std::set<std::string>`; printing an empty set dereferences its end in the source and is excluded.
- ListText.PrintValues: the list is not empty, nor are those of the other three printers; the source dereferences the end of an empty list.
- ListText.PrintSomeValues: the mask is at least as long as the list, for `PrintSomePairs` as the shorter list; the source reads beyond a shorter mask.
- `strip_all_blanks` has no visible body and is taken to remove every space character; `strtol` is that of the C locale with a 64-bit `long`.
- Conversions to unsigned and floating-point types; the type name and text inside `BadConversion`.
- The C interface to MySQL is a sequence of rows and a position; seeking beyond the rows, which it does not document, leaves the position arbitrary. `Query::use` is a parameter, and a `Row` is taken to have the columns it is made of.
- Copying results (`ResUse::copy` is not part of this model), `purge`, field names and types.
- The other overloads of `for_each`, `store_if` and `storein`, and `Query::update` and `replace`, would only add easy members.
- `reverse_iterator`s and the assignment forms of iterator arithmetic.
- The conversion of an unsigned difference to `int` outside its range wraps around, as compilers do it.
- `const_string`, `BasicLock`, `tiny_int`, `Connection`, `Transaction`, dates, the packet codec, and everything vendored under `common/`.
