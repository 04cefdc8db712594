# Verified model of the deterministic exchange

A Dafny model of a deterministic exchange: limit order books, a book manager with a global order
index, a sequencer with a risk gate, a journal that can be replayed, and a market-data feed from
which a subscriber rebuilds the books. `dafny verify dfyconfig.toml` checks all of it.

## How the project is built

Three layers: the books, the system, the bytes.

**The books.** `OrderBook` (`order_book.dfy`) is the class the source has: a node arena with a LIFO
free list, an id index, one doubly linked list per price level, occupancy bitmaps scanned word by
word, cached best levels. Its ghost field `view` is a `PriceTimeBook.Book`: one queue of ids per
level and side, and a record of each resting order. `Arena.Represents` ties the two together. Every
method keeps it and commutes with the function of `matching.dfy` that says what the operation does
to the book as a value. About those functions: matching is exact and consumes a prefix of the other
side in priority order, nothing is lost or made, a book is never crossed, the checksum depends on
the book alone.

**The system.** `Books` is all books with the index from order id to symbol; `BookManager` refines
it. `ExchangeSpec.Process` is the transition function of the exchange on one input, a command or a
frame off the wire; `Exchange` refines it. It is total: an exception thrown for an unknown symbol is
a step without a result. `RunOf` is the exchange after a run of inputs, with all it published and
journaled. One predicate carries most of the proofs: `Feeds.Leads(b, evs, r)`, the events `evs` are
each true of the book they are applied to, and take `b` to `r`. Every command's events lead its book
to its result, and the replica, the risk accounts and price-time priority follow from that.

What comes out is said from outside: `answers.dfy` reads acknowledgement, trades and journal off the
input and the published events, `refusals.dfy` gives the exact condition for every reason.

**The bytes.** Records of little-endian fields, frames with a hash, the journal file, both
directions, with cursors and fixed buffers as the source has them. `layout.dfy` says which byte is
which, `journal_damage.dfy` what is read of a file that was not written so. The checksums are folds
of word sequences, and `checksum_words.dfy` and `feed_words.dfy` say what the words tell.

Enumerations are bytes with named codes, as the decoders cast any byte into them; the books test a
side for "buy" only, the validation of commands for both codes. Widths are explicit: `u32` and `u64` are ranges of integers,
wrap-around is written out, and the mixing hash works on 64-bit vectors.

## Hypotheses

The source does not keep all views of the system in agreement, or every limit, on every input. Each
way to fail is named, is a condition on the state before the command, and is exact:

- `Commands.Clashes`: part of the command's order would rest while its id rests under another
  symbol. The duplicate check looks at one book, the index is of all.
- `Commands.LosesOrder`: an in-band replace without quantity, or under the id of a third order. The
  old order is cancelled, the new one refused, and the cancellation is not published.
- `Commands.Unindexes`: a replace out of band under a new id. The old order stays in its book, its
  index entry goes.
- `RiskCommands.FillsForgotten`: the command's quantity ends inside an order that the index does not
  hold. The fill in part is accounted for as if the order were gone, so its account's counter falls
  behind the books. `RiskCommands.ForgetsExactly` tells it from the book alone.
- `OpenLimit.Evades`: a replace takes over the order of another account, part of it rests, and its
  own account is at the limit of open orders even without those of its own that it fills first. The
  gate checks that limit for new orders only.
- `OpenLimit.Exceeds`: part of a new order rests while its account is at the limit in the books, even
  without those of its own that it fills first. The gate checks the account's counter, and lets
  this happen only when the counter is behind the books (`RiskRuns.ExceedingIsBehind`).
- `OrderSize.Oversteps`: part of the order rests with a value over the limit. The gate computes the
  value of the whole order modulo 2^64, so it can be let through.

One more thing does not hold: the book checksum does not tell a level's side. Two uncrossed books
of one symbol put the same words into it exactly when they hold the same queues of the same orders,
or the best ask level of a book without bids is the other's only bid level
(`ChecksumWords.SameWordsExactly`).

A clash misleads a replica only later, when an order is taken from that its index misses:
`Mirrors.Misroutes`, a condition on the engine's books and the replica's index.

The equivalences for one command are `Commands.ExecuteAgreesExactly`, `Tracking.TracksExactly`,
`Mirrors.MirrorsExactly`, `RiskCommands.RiskCommand`, `OpenLimit.LimitStep` and
`OrderSize.CommandKeepsExactly`; for one input to the exchange, `Runs.ProcessAgreesExactly`,
`Mirrors.ProcessMirrorsExactly`, `BookRuns.ProcessTellsExactly`, `RiskRuns.ProcessKeepsRiskExactly`,
`RiskRuns.ProcessKeepsLimitExactly` and `OrderLimits.ProcessKeepsValueExactly`. `counterexamples.dfy`
has a concrete run of a new exchange into each of the conditions. Over runs, `Runs.Avoids` says that
no executed command had one of a set of these hazards. Price-time priority, the limit on the size of
an order, the numbering of events, uncrossed books and replay need none of them. The bound on the
rate of messages has an exact condition of its own, for any clock: `RateWindow.BoundedExactly`. No
main result excludes a New for an unknown symbol: it throws, and the model says what it leaves.

The widths that matter: level sums below 2^32 (`LevelsFit`) for the cached totals and the checksum
only, account sums below 2^32 orders and 2^64 value (`SumsFit`) for the risk accounts, where they are
part of the equivalence, fewer than 2^32 - 1 nodes in an arena for the operations that allocate,
event numbers below 2^64 for the subscriber.

The starting state of `fnv1a64` is used as coded; it is not the published FNV-1a basis.

## Model

| member | source | states |
|---|---|---|
| OrderBooks.OrderBook.constructor | src/order_book.cpp:14-32 | a new book stands for no orders, with every level total exact |
| OrderBooks.OrderBook.FindLowestOccupied | src/order_book.cpp:72-82 | the word scan returns the lowest set bit over the whole bitmap, nothing when none is set |
| OrderBooks.OrderBook.FindHighestOccupied | src/order_book.cpp:84-94 | the word scan returns the highest set bit over the whole bitmap, nothing when none is set |
| Arena.BestBitIsBest | src/order_book.cpp:72-102 | where bits are set exactly at occupied levels, the best bit is the best occupied level |
| Bitmap.SetReflects | src/order_book.cpp:52-62 | setting a bit keeps bits and occupied levels in step, across words, with no bit past the last level |
| Bitmap.ClearReflects | src/order_book.cpp:64-70 | clearing a bit keeps bits and occupied levels in step |
| Arena.AllocKeeps | src/order_book.cpp:122-142 | taking a node keeps free list and live nodes a partition of the arena, which becomes as large as the most orders held |
| Arena.FreeKeeps | src/order_book.cpp:144-149 | releasing a node keeps the partition |
| Arena.AppendList | src/order_book.cpp:151-162 | the list at its new tail runs head to tail along the longer queue, mirrored backwards, and no other links change |
| Arena.UnlinkList | src/order_book.cpp:171-183 | cutting a node out anywhere leaves the list of the queue without it |
| Arena.UnlinkSame | src/order_book.cpp:176-179 | and changes the links of no order outside that queue |
| LevelTotals.RestRepresents | src/order_book.cpp:122-169 | allocating and appending, on the fields, is resting an order at the tail of its level, on the book |
| LevelTotals.DropRepresents | src/order_book.cpp:171-197 | unlinking, vacating and freeing, on the fields, is taking an order out of its queue, on the book |
| LevelTotals.TakeRepresents | src/order_book.cpp:204-208 | reducing a node's quantity, on the fields, keeps the order's place, on the book |
| LevelTotals.AppendedExact | src/order_book.cpp:161 | the cached total stays the queue's sum on an append whose sum fits 32 bits |
| LevelTotals.RemovedExact | src/order_book.cpp:182-190 | the saturating subtraction keeps the cached total the queue's sum |
| OrderBooks.OrderBook.AppendToLevel | src/order_book.cpp:151-169 | the new fields are the appended ones, link by link, with the level, bitmap, count and cached best |
| OrderBooks.OrderBook.RemoveNode | src/order_book.cpp:171-197 | the new fields are the removed ones, and the event names the order and what was removed |
| OrderBooks.OrderBook.ExecuteHead | src/order_book.cpp:204-215 | fills the order by the smaller quantity; event and trade carry the order as it stood |
| OrderBooks.OrderBook.MatchLoop | src/order_book.cpp:233-247 | the loop ends with the book, events, trades and remainder of `Match` |
| OrderBooks.OrderBook.AddOrder | src/order_book.cpp:217-256 | refines `Matching.Add` in book and output on every path, keeps the arena at its high-water mark and exact totals exact |
| OrderBooks.OrderBook.CancelOrder | src/order_book.cpp:258-263 | takes the order out and reports it whole, or changes nothing |
| OrderBooks.OrderBook.FeedAddOrder | src/order_book.cpp:265-270 | refines `Matching.FeedAdd`, refusals included |
| OrderBooks.OrderBook.FeedExecuteOrder | src/order_book.cpp:272-284 | refines `Matching.FeedExecute`, refusals included |
| OrderBooks.OrderBook.ReplaceOrder | src/order_book.cpp:286-304 | refines `Matching.Replace`: cancelled first, even when the add is then refused |
| OrderBooks.OrderBook.Find | src/order_book.cpp:114-120 | returns exactly the resting order of that id |
| OrderBooks.OrderBook.Stats | src/order_book.cpp:306-314 | counts of orders and occupied levels, and the best prices, are the book's |
| MatchTheorems.BestPriceIs | src/order_book.cpp:306-314 | the best price of a side is that of a resting order with none better, and there is none if and only if the side is empty |
| LiveCounts.CountsLevels | src/order_book.cpp:306-314 | the count of levels is of those that hold an order |
| OrderBooks.OrderBook.BookChecksum | src/order_book.cpp:316-361 | with exact totals the scan is a fold over the abstract book, whatever the node layout |
| ChecksumWords.BookHashIsFold | src/order_book.cpp:316-361 | the book checksum is the fold of the mixing step, from its seed, over the symbol and of each occupied level the price, the total and each order's id, account and quantity |
| ChecksumWords.RowsFromWords | src/order_book.cpp:319-359 | the words of two lists of levels are the same only if the levels are, orders and quantities included |
| ChecksumWords.SameWordsExactly | src/order_book.cpp:316-361 | two uncrossed books of one symbol and band have the same words if and only if they hold the same queues of the same orders, or a lone best ask level of one is the only bid level of the other |
| FeedWords.BooksHashIsFold | src/order_book.cpp:459-463 | the checksum over all books folds the books of symbols 1 on, in order, from its seed |
| LevelTotals.WalkStep | src/order_book.cpp:324-331 | walking a list visits its queue in order and ends with it |
| BookChecksum.SkipBids | src/order_book.cpp:319-339 | empty levels between occupied ones do not enter the fold |
| MatchTheorems.HeadIsFirst | src/order_book.cpp:233-246 | the order the loop picks is the first of the side, best price first and oldest first within a level |
| MatchTheorems.MatchIsExact | src/order_book.cpp:233-247 | trades exactly the smaller of the quantity and the liquidity at acceptable prices |
| MatchTheorems.MatchTakesPrefix | src/order_book.cpp:233-247 | consumes a prefix of the other side in priority order, only the last order possibly in part; its own side is untouched |
| MatchTheorems.InPartExactly | src/order_book.cpp:233-247 | an order is left in part if and only if its price is acceptable and the aggressor's quantity ends inside it, counted in priority order |
| MatchTheorems.MatchPricesMonotone | src/order_book.cpp:199-256 | trade prices never pass the limit and never get better for the aggressor |
| MatchTheorems.AddConserves | src/order_book.cpp:217-256 | traded, rested and dropped quantities of an accepted order add up to its quantity; only what is not good-till-cancelled is dropped |
| MatchTheorems.ReplaceConserves | src/order_book.cpp:286-304 | the same for the new order of a replace, in the book without the old order, whose cancellation comes first and is whole |
| MatchTheorems.AddKeepsUncrossed | src/order_book.cpp:217-256 | adding to an uncrossed book leaves it uncrossed |
| MatchTheorems.ReplaceKeepsUncrossed | src/order_book.cpp:286-304 | so does replacing |
| MatchTheorems.UncrossedIsBestApart | src/order_book.cpp:199-202 | uncrossed is best bid below best ask, both ways |
| Matching.AddKeeps | src/order_book.cpp:217-256 | adding keeps the invariant of a book |
| Matching.ReplaceKeeps | src/order_book.cpp:286-304 | replacing keeps the invariant of a book |
| Matching.FeedKeeps | src/order_book.cpp:265-284 | applying any event keeps the invariant of a book |
| Feeds.AddLeads | src/order_book.cpp:209-254 | the events of a new order are each true where applied, an execution naming the order with priority, and lead to the new book |
| Feeds.ReplaceLeads | src/order_book.cpp:292-303 | so do the events of a replace, even of one whose add is refused |
| Feeds.LeaversAreNamed | src/order_book.cpp:204-215 | an order that left a book was named by an execution or a cancellation |
| PriceTimePriority.ArrivesLast | src/order_book.cpp:156-160 | an arriving order stands behind every order at its price |
| PriceTimePriority.EventKeepsAhead | src/order_book.cpp:204-215 | no event, partial fills included, changes who is ahead of whom |
| PriceTimePriority.NoExecutionBehind | src/order_book.cpp:234-245 | an order with another ahead of it is not executed |
| PriceTimePriority.LaterArrivalWaits | src/order_book.cpp:151-256 | over any run of a book an order that arrives behind another is executed only after the other has left |
| BookManagers.BookManager.constructor | src/order_book.cpp:363-380 | one empty book for every symbol, with its shifted price band |
| ExchangeSpec.StartBands | src/order_book.cpp:366-377 | one band for all symbols without a stride or modulus, else up by the stride from symbol to symbol, repeating after the modulus |
| BookManagers.BookManager.AddOrder | src/order_book.cpp:412-422 | refines `Books.AddNew`: book, output and index, loop over the events included |
| BookManagers.BookManager.CancelOrder | src/order_book.cpp:424-430 | refines `Books.CancelOne` |
| BookManagers.BookManager.ReplaceOrder | src/order_book.cpp:447-457 | refines `Books.ReplaceOne`, with the index entry erased on every path |
| BookManagers.BookManager.FeedAdd | src/order_book.cpp:432-437 | refines the replica's addition |
| BookManagers.BookManager.FeedExecute | src/order_book.cpp:439-445 | refines the replica's execution, routed by the index |
| BookManagers.BookManager.ForgetGone | src/order_book.cpp:415-419 | drops exactly the entries of orders that events name and the book no longer holds |
| BookManagers.BookManager.FindOrder | src/order_book.cpp:400-404 | the order of that id in the book its entry points at |
| BookManagers.BookManager.ManagerChecksum | src/order_book.cpp:459-463 | with exact totals, a fold over the abstract books |
| BookManagers.BookManager.CountLiveOrders | src/order_book.cpp:465-469 | the resting orders of all symbols |
| LiveCounts.CountsResting | src/order_book.cpp:465-469 | that count is the number of pairs of a symbol and an order resting under it |
| LiveCounts.CountsIndex | src/order_book.cpp:465-469 | while the index agrees with the books it is the size of the index |
| BookManagers.ArenasArePeaks | src/order_book.cpp:122-149 | through any sequence of operations an arena is as large as the most orders its book held at once |
| IndexAgreement.StepAgrees | src/order_book.cpp:412-457 | the two ways a step leaves the index wrong, and no other |
| IndexAgreement.WouldRestIsResting | src/order_book.cpp:249-254 | exactly when an order comes to rest, from the state before |
| IndexAgreement.AddNewAgreesExactly | src/order_book.cpp:406-422 | a new order keeps the index exact if and only if it does not rest under an id of another symbol |
| IndexAgreement.CancelAgrees | src/order_book.cpp:424-430 | cancelling keeps the index exact |
| IndexAgreement.ReplaceAgreesExactly | src/order_book.cpp:447-457 | a replace keeps the index exact if and only if its condition on price and ids holds, refused adds included |
| Replica.FeedRoutes | src/order_book.cpp:432-445 | a true event reaches the book it came from and keeps the replica's index exact |
| Replica.ErrsExactly | src/subscriber.cpp:16-45 | when a replica reports an error, for every event, true or not |
| Replica.FeedEffect | src/order_book.cpp:265-284 | an applied event changes one order of one book and its index entry, and nothing else; more than an order holds takes it out |
| Commands.ExecuteMoves | src/exchange.cpp:68-82 | a command changes at most one book, and its events lead there |
| Commands.ExecuteSound | src/order_book.cpp:412-457 | index entries never point at a book without the order |
| Commands.ExecuteAgreesExactly | src/order_book.cpp:392-457 | the exact condition for a command to keep the index in agreement |
| Commands.RejectedChangesNothing | src/exchange.cpp:83 | a rejected command leaves every book alone unless it loses an order, and then it does not |
| Commands.TrackCommand | src/exchange.cpp:58-90 | a replica fed the events of a command that does not clash reports no error and ends with the engine's books if and only if no order is lost |
| Tracking.ClashBreaksIndex | src/order_book.cpp:432-437 | a clash is applied without an error, gives the engine's books and leaves the replica's index wrong |
| Tracking.TracksExactly | src/subscriber.cpp:16-45 | after any command the replica has reported no error, and still tracks the engine if and only if no order was lost and no id clashed |
| Mirrors.FeedAllMirrors | src/subscriber.cpp:16-45 | events that lead a book somewhere lead a replica's there, and no other book anywhere, if and only if its index finds every order they take from |
| Mirrors.MirrorsExactly | src/subscriber.cpp:16-45 | a replica with the engine's books, whatever its index, has them again after a command, without an error, if and only if the command loses no order and takes from none that the replica's index misses |
| Mirrors.TrackedRoutes | src/order_book.cpp:432-445 | an index in agreement misses none |
| Mirrors.MirrorsRunExactly | src/subscriber.cpp:16-45 | over every run a replica has the engine's books after every input if and only if no executed command did either |
| Risk.RiskEngine.CheckCommand | src/risk.cpp:19-47 | the loop on the window, the push and every limit, as `Check` |
| Refusals.KeptExactly | src/risk.cpp:22-27 | as many messages as the limit allows are kept if and only if one early enough is not past the window, whatever the clock did |
| Refusals.GateReasons | src/risk.cpp:19-47 | the exact condition for each reason of the gate, from the command, the limits, the counter and the index |
| Refusals.EngineReasons | src/order_book.cpp:217-304 | the exact condition for each reason of the books, in the order new orders and replaces are checked |
| Refusals.ReasonExactly | src/exchange.cpp:58-83 | the exact condition for each reason in the exchange's answer to a command, for its acceptance, and for an exception |
| Risk.RiskEngine.OnEvent | src/risk.cpp:49-68 | one account changes, as `Apply`, with wrapping addition and floored subtraction |
| Risk.FiguresMove | src/risk.cpp:49-68 | what an event does to every account's figures: an addition wraps, nothing goes below zero, messages stay |
| RiskAgreement.EventKeepsRisk | src/risk.cpp:49-68 | an event keeps accounts and books in agreement, and the guards against going below zero do not bite |
| RiskAgreement.MatchSettles | src/exchange.cpp:35 | an executed order that is gone at the end was gone when it was executed |
| RiskAgreement.EventBreaksRisk | src/risk.cpp:63-67 | an execution in part that is accounted for as if the order were gone breaks the agreement |
| RiskCommands.ForgetsExactly | src/exchange.cpp:35 | a command fills a forgotten order in part if and only if it is taken and its quantity ends inside an acceptable order that the index does not hold |
| RiskCommands.AgreeingForgetsNothing | src/exchange.cpp:35 | while the index agrees with the books no command does |
| RiskCommands.RiskCommand | src/exchange.cpp:23-37 | after a command, whatever the index, the accounts still agree with the books if and only if it lost no order, filled no forgotten one in part and the sums fit the counters |
| ExchangeSpec.StepShape | src/exchange.cpp:58-90 | an executed command does its work on the books, publishes and accounts for it; anything else is silent and leaves the figures |
| Answers.AcceptedAnswer | src/exchange.cpp:63-89 | the answer to an accepted input: its number and ids, the command's events numbered on, and one trade for each execution among them, in order, with its order, price and quantity, the command's number and its order as aggressor |
| Answers.RefusedAnswer | src/exchange.cpp:14-21 | the answer to a refused input: one numbered reject event with the command's fields and the acknowledged reason, no trades |
| Answers.JournalTold | src/exchange.cpp:52-60 | over every run each input takes the next number, and the journal has the decoded ones with their numbers and times |
| ExchangeSpec.EmptyBooksAgree | src/order_book.cpp:363-380 | a new manager is valid and its index exact |
| Runs.EventsAreNumbered | src/exchange.cpp:14-20 | over any run the published events are numbered without a gap, rejects included |
| FeedWords.FeedHash | src/exchange.cpp:14-37 | over every run the market-data hash is the fold of the words of all that was published |
| FeedWords.SameFeedExactly | src/exchange.cpp:14-37 | two feeds have the same words if and only if they have the same events in the same order, up to what of rejects is not hashed |
| Runs.NeverCrossed | src/order_book.cpp:199-304 | in every reachable state, in every book, best bid is below best ask |
| Runs.ReplicaFollows | src/subscriber.cpp:16-45 | over every run without clash or loss a subscriber applies every event and holds the engine's books queue for queue |
| Runs.IndexIsSound | src/order_book.cpp:392-457 | in every reachable state, without hypotheses, an index entry points at a book that holds the order |
| Runs.WireLosesByTakenId | src/order_entry.cpp:138-142 | off the wire a replace can lose its order only under the id of a third order |
| Runs.ProcessAgreesExactly | src/exchange.cpp:39-90 | one input keeps the index in agreement if and only if it executes neither clash nor out-of-band replace under a new id |
| Runs.IndexFollows | src/order_book.cpp:392-457 | over every such run an id maps to a symbol exactly when that symbol's book holds it |
| Runs.NewExchangeTracks | src/subscriber.cpp:5 | a new subscriber tracks a new exchange |
| RiskRuns.ProcessKeepsRiskExactly | src/exchange.cpp:58-90 | one input keeps accounts and books in agreement if and only if it loses no order, fills no forgotten one in part and the sums fit the counters |
| RiskRuns.RiskFollows | src/risk.cpp:43-68 | over every run that loses no order and fills no forgotten one in part, and whose sums fit, open orders and open notional are the count and the value of the resting orders over all symbols |
| RiskRuns.IndexedForgetsNothing | src/order_book.cpp:392-457 | a run without clash, loss or unindexing is such a run |
| OpenLimit.MatchTakesOwn | src/order_book.cpp:233-247 | an order with something left after matching has filled every acceptable order of its own account |
| OpenLimit.EvaderCount | src/order_book.cpp:286-304 | after taking over an order and resting, an account has its orders before, less its own that were filled, plus one |
| OpenLimit.NewCount | src/order_book.cpp:217-256 | so has an account after a new order that comes to rest |
| OpenLimit.LimitStep | src/risk.cpp:43-45 | a command keeps every account within the limit on open orders if and only if it is neither an evading replace nor an exceeding new order |
| RiskRuns.ProcessKeepsLimitExactly | src/risk.cpp:43-45 | one input keeps every account within the limit if and only if it executes no such command, whatever the accounts and the index say |
| RiskRuns.LimitHolds | src/risk.cpp:43-45 | over every run without such a command no account is over its limit, in any reachable state |
| RiskRuns.ExceedingIsBehind | src/risk.cpp:43-45 | the gate lets a new order exceed the limit only when its account's counter is behind the books |
| RiskRuns.AgreeingGateHolds | src/risk.cpp:43-45 | while the accounts agree with the books the gate lets no new order exceed the limit |
| RiskRuns.AgreeingLimitHolds | src/risk.cpp:43-45 | over every run in which they stay in agreement only an evading replace can pass the limit |
| RiskRuns.NewExchangeAgrees | src/exchange.cpp:9-12 | a new exchange meets what the risk theorems ask of a start |
| OrderSize.CommandRests | src/order_book.cpp:217-304 | what a command brings to rest is its order less exactly the liquidity it meets, in the book without the order it replaces |
| OrderSize.EventsKeep | src/order_book.cpp:204-254 | along the events of a command only an addition can bring in an order over a limit |
| OrderSize.CommandKeepsExactly | src/order_book.cpp:217-304 | a command keeps all resting orders within a limit if and only if what it brings to rest is |
| OrderSize.OversteppingWraps | src/risk.cpp:13-17 | what the gate lets through and yet oversteps has a value of 2^64 or more |
| OrderLimits.NoLargeOrderRests | src/risk.cpp:39-40 | in every reachable state, whatever the inputs, no resting order is over the limit on size |
| OrderLimits.ProcessKeepsValueExactly | src/risk.cpp:41-42 | one input keeps all resting orders within the limit on value if and only if it executes no command that oversteps |
| OrderLimits.NoDearOrderRests | src/risk.cpp:41-42 | in every reachable state no resting order is over the limit on value, over every run without such a command |
| OrderLimits.NarrowBandsHold | src/risk.cpp:13-17 | where the highest price times the limit on size fits 64 bits, the limit on value holds in every reachable state, whatever the inputs |
| RateWindow.RateLimitIsExact | src/risk.cpp:21-28 | while the times of an account's messages do not go back, one is refused for its rate if and only if the limit already passed in the closed window ending at its time |
| RateWindow.PassKeepsBoundExactly | src/risk.cpp:26-28 | one more pass keeps the bound if and only if no closed window around it is full |
| RateWindow.BoundedExactly | src/risk.cpp:19-28 | over every run, whatever the clock does, at most the limit of an account's messages pass in any closed window if and only if none passed while a window around its time was full |
| RateWindow.RateIsBounded | src/risk.cpp:19-28 | and so while the times of the account's messages do not go back |
| BookRuns.EventsTellAll | src/exchange.cpp:85-88 | over every run that loses no order, what was published of a symbol leads its book from the first state of the run to the last |
| BookRuns.ProcessTellsExactly | src/exchange.cpp:83-88 | what one input publishes leads every book from its state before to its state after if and only if it loses no order |
| BookRuns.LogLeads | src/order_book.cpp:217-304 | over every run, whatever the inputs, what was done to a book leads it from the first state to the last, a cancellation that was never published included |
| BookRuns.PriceTimeOverExchangeRuns | src/order_book.cpp:151-304 | price-time priority over every exchange run, whatever the inputs: in the log of a book an order that arrived behind another is executed only after the other has left |
| BookRuns.PriceTimeAsPublished | src/exchange.cpp:85-88 | the same among the published events of a symbol, over every run without loss |
| Replay.ReplayEqualsLive | src/exchange.cpp:102-118 | replaying a run's journal throws exactly when the run did, and reaches its books and accounts |
| Replay.ReplayOfDecodable | src/exchange.cpp:39-50 | the replayed event number is the live one if and only if the undecodable frames count zero modulo 2^64; without any, the hash is too |
| Replay.FileReplays | src/exchange.cpp:102-118 | the file of a run, read back and replayed, reaches the run's state |
| Replay.CrashRecovers | src/journal.cpp:90-132 | from any part of the file a crash leaves, cuts in the header included, replay reaches a state the exchange was in: the one after the inputs whose records are whole |
| Replay.ReplayCatchesUp | src/exchange.cpp:59 | live, every input takes the next number; a replay moves past the numbers that undecodable frames took |
| FeedDelivery.AppliesInOrder | src/subscriber.cpp:7-14 | whatever arrives, the subscriber holds the result of the events before the expected one |
| FeedDelivery.ReceivesExactly | src/subscriber.cpp:7-14 | a frame laid out for the event of the number waited for is counted, and applied if it can be; any other changes nothing |
| FeedDelivery.CatchesUp | src/market_data.cpp:119-123 | a retransmission in order reaches at least its end from any state |
| FeedDelivery.FeedSurvives | src/market_data.cpp:78-123 | the same on the feed of an exchange run with frames lost, repeated, reordered or damaged in a byte; at the end of the run, the engine's books |
| FeedDelivery.RetransmissionRepairs | src/subscriber.cpp:7-14 | after any such delivery one complete retransmission leaves the engine's books |
| Counterexamples.TakenElsewhere | src/order_book.cpp:228-231 | two inputs to a new exchange after which an id rests under two symbols and the index knows one |
| Counterexamples.ClashMisleadsReplica | src/order_book.cpp:439-445 | a third input executes in one of those books; a replica that heard everything changes the other, without an error |
| Counterexamples.ReplaceLosesOrder | src/exchange.cpp:83 | a replace under the id of a third order cancels and is rejected; the lost order stays in a replica that heard everything and in its account |
| Counterexamples.OutOfBandForgets | src/order_book.cpp:451 | an out-of-band replace under a new id is refused and leaves its order at rest, and its owner can no longer cancel it |
| Counterexamples.ReplaceEvadesLimit | src/risk.cpp:43-45 | at the limit a new order is refused, and a replace of another account's order is accepted and leaves one order more than the limit |
| Counterexamples.CounterFallsBehind | src/exchange.cpp:35 | a sale fills a forgotten order in part: its account's counter was right before and is not after |
| Counterexamples.NewExceedsLimit | src/risk.cpp:43-45 | a new order of that account, which is at its limit, then passes the gate and rests |
| Counterexamples.NotionalWraps | src/risk.cpp:13-17 | an order whose value is 2^64 passes the gate and rests, over the limit on value |
| Counterexamples.SideIsNotHashed | src/order_book.cpp:316-361 | one buy on one exchange and one sell of the same terms on another leave different books with the same checksum |
| Counterexamples.ClockGoesBack | src/risk.cpp:22-25 | with a clock that goes back, three messages pass in a window where two are allowed |
| Exchanges.Exchange.constructor | src/exchange.cpp:9-12 | stands for the start of `ExchangeSpec`, with empty arenas and exact totals |
| Exchanges.Exchange.Reject | src/exchange.cpp:14-21 | numbers, hashes and returns one reject event |
| Exchanges.Exchange.AccountForMd | src/exchange.cpp:23-37 | hashes and accounts for every event in order, against the final index |
| Exchanges.Exchange.Apply | src/exchange.cpp:58-90 | refines `ApplySequenced` on every path, journal and exception included |
| Exchanges.Exchange.ProcessCommand | src/exchange.cpp:52-56 | refines `Process` of a command, and journals it once |
| Exchanges.Exchange.ProcessFrame | src/exchange.cpp:39-50 | refines `Process` of a frame; an undecodable one takes a number, is rejected and not journaled |
| Subscribers.SubscriberBook.constructor | src/subscriber.cpp:5 | empty books, waiting for event 1 |
| Subscribers.SubscriberBook.ApplyEvent | src/subscriber.cpp:16-45 | refines `FeedBooks`, error or not |
| Subscribers.SubscriberBook.ApplyFrame | src/subscriber.cpp:7-14 | refines `Receive`: out of turn or damaged, nothing changes; it reports success exactly when the frame decodes in turn and its event applies |
| JournalReplay.ReplayJournal | src/exchange.cpp:102-118 | the loop over the reader returns exactly `Report`, read errors and exceptions included; its book checksum when level sums fit 32 bits |
| JournalReplay.ReportMatchesLive | tests/exsim_tests.cpp:94-116 | for any run of a new exchange the replay of its journal reports the live book checksum, the number of records, and the live feed checksum when every frame decoded |
| JournalReplay.ReportOfCrash | src/exchange.cpp:109-117 | the report on a journal cut anywhere past its header: the whole records, and how reading ended; checksums only after a clean end |
| JournalReplay.ReportOfDamage | src/exchange.cpp:109-117 | the report on a journal with a byte of one record changed: the records before it, the failure, no checksum |
| Checksum.Fnv1a64 | include/exsim/util/checksum.hpp:10-17 | the loop computes the fold |
| Checksum.TimesPrimeInjective | include/exsim/util/checksum.hpp:14 | the odd multiplier is invertible modulo 2^64 |
| Checksum.FnvDetectsByte | include/exsim/util/checksum.hpp:10-17 | changing any one byte of any input changes the hash |
| Checksum.XorBitsAre | include/exsim/util/checksum.hpp:13 | the exclusive or on numbers is one bit by bit where the two differ |
| Checksum.FnvAnswers | include/exsim/util/checksum.hpp:10-17 | the hash of no byte and of one |
| Checksum.MixingAnswers | include/exsim/util/checksum.hpp:19-28 | the mixing step on three inputs |
| Codec.ParseOfPack | include/exsim/util/codec.hpp:19-47 | reading back what was written gives the values |
| Codec.PackOfParse | include/exsim/util/codec.hpp:39-47 | writing what was read gives the bytes |
| Layout.ByteOfLE | include/exsim/util/codec.hpp:19-27 | byte i of a number written is the number divided by 256 to the i, modulo 256 |
| Codec.Writer.Pod | include/exsim/util/codec.hpp:19-27 | appends the little-endian bytes of the record's next field |
| Codec.Reader.Pod | include/exsim/util/codec.hpp:39-47 | returns the next field of the record, or nothing past the end without moving |
| Codec.Reader.Raw | include/exsim/util/codec.hpp:49-54 | returns the next bytes, or nothing past the end without moving |
| Frames.UnframeOfFrame | src/order_entry.cpp:40-48 | a framed payload unframes |
| Frames.FrameOfUnframe | src/order_entry.cpp:77-88 | what unframes is a frame of its payload |
| Frames.OneByteUnframes | src/order_entry.cpp:77-88 | a frame with any one byte changed, header or payload, is refused |
| Frames.ReadFrame | src/order_entry.cpp:77-88 | the header checks accept exactly the well-formed frames |
| Frames.PutHeader | src/order_entry.cpp:66-73 | a fixed buffer becomes the frame of its payload |
| Layout.FrameHeader | src/order_entry.cpp:40-48 | magic, version, payload length and payload hash stand at bytes 0, 4, 6 and 8 |
| OrderEntry.DecodeOfEncode | src/order_entry.cpp:24-122 | every command comes back from its frame, an invalid one as the reason it is invalid |
| Layout.CommandLayout | src/order_entry.cpp:24-49 | a frame is a command's if and only if each field stands at its byte, from the type at 16 to the client's time at 63 |
| Layout.DecodesAsLaidOut | src/order_entry.cpp:77-122 | decoding reads each field from those bytes: a frame laid out for a command gives it, or the reason it is invalid, and no other gives it |
| Layout.NotLaidOut | src/order_entry.cpp:77-118 | what is laid out for no command is malformed |
| Layout.Codes | include/exsim/types.hpp:26-41 | the codes of types, sides, times in force and reasons |
| OrderEntry.ValidExactly | src/order_entry.cpp:124-144 | which commands are valid, in one condition |
| Refusals.InvalidReasons | src/order_entry.cpp:124-144 | the exact condition for each reason of an invalid command |
| OrderEntry.EncodeOfDecode | src/order_entry.cpp:77-122 | a frame that decodes is the encoding of a valid command |
| OrderEntry.OneByteRefused | src/order_entry.cpp:77-88 | a command frame with one byte changed is malformed |
| OrderEntry.EncodeClientCommand | src/order_entry.cpp:24-49 | the growing buffer ends as the command's frame |
| OrderEntry.EncodeClientCommandFrame | src/order_entry.cpp:51-75 | the fixed array ends as the same bytes |
| OrderEntry.DecodeClientCommand | src/order_entry.cpp:77-122 | decodes as specified, with the same reason for every refusal |
| MarketData.DecodeOfEncode | src/market_data.cpp:27-117 | every event comes back from its frame; waiting for another number is a gap |
| Layout.EventLayout | src/market_data.cpp:27-51 | a frame is an event's if and only if each field stands at its byte, from the number at 16 to the reason at 62 |
| Layout.ParsesAsLaidOut | src/market_data.cpp:78-112 | a frame parses as an event if and only if it is laid out for it |
| MarketData.EncodeOfDecode | src/market_data.cpp:78-117 | a frame that parses is the encoding of its event |
| MarketData.OneByteRefused | src/market_data.cpp:78-89 | an event frame with one byte changed is refused |
| MarketData.EncodeMdEvent | src/market_data.cpp:27-51 | the growing buffer ends as the event's frame |
| MarketData.EncodeMdEventFrame | src/market_data.cpp:53-76 | the fixed array ends as the same bytes |
| MarketData.DecodeMdEvent | src/market_data.cpp:78-117 | decodes as specified |
| MarketData.FeedDecoder.Decode | src/market_data.cpp:119-123 | the expected number moves only past an accepted event |
| Journal.PayloadRoundTrip | src/journal.cpp:14-65 | a sequenced command comes back from its payload |
| Journal.PayloadOfDecode | src/journal.cpp:34-65 | a payload that decodes is the encoding of its command |
| Journal.NextOfRecord | src/journal.cpp:77-132 | reading a written record gives the command and leaves what follows |
| Journal.ReadBack | src/journal.cpp:67-132 | a whole journal reads back as the commands appended, without failure |
| Layout.JournalLayout | src/journal.cpp:14-86 | a file is the journal of some commands if and only if magic and version stand at its start and record k at byte 6 + 87k, each field at its place |
| JournalDamage.DamagedRecord | src/journal.cpp:102-132 | one byte of record k changed: exactly the k commands before it are read, then a bad magic for the magic, a checksum mismatch for the stored hash or the payload, a failure for the length |
| JournalDamage.DamagedHeader | src/journal.cpp:90-100 | one byte of the file header changed: a bad header, and no command |
| JournalDamage.ReadIsWritten | src/journal.cpp:102-132 | whatever the file, the commands read are those whose journal it starts with |
| Journal.CrashPrefix | src/journal.cpp:90-132 | any byte prefix reads as the commands whose records are whole, then stops, cleanly within four bytes of a record's start and short otherwise |
| Journal.JournalWriter.constructor | src/journal.cpp:67-73 | the file of no commands |
| Journal.JournalWriter.Append | src/journal.cpp:77-86 | the file becomes that of one command more |
| Journal.JournalReader.constructor | src/journal.cpp:90-100 | the header is checked as specified |
| Journal.JournalReader.NextCommand | src/journal.cpp:102-132 | reads one record as specified, with every way to fail kept as state |

## Left out

- FeedDelivery.FeedSurvives: damaged frames differ in one byte; that the hash catches larger damage is not provable.
- Replay.ReplayOfDecodable: that the market-data hash differs after undecodable frames is not claimed, as hashes may collide.
- JournalReplay.ReplayJournal: while no book holds 2^32 - 1 orders or more, where 32-bit node indices run out.
- OrderBooks.OrderBook.AddOrder: the source's one function is split in two methods here, and so are appending and removing; vectors are sequence fields that the methods reassign, so references into them are not modelled.
- The price band constructor arguments that throw, and strides that overflow 64 bits: preconditions.
- The negation of the least 64-bit price in the notional, undefined in the source: a mathematical magnitude here.
- `RiskEngine::checksum` and `Exchange::checksum`: they fold over a hash table in iteration order; account tables are compared directly.
- Collision resistance of the mixing hash: only equal inputs give equal hashes.
- File streams, flushing and paths: a journal is a byte sequence, and a short read is running off its end.
- Hash tables: maps. Reserve calls, error texts and `to_string`: no behaviour.
- Memory exhaustion, for example on a journal record that claims four gigabytes.
- `FeedDecoder::reset`, `find_book`, `flush_journal` and plain accessors: no behaviour of their own.
- The benchmark and the replay tool: timing, random workload, printing.
- Big-endian hosts, where the writer throws.
