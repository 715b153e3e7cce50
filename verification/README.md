# Verified model of bitfinex_cpp

This project models, in Dafny, how bitfinex_cpp turns the bytes of a Bitfinex connection into order
books, and proves what the program relies on along the way:

* `JsonFsm.dfy`, `JsonReference.dfy`, `JsonDocument.dfy`, `JsonFraming.dfy`: the table-driven parser of
  JSON objects, its agreement with a recursive-descent parser on every input, the exact language it
  accepts, and the brace counter that frames an event.
* `Decimal.dfy`, `FastParse.dfy`, `CommaNum.dfy`: numerals, the number scanners, and the number printer.
* `Wire.dfy`, `Parser.dfy`, `ParserTheorems.dfy`, `MessageParser.dfy`, `ReceiveLoop.dfy`: the messages
  of the exchange, the incremental parser, and the receive loop over arbitrarily cut input.
* `OrderBook.dfy`, `BookLock.dfy`: one book and its whole histories; its spin lock under any
  interleaving of threads.
* `Subscription.dfy`, `MarketDataFeed.dfy`, `FeedProtocol.dfy`: the subscription protocol as a step
  system, the feed object with the end-to-end statement from received bytes to books, and the proof that
  every history of the feed is a run of the protocol.
* `DenseMap.dfy`: the vectorised open-addressing map.
* `Bytes.dfy`, `Wrappers.dfy`: shared constants and helpers.

Classes stand for the source's objects; each of their methods is proved against a function of the
inputs or of the old state, and the theorems are about these functions.

## Conventions and assumptions

* A byte is a `char`; bytes above 127 are letters of no class. `isalnum` and `isprint` are the ASCII ones.
* Bytes that the parser looks at behind the end of the received ones (`bitfinex/parser.h:136`,
  `bitfinex/parser.cpp:36`) are two arbitrary bytes, `Past`.
* `ASSERT_EQ` in `skip` is compiled out (`core/x_assert.h:9`), so `skip` passes any byte.
* The float overload of `fast_parse` reads an exact numeral `-?digits(.digits*)?`. Where it converts
  nothing the caller's variable keeps an unknown value: the callback then carries the quantity `None`,
  and the theorems about books hold for every value it may have.
* A `ParseError` leaves a `noexcept` function and ends the program (`bitfinex/parser.h:101-112`); the
  model calls this `Terminated`.
* The exchange is assumed to announce a channel before it sends updates of it and to give every
  subscription a channel of its own, only where a theorem says so (`Orderly`, `DistinctChannels`).

## Where code and documentation differ

* `bitfinex/order_book_p.h:96` says that `assign_level` overwrites the quantity of a price. It calls
  `flat_map::emplace` (line 98), which keeps the old one. The class `OrderBookP` follows the code
  (`Keep`). The sorting and price results hold for both readings, the documented quantity is proved for
  `Overwrite`, and the code's own, that of the update that opened the level, for `Keep`
  (`QuantityIsTheOpening`). `QuantityIsDocumentedIff` and `KeepIsOverwriteIff` give the exact conditions
  under which the two agree, at one price and throughout; `RequoteIsLost` is a history on which they do
  not.
* A bulk update without levels is not delivered: the parser takes it for a single update and looks for
  the missing fields in the bytes behind it (`BulkIsDeliveredIff`).
* `bitfinex/parser.cpp:14` promises to consume a whole bulk update or nothing. On a malformed one whose
  entries break off, the entries before that are delivered and nothing is consumed;
  `CallsWithoutConsumingIff` says exactly when, on any bytes. `PartIsDelivered` is a family of such
  updates, whose one level is delivered again after the next read.
* The receive loop dispatches one message a read, and a read blocks until more bytes come. A message that
  comes complete together with another one therefore waits until a later read returns.
  `NothingWaitsIff` and `NeverWaitsIff` give the exact conditions under which none does;
  `SecondMessageWaits` is an instance of the contrary.
* The framing counter counts braces in quoted values, the parser does not (`CountersAgreeIff`). An event
  is cut in the middle exactly when such braces close it early (`FramedVerdict`, `EventIsFramedIff`;
  `QuotedBraceCutsEarly` is a family of such events). The events of the message theorems are all the
  printed documents that are framed as a whole (`IsEvent`).
* `DenseIndex::insert` can put a key where `find_ix` does not look (`InsertedIsFoundIff`,
  `SpillKeyIsLost`; compare the disabled lines `core_test/ut_dense_map.cpp:71-73`), and such a key is
  never found later (`InsertIsForGoodIff`, `RunIsFoundIff`).
* While there has been one answer, the fast path applies updates of any channel to its book
  (`FastPathIsLookupIff`); and a book created for a channel that is already registered gets no updates
  (`FastPathIsLookup`, `RepeatedChannel`).

## Model

| member | source | states |
|---|---|---|
| JsonFsm.StepKeepsValid | bitfinex/json_obj.cpp:159-231 | each turn of the parsing loop keeps state, token pointer, buffers and nesting counter consistent: the counter is positive exactly while an embedded object is read |
| JsonFsm.ReachableIsValid | bitfinex/json_obj.cpp:159-235 | on every input, after every prefix on which the loop still runs, that consistency holds |
| JsonFsm.JsonObj.ParseText | bitfinex/json_obj.cpp:159-235 | the loop over the bytes, updating the object's map in place, reaches the verdict of the table machine, and on acceptance the object holds exactly the accepted pairs |
| JsonReference.RunNested | bitfinex/json_obj.cpp:146-146 | the nesting counter reads an embedded object exactly as recursive descent does, at any depth |
| JsonReference.FsmIsRecursiveDescent | bitfinex/json_obj.cpp:135-235 | on every byte string the table-driven loop and a recursive-descent parser accept the same texts with the same pairs, and reject the others with the same error |
| JsonReference.ClassesAreLiteral | bitfinex/json_obj.cpp:182-199 | the byte classes of that parser, which shares no class with the loop, are listed byte by byte: blanks, letters, digits and the dot, and what keys, arrays and embedded objects may hold |
| JsonReference.QuotedIsLiteral | bitfinex/json_obj.cpp:194-195 | quoted text may hold exactly the printable bytes but the quote, and tabs |
| JsonDocument.PrintThenParse | bitfinex/json_obj.cpp:154-235 | any document, printed with blanks in the ignored positions and with anything behind it, is accepted with the map of its pairs |
| JsonDocument.LastPairWins | bitfinex/json_obj.cpp:172-172 | in that map every key has the value of its last pair, and there are no other keys |
| JsonDocument.PrintedKeyIsFound | bitfinex/json_obj.cpp:237-244 | in the map that ParseText leaves and TryGet looks into, a key of a printed document is found exactly if one of its members has it, and the value is what the last such member stores |
| JsonDocument.AcceptedIffPrinted | bitfinex/json_obj.cpp:135-235 | a text is accepted with a map if and only if it is a printed document, with anything behind it, whose last-wins map that is |
| JsonDocument.ConfIsAccepted | bitfinex_test/ut_json_obj.cpp:57-62 | the event that the exchange sends to confirm a configuration is accepted with its two pairs |
| JsonFraming.FrameIsFirstZero | bitfinex/parser.cpp:51-61 | the frame is the shortest prefix that balances the braces, and there is none exactly when no prefix does |
| JsonFraming.CountersAgreeIff | bitfinex/parser.cpp:51-59 | the framing counter is one more than the parser's nesting after every byte while the parser runs, if and only if no brace stands in a top-level quoted value |
| JsonFraming.FramedVerdict | bitfinex/parser.cpp:51-64 | given the framed event, the parser runs out of input if and only if at some byte the closing braces in its quoted values outnumber the opening ones; when it accepts, it stops at the last byte of the frame if and only if these braces balance |
| JsonFraming.PlainEventsNeverEndEarly | bitfinex/parser.cpp:51-64 | in particular, without braces in quoted values it accepts a framed event exactly at its last byte, or rejects it |
| JsonFraming.QuotedBraceCutsEarly | bitfinex/parser.cpp:51-63 | a family of events with such a brace that are cut inside the string, and whose cut ends unexpectedly |
| JsonFraming.EventIsFramedIff | bitfinex/parser.cpp:49-64 | a printed document is framed as exactly its own text, whatever follows it, if and only if the braces in its quoted values never bring the counter to zero and its last brace does |
| Decimal.NumeralRoundTrip | core/fast_parse.h:14-27 | the numeral of a number has that number as its value |
| Decimal.NumeralIsCanonical | core/string_utils.cpp:35-62 | the numeral of a positive number has no leading zero |
| Decimal.DecValueIsPositional | core/fast_parse.h:14-27 | in the value of a run of digits the first one counts as many tens as there are digits behind it |
| FastParse.FastParseU64 | core/fast_parse.h:14-27 | the cursor stops exactly at the first non-digit or the end, and the result is the decimal value modulo 2^64 |
| FastParse.FastParseU32 | core/fast_parse.h:30-38 | despite narrowing twice, the result is the decimal value modulo 2^32 |
| FastParse.FloatReadsNumeral | core/fast_parse.h:41-58 | a decimal numeral in front of anything that does not continue it is read as a whole, and the number read, times ten for every decimal place, is that of its digits under its sign |
| FastParse.MinusNegates | core/fast_parse.h:41-58 | a minus sign in front of a numeral negates what is read |
| FastParse.ValueIsExact | bitfinex/types.h:11-21 | a numeral with a minus sign and a digit other than 0 is read as a number below zero, and one without as a number not below zero |
| FastParse.FloatReadsOnlyNumerals | core/fast_parse.h:41-58 | on any bytes: what is read is a numeral at their start with its exact value, and a dot that no digits follow; without one nothing is passed |
| FastParse.FloatStable | core/fast_parse.h:41-58 | once two bytes lie behind a numeral, further bytes do not change what is read |
| CommaNum.CommaNum | core/string_utils.cpp:35-62 | for every number up to 2^63-1 in magnitude the text has its sign, a comma before each group of three digits from the right and nowhere else, and the number's digits; all writes stay inside the 32-byte buffer |
| CommaNum.CommaTextIsUnique | core/string_utils.cpp:35-62 | these properties determine the text |
| CommaNum.CommaTextReadsBack | core/string_utils.cpp:35-62 | without sign and commas the text is scanned back as the number |
| MessageParser.MessageParser.ProcessSingleBookUpdate | bitfinex/parser.h:153-221 | delivers one level and reports the bytes passed, or delivers nothing when they run out |
| MessageParser.FindsTriple | bitfinex/parser.cpp:18-30 | the prescan succeeds exactly when three closing brackets in a row lie in the buffer |
| MessageParser.MessageParser.ProcessBulkBookUpdate | bitfinex/parser.cpp:6-40 | refuses a bulk update whose end has not arrived, and otherwise delivers its entries in order |
| MessageParser.FindsFrame | bitfinex/parser.cpp:51-61 | the counting loop finds exactly the frame of the event, or that its end has not arrived |
| MessageParser.MessageParser.ProcessJsonEvent | bitfinex/parser.cpp:42-67 | cuts one event out of the bytes, parses it and delivers it, delivers nothing while it is incomplete, or passes the parser's exception on |
| MessageParser.MessageParser.ParseDataAndDispatchMessage | bitfinex/parser.h:101-150 | returns the number of bytes of the one message it has dispatched, or 0, with exactly the callbacks that module Parser prescribes |
| ParserTheorems.MessageIsDelivered | bitfinex/parser.h:35-46 | any single update, non-empty bulk update, heartbeat or event, whatever follows, is consumed in exactly its own length, with one callback for each level in order: the right channel, price, count and bulk flag, and the signed quantity that the numeral denotes |
| ParserTheorems.HeartbeatIsRead | bitfinex/parser.h:54-55 | a heartbeat is consumed through the single-update path, as an update of price 0 with no orders and an unset quantity |
| ParserTheorems.EventIsDeliveredIff | bitfinex/parser.cpp:42-67 | a printed document is consumed as one event with its last-wins map, whatever follows it, if and only if it is framed as a whole |
| ParserTheorems.BulkIsDeliveredIff | bitfinex/parser.cpp:12-39 | a bulk update is delivered, whatever follows it, if and only if it has levels; without levels the parser waits, or consumes at least two bytes of what follows and makes one callback |
| ParserTheorems.DispatchStable | bitfinex/parser.h:35-46 | on any bytes, what has once been consumed is consumed the same whatever bytes follow |
| ParserTheorems.PrefixIsSilent | bitfinex/parser.h:35-36 | for every proper prefix of a message the parser returns 0 and makes no callback |
| ParserTheorems.CallsWithoutConsumingIff | bitfinex/parser.cpp:12-39 | on any bytes callbacks are made and nothing is consumed, if and only if the channel is read, a bulk update follows that has three closing brackets in a row somewhere, and its entries break off behind at least one complete entry |
| ParserTheorems.PartIsDelivered | bitfinex/parser.cpp:12-39 | a bulk update with a comma and no level behind its first level: that level is delivered, nothing is consumed, and it is delivered again whatever comes next |
| ReceiveLoop.RunLoopRecvThread | bitfinex/market_data_feed.cpp:30-50 | the loop over buffer and parser carries out exactly the turns of the model, until it is told to quit or the program ends |
| ReceiveLoop.BytesAreConserved | web_socket/web_socket_client.cpp:74-85 | committed bytes followed by buffered bytes are the received bytes |
| ReceiveLoop.TurnDelivers | bitfinex/market_data_feed.cpp:34-43 | a turn delivers the next message of the stream if all its bytes have arrived, and nothing otherwise |
| ReceiveLoop.AnyChunkingDelivers | bitfinex/market_data_feed.cpp:34-43 | for every way of cutting a stream of messages into reads, the callbacks made so far are exactly those of the messages in the committed bytes, in order, none lost, repeated or split |
| ReceiveLoop.ChunkingIsIrrelevant | bitfinex/market_data_feed.cpp:34-43 | two ways of cutting the same stream end with the same callbacks and an empty buffer, provided that each is followed by one more turn for every message, whose read brings nothing; the source's read waits for bytes instead, so what holds without these turns is NothingWaitsIff |
| ReceiveLoop.NothingWaitsIff | bitfinex/market_data_feed.cpp:34-43 | after any reads, exactly the messages that have arrived complete have been delivered, if and only if for no n the last n reads have completed more than n messages; a whole stream is consumed to its last byte, with its callbacks, under the same condition |
| ReceiveLoop.NeverWaitsIff | bitfinex/market_data_feed.cpp:34-43 | at no time does a complete message wait in the buffer, if and only if no read completes more than one |
| ReceiveLoop.SecondMessageWaits | bitfinex/market_data_feed.cpp:34-43 | of any two messages that one read brings, the second stays in the buffer |
| ReceiveLoop.OneMessagePerRead | bitfinex/market_data_feed.cpp:34-43 | when every read brings one message, none waits for the next read |
| ReceiveLoop.CommitsOnBoundaries | bitfinex/market_data_feed.cpp:34-43 | on any bytes at all, every commit ends on a message boundary of the uncut stream |
| OrderBook.PutIsMapUpdate | bitfinex/order_book_p.h:98-98 | assigning a level keeps the side strictly sorted and changes no other price, under either reading |
| OrderBook.EraseIsMapRemove | bitfinex/order_book_p.h:99-99 | erasing a level keeps the side strictly sorted and removes that price only |
| OrderBook.RankedQueries | bitfinex/order_book_p.h:105-113 | the ranked queries list every level once, strictly from best to worst; the sides' orders are mirror images; ranks past the end give a level of price 0 and quantity 0 |
| OrderBook.SpreadIsExactIff | bitfinex/order_book_p.h:39-42 | the 32-bit spread is the true difference if and only if that fits; the mid price then lies between the prices, half a tick from their mean at most and not nearer to the ask; both are 0 without prices on both sides |
| OrderBook.SpreadWraps | bitfinex/order_book_p.h:39-39 | a difference that does not fit comes out 2^32 too large or too small |
| OrderBook.OrderBookP.AssignLevel | bitfinex/order_book_p.h:131-137 | a negative quantity changes the asks only and a new price gets it without its sign; any other quantity changes the bids only; an existing price keeps its own quantity |
| OrderBook.OrderBookP.EraseLevel | bitfinex/order_book_p.h:138-143 | removes one price from the asks for a negative quantity, from the bids for any other, and nothing else |
| OrderBook.OrderBookP.GetTob | bitfinex/order_book_p.h:146-153 | both sides' levels of one rank, taken from one state: exactly `offset` levels of each side are better than the one returned, and a side with fewer gives the empty level |
| OrderBook.PricesAreTheLatest | bitfinex/market_data_feed.cpp:141-144 | after any updates each side is sorted without duplicates; the asks hold exactly the prices whose latest update with a negative quantity had a non-zero order count, the bids those whose latest other update had |
| OrderBook.QuantityIsTheLatest | bitfinex/order_book_p.h:96-96 | under the documented overwriting, the quantity at a price is that of its latest non-erasing update, without its sign |
| OrderBook.QuantityIsTheOpening | bitfinex/order_book_p.h:98-99 | as the code is, after any updates the quantity at a price is that of the update that opened the level: the first one since the latest erasure; asks without their sign |
| OrderBook.OpeningIsUnique | bitfinex/order_book_p.h:98-99 | there is one such update at most |
| OrderBook.QuantityIsDocumentedIff | bitfinex/order_book_p.h:96-98 | at the end of a history code and documentation show the same quantity at a price if and only if the price is vacant or its opening and its latest update agree on the quantity |
| OrderBook.RankOfHistory | bitfinex/order_book_p.h:105-113 | after any updates the level of a rank has orders by its latest update and the quantity of the one that opened it, and the better prices with orders are exactly those of the ranks below; past the last rank there are no prices left |
| OrderBook.KeepIsOverwriteIff | bitfinex/order_book_p.h:96-98 | the code shows the documented book throughout a history if and only if no update gives a new quantity to a price the book holds |
| OrderBook.RequoteIsLost | bitfinex/order_book_p.h:96-98 | a history on which code and documentation differ |
| BookLock.SpinMutex.TryLock | core/thread_utils.h:18-21 | is the test-and-set step of the thread that calls it: in a reachable state it succeeds exactly if that thread then holds the lock, as the only one, and fails exactly if another thread holds it |
| BookLock.SpinMutex.Unlock | core/thread_utils.h:27-30 | is the release step of the holder: in a reachable state nobody holds the lock afterwards |
| BookLock.RunKeepsInv | core/thread_utils.h:16-33 | every state of every run has at most one thread inside the lock, a book that is the sequential one or that thread's partial work on it, and a log of results that is sequential |
| BookLock.MutualExclusion | core/thread_utils.h:22-30 | over all interleavings at most one thread holds the lock, and the flag is set while one does |
| BookLock.CallsAreAtomic | bitfinex/order_book_p.h:30-33 | for every call there is a state of the run during the call on whose book the operation acts as one step: its result is the one it gives on that book, and the book afterwards is what it makes of it; what get_tob returns is the top of that one book |
| BookLock.RealTimeOrder | core/thread_utils.h:16-33 | an operation entered after another one was about to return takes effect behind it |
| BookLock.LogIsReplay | bitfinex/order_book_p.h:118-143 | the book after any operations done one at a time is the replay of the updates since it was last cleared |
| BookLock.TobIsOfHistory | bitfinex/order_book_p.h:146-153 | under any interleaving, each level that get_tob returns is the one of its rank in the history of the updates that have taken effect: prices with orders, ranked, with the quantity of the update that opened the level |
| BookLock.QuietBookIsSequential | bitfinex/order_book_p.h:118-154 | while the lock is free the book in memory is that of the logged operations, done one at a time |
| Subscription.StepKeepsInv | bitfinex/market_data_feed.cpp:52-104 | what every step of registering, timing out, collecting, answering and publishing keeps |
| Subscription.IdsArePartitioned | bitfinex/market_data_feed.cpp:59-104 | in every run each id given out is in exactly one place: pending, being answered or fulfilled; no id is answered twice; a delivered book carries the channel of the answer that named its id |
| Subscription.PromisesAreKept | bitfinex/market_data_feed.cpp:65-103 | a fulfilled promise and a returned call of subscribe, timed out or not, never change again |
| Subscription.IdsAreUnique | bitfinex/market_data_feed.cpp:59-61 | two calls of subscribe never get the same id, and an id is fresh when given out |
| Subscription.FastPathIsLookup | bitfinex/market_data_feed.cpp:97-135 | in every run a book is cached exactly after one answer, which is while one book is registered unless several answers have named one channel only; and every subscriber's book is the one that updates of its channel go to, if and only if no two answers have named the same channel |
| Subscription.FastPathIsLookupIff | bitfinex/market_data_feed.cpp:122-135 | in every run the fast path differs from the lookup exactly for a channel that is not registered after one answer, and then leads to the book of that answer |
| Subscription.RepeatedChannel | bitfinex/market_data_feed.cpp:97-103 | a run in which a repeated channel leaves a client with a book that no update reaches |
| MarketDataFeed.HeartbeatIsHarmlessIff | bitfinex/market_data_feed.cpp:141-142 | a heartbeat leaves a book unchanged, whatever side it is taken for, if and only if the book has no level at price 0 |
| MarketDataFeed.HeartbeatLeavesFeed | bitfinex/market_data_feed.cpp:115-145 | a heartbeat of any channel leaves every book of a feed without price 0 unchanged |
| MarketDataFeed.MarketDataFeed.RegisterSubscription | bitfinex/market_data_feed.cpp:56-62 | hands out the next id with a pending promise and changes nothing else |
| MarketDataFeed.MarketDataFeed.OnMessageEvent | bitfinex/market_data_feed.cpp:78-113 | fulfils the promise of a pending id once, with a new empty book that carries the channel of the answer and is registered if the channel is new; throws exactly when an answer lacks one of the two ids; everything else is left alone |
| MarketDataFeed.AnswerIsAccepted | bitfinex/market_data_feed.cpp:83-103 | an answer that names a pending id and a channel in digits moves the id from the pending to the fulfilled ones, registers an empty book unless the channel has one, and caches it if it is the first |
| MarketDataFeed.AtoiReads | bitfinex/market_data_feed.cpp:87-91 | ids are read as the signed number of their digits, whatever follows |
| MarketDataFeed.AtoiSkips | bitfinex/market_data_feed.cpp:87-91 | white space in front of them is skipped, and without digits they are 0 |
| MarketDataFeed.MarketDataFeed.OnMessageUpdateP | bitfinex/market_data_feed.cpp:115-145 | changes one book, the cached or the registered one, as the update says, and no other |
| MarketDataFeed.BookIsReplay | bitfinex/market_data_feed.cpp:78-145 | in an orderly history every registered book is what the updates of its own channel make of the empty book |
| MarketDataFeed.MarketDataFeed.HandleCall | bitfinex/market_data_feed.cpp:78-145 | a callback of the parser changes the feed as the history's function says, whatever an unset quantity holds |
| MarketDataFeed.EndToEnd | bitfinex/market_data_feed.cpp:30-145 | however the stream is cut and clients subscribe in between, the updates of a channel are one for one those that the complete messages carry for it, a price is in the registered book exactly when the latest one of its side and price left orders there, and its quantity is that of the one that opened the level |
| FeedProtocol.HistoryIsRun | bitfinex/market_data_feed.cpp:52-113 | every history of the feed is a run of the subscription protocol with the same ids pending and fulfilled, the same channels registered and the same one cached; an orderly history is one with distinct channels |
| FeedProtocol.CacheIsExact | bitfinex/market_data_feed.cpp:97-135 | in every history routing is the map lookup except for unregistered channels while a book is cached, and in an orderly one a book is cached exactly when one is registered |
| DenseMap.ShapeFits | core/dense_map.h:52-56 | the buckets asked for fit into one register, or into those in front of the last one and into no fewer |
| DenseMap.HashIsCongruent | core/dense_map.h:129-140 | the hash index differs from the key by whole rounds of the buckets, and is 0 when there is one register |
| DenseMap.MaskFindsFirstLane | core/dense_map.h:76-80 | the comparison mask is zero exactly when no lane is equal, and its lowest bit, divided by the key width, is the first equal lane |
| DenseMap.FindIsExact | core/dense_map.h:144-179 | on well-placed keys, scanning by windows with early exit finds exactly the keys that are there, each in its slot |
| DenseMap.EmptySlotStops | core/dense_map.h:144-179 | the scan does not go on behind a register with an empty slot |
| DenseMap.InsertIsWellPlacedIff | core/dense_map.h:84-104 | an insert keeps the keys well placed if and only if its free slot lies in the span that is scanned for the key |
| DenseMap.InsertedIsFoundIff | core/dense_map.h:84-104 | an inserted key is found afterwards if and only if that is so; otherwise inserting it again fills a second slot behind the first, or fails |
| DenseMap.SpillKeyIsLost | core_test/ut_dense_map.cpp:61-73 | the key 33 in an empty map of 40 slots is inserted, not found, and inserted again |
| DenseMap.InsertsRefineSet | core/dense_map.h:84-179 | after any run of inserts that meets the span condition no key sits in two slots, exactly the inserted keys are found, and the full slots are as many as the distinct keys |
| DenseMap.InsertIsForGoodIff | core/dense_map.h:84-179 | whatever is inserted later, a new key is found for good if its free slot lies in the span that is scanned for it, and never otherwise |
| DenseMap.RunIsFoundIff | core/dense_map.h:84-179 | after any run of inserts every key of the run is found if and only if the run meets the span condition |
| DenseMap.DenseIndex.OffsetAndMaskFind | core/dense_map.h:144-179 | the vector scan returns offset and mask of the slot, or a zero mask |
| DenseMap.DenseIndex.FindIx | core/dense_map.h:74-81 | the slot of a stored key, and the bucket count for any other |
| DenseMap.DenseIndex.InsertKey | core/dense_map.h:84-104 | changes at most the first empty slot from the hash index on, reports the slot that holds the key, old or new, and fails without a change when there is no slot |
| DenseMap.DenseIndex.ScanNumberOfKeys | core/dense_map.h:106-125 | the number of distinct keys |
| DenseMap.DenseMap.Emplace | core/dense_map.h:222-229 | adds a new key with its value to the finite map, leaves an existing key alone, and hands out the slot of the key and of its value; a finite map it remains if and only if the key was there or its slot lies in the span that is scanned for it, and otherwise the key is not found afterwards; fails without a change when there is no slot |
| DenseMap.DenseMap.LookupPtr | core/dense_map.h:204-218 | the value in the slot that is found, which is the value of the finite map, or nothing |
| DenseMap.DenseMap.Size | core/dense_map.h:238-238 | the number of full slots, which is the size of the finite map |

## Left out

- `web_socket/*`: sockets, TLS and URLs; the connection is a buffer with append and consume.
- The `USE_BOOST_JSON` branch of `bitfinex/json_obj.cpp`: its library is not part of this model.
- `strtof`/`from_chars`, library functions: only what they read of exact decimals is modelled; rounding, exponents, infinities, hexadecimal and a leading decimal point are not.
- `std::atoi` and the `int` subscription counter outside the range of `int`, where C++ leaves the result undefined.
- The callbacks of malformed updates, beyond `CallsWithoutConsumingIff`: the other theorems about callbacks are about well-formed streams; `DispatchStable` and `CommitsOnBoundaries` are about all bytes.
- Raw books (`order_book_r.h`, `on_message_update_r`): switched off by `SUPPORTS_RAW_BOOK = false`.
- Clocks: the time-out of `subscribe` is a step that may happen at any time.
- Memory orders weaker than sequential consistency: each access of the step system is one atomic step.
- The waiting loop of `SpinMutex::lock`: it is the repeated `TestAndSet` step; that a thread gets the lock eventually is not claimed.
- `OrderBookSideP` as an object of its own: a side is a value member of the book, hence a sequence in its fields.
- The inside of `flat_map`: it is the sorted sequence that its documentation promises.
- SIMD instructions: a window is compared lane by lane.
- Keys equal to the empty key 0 and hashers other than the identity in `DenseMap`: `insert` asserts the former away.
- `CommaNum.CommaNum`: excludes the least 64-bit number, whose `labs` is undefined.
- `Semaphore`, `FormatString`, profiling helpers, `t_uint.h`, `subscription_cfg.cpp`: thin or unused here.
