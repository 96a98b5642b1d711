# Verification of the trading simulator's core

A Dafny model of the parts of `trading-sim`, `market-sim-bin` and `market-sub-bin` that keep state or do
arithmetic, with proofs that they agree with simpler specifications. The model covers four areas.

**Subscriptions and the wire protocol.** A user connection shows a fixed number of symbol slots. Scrolling
exchanges a visible symbol for a hidden one in place, cancels the old subscription and makes a new one; a lost
connection is replaced by a new one that subscribes everything again. Each change is written as a binary frame.
`User.UserConn.Run` covers every sequence of connections, scrolls, received frames, random draws and write
outcomes, with frames read between any two subscription changes. At every moment until the 32-bit SID counter
of the current connection wraps, the bytes written on it, parsed back and replayed, give the broker exactly one
SID for each wanted subject and none for any other, with the same subjects in the handler table, if and
only if no Unsub was lost on the connection and nothing wanted is unsubscribed at the moment. Every lost write is
counted against the connection's `Net`, so this is the case whenever the net lets all writes pass, or all but those
of Pongs.
The layers below are proved one by one: the little-endian codec, the frame round trip, the subject names, the
meaning of Sub and Unsub, the connection, and the link between slots, handles, handlers and SIDs (`Linking`).

**Sequence accounting.** A market goroutine numbers each symbol's messages across failures and reconnects.
`EndToEnd.ConservationWhileLive` follows them through its frames, a broker that may lose messages, the read
loop with a handler table that changes as the user scrolls, and the tracker of one subscription: arrivals and
gaps add up, the gaps are exactly the numbers that never arrived, and there are no duplicates;
`EndToEnd.Observe` puts the runs of all three parts together, for any subscription the user has had, from its Sub to
its Unsub. `Tracker` has the general law for arbitrary
arrival orders and 64-bit numbers, with the wrap-around errors of the arithmetic in closed form. `Counters` treats
the batched shared counters as a transition system with any number of goroutines and any schedule.

**Percentiles and merging.** Both interpolating percentiles are shown to be the inverse of the interpolated
distribution function, for all histograms. From that follow monotonicity, the equality of the Go and Python
versions, the bounds on the percentile of merged shards, and how far it can be from the exact nearest-rank
sample of all shards together.

**Partitioning, sampling and rates.** Percentage bands, modulo stripes, who publishes and who subscribes to
what, at which rate, weighted sampling without replacement, a shuffle that reaches every order exactly once, and the
tick arithmetic of the plain market simulator.

Claims that do not hold of the program are stated with the exact condition under which they do:

- An encoded frame is read back if and only if its lengths fit the header fields (`Frames.RoundTripIffInRange`).
- A new subscription keeps the broker's table exact if and only if its SID is not still bound
  (`Broker.SubscribeExact`); two subscribes of a connection get the same SID if and only if they lie a multiple
  of 2^32 apart (`Broker.SIDsCollide`).
- A parsed spec tiles the whole range if and only if the range is empty or some part is not blank
  (`Partition.ParseBands`): a spec of nothing but commas yields no classes at all.
- The broker's table and the handlers agree if and only if no SID was left over by an Unsub that could not be
  written (`Transport.BinarySub.ExactIff`); they agree with the user's slots if and only if, besides, no slot
  is empty and the private feeds are there (`User.UserConn.AgreesIff`). If the lost writes are those of Pongs they
  do (`User.UserConn.AgreesIfWritten`).
- All built-in tick classes exist if and only if there are at least five symbols (`Partition.DefaultTickClasses`).
- One step of the tracker is right if and only if the last number was not the largest one (or 0 follows it) and
  fewer than 2^63 numbers were skipped (`Tracker.StepExactIff`).
- Numbers are consecutive if and only if no step wraps and neither gaps nor duplicates are reported; where steps
  wrap, a report without either can be wrong (`Tracker.CleanIffConsecutive`, `Tracker.CleanFailsAtTheTop`).
- The percentile goes on rising past 100 if and only if the overflow bucket is empty or has no width
  (`Percentile.MonotonePast100`).
- The merged histogram is independent of the order of the files if and only if all bounds are equal
  (`Merge.OrderIndependentIff`).
- An account goroutine's local count passes its batch size if and only if the publish that filled the batch
  failed and the next event of its kind came before any publish succeeded again (`Counters.OvershootIff`).
- After a failed write, `market-sim-bin` reports the messages it wrote if and only if those were a multiple of
  1024 and a batch is smaller than that (`SimBin.CountAfterFailureIff`).
- `market-sub-bin` says that it samples one message in a hundred; the code takes six of every 512
  (`SubBin.SamplingLaw`). It comes to one in a hundred if and only if there are fewer than 512 messages, or 600
  to 1011 with the last two digits below 12 (`SubBin.OneInAHundredIff`).
- The connections of `market-sim-bin` together keep to the requested rate if and only if it is at least one
  message per connection and second (`Rate.TotalRate`).

## How to read the model

Strings are byte sequences, as in Go. Integers are unbounded unless a width matters; then the width is written
out (SIDs, sequence numbers, times, header lengths, shared counters). A connection is the bytes written to it,
the bytes that will be read from it, and a `Net`: a function that says which of its writes succeed. Nets, random
draws, clock readings, and the order of events on a connection are arbitrary, so that each statement is about
all of them. Floating-point numbers are reals.

Objects that the program updates in place are classes (`BinarySub`, `UserConn`, `SeqState`, `ClassPublisher`,
`ShardStats`, `TierPublisher`, `Buffer`), each with a `Valid` predicate, and methods whose contracts tie the new state
to specification functions. Paths below are relative to the repository root.

| file | subject |
|---|---|
| Bytes, Frames, Encoders, Subjects, Msg | byte strings, frames, buffers, subject names, the message prefix |
| Broker, Transport, Linking, User | what frames mean, the connection, slots and handlers, the user |
| Market, Account, Counters | the publishing goroutines and their counters |
| Tracker, EndToEnd | gap accounting, from publisher to subscriber |
| Partition, Ownership, Sampling, Shuffling, Visibility, Seqs | stripes, bands, ownership, sampling, shuffling, the initial split |
| Percentile, Merge, NearestRank, Sums | histograms and percentiles |
| Rate, SimBin, SubBin | the plain market simulator and its subscriber |

## Model

| member | source | states |
|---|---|---|
| Bytes.GetPut | simulators/trading-sim/binproto.go:40-42 | Writing n in w little-endian bytes and reading it back gives n modulo 256^w: the truncating conversions of the encoders |
| Bytes.PutGet | simulators/trading-sim/transport.go:213-216 | Any bytes are the encoding of the number read from them |
| Bytes.PutLEDigit | simulators/trading-sim/binproto.go:40-42 | Byte i of a number written little-endian is its digit of 256^i |
| Bytes.Copy | simulators/trading-sim/binproto.go:43-44 | Copying into a buffer changes exactly the bytes copied over |
| Frames.FirstOfEncode | simulators/trading-sim/transport.go:210-231 | The reader recovers an in-range frame from the front of any stream and stops exactly behind it |
| Frames.RoundTripIffInRange | simulators/trading-sim/binproto.go:40-42 | Encoding then parsing gives the frame back if and only if its three lengths fit their fields |
| Frames.EncodedBytes | simulators/trading-sim/binproto.go:37-44 | An in-range frame byte for byte: op code, the three lengths lowest byte first, subject, reply, payload |
| Frames.ParseEncodeAll | simulators/trading-sim/transport.go:209-240 | Any list of in-range frames is recovered from their concatenated bytes, whatever incomplete bytes follow |
| Frames.ParseTruncated | simulators/trading-sim/transport.go:210-224 | A stream cut off at any byte yields exactly the whole frames before the cut |
| Frames.EncodeParse | simulators/trading-sim/transport.go:209-240 | Every byte stream is the encoding of its frames followed by an incomplete rest: nothing is invented or lost |
| Frames.EncodeAllAppend | simulators/trading-sim/transport.go:68-72 | Bytes written one frame after the other are the bytes of the concatenated lists |
| Encoders.PutFrame | simulators/trading-sim/binproto.go:37-44 | Exactly one frame's bytes are laid out at the given place, and every other byte of the buffer stays as it was |
| Encoders.SubFrameBytes | simulators/trading-sim/binproto.go:48-57 | The bytes are the encoding of a Sub frame with the SID as payload |
| Encoders.UnsubFrameBytes | simulators/trading-sim/binproto.go:60-68 | The bytes are the encoding of an Unsub frame with the SID as subject |
| Encoders.PongBytes | simulators/trading-sim/binproto.go:70 | The constant nine bytes are the encoding of an empty Pong frame |
| Broker.MsgBytes | simulators/trading-sim/binproto.go:37-44 | The bytes of a message: op code 3, subject length, no reply, payload length, subject, payload |
| Broker.SubBytes | simulators/trading-sim/binproto.go:48-57 | The bytes of a Sub: op code 5, and the SID as four bytes of payload |
| Broker.UnsubBytes | simulators/trading-sim/binproto.go:60-68 | The bytes of an Unsub: op code 6, and the SID as four bytes of subject |
| Encoders.NoFailuresIff | simulators/trading-sim/transport.go:185-188 | No write of a connection has failed if and only if its net let every one of them pass |
| Encoders.Buffer.AppendMsg | simulators/trading-sim/binproto.go:29-45 | The contents grow by exactly one encoded message, with or without reallocation, whatever stale bytes lie behind them |
| Encoders.Buffer.AppendMsgGrowing | simulators/market-sim-bin/main.go:50-65 | The growing variant has the same effect for any growth policy that makes the frame fit, and stops |
| Encoders.BinaryPub.Publish | simulators/trading-sim/transport.go:68-73 | A successful publish sends exactly its own frame from the reused buffer; a failed one adds nothing |
| Subjects.PaddedInjective | simulators/trading-sim/user.go:119 | Zero-padded decimals are injective for all naturals, also those wider than the pad |
| Subjects.PaddedIff | simulators/trading-sim/user.go:119 | What is printed is the one numeral of the number that has at least the given width and no leading zero beyond it |
| Subjects.Prefixes | simulators/trading-sim/user.go:175-181 | The three families are market.sym, orders. and trades. |
| Subjects.PaddedByExample | simulators/trading-sim/user.go:119 | A padded number in digits, and one wider than its pad |
| Subjects.SubjectInjective | simulators/trading-sim/user.go:175-181 | Market, order and trade subjects never coincide, within a family or across families |
| Subjects.SubjectFits | simulators/trading-sim/binproto.go:51 | Subjects of 64-bit indices are at most 29 bytes, so their length is never truncated |
| Broker.SubMeaning | simulators/trading-sim/binproto.go:47-57 | Replaying a Sub frame binds its SID to its subject |
| Broker.UnsubMeaning | simulators/trading-sim/binproto.go:59-68 | Replaying an Unsub frame drops its SID |
| Broker.WireTableOfFrames | simulators/trading-sim/binproto.go:1-14 | Parsing and replaying the bytes of in-range frames means what the frames mean |
| Broker.SubscribeExact | simulators/trading-sim/transport.go:179-189 | A new subject under a SID keeps the table exact (one SID for each subject and no others) if and only if the SID is not still bound |
| Broker.UnsubscribeExact | simulators/trading-sim/transport.go:150-158 | Dropping a subject's own SID keeps the table exact for the remaining subjects |
| Broker.UnwrittenChangeBreaks | simulators/trading-sim/transport.go:154-157 | A table is exact for one set of subjects only, so an Unsub that is not written breaks the agreement |
| Broker.ExactIffNoOrphans | simulators/trading-sim/transport.go:150-158 | When every handled subject owns a SID, the table is exact for the handled subjects if and only if no other SID is left over |
| Broker.SIDsCollide | simulators/trading-sim/transport.go:181-182 | Two subscribes get the same SID if and only if they lie a multiple of 2^32 apart |
| Transport.ReadFrame | simulators/trading-sim/transport.go:210-224 | With a reused, growing body buffer it succeeds exactly when a whole frame is there, yields exactly that frame's body, and leaves exactly the rest of the stream |
| Transport.LedgerAfterSubscribe | simulators/trading-sim/transport.go:179-196 | A written subscribe gives its subject a free SID, an unwritten one withdraws the handler; either way only a SID the subject had before is left over |
| Transport.LedgerAfterUnsubscribe | simulators/trading-sim/transport.go:150-158 | A written unsubscribe drops the SID; an unwritten one leaves it over |
| Transport.HistoryStep | simulators/trading-sim/transport.go:209-240 | One read step takes the next frame of the stream, and its callback is that of the handlers of the moment |
| Transport.ByOpCode | simulators/trading-sim/transport.go:226-239 | Only frames with op code 3 or 4 whose subject has a handler cause a callback, and only those with op code 1 are Pings |
| Transport.BinarySub.ExactIff | simulators/trading-sim/transport.go:150-196 | The table replayed from the bytes written agrees exactly with the handlers if and only if no SID has been left over; Sub frames that could not be written do not matter |
| Transport.BinarySub.constructor | simulators/trading-sim/transport.go:160-177 | A new connection has no handlers, has written nothing, and agrees with the broker |
| Transport.BinarySub.NextIsFresh | simulators/trading-sim/transport.go:181-182 | Until 2^32 subscribes have been made, the next SID is not bound at the broker |
| Transport.BinarySub.Subscribe | simulators/trading-sim/transport.go:179-196 | For any subject: the handler is filed and one Sub frame with the next SID written; on a failed write the handler is withdrawn and no handle returned; the invariant holds either way |
| Transport.BinarySub.Unsubscribe | simulators/trading-sim/transport.go:150-158 | The handler is withdrawn even if the Unsub frame cannot be written; the invariant holds either way |
| Transport.BinarySub.ReadOne | simulators/trading-sim/transport.go:209-240 | One iteration takes exactly one whole frame, makes exactly the callback of its exact subject, answers a Ping and nothing else with a Pong unless its write fails, and leaves subscriptions alone |
| Transport.BinarySub.ReadLoop | simulators/trading-sim/transport.go:202-241 | On any stream the callbacks are those of its whole frames in order, and the Pongs those of its Pings |
| Linking.LinkedDrop | simulators/trading-sim/user.go:258-260 | Withdrawing a slot's handle keeps all other slots linked to their handlers and SIDs |
| Linking.LinkedRetarget | simulators/trading-sim/user.go:257 | Pointing an empty slot at a hidden symbol keeps the link |
| Linking.LinkedAdd | simulators/trading-sim/user.go:262 | Subscribing an empty slot links it; a failed write leaves it empty and unlinked |
| Linking.LinkedPrivate | simulators/trading-sim/user.go:174-187 | Subscribing a private feed does not disturb the slots |
| Linking.LivesRead | simulators/trading-sim/transport.go:230-238 | Reading one more frame, with the handler of every live slot in place, prolongs the life of each live subscription and leaves the ended ones as they were |
| Linking.CompleteIff | simulators/trading-sim/user.go:173-194 | The handlers are exactly the wanted subjects if and only if every slot is live and an algo user's feeds are there |
| Linking.HandlersAreWanted | simulators/trading-sim/user.go:249-262 | After any writes, failed or not, no handler exists for a subject that is not wanted |
| Linking.WhoseHandler | simulators/trading-sim/user.go:173-194 | A feed has a handler only if it is that of a live slot, or the user's own and the user an algo user |
| User.UserConn.constructor | simulators/trading-sim/user.go:146-147 | A user starts with a valid split of the symbols, its screen's share of the slots on its screen, and no live slots |
| User.UserConn.Interlude | simulators/trading-sim/transport.go:202-241 | The read loop may take any number of steps between two subscription changes without disturbing them |
| User.UserConn.ReadInOrder | simulators/trading-sim/transport.go:209-240 | What has been read is a prefix of what was sent, and was delivered with handlers filed under their own subjects |
| User.UserConn.SubscribeSlot | simulators/trading-sim/user.go:117-138 | An empty slot gets a handle for its own symbol's subject, and a new life begins, unless the write fails; no other slot changes |
| User.UserConn.Connect | simulators/trading-sim/user.go:168-194 | A new connection subscribes the private feeds of an algo user and every visible slot while frames already come in; the lost Subs are exactly the empty slots and the missing private feeds |
| User.UserConn.HandledFeeds | simulators/trading-sim/user.go:173-194 | Unless a Sub was lost, the feeds with a handler are exactly the visible symbols and, for the first algoUsers users, their own two |
| User.UserConn.PrivateHandlers | simulators/trading-sim/user.go:174-187 | Whatever is lost, no private feed of another user is handled, and none at all by a user who is not an algo user |
| EndToEnd.PrivateFeedsPaired | simulators/trading-sim/account.go:40-52 | A connected user handles its private feeds if and only if some account shard publishes to it, for any tiers that tile the algo users and any number of shards |
| User.UserConn.ReplaceInPool | simulators/trading-sim/user.go:249-255 | The new symbol's place in the hidden pool goes to the old symbol, and no other place changes |
| User.UserConn.Withdraw | simulators/trading-sim/user.go:258-260 | The slot's handle is cancelled and forgotten, and nothing else is; the life of its subscription ends here |
| User.UserConn.Swap | simulators/trading-sim/user.go:245-262 | One visible and one hidden symbol change places, the subscription follows, and everything stays connected |
| User.UserConn.ScrollSub | simulators/trading-sim/user.go:227-264 | For all draws, exactly the configured number of exchanges is made (none when all symbols are visible), keeping split, links and agreement |
| User.UserConn.Handle | simulators/trading-sim/user.go:197-221 | One event: a scroll (none after stop), or a step of the read loop |
| User.UserConn.RunSession | simulators/trading-sim/user.go:160-221 | A whole connection, with reading between any two subscription changes: its exchanges, its subscribe count, that private feeds are handled exactly by algo users unless a Sub was lost, exactly when the wire agrees at its end, and that it does whenever the connection let every write pass, or every one but those of Pongs |
| User.UserConn.AgreesIff | simulators/trading-sim/user.go:173-264 | As long as no Sub was written with a SID still bound: the replayed bytes and the handlers have exactly the wanted subjects if and only if no Unsub was lost, no slot is empty and the private feeds are there |
| User.UserConn.AgreesIfWritten | simulators/trading-sim/transport.go:150-196 | The failures of the connection's writes are the lost Subs, the lost Unsubs and the lost Pongs; if they are all Pongs, in particular if there are none, the wire agrees with the slots |
| User.UserConn.LivedIsHandled | simulators/trading-sim/user.go:245-262 | Every subscription of the connection, from its Sub to its Unsub or until now, has its handler in the table for every frame read in between |
| User.UserConn.Run | simulators/trading-sim/user.go:140-223 | For every sequence of connections, events and write outcomes: exactly when the wire agrees on the current connection, and that it does whenever that connection let its writes pass (Pongs aside), the scroll count, and visible slots that are the initial ones after exactly the swaps made |
| User.EventCounts | simulators/trading-sim/user.go:197-221 | The scrolls and read steps of a connection are those among its events, and its swaps the scrolls times the swaps of one |
| User.RunCounts | simulators/trading-sim/user.go:140-223 | The same for all connections of a run |
| Seqs.SplitLengths | simulators/trading-sim/user.go:318-323 | Disjoint duplicate-free lists that cover [0, n) have n entries together |
| Seqs.ExchangeKeepsSplit | simulators/trading-sim/user.go:245-257 | An exchange between the lists keeps them duplicate-free, disjoint and complete |
| Seqs.ChainIsShort | simulators/trading-sim/user.go:225-264 | n swaps change at most n visible slots and keep both lengths |
| Shuffling.Shuffle | simulators/trading-sim/user.go:287-289 | The loop makes of its draws what they stand for: each position, from the last on, is exchanged with the one drawn for it; the result is a permutation |
| Shuffling.EveryOrder | simulators/trading-sim/user.go:287-289 | Every order of the screen comes out for some draws |
| Shuffling.OneOrderEach | simulators/trading-sim/user.go:287-289 | No two lists of draws give the same order, so equally likely draws make all orders equally likely |
| Visibility.PickFromScreen | simulators/trading-sim/user.go:273-292 | Half the slots, or as many as the screen has, are the first symbols of the screen as the draws shuffle it |
| Visibility.BuildVisible | simulators/trading-sim/user.go:272-325 | For all draws the two lists are duplicate-free, disjoint and together all symbols; every slot is filled: first the screen's share, as shuffled, then what the draws sample from the other symbols; what is left over is in ascending order |
| Visibility.OutsideIs | simulators/trading-sim/user.go:295-300 | What is collected after a choice is exactly the symbols outside it, in ascending order |
| Sampling.CumulativeShape | simulators/trading-sim/partition.go:54-64 | The cumulative weights are positive, strictly increasing and end at one |
| Sampling.DrawSelects | simulators/trading-sim/partition.go:71-75 | A draw from (0, 1) selects a position if and only if it falls into that position's interval, whose width is its share of the weight |
| Sampling.DrawnInInterval | simulators/trading-sim/partition.go:71-75 | A draw always lands on the entry whose interval holds it; the clamp to the last entry is never needed |
| Sampling.PopularNeverLess | simulators/trading-sim/partition.go:28-30 | With non-increasing weights a more popular symbol never has the smaller interval |
| Sampling.SearchReals | simulators/trading-sim/partition.go:71 | Binary search finds the first cumulative weight that reaches the draw |
| Sampling.BuildCumulative | simulators/trading-sim/partition.go:54-64 | The two passes compute the normalised cumulative weights |
| Sampling.DrawDistinct | simulators/trading-sim/partition.go:66-80 | The loop collects the distinct entries its draws stand for, and stops when there are enough or after 30 k draws |
| Sampling.FillUp | simulators/trading-sim/partition.go:81-90 | The fill takes the first entries not yet picked and reaches min(k, distinct entries) |
| Sampling.Sample | simulators/trading-sim/partition.go:43-92 | For all draws the result is what the draws select, filled up: exactly min(max(k, 0), n) distinct entries of a duplicate-free pool |
| Partition.ShardIndices | simulators/trading-sim/partition.go:18-24 | The loop lists the shard's stripe |
| Partition.StripeMembers | simulators/trading-sim/partition.go:16-24 | An index is in a stripe if and only if it is below the total and congruent to the shard |
| Partition.StripeSizes | simulators/trading-sim/partition.go:16-24 | Stripe sizes differ by at most one, and earlier shards are never the smaller ones |
| Partition.StripeCountStep | simulators/trading-sim/partition.go:20-22 | One more index enlarges exactly one stripe, that of its remainder |
| Partition.Deal | simulators/market-sub-bin/main.go:178-194 | Dealing symbols out over the (clamped) number of connections gives each the stripe a shard of that number would own |
| Partition.Allot | simulators/trading-sim/partition.go:216-255 | At the end of the loop the bands tile what has been handed out, each with its exact share but for one that is cut short or absorbs the rest |
| Partition.ParseBands | simulators/trading-sim/partition.go:208-261 | The bands tile [0, total) if and only if total is 0 or some part is not blank, and follow the non-blank parts |
| Partition.BandsUnique | simulators/trading-sim/partition.go:239-259 | Tiling and following the parts determine the bands completely |
| Partition.BandWidths | simulators/trading-sim/partition.go:239-245 | Every band but the last is as wide as its percentage of the total, to the nearest index and at least 1; the last is no wider, unless its part is the last |
| Partition.TicksByExample | simulators/trading-sim/partition.go:302-334 | The default classes of 500 symbols in figures |
| Partition.RealisticTicksByExample | simulators/trading-sim/partition.go:268-300 | The realistic classes of 500 symbols in figures |
| Partition.TiersByExample | simulators/trading-sim/partition.go:406-436 | The default tiers of 20 algo users in figures |
| Partition.BuiltInBands | simulators/trading-sim/partition.go:280-299 | A list without blank parts tiles without the final correction |
| Partition.AllBandsIff | simulators/trading-sim/partition.go:282-298 | Every part gets a band if and only if the shares before the last leave something over |
| Partition.DefaultTickClasses | simulators/trading-sim/partition.go:302-334 | The default classes tile the symbols with their shares; all four are there if and only if there are at least five symbols |
| Partition.RealisticTickClasses | simulators/trading-sim/partition.go:268-300 | The same for the realistic preset |
| Partition.DefaultAlgoTiers | simulators/trading-sim/partition.go:406-436 | The default tiers tile the algo users; all three are there if and only if there are at least three |
| Partition.ParseScreens | simulators/trading-sim/partition.go:119-160 | The non-empty clamped screens of the spec in order, or the built-in ones if there are none; always at least one |
| Partition.KeptShows | simulators/trading-sim/partition.go:124-156 | A symbol is on one of the spec's screens if and only if it exists and lies within some part, both ends included |
| Partition.DefaultScreens | simulators/trading-sim/partition.go:162-191 | The built-in screens for any number of symbols |
| Partition.BuiltInScreensCover | simulators/trading-sim/partition.go:162-191 | The built-in screens together show exactly the first 500 symbols |
| Partition.BuiltInScreensShow | simulators/trading-sim/partition.go:162-191 | home shows the first 50, trending the first 100, midcap those from 100 to 499; which of them exist for how many symbols |
| Partition.Indices | simulators/trading-sim/partition.go:105-115 | A screen's indices, clamped to the number of symbols |
| Ownership.Launch | simulators/trading-sim/market.go:35-48 | One goroutine for each band the shard owns a part of, with the band's name and rate and that part as its members |
| Ownership.JobIsABands | simulators/trading-sim/market.go:35-48 | Every goroutine has the name and rate of one band, and publishes exactly the shard's part of that band |
| Ownership.BandHasAJob | simulators/trading-sim/market.go:35-48 | Every band of which the shard owns anything has its goroutine |
| Ownership.PublishedAtBandRate | simulators/trading-sim/market.go:47 | Whatever index is published is published at the rate of the one band that holds it |
| Ownership.JobSubjectsDistinct | simulators/trading-sim/market.go:41-45 | The subjects of one goroutine are all different |
| Ownership.SolePublisher | simulators/trading-sim/account.go:40-52 | Every index is published by exactly one shard, in one goroutine, once; nothing else is published |
| Ownership.PublishedIff | simulators/trading-sim/account.go:40-52 | The indices published by some shard are exactly those that the bands tile |
| Ownership.SoleSubscriber | simulators/trading-sim/user.go:55 | Every user belongs to exactly one user shard |
| Ownership.AlgoFeedIsPaired | simulators/trading-sim/user.go:143 | Every algo user's feeds have exactly one publishing and one subscribing shard, for any shard counts of the two roles |
| Msg.Encode | simulators/internal/msg/msg.go:19-22 | Exactly the first 16 bytes are replaced by time and number |
| Msg.DecodeEncoded | simulators/internal/msg/msg.go:26-34 | Every number survives the round trip, and the latency is the difference of the two clock readings in 64-bit arithmetic |
| Msg.AddWraps | simulators/trading-sim/user.go:30-35 | Adding with 64-bit wrap-around step by step comes to the wrapped sum |
| Market.TriesSplit | simulators/trading-sim/market.go:85-91 | A symbol's sequence counter is its successes plus its failures |
| Market.RoundRobin | simulators/trading-sim/market.go:87-91 | Whatever fails, successes per symbol differ by at most one, the leaders being those before the current index |
| Market.ClassPublisher.Tick | simulators/trading-sim/market.go:84-95 | One tick numbers and publishes; only a success advances the index and counts; a failure still uses up a number |
| Market.ClassPublisher.RunConnection | simulators/trading-sim/market.go:82-97 | A connection ends at the first failure, and carries exactly the frames of its successes |
| Market.ClassPublisher.Run | simulators/trading-sim/market.go:75-105 | Over all connections the shared counter grows by exactly the successes, counters stay numbered, every message has the given size, and the wire carries exactly the successes |
| Market.OneConnectionUnique | simulators/trading-sim/market.go:75-105 | The ticks before stop and the connection's net determine its outcomes |
| Market.ConnectionsUnique | simulators/trading-sim/market.go:75-105 | The connections of a run determine all its outcomes |
| Account.EvenTurns | simulators/trading-sim/account.go:92-95 | Whatever fails, a tier's attempts are spread over its users like a stripe, so that they differ by at most one |
| Account.TierPublisher.PublishNext | simulators/trading-sim/account.go:92-103 | The user whose turn it is gets an order or a trade on its own feed, numbered consecutively over the tier |
| Account.TierPublisher.CountEvent | simulators/trading-sim/account.go:99-114 | An attempt is counted whether or not it succeeds; only a success looks at the batch size |
| Account.TierPublisher.Tick | simulators/trading-sim/account.go:91-115 | Shared plus local counts grow by exactly the attempt, in its own counter |
| Account.TierPublisher.Run | simulators/trading-sim/account.go:82-125 | After the final flush both shared counters have grown by exactly the attempts of their kind, every message has the given size, and the wire carries exactly the events that were written |
| Counters.Conserved | simulators/trading-sim/market.go:91-105 | Under every interleaving the shared counter plus what goroutines still hold equals the attempts counted |
| Counters.ExactWhenDone | simulators/trading-sim/account.go:124-125 | Once all goroutines have stopped the shared counter is exact |
| Counters.MarketStaysBelow | simulators/trading-sim/market.go:91-95 | A market goroutine never holds 512 or more between attempts |
| Counters.FullIff | simulators/trading-sim/account.go:97-114 | An account goroutine's local count stands at 256 if and only if the publish that filled the batch failed and nothing of the kind, and no success, has followed |
| Counters.OvershootIff | simulators/trading-sim/account.go:97-114 | It passes 256 if and only if the publish that filled the batch failed and the next event of the kind came before any success |
| Counters.OvershootHappens | simulators/trading-sim/account.go:104-110 | A concrete run in which it does |
| Counters.LocalIsLoops | simulators/trading-sim/account.go:97-114 | Under every schedule each goroutine's local count is that of its own sequential loop, which the three rows above are about |
| Tracker.ShardStats.CountGaps | simulators/trading-sim/user.go:124 | The shard's gap counter is the 64-bit reading of the sum of all gaps added |
| Tracker.SeqState.OnMessage | simulators/trading-sim/user.go:118-135 | Every payload is counted as received; one that decodes moves the tracker by one step; the shard's counters grow by exactly that; every 500th number with a positive latency is recorded |
| Tracker.SeqState.OnMessages | simulators/trading-sim/user.go:117-137 | A run of arrivals moves the tracker along its decoded numbers, and the shared counters by exactly what it adds |
| Tracker.StepExactIff | simulators/trading-sim/user.go:122-127 | One step counts exactly the skipped numbers or the duplicate if and only if the 64-bit arithmetic does not wrap |
| Tracker.StepLaw | simulators/trading-sim/user.go:122-129 | One step: gap and duplicate against the movement of the numbers, with the wrap-around error of the 64-bit arithmetic in closed form |
| Tracker.AccountingLaw | simulators/trading-sim/user.go:121-130 | For every order and repetition: gaps plus further arrivals minus duplicates equal the distance plus all backward movement plus the wrap-around errors of the single steps |
| Tracker.NoError | simulators/trading-sim/user.go:123-124 | Where no step wraps the error is zero |
| Tracker.ExactAccountingIff | simulators/trading-sim/user.go:121-130 | The law holds without an error term if and only if the errors cancel; where no step wraps, however large the numbers, there are none |
| Tracker.LawFailsAtTheTop | simulators/trading-sim/user.go:123 | After the largest number, 5 is booked as five missed messages |
| Tracker.CleanIffConsecutive | simulators/trading-sim/user.go:109-131 | For every stream: the numbers are consecutive if and only if no step wraps and no gaps and no duplicates are reported |
| Tracker.CleanFailsAtTheTop | simulators/trading-sim/user.go:123-124 | A stream with wrapping steps whose two gaps cancel |
| Tracker.GapsAreTheMissingIff | simulators/trading-sim/user.go:34-35 | For increasing numbers there are no duplicates, and the gaps are exactly the numbers in range that never arrived if and only if no step skips 2^63 or more |
| EndToEnd.Demultiplex | simulators/trading-sim/transport.go:230-238 | A subscription gets exactly the payloads of the frames with its own subject, in order |
| EndToEnd.DemultiplexEach | simulators/trading-sim/transport.go:230-238 | The same while handlers for other subjects come and go |
| EndToEnd.SlotNumbers | simulators/trading-sim/market.go:66-89 | A symbol's attempts are numbered 0, 1, 2, ... across failures and reconnects |
| EndToEnd.WireCarriesSuccesses | simulators/trading-sim/market.go:85-89 | For each symbol the wire carries the payloads of its successful attempts, which are among all its attempts |
| EndToEnd.ConservationWhileLive | simulators/trading-sim/user.go:109-138 | Publisher, lossy order-keeping broker, changing handler table, one subscription live for any stretch: arrivals plus gaps cover first to last, gaps are what never arrived, no duplicates |
| EndToEnd.Conservation | simulators/trading-sim/user.go:117-131 | The same for all whole frames of a stream that is read to its end with a fixed handler table |
| EndToEnd.PathAccounts | simulators/trading-sim/user.go:109-138 | The same from what the invariants of a publisher and of a user's connection provide, for the life of a subscription |
| EndToEnd.Observe | simulators/trading-sim/user.go:109-223 | A publisher's whole run, a user's whole connection and the tracker of any subscription the user has had put together: the shard's counters are exact whenever the broker keeps the order of the symbol's messages |
| Percentile.PctFromHistogramPy | simulators/trading-sim/aggregate.py:27-53 | The Python loop computes the percentile of the specification for every p and every histogram, and 0 without samples |
| Percentile.PctFromHistogramGo | simulators/trading-sim/otel.go:186-225 | The Go loop computes the same, and on bounds in seconds it equals the Python version on the converted bounds |
| Percentile.BucketDataFromDP | simulators/trading-sim/otel.go:229-237 | Converted bounds and copied counts keep the shape of a histogram |
| Percentile.PctIsInverse | simulators/trading-sim/aggregate.py:32-52 | The percentile is at most v if and only if the interpolated distribution reaches p percent of the samples by v |
| Percentile.InsideBucket | simulators/trading-sim/aggregate.py:38-52 | The percentile lies within the limits of the selected bucket |
| Percentile.PctInBucket | simulators/trading-sim/aggregate.py:34-52 | The percentile is interpolated in the one bucket in which the target is reached |
| Percentile.AllInOneBucket | simulators/trading-sim/aggregate.py:38-52 | Samples in one bucket only: p percent of its width, from the bound below or from 0 |
| Percentile.OverflowEnd | simulators/trading-sim/aggregate.py:41-49 | With samples in the overflow bucket the 100th percentile lies beyond the last bound by the last width, is twice the only bound, or one second without bounds |
| Percentile.PctAtZero | simulators/trading-sim/aggregate.py:28-30 | The percentile at 0 is 0, and without samples every percentile is |
| Percentile.PctMonotone | simulators/trading-sim/aggregate.py:32-52 | For p in (0, 100] a higher percentile is never the smaller one |
| Percentile.PctAbove100 | simulators/trading-sim/aggregate.py:53 | Above 100 the last bound is returned |
| Percentile.MonotonePast100 | simulators/trading-sim/aggregate.py:53 | Monotonicity goes on past 100 if and only if the overflow bucket is empty or has no width |
| Percentile.DropPast100 | simulators/trading-sim/aggregate.py:53 | A histogram whose 101st percentile is below its 100th |
| Percentile.PctScales | simulators/trading-sim/otel.go:219 | Changing the unit of the bounds changes the percentile by the same factor |
| Merge.MergeChannel | simulators/trading-sim/aggregate.py:56-115 | Totals, rate, ratio and percentiles of the merged channel before rounding: the ratio times what was expected is what was received; histograms with other bounds than the first are skipped |
| Merge.RatesAdd | simulators/trading-sim/aggregate.py:91-96 | When all shards ran equally long, the merged rate is the sum of their own rates |
| Merge.RateOfTotals | simulators/trading-sim/aggregate.py:91-96 | In general the merged rate, taken over the sum of the elapsed times, is what was received, for each shard once |
| Merge.SumRealsAppend | simulators/trading-sim/aggregate.py:72 | Elapsed times add up file by file |
| Merge.PercentilesInOrder | simulators/trading-sim/aggregate.py:105-108 | The three reported percentiles are in order, and are the least values by which a half, 99 and 99.9 percent of the samples are reached |
| Merge.AddInto | simulators/trading-sim/aggregate.py:83-84 | Counts are added bucket by bucket |
| Merge.MergedColumns | simulators/trading-sim/aggregate.py:74-89 | Each merged bucket holds exactly the samples of that bucket in all files with the merged bounds, which are those of the first file with a histogram |
| Merge.TotalsOrderIndependent | simulators/trading-sim/aggregate.py:68-71 | The totals never depend on the order of the files |
| Merge.OrderIndependentIff | simulators/trading-sim/aggregate.py:79-89 | The merged histogram is the same for every order of the files if and only if all bounds are equal |
| Merge.MergedPctBetween | simulators/trading-sim/aggregate.py:105-108 | For any number of shards the merged percentile lies between the smallest and the largest of the shards' own |
| Merge.DeliveryRatio | simulators/trading-sim/stats.go:37-42 | The ratio lies in [0, 1], and times received plus missed is received; it is 0 if nothing arrived or nothing went wrong, and 1 exactly when the only trouble was duplicates |
| Merge.MergedRatioBetween | simulators/trading-sim/aggregate.py:99-103 | The merged ratio as it is reported lies between the shards' own, those without trouble counting as 1 |
| NearestRank.MergedIsHistogramOfUnion | simulators/trading-sim/aggregate.py:11-13 | Merging the shards' histograms gives the histogram of all samples together |
| NearestRank.NearestRankIsInverse | simulators/market-sub-bin/main.go:157-169 | The nearest-rank percentile is the least sample with at least p percent of the samples at or below it |
| NearestRank.NearestRankMonotone | simulators/market-sub-bin/main.go:161-168 | With its clamps it is monotone in every p |
| NearestRank.SelectedHoldsNearestRank | simulators/trading-sim/aggregate.py:34-37 | The bucket selected on the merged counts is the one that holds the nearest-rank sample of all samples |
| NearestRank.MergedPctAccuracy | simulators/trading-sim/aggregate.py:11-13 | The merged percentile and the exact nearest-rank sample of all shards lie in the same bucket |
| Rate.TickPlan | simulators/market-sim-bin/main.go:130-137 | Up to 1000 messages per second the computed interval gives exactly that many whole ticks of one message; above, 1000 ticks whose batches stay within the rate and less than 1000 below it |
| Rate.IntervalIs | simulators/market-sim-bin/main.go:130-134 | The tick interval is a message's share of a second in whole nanoseconds, or a millisecond above 1000 messages |
| Rate.SlowRate | simulators/market-sim-bin/main.go:130-137 | From 1 to 1000 messages per second there are exactly that many ticks of one message |
| Rate.FastRate | simulators/market-sim-bin/main.go:130-137 | Above 1000 there are 1000 ticks and the nominal rate falls short by less than 1000 |
| Rate.NominalExactIff | simulators/market-sim-bin/main.go:130-137 | The nominal rate is the requested one if and only if it is at most 1000 or a multiple of 1000 |
| Rate.TickFacts | simulators/market-sim-bin/main.go:135-137 | The branch that raises a batch to one message is never taken |
| Rate.TotalRate | simulators/market-sim-bin/main.go:207-210 | All connections together stay within the requested rate if and only if it is at least their number, and then fall short by less than 1000 each |
| SimBin.FillBatch | simulators/market-sim-bin/main.go:148-159 | A batch is the given number of whole frames, consecutively numbered, each with one of the connection's subjects |
| SimBin.RunPublisher | simulators/market-sim-bin/main.go:122-167 | The wire carries whole batches of messages of the given size numbered from 0; the shared count is exact on a normal end and, after a failed write, what had been flushed |
| SimBin.CountAfterFailureIff | simulators/market-sim-bin/main.go:155-162 | After a failed write the count is the messages written if and only if those are a multiple of 1024 and a batch is smaller |
| SimBin.CountAfterFailureIsOff | simulators/market-sim-bin/main.go:160-162 | It may come out too high as well as too low |
| SimBin.DrainServer | simulators/trading-sim/binproto.go:74-94 | Whole frames are read and dropped, and each Ping among them, and nothing else, is answered with a Pong unless its write fails |
| SubBin.SubFramesExact | simulators/market-sub-bin/main.go:88-89 | Up to 2^32 subscriptions of one connection get different SIDs, so the replayed frames bind each subject exactly once |
| SubBin.SubscribeAll | simulators/market-sub-bin/main.go:87-95 | The bytes written are the Sub frames up to the first failure, and a complete run is exact at the broker |
| SubBin.OnMessage | simulators/market-sub-bin/main.go:136-147 | A message is counted, perhaps flushed, and then sampled by the count that may just have been reset |
| SubBin.MessagesAre | simulators/market-sub-bin/main.go:132-136 | What is counted are the frames with op code 3 or 4, each as often as it is read |
| SubBin.Receive | simulators/market-sub-bin/main.go:97-154 | Every message frame of the stream is counted, wherever it breaks off, and the latencies are those of the sampled messages, none negative, at most six for every 512 and one for each hundred beyond |
| SubBin.LatencyOfEncoded | simulators/market-sub-bin/main.go:141-147 | The latency of a sampled message is the time between the two clock readings, and none is recorded if it is negative |
| SubBin.SamplingLaw | simulators/market-sub-bin/main.go:137-142 | Six of every 512 messages are sampled |
| SubBin.OneInAHundredIff | simulators/market-sub-bin/main.go:141-142 | It comes to one in a hundred if and only if there are fewer than 512 messages, or 600 to 1011 of them and the last two digits are below 12; otherwise to more |

## Left out

- NATS transport, TCP dialling, deadlines, retries, OpenTelemetry and Prometheus wiring: library input and output.
- A failed write adds nothing to the bytes of its connection: a frame of which only a part was written is not modelled.
- Concurrency inside one connection: a Subscribe, an Unsubscribe and one step of the read loop are each atomic, although the program takes its locks separately for the handler table and the write.
- Time: ticks, scroll timers, stop flags, the drain window and reconnect pauses appear only as arbitrary sequences of events and arbitrary numbers of ticks.
- Random numbers: any draw in range is allowed, so nothing is said about their distribution beyond the widths of the intervals; whether an account event is an order or a trade is arbitrary too.
- math.Pow, IEEE rounding and NaN: weights are abstract positive reals, and percentages, percentiles and ratios are exact reals.
- Parsing numbers out of a spec, and its error messages: the parsers start from the parts between commas, with blank parts kept.
- User.UserConn.constructor: takes a configuration whose screens are those the parser returns, and a number of symbols that fits Go's int.
- EndToEnd.ConservationWhileLive: the broker is any that keeps the order of one symbol's messages and repeats none; one that reorders or repeats is covered by Tracker.AccountingLaw only.
- Counters.Conserved: one counter at a time; a goroutine's add and reset are separate steps, its attempt and local increment one.
- Merge.MergeChannel: the rounding of the reported numbers and their JSON form are not modelled.
- Visibility.BuildVisible: a negative number of visible symbols is not modelled; the program would panic on it.
- Main functions, flags, JSON output, heartbeat, cost report, shell, Terraform and cloud-init files.
- simulators/market-sim and simulators/market-sub: their rate arithmetic and percentile repeat what is modelled here.
