# Zero-copy market-data feed handler, modelled in Dafny

This project models the feed-handling side of a low-latency NASDAQ TotalView-ITCH 5.0
market-data handler and proves properties of it. It covers:

- **`ItchParser`**: the ITCH 5.0 dispatcher (`include/itch/parser.hpp`).
  - `get_message_size` maps a type byte to a frame length.
  - `Parser::parse` checks the length and makes exactly one visitor callback.
  - `Parser::parse_buffer` walks back-to-back messages and returns the bytes consumed.
  - The visitor is modelled by the trace of callbacks it receives. Each callback carries the byte slice that the C++ code reinterprets as a message struct.
  - The message type bytes and struct sizes come from a header that is not part of this model. They are a `Layout` parameter. Its validity predicate states what the switch statements and the benchmark rely on:
    - distinct case labels;
    - `0 < sizeof(MessageHeader) <= every message size`;
    - a 36-byte Add Order.
- **`Pcap`**: the memory-mapped PCAP reader (`include/itch/pcap_reader.hpp`).
  - The magic number decides the byte order.
  - `open`, `close`, the move constructor and move assignment change the reader's four fields.
  - `for_each_packet` walks 16-byte record headers and payloads, and stops at truncation.
  - The mapped file is a byte sequence. The operating-system calls are replaced by their outcomes: the descriptor `::open` returned, and the mapped contents or none.
- **`ReplayDriver`**: the replay bridge (`src/replay_driver.cpp`).
  - The payload-offset heuristic `find_itch_offset` and its character test.
  - The per-packet step that frames the ITCH payload.
  - `ReplayVisitor`, which turns Add Order and Order Executed messages into order-book requests and keeps `ReplayMetrics`. The order book is not part of this model: the visitor is given the book's replies and returns the request it made.
- **`FeedStats`**: the statistics visitor of the PCAP driver (`src/main.cpp`).
- **`ItchBench`**: the benchmark's synthetic Add Order message, its naive big-endian decoder, and the 10000-message fixture buffer it walks in 36-byte strides (`benchmarks/itch_bench.cpp`).
- **`StressGenerator`**: the stress-capture generator (`scripts/generate_stress.py`).
  - It splits a template capture into records.
  - It re-emits them cyclically with synthetic timestamps until a byte budget is reached.
- **`Bytes`**: bytes, `Option`, and the big- and little-endian integer codecs the modules share.

Code that works by changing state is imperative Dafny, proved against specification functions:

| Dafny method | what it models | proved equal to |
|---|---|---|
| `ItchParser.ParseBuffer` | the `parse_buffer` loop | `Frames` |
| `Pcap.WalkPayloads` | the `for_each_packet` loop | `Walk` |
| `ItchBench.ParseFixture.NaiveParse` | the stride loop | `SharesSum` |
| `StressGenerator.LoadTemplates` | the reading loop | `ReadRecords` |
| `StressGenerator.WriteStress`, `StressGenerator.WriteRound` | the writing loops | `Emitted` |
| `ReplayDriver.FindItchOffset` | the offset search | a first-hit specification |

Objects whose fields the source updates in place are classes:

- `Pcap.PcapReader`
- `ReplayDriver.ReplayMetrics`
- `ReplayDriver.ReplayVisitor`
- `FeedStats.StatsVisitor`
- `ItchBench.ParseFixture`

## Model

| member | source | states |
|---|---|---|
| Bytes.BeRoundTrip | benchmarks/itch_bench.cpp:59-61 | writing a value most-significant byte first with shift-and-mask, then reading it back big-endian, gives the value modulo 256^w |
| Bytes.BeBytesOfValue | benchmarks/itch_bench.cpp:146-149 | every byte string is the big-endian encoding of its own big-endian value, so a big-endian read loses nothing |
| Bytes.LeRoundTrip | scripts/generate_stress.py:57-61 | packing a value in little-endian order and unpacking it gives the value modulo 256^w |
| Bytes.Bswap32 | include/itch/pcap_reader.hpp:221 | the swapped word is again a 32-bit value |
| Bytes.BswapInvolution | include/itch/pcap_reader.hpp:221 | swapping a 32-bit word twice gives it back |
| Bytes.BswapOfLe | include/itch/pcap_reader.hpp:219-222 | byte-swapping a 4-byte word read in little-endian order gives its big-endian reading |
| ItchParser.MessageSize | include/itch/parser.hpp:74-91 | the size is 0 exactly for a type other than Add Order, Order Executed and System Event; otherwise it is at least the header size |
| ItchParser.KnownEvent | include/itch/parser.hpp:148-174 | a known type byte selects the callback of that very type, handed the given bytes |
| ItchParser.Parse | include/itch/parser.hpp:134-181 | the result is never `InvalidLength`. `BufferTooSmall` iff the buffer is shorter than the header or than its type's size, with no callback. `UnknownType` iff the type is unknown, with one `on_unknown` carrying the whole buffer. `Ok` iff the type is known and its message fits, with exactly one callback of that type handed exactly the message's bytes |
| ItchParser.ParseMessage | include/itch/parser.hpp:253-257 | the free function returns the same result and makes the same callbacks as `Parser::parse` |
| ItchParser.FullMessageParses | include/itch/parser.hpp:222-230 | a complete message of a known type always parses `Ok` with exactly its own callback, so the loop's break on a failed parse is unreachable |
| ItchParser.Frames | include/itch/parser.hpp:235 | the bytes consumed never exceed the buffer length |
| ItchParser.ParseBuffer | include/itch/parser.hpp:198-236 | the loop's consumed count and callback trace are exactly the framing of the buffer |
| ItchParser.FramesTileConsumed | include/itch/parser.hpp:200-233 | the messages handed to the visitor, concatenated in order, are exactly the consumed prefix, and the consumed count is the sum of `get_message_size` over them |
| ItchParser.FramesMessagesSized | include/itch/parser.hpp:211-227 | every known-type message handed to the visitor starts with its own type byte and is exactly as long as `get_message_size` says |
| ItchParser.FramesStopReason | include/itch/parser.hpp:202-229 | the walk ends in one of three ways, with no `on_unknown` before the end: the buffer is used up; or the next type is unknown, reported by one final `on_unknown` with all remaining bytes, which are not consumed; or the next known message is incomplete and gets no callback |
| Pcap.MagicByteOrder | include/itch/pcap_reader.hpp:161-169 | a byte order is found exactly for the four accepted magics, and "needs swap" exactly for the two byte-reversed ones |
| Pcap.InclLen | include/itch/pcap_reader.hpp:219-222 | the record length read, swapped or not, is a 32-bit value |
| Pcap.Walk | include/itch/pcap_reader.hpp:212-237 | every payload taken uses at least its 16-byte header, so a walk from `at` yielding n payloads needs at least at + 16n bytes |
| Pcap.MagicOfOtherHost | include/itch/pcap_reader.hpp:158-169 | the byte-reversed form of each accepted native magic is accepted as "needs swap", and vice versa |
| Pcap.InclLenByteOrder | include/itch/pcap_reader.hpp:219-222 | `incl_len` is read little-endian when no swap is needed and big-endian when it is |
| Pcap.Closed | include/itch/pcap_reader.hpp:177-187 | after `close` nothing is mapped, the size is 0 and no descriptor is held; the byte-order flag is kept |
| Pcap.CloseIdempotent | include/itch/pcap_reader.hpp:177-187 | closing twice leaves the same state as closing once |
| Pcap.Opened | include/itch/pcap_reader.hpp:120-172 | `open` leaves the reader open iff the descriptor is valid, the mapping succeeded, the file holds at least 24 bytes and the first word is one of the four accepted magics. Then the file, its size and the descriptor are kept and the magic fixes the byte order. Otherwise the reader is closed with size 0 |
| Pcap.MovedFrom | include/itch/pcap_reader.hpp:96-98 | a moved-from reader holds no data, size 0 and descriptor -1 |
| Pcap.WalkChained | include/itch/pcap_reader.hpp:212-237 | each payload follows its own 16-byte record header, whose `incl_len` is its length. It starts right after the previous payload and lies inside the file. The walk stops exactly where the next header or payload would be truncated |
| Pcap.PayloadsOrdered | include/itch/pcap_reader.hpp:212-237 | every payload, including a lone one, lies after the global header and a record header and ends inside the file; any two come in strictly increasing, non-overlapping order |
| Pcap.PcapReader.constructor | include/itch/pcap_reader.hpp:82 | a default reader is closed: no data, size 0, descriptor -1 |
| Pcap.PcapReader.FromFile | include/itch/pcap_reader.hpp:84 | constructing from a file is opening it from the default state |
| Pcap.PcapReader.Moved | include/itch/pcap_reader.hpp:93-99 | the new reader takes the source's state and the source is left empty |
| Pcap.PcapReader.MoveAssign | include/itch/pcap_reader.hpp:101-113 | a self-move changes nothing; otherwise the target takes the source's former state and the source is left empty |
| Pcap.PcapReader.Open | include/itch/pcap_reader.hpp:120-172 | the new state is `Opened` of the old one; the result is true iff the reader is open |
| Pcap.PcapReader.Close | include/itch/pcap_reader.hpp:177-187 | the new state is `Closed` of the old one |
| Pcap.PcapReader.IsOpen | include/itch/pcap_reader.hpp:192 | open iff data is mapped, and an open reader holds at least a global header |
| Pcap.PcapReader.FileSize | include/itch/pcap_reader.hpp:197 | 0 whenever the reader is closed, the mapped length otherwise |
| Pcap.PcapReader.ForEachPacket | include/itch/pcap_reader.hpp:207-240 | on a closed reader: count 0 and no callback. Otherwise the payloads handed on are the record walk from byte 24. Either way the count is the number of callbacks |
| Pcap.WalkPayloads | include/itch/pcap_reader.hpp:212-239 | the loop hands on exactly the payloads of the record walk and counts them |
| ReplayDriver.IsValidItchType | src/replay_driver.cpp:179-197 | true for exactly the 20 letters A F E C X D U P Q B S R H Y L I N V W K |
| ReplayDriver.StockLocate | src/replay_driver.cpp:218-220 | the two bytes after the type byte, read as a big-endian 16-bit value |
| ReplayDriver.ItchOffsetUnique | src/replay_driver.cpp:200-250 | the first-hit description of the offset determines it: two offsets that both meet it are equal |
| ReplayDriver.FindItchOffset | src/replay_driver.cpp:200-250 | returns the first of 42, 46, 62, 64, 66, 68 that lies in the packet on an accepted type byte, whatever its stock locate. Failing that, the first offset below min(len, 100) on an accepted type byte followed by a stock locate in 1..9999. Otherwise 42. The result lies in the packet unless it is 42 |
| ReplayDriver.HandlePacket | src/replay_driver.cpp:328-337 | the offset is the one `find_itch_offset` returns: the same first-hit description as `FindItchOffset`, which fixes it uniquely. The packet is framed iff that offset is below its length. Then exactly the `len - offset` bytes from the offset are framed, consuming at most that many |
| ReplayDriver.Opposite | src/replay_driver.cpp:108 | flipping always gives the other side |
| ReplayDriver.AggressivePrice | src/replay_driver.cpp:110-124 | an aggressive buy is priced exactly one cent (100 ticks) above the best ask. An aggressive sell is priced exactly one cent below a best bid above one cent, and 0 exactly when the best bid is at most one cent, so it is never above the bid and strictly below a positive bid. With no best price on that side the price is unchanged |
| ReplayDriver.PlanAddOrder | src/replay_driver.cpp:100-125 | the request keeps the id and the shares. The side flips exactly when the processed count is a multiple of 100, and only then can the price change. A flipped order is priced by `AggressivePrice` from the book's best prices, so a flipped buy is at or above the best ask and a flipped sell at or below the best bid |
| ReplayDriver.MatchObservedMeaning | src/replay_driver.cpp:128-150 | for an accepted add after which the filled orders left the book and the new order rested or not: a reported match is a real fill. A complete fill in a non-empty book is always reported. A fill that removed no resting order while the new order rested is not reported |
| ReplayDriver.ReplayMetrics.constructor | src/replay_driver.cpp:42-46 | all counters start at 0 |
| ReplayDriver.ReplayVisitor.constructor | src/replay_driver.cpp:84-85 | the first simulated id is 1, and with fresh metrics the next id is one past the orders processed |
| ReplayDriver.ReplayVisitor.OnAddOrder | src/replay_driver.cpp:94-152 | each call counts one more order processed and takes the next sequential id, whether or not the book accepts. The request is the planned one. `orders_added` grows iff the add succeeded, and `matches_executed` iff an accepted add did not grow a non-empty book. The cancel count is unchanged, and the id stays equal to the processed count |
| ReplayDriver.ReplayVisitor.OnOrderExecuted | src/replay_driver.cpp:160-166 | the order reference is sent to `cancel_order`. `orders_cancelled` grows iff the cancel succeeded, and no other counter changes |
| FeedStats.StatsVisitor.constructor | src/main.cpp:29-35 | all six counters start at 0, so no message has been counted |
| FeedStats.StatsVisitor.TotalMessages | src/main.cpp:55-58 | the total is 0 iff all four per-kind counters are, and bounds each of them |
| FeedStats.StatsVisitor.OnAddOrder | src/main.cpp:37-40 | one more Add Order, its shares added to the share total, the message total up by exactly 1, nothing else changed |
| FeedStats.StatsVisitor.OnOrderExecuted | src/main.cpp:42-45 | one more Order Executed, its executed shares added, the message total up by exactly 1, nothing else changed |
| FeedStats.StatsVisitor.OnSystemEvent | src/main.cpp:47-49 | one more System Event, the message total up by exactly 1, nothing else changed |
| FeedStats.StatsVisitor.OnUnknown | src/main.cpp:51-53 | one more unknown message, the message total up by exactly 1, nothing else changed |
| ItchBench.EncodeAddOrder | benchmarks/itch_bench.cpp:34-84 | the Add Order wire form is 36 bytes: the type at 0, the side at 19, the stock symbol at 24..31 |
| ItchBench.Timestamp48 | benchmarks/itch_bench.cpp:130-136 | or-ing the six shifted timestamp bytes is the big-endian value of bytes 5..10 |
| ItchBench.ShiftOrIsBe | benchmarks/itch_bench.cpp:130-136 | shifting six bytes by 40, 32, 24, 16, 8 and 0 bits and combining them is their big-endian value |
| ItchBench.ParseNaive | benchmarks/itch_bench.cpp:117-157 | every decoded field fits its C++ type; the type, side and stock bytes are copied from offsets 0, 19 and 24..31 |
| ItchBench.ParseNaiveReadsPrefix | benchmarks/itch_bench.cpp:117-157 | the decoder reads only bytes 0..35 of its input |
| ItchBench.BeFieldRoundTrip | benchmarks/itch_bench.cpp:40-81 | a field value that fits its width is recovered from its big-endian bytes |
| ItchBench.NaiveRoundTrip | benchmarks/itch_bench.cpp:117-157 | decoding the encoding of any representable order gives back every field |
| ItchBench.NaiveEncodeOfParse | benchmarks/itch_bench.cpp:117-157 | re-encoding what was decoded gives back the first 36 input bytes |
| ItchBench.CreateAddOrderMessage | benchmarks/itch_bench.cpp:34-84 | the synthetic message is 36 bytes, with 'A' at offset 0 and 'B' at offset 19 |
| ItchBench.CreatedMessageEncodesGroundTruth | benchmarks/itch_bench.cpp:34-84 | the synthetic message is the Add Order encoding of these values: locate 1234, tracking 5678, timestamp 45296789012345, order reference 0x123456789ABCDEF0, side 'B', 1000 shares, "AAPL    ", price 1502500 |
| ItchBench.NaiveParseOfCreatedMessage | benchmarks/itch_bench.cpp:117-157 | the naive decoder recovers every one of those values from the synthetic message |
| ItchBench.Repeat | benchmarks/itch_bench.cpp:175-178 | n copies of a 36-byte message take 36n bytes |
| ItchBench.RepeatAppend | benchmarks/itch_bench.cpp:176-177 | appending one more copy at the end is the buffer of n + 1 copies |
| ItchBench.RepeatStride | benchmarks/itch_bench.cpp:264-269 | copy k of the message sits at bytes 36k .. 36k+35, so stepping by 36 visits each copy once |
| ItchBench.SharesSumBound | benchmarks/itch_bench.cpp:264-269 | the stride loop's share total over n messages is at most n times the largest 32-bit share count |
| ItchBench.SharesOfRepeat | benchmarks/itch_bench.cpp:264-269 | walking n copies of a message adds its shares n times |
| ItchBench.ParseFixture.constructor | benchmarks/itch_bench.cpp:187-189 | the fixture starts with an empty buffer and no messages |
| ItchBench.ParseFixture.SetUp | benchmarks/itch_bench.cpp:170-181 | the buffer gains exactly 10000 back-to-back copies of the synthetic message, and the message count is 10000 |
| ItchBench.ParseFixture.TearDown | benchmarks/itch_bench.cpp:183-185 | the buffer is emptied; the message count is kept |
| ItchBench.ParseFixture.NaiveParse | benchmarks/itch_bench.cpp:257-270 | the stride loop counts one message per 36 bytes and totals the Shares field of each |
| ItchBench.FixtureTotals | benchmarks/itch_bench.cpp:172-180 | the set-up buffer is 360000 bytes, and its messages carry 10,000,000 shares in all |
| StressGenerator.ReadRecords | scripts/generate_stress.py:15-31 | every record read has 32-bit lengths and a payload of exactly `incl_len` bytes |
| StressGenerator.HeaderEnd | scripts/generate_stress.py:13 | the global-header read takes 24 bytes, or the whole input when it is shorter |
| StressGenerator.LoadTemplates | scripts/generate_stress.py:11-31 | the reading loop yields the input's first 24 bytes (fewer if the input is shorter) and exactly the template records. Whenever there is a record, the header was a full 24 bytes |
| StressGenerator.TsSec | scripts/generate_stress.py:52-53 | the second of record k is at least the start, and k lies within the million records of that second's offset from the start |
| StressGenerator.TsUsec | scripts/generate_stress.py:54 | the microsecond field is always below 1,000,000 |
| StressGenerator.RecordHeader | scripts/generate_stress.py:57-61 | the packed `=IIII` header is 16 bytes |
| StressGenerator.RecordHeaderFields | scripts/generate_stress.py:57-61 | unpacking the header as four little-endian 32-bit words gives back the second, the microsecond, `incl_len` and `orig_len`, when each fits in 32 bits |
| StressGenerator.RecordBytes | scripts/generate_stress.py:57-64 | an output record is a 16-byte header followed by the template's payload |
| StressGenerator.Cycled | scripts/generate_stress.py:48-49 | output record k repeats template k mod n |
| StressGenerator.EmittedSize | scripts/generate_stress.py:63-66 | the running byte count of n records is at least 16n beyond the global header |
| StressGenerator.EmittedSnoc | scripts/generate_stress.py:63-64 | writing one more record appends exactly that record's bytes |
| StressGenerator.EmittedReadsBack | scripts/generate_stress.py:57-64 | reading the output records back gives the cyclically repeated templates, with the same `incl_len`, `orig_len` and payload |
| StressGenerator.FieldRoundTrip | scripts/generate_stress.py:57-61 | a 32-bit header field survives packing and unpacking |
| StressGenerator.TimestampsIncrease | scripts/generate_stress.py:52-54 | `(ts_sec, ts_usec)` strictly increases from one record to any later one |
| StressGenerator.GenerateLargePcap | scripts/generate_stress.py:6-70 | with no complete template record nothing is written. Otherwise the output is the input's 24-byte global header followed by `msgCount` records cycling through the templates. `msgCount` is the first count whose running total (24 plus 16 + `incl_len` per record) reaches the target, and every packed second fits in 32 bits |
| StressGenerator.WriteStress | scripts/generate_stress.py:40-70 | the writing loops emit the header and records until the running total first reaches the target |
| StressGenerator.WriteRound | scripts/generate_stress.py:49-70 | one pass over the templates keeps the output, the running total and the count in step. It writes at least one record, and a full pass writes one record per template |
| StressGenerator.AppendRecord | scripts/generate_stress.py:63-64 | writing the packed header and then the payload appends one output record |
| StressGenerator.ProgressStep | scripts/generate_stress.py:63-67 | writing a record while under the target keeps the output, the running byte count and the record count in step |
| StressGenerator.EmittedLength | scripts/generate_stress.py:66 | the bytes written are exactly as many as `current_bytes` counts beyond the global header |

## Left out

- The order book and memory pool (`book::OrderBook`, `book::MemPool`) are not part of this model. `ReplayVisitor` receives the book's replies as a parameter:
  - best bid and best ask as options;
  - the order count before and after an add;
  - whether `add_order` succeeded;
  - whether `cancel_order` succeeded.
  It returns the request it sent. Matching, price levels and the pool are not modelled.
- System calls (`::open`, `fstat`, `mmap`, `munmap`, `::close`) are replaced by their outcomes: the descriptor returned, and the mapped contents (none when `fstat` or `mmap` failed). The two failure kinds leave the same state, so they are not told apart.
- `PcapReader::data()` and the destructor are not modelled beyond `close`. Byte slices replace the zero-copy `reinterpret_cast` and pointer aliasing.
- The message struct header (`messages.hpp`) is not part of this model. This leaves out:
  - the type constants and struct sizes, which are a `Layout` parameter;
  - the lazily byte-swapping field accessors;
  - `itch::ntoh`, which is modelled as a big-endian read.
  The visitor callbacks of `ReplayVisitor` and `StatsVisitor` therefore take the decoded fields (price, shares, side, order reference) as parameters. The decoding of those fields from the callback's bytes is not modelled.
- Header words of PCAP files and the `=IIII` records of the generator are read in the host's native order. The host is taken to be little-endian.
- `Pcap.WalkPayloads`: `size_t` is taken to be 64 bits, so neither `offset + 16` nor `offset + incl_len` in `for_each_packet` can wrap. With a 32-bit `size_t` an `incl_len` near 2^32 would wrap the sum, pass the truncation check and hand on a payload running past the mapping; the model's unbounded sums do not capture that.
- The duplicated lambdas in `src/main.cpp` for `is_valid_itch_type`, `find_itch_offset` and the packet step are textually the same as the `src/replay_driver.cpp` functions. Each is modelled once, by `ReplayDriver.IsValidItchType`, `ReplayDriver.FindItchOffset` and `ReplayDriver.HandlePacket`.
- Timing (`std::chrono`, `add_order_time_ns`), floating-point throughput and latency reports, price display, `print`/`print_stats`, command-line handling and banners are not modelled.
- The Google Benchmark harness (`BENCHMARK_*`, `DoNotOptimize`, the zero-copy benchmark loops) is left out, apart from the fixture buffer and the naive stride loop.
- In the generator, the following are not modelled:
  - file reading and writing, which are byte sequences here;
  - the progress bar and messages;
  - `os.makedirs`;
  - the clock, which is the `startTime` parameter.
- `StressGenerator.GenerateLargePcap`: requires `startTime + target / 16 / 1_000_000` to fit in 32 bits. Fewer than target / 16 records are written, because each takes at least 16 bytes, so no record is stamped later than that second. The `struct.error` that Python raises once a packed second overflows is not modelled. A start so close to 2^32 that only the last few records would overflow is excluded rather than modelled.
- `FeedStats.StatsVisitor.OnAddOrder`: counters and totals are unbounded naturals. The same holds for the other StatsVisitor callbacks, and for the ReplayMetrics counters and the simulated id in `ReplayDriver.ReplayVisitor.OnAddOrder`. 64-bit wrap-around is not modelled.
- `ReplayDriver.AggressivePrice`: prices are unbounded naturals, so `best_ask + 100` does not wrap at the book's price width.
- `ItchBench.ParseFixture.NaiveParse`: requires the buffer length to be a multiple of 36, since the stride loop would otherwise read past the end.
- `Pcap.WalkPayloads` is the `for_each_packet` loop written as a module-level method over the mapped bytes. `StressGenerator.WriteRound` is the inner `for pkt in packets` loop, written as a method of its own.
