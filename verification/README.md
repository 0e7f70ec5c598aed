# Verified model of the trading engine and the codecs it ships with

The repository is a small arbitrage engine built on two header-only libraries, websocketpp and asio. This project
models the parts of it that hold state or transform data, and proves what they are for:

- **Masking and frames** (`MachineWord`, `Masking`, `StreamMasking`, `FrameHeader`, `FrameStream`): the WebSocket wire
  format of section 5.2 of RFC 6455 and the masking of section 5.3. The word-at-a-time and chunked forms of masking
  compute the byte-at-a-time form on both word sizes and both byte orders; headers and whole streams of frames are
  read back exactly.
- **Buffers** (`BuffersIterator`, `Streambuf`): asio's iterator over a list of buffers is an iterator over their
  concatenation; asio's `basic_streambuf` is a bounded byte queue.
- **Text** (`Utf8Table`, `Utf8Grammar`, `Utf8Validator`, `Uri`, `UriStrings`): the table-driven UTF-8 automaton accepts exactly the
  grammar of section 4 of RFC 3629 and emits the encoded code points; the URI parser and printer agree.
- **Trading** (`ArbOpportunityEngine`, `MockPnLEngine`, `SyntheticSpotSynth`): the cooldown is safe and optimal, the
  ledger adds up, slippage never helps, and a whole run of ticks obeys all of it.

## How the source is represented

- Bytes of frames and buffers are `bv8`. A `size_t` is the sequence of its base-256 digits, so that word size (4 or 8)
  and byte order are parameters; `ShiftRightDivides` and `ShiftLeftMultiplies` show that the digit shifts are the
  integer shifts. A masking key is its four bytes in memory, which is how the source says it must be treated.
- A pointer into a byte array is the array and an index. The masking routines may write over their input, or to a place
  before it in the same array.
- Header fields of C structs that are passed by value are datatypes, built by methods that set them step by step.
- Objects that update their fields are classes: the iterator, the streambuf, the validator and the three trading
  classes. A streambuf's vector is an array that `Reserve` may replace; its pointers are offsets.
- `std::length_error` is a false result; an invalid URI or port is `None`; `std::string` is `seq<char>` in the URI and a
  sequence of bytes in the validator.
- 64-bit sizes and timestamps are bounded naturals with the unsigned wrap-around written out; the 32-bit code point of
  the UTF-8 automaton is reduced modulo 2^32 where the source shifts it.
- Prices are exact reals.
- `_htonll`, `_ntohll` and `ntohs` are conversions to and from network byte order, and `is_little_endian` is a parameter.

## What the proofs found

- `word_mask_circ` and `byte_mask_circ` are documented to write whole words, up to the word boundary after `length`; the
  code writes exactly `length` bytes (frame.hpp:759-789), and so does the model.
- `byte_mask_circ` keeps only 32 bits of the word it is given: it agrees with `word_mask_circ` exactly for keys that
  repeat after four bytes, which every carried key does (`FormsAgreeIffKeyRepeats`, `StreamIsByteMask`).
- `prepare` throws exactly when documented, but it has then already moved the bytes of the input sequence:
  the contract of `Prepare` says exactly when `data()` survives the call, and `ThrowingPrepareLosesData` is a run in
  which it does not.
- The cooldown compares an unsigned difference: a timestamp from before the last trigger fires again
  (`ReadyIff`, `StaleTimestampFires`). Over a whole run triggers keep their distance exactly when no timestamp is stale
  (`SpacedIffNeverStale`), which ordered timestamps never are; with none before the last trigger they are also as many
  as possible.
- The trigger threshold of 0.1 does not cover slippage at usual prices: `SlippageNeverHelps` gives the exact profit
  condition and `ThresholdAllowsLoss` three ticks that lead to a trade at a loss.
- The URI parser drops the brackets of an IPv6 host and the printer does not put them back, and the comment that the
  literal is validated has no code (uri.hpp:103-105). `NormalisesIff` gives the exact condition for the round trip.

## Model

| member | source | states |
|---|---|---|
| `MachineWord.PreparedKeyRepeats` | synthetic-arbitrage/libs/websocketpp/frame.hpp:595-604 | in memory a prepared key is the four key bytes, twice on an 8-byte machine, in either byte order |
| `MachineWord.CircshiftRotatesMemory` | synthetic-arbitrage/libs/websocketpp/frame.hpp:612-623 | both branches of the byte-order test rotate the memory bytes of the key the same way |
| `MachineWord.ShiftRightDivides` | synthetic-arbitrage/libs/websocketpp/frame.hpp:618-621 | the digit model of `>>` is division of the unsigned value |
| `MachineWord.ShiftLeftMultiplies` | synthetic-arbitrage/libs/websocketpp/frame.hpp:617-621 | the digit model of `<<` is multiplication modulo the word range |
| `Masking.ByteMask` | synthetic-arbitrage/libs/websocketpp/frame.hpp:645-655 | writes each byte combined with key byte (offset + index) mod 4 of the original input, in place or elsewhere, and nothing else |
| `Masking.WordMaskExact` | synthetic-arbitrage/libs/websocketpp/frame.hpp:702-717 | for every length, word size and byte order the output is that of the byte form, and nothing past `length` is written |
| `Masking.WordMaskCirc` | synthetic-arbitrage/libs/websocketpp/frame.hpp:768-789 | combines the data with the memory image of any word, cyclically; returns the word shifted by the left-over length |
| `Masking.ByteMaskCirc` | synthetic-arbitrage/libs/websocketpp/frame.hpp:830-841 | combines the data with the low 32 bits of any word, cyclically; returns the word shifted by the length mod 4 |
| `Masking.WordLoop` | synthetic-arbitrage/libs/websocketpp/frame.hpp:710-712 | loading, combining and storing whole words writes the words of the masked data |
| `Masking.TailLoop` | synthetic-arbitrage/libs/websocketpp/frame.hpp:781-786 | the bytes short of a word are combined with the first bytes of the key in memory |
| `Masking.WordCircIsMasked` | synthetic-arbitrage/libs/websocketpp/frame.hpp:777-786 | a word that carries the key at some phase masks as the byte form does at that phase |
| `StreamMasking.CircshiftAdvancesPhase` | synthetic-arbitrage/libs/websocketpp/frame.hpp:612-623 | shifting a carried key by anything congruent to the length mod 4 advances its phase by the length |
| `StreamMasking.ByteCircIsMasked` | synthetic-arbitrage/libs/websocketpp/frame.hpp:833-838 | the truncated word of a carried key still masks at the right phase, in either half of the word |
| `StreamMasking.StreamIsByteMask` | synthetic-arbitrage/libs/websocketpp/frame.hpp:738-841 | any cut of a payload into chunks, masked by any mix of the circular forms with the key handed on, gives the byte form of the whole; the carried key keeps its phase |
| `StreamMasking.MaskInPieces` | synthetic-arbitrage/libs/websocketpp/frame.hpp:768-859 | the same for calls on one buffer in place |
| `StreamMasking.StreamUnmasksStream` | synthetic-arbitrage/libs/websocketpp/frame.hpp:626-655 | what one machine masked in its chunks, any other machine unmasks in other chunks |
| `StreamMasking.MaskTwice` | synthetic-arbitrage/libs/websocketpp/frame.hpp:626-807 | masking a buffer twice under any two of the four forms, each on its own machine and in its own pieces, restores it |
| `StreamMasking.FormsAgreeIffKeyRepeats` | synthetic-arbitrage/libs/websocketpp/frame.hpp:830-841 | the two circular forms agree on all data if and only if bytes i and i + 4 of the word agree |
| `FrameHeader.MakeBasicHeader` | synthetic-arbitrage/libs/websocketpp/frame.hpp:194-231 | setting the flag bits, opcode, mask bit and size code step by step gives the two header bytes for the arguments |
| `FrameHeader.CopyPayload` | synthetic-arbitrage/libs/websocketpp/frame.hpp:260-274 | copies none, the last two or all eight bytes of the size in network order, and returns how many |
| `FrameHeader.MakeExtendedHeader` | synthetic-arbitrage/libs/websocketpp/frame.hpp:236-256 | the extended header is the size field, the key if there is one, and zeros |
| `FrameHeader.HeaderRoundTrip` | synthetic-arbitrage/libs/websocketpp/frame.hpp:321-585 | every getter returns the flag, opcode, size and key the header was built from; the prepared header has the length `get_header_len` says |
| `FrameHeader.HeaderBytesInFigures` | synthetic-arbitrage/libs/websocketpp/frame.hpp:194-231 | the first byte is the sum of 128, 64, 32 and 16 for the flags set and the opcode; the second of 128 for a key and the size up to 125, or 126, or 127 |
| `FrameHeader.GetHeaderLen` | synthetic-arbitrage/libs/websocketpp/frame.hpp:445-458 | any two bytes announce a header of 2 to 14 bytes |
| `FrameHeader.HeaderIsShortest` | synthetic-arbitrage/libs/websocketpp/frame.hpp:212-227 | no header that reads back as the same fields is shorter than the one built (minimal length encoding of RFC 6455) |
| `FrameHeader.RebuiltIffMinimal` | synthetic-arbitrage/libs/websocketpp/frame.hpp:489-585 | reading any header and building it again gives the same bytes if and only if its length form was the minimal one |
| `FrameHeader.NumberRoundTrip` | synthetic-arbitrage/libs/websocketpp/frame.hpp:269-271 | a number written in network order reads back |
| `FrameHeader.BytesRoundTrip` | synthetic-arbitrage/libs/websocketpp/frame.hpp:540-559 | bytes read as a number in network order are that number's bytes |
| `FrameStream.ReadsBack` | synthetic-arbitrage/libs/websocketpp/frame.hpp:445-585 | a written frame followed by anything is read as that frame, unmasked, consuming exactly its bytes |
| `FrameStream.WritesWhatStands` | synthetic-arbitrage/libs/websocketpp/frame.hpp:489-655 | flags, size in its shortest form, key and payload of a written frame stand at their places in section 5.2 of RFC 6455, and nothing else is written |
| `FrameStream.PayloadOnWire` | synthetic-arbitrage/libs/websocketpp/frame.hpp:644-655 | byte i of the payload is on the wire combined with key byte i mod 4, or as it is if there is no key |
| `FrameStream.ReadsWhatStands` | synthetic-arbitrage/libs/websocketpp/frame.hpp:445-585 | a frame is read from any bytes exactly when its header and payload have all arrived; every field comes from its place, every payload byte is combined with the key byte in front of it, and the bytes behind are left |
| `FrameStream.ReadAllBack` | synthetic-arbitrage/libs/websocketpp/frame.hpp:445-585 | a stream of frames is self-delimiting: every list of frames is read back, then whatever follows it |
| `FrameStream.ReadInPieces` | synthetic-arbitrage/libs/websocketpp/frame.hpp:435-458 | for any bytes, reading what has arrived and later the rest gives the frames of the whole |
| `FrameStream.CutFrameIsIncomplete` | synthetic-arbitrage/libs/websocketpp/frame.hpp:435-458 | no proper prefix of a frame is taken for a frame |
| `FrameStream.CutStream` | synthetic-arbitrage/libs/websocketpp/frame.hpp:435-585 | a stream cut anywhere yields exactly the frames that arrived whole and keeps the bytes of the next one |
| `FrameStream.RewrittenIffMinimal` | synthetic-arbitrage/libs/websocketpp/frame.hpp:489-585 | a frame read from any wire and written again gives the same bytes if and only if its length form was minimal |
| `BuffersIterator.NamesUnique` | synthetic-arbitrage/libs/asio/asio/buffers_iterator.hpp:348-351 | at most one buffer and offset belong to a position, so comparing positions is comparing iterators |
| `BuffersIterator.Locate` | synthetic-arbitrage/libs/asio/asio/buffers_iterator.hpp:493-498 | every position up to the total size has a buffer and offset in canonical form |
| `BuffersIterator.CursorByte` | synthetic-arbitrage/libs/asio/asio/buffers_iterator.hpp:341-345 | the byte under the cursor of a position is that byte of the concatenation; only the end has no byte |
| `BuffersIterator.BuffersIterator.StateIsLocated` | synthetic-arbitrage/libs/asio/asio/buffers_iterator.hpp:493-498 | the fields of any iterator are a function of its position; the end is the only position without a buffer |
| `BuffersIterator.BuffersIterator.Begin` | synthetic-arbitrage/libs/asio/asio/buffers_iterator.hpp:167-184 | skips empty buffers to a canonical iterator at position 0 |
| `BuffersIterator.BuffersIterator.End` | synthetic-arbitrage/libs/asio/asio/buffers_iterator.hpp:187-203 | adds up the sizes to a canonical iterator at the total size |
| `BuffersIterator.BuffersIterator.Dereference` | synthetic-arbitrage/libs/asio/asio/buffers_iterator.hpp:341-345 | returns the byte of the concatenation at the position |
| `BuffersIterator.BuffersIterator.Increment` | synthetic-arbitrage/libs/asio/asio/buffers_iterator.hpp:354-374 | reaches the state of the next position, over any run of empty buffers |
| `BuffersIterator.BuffersIterator.Decrement` | synthetic-arbitrage/libs/asio/asio/buffers_iterator.hpp:377-404 | reaches the state of the previous position, also from the end |
| `BuffersIterator.BuffersIterator.Advance` | synthetic-arbitrage/libs/asio/asio/buffers_iterator.hpp:407-485 | for every in-range distance, either sign, reaches the state of position + n; all loops terminate |
| `BuffersIterator.BuffersIterator.Equal` | synthetic-arbitrage/libs/asio/asio/buffers_iterator.hpp:348-351 | true if and only if both iterators have the same buffer and offset |
| `BuffersIterator.BuffersIterator.DistanceTo` | synthetic-arbitrage/libs/asio/asio/buffers_iterator.hpp:488-491 | the number of steps to the other iterator, zero only at the same state |
| `BuffersIterator.BuffersIterator.Index` | synthetic-arbitrage/libs/asio/asio/buffers_iterator.hpp:218-223 | `operator[]` is indexing the concatenation relative to the position |
| `BuffersIterator.AdvanceBySteps` | synthetic-arbitrage/libs/asio/asio/buffers_iterator.hpp:354-485 | one `advance(n)` leaves the same state as n increments or -n decrements |
| `BuffersIterator.AdvanceThereAndBack` | synthetic-arbitrage/libs/asio/asio/buffers_iterator.hpp:256-267 | `advance(-n)` undoes `advance(n)` |
| `BuffersIterator.Traverse` | synthetic-arbitrage/libs/asio/asio/buffers_iterator.hpp:166-251 | going from `begin` to `end` yields exactly the concatenation of the buffers |
| `Streambuf.Streambuf.constructor` | synthetic-arbitrage/libs/asio/asio/basic_streambuf.hpp:131-141 | a new streambuf is valid and empty for any limit, also 0 |
| `Streambuf.Streambuf.Reserve` | synthetic-arbitrage/libs/asio/asio/basic_streambuf.hpp:308-346 | throws if and only if size + n exceeds the limit; otherwise makes room across compaction and resizing, as much as asked or as compaction frees, and keeps the data, and both sequences if there was room; when it throws, says exactly which bytes have moved |
| `Streambuf.Streambuf.Prepare` | synthetic-arbitrage/libs/asio/asio/basic_streambuf.hpp:214-219 | throws exactly as documented; `data()` is what it was if and only if it did not throw, or nothing of the array lay before the data, or at least as much as the data, or the data repeats with that period |
| `Streambuf.Streambuf.Commit` | synthetic-arbitrage/libs/asio/asio/basic_streambuf.hpp:233-238 | moves the front of the output sequence, clipped to its length, to the end of the data |
| `Streambuf.Streambuf.Consume` | synthetic-arbitrage/libs/asio/asio/basic_streambuf.hpp:247-254 | removes n bytes, or all there are, from the front of the data, and leaves the output sequence alone |
| `Streambuf.Streambuf.Underflow` | synthetic-arbitrage/libs/asio/asio/basic_streambuf.hpp:263-274 | shows the first byte of the data, or end of file if and only if there is none |
| `Streambuf.Streambuf.Overflow` | synthetic-arbitrage/libs/asio/asio/basic_streambuf.hpp:283-306 | appends the character, making room for 128 or what the limit leaves when there is none, and throws if and only if the buffer is at its limit, then leaving the whole state as it was |
| `Streambuf.Streambuf.ReadSizeHelper` | synthetic-arbitrage/libs/asio/asio/basic_streambuf.hpp:353-359 | the largest number within the caller's maximum, the limit, and 512 or the free capacity, whichever of these two is more |
| `Streambuf.PrepareForRead` | synthetic-arbitrage/libs/asio/asio/basic_streambuf.hpp:353-359 | `prepare` of the helper's size never throws |
| `Streambuf.Run` | synthetic-arbitrage/libs/asio/asio/basic_streambuf.hpp:214-346 | every run of `prepare`, writes into what it returned, `commit`, `consume`, `sputc` and `sbumpc` in any order and amount follows the steps of a queue; what was taken, then the data, is what was added; a full buffer does not end the run, only a `prepare` over the limit does |
| `Streambuf.Apply` | synthetic-arbitrage/libs/asio/asio/basic_streambuf.hpp:214-306 | each operation throws when it should, takes exactly the bytes it should from the front, and leaves the data and output sequence of the next state |
| `Streambuf.FirstInFirstOut` | synthetic-arbitrage/libs/asio/asio/basic_streambuf.hpp:214-346 | over every history of such steps the bytes taken followed by the bytes held are the bytes added, in order, and both sequences together stay within the limit |
| `Streambuf.RunIsQueue` | synthetic-arbitrage/libs/asio/asio/basic_streambuf.hpp:214-254 | for a caller that commits only what it wrote into buffers it prepared, every history has the taken and held bytes of a plain queue |
| `Streambuf.Received` | synthetic-arbitrage/libs/asio/asio/basic_streambuf.hpp:209-238 | `prepare`, a write and a `commit` of part of it that fit are always defined, and add exactly the bytes committed |
| `Streambuf.TakenOrPut` | synthetic-arbitrage/libs/asio/asio/basic_streambuf.hpp:247-306 | `consume`, `sbumpc` and `sputc` are always defined: they take from the front what there is, and add a byte unless the queue is full |
| `Streambuf.RunQueue` | synthetic-arbitrage/libs/asio/asio/basic_streambuf.hpp:214-346 | the streambuf, driven by such a caller, never throws where that queue is defined and gives its bytes |
| `Streambuf.ThrowingPrepareLosesData` | synthetic-arbitrage/libs/asio/asio/basic_streambuf.hpp:321-346 | a run in which `data()` changes from 2, 3 to 3, 3 |
| `Utf8Table.TypeOfByte` | synthetic-arbitrage/libs/websocketpp/utf8_validator.hpp:45-54 | the first 256 entries split the bytes into the twelve ranges the grammar needs |
| `Utf8Table.NextState` | synthetic-arbitrage/libs/websocketpp/utf8_validator.hpp:55-60 | the state rows are the transitions between nine states |
| `Utf8Validator.EntriesInRange` | synthetic-arbitrage/libs/websocketpp/utf8_validator.hpp:70-76 | every table index is in bounds and every state is one of the nine |
| `Utf8Validator.Validator.Consume` | synthetic-arbitrage/libs/websocketpp/utf8_validator.hpp:91-96 | one step, false if and only if rejected |
| `Utf8Validator.Validator.DecodeBytes` | synthetic-arbitrage/libs/websocketpp/utf8_validator.hpp:105-118 | the loop that stops at the first rejection; false if and only if rejected |
| `Utf8Validator.Validate` | synthetic-arbitrage/libs/websocketpp/utf8_validator.hpp:143-149 | true if and only if the bytes are a concatenation of characters of the grammar: no overlong forms, no surrogates, nothing above U+10FFFF; equally, if and only if they are the encoding of some Unicode scalar values |
| `Utf8Validator.AcceptsIff` | synthetic-arbitrage/libs/websocketpp/utf8_validator.hpp:45-78 | each of the nine states accepts exactly the rest of its character followed by well-formed text |
| `Utf8Validator.RejectsEarliest` | synthetic-arbitrage/libs/websocketpp/utf8_validator.hpp:69-78 | a byte string is rejected if and only if no continuation of it is well formed |
| `Utf8Validator.RejectAbsorbs` | synthetic-arbitrage/libs/websocketpp/utf8_validator.hpp:55-60 | the rejecting state is never left |
| `Utf8Validator.FeedRuns` | synthetic-arbitrage/libs/websocketpp/utf8_validator.hpp:105-118 | stopping at the first rejection ends in the state of the whole string |
| `Utf8Validator.ChunksDoNotMatter` | synthetic-arbitrage/libs/websocketpp/utf8_validator.hpp:98-118 | decoding in any chunks ends in the same state as decoding the whole, and unless rejected with the same code point |
| `Utf8Validator.DecodesEncoded` | synthetic-arbitrage/libs/websocketpp/utf8_validator.hpp:69-78 | over the encoding of any scalar values the code point at each return to the accepting state is exactly the next value (on `Utf8Grammar.EncodeIsChar`: an encoded value is a character that carries it) |
| `Utf8Validator.EncodesDecoded` | synthetic-arbitrage/libs/websocketpp/utf8_validator.hpp:69-78 | encoding what was emitted for well-formed text gives the text back (on `Utf8Grammar.CharHasValue`: every character encodes a scalar value) |
| `Utf8Validator.NoOverflow` | synthetic-arbitrage/libs/websocketpp/utf8_validator.hpp:72-74 | no step that is not rejected shifts a bit out of the 32-bit code point |
| `Utf8Validator.FeedNeverOverflows` | synthetic-arbitrage/libs/websocketpp/utf8_validator.hpp:69-118 | over any bytes not rejected the code point stays within the bound of its state, at most 0x10FFFF |
| `Uri.ParseUri` | synthetic-arbitrage/libs/websocketpp/uri.hpp:51-168 | the constructor's iterator and state loops split the string at the first delimiters, as the declarative parse does |
| `UriStrings.ParsesWritten` | synthetic-arbitrage/libs/websocketpp/uri.hpp:51-168 | a string put together from a scheme, a host with or without brackets, and an end, path, port, or port and path is read as those parts, and refused exactly when its port text is |
| `UriStrings.ParsesHostPortResource` | synthetic-arbitrage/libs/websocketpp/uri.hpp:51-168 | the six strings of a host with or without decimal port and resource, each with its port (80 or 443 when none is written), resource, or refusal of a port outside 1 to 65535 |
| `UriStrings.AcceptedIsWritten` | synthetic-arbitrage/libs/websocketpp/uri.hpp:51-168 | every accepted string is put together in that way |
| `UriStrings.BracketNeeded` | synthetic-arbitrage/libs/websocketpp/uri.hpp:84-100 | an IPv6 host without its closing bracket is refused |
| `UriStrings.DelimiterNeeded` | synthetic-arbitrage/libs/websocketpp/uri.hpp:106-119 | so is anything but a colon, a slash or the end behind that bracket |
| `UriStrings.SchemeNeeded` | synthetic-arbitrage/libs/websocketpp/uri.hpp:60-78 | a string that starts with none of the four schemes is refused |
| `UriStrings.HostNeeded` | synthetic-arbitrage/libs/websocketpp/uri.hpp:60-78 | so is a scheme with nothing behind it |
| `UriStrings.PortAtEndIsRead` | synthetic-arbitrage/libs/websocketpp/uri.hpp:139-157 | `ws://localhost:9002` has port 9002 |
| `UriStrings.PrintsWritten` | synthetic-arbitrage/libs/websocketpp/uri.hpp:274-285 | printing leaves the port out exactly when it is 80 or 443, by security |
| `UriStrings.NormalForm` | synthetic-arbitrage/libs/websocketpp/uri.hpp:51-285 | parsing and printing a string with an unbracketed host and a decimal port drops a usual port and changes nothing else |
| `Uri.ScanHost` | synthetic-arbitrage/libs/websocketpp/uri.hpp:84-137 | the host is the text up to the first ':' or '/', or between '[' and the first ']', and everything else is refused |
| `Uri.ScanPort` | synthetic-arbitrage/libs/websocketpp/uri.hpp:140-154 | the port is the text from the colon to the next slash |
| `Uri.GetPortFromString` | synthetic-arbitrage/libs/websocketpp/uri.hpp:321-341 | an accepted port is between 1 and 65535 |
| `UriStrings.PortOfNumber` | synthetic-arbitrage/libs/websocketpp/uri.hpp:321-341 | spaces, a plus and zeros before the digits and anything behind them are accepted; the number is the port if and only if it is between 1 and 65535 and has no minus |
| `UriStrings.PortOfNoNumber` | synthetic-arbitrage/libs/websocketpp/uri.hpp:321-341 | a port text with no digits where the number should be is refused |
| `Uri.PortRoundTrip` | synthetic-arbitrage/libs/websocketpp/uri.hpp:321-341 | a printed port is read back |
| `Uri.ReparsesPrinted` | synthetic-arbitrage/libs/websocketpp/uri.hpp:274-285 | printing and parsing any proper URI whose host can be found again gives the same URI, with default ports left out |
| `Uri.NormalisesIff` | synthetic-arbitrage/libs/websocketpp/uri.hpp:51-168 | for every accepted string, printing and parsing again gives the same URI if and only if the host has no ':' or '/' and does not start with '[' |
| `Uri.UnbracketedNormalises` | synthetic-arbitrage/libs/websocketpp/uri.hpp:120-137 | a host written without brackets always round trips |
| `Uri.BracketedHostIsLost` | synthetic-arbitrage/libs/websocketpp/uri.hpp:84-107 | an accepted IPv6 URI that does not round trip |
| `ArbOpportunityEngine.ArbOpportunityEngine.ShouldTrigger` | synthetic-arbitrage/include/ArbOpportunityEngine.hpp:14-21 | fires when the symbol is new or the unsigned difference exceeds the cooldown, and records only then |
| `ArbOpportunityEngine.ArbOpportunityEngine.Reset` | synthetic-arbitrage/include/ArbOpportunityEngine.hpp:24-26 | forgets one symbol |
| `ArbOpportunityEngine.ReadyIff` | synthetic-arbitrage/include/ArbOpportunityEngine.hpp:16 | when the comparison fires, for timestamps in order and out of order |
| `ArbOpportunityEngine.RunEngine` | synthetic-arbitrage/include/ArbOpportunityEngine.hpp:14-21 | the engine fires exactly the events of the run's definition |
| `ArbOpportunityEngine.SymbolsAreIndependent` | synthetic-arbitrage/include/ArbOpportunityEngine.hpp:14-21 | in any interleaving a symbol's triggers are those of its own calls alone |
| `ArbOpportunityEngine.SpacedIffNeverStale` | synthetic-arbitrage/include/ArbOpportunityEngine.hpp:14-21 | triggers are more than the cooldown apart if and only if no call comes before the last trigger, unless by nearly a whole turn of the counter |
| `ArbOpportunityEngine.GreedyIsOptimal` | synthetic-arbitrage/include/ArbOpportunityEngine.hpp:14-21 | if no timestamp is before the last trigger, no subsequence of them that respects the cooldown is longer than the triggers |
| `ArbOpportunityEngine.CooldownSafeAndOptimal` | synthetic-arbitrage/include/ArbOpportunityEngine.hpp:14-21 | both, for each symbol of any interleaved run; timestamps that never decrease meet both conditions |
| `ArbOpportunityEngine.StaleTimestampFires` | synthetic-arbitrage/include/ArbOpportunityEngine.hpp:16 | two triggers one unit apart, the second from before the first |
| `MockPnLEngine.MockPnLEngine.RecordTrade` | synthetic-arbitrage/include/MockPnLEngine.hpp:27-75 | appends a trade with the symbol, prices, direction and time given, whose figures balance, and keeps the total, the series and the largest size those of the recorded trades, each size within the limit |
| `MockPnLEngine.TradeIsBalanced` | synthetic-arbitrage/include/MockPnLEngine.hpp:33-39 | profit times exit price is the price difference in the trade's direction times its size; the size is a hundred times the relative difference, or the limit if that is less |
| `MockPnLEngine.MockPnLEngine.ExposureWithinLimit` | synthetic-arbitrage/include/MockPnLEngine.hpp:53-79 | the observed exposure never exceeds the limit |
| `MockPnLEngine.PnlIsGain` | synthetic-arbitrage/include/MockPnLEngine.hpp:33-39 | the profit of a trade depends only on its relative edge and the exposure limit |
| `MockPnLEngine.GainSign` | synthetic-arbitrage/include/MockPnLEngine.hpp:33-39 | a trade earns if and only if its edge is positive, and loses if and only if it is negative |
| `MockPnLEngine.GainMonotone` | synthetic-arbitrage/include/MockPnLEngine.hpp:33-39 | a larger edge never earns less, across the cap on the size |
| `SyntheticSpotSynth.DistanceIsGap` | synthetic-arbitrage/include/SyntheticSpotSynth.hpp:30-31 | the age test on the unsigned difference is symmetric and is the gap between the feeds |
| `SyntheticSpotSynth.SyntheticSpotSynth.Update` | synthetic-arbitrage/include/SyntheticSpotSynth.hpp:18-43 | stores the tick of a known symbol and refreshes the synthetic price if both feeds are within 1500 ms |
| `SyntheticSpotSynth.MarketHolds` | synthetic-arbitrage/include/SyntheticSpotSynth.hpp:18-51 | after any ticks each feed is ready if and only if it ticked, and holds the price and time of its last tick; the synthetic price is the product of the feeds at the last comparison, or update with the feeds within 1500 ms |
| `SyntheticSpotSynth.SyntheticSpotSynth.CompareToReal` | synthetic-arbitrage/include/SyntheticSpotSynth.hpp:45-93 | consults the cooldown only on a signal, and records the trade exactly when it fires, for attached and missing engines; only a trade taken needs a price other than zero |
| `SyntheticSpotSynth.SyntheticSpotSynth.TakeTrade` | synthetic-arbitrage/include/SyntheticSpotSynth.hpp:77-91 | the recorded trade has the direction of the gap and both prices slipped against it |
| `SyntheticSpotSynth.SlippageNeverHelps` | synthetic-arbitrage/include/SyntheticSpotSynth.hpp:77-91 | a recorded trade earns no more than at the unslipped prices, where it would not lose, and earns if and only if the gap exceeds 0.0002 of the sum of the prices |
| `SyntheticSpotSynth.ThresholdAllowsLoss` | synthetic-arbitrage/include/SyntheticSpotSynth.hpp:73-88 | two feed ticks and a comparison whose only trade, past the trigger threshold, loses |
| `SyntheticSpotSynth.RunSynth` | synthetic-arbitrage/include/SyntheticSpotSynth.hpp:18-93 | the wired objects, driven by any ticks at positive prices, hold the last ticks, and their ledger, which adds up, has one trade for each trading tick, field by field |
| `SyntheticSpotSynth.TradesAreOfTicks` | synthetic-arbitrage/include/SyntheticSpotSynth.hpp:45-93 | the trading ticks are the comparisons at least 0.1 from the product of the last feeds before them and outside the cooldown of the last trade; each trade has that tick's time and direction, and its prices times 1.0002 and 0.9998 |
| `SyntheticSpotSynth.SignalTimesAreOfTicks` | synthetic-arbitrage/include/SyntheticSpotSynth.hpp:73-75 | the market asks for a trade at exactly the comparisons at least 0.1 from that product |
| `SyntheticSpotSynth.TradesAreTriggers` | synthetic-arbitrage/include/SyntheticSpotSynth.hpp:73-75 | trades happen exactly at the cooldown's triggers over the times the market signalled |
| `SyntheticSpotSynth.TradesAreJustified` | synthetic-arbitrage/include/SyntheticSpotSynth.hpp:73-91 | every trade was taken at positive prices at least 0.1 apart, in the direction of their gap |
| `SyntheticSpotSynth.WholeRun` | synthetic-arbitrage/include/SyntheticSpotSynth.hpp:18-93 | over any run at positive prices all trades are justified and within the exposure limit; they are more than the cooldown apart if and only if no signal is stale; in time order they are as many as any choice that respects the cooldown |

## Left out

- Sockets, timers, executors, coroutines and `basic_socket_streambuf`: input and output, and glue over services that are not part of this model.
- `connection.hpp` and `endpoint.hpp`: declarations and setters; the bodies of the send queue and the close handshake are not part of this model. The frame reader is the loop the header getters are documented for.
- The opcode predicates, the single-bit setters of a header and the close codes: each is one branch.
- `main.cpp`, the feed clients, JSON, threads, console and CSV logging and the report script.
- `OptionPricer`, `SyntheticPerpEngine` and `rollingStdDev`: transcendental functions and wall-clock time.
- `MispricingBuffer` and `ArbOpportunityEngine::evaluate`: they only feed printed messages. `CrossExchangePair` and `FundingCache`: easy members.
- Floating-point rounding: prices are exact reals.
- MockPnLEngine.MockPnLEngine.RecordTrade: a trade at a real price of zero, whose profit the source makes infinite or not a number, is excluded.
- SyntheticSpotSynth.SyntheticSpotSynth.TakeTrade: the same, as it records the trade.
- SyntheticSpotSynth.SyntheticSpotSynth.CompareToReal: the same, for a comparison that leads to a recorded trade; any other comparison may be at price zero.
- Streambuf.RunQueue: says nothing of a caller that commits bytes it did not write or prepare; `Run` covers those, up to the bytes found in room that had to be made.
- Going on after a `prepare` that threw: the contract of `Prepare` says what the data is then, and a run ends there.
- Alignment of word pointers, and pointer differences that do not fit their types.
- `pbump` and `gbump` casting their argument to `int`, and the growth policy of `std::vector`: its capacity is a parameter.
- Writing through a dereferenced mutable buffer: the iterator is modelled over bytes that are read.
- Moving an iterator out of range: the assertions of the source are preconditions.
- Bytes are copied one by one in word stores, which matters only if input and output overlap with the output behind the input; those calls are excluded.
- Uri.GetPortFromString: a number no `int` can hold makes `atoi` undefined; it is counted as invalid.
- `getSynthetic`, `getPnL` and the other getters: they return a field or a product.
- The URI constructors that take parts, `get_query` and `get_authority`: field assignments and one search.
