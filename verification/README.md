# The hub's HTTP/2 codec and command table, in Dafny

The button hub talks to robots over gRPC, and so over HTTP/2, with the nghttp2 code under
`button_hub/src/nghttp2/`. It keeps its own state, which button triggers which command, in a table that it
saves to a file and loads at start-up. This project models both and proves what they are there for.

The codec is modelled in layers, each held to the one before it.

* `PrefixInt`, `HuffmanCode`, `DynamicTable` and `Hpack` say what header compression means (RFC 7541):
  integers, strings, the dynamic table as a sequence of entries, newest first, the representation the
  deflater picks for a field and the octets it is sent as.
* `InflateMachine` is the inflater as a machine fed one octet at a time, with the original's 13 states.
  `InflateRuns` says what the machine does with a whole integer or string, `Resizing` what both ends make of
  size settings. `BlockFormat` reads a block in one go, as the standard lays it out, and shows that the machine
  reads the same from any octets. `Lossless` puts the two ends together and `LengthLimit` says exactly when an
  exchange goes through. `DeflateBound` bounds a block.
* `RingBuffer`, `HashIndex` and `HdContext` are the data structures behind the dynamic table as the
  original keeps them: a masked ring buffer addressed from a position that wraps around, 128 hash chains
  linked through the entries, a 32-bit sequence counter. `BufChain` is the chain of output buffers and
  `HuffmanCodec` the coder with its 64-bit accumulator and the decoder with its nibble table.
* `Deflaters` and `Inflaters` are the two objects of the public interface, built on those structures and
  proved against `Hpack` and `InflateMachine`; `InflateRounds` relates a round of the inflater's loop to
  the machine.
* `Frames` turns a deflated block, in place, into a HEADERS or PUSH_PROMISE frame and its CONTINUATION
  frames (RFC 7540). `Transfer` sends a header list through all of it: deflated into chunks, framed,
  parsed, and its payloads fed to the inflater one after the other. `Conversation` runs the objects over
  any sequence of settings and blocks. `Origin` is the ORIGIN payload (RFC 8336).
* `RobinHood` is the open-addressing hash map behind streams.
* `ButtonJson` and `CommandTables` are the hub's own part: the text forms of addresses and UUIDs, buttons
  and commands as JSON documents, and the table with its recently observed buttons, commands and names.

What was source code with fields updated in place is a class here, with the loops of the original; what such a class
stands for is a value, and the laws are stated about values and carried over by the methods'
postconditions. The generated tables (the static table, the code words, the decoding automaton) are
parameters: `Hpack.ValidTables`, `HuffmanCode.ValidCode` and `HuffmanCodec.Follows` say what is relied on, and for
some results on how fields are sent `Hpack.Grouped` and `Hpack.Names`.

## What was found

* The deflater sends strings of any length; the inflater refuses those that take more than 65536 octets on the
  wire. An exchange goes through exactly when no such string is sent (`LengthLimit.ConnectionSucceedsIff`).
* `nghttp2_hd_deflate_bound` allows twelve octets per field, for two lengths of six octets, and so leaves out the
  octet that opens a literal with a new name (`nghttp2_hd.c:1580-1587`). A length takes six octets from 2^28 + 127
  on, so a field overruns its allowance by one octet only with two such strings. The bound holds from any state when
  these overruns and the size updates owed take no more than the twelve octets set aside for updates, and always when
  no field has two such strings (`DeflateBound.BlockBound`, `DeflateBound.BoundHolds`). Of fields that have to be sent
  as they are it is exceeded exactly otherwise: by one such field when two six-octet updates are owed, by thirteen
  when none is (`DeflateBound.SumIsExceededIff`, `DeflateBound.LongBlockExceedsIff`, `DeflateBound.OneFieldExceeds`).
  These results are about the sum, for a `size_t` that holds it; a 32-bit `size_t` like the hub's lets the sum wrap
  around as well, and `DeflateBound.BoundIsExceededIff` has both cases.
* `frame_pack_headers_shared` sets END_HEADERS on the last of several frames even if the caller did not
  ask for it (`Frames.FramesAreASequence` has the condition).
* Storing a command loses whether to undock at the destination, the shelf to undock, a lock time of a thousandth of a
  second or less, and every common option of the five types that are read back with defaults; exactly the commands
  without any of these survive (`ButtonJson.CommandSurvivesIff`, `ButtonJson.RequestOptionsAreLost`). A second round
  loses nothing more.
* The shift of code words in the Huffman coder needs them left-aligned in 32 bits
  (`nghttp2_hd_huffman.c:59`), although the comment on the field says aligned to the least significant
  bit (`nghttp2_hd_huffman.h:64-66`); the model follows the code.

* The comment in `ConvertCommands` promises a time under `timestamp_now` (`to_json.cpp:319`); the code writes it under
  `timestamp` (`to_json.cpp:360`), and so does the model.

## Model

| member | source | states |
|---|---|---|
| `PrefixInt.RoundTrip` | button_hub/src/nghttp2/nghttp2_hd.c:811-916 | every 32-bit number, under every prefix and before whatever follows, decodes to itself and to exactly its own octets |
| `PrefixInt.EncodeIs` | button_hub/src/nghttp2/nghttp2_hd.c:811-834 | the octets are those of section 5.1 of RFC 7541: the bits above the prefix kept, a small number under them, any other in the shortest chain of seven-bit groups, the low ones first |
| `PrefixInt.DecodeIs` | button_hub/src/nghttp2/nghttp2_hd.c:853-916 | on any octets: the value the groups stand for, at the end of their chain, and refusal exactly when it has more than 32 bits or the chain goes on into a sixth group |
| `PrefixInt.DecodeSplit` | button_hub/src/nghttp2/nghttp2_hd.c:836-916 | cutting the input anywhere and resuming from the value and shift kept gives the same value, the same overflow and the same number of octets |
| `PrefixInt.ResumedIsNotFresh` | button_hub/src/nghttp2/nghttp2_hd.c:853-916 | an unfinished integer never leaves zero in the accumulator, so a resumed call cannot be taken for a fresh one |
| `PrefixInt.DecodeGrows` | button_hub/src/nghttp2/nghttp2_hd.c:853-916 | the accumulator never shrinks or wraps, on any octets, so testing a limit early refuses nothing that would have passed |
| `PrefixInt.UnderMask` | button_hub/src/nghttp2/nghttp2_hd.c:811-834 | a number put under the prefix bits leaves the bits above them alone and is read back from there |
| `PrefixInt.CountEncodedLength` | button_hub/src/nghttp2/nghttp2_hd.c:794-809 | counts the octets of the encoding exactly, for every number |
| `PrefixInt.EncodeLength` | button_hub/src/nghttp2/nghttp2_hd.c:811-834 | writes the encoding under the high bits already in the first octet and nothing beyond it |
| `PrefixInt.DecodeLength` | button_hub/src/nghttp2/nghttp2_hd.c:853-916 | reports the value, octets read and finality of decoding, resuming from any value and shift, and -1 exactly on overflow of 32 bits |
| `HuffmanCode.DecodeEncoded` | button_hub/src/nghttp2/nghttp2_hd_huffman.c:45-140 | walking the code tree over an encoded string emits the string and ends where padding may end, for every prefix-free code with an all-ones EOS |
| `HuffmanCode.EncodedIs` | button_hub/src/nghttp2/nghttp2_hd_huffman.c:45-104 | the octets sent are the code words in order and then ones, fewer than eight |
| `HuffmanCode.AcceptedIff` | button_hub/src/nghttp2/nghttp2_hd_huffman.c:106-140 | of all strings of bits exactly the words of a string followed by fewer than eight ones are accepted, and give that string |
| `HuffmanCode.WalkAppend` | button_hub/src/nghttp2/nghttp2_hd_huffman.c:110-140 | a walk can be cut anywhere and resumed from the node reached |
| `HuffmanCode.WalkOctet` | button_hub/src/nghttp2/nghttp2_hd_huffman.c:110-140 | an octet is walked bit by bit as its two halves are, with at most one symbol from each |
| `HuffmanCode.TwoPerOctet` | button_hub/src/nghttp2/nghttp2_hd.c:2048-2054 | no string of octets decodes to more than twice as many symbols, which is what makes the name and value buffers long enough |
| `HuffmanCode.ProperPrefixIsNoWord` | button_hub/src/nghttp2/nghttp2_hd_huffman.c:110-140 | a proper part of a code word is an inner node and no symbol's word |
| `HuffmanCode.StubbornString` | button_hub/src/nghttp2/nghttp2_hd.c:972-1015 | no prefix-free code shortens every string: there are strings of every length that are sent as they are |
| `HuffmanCodec.EncodeCount` | button_hub/src/nghttp2/nghttp2_hd_huffman.c:34-43 | the count is the length of the encoded string |
| `HuffmanCodec.EncodeTo` | button_hub/src/nghttp2/nghttp2_hd_huffman.c:45-104 | appends the code words in order, padded with ones, whatever mix of whole words and single octets the chunk boundaries force; with too little room the longest prefix that fits, and an error |
| `HuffmanCodec.SendWord` | button_hub/src/nghttp2/nghttp2_hd_huffman.c:64-83 | the top 32 bits of the accumulator go out as four octets at once or one by one, with the same octets sent and the same bits left |
| `HuffmanCodec.Decode` | button_hub/src/nghttp2/nghttp2_hd_huffman.c:106-140 | the nibble automaton emits what the bit-by-bit walk emits and stands for the node it reaches; a final stretch is refused exactly if that node is not accepting |
| `DynamicTable.AddFits` | button_hub/src/nghttp2/nghttp2_hd.c:1101-1165 | after any insertion the entries, 32 octets each and their strings, take no more than the limit |
| `DynamicTable.AddIs` | button_hub/src/nghttp2/nghttp2_hd.c:1101-1165 | for every table, entry and limit: nothing is left exactly when the entry alone exceeds the limit, and otherwise the entry stands in front of the longest newest run that fits beside it |
| `DynamicTable.SizeIs` | button_hub/src/nghttp2/nghttp2_hd.c:782-784 | the size of a table is 32 octets for each entry and the octets of all names and values |
| `DynamicTable.EvictIsLongest` | button_hub/src/nghttp2/nghttp2_hd.c:1224-1244 | eviction keeps exactly the longest run of newest entries that fits |
| `DynamicTable.ShrinkSeriesIsMinimum` | button_hub/src/nghttp2/nghttp2_hd.c:1224-1293 | shrinking through any series of sizes leaves what shrinking once to their minimum leaves |
| `Hpack.SearchIsNewest` | button_hub/src/nghttp2/nghttp2_hd.c:548-575 | a full search gives the newest exact match or else the newest match of the name; a search by name only gives the latter; nothing is found only if there is nothing |
| `Hpack.StaticRun` | button_hub/src/nghttp2/nghttp2_hd.c:1173-1195 | with equal static names together, searching from the token on finds the entry exactly if it is anywhere in the static table |
| `Hpack.SearchOverlooksNothing` | button_hub/src/nghttp2/nghttp2_hd.c:1197-1222 | the search of both tables is exact exactly if either has the entry, and finds no name exactly if neither has it |
| `Hpack.SearchPrefers` | button_hub/src/nghttp2/nghttp2_hd.c:1197-1222 | of several candidates the newest equal dynamic entry is taken, then an equal static one, then the first static entry of the name, then the newest dynamic one |
| `Hpack.StringIs` | button_hub/src/nghttp2/nghttp2_hd.c:972-1015 | a string is sent Huffman coded exactly if that is shorter, its first bit says so, and its length is that of what is sent |
| `Hpack.IndexedEntryStays` | button_hub/src/nghttp2/nghttp2_hd.c:1328-1341 | a field is sent to be indexed only if it takes at most three quarters of the table, so it is always stored and never just empties it |
| `Hpack.ChoiceIs` | button_hub/src/nghttp2/nghttp2_hd.c:1328-1439 | every field is sent as one index exactly if it is not secret and a table holds it, with its name in full exactly if no table holds that, never-indexed exactly if it is secret, and to be indexed exactly if it is worth an entry: not secret, its name none of the eight listed, and four times its size at most three times the limit in 32 bits |
| `Hpack.StoredIff` | button_hub/src/nghttp2/nghttp2_hd.c:1328-1341 | a field no table holds is in front of the new table exactly if it is worth an entry, and otherwise the table stays |
| `Hpack.SecondTimeIsOneOctet` | button_hub/src/nghttp2/nghttp2_hd.c:1343-1439 | such a field deflated twice in a row is the single octet 0xBE the second time, the index of the newest entry, and then nothing changes |
| `Hpack.DeliveredIs` | button_hub/src/nghttp2/nghttp2_hd.c:1366-1374 | a receiver is to see the field with the never-indexed mark exactly if it was marked, is `authorization` or a `cookie` of fewer than 20 octets |
| `Hpack.ChoiceIsSound` | button_hub/src/nghttp2/nghttp2_hd.c:1328-1439 | whatever representation is picked, it refers to entries that exist, means the field to any reader with the same table, marks it never-indexed exactly when it must be, and leaves that reader with the deflater's new table |
| `Hpack.DeflateFieldsKeeps` | button_hub/src/nghttp2/nghttp2_hd.c:1441-1490 | over any list of fields the deflater's table stays within its size and nothing but the table changes |
| `InflateMachine.StepKeeps` | button_hub/src/nghttp2/nghttp2_hd.c:1892-2259 | any octet in any valid state leads to a valid state or to failure; in particular the index to be committed stays within the tables, the assertion of `nghttp2_hd_table_get` |
| `InflateMachine.RunAppend` | button_hub/src/nghttp2/nghttp2_hd.c:1892-2259 | feeding two strings in turn has the state, the fields and the verdict of feeding them joined |
| `InflateMachine.EveryRunIsSafe` | button_hub/src/nghttp2/nghttp2_hd.c:1262-1314 | over any interleaving of arbitrary octets, with or without the end of the block, size changes and block ends the machine stays valid, and after a failure, be it of a block that ended too early, it stays failed |
| `Resizing.ResizeIs` | button_hub/src/nghttp2/nghttp2_hd.c:1262-1293 | a setting is refused exactly in the middle of a block; a size below the limit in force leaves the longest newest run that fits, becomes the limit and the least size, and demands an update; any other only becomes the setting |
| `Resizing.SettingsAre` | button_hub/src/nghttp2/nghttp2_hd.c:1262-1293 | any settings between two blocks: the last is the setting, the table and the limit are held to the least, and an update is demanded exactly if that is below the limit in force |
| `Resizing.ShrinkingIsAcknowledged` | button_hub/src/nghttp2/nghttp2_hd.c:1915-1979 | after settings of which one was below the limit, every block is refused that does not open with an update of at most the least of them |
| `Resizing.UpdateAboveIsRefused` | button_hub/src/nghttp2/nghttp2_hd.c:1961-1979 | in any state between blocks an update above the least size remembered or above the setting, and one that is cut short or overflows, is refused |
| `Resizing.EveryRunIsAgreed` | button_hub/src/nghttp2/nghttp2_hd.c:1262-1314 | over any interleaving of arbitrary octets, size changes and block ends the entries stay within the limit and the limit within the size last agreed |
| `Resizing.SettingsAreAnnounced` | button_hub/src/nghttp2/nghttp2_hd.c:1451-1473 | the block after any settings announces the least of them and then the last, or the last alone if it is the least; without a setting nothing is announced |
| `InflateRuns.RunInteger` | button_hub/src/nghttp2/nghttp2_hd.c:1659-1686 | reading an integer in pieces, its limit tested after each, is reading it at once and testing once |
| `InflateRuns.RunString` | button_hub/src/nghttp2/nghttp2_hd.c:1701-1747 | reading a string in pieces, plain or Huffman coded, is reading as much of it as there is at once |
| `InflateRuns.EmptyNameIsSkipped` | button_hub/src/nghttp2/nghttp2_hd.c:2068-2117 | an empty name is over before it starts and the next octet belongs to the value |
| `BlockFormat.ReprIsRead` | button_hub/src/nghttp2/nghttp2_hd.c:1892-2259 | on any octets the next field is read as its leading bits say, with the same meaning and table as read in one go, or the block is bound to fail |
| `BlockFormat.BlockIsRead` | button_hub/src/nghttp2/nghttp2_hd.c:1892-2259 | from every state between blocks and on every string of octets the machine with its states accepts exactly the blocks of the format read in one go, with the same fields, table and limit: updates only in front and within bounds, indices from 1 to the length of both tables, strings of at most 65536 octets, padding of fewer than eight ones |
| `BlockFormat.DeflatedIsRead` | button_hub/src/nghttp2/nghttp2_hd.c:1441-1490 | what a deflater in step sends is a block of that format with exactly its fields and its table |
| `Lossless.RunRepr` | button_hub/src/nghttp2/nghttp2_hd.c:946-1099 | every representation that can be sent is read back with its meaning, and the reader's table becomes the one the representation prescribes |
| `Lossless.RunFields` | button_hub/src/nghttp2/nghttp2_hd.c:1343-1439 | a list of fields deflated and inflated from equal tables arrives complete and in order and leaves equal tables |
| `Lossless.RunSizeUpdate` | button_hub/src/nghttp2/nghttp2_hd.c:1961-1979 | a table size update within what was agreed shrinks the reader's table to it |
| `Lossless.ResizeKeepsSync` | button_hub/src/nghttp2/nghttp2_hd.c:1246-1293 | the same size setting at both ends, after any settings before it, is never refused between blocks and keeps the ends in step |
| `Lossless.RunUpdates` | button_hub/src/nghttp2/nghttp2_hd.c:1451-1473 | announcing only the least size passed through and the current one brings the reader to the deflater's table and size |
| `Lossless.ExpectedIs` | button_hub/src/nghttp2/nghttp2_hd.c:1441-1490 | what is to arrive is one list for every block, in the order sent, with every field of it |
| `Lossless.BlockRoundTrip` | button_hub/src/nghttp2/nghttp2_hd.c:1441-1490 | from ends in step, a block is accepted, gives exactly the fields sent with the never-indexed mark, and leaves tables and sizes equal |
| `Lossless.ExchangeIsLossless` | button_hub/src/nghttp2/nghttp2_hd.c:1246-1490 | over any sequence of settings and blocks nothing is refused, every block arrives as sent and after each block the tables are equal |
| `Lossless.ConnectionIsLossless` | button_hub/src/nghttp2/nghttp2_hd.c:701-759 | the same from the state in which the two ends are created, for every cap on the deflater's table |
| `LengthLimit.RunOverlongRepr` | button_hub/src/nghttp2/nghttp2_hd.c:1659-1686 | a literal with a string coded in more than 65536 octets makes the inflater fail |
| `LengthLimit.BlockAcceptedIff` | button_hub/src/nghttp2/nghttp2_hd.c:1892-2259 | a block of a deflater in step is accepted exactly when every string in it is coded in at most 65536 octets |
| `LengthLimit.ConnectionSucceedsIff` | button_hub/src/nghttp2/nghttp2_hd.h:45 | over any sequence of settings and blocks the exchange goes through exactly when no longer string is sent |
| `LengthLimit.SomeFieldDoesNotFit` | button_hub/src/nghttp2/nghttp2_hd.h:45 | whatever the code, there are fields the deflater sends and the inflater refuses |
| `DeflateBound.Bound` | button_hub/src/nghttp2/nghttp2_hd.c:1569-1594 | twelve octets for the block, twelve for each field and the lengths of all names and values, cut to the hub's `size_t` |
| `DeflateBound.FieldBound` | button_hub/src/nghttp2/nghttp2_hd.c:946-1099 | whatever representation is picked for a field with strings of any length, it stays within eleven octets, one more for each long string, and the lengths of its strings |
| `DeflateBound.BlockBound` | button_hub/src/nghttp2/nghttp2_hd.c:1441-1490 | from any state and for any fields, no block is longer than the updates owed, twelve octets and its excess for each field, and its strings; so the bound holds when updates and excesses fit the twelve octets set aside and the sum fits a `size_t` |
| `DeflateBound.BoundHolds` | button_hub/src/nghttp2/nghttp2_hd.c:1569-1594 | the bound is never exceeded, from any state, by fields of which none has two strings of 2^28 + 127 octets or more |
| `DeflateBound.SumIsExceededIff` | button_hub/src/nghttp2/nghttp2_hd.c:1569-1594 | from any state, fields that can only be sent as they are exceed the sum exactly when the updates owed and what the fields take besides their strings come to more than twelve octets and twelve for each |
| `DeflateBound.LongBlockExceedsIff` | button_hub/src/nghttp2/nghttp2_hd.c:1569-1594 | if all of them have two long strings, exactly when the octets of updates owed and the number of fields come to more than twelve |
| `DeflateBound.OneFieldExceeds` | button_hub/src/nghttp2/nghttp2_hd.c:1451-1473 | after two size changes on a fresh deflater there is, whatever the code, one field whose block is an octet longer than the bound |
| `DeflateBound.LongFieldOverruns` | button_hub/src/nghttp2/nghttp2_hd.c:1075-1099 | from that length on, a field sent with two such strings as they are takes one octet more than is allowed for it |
| `DeflateBound.BoundIsExceededIff` | button_hub/src/nghttp2/nghttp2_hd.c:1569-1594 | from any state, such fields exceed the bound the hub computes in 32 bits exactly in that case or when the sum wraps around |
| `RingBuffer.WrapIsInvisible` | button_hub/src/nghttp2/nghttp2_hd.c:608-612 | a position that has wrapped at 32 bits gives the same slot under a power-of-two mask |
| `RingBuffer.SlotsDiffer` | button_hub/src/nghttp2/nghttp2_hd.c:608-612 | different places less than the buffer apart never share a slot |
| `RingBuffer.RingPush` | button_hub/src/nghttp2/nghttp2_hd.c:653-667 | writing just before the first entry, wrapped below zero or not, puts the new entry at index 0 and moves every other up by one |
| `RingBuffer.RingBuf.constructor` | button_hub/src/nghttp2/nghttp2_hd.c:593-606 | an empty buffer of a power of two |
| `RingBuffer.RingBuf.Get` | button_hub/src/nghttp2/nghttp2_hd.c:608-612 | index i is the i-th newest entry |
| `RingBuffer.RingBuf.Reserve` | button_hub/src/nghttp2/nghttp2_hd.c:614-637 | growing to a larger power of two keeps the entries and their order |
| `RingBuffer.RingBuf.PushFront` | button_hub/src/nghttp2/nghttp2_hd.c:653-667 | the new entry comes first, all others stay in order behind it |
| `RingBuffer.RingBuf.PopBack` | button_hub/src/nghttp2/nghttp2_hd.c:669-672 | the oldest entry goes and no other |
| `RingBuffer.RoundUp` | button_hub/src/nghttp2/nghttp2_hd.c:593-606 | the least power of two that is enough |
| `HashIndex.NextInPush` | button_hub/src/nghttp2/nghttp2_hd.c:533-546 | an entry in front changes the successor of no other in any chain |
| `HashIndex.NextInRemove` | button_hub/src/nghttp2/nghttp2_hd.c:577-591 | taking an entry out closes its own chain over it and leaves all others |
| `HashIndex.SameName` | button_hub/src/nghttp2/nghttp2_hd.c:548-575 | comparing tokens, or hashes and octets where there is no token, is comparing names |
| `HashIndex.HdMap.Insert` | button_hub/src/nghttp2/nghttp2_hd.c:533-546 | the chains hold exactly the entries indexed, newest first, with the new one in front |
| `HashIndex.HdMap.Find` | button_hub/src/nghttp2/nghttp2_hd.c:548-575 | following one chain finds what a linear search of the whole table finds |
| `HashIndex.HdMap.Remove` | button_hub/src/nghttp2/nghttp2_hd.c:577-591 | exactly that entry leaves the index |
| `HdContext.SeqRecovers` | button_hub/src/nghttp2/nghttp2_hd.c:1197-1222 | the place of an entry is recovered from its sequence number even after the 32-bit counter has wrapped |
| `HdContext.Context.Evicting` | button_hub/src/nghttp2/nghttp2_hd.c:1112-1131 | evicts from the old end exactly until the room asked for is there, or empties the table if it can never be |
| `HdContext.Context.AddIncremental` | button_hub/src/nghttp2/nghttp2_hd.c:1101-1165 | ring buffer, index, sequence numbers and size all come to stand for the table after insertion, which `DynamicTable.AddIs` pins down; an entry larger than the limit, and no other, empties it |
| `HdContext.Context.ShrinkTableSize` | button_hub/src/nghttp2/nghttp2_hd.c:1224-1244 | the table is evicted down to its limit and size and index agree with it |
| `HdContext.Context.TableGet` | button_hub/src/nghttp2/nghttp2_hd.c:1302-1314 | the entry behind an index over the static and then the dynamic table |
| `HdContext.Context.SearchStaticTable` | button_hub/src/nghttp2/nghttp2_hd.c:1173-1195 | the first entry with the token and value, or the token's first entry for its name |
| `HdContext.Context.SearchTable` | button_hub/src/nghttp2/nghttp2_hd.c:1197-1222 | the search through hash chains and sequence numbers gives the index of the linear search |
| `BufChain.Init` | button_hub/src/nghttp2/nghttp2_buf.c:127-156 | one empty chunk and room for all the chunks allowed, or the refusal of numbers that make no chain |
| `BufChain.Bufs.AllocChain` | button_hub/src/nghttp2/nghttp2_buf.c:303-333 | moves to the next chunk, there already or new, without changing the contents; fails exactly when no chunk is left and then changes nothing |
| `BufChain.Bufs.Add` | button_hub/src/nghttp2/nghttp2_buf.c:335-361 | appends exactly the data if there is room for it over all chunks, and otherwise the prefix that fits; ends even when a fresh chunk has no room |
| `BufChain.Bufs.Addb` | button_hub/src/nghttp2/nghttp2_buf.c:363-392 | appends one octet, or fails without a change when there is no room left, whenever the chunk it would write to has room |
| `BufChain.Bufs.Len` | button_hub/src/nghttp2/nghttp2_buf.c:291-301 | the length of the contents |
| `BufChain.Bufs.RemoveCopy` | button_hub/src/nghttp2/nghttp2_buf.c:468-484 | copies out the contents of all chunks in order |
| `BufChain.Bufs.Reset` | button_hub/src/nghttp2/nghttp2_buf.c:486-517 | empties the contents, keeps the first chunks up to the number to keep, counts what is left and has room for all chunks again |
| `Deflaters.Deflater.constructor` | button_hub/src/nghttp2/nghttp2_hd.c:701-723 | a deflater with an empty table, its limit the cap or the default, and an update owed if the cap is smaller |
| `Deflaters.Deflater.ChangeTableSize` | button_hub/src/nghttp2/nghttp2_hd.c:1246-1260 | the state after the change, capped, with the least size passed through remembered and an update owed |
| `Deflaters.EmitString` | button_hub/src/nghttp2/nghttp2_hd.c:972-1015 | appends the string Huffman coded exactly when that is shorter, or the part of it that fits and an error |
| `Deflaters.EmitIndname` | button_hub/src/nghttp2/nghttp2_hd.c:1033-1073 | appends the literal with an indexed name, or the part of it that fits and an error |
| `Deflaters.EmitNewname` | button_hub/src/nghttp2/nghttp2_hd.c:1075-1099 | appends the literal with a new name, or the part of it that fits and an error |
| `Deflaters.Deflater.DeflateNv` | button_hub/src/nghttp2/nghttp2_hd.c:1343-1439 | appends the octets of the representation `Hpack` picks (`Hpack.ChoiceIs`) and leaves the state it prescribes (`Hpack.StoredIff`), with the table in ring buffer and chains |
| `Deflaters.Deflater.DeflateHdBufs` | button_hub/src/nghttp2/nghttp2_hd.c:1441-1490 | appends exactly the block if there is room for it and otherwise a prefix; the deflater is spoilt exactly on failure and a spoilt one does nothing |
| `InflateRounds.ClassifiedStep` | button_hub/src/nghttp2/nghttp2_hd.c:1915-1960 | going by the first octet of a representation before reading it again as an integer is the machine's one step |
| `InflateRounds.ChunkAndRest` | button_hub/src/nghttp2/nghttp2_hd.c:1892-2259 | a chunk fed and then the rest is the block fed, with the same fields in the same order |
| `InflateRounds.DrivenIsBlock` | button_hub/src/nghttp2/nghttp2_hd.c:2226-2265 | feeding everything with the end marked is inflating the block, verdict included |
| `Inflaters.Inflater.constructor` | button_hub/src/nghttp2/nghttp2_hd.c:725-759 | an inflater in the machine's first state |
| `Inflaters.Inflater.ReadLen` | button_hub/src/nghttp2/nghttp2_hd.c:1659-1686 | an integer resumed from what was kept; refused on overflow or over the limit |
| `Inflaters.Inflater.ReadHuff` | button_hub/src/nghttp2/nghttp2_hd.c:1701-1724 | takes in as much of a coded string as there is, without leaving the buffer, and fails exactly when the code or its padding is violated |
| `Inflaters.Inflater.Read` | button_hub/src/nghttp2/nghttp2_hd.c:1738-1747 | takes in as much of a plain string as there is |
| `Inflaters.Inflater.CommitLiteral` | button_hub/src/nghttp2/nghttp2_hd.c:1771-1849 | emits the field and adds it to the table exactly if it was sent to be indexed |
| `Inflaters.Inflater.InflateHdNv` | button_hub/src/nghttp2/nghttp2_hd.c:1892-2259 | one call, on any octets: reports the next field of the machine's run and how far it got, or the end of the input, or failure exactly when the run fails, or may not end there, before another field; after a failure every call fails |
| `Inflaters.Inflater.ChangeTableSize` | button_hub/src/nghttp2/nghttp2_hd.c:1262-1293 | refused in the middle of a block; otherwise the state of `Resizing.ResizeIs`: a smaller size shrinks the table, lowers the limit and demands an update |
| `Inflaters.Inflater.InflateAll` | button_hub/src/nghttp2/nghttp2.h:6691-6723 | the caller's loop gives all fields of the input in order, and its verdict |
| `Inflaters.Inflater.InflateChunks` | button_hub/src/nghttp2/nghttp2.h:6691-6723 | a block handed over in any partition gives the fields, the verdict and the final state of the block in one piece |
| `RobinHood.OnPath` | button_hub/src/nghttp2/nghttp2_map.c:102-105 | between an entry and its home every slot is taken by an entry at least as far from its own home as the search has come |
| `RobinHood.StopMeansAbsent` | button_hub/src/nghttp2/nghttp2_map.c:248-276 | a search that meets a free slot or an entry nearer its home than the search has come may stop: the key is not there |
| `RobinHood.PlaceKeepsLayout` | button_hub/src/nghttp2/nghttp2_map.c:151-181 | taking the slot of an entry nearer its home keeps the probe layout |
| `RobinHood.ShiftHole` | button_hub/src/nghttp2/nghttp2_map.c:300-317 | moving the next displaced entry back into the hole keeps the layout around the hole |
| `RobinHood.CloseHole` | button_hub/src/nghttp2/nghttp2_map.c:300-317 | the hole may stay once the next slot is free or at home |
| `RobinHood.InsertEntry` | button_hub/src/nghttp2/nghttp2_map.c:151-181 | fails exactly if the key is there and then changes nothing; otherwise adds exactly that entry, whatever was displaced on the way, and ends |
| `RobinHood.Locate` | button_hub/src/nghttp2/nghttp2_map.c:248-276 | finds the slot of a key exactly if it is in the map |
| `RobinHood.ShiftBack` | button_hub/src/nghttp2/nghttp2_map.c:300-317 | the back-shift restores the layout with the same entries, and ends |
| `RobinHood.HoldsUnique` | button_hub/src/nghttp2/nghttp2_map.c:218-336 | a table stands for one map only |
| `RobinHood.Map.Resize` | button_hub/src/nghttp2/nghttp2_map.c:185-216 | the larger table stands for the same map; inserting an entry again never fails, the assertion at line 207 |
| `RobinHood.Map.Insert` | button_hub/src/nghttp2/nghttp2_map.c:218-246 | adds the entry, or fails exactly on a key already there or on memory, leaving the map; the table grows exactly when one more entry would take it over three quarters, to 16 slots or to twice its length |
| `RobinHood.Map.Find` | button_hub/src/nghttp2/nghttp2_map.c:248-276 | exactly the value stored |
| `RobinHood.Map.Remove` | button_hub/src/nghttp2/nghttp2_map.c:278-327 | exactly that key goes, or the call fails because it was not there |
| `RobinHood.Map.Clear` | button_hub/src/nghttp2/nghttp2_map.c:329-336 | the empty map |
| `Frames.HdRoundTrip` | button_hub/src/nghttp2/nghttp2_frame.c:37-51 | a frame header survives packing exactly when its length has 24 bits and its stream 31 |
| `Frames.HdLayout` | button_hub/src/nghttp2/nghttp2_frame.c:37-43 | 24 bits of length, type, flags and stream, each with its high octets first |
| `Frames.ParseWires` | button_hub/src/nghttp2/nghttp2_frame.c:37-51 | frames written one after the other parse back to those frames |
| `Frames.FramesAreASequence` | button_hub/src/nghttp2/nghttp2_frame.c:305-359 | one frame and CONTINUATION frames of its stream, END_HEADERS on the last and only there, exactly when the caller set END_HEADERS or several chunks were needed |
| `Frames.FramesAreHeaded` | button_hub/src/nghttp2/nghttp2_frame.c:305-359 | every frame is on the stream asked for and says how long its payload is; the first has the kind and, but for END_HEADERS, the flags asked for; the others are CONTINUATION without further flags; END_HEADERS is on the last alone, on a single frame only if asked for |
| `Frames.PackedParsesBack` | button_hub/src/nghttp2/nghttp2_frame.c:305-359 | the frames parse back, headed as asked for, and their payloads joined are what was in the chunks |
| `Frames.PackHeadersShared` | button_hub/src/nghttp2/nghttp2_frame.c:305-359 | the chunks in place become the octets of those frames, in order, headed as asked for |
| `Frames.PriorityRoundTrip` | button_hub/src/nghttp2/nghttp2_frame.c:399-419 | a dependency survives packing exactly when its stream has 31 bits and its weight is 1 to 256 |
| `Frames.PriorityLayout` | button_hub/src/nghttp2/nghttp2_frame.c:399-409 | the exclusive bit above 31 bits of stream, high octets first, then the weight less one |
| `Frames.PackBlock` | button_hub/src/nghttp2/nghttp2_frame.c:361-397 | fixed fields and block are deflated and framed, the fixed fields in the first frame, exactly when the deflater is good and they fit, and a parser then finds the frames headed as asked for; otherwise the call fails and the deflater is spoilt |
| `Frames.PackHeaders` | button_hub/src/nghttp2/nghttp2_frame.c:361-397 | the same for a HEADERS frame with or without a dependency: stream, kind and flags are those asked for |
| `Frames.PackPushPromise` | button_hub/src/nghttp2/nghttp2_frame.c:554-587 | the same for a PUSH_PROMISE frame with its promised stream: stream, kind and flags are those asked for |
| `Transfer.PackedIsReceived` | button_hub/src/nghttp2/nghttp2_frame.c:361-431 | the fragments in the frames, without the dependency if there is one, join to the block that was packed; without END_HEADERS in a single frame nothing is received |
| `Transfer.FramedBlockIsLossless` | button_hub/src/nghttp2/nghttp2_frame.c:305-397 | however a block was spread over chunks, its frames are well formed and carry a block that inflates to the fields sent, leaving the ends in step |
| `Transfer.Send` | button_hub/src/nghttp2/nghttp2_frame.c:361-397 | the octets that leave carry exactly the deflated block, whatever the flags, in frames headed with the stream and flags asked for, or it did not fit and nothing leaves |
| `Transfer.Receive` | button_hub/src/nghttp2/nghttp2.h:6691-6723 | the payloads of the frames, fed to the inflater one after the other, give the fields and the verdict of the block |
| `Transfer.SendAndReceive` | button_hub/src/nghttp2/nghttp2_frame.c:361-397 | through deflater, chunks, frames, parser and inflater a header list arrives as sent exactly when it fits the buffers; then the tables are equal and all that is asked for the next call holds again |
| `Conversation.Connect` | button_hub/src/nghttp2/nghttp2_hd.c:701-759 | buffers, deflater and inflater as they are created are in step |
| `Conversation.Converse` | button_hub/src/nghttp2/nghttp2_hd.c:1246-1490 | the objects over any sequence of settings and blocks: it goes through exactly when every block fits the buffers, and then every block arrives as sent, the ends are in step and after a block the tables are equal |
| `Origin.AcceptedIsWellFormed` | button_hub/src/nghttp2/nghttp2_frame.c:819-889 | a payload is accepted exactly when it is a sequence of whole entries |
| `Origin.EntryLayout` | button_hub/src/nghttp2/nghttp2_frame.c:804-814 | an entry is 16 bits of length, the high octet first, and the origin |
| `Origin.RoundTrip` | button_hub/src/nghttp2/nghttp2_frame.c:789-889 | a packed list comes back without its empty origins exactly when every origin has at most 65535 octets |
| `Origin.LayoutAt` | button_hub/src/nghttp2/nghttp2_frame.c:871-886 | each origin lies where its entry points and is followed by a terminator |
| `Origin.Count` | button_hub/src/nghttp2/nghttp2_frame.c:836-852 | the first pass accepts what can be decoded and counts the origins and the room they take |
| `Origin.Copy` | button_hub/src/nghttp2/nghttp2_frame.c:872-886 | the second pass lists every origin and fills exactly the room counted, for every payload the first pass accepts |
| `Origin.Unpack` | button_hub/src/nghttp2/nghttp2_frame.c:819-889 | entries and stored octets are those of the origins decoded, or the frame size error |
| `Origin.Pack` | button_hub/src/nghttp2/nghttp2_frame.c:789-817 | header and entries in order, or an error and nothing written when the chunk is too short |
| `ButtonJson.Deserialize` | button_hub/command_table.cpp:83-152 | accepts exactly the well-formed addresses and UUIDs and gives their octets |
| `ButtonJson.ParsePrinted` | button_hub/command_table.cpp:66-152 | every address and UUID printed parses back to itself |
| `ButtonJson.PrintParsed` | button_hub/command_table.cpp:66-152 | printing what was parsed gives the text back in lower case |
| `ButtonJson.AcceptedIff` | button_hub/command_table.cpp:83-152 | a text is read as some octets exactly if in lower case it is what those octets print as |
| `ButtonJson.PrintedAddress` | button_hub/command_table.cpp:66-81 | six pairs of lower-case hexadecimal digits between colons |
| `ButtonJson.PrintedUuid` | button_hub/command_table.cpp:108-120 | 8, 4, 4, 4 and 12 lower-case hexadecimal digits between dashes |
| `ButtonJson.ButtonRoundTrip` | button_hub/to_json.cpp:168-189 | every button written into a document without a button reads back as that button, whatever else the document says |
| `ButtonJson.ButtonAcceptedIff` | button_hub/from_json.cpp:245-290 | of any document: a button is found exactly if the first of the three sections that is there is complete, and for a beacon, as modelled, both texts are well formed |
| `ButtonJson.CommandRoundTrip` | button_hub/from_json.cpp:5-243 | every command of the 13 types reads back in its normal form |
| `ButtonJson.CommandIsDescribed` | button_hub/to_json.cpp:251-305 | the document of a command has its number, its options, the text and the lock only if they say something, the section of its type, and nothing else |
| `ButtonJson.CommandAcceptedIff` | button_hub/from_json.cpp:5-243 | of any document: a command is found exactly if its type is one of the 13 modelled and the section its type needs is there with its keys, and it is of that type |
| `ButtonJson.CommandSurvivesIff` | button_hub/to_json.cpp:251-305 | a command reads back unchanged exactly when it does not undock at the destination, names no shelf to undock, its lock time is zero or over a thousandth, and for the types read with defaults its options are those defaults |
| `ButtonJson.RequestOptionsAreLost` | button_hub/from_json.cpp:205-240 | an HTTP request with all options set comes back with none |
| `CommandTables.SetIsFound` | button_hub/command_table.cpp:386-403 | after a command is set its button has that command, every other the one it had, and no button is registered twice |
| `CommandTables.LatestIsNewestFirst` | button_hub/command_table.cpp:160-182 | over any history the full list has each button once, as it was last seen, the newest first, and leaves none out |
| `CommandTables.ObservationKeeps` | button_hub/command_table.cpp:160-182 | one more observation, erased, pushed and popped as the code does, keeps the newest of the whole history |
| `CommandTables.KeptAreNewest` | button_hub/command_table.cpp:160-182 | the buttons kept are distinct, newest first, as last seen, within the limit, and all of them when there are fewer |
| `CommandTables.LoadItemsKeeps` | button_hub/command_table.cpp:257-284 | whatever the document says, no button ends up registered twice |
| `CommandTables.LoadItemsIs` | button_hub/command_table.cpp:257-284 | whatever the document says: the result is true exactly if every element is a command, and each button ends up with the last command listed for it or the one it had |
| `CommandTables.OtherFilesAreIgnored` | button_hub/command_table.cpp:345-376 | without a file, or with one of a version other than 7, nothing changes; without its list a document leaves its part as it was |
| `CommandTables.LoadFileKeeps` | button_hub/command_table.cpp:345-376 | whatever the file says, the table stays valid |
| `CommandTables.LoadsBack` | button_hub/command_table.cpp:257-284 | commands saved are restored in order and normal form; names stay, and exactly the buttons without one get the next numbered names, in the order of their commands |
| `CommandTables.NamesLoadBack` | button_hub/to_json.cpp:191-249 | names split over observed buttons and the rest, in any order, are all read back and none is added |
| `CommandTables.NewNamesAreDistinct` | button_hub/command_table.cpp:386-392 | the names given to buttons without one are all different |
| `CommandTables.SaveLoadRoundTrip` | button_hub/command_table.cpp:314-376 | a file saved and loaded into any table gives every name, every command in its place in normal form, and the next numbered names exactly to registered buttons that had none |
| `CommandTables.CommandsSurviveIff` | button_hub/command_table.cpp:314-376 | the commands come back as they were exactly when each of them survives storing |
| `CommandTables.SecondRoundIsIdentity` | button_hub/command_table.cpp:314-376 | after one save and load, of any table into any table, another changes neither commands nor names |
| `CommandTables.CommandTable.NotifyObservedButton` | button_hub/command_table.cpp:160-182 | the list stays the newest distinct buttons of everything ever seen |
| `CommandTables.CommandTable.SetCommand` | button_hub/command_table.cpp:188-191 | the new command is found for its button, all others as before, and an unnamed button is named |
| `CommandTables.CommandTable.DeleteCommand` | button_hub/command_table.cpp:193-199 | the button has no command, all others as before, and a beacon loses its name |
| `CommandTables.CommandTable.GetCommandByButton` | button_hub/command_table.cpp:206-216 | the command registered for the button, if any |
| `CommandTables.CommandTable.LoadCommand` | button_hub/command_table.cpp:233-250 | one command from a document is set, or nothing changes |
| `CommandTables.CommandTable.ConvertObservedButtons` | button_hub/to_json.cpp:191-249 | the document lists the observed buttons first, in order, each with its own time, with its distance exactly if that is not negative, with its name exactly if it has one, and read back as that button; then every other name once; and it says when it was written |
| `CommandTables.CommandTable.ConvertCommands` | button_hub/to_json.cpp:316-366 | the document lists the commands in order, each beside its button, and says when it was written |
| `CommandTables.CommandTable.Save` | button_hub/command_table.cpp:314-343 | the file written holds the table: the buttons document shows every observed button with time, distance and name, then the other names, and reads back as the names; the commands document lists the commands in order; both say when they were written |
| `CommandTables.CommandTable.Load` | button_hub/command_table.cpp:345-376 | the table becomes what the file says; with no file or another version nothing changes |
| `CommandTables.Restart` | button_hub/command_table.cpp:314-376 | a table saved by one object and loaded by another: commands in place in normal form, names kept, the next numbered names only where there was none |

## Left out

- Memory: allocation is taken to succeed, except that the hash map takes as an argument whether it may grow. Reference-counted strings, custom allocators and debug output are not modelled; strings are values.
- Generated code and data: `lookup_token` is the first place of a name among the static names and the seven extra tokens. The contents of the static and Huffman tables are parameters; that the shipped data meet the assumptions on them (that equal static names stand together, `Hpack.Grouped`, and that the names tested for have the tokens they are tested by, `Hpack.Names`) is not shown here.
- HashIndex.HdMap: the chains belong to the context instead of being handed to each call, and the tabulated hash of a static name is taken to be the hash computed from the name.
- BufChain.Bufs.Addb: says nothing of a call that would move on to a chunk without room, since the code then writes behind that chunk.
- BufChain: `nghttp2_bufs_orb`, the variants that hold the position, `nghttp2_bufs_wrap_init`, `nghttp2_bufs_realloc`, `nghttp2_bufs_remove` and `nghttp2_buf_reserve` would add only easy members.
- Frames: padding, SETTINGS, GOAWAY, ALTSVC and the small fixed frames, copying and sorting of header arrays are not modelled; they would add easier members than those here. The reserved bit of a frame header is not modelled.
- Frames.PackHeaders: reports failure without telling the reasons apart, as the code does, so a caller does not see that the buffers were too small.
- HuffmanCodec.EncodeCount: the sum of bits is unbounded, so a string of more than 2^27 octets, whose bit count would not fit the hub's 32-bit `size_t`, is counted as if it did. Results on strings as long as that, those of `DeflateBound` among them, are about a `size_t` in which the bit count fits.
- DynamicTable: sizes of entries are unbounded numbers; only the product in the indexing threshold, the ring buffer's position and the sequence counter wrap as on the hub.
- Inflaters.Inflater: the reasons for failure are not told apart.
- Transfer: cutting the received octets into frames is the model's own, with the frame headers unpacked as the code does; the session that does it is not part of this model.
- Origin: the room left in the chunk is compared with the length in the header, which the caller has set to that of the entries.
- RobinHood: `nghttp2_map_each` and the debugging printer.
- CommandTables: JSON text and its parser, SPIFFS and the two file names are not modelled: a document is a tree, a file is a version and two documents, and nothing is said about a crash while saving. The lock around every method is not modelled, and the number of the next unnamed button does not wrap around.
- ButtonJson: a beacon whose texts do not parse is taken not to be a button, where the code goes on with octets never set; commands of unknown type, for which the code fills in nothing, are left out of what is loaded. A command is what its own type uses of the `Command` structure. Texts are read only from JSON strings, and numbers never from them, though the library would.
- ButtonJson.ButtonAcceptedIff: refuses a beacon whose texts do not parse, where the code goes on with octets never set.
- ButtonJson.CommandAcceptedIff: refuses a type that is not modelled, where the code accepts it with nothing filled in.
- The rest of nghttp2 (sessions, streams, callbacks) and of the hub (tasks of the API client, Bluetooth, Wi-Fi, screen, updates, web pages) is not modelled.
