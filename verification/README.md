# A model of the RIPE Atlas probe's compression, wire formats and schedulers

The measurement code of a RIPE Atlas probe compresses its results with a
built-in gzip, speaks DNS, TLS and HTTP/2 with encoders and decoders of its
own, sends traceroute and NTP measurements from event-driven state machines,
and runs them from a crontab and from a queue of one-off commands. This project
models those parts and proves what they are for.

**gzip** (`archival/gzip.c`) is modelled from `zip` down to the single bit:
the sliding window with its hash chains, the lazy choice of matches, the token
buffers, the Huffman trees with their length limit, the run-length coded tree
headers, the choice of block type and the 16-bit output buffer. `Inflate` is an
independent decoder, written from RFC 1951, sections 3.2.3 to 3.2.7, on a
sequence of bits. The main result is `Gzip.Zip`: for every input, every way in
which reads deliver it, and every configuration, decoding the file gives back
the bytes that were read. On the way, each layer has its own law: the trees are
complete prefix codes for every frequency table, within the length limit, and
optimal when nothing had to be clamped, and with the lengths given out in the best
way when something had; the two lengths the encoder compares
are the exact sizes in bits of the two encodings; the block written is the
shortest, in bytes, under a stated condition, and never more than two bytes from
it; the hash chains miss no string, so a match found is the longest one among all
positions searched, and the tokens are those of lazy evaluation.

**The wire formats**: HPACK integers (`http2.c`), DNS names with compression
pointers (`evtdig.c`), TLS records and handshake messages (`sslgetcert.c`) and
the checksum that traceroute steers to a chosen value. Each has a round trip.

**The state machines**: traceroute and NTP runs under every interleaving of
replies and timers, the slots and barriers of the one-off queue under every
sequence of events, and the job list of the scheduler when its crontab is read
again, as a linked list that is updated in place.

Some of the expected laws do not hold on all inputs. For these the exact
condition is proved, as an equivalence, beside an input on which the law fails:

- `BlockChoice.ShortestIff`: flush_block compares sizes without regard to where
  in a byte the block starts, so the form it takes can be longer than another one
  (`BlockLosses.StoredLoses`, `FixedLoses`; `WriteSpread` writes such a block).
- `Crontab.RunTimes`: a cycle can be run again after a reschedule that is made
  before the start of the last cycle run (`Crontab.RunAgain`); the clock may have
  been set back, or the offsets drawn are wider than the interval
  (`Crontab.ClockSetBack`, `SteadyClock`).
- `Ntp.RttAndOffset`: the sum behind the offset is made in 64 bits, so a clock
  difference of 2^30 seconds or more, about 34 years, is too large for it
  (`Ntp.OffsetLost`). The model wraps around where C leaves the result open.
- `Hpack.RoundTrip`: a value that fits the first byte is lost if the prefix
  value has other bits there (`Hpack.PrefixDisturbs`); no call has such a prefix
  value, and then the law holds (`Hpack.CleanPrefix`). `Hpack.UndefinedIff` says
  which bytes make the decoder shift by more bits than a word has.
- `DnsName.RoundTrip`: the encoder has no limit of its own, the reader stops at
  255 characters (`DnsName.LongNameLost`).
- `DnsName.LengthsAgree`: `dns_namelen` counts one byte for a pointer, `ReadName`
  counts two (`DnsName.PointerCountedOnce`).
- `TlsRecord.HandshakeRoundTrip`: the length field has 24 bits
  (`TlsRecord.LengthLost`).
- `Checksum.Steered`: a packet steered to 0xffff gets zero (`Checksum.NotSteered`);
  no traceroute run has such a sequence number (`Traceroute.SequenceSteered`).

## How it is written

Objects that the C code updates are classes with the same fields, arrays stay
arrays, loops stay loops. Every such method is proved against a function or
predicate on sequences, and the laws are lemmas about those. Integer widths are
explicit where the code depends on them: `% 0x10000`, `% U32`, wrapped
differences of window positions.

The input of gzip is a sequence; how many bytes a read returns is arbitrary,
and a read may fail. Packets, sockets, clocks, random numbers and the commands
that are started are parameters or arbitrary values.

Where code and comments disagree, the code is followed:

- The comment in `build_tree` says that a forced code is 0 or 1. It can be 2;
  `BuildTree.ForcedCancel` shows that this does no harm, because codes below 3
  have no extra bits in any of the three trees.
- The window of the C code has exactly 2 * WSIZE bytes. `longest_match` reads the
  bytes from strstart up to the one behind the best length, so its reads stay
  inside exactly if strstart plus that length is below 2 * WSIZE, and for all
  contents exactly if strstart + MAX_MATCH is (`LongestMatch.LongestMatch`,
  `AllAlike`). This holds as long as the lookahead is kept up
  (`SlidingWindow.SearchInside`); at the end of the input it need not, for example
  for 65534 equal bytes that arrive in one read. The model gives the window
  MAX_MATCH more bytes of arbitrary value; the length is cut to the lookahead
  afterwards, as in the code.
- After hop 255 a traceroute never reaches its second test for the gap limit,
  because `maxhops` is at most 255 and ends the run first.

| files | modelled |
|---|---|
| Gzip, Deflate, SlidingWindow, Chains, Hash, LongestMatch | zip, deflate, fill_window, longest_match |
| FlushBlock, BlockChoice, Blocks, TokenBuffer, CompressBlock, BlockCode | flush_block, ct_tally, compress_block |
| BlockLosses, SizeBounds | blocks for which flush_block does not take the shortest form |
| DynTrees, DynHeader, SendTree, RunLength | build_bl_tree, send_all_trees, send_tree, scan_tree |
| BuildTree, HuffmanTree, Heap, Forest, TreeShape, Optimality | build_tree, pqdownheap |
| Lengths, BitLengths, LengthRepair, LengthReassign, Rearrange | gen_bitlen |
| Canonical, StaticTrees, Tables | gen_codes, ct_init |
| BitWriter, Bits, Sums | send_bits and the output buffer; bit and sum arithmetic |
| Inflate | the decoder of RFC 1951, as a specification |
| Hpack, DnsName, TlsRecord, Checksum | wire formats |
| Traceroute, Ntp, OneOffQueue, Crontab | state machines |

## Model

| member | source | states |
|---|---|---|
| Gzip.Zip | probe-busybox/archival/gzip.c:2063-2093 | The file is the ten header bytes, a body, and two little-endian words; an independent RFC 1951 decoder started behind the header reads back exactly the bytes that were read, which are the whole input unless a read failed, and stops in the last byte of the body; the last word is their number modulo 2^32. |
| Gzip.Compress | probe-busybox/archival/gzip.c:2079-2086 | A compressed stream appended to any byte-aligned output decodes to the bytes read. |
| Gzip.PutHeader | probe-busybox/archival/gzip.c:2067-2084 | The ten bytes of the member header, and no bit left pending. |
| Gzip.PutTrailer | probe-busybox/archival/gzip.c:2088-2092 | Checksum and size follow the body and nothing stays in the buffer. |
| Gzip.WholeFile | probe-busybox/archival/gzip.c:2063-2093 | Decoding from bit 80 is not disturbed by the header before it or the trailer behind it. |
| Deflate.Deflater.Run | probe-busybox/archival/gzip.c:1805-1908 | For every input and every way reads can split it, the stream decodes to the input read, and so do the tokens of the run; the number returned is the number of bytes written, modulo 2^29. |
| Deflate.Deflater.Step | probe-busybox/archival/gzip.c:1814-1903 | One turn makes the search at strstart as it is specified and then does what lazy evaluation says: the match held back becomes the next token exactly if it has three bytes or more and the one found is no longer; otherwise the byte held back does, if there is one, and what was found is held back. The block ends exactly if ct_tally says so. The invariant is kept that blocks and tokens stand for the input up to strstart, less a byte held back. |
| Deflate.Deflater.Decide | probe-busybox/archival/gzip.c:1849-1893 | The three branches: the new state is the one of lazy evaluation. |
| Deflate.Deflater.Loop | probe-busybox/archival/gzip.c:1814-1903 | The loop ends, at the end of the input, with the invariant. |
| Deflate.Deflater.Begin | probe-busybox/archival/gzip.c:1805-1812 | The invariant holds after initialisation. |
| Deflate.Deflater.TakeMatch | probe-busybox/archival/gzip.c:1849-1873 | The run gets exactly one token more, the match held back with its length and distance; strstart is behind it, nothing is held back, and the block ends exactly if ct_tally says so. |
| Deflate.Deflater.EmitMatch | probe-busybox/archival/gzip.c:1849-1869 | The token of a match stands for exactly the bytes it covers, although its distance is computed from a match_start that may have wrapped around; the strings it covers are inserted. |
| Deflate.Deflater.SkipHeld | probe-busybox/archival/gzip.c:1853-1870 | Behind the match, with what was emitted unchanged. |
| Deflate.Deflater.TakeLiteral | probe-busybox/archival/gzip.c:1874-1885 | The byte held back becomes the next token, and what was found at strstart is held back. |
| Deflate.Deflater.HoldBack | probe-busybox/archival/gzip.c:1886-1893 | The first match is held back and nothing is emitted. |
| Deflate.Deflater.PutLiteral | probe-busybox/archival/gzip.c:1880-1883 | A literal token for the byte before strstart, and a flush exactly if ct_tally says so. |
| Deflate.Deflater.PutMatch | probe-busybox/archival/gzip.c:1849-1851 | A match token, and only for bytes that repeat earlier input. |
| Deflate.Deflater.Flush | probe-busybox/archival/gzip.c:1783-1790 | A flush moves the block start to strstart and turns the tokens into bits that decode to the same bytes. |
| Deflate.Deflater.Look | probe-busybox/archival/gzip.c:1818-1845 | The string at strstart is inserted and the search made from the most recent string with its hash; the new match and the one held back are both real repetitions of the input. |
| Deflate.Deflater.Note | probe-busybox/archival/gzip.c:1822-1824 | The match found becomes the current one and the old one the previous one. |
| Deflate.Deflater.Refill | probe-busybox/archival/gzip.c:1896-1902 | A refill of the window moves neither the position in the input nor the match held back. |
| Deflate.Deflater.LastLiteral | probe-busybox/archival/gzip.c:1904-1905 | A byte still held back at the end is emitted, so every byte read is covered. |
| Deflate.Deflater.FlushLast | probe-busybox/archival/gzip.c:1907-1907 | The last block ends the stream: the whole of it decodes, with at most seven bits of padding. |
| Deflate.FindMatch | probe-busybox/archival/gzip.c:1822-1845 | When a search is made, its result is the best length, cut to the lookahead, less a three-byte match that is too far away; when none is made the length is two. What is returned as usable repeats the input. |
| Deflate.Search | probe-busybox/archival/gzip.c:1826-1836 | No string from the last position visited on, or within MAX_DIST if the chain ended, has a longer match; the match is the nearest of its length, and up to the lookahead it is a repetition of the input. |
| Deflate.AllSearched | probe-busybox/archival/gzip.c:708-760 | No string that was searched, visited or not, has a longer match. |
| Deflate.CopyRepeats | probe-busybox/archival/gzip.c:1849-1851 | Copying a repetition from the decoded output, overlap included, yields the next bytes of the input. |
| Deflate.ExpandAppend | probe-busybox/archival/gzip.c:1849-1851 | The meaning of a token list extended by one token. |
| Deflate.CodedLiteral | probe-busybox/archival/gzip.c:1880-1880 | A literal extends what the tokens stand for by the byte at that place. |
| Deflate.CodedMatch | probe-busybox/archival/gzip.c:1849-1851 | A match extends what the tokens stand for by its length. |
| Deflate.MatchRepeats | probe-busybox/archival/gzip.c:1833-1836 | Equal bytes in the window are a repetition in the input, at the same distance. |
| Deflate.BackKept | probe-busybox/archival/gzip.c:645-646 | Sliding the window keeps the distance computed from strstart and match_start, also when match_start has wrapped. |
| SlidingWindow.SlidingWindow.FillWindow | probe-busybox/archival/gzip.c:624-672 | The window still shows a contiguous part of the input, positions in the input are kept when it slides, the chains stay sound, and either the lookahead grows or the input has ended. |
| SlidingWindow.SlidingWindow.Slide | probe-busybox/archival/gzip.c:639-661 | The upper half moves down and the chains then link the same strings. |
| SlidingWindow.SlidingWindow.ReadMore | probe-busybox/archival/gzip.c:663-671 | New bytes continue the input behind the lookahead. |
| SlidingWindow.SlidingWindow.FileRead | probe-busybox/archival/gzip.c:513-526 | The bytes read are the next ones of the input, and the running size counts them modulo 2^32. |
| SlidingWindow.SlidingWindow.LmInit | probe-busybox/archival/gzip.c:1927-1963 | An empty chain table, a filled window, and a rolling hash primed with the first two bytes. |
| SlidingWindow.SlidingWindow.EnoughLookahead | probe-busybox/archival/gzip.c:1896-1902 | There is enough lookahead for the longest match, or the input has ended; the position in the input does not change. |
| SlidingWindow.SlidingWindow.InsertString | probe-busybox/archival/gzip.c:1798-1803 | The rolling hash is the hash of the three bytes at s; the chain head of that hash is returned, becomes the predecessor of s, and s the new head. |
| SlidingWindow.SlidingWindow.SkipMatch | probe-busybox/archival/gzip.c:1856-1869 | All strings of a match are inserted, and the rolling hash stays in step. |
| SlidingWindow.SlidingWindow.Advance | probe-busybox/archival/gzip.c:1884-1885 | One byte forward, with the rolling hash in step. |
| Chains.InsertChains | probe-busybox/archival/gzip.c:1798-1803 | Inserting keeps the chains sound and complete: each link leads to the last earlier string with the same hash. |
| Chains.FollowChain | probe-busybox/archival/gzip.c:758-759 | A link of a position still in the window leads to the last earlier string with the same hash, or is zero if there is none. |
| Chains.SlideChains | probe-busybox/archival/gzip.c:650-661 | Subtracting WSIZE from all entries, or zeroing them, keeps the chains sound and complete for the moved window. |
| Chains.SameChains | probe-busybox/archival/gzip.c:664-670 | Bytes read behind the inserted strings do not disturb the chains. |
| Hash.ThreeBytes | probe-busybox/archival/gzip.c:1768-1768 | After three updates the hash depends on the last three bytes alone, whatever it was before. |
| Hash.ThirdByte | probe-busybox/archival/gzip.c:327-332 | If two strings agree in two bytes and in their hash, they agree in the third; this is why the third byte need not be compared. |
| LongestMatch.LongestMatch | probe-busybox/archival/gzip.c:688-762 | The result is the longest match among the positions visited along the chain, and the nearest of that length; it is a real match within MAX_DIST; the walk stopped for one of the three reasons the code has and not later; the last byte read is the one behind the best length. |
| LongestMatch.Compare | probe-busybox/archival/gzip.c:736-748 | The scan loop returns the exact length of the common prefix, up to MAX_MATCH, and reads one byte more. |
| LongestMatch.Try | probe-busybox/archival/gzip.c:716-757 | A candidate rejected by the quick tests has no longer match; the last byte read is the one behind the better length. |
| LongestMatch.AllAlike | probe-busybox/archival/gzip.c:741-747 | In a window of equal bytes MAX_MATCH bytes and one more are read. |
| SlidingWindow.SearchInside | probe-busybox/archival/gzip.c:706-759 | With the lookahead deflate keeps up before the end of the input, all these bytes are within 2 * WSIZE. |
| LongestMatch.FirstThree | probe-busybox/archival/gzip.c:723-736 | Equal hash and two equal bytes make the first three bytes equal. |
| LongestMatch.NextCandidate | probe-busybox/archival/gzip.c:758-759 | The next position on the chain is again a candidate. |
| LongestMatch.WalkAll | probe-busybox/archival/gzip.c:758-760 | Every string with the hash of the one at strstart, from the last position visited on, was visited. |
| LongestMatch.NoneMissed | probe-busybox/archival/gzip.c:688-762 | No position searched has a longer match of three bytes or more; if the chain ended, these are all positions within MAX_DIST. |
| FlushBlock.Coder.FlushBlock | probe-busybox/archival/gzip.c:1679-1759 | The block decodes, in every later stream, to the bytes the tokens stand for; its codes are those build_tree makes of the token frequencies and lie in the trees; it is the form the tests choose, no other form open to it ends in an earlier byte exactly under a stated condition on the sizes and the bit position, and none ends more than two bytes earlier; the bit count tracks the stream modulo 2^32; the buffers are empty again. |
| FlushBlock.Coder.WriteBlock | probe-busybox/archival/gzip.c:1701-1747 | The choice between stored, static and dynamic, the block written, where it ends, and how that compares with the other forms in bytes. |
| BlockChoice.ShortestIff | probe-busybox/archival/gzip.c:1701-1747 | The form chosen ends in no later byte than the others exactly if a stored block is not taken too soon (a bound on the tree sizes that depends on the bits in the last byte) and no byte boundary separates the fixed form from the dynamic one. |
| BlockChoice.AtMostLoss | probe-busybox/archival/gzip.c:1701-1747 | A stored block ends at most two bytes later than any other form, a fixed one at most one, a dynamic one never. |
| BlockChoice.OneByteLost | probe-busybox/archival/gzip.c:1724-1736 | Sizes for which a stored block is a byte longer than the fixed form. |
| BlockChoice.TwoBytesLost | probe-busybox/archival/gzip.c:1724-1736 | Sizes for which it is two bytes longer. |
| BlockLosses.StoredLoses | probe-busybox/archival/gzip.c:1724-1736 | The fifteen bytes 144, 151, ..., 242, with whatever trees build_tree makes for them, are stored wherever the block starts; a byte is lost against the fixed form at the start of a byte, and two if six bits of the last byte are in use. |
| BlockLosses.FlushSpread | probe-busybox/archival/gzip.c:1679-1759 | flush_block writes these bytes as a file body of 20 bytes; the fixed form ends after 19. |
| BlockLosses.WriteSpread | probe-busybox/archival/gzip.c:1679-1759 | The same for a new coder that is given the fifteen bytes one by one, so its plan is one that flush_block makes. |
| BlockLosses.FixedLoses | probe-busybox/archival/gzip.c:1710-1740 | Thirteen equal literals, with the trees build_tree makes for them and seven bits of the last byte in use: the fixed form is taken and ends a byte later than the dynamic one. |
| BlockLosses.SpreadDynamic | probe-busybox/archival/gzip.c:1740-1747 | Every tree that build_tree can make for the fifteen bytes, sent with its header, takes at least 170 bits. |
| BlockLosses.SameDynamic | probe-busybox/archival/gzip.c:1740-1747 | For thirteen equal literals header and body take exactly 110 bits. |
| SizeBounds.LensCost | probe-busybox/archival/gzip.c:1450-1501 | Sending a list of code lengths takes at least a bit for each nonzero length unlike the one before it and for each of the first four zeros of a gap, whatever the bit length code is. |
| FlushBlock.Coder.Prepare | probe-busybox/archival/gzip.c:1684-1699 | The two lengths computed are the exact sizes of the block in static and dynamic form, in bits, without the type. |
| FlushBlock.Coder.WriteStored | probe-busybox/archival/gzip.c:1724-1736 | Stored block: type, padding, length, its complement, the bytes. |
| FlushBlock.Coder.WriteStatic | probe-busybox/archival/gzip.c:1737-1740 | Static block: exactly the predicted number of bits. |
| FlushBlock.Coder.WriteDynamic | probe-busybox/archival/gzip.c:1741-1746 | Dynamic block: exactly the predicted number of bits. |
| FlushBlock.Coder.Finish | probe-busybox/archival/gzip.c:1751-1758 | At the end the stream is padded to a byte, and the byte count follows from the bit count. |
| FlushBlock.Coder.CtTally | probe-busybox/archival/gzip.c:1572-1623 | One more token in buffers and frequencies alike; a flush is asked for exactly when the buffers are full or the estimate says so, and otherwise there is room for another token. |
| FlushBlock.Coder.Guess | probe-busybox/archival/gzip.c:1602-1609 | The estimate of the compressed size. |
| FlushBlock.Coder.InitBlock | probe-busybox/archival/gzip.c:1084-1101 | Frequencies count the empty token list, which has one end-of-block. |
| FlushBlock.Coder.constructor | probe-busybox/archival/gzip.c:1972-2055 | Tables, static trees and empty buffers are in place. |
| FlushBlock.TracksStored | probe-busybox/archival/gzip.c:1733-1734 | The rounding formula of a stored block counts its bits, although the count wraps at 2^32. |
| FlushBlock.TracksTrees | probe-busybox/archival/gzip.c:1740-1746 | Adding the predicted size keeps the count in step. |
| FlushBlock.TracksEnd | probe-busybox/archival/gzip.c:1751-1758 | The byte count at the end is that of the stream. |
| Blocks.StaticBlock | probe-busybox/archival/gzip.c:1737-1740 | Type bits, tokens in the fixed code and end-of-block are a block that decodes to what the tokens stand for. |
| Blocks.DynamicBlock | probe-busybox/archival/gzip.c:1741-1746 | The same for a header with its own codes. |
| Blocks.StoredBlock | probe-busybox/archival/gzip.c:1732-1736 | A stored block decodes to its bytes, from any bit position. |
| Blocks.OneMore | probe-busybox/archival/gzip.c:1679-1759 | A stream of blocks followed by another one decodes to the concatenation. |
| Blocks.LastOne | probe-busybox/archival/gzip.c:1751-1758 | The block marked as last ends the decoding, wherever more bits follow. |
| TokenBuffer.TokenBuffer.Save | probe-busybox/archival/gzip.c:1572-1599 | The three buffers hold exactly the token list. |
| TokenBuffer.TokenBuffer.SaveFlag | probe-busybox/archival/gzip.c:1590-1599 | The flag bits of the tokens are packed eight to a byte, least significant first. |
| TokenBuffer.TokenBuffer.SaveFlags | probe-busybox/archival/gzip.c:1684-1684 | After the last partial byte is saved all flags can be read. |
| TokenBuffer.TokenBuffer.Clear | probe-busybox/archival/gzip.c:1098-1100 | The empty token list. |
| TokenBuffer.TokenBuffer.constructor | probe-busybox/archival/gzip.c:1972-2055 | Buffers of the given sizes with the empty token list. |
| TokenBuffer.FlagStep | probe-busybox/archival/gzip.c:1590-1599 | One flag more: the packed state follows the list, also when a byte is complete. |
| TokenBuffer.StoredStep | probe-busybox/archival/gzip.c:1574-1590 | Saving at the running indices appends the token. |
| TokenBuffer.StoredAt | probe-busybox/archival/gzip.c:1640-1655 | The entries at the running read indices are those of token i. |
| TokenBuffer.DistAt | probe-busybox/archival/gzip.c:1655-1655 | The distance of token i is at the number of matches before it. |
| CompressBlock.CompressBlock | probe-busybox/archival/gzip.c:1628-1671 | The bits sent are the encoding of the token list, in order, with end-of-block. |
| CompressBlock.ReadToken | probe-busybox/archival/gzip.c:1640-1655 | Reading the buffers back gives the token saved. |
| CompressBlock.FlagRead | probe-busybox/archival/gzip.c:1640-1643 | The flag read for a token says whether it is a match. |
| CompressBlock.SendToken | probe-busybox/archival/gzip.c:1643-1666 | One token in the given codes. |
| CompressBlock.SendMatch | probe-busybox/archival/gzip.c:1648-1665 | Length code, extra length bits, distance code, extra distance bits. |
| BlockCode.LenBitsMean | probe-busybox/archival/gzip.c:1648-1654 | Base of the length code plus the extra bits is the length, for all 256 lengths. |
| BlockCode.DistBitsMean | probe-busybox/archival/gzip.c:1655-1665 | Base of the distance code plus the extra bits is the distance, for all 32768 distances. |
| BlockCode.ReadItemSent | probe-busybox/archival/gzip.c:1643-1666 | The decoder reads back a token. |
| BlockCode.DecodeBodySent | probe-busybox/archival/gzip.c:1628-1671 | The decoder reads back a whole token list and expands it to the bytes it stands for. |
| BlockCode.TokenSize | probe-busybox/archival/gzip.c:1643-1666 | The size of a token in bits. |
| BlockCode.BodySize | probe-busybox/archival/gzip.c:1188-1196 | The sum of frequency times length plus extra bits is the size of the block body; this is what opt_len and static_len are. |
| BlockCode.CoversEnough | probe-busybox/archival/gzip.c:1687-1690 | If every counted symbol has a code then every token can be sent. |
| Tables.InitTables | probe-busybox/archival/gzip.c:1986-2016 | The tables map each length and each distance to the code whose range holds it. |
| Tables.InitLengths | probe-busybox/archival/gzip.c:1986-1999 | The ranges of the length codes, and 28 for the length 258. |
| Tables.InitDistances | probe-busybox/archival/gzip.c:2001-2016 | The ranges of the distance codes, with one entry for 128 distances from 256 on. |
| Tables.LenTable | probe-busybox/archival/gzip.c:862-865 | Extra bits and bases agree with the table in section 3.2.5 of RFC 1951. |
| Tables.DistTable | probe-busybox/archival/gzip.c:868-871 | The same for the distance codes. |
| StaticTrees.InitStatic | probe-busybox/archival/gzip.c:2019-2051 | Both static trees hold the fixed codes of section 3.2.6 of RFC 1951. |
| StaticTrees.InitLitTree | probe-busybox/archival/gzip.c:2019-2045 | The 288 literal and length codes, bit-reversed. |
| StaticTrees.InitDistTree | probe-busybox/archival/gzip.c:2047-2051 | Reversing the number of a distance code gives its canonical code. |
| StaticTrees.FixedDecodable | probe-busybox/archival/gzip.c:2019-2051 | The fixed codes are uniquely decodable. |
| StaticTrees.FixedLitKraft | probe-busybox/archival/gzip.c:2041-2045 | With the two unused symbols the literal code is complete. |
| StaticTrees.FixedDistCode | probe-busybox/archival/gzip.c:2047-2051 | The canonical code of distance symbol n is n. |
| DynTrees.Trees.BuildCodes | probe-busybox/archival/gzip.c:1687-1690 | Both trees get complete prefix codes for the symbols used, as build_tree makes them of the token frequencies, and the two totals are the exact body sizes. |
| DynTrees.Trees.BuildBl | probe-busybox/archival/gzip.c:1508-1535 | The bit length tree is the one build_tree makes of the operations and can send both length lists; the index returned is that of the last length in use; the size of the whole header is accounted for. |
| DynTrees.Trees.ScanBoth | probe-busybox/archival/gzip.c:1513-1514 | The frequencies are those of the operations for both lists. |
| DynTrees.Trees.LastBl | probe-busybox/archival/gzip.c:1526-1529 | The last place in bl_order with a nonzero length, which is never below three. |
| DynTrees.Trees.SendAllTrees | probe-busybox/archival/gzip.c:1543-1565 | The bits sent are the header of a dynamic block. |
| DynTrees.Trees.SendCounts | probe-busybox/archival/gzip.c:1551-1553 | The three counts. |
| DynTrees.Trees.SendBlLens | probe-busybox/archival/gzip.c:1554-1557 | The code length lengths, in bl_order. |
| DynTrees.Trees.Clear | probe-busybox/archival/gzip.c:1089-1097 | All frequencies zero, but one for end-of-block. |
| DynTrees.Trees.Tally | probe-busybox/archival/gzip.c:1575-1587 | The frequencies follow the token list. |
| DynTrees.FreqsStep | probe-busybox/archival/gzip.c:1575-1587 | The frequencies of a list extended by one token. |
| DynTrees.OpsSize | probe-busybox/archival/gzip.c:1508-1535 | The cost formula gives the size of the operations in bits. |
| DynTrees.StaticSize | probe-busybox/archival/gzip.c:1687-1694 | static_len is the exact size in the fixed code. |
| DynTrees.DynamicSize | probe-busybox/archival/gzip.c:1530-1531 | opt_len after the correction is the exact size of header and body. |
| DynTrees.SomeLiteral | probe-busybox/archival/gzip.c:1526-1529 | At least one of the lengths 0 to 15 is in use, which is why the search in bl_order stops in range. |
| DynTrees.BlCodes | probe-busybox/archival/gzip.c:1516-1517 | The codes generated are the canonical ones. |
| DynTrees.BlSendable | probe-busybox/archival/gzip.c:1513-1517 | Every operation needed has a code. |
| DynHeader.DecodeDynamicSent | probe-busybox/archival/gzip.c:1543-1565 | The decoder reads the header, rebuilds the same codes and decodes the body. |
| DynHeader.ReadBl | probe-busybox/archival/gzip.c:1554-1557 | The lengths left out at the end of bl_order are the zero ones. |
| DynHeader.ReadBoth | probe-busybox/archival/gzip.c:1560-1565 | Both length lists are read back, as one list, from the run-length operations. |
| DynHeader.PadCodes | probe-busybox/archival/gzip.c:1551-1553 | Leaving out unused symbols at the end changes no code. |
| SendTree.SendLengths | probe-busybox/archival/gzip.c:1450-1501 | The bits sent are the operations scan_tree counted, in order. |
| SendTree.SendRun | probe-busybox/archival/gzip.c:1469-1487 | One run, as one of the four forms. |
| SendTree.SendOp | probe-busybox/archival/gzip.c:1469-1487 | One operation with its extra bits. |
| SendTree.DecodeOps | probe-busybox/archival/gzip.c:1450-1501 | The decoder reads operations back to the lengths they stand for. |
| RunLength.ScanTree | probe-busybox/archival/gzip.c:1397-1443 | Exactly the operations that will be sent are counted, and only the guard entry behind the last code is written. |
| RunLength.ExpandAll | probe-busybox/archival/gzip.c:1397-1443 | Expanding the operations of a length list gives the list, for every list. |
| RunLength.OpsOk | probe-busybox/archival/gzip.c:1469-1487 | Every operation fits its extra bits. |
| RunLength.SentOnce | probe-busybox/archival/gzip.c:1397-1443 | A nonzero length is sent as itself before it is repeated. |
| RunLength.RunIsShort | probe-busybox/archival/gzip.c:1419-1428 | A run takes three operations at most, and a single one if it repeats the last length or is of zeros. |
| BuildTree.BuildTree | probe-busybox/archival/gzip.c:1306-1388 | For every frequency table: a complete prefix code within the limit; exactly the symbols that occur, and the forced ones, which are named, have a length; the codes are stored bit-reversed; both length totals are exact; the lengths are the depths in a tree merged greedily from those very frequencies, clamped exactly if that tree is deeper than the limit. Unless clamped the size is minimal; if clamped no other way to give out the same lengths is cheaper. |
| BuildTree.BuiltOptimal | probe-busybox/archival/gzip.c:1306-1388 | The size of an unclamped tree is minimal for the frequencies of its leaves. |
| BuildTree.BuildOptimal | probe-busybox/archival/gzip.c:1306-1388 | For the frequencies build_tree was given, forced symbols included or not: no prefix code with at least one bit for every symbol that occurs, of any maximum length, makes the block smaller than an unclamped tree. |
| BuildTree.Came | probe-busybox/archival/gzip.c:1306-1388 | The result of build_tree comes from the frequencies it was given and nothing else. |
| BuildTree.ForcedIs | probe-busybox/archival/gzip.c:1336-1345 | Which symbols are forced follows from the symbols that occur alone. |
| BuildTree.TreeSupport | probe-busybox/archival/gzip.c:1315-1350 | The symbols with a code are exactly the ones that occur and the forced ones. |
| BuildTree.TwoCodes | probe-busybox/archival/gzip.c:1306-1388 | Two symbols get one bit each, whichever their frequencies. |
| BuildTree.MakeTree | probe-busybox/archival/gzip.c:1315-1379 | The tree has the used symbols as leaves and was merged greedily. |
| BuildTree.CollectLeaves | probe-busybox/archival/gzip.c:1322-1329 | The heap starts with exactly the used symbols, and the others get length zero. |
| BuildTree.ForceTwo | probe-busybox/archival/gzip.c:1336-1345 | At least two leaves; the forced ones have frequency one. |
| BuildTree.ForcedCancel | probe-busybox/archival/gzip.c:1336-1345 | What the forced symbols add to the two totals is exactly what was subtracted in advance. |
| BuildTree.Heapify | probe-busybox/archival/gzip.c:1351-1352 | A heap of the same elements. |
| BuildTree.GrowTree | probe-busybox/archival/gzip.c:1357-1377 | Merging goes on to a single tree, and leaf frequencies do not change. |
| Optimality.TreeIsOptimal | probe-busybox/archival/gzip.c:1306-1388 | Greedy merging gives the least weighted length among all lengths that satisfy the Kraft inequality. |
| Optimality.LowerBound | probe-busybox/archival/gzip.c:1357-1377 | The weight of the inner nodes still to come is a lower bound for every code on the remaining trees. |
| Optimality.Exchange | probe-busybox/archival/gzip.c:1357-1377 | Two smallest symbols can be given a common father at no cost. |
| HuffmanTree.MergeTwo | probe-busybox/archival/gzip.c:1357-1377 | A merge keeps the forest, the order of removal, the heap and the total frequency. |
| HuffmanTree.TwoSmallest | probe-busybox/archival/gzip.c:1358-1359 | The two nodes removed are the two smallest. |
| HuffmanTree.InstallFather | probe-busybox/archival/gzip.c:1365-1376 | The new node carries the sum of the frequencies, is the father of both, and takes its place in the heap. |
| Heap.PqDownHeap | probe-busybox/archival/gzip.c:1117-1139 | Sifting down restores the heap order and permutes the elements below lo only. |
| Heap.RootSmallest | probe-busybox/archival/gzip.c:1299-1304 | The root is the smallest node, in the order of frequency and depth. |
| Forest.MergeStructure | probe-busybox/archival/gzip.c:1357-1377 | The removed nodes and the heap always make up a forest over the leaves. |
| Forest.MergeSorted | probe-busybox/archival/gzip.c:1361-1362 | Nodes are removed in the order of their frequency. |
| Forest.Completed | probe-busybox/archival/gzip.c:1377-1379 | The complete array lists every node after its father. |
| TreeShape.KraftExcess | probe-busybox/archival/gzip.c:1173-1197 | Clamping lengths exceeds the Kraft sum by exactly the overflow counted. |
| TreeShape.OverflowIsDepth | probe-busybox/archival/gzip.c:1178-1181 | The overflow counter is nonzero exactly if some node is deeper than the limit. |
| TreeShape.LevelIsDepth | probe-busybox/archival/gzip.c:1175-1182 | The lengths of the first pass are the depths, cut at the limit. |
| TreeShape.ClampedLeaves | probe-busybox/archival/gzip.c:1178-1197 | Half the overflow is at most the number of leaves at the limit. |
| BitLengths.AssignLevels | probe-busybox/archival/gzip.c:1167-1197 | Each node is one below its father or at the limit; counts and totals are those of the leaves. |
| BitLengths.ShapeTopDown | probe-busybox/archival/gzip.c:1173-1183 | The father of a node is visited before it. |
| LengthRepair.RepairCounts | probe-busybox/archival/gzip.c:1205-1216 | The repair ends with no overflow, the Kraft sum exact and the number of leaves kept; each step moves down a leaf of the longest length in use below the limit. |
| LengthRepair.RepairStep | probe-busybox/archival/gzip.c:1209-1215 | Each step takes two from the overflow and keeps the balance. |
| LengthRepair.ShorterExists | probe-busybox/archival/gzip.c:1205-1208 | While there is overflow there is a shorter length in use. |
| LengthRepair.FindShorter | probe-busybox/archival/gzip.c:1206-1208 | The longest length in use below the limit. |
| LengthReassign.Reassign | probe-busybox/archival/gzip.c:1223-1236 | The leaves get lengths with exactly the repaired counts, no leaf later in the list a shorter one, and the total follows. |
| LengthReassign.LongestLeaf | probe-busybox/archival/gzip.c:1223-1235 | The next leaf gets no longer a length than those given out. |
| Rearrange.SortedIsCheapest | probe-busybox/archival/gzip.c:1218-1236 | The rearrangement inequality: lengths rising while frequencies fall cost least. |
| Rearrange.NoneCheaper | probe-busybox/archival/gzip.c:1218-1236 | Longer codes for rarer leaves: the same lengths given out in another way cost no less. |
| Lengths.RisingIsBest | probe-busybox/archival/gzip.c:1218-1236 | Lengths that rise along the sorted list are given out in the best way, for every other assignment with the same counts. |
| Lengths.GenBitlen | probe-busybox/archival/gzip.c:1152-1237 | Complete code within the limit, exact totals; lengths are clamped exactly if the tree is deeper than the limit, and otherwise they are the tree's own. If clamped, the counts are the repaired ones, a rarer symbol has no shorter code, and no other way to give these lengths to the same symbols is cheaper. |
| Canonical.GenCodes | probe-busybox/archival/gzip.c:1248-1281 | Every symbol with a length gets its canonical code, bit-reversed. |
| Canonical.BiReverse | probe-busybox/archival/gzip.c:561-571 | The result has the same bits in the opposite order. |
| Canonical.CodeFits | probe-busybox/archival/gzip.c:1260-1266 | With the Kraft inequality no code overflows its length. |
| Canonical.PrefixFree | probe-busybox/archival/gzip.c:1248-1281 | No code is the beginning of another. |
| Canonical.DecodeSent | probe-busybox/archival/gzip.c:1248-1281 | A code at any place in a bit stream is decoded to its symbol. |
| Canonical.RoundTrip | probe-busybox/archival/gzip.c:1248-1281 | A sequence of symbols is decoded to itself. |
| BitWriter.BitWriter.SendBits | probe-busybox/archival/gzip.c:533-553 | The bits are appended to the stream, least significant first, whatever is pending in the 16-bit buffer. |
| BitWriter.BitWriter.BiWindup | probe-busybox/archival/gzip.c:577-589 | The stream is padded with zero bits to the next byte and nothing is pending. |
| BitWriter.BitWriter.CopyBlock | probe-busybox/archival/gzip.c:596-613 | Padding, length, complement and bytes are appended. |
| BitWriter.BitWriter.Put8Bit | probe-busybox/archival/gzip.c:446-451 | One byte, through a buffer that is flushed when full. |
| BitWriter.BitWriter.Put16Bit | probe-busybox/archival/gzip.c:454-489 | Two bytes in little-endian order, also across a flush. |
| BitWriter.BitWriter.Put32Bit | probe-busybox/archival/gzip.c:491-495 | Four bytes in little-endian order. |
| BitWriter.BitWriter.FlushOutbuf | probe-busybox/archival/gzip.c:433-440 | The buffered bytes go to the file. |
| BitWriter.SendStep | probe-busybox/archival/gzip.c:533-553 | Combining and spilling at 16 bits loses no bit and changes no order. |
| BitWriter.WindupStep | probe-busybox/archival/gzip.c:577-589 | The one or two bytes written are the pending bits and zeros. |
| Hpack.RoundTrip | probe-busybox/eperd/http2.c:985-1010 | An integer below 2^32 is read back, with the number of bytes used, if and only if it does not fit the first byte or the prefix bits passed in do not disturb it there. |
| Hpack.PrefixDisturbs | probe-busybox/eperd/http2.c:995-1000 | An input on which the round trip fails: with prefix value 1 the integer two arrives as three. |
| Hpack.CleanPrefix | probe-busybox/eperd/http2.c:985-1010 | If the prefix value has no bits in the place of the integer, every integer below 2^32 is read back. |
| Hpack.PrefixKept | probe-busybox/eperd/http2.c:985-1010 | The bits of the prefix stand in the first byte above the field of the value. |
| Hpack.DecodeMeaning | probe-busybox/eperd/http2.c:1839-1896 | A value returned is the integer that section 5.1 of RFC 7541 gives those bytes; "overflow" is only reported for integers of 2^32 or more, and "beyond buffer" only if the integer does not end within the bytes. |
| Hpack.UndefinedIff | probe-busybox/eperd/http2.c:1864-1868 | The shift reaches 32 bits exactly for bytes that continue up to the seventh one with a sixth below 144. |
| Hpack.FromMeans | probe-busybox/eperd/http2.c:1859-1896 | The same for the continuation bytes, from any place in the loop. |
| Hpack.XdecodeInt | probe-busybox/eperd/http2.c:1839-1896 | The loop computes the recursive definition these laws are about. |
| Hpack.HeaderBlock.AddLength | probe-busybox/eperd/http2.c:985-1010 | The bytes appended are those of the encoding. |
| Hpack.HeaderBlock.AddByte | probe-busybox/eperd/http2.c:971-983 | One byte is appended. |
| Hpack.TailEncoded | probe-busybox/eperd/http2.c:1004-1009 | The continuation bytes of a value mean the value, whatever follows. |
| Hpack.TailLength | probe-busybox/eperd/http2.c:1004-1009 | Five continuation bytes are enough for 32 bits. |
| DnsName.RoundTrip | probe-busybox/eperd/evtdig.c:3382-3438 | An encoded name is read back, without its last dot, if and only if it has at most 255 characters, and both ways to measure it give its length. |
| DnsName.LongNameLost | probe-busybox/eperd/evtdig.c:3382-3438 | An input on which the round trip fails: four labels of 63 characters. |
| DnsName.PointerCountedOnce | probe-busybox/eperd/evtdig.c:4162-4196 | An input on which the two lengths differ: a lone pointer to an empty label. |
| DnsName.CompressedName | probe-busybox/eperd/evtdig.c:4057-4160 | Labels followed by a pointer read as the labels and what stands at the target; the count is that of the labels and the pointer. |
| DnsName.PointerTo | probe-busybox/eperd/evtdig.c:4080-4090 | The same with the pointer written as two bytes, for every offset below 2^14. |
| DnsName.LengthsAgree | probe-busybox/eperd/evtdig.c:4162-4196 | For every buffer: dns_namelen and the count of ReadName agree exactly if the labels are malformed, or the name can be read and ends with its own zero byte; a readable name that ends otherwise is one longer for ReadName. |
| DnsName.ChangeToDnsNameFormat | probe-busybox/eperd/evtdig.c:3382-3438 | Fails exactly if there is no room or the name is malformed; otherwise the buffer holds the encoding. |
| DnsName.ReadName | probe-busybox/eperd/evtdig.c:4057-4160 | Name and count for every buffer, with every error path; the jumps are bounded, so it ends. |
| DnsName.DnsNameLen | probe-busybox/eperd/evtdig.c:4162-4196 | The length, or an error, for every buffer. |
| DnsName.LabelsRead | probe-busybox/eperd/evtdig.c:4057-4160 | The labels of an encoded name are read one by one. |
| DnsName.PointerRead | probe-busybox/eperd/evtdig.c:4072-4118 | A pointer continues the name at its target. |
| TlsRecord.MsgBuf.Receive | probe-busybox/eperd/sslgetcert.c:384-437 | A message cut into records and delivered in any pieces is put together again; what was not yet received is still to come, in order. All records wanted are there exactly if there are calls for them and for the reads that brought nothing. |
| TlsRecord.MsgBuf.ReceiveOne | probe-busybox/eperd/sslgetcert.c:384-437 | One record: the next fragment, or nothing changes. |
| TlsRecord.MsgBuf.Read | probe-busybox/eperd/sslgetcert.c:384-437 | A record is taken exactly as the bytes on the connection say; without a complete record nothing is consumed. It fails only after a read that brought nothing, and makes no read if a record is complete. |
| TlsRecord.MsgBuf.Final | probe-busybox/eperd/sslgetcert.c:439-470 | The message is written as records of at most the maximum size, and the buffer is empty. |
| TlsRecord.MsgBuf.PutRecord | probe-busybox/eperd/sslgetcert.c:446-468 | One record. |
| TlsRecord.MsgBuf.Take | probe-busybox/eperd/sslgetcert.c:430-434 | The fragment moves from the input to the message. |
| TlsRecord.MsgBuf.Add | probe-busybox/eperd/sslgetcert.c:379-382 | Bytes are appended to the message. |
| TlsRecord.ParseRecord | probe-busybox/eperd/sslgetcert.c:404-434 | Parsing a record gives its parts and the rest. |
| TlsRecord.ParseRecords | probe-busybox/eperd/sslgetcert.c:439-470 | The first of the records of a message holds its first fragment. |
| TlsRecord.HsFinal | probe-busybox/eperd/sslgetcert.c:516-537 | Type and 24-bit length precede the handshake body. |
| TlsRecord.HandshakeRoundTrip | probe-busybox/eperd/sslgetcert.c:516-537 | The handshake length can be read back if and only if the body is shorter than 2^24 bytes. |
| TlsRecord.LengthLost | probe-busybox/eperd/sslgetcert.c:516-537 | Inputs on which it fails: a body of 2^24 bytes is read back as an empty one. |
| TlsRecord.Buf.Add | probe-busybox/eperd/sslgetcert.c:168-207 | Bytes are appended, also when the buffer is moved or grows. |
| TlsRecord.Buf.Read | probe-busybox/eperd/sslgetcert.c:259-340 | One read with room for at least one byte; it fails exactly if that brings nothing. What is read plus what is left on the connection is the same as before. |
| TlsRecord.Buf.Move | probe-busybox/eperd/sslgetcert.c:181-203 | A larger buffer with the same contents. |
| TlsRecord.Buf.Compact | probe-busybox/eperd/sslgetcert.c:267-278 | The same contents at the start of the buffer. |
| Checksum.InCksum | probe-busybox/eperd/traceroute.c:229-250 | The checksum of section 3 of RFC 1071 in the byte order of the host, an odd last byte included. |
| Checksum.InCksumUdp | probe-busybox/eperd/traceroute.c:252-294 | The checksum of the concatenation of pseudo-header, header and data. |
| Checksum.InCksumIcmp6 | probe-busybox/eperd/traceroute.c:296-327 | The same for ICMPv6. |
| Checksum.NetworkOrder | probe-busybox/eperd/traceroute.c:229-250 | In network order the checksum is the same on both kinds of host. |
| Checksum.FoldMod | probe-busybox/eperd/traceroute.c:245-249 | Folding keeps the sum modulo 2^16 - 1, and zero only for zero. |
| Checksum.SumConcat | probe-busybox/eperd/traceroute.c:252-294 | Sums of even-length parts add up. |
| Checksum.OddSum | probe-busybox/eperd/traceroute.c:236-244 | An odd string has the sum of the string with a zero byte appended. |
| Checksum.Steered | probe-busybox/eperd/traceroute.c:818-831 | The fudge value gives the checksum asked for, except that 0xffff becomes zero. |
| Checksum.NotSteered | probe-busybox/eperd/traceroute.c:818-831 | A packet on which it fails: zero bytes steered to 0xffff get the checksum zero. |
| Checksum.PacketSteered | probe-busybox/eperd/traceroute.c:818-831 | The same for a packet with the fudge value in an even place. |
| Checksum.SteerUdp | probe-busybox/eperd/traceroute.c:1461-1488 | A UDP probe carries the sequence number in its checksum, with 0xffff replaced by zero. |
| Checksum.SteerIcmp6 | probe-busybox/eperd/traceroute.c:810-831 | An ICMPv6 probe has the checksum of its flow. |
| Checksum.SteerIcmp | probe-busybox/eperd/traceroute.c:1289-1302 | An ICMP probe has the checksum of its flow in its header, and the header verifies. |
| Checksum.Stored | probe-busybox/eperd/traceroute.c:1300-1302 | A packet with its checksum stored sums to all ones. |
| Traceroute.Run.Process | probe-busybox/eperd/traceroute.c:502-580 | For every interleaving of replies and timeouts: at most trtcount times the number of rounds probes, trtcount at each hop and hops increasing; hops are left out only for hop 255 after as many silent hops as the gap limit says; a busy run has its timer set; it is reported exactly once, and only for a failed send, the hop limit or a round in which the target was found, so time-exceeded replies alone end it only at the hop limit; enough timeouts end it. |
| Traceroute.Run.SendPkt | probe-busybox/eperd/traceroute.c:525-580 | The next probe goes to the same hop, the next one, or hop 255 past the gap limit; the run ends exactly if the round is complete and was the last one, or sending fails. |
| Traceroute.Run.NextRound | probe-busybox/eperd/traceroute.c:529-580 | The run is over exactly if the hop limit is reached, or some reply of the round came from the target and none said there is more beyond. |
| Traceroute.Run.Probe | probe-busybox/eperd/traceroute.c:1555-1567 | One probe more, with its sequence number, or the report. |
| Traceroute.Run.OnReply | probe-busybox/eperd/traceroute.c:1883-1908 | A reply to a future probe is ignored, except that an IPv4 UDP probe in Paris mode takes it for the current one; one to an earlier probe is late, a second one is a duplicate; only the first one counts. |
| Traceroute.Run.Classify | probe-busybox/eperd/traceroute.c:2085-2134 | The same classification, with what it records. |
| Traceroute.Run.NoteDone | probe-busybox/eperd/traceroute.c:1976-2021 | For both address families and all protocols, the two flags say what the replies of the round said. |
| Traceroute.Run.OnTimeout | probe-busybox/eperd/traceroute.c:4166-4201 | The next probe, or the end. |
| Traceroute.Run.Start | probe-busybox/eperd/traceroute.c:4468-4502 | The first probe goes to the first hop. |
| Traceroute.Run.Report | probe-busybox/eperd/traceroute.c:344-458 | The run is idle, with its timer off. |
| Traceroute.SeqSmall | probe-busybox/eperd/traceroute.c:580-582 | The sequence number never wraps within a run. |
| Traceroute.SequenceSteered | probe-busybox/eperd/traceroute.c:1461-1488 | In every state of a run the checksum of a probe can be steered to the sequence number. |
| Traceroute.RoundsAppend | probe-busybox/eperd/traceroute.c:529-580 | A probe at the current hop keeps the order of rounds. |
| Ntp.Run.Process | probe-busybox/eperd/ntp.c:503-972 | For every interleaving of replies, timeouts and gaps: requests at least the gap apart and no more than count; a busy run has a timer pending, and the reply timer is due a timeout after the last request; each event is dealt with; the report comes once, after count requests unless sending failed, and no result object is left empty. |
| Ntp.Run.Silence | probe-busybox/eperd/ntp.c:949-972 | With no reply at all the timers send all requests and finish the run. |
| Ntp.Run.SendPkt | probe-busybox/eperd/ntp.c:503-659 | Sends exactly if there is one left and sending works, and sets both timers; otherwise reports. |
| Ntp.Run.OnReply | probe-busybox/eperd/ntp.c:922-929 | The next request goes out at once if the gap has passed or nothing is left, and otherwise the gap timer is left to do it. |
| Ntp.Run.OnTimeout | probe-busybox/eperd/ntp.c:949-963 | The same for a request that was not answered. |
| Ntp.Run.OnGap | probe-busybox/eperd/ntp.c:965-972 | Sends if the last request was answered or given up, and otherwise waits. |
| Ntp.Run.Start | probe-busybox/eperd/ntp.c:1174-1212 | The first request, unless none is wanted or sending fails. |
| Ntp.Run.Report | probe-busybox/eperd/ntp.c:363-501 | Both timers off. |
| Ntp.RttAndOffset | probe-busybox/eperd/ntp.c:902-919 | For every pair of clocks and all travel times: rtt is the sum of the travel times exactly if that fits 64 bits, and offset is the clock difference plus half the difference of the travel times exactly if twice that fits 64 bits, also across a wrap of the timestamps. |
| Ntp.OffsetLost | probe-busybox/eperd/ntp.c:917-917 | A client at 1970 and a server in 2026: the offset has the wrong sign. |
| Ntp.SignedSum | probe-busybox/eperd/ntp.c:912-917 | Wrapping the differences before they are added does not change the wrapped sum. |
| Ntp.SignedDifference | probe-busybox/eperd/ntp.c:912-917 | The signed difference of wrapped timestamps is the real one if and only if that fits 64 bits. |
| OneOffQueue.Queue.Process | probe-busybox/eperd/eooqd.c:281-663 | For every sequence of ticks, ends of commands and new files: the busy count is the number of slots taken, and no two running commands are on different sides of a barrier; the lines read are a prefix of the files opened, which are those produced, in order, except for files that were replaced before they were opened. |
| OneOffQueue.Queue.CheckQueue | probe-busybox/eperd/eooqd.c:281-342 | The lines that were waiting are those read in this call followed by those still waiting; each command among them that can be set up gets the next number. Reading goes on until the file ends, all slots are taken, or a barrier has to wait. |
| OneOffQueue.Queue.OpenNext | probe-busybox/eperd/eooqd.c:286-334 | The queue file becomes the current one, whole. |
| OneOffQueue.Queue.ReadLines | probe-busybox/eperd/eooqd.c:336-341 | Lines are read in order; a line is left only for want of a slot or for a barrier. |
| OneOffQueue.Queue.AddLine | probe-busybox/eperd/eooqd.c:344-608 | A barrier waits exactly while commands run, and then nothing changes; otherwise it is resolved and the next line is taken: a command that can be set up is started. |
| OneOffQueue.Queue.StartCommand | probe-busybox/eperd/eooqd.c:525-556 | A free slot gets the command. |
| OneOffQueue.Queue.FindSlot | probe-busybox/eperd/eooqd.c:525-533 | The first free slot behind the last one used; with the busy count below the maximum there always is one, so the fatal branch is dead. |
| OneOffQueue.Queue.Resolve | probe-busybox/eperd/eooqd.c:362-377 | A barrier is resolved with no command running. |
| OneOffQueue.Queue.CmdDone | probe-busybox/eperd/eooqd.c:610-637 | The slot of the command is released, exactly if it was deleted, and the other slots keep theirs. |
| OneOffQueue.NotAcross | probe-busybox/eperd/eooqd.c:362-377 | Two commands in slots lie on the same side of each barrier. |
| OneOffQueue.NoneAcross | probe-busybox/eperd/eooqd.c:362-377 | The same for all pairs and barriers. |
| Crontab.Jobs.SynchronizeFile | probe-busybox/eperd/eperd.c:513-645 | After a crontab is read there is one job for each key in it; the others are gone, with timer and test, unless busy; jobs that stay keep cycle and test state; a new job is set up as its first line says and begins with the first cycle after now; every key has the end time of its last line; each live job has its timer set for its cycle. |
| Crontab.Jobs.Insert | probe-busybox/eperd/eperd.c:782-836 | A job with the same key gets the new end time and is rescheduled without a new cycle; otherwise the line is appended. |
| Crontab.Jobs.Reuse | probe-busybox/eperd/eperd.c:815-827 | Only the job with the key changes. |
| Crontab.Jobs.Append | probe-busybox/eperd/eperd.c:829-835 | A new last element. |
| Crontab.Jobs.Find | probe-busybox/eperd/eperd.c:800-813 | The job with the key, or the end of the list. |
| Crontab.Jobs.DeleteFile | probe-busybox/eperd/eperd.c:856-895 | Exactly the marked jobs whose test is not busy are unlinked, and their timers and tests are gone. |
| Crontab.Jobs.Unlink | probe-busybox/eperd/eperd.c:888-893 | The list without one element. |
| Crontab.Jobs.Remove | probe-busybox/eperd/eperd.c:875-893 | The job leaves the list and its timer is off. |
| Crontab.Jobs.MarkAll | probe-busybox/eperd/eperd.c:528-529 | All jobs marked, and nothing else changed. |
| Crontab.Jobs.Start | probe-busybox/eperd/eperd.c:838-848 | A job that can be set up begins with the first cycle that starts after now. |
| Crontab.Jobs.Enter | probe-busybox/eperd/eperd.c:620-633 | An accepted line: a new job that is set up and scheduled as the line says, or a new end time. |
| Crontab.Jobs.AddLine | probe-busybox/eperd/eperd.c:547-634 | One line: rejected ones change nothing. |
| Crontab.Jobs.AddLines | probe-busybox/eperd/eperd.c:547-634 | All lines, in order. |
| Crontab.SetTimeout | probe-busybox/eperd/eperd.c:736-777 | An expired job is left alone; otherwise the timer is due at the start of the cycle plus the offset, or at once if that has passed. |
| Crontab.RunJob | probe-busybox/eperd/eperd.c:1245-1339 | Runs exactly if the job is not to be deleted, the clock is within ten seconds of the plan, it has not expired and has a test; it then goes on to a later cycle that has not passed, leaving out only cycles that have started. Far from the plan the first cycle after now is chosen, whatever was run before. |
| Crontab.RunTimes | probe-busybox/eperd/eperd.c:1245-1339 | However often and whenever the timer goes off: the next cycle is always later than all cycles run exactly if no reschedule is made before the start of the last cycle run; and then no cycle is run twice. Each time leaves its mark while the timer is set. |
| Crontab.NewIffInTime | probe-busybox/eperd/eperd.c:1245-1339 | The same for every sequence of runs and reschedules. |
| Crontab.NewMeansOnce | probe-busybox/eperd/eperd.c:1322-1334 | If the next cycle is always later, no cycle is run twice. |
| Crontab.RunAgain | probe-busybox/eperd/eperd.c:1265-1311 | A reschedule before the start of the last cycle run, followed by timers on time, runs that cycle again. |
| Crontab.RunOnTime | probe-busybox/eperd/eperd.c:1322-1338 | A job that is run on time goes on to the very next cycle. |
| Crontab.ClockSetBack | probe-busybox/eperd/eperd.c:1265-1311 | A run on which it fails: the clock is set back after cycle 5, and cycle 3 is next. |
| Crontab.SteadyClock | probe-busybox/eperd/eperd.c:1265-1338 | Another one, with a steady clock and a distribution wider than the interval. |
| Crontab.DoDistr | probe-busybox/eperd/eperd.c:489-511 | The offset lies within the width of the distribution. |
| Crontab.FirstCycleIs | probe-busybox/eperd/eperd.c:744-752 | The cycle chosen is the first that starts after now. |
| Crontab.NextCycleIs | probe-busybox/eperd/eperd.c:1328-1334 | The cycle after one that was run is later, has not passed, and no cycle that is still to come is left out. |
| Crontab.DelayIs | probe-busybox/eperd/eperd.c:756-765 | The delay with its borrow and clamp is the time that is left, or zero. |

## Left out

- The CRC-32 of the input: a parameter of `Gzip.Zip`; that it is computed over the bytes read is not modelled.
- gunzip and the other decompressors: `Inflate` is the specification of the format, not a model of that code.
- The branch of flush_block that turns the whole file into a stored one: `seekable()` is the constant 0, so it is dead.
- The branch of fill_window for `more == (unsigned) -1`: window positions exclude it.
- Tracing and the checks that are compiled in for debugging only, command-line handling and file names of gzip.
- Deflate.Deflater.Step: states that the parse is the lazy one, not how good it is compared with other parses.
- Lengths.GenBitlen: clamped lengths are given out in the best way; that no other counts within the limit are cheaper is not stated, and the repair does not promise it.
- BuildTree.BuildTree: opt_len and static_len are unbounded integers; the total frequency is required to be below 0xfffe, which the size of the token buffer guarantees.
- LongestMatch.LongestMatch: takes a window with MAX_MATCH bytes behind strstart and one more, which the C window has not at the end of the input; the chain walk has at least 4 steps before the division, as in all configurations.
- LongestMatch.Compare: needs the same bytes behind strstart as LongestMatch.LongestMatch.
- LongestMatch.Try: needs the same bytes behind strstart as LongestMatch.LongestMatch.
- BlockLosses.FixedLoses: these are tokens that flush_block takes; deflate itself makes a match of equal bytes, and no file that leads to this loss is given.
- Hpack.XdecodeInt: a shift by 32 or more bits is undefined in C and has the result `Undefined` in the model; the growth of the header buffer is not modelled.
- The rest of http2.c: frames, streams, the dynamic table and Huffman-coded strings.
- The rest of evtdig.c: queries, resource records and the event loop; only its name encoding is modelled.
- TlsRecord.Buf.Add: allocation failure, which ends the program, is not modelled.
- Certificates, ciphers, alerts and the contents of handshake messages.
- Checksum.SteerUdp: packets are below 32768 bytes, as the packet buffer is, so that the 32-bit sum does not overflow.
- Traceroute.Run.OnReply: the parsing of packets that finds the sequence number is not modelled, and neither are the answers of TCP targets, which accept a range of acknowledgement numbers.
- Traceroute.Run.SendPkt: building the packet, the choice of the flow and the JSON text are not modelled; sending fails or not as a parameter says.
- Traceroute.Run.Process: runs have at least one probe per hop and a gap limit of at least one.
- Name resolution before a run, reading responses from a file instead of the network, and setting up sockets, in traceroute and NTP.
- Ntp.RttAndOffset: an overflow of the signed sum wraps around in the model; C leaves it undefined. The conversion to floating point is not modelled.
- OneOffQueue.Queue.AddLine: the text of a line is abstracted to barrier, command or other; output files and posting of results are not modelled, nor are failing file operations.
- Crontab.Jobs.SynchronizeFile: tokens are parsed already, the clock stands still while the file is read, and MAILTO lines are among the rejected ones.
- Crontab.DoDistr: the range of the offset, not that it is uniform.
- The other measurements (ping, httpget, TLS scan) and helpers such as condmv, and the busybox applets.
