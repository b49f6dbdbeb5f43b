# Verified models of the libraries bundled with the TVM experiments

The repository bundles TVM 0.10 with a few small C and C++ libraries, and has one script of its
own that does arithmetic on tilings. This project models the algorithms in them that are hard to
get right and proves what they promise. Every `.dfy` file is one module, and Wrappers has the option
type that many of them use; `dafny verify dfyconfig.toml` checks all of them.

| component | modules | main results |
|---|---|---|
| DEFLATE tables | Bits, Canonical, HuffmanCodes, HuffmanTable, HuffmanPlaces, HuffmanBuild, HuffmanSets, FixedTables | `BuildTable`: exactly which sets of lengths get a table, and what it makes of any bits; every canonical code is decoded |
| DEFLATE blocks | BitReader, MatchCopy, InflateSpec, Inflate, InflateHeader, InflateStream, InflateRoundTrip | `InflateBlocks`: every run over Huffman-coded blocks refines a reference decoder, and which streams it accepts; `InflateCoded`: encoded streams come back |
| LZMA | LzmaRange, LzmaPackets, LzmaLayout, LzmaStream, LzmaRun, LzmaDecoder, LzmaChunk, LzmaOdd | `ReadsExactly`, `StateMeans`, `StaysInRange`, `DecodeChunk`: every input ends as the run over its packets does |
| checksums | Adler, Crc | `Verify`, `Crc32`: the fast forms are the defined checksums |
| allocator | FreeList, Allocator, AllocatorBytes | `RunsAreSafe`: no interleaving hands memory out twice; `MemoryConserved`: none loses any unseen |
| JSON | JsonText, JsonInput, JsonOutput, JsonRoundTrip, JsonStrings, JsonGrammar | `DocumentRoundTrip`: print and parse; `SyntaxRead`, `HasSyntax`: exactly the JSON grammar is read |
| float widths | FloatFormat, FloatRound, FloatTruncate, FloatPromote, FloatConvert, FloatExtend, FloatRoundTrip | `PromiseExactly`, `WordExactly`, `TruncationMonotone`, `Extend`, `ThereAndBack` |
| sort | QuickSort | `Sort`: sorted permutation, logarithmic depth |
| DWARF index | AddressTable, DwarfIndex, DwarfLookup, Leb128, Abbrevs | `LookupPc`, `AnsweredRight`, `Converges`, `SortAndFindRow`, `ReadAndLookup` |
| shared data | CasList, Publish | `ListIsSafe`, `ConsistentExactly`: every interleaving |
| tiling | Tiling, TilingCounts | `Tile`, `WorkOnce`, `LoadedTraffic` |

Numbers of C types are naturals, with every truncation and wrap-around written out; the CRC uses
bit vectors. Bytes are naturals below 256. Objects that the code updates in place are classes,
buffers are arrays, and each method is tied to a function or predicate about which the lemmas
speak. The reference decoder for DEFLATE is that of RFC 1951, extended by what the decoding tables make
of bits that are no code and of the over-subscribed sets that are accepted. Code that threads share is
a state machine with one step for each access to shared memory; the walks along the free list, which
only the holder of the lock makes, are one step each.

## What turned out not to hold

For each of these there is an input or a run, and the exact condition under which the property
does hold.

- Truncation to brain floats (pattern_utils.h instantiates it) reads subnormal inputs and zero as
  if they had a leading one. 0.0 becomes the pattern 0x0040. Of the subnormal inputs, with g the
  distance to the smallest normal number in units of the smallest subnormal one, those with
  g <= 2^15 or 2^16 < g < 3 * 2^15 are still rounded to nearest, and no others
  (`ZeroToBrainFloat`, `MisreadExactly`, `PromiseExactly`).
- Truncation from words narrower than int, of which the repository has no instance, is compared and
  shifted in int, as the comment in the extension says of the same expression. There the normal branch
  is never taken: half precision 1.0 to a format of 8 bits is shifted by a negative amount, and numbers
  small enough to be defined have ties rounded up (`HalfUndefined`, `WrapIsRange`, `DefinedExactly`,
  `WordExactly`).
- Extension of brain floats spoils every subnormal number: the smallest one becomes a large
  negative number (`TinyBrainFloat`, `ExtendExactly`).
- Extension and truncation do not give back a signaling NaN, which comes back quiet, brain float
  zero, which comes back as 0x0040, nor the smaller half of the subnormal brain floats
  (`ThereAndBack`, `BrainZeroBack`).
- Sets of code lengths that break the Kraft inequality are accepted when symbol 0 has a one-bit code
  and at most three halves of the places are used, because the entry of that code is 0, the mark of
  an empty entry, and that symbol then loses its code; and some sets that meet it are refused for lack
  of room (`BuildTable`, `AcceptedOversubscribed`, `OversubscribedMeaning`, `CrowdedHasNoRoom`).
- Bits that are no code are not refused: they are read as symbol 0, and bits are no code if and
  only if their place is behind the codes (`IncompleteMeaning`, `MeaningUnowned`, `DecodeSymbol`).
- With 2^32 bytes of output or of room or more, matches that are right can be refused, because
  differences of pointers are cut to 32 bits (`FarOutputRefused`, `TooFarExactly`, `WideRoomRefused`,
  `NoRoomExactly`).
- The range decoder can reach code == range when direct bits are read (`PacketsMeetLastUnit`,
  `LastUnitExactly`, `StaysInRange`).
- An LZMA match with distance 2^32, the value of the end mark, passes the check of the distance,
  and the copy loop then never ends (`StuckInput`, `DecodeChunk`: outcome `Stuck`).
- A range that contains pc is missed when a range with a greater low has ended before pc
  (`NestedMiss`, `MissedExactly`). The comments in dwarf.c say that the search ends with
  pc < (entry + 1)->low; the comparison lets pc == (entry + 1)->low through, and the forward walk
  makes up for it.
- The answer for an address depends on earlier lookups. The comment in dwarf.c says that a lookup is
  made again when a unit turns out to have no lines, to find a better one; but the condition for that
  needs reading to have succeeded and failed, so that the first lookup has no line and only a later
  one goes to the enclosing unit (`SecondLookupDiffers`, `AnsweredRight`, `Converges`).
- Publishing the data of a unit without a lock is right only if racing threads read tables of equal
  sizes (`DifferentSizesRace`, `ConsistentExactly`).
- The formulas for output and traffic of a tiling need exact splits, and the count of the work needs
  all loops that are not unrolled to run over i, j or k; the script checks neither
  (`UnevenAccepted`, `OutputOnce`, `LoadedTraffic`, `OuterAccepted`, `ThreadWork`).

## Model

| member | source | states |
|---|---|---|
| Canonical.CodeFits | apache-tvm-src-v0.10.0/3rdparty/libbacktrace/elf.c:1232-1540 | Under the Kraft inequality the canonical code of a symbol (section 3.2.2 of RFC 1951) fits in its length. |
| Canonical.IntervalsOrdered | apache-tvm-src-v0.10.0/3rdparty/libbacktrace/elf.c:1232-1540 | Codes, extended to 15 bits, own disjoint intervals in the order (length, symbol). |
| Canonical.MatchesIsInterval | apache-tvm-src-v0.10.0/3rdparty/libbacktrace/elf.c:1340-1360 | A bit buffer starts with the reversed code of a symbol exactly when its reversed 15-bit prefix lies in the interval of that symbol. |
| Canonical.PrefixFree | apache-tvm-src-v0.10.0/3rdparty/libbacktrace/elf.c:1320-1325 | No bit buffer starts with the codes of two symbols. |
| HuffmanCodes.RevIncAddsOne | apache-tvm-src-v0.10.0/3rdparty/libbacktrace/elf.c:1340-1371 | The carry loop on a reversed code is + 1 modulo 2^j on the code itself. |
| HuffmanCodes.AdvanceCode | apache-tvm-src-v0.10.0/3rdparty/libbacktrace/elf.c:1362-1371 | The loop that looks for the highest clear bit computes that reversed successor. |
| HuffmanCodes.AddBit | apache-tvm-src-v0.10.0/3rdparty/libbacktrace/elf.c:1403-1412 | The inner carry loop adds 2^k to the code that is held reversed. |
| HuffmanCodes.AddCount | apache-tvm-src-v0.10.0/3rdparty/libbacktrace/elf.c:1395-1420 | The bitwise loop adds the whole count modulo 2^j, and leaves a rest exactly when the count needs more than j bits. |
| HuffmanCodes.LongerCode | apache-tvm-src-v0.10.0/3rdparty/libbacktrace/elf.c:1353-1355 | Going from length j to j + 1 appends a zero to the code and does not change the reversed number. |
| HuffmanBuild.CountLengths | apache-tvm-src-v0.10.0/3rdparty/libbacktrace/elf.c:1252-1273 | Succeeds exactly when all lengths are below 16, and then counts, first symbols and links enumerate the symbols of each length in order. |
| HuffmanBuild.FillStride | apache-tvm-src-v0.10.0/3rdparty/libbacktrace/elf.c:1326-1334 | A filled stride holds the value at exactly the indices that end in the code and changes nothing else; a failure means that one of them was in use. |
| HuffmanPlaces.CodeAtIsCode | apache-tvm-src-v0.10.0/3rdparty/libbacktrace/elf.c:1280-1421 | Under the Kraft inequality nothing wraps: the code that the builder counts to for the i-th symbol of a length is its canonical code, reversed. |
| HuffmanPlaces.CodeSpans | apache-tvm-src-v0.10.0/3rdparty/libbacktrace/elf.c:1318-1334 | The entries that a reversed code is stored in stand for an interval of places; in over-subscribed sets with a one-bit code for symbol 0 the first half of the table is used again behind the second. |
| HuffmanTable.OwnerUnique | apache-tvm-src-v0.10.0/3rdparty/libbacktrace/elf.c:1318-1334 | No place has two owners, in over-subscribed sets either. |
| HuffmanTable.OwnerMatches | apache-tvm-src-v0.10.0/3rdparty/libbacktrace/elf.c:1340-1360 | Under the Kraft inequality the owner of the place of a bit buffer is the symbol whose canonical code it starts with. |
| HuffmanTable.EmptyIsUnused | apache-tvm-src-v0.10.0/3rdparty/libbacktrace/elf.c:1464-1481 | An empty primary entry met by a long code is not the entry of symbol 0, which is 0 as well. |
| HuffmanPlaces.PlaceOwned | apache-tvm-src-v0.10.0/3rdparty/libbacktrace/elf.c:1280-1533 | Every place below the end of the codes has an owner. |
| HuffmanPlaces.MeaningUnowned | apache-tvm-src-v0.10.0/3rdparty/libbacktrace/elf.c:2204-2221 | Bits are no code if and only if their place is behind the codes. |
| HuffmanPlaces.MeansDecodes | apache-tvm-src-v0.10.0/3rdparty/libbacktrace/elf.c:1232-1540 | A table that reads all bits as they are meant decodes every canonical code under the Kraft inequality. |
| HuffmanPlaces.CodeAtMark | apache-tvm-src-v0.10.0/3rdparty/libbacktrace/elf.c:1362-1371 | At the place where codes come back to the first entry that is not 0, the reversed code is the index of that entry. |
| HuffmanPlaces.ReachStep | apache-tvm-src-v0.10.0/3rdparty/libbacktrace/elf.c:1455-1481 | The block of 128 places of a long code has a secondary table already, or it is the next block without one. |
| HuffmanPlaces.SpentStep | apache-tvm-src-v0.10.0/3rdparty/libbacktrace/elf.c:1464-1481 | How the entries in use grow, and that a table for which there is no room contradicts the condition for room. |
| HuffmanBuild.FillPrimary | apache-tvm-src-v0.10.0/3rdparty/libbacktrace/elf.c:1298-1372 | Keeps the state of the primary table for one length; no collision for sets of lengths that fit. |
| HuffmanBuild.PrimaryPhase | apache-tvm-src-v0.10.0/3rdparty/libbacktrace/elf.c:1280-1373 | All codes of at most 8 bits are in the primary table and nothing else is; succeeds for every set of lengths that fits, and only with at most two codes of one bit. |
| HuffmanBuild.FirstCodes | apache-tvm-src-v0.10.0/3rdparty/libbacktrace/elf.c:1377-1421 | The first code of each long length is right for every set of lengths, and the leftover check never fires. |
| HuffmanBuild.PickTable | apache-tvm-src-v0.10.0/3rdparty/libbacktrace/elf.c:1455-1501 | The primary entry points to a secondary table that is wide enough; exactly the blocks with codes have one; refused for lack of room only when the lengths break the condition for room. |
| HuffmanBuild.FillSecondary | apache-tvm-src-v0.10.0/3rdparty/libbacktrace/elf.c:1444-1532 | Keeps the state of all secondary tables for one length; no collision for sets of lengths that fit. |
| HuffmanBuild.AllStored | apache-tvm-src-v0.10.0/3rdparty/libbacktrace/elf.c:1423-1533 | With every length stored, each lookup finds the owner of the place, or the empty entry of a primary or secondary table. |
| HuffmanBuild.SecondaryPhase | apache-tvm-src-v0.10.0/3rdparty/libbacktrace/elf.c:1423-1533 | With all lengths from 15 down to 9 filled in, the two-level table reads all bits as they are meant, and nothing is stored behind the entries counted; for lengths that fit it succeeds if and only if there is room. |
| HuffmanBuild.BuildTable | apache-tvm-src-v0.10.0/3rdparty/libbacktrace/elf.c:1232-1540 | The table is built if and only if all lengths are below 16, the set fits (Kraft inequality, or symbol 0 has a one-bit code, there are at most two of these, and at most three halves of the places are used), and the secondary tables have room. What it then reads is stated for all bits and all these sets: the symbol that owns their place, with as many bits as its code has, and bits that are no code as symbol 0, of eight bits in a secondary table and of one elsewhere. Under the Kraft inequality the owner is the symbol whose canonical code comes next. |
| HuffmanSets.AcceptedOversubscribed | apache-tvm-src-v0.10.0/3rdparty/libbacktrace/elf.c:1318-1334 | The over-subscribed set 1, 1, 2 is built. |
| HuffmanSets.OversubscribedMeaning | apache-tvm-src-v0.10.0/3rdparty/libbacktrace/elf.c:1318-1334 | What its table reads: a one as symbol 1, two zeros as symbol 2, and the zero of a zero and a one as symbol 0, which has lost its code. |
| HuffmanSets.RefusedOversubscribed | apache-tvm-src-v0.10.0/3rdparty/libbacktrace/elf.c:1326-1334 | The same lengths as 2, 1, 1 are refused. |
| HuffmanSets.IncompleteMeaning | apache-tvm-src-v0.10.0/3rdparty/libbacktrace/elf.c:2204-2221 | With the lengths 0, 1 a one is no code, and is read as symbol 0, which has none. |
| HuffmanSets.CrowdedHasNoRoom | apache-tvm-src-v0.10.0/3rdparty/libbacktrace/elf.c:1466-1473 | A set of 267 lengths that meets the Kraft inequality is refused for lack of room. |
| BitReader.Reader.Align | apache-tvm-src-v0.10.0/3rdparty/libbacktrace/elf.c:1755-1764 | The bytes taken up to a word boundary leave the position in the bit string where it was. |
| BitReader.Reader.Fetch | apache-tvm-src-v0.10.0/3rdparty/libbacktrace/elf.c:1110-1156 | Keeps the invariant that (val, bits, pin) is the exact unread suffix of the bit string with at most 46 buffered bits; succeeds exactly when 15 bits are at hand or four bytes are left; never moves the position. |
| BitReader.Reader.Drop | apache-tvm-src-v0.10.0/3rdparty/libbacktrace/elf.c:2211-2212 | Using n of the buffered bits moves the position by n. |
| BitReader.Reader.Take | apache-tvm-src-v0.10.0/3rdparty/libbacktrace/elf.c:2273-2275 | The masked value is the next n bits of the stream. |
| MatchCopy.CopyBlock | apache-tvm-src-v0.10.0/3rdparty/libbacktrace/elf.c:2365-2369 | As long as the distance is not exceeded, the overlapping copy is one block copy. |
| MatchCopy.CopyRun | apache-tvm-src-v0.10.0/3rdparty/libbacktrace/elf.c:2302-2321 | At distance 1 the overlapping copy repeats the last byte. |
| MatchCopy.CopyMeans | apache-tvm-src-v0.10.0/3rdparty/libbacktrace/elf.c:2350-2382 | The byte-at-a-time copy leaves what was there, and each new byte equals the one so far back, be that old or new. |
| MatchCopy.CopyBlocks | apache-tvm-src-v0.10.0/3rdparty/libbacktrace/elf.c:2372-2380 | Block after block is the byte-at-a-time copy of section 3.2.3 of RFC 1951. |
| MatchCopy.CopyMatch | apache-tvm-src-v0.10.0/3rdparty/libbacktrace/elf.c:3548-3578 | All three branches equal the byte-at-a-time overlapping copy for all distances and lengths, and write only the next len bytes. |
| InflateSpec.LengthFormula | apache-tvm-src-v0.10.0/3rdparty/libbacktrace/elf.c:2266-2272 | The expression for lengths is the table of section 3.2.5 of RFC 1951. |
| InflateSpec.DistanceFormula | apache-tvm-src-v0.10.0/3rdparty/libbacktrace/elf.c:2338-2344 | The expression for distances is the table of section 3.2.5 of RFC 1951. |
| InflateSpec.SymbolUnique | apache-tvm-src-v0.10.0/3rdparty/libbacktrace/elf.c:2204-2221 | The symbol whose code is next at a position of the stream is read, and no other. |
| InflateSpec.SymbolMeans | apache-tvm-src-v0.10.0/3rdparty/libbacktrace/elf.c:2204-2221 | With 15 bits at hand they tell the symbol in any case, also when they are no code or the set is over-subscribed. |
| Inflate.DecodeSymbol | apache-tvm-src-v0.10.0/3rdparty/libbacktrace/elf.c:2204-2221 | The two-level lookup yields the symbol that the reference reads next in the stream, and moves by as many bits: for every input, also where the bits are no code. |
| Inflate.DecodeLength | apache-tvm-src-v0.10.0/3rdparty/libbacktrace/elf.c:2248-2276 | Length and extra bits as in the table; refused exactly above 285; out of input only within 38 bits of the end. |
| Inflate.DecodeDistance | apache-tvm-src-v0.10.0/3rdparty/libbacktrace/elf.c:2300-2348 | Distance and extra bits as in the table; refused exactly above 29; out of input only within 38 bits of the end. |
| Inflate.TooFarExactly | apache-tvm-src-v0.10.0/3rdparty/libbacktrace/elf.c:2302-2357 | The test of the distance, cut to 32 bits, is wrong exactly for distances within the output that exceed its size modulo 2^32; so it is right below 2^32 bytes, and never lets a wrong distance through. |
| Inflate.FarOutputRefused | apache-tvm-src-v0.10.0/3rdparty/libbacktrace/elf.c:2353-2357 | Behind 2^32 bytes of output a match at distance 2 is refused. |
| Inflate.NoRoomExactly | apache-tvm-src-v0.10.0/3rdparty/libbacktrace/elf.c:2313-2363 | The test of the room, cut to 32 bits, is wrong exactly for matches that fit but exceed the room modulo 2^32; it never lets a match through that does not fit. |
| Inflate.WideRoomRefused | apache-tvm-src-v0.10.0/3rdparty/libbacktrace/elf.c:2359-2363 | With room for 2^32 bytes even a match of three bytes is refused. |
| Inflate.FinishMatch | apache-tvm-src-v0.10.0/3rdparty/libbacktrace/elf.c:2300-2382 | The distance half of a match has the position and the output of the reference decoder; the exact conditions under which the two 32-bit tests refuse it; every other stop is explained as in InflateBlock. |
| Inflate.InflateMatch | apache-tvm-src-v0.10.0/3rdparty/libbacktrace/elf.c:2243-2383 | A whole match agrees with the reference decoder. |
| Inflate.InflateSymbol | apache-tvm-src-v0.10.0/3rdparty/libbacktrace/elf.c:2194-2384 | One turn of the loop is one step of the reference decoder: what the reference makes of the rest does not change. |
| Inflate.InflateBlock | apache-tvm-src-v0.10.0/3rdparty/libbacktrace/elf.c:2191-2384 | At the end of a block position and output are those of a Huffman and LZ77 reference decoder, for every input and all tables that the builder makes; with less than 2^32 bytes of output a block that the reference accepts is refused only for lack of room or within 38 bits of the end of the input. |
| InflateHeader.ReadCodeBits | apache-tvm-src-v0.10.0/3rdparty/libbacktrace/elf.c:1884-2013 | The unrolled reads store the lengths of the code length code in the order of section 3.2.7 of RFC 1951, and use three bits for each. |
| InflateHeader.StoreLength | apache-tvm-src-v0.10.0/3rdparty/libbacktrace/elf.c:2050-2167 | The three repeat codes and plain lengths do what the reference does with them. |
| InflateHeader.ReadLength | apache-tvm-src-v0.10.0/3rdparty/libbacktrace/elf.c:2027-2168 | One symbol of the code length code is one step of the reference; 15 buffered bits are enough for it and its extra bits. |
| InflateHeader.ReadLengths | apache-tvm-src-v0.10.0/3rdparty/libbacktrace/elf.c:2019-2168 | The lengths that are read are those of the reference, and exactly as many as announced. |
| InflateStream.ReadCounts | apache-tvm-src-v0.10.0/3rdparty/libbacktrace/elf.c:1861-1873 | The three counts of a dynamic block. |
| InflateStream.ReadTables | apache-tvm-src-v0.10.0/3rdparty/libbacktrace/elf.c:1881-2188 | Succeeds only for lengths of the reference that get tables, which then read them; such lengths are refused only within 38 bits of the end. |
| InflateStream.ReadDynamic | apache-tvm-src-v0.10.0/3rdparty/libbacktrace/elf.c:1853-2189 | After the header of a dynamic block, the reference decoder goes on with the lengths that the two tables read; the same about refusals. |
| InflateStream.ReadBlockHeader | apache-tvm-src-v0.10.0/3rdparty/libbacktrace/elf.c:1776-1782 | The last-block bit and the block type. |
| InflateStream.InflateOne | apache-tvm-src-v0.10.0/3rdparty/libbacktrace/elf.c:1770-2384 | One block is one step of the reference decoder over blocks, and a refusal is explained. |
| InflateStream.InflateBlocks | apache-tvm-src-v0.10.0/3rdparty/libbacktrace/elf.c:1766-2385 | Any run over Huffman-coded blocks that gets to its end, for every input: position and output are those of the reference decoder for the whole stream. And it does end so for every stream that the reference accepts, if the output fits in less than 2^32 bytes and 39 bits or more follow the stream. |
| FixedTables.FixedLiteralCode | apache-tvm-src-v0.10.0/3rdparty/libbacktrace/elf.c:1554-1563 | The canonical code of the fixed literal lengths is the table of section 3.2.6 of RFC 1951: bits and code of every symbol. |
| FixedTables.FixedDistanceCode | apache-tvm-src-v0.10.0/3rdparty/libbacktrace/elf.c:1584-1586 | The fixed distances have five bits, and each is its own code. |
| FixedTables.LiteralRoom | apache-tvm-src-v0.10.0/3rdparty/libbacktrace/elf.c:1542-1565 | The fixed literal lengths meet the Kraft inequality and need 112 entries of secondary tables, the size of the printed table. |
| FixedTables.BuildFixed | apache-tvm-src-v0.10.0/3rdparty/libbacktrace/elf.c:1542-1612 | The generator of the fixed tables does not fail; its tables read every code of section 3.2.6 of RFC 1951, whatever follows it, and nothing is stored behind the 0x170 and 0x100 entries that are printed. |
| InflateRoundTrip.BlockRead | apache-tvm-src-v0.10.0/3rdparty/libbacktrace/elf.c:2191-2384 | The round trip of a block: bytes and copies, coded with any two canonical codes, are read back as what they stand for. |
| InflateRoundTrip.EveryLength | apache-tvm-src-v0.10.0/3rdparty/libbacktrace/elf.c:2248-2276 | Every length from 3 to 258 has a symbol and extra bits. |
| InflateRoundTrip.EveryDistance | apache-tvm-src-v0.10.0/3rdparty/libbacktrace/elf.c:2322-2348 | Every distance from 1 to 32768 has a symbol and extra bits. |
| InflateRoundTrip.RunsRead | apache-tvm-src-v0.10.0/3rdparty/libbacktrace/elf.c:2019-2168 | The round trip of the code lengths: runs of them, coded with any third code, are read back. |
| InflateRoundTrip.OrderFormula | apache-tvm-src-v0.10.0/3rdparty/libbacktrace/elf.c:1884-2013 | The order in which the lengths of the third code are sent: 16 to 18, 0, then from 8 up and from 7 down in turn. |
| InflateRoundTrip.CodeLengthsRead | apache-tvm-src-v0.10.0/3rdparty/libbacktrace/elf.c:1884-2013 | The three-bit lengths, sent in that order, are read back. |
| InflateRoundTrip.DynamicRead | apache-tvm-src-v0.10.0/3rdparty/libbacktrace/elf.c:1853-2189 | The round trip of a dynamic block: counts, three codes, runs of lengths and tokens. |
| InflateRoundTrip.StreamRead | apache-tvm-src-v0.10.0/3rdparty/libbacktrace/elf.c:1766-2385 | The round trip of a stream of blocks with the fixed codes or codes of their own. |
| InflateRoundTrip.InflateCoded | apache-tvm-src-v0.10.0/3rdparty/libbacktrace/elf.c:1766-2385 | The inflater, on any such stream with room for its output and 39 bits behind it, ends well, at the end of the stream, with what it stands for. |
| InflateRoundTrip.EmptyStream | apache-tvm-src-v0.10.0/3rdparty/libbacktrace/elf.c:1846-1850 | The bytes 03 00 are read as a block with nothing in it. |
| InflateRoundTrip.LetterStream | apache-tvm-src-v0.10.0/3rdparty/libbacktrace/elf.c:1846-1850 | The bytes 4B 04 00 are read as the letter a. |
| FreeList.InsertBounded | apache-tvm-src-v0.10.0/3rdparty/libbacktrace/mmap.c:76-108 | The free list never has more than 16 entries, each large enough for its header. |
| FreeList.KeepsLargest | apache-tvm-src-v0.10.0/3rdparty/libbacktrace/mmap.c:96-107 | A full list that gets one more block keeps the 16 largest of the 17: it loses exactly one, and none that it keeps is smaller. |
| FreeList.Heap.FreeLocked | apache-tvm-src-v0.10.0/3rdparty/libbacktrace/mmap.c:74-108 | The walk along the headers in the free blocks, from pointer to pointer, computes the bounded insertion and keeps the list linked; every byte of the list and the block is on the new list, or in a dropped piece that is too small for a header or no larger than any of sixteen kept. |
| FreeList.Heap.TakeLocked | apache-tvm-src-v0.10.0/3rdparty/libbacktrace/mmap.c:139-159 | First fit: unlinks the first entry that is large enough and puts back what is left after rounding; every byte of the old list is handed out, or on the new list, or in such a piece. |
| FreeList.InsertConserves | apache-tvm-src-v0.10.0/3rdparty/libbacktrace/mmap.c:74-108 | The same of the list operation for every single byte, in both directions. |
| FreeList.PiecesConserve | apache-tvm-src-v0.10.0/3rdparty/libbacktrace/mmap.c:147-153 | A block is split into two pieces without loss; the one handed out is a multiple of 8 bytes or the whole block, with less than 8 bytes to spare. |
| FreeList.TakeConserves | apache-tvm-src-v0.10.0/3rdparty/libbacktrace/mmap.c:139-159 | Each byte of the list is handed out, kept or dropped, and what may be dropped. |
| FreeList.TakenOut | apache-tvm-src-v0.10.0/3rdparty/libbacktrace/mmap.c:100 | Storing the next pointer of an entry through the cell that points to it leaves the list without that entry. |
| Allocator.AskSizeFits | apache-tvm-src-v0.10.0/3rdparty/libbacktrace/mmap.c:169-172 | Rounding to pages in 64 bits gives at least the requested size, or wraps to zero, which cannot be mapped. |
| Allocator.ListRoundingFits | apache-tvm-src-v0.10.0/3rdparty/libbacktrace/mmap.c:148-150 | Rounding a request that the list can serve never wraps. |
| Allocator.StepKeepsInv | apache-tvm-src-v0.10.0/3rdparty/libbacktrace/mmap.c:74-238 | Every step of every thread keeps the invariant on ownership, the lock and the list. |
| Allocator.RunKeepsInv | apache-tvm-src-v0.10.0/3rdparty/libbacktrace/mmap.c:74-238 | The invariant holds in every state of every interleaving. |
| Allocator.RunsAreSafe | apache-tvm-src-v0.10.0/3rdparty/libbacktrace/mmap.c:111-238 | In every state of every interleaving of allocating and freeing threads, blocks in use and blocks on the list are mapped and pairwise disjoint, the list has at most 16 entries, only one thread is inside the lock, and a block that is returned has at least the requested bytes. |
| AllocatorBytes.LeakExplained | apache-tvm-src-v0.10.0/3rdparty/libbacktrace/mmap.c:76-79 | Nothing leaks but a block freed while another thread has the lock, a piece too small for a header, or a block no larger than any of sixteen that stay. |
| AllocatorBytes.StepAccounts | apache-tvm-src-v0.10.0/3rdparty/libbacktrace/mmap.c:74-238 | Every step of every thread keeps the account of memory, with what it leaks. |
| AllocatorBytes.MemoryConserved | apache-tvm-src-v0.10.0/3rdparty/libbacktrace/mmap.c:74-238 | In every state of every interleaving, what is mapped is what threads hold, what is on the list, and what was leaked before; and what was leaked is in no block any more. |
| JsonOutput.SerializeStr | apache-tvm-src-v0.10.0/3rdparty/picojson/picojson.h:538-574 | The loop over characters writes the quoted string with every escape. |
| JsonOutput.SerializeTree | apache-tvm-src-v0.10.0/3rdparty/picojson/picojson.h:592-655 | The recursive printer writes the specified text in both layouts. |
| JsonOutput.SerializeDocument | apache-tvm-src-v0.10.0/3rdparty/picojson/picojson.h:577-581 | The document in compact or prettified form. |
| JsonInput.Input.Getc | apache-tvm-src-v0.10.0/3rdparty/picojson/picojson.h:673-686 | The cursor with its one delayed character denotes the unread text; reads its first character, or -1 at the end. |
| JsonInput.Input.Ungetc | apache-tvm-src-v0.10.0/3rdparty/picojson/picojson.h:687 | The last character is unread again. |
| JsonInput.Input.SkipWs | apache-tvm-src-v0.10.0/3rdparty/picojson/picojson.h:697-705 | The unread text without its leading white space. |
| JsonInput.Input.Expect | apache-tvm-src-v0.10.0/3rdparty/picojson/picojson.h:706-713 | White space and the expected character, or nothing but white space is used. |
| JsonInput.Input.Match | apache-tvm-src-v0.10.0/3rdparty/picojson/picojson.h:714-722 | Succeeds exactly when the word is next. |
| JsonInput.Input.ReadQuadHex | apache-tvm-src-v0.10.0/3rdparty/picojson/picojson.h:727-746 | Four hexadecimal digits, or -1. |
| JsonInput.Input.ReadCodePoint | apache-tvm-src-v0.10.0/3rdparty/picojson/picojson.h:750-789 | A code point by four digits, or by a surrogate pair, as UTF-8 bytes; what these are is stated in JsonStrings. |
| JsonInput.Input.ReadString | apache-tvm-src-v0.10.0/3rdparty/picojson/picojson.h:793-832 | The string up to its closing quote with all escapes undone. |
| JsonStrings.Utf8Decodes | apache-tvm-src-v0.10.0/3rdparty/picojson/picojson.h:772-787 | The bytes written for a code point are decoded to it by section 3 of RFC 3629: leading byte, continuation bytes, shortest form. |
| JsonStrings.Utf8Unique | apache-tvm-src-v0.10.0/3rdparty/picojson/picojson.h:772-787 | No other bytes are. |
| JsonStrings.QuadHexExactly | apache-tvm-src-v0.10.0/3rdparty/picojson/picojson.h:727-746 | Four characters are read as a number exactly if they are its hexadecimal digits, in either case of letters. |
| JsonStrings.LetterRead | apache-tvm-src-v0.10.0/3rdparty/picojson/picojson.h:806-824 | The escapes of one letter are those of section 7 of RFC 8259, with the codes they stand for, and no others. |
| JsonStrings.PieceRead | apache-tvm-src-v0.10.0/3rdparty/picojson/picojson.h:750-832 | A character, a short escape, four digits, or a surrogate pair is read as the bytes that decode to what it stands for. |
| JsonStrings.PiecesRead | apache-tvm-src-v0.10.0/3rdparty/picojson/picojson.h:793-832 | Every string of the grammar is read as what it spells, up to its closing quote. |
| JsonStrings.StringHasPieces | apache-tvm-src-v0.10.0/3rdparty/picojson/picojson.h:793-832 | And every string that is read is one of the grammar, read as what it spells. |
| JsonStrings.EscapeMeans | apache-tvm-src-v0.10.0/3rdparty/picojson/picojson.h:538-574 | Which characters are printed as short escapes, which by their code with lower-case digits, and that all others stay as they are. |
| JsonInput.ParseArrayText | apache-tvm-src-v0.10.0/3rdparty/picojson/picojson.h:836-851 | The array of the specification, ending behind its bracket. |
| JsonInput.ParseObjectText | apache-tvm-src-v0.10.0/3rdparty/picojson/picojson.h:855-872 | The object of the specification, ending behind its brace. |
| JsonInput.Input.ReadToken | apache-tvm-src-v0.10.0/3rdparty/picojson/picojson.h:876-894 | The longest run of number characters. |
| JsonInput.ParseText | apache-tvm-src-v0.10.0/3rdparty/picojson/picojson.h:898-951 | The value of the specification, and exactly the text behind it is left; fails exactly when the specification does. |
| JsonRoundTrip.UnescapeString | apache-tvm-src-v0.10.0/3rdparty/picojson/picojson.h:538-574 | For every byte string, escaping and reading back is the identity, whatever follows. |
| JsonRoundTrip.RoundTrip | apache-tvm-src-v0.10.0/3rdparty/picojson/picojson.h:592-655 | Every tree at every indentation is read back as its value, and reading stops exactly at the end of its text. |
| JsonRoundTrip.DocumentRoundTrip | apache-tvm-src-v0.10.0/3rdparty/picojson/picojson.h:577-661 | Both layouts and any order of visiting the fields: the document is read back as the value it was printed from, and only the final newline of the prettified form is left. |
| JsonRoundTrip.EveryValueHasTree | apache-tvm-src-v0.10.0/3rdparty/picojson/picojson.h:625-638 | Every value can be printed: it has a tree for some order of iteration. |
| JsonRoundTrip.LayoutExample | apache-tvm-src-v0.10.0/3rdparty/picojson/picojson.h:592-661 | An object and an array in both layouts, character by character. |
| JsonGrammar.SyntaxRead | apache-tvm-src-v0.10.0/3rdparty/picojson/picojson.h:836-951 | Every text of the JSON grammar, with any white space between its tokens, is read as what it stands for, up to its end. |
| JsonGrammar.HasSyntax | apache-tvm-src-v0.10.0/3rdparty/picojson/picojson.h:836-951 | Every text that is read is one of the grammar, with numbers read to their end, and is read as what it stands for. |
| JsonGrammar.LastFieldCounts | apache-tvm-src-v0.10.0/3rdparty/picojson/picojson.h:855-872 | Of the fields of an object with one key the last one counts, and there are no other keys. |
| FloatRound.NearestExact | apache-tvm-src-v0.10.0/3rdparty/compiler-rt/builtin_fp16.h:108-120 | A number of the target format is rounded to itself. |
| FloatRound.NearestMono | apache-tvm-src-v0.10.0/3rdparty/compiler-rt/builtin_fp16.h:108-120 | Rounding to nearest even is monotone. |
| FloatTruncate.StickyRounds | apache-tvm-src-v0.10.0/3rdparty/compiler-rt/builtin_fp16.h:140-152 | With two bits to drop, shifting with a sticky bit and rounding once is rounding the whole number. |
| FloatTruncate.SmallRounds | apache-tvm-src-v0.10.0/3rdparty/compiler-rt/builtin_fp16.h:132-154 | A number below the normal range of the target that has its leading one is rounded to the nearest number, ties to even. |
| FloatTruncate.MisreadHarmless | apache-tvm-src-v0.10.0/3rdparty/compiler-rt/builtin_fp16.h:138-142 | A subnormal source number is given a leading one that it does not have; if the exponent range is narrower by more than the target fraction, the result is still the nearest number. |
| FloatTruncate.SmallestMisread | apache-tvm-src-v0.10.0/3rdparty/compiler-rt/builtin_fp16.h:138-142 | Otherwise the smallest source number gets a result that is not the nearest. |
| FloatTruncate.NearestExactly | apache-tvm-src-v0.10.0/3rdparty/compiler-rt/builtin_fp16.h:132-154 | The exact condition for formats: all numbers below the normal range are rounded to nearest if and only if the exponent range is narrower by more than the target fraction. |
| FloatTruncate.MisreadExactly | apache-tvm-src-v0.10.0/3rdparty/compiler-rt/builtin_fp16.h:132-154 | The exact condition for every single misread number: it is rounded to nearest if and only if its distance to the smallest normal source number is at most half a target unit, or between one and one and a half units (with other ties when the fractions are equally wide). |
| FloatTruncate.PromiseExactly | apache-tvm-src-v0.10.0/3rdparty/compiler-rt/builtin_fp16.h:105-154 | For every format and pattern, truncation keeps its promise if and only if the number is not misread or misread without harm. |
| FloatTruncate.SmallIsRound | apache-tvm-src-v0.10.0/3rdparty/compiler-rt/builtin_fp16.h:131-154 | Below the normal range every number is rounded as if its exponent were one higher, with half the unit. |
| FloatTruncate.AbsMonotone | apache-tvm-src-v0.10.0/3rdparty/compiler-rt/builtin_fp16.h:105-154 | Truncation is monotone, misread numbers included. |
| FloatPromote.OddRounds | apache-tvm-src-v0.10.0/3rdparty/compiler-rt/builtin_fp16.h:144-152 | With the sticky bit always set, which is what promotion to int makes of it, ties that should go down go up, and nothing else changes. |
| FloatPromote.ShiftRounds | apache-tvm-src-v0.10.0/3rdparty/compiler-rt/builtin_fp16.h:131-154 | Every number that the last branch can take without a negative shift, those of the smallest normal exponent included, is rounded as if it had a leading one. |
| FloatPromote.RaisedWrong | apache-tvm-src-v0.10.0/3rdparty/compiler-rt/builtin_fp16.h:144-152 | A tie that goes up so is never the nearest number, misread or not. |
| FloatPromote.WordExactly | apache-tvm-src-v0.10.0/3rdparty/compiler-rt/builtin_fp16.h:105-154 | In words of every width the promise is kept if and only if the number is not misread or misread without harm, and is no tie that goes up. |
| FloatPromote.DefinedExactly | apache-tvm-src-v0.10.0/3rdparty/compiler-rt/builtin_fp16.h:108-154 | In words of 8 or 16 bits the code is defined if and only if the pattern is too large for the target, or its exponent is at most the smallest normal one of the target. |
| FloatPromote.HalfUndefined | apache-tvm-src-v0.10.0/3rdparty/compiler-rt/builtin_fp16.h:108-154 | Half precision to a format of 8 bits: 1 is undefined, and a tie becomes 5 instead of 4. |
| FloatPromote.WordMonotone | apache-tvm-src-v0.10.0/3rdparty/compiler-rt/builtin_fp16.h:105-154 | Where the code is defined it never swaps the order of two numbers, in words of every width. |
| FloatConvert.WrapIsRange | apache-tvm-src-v0.10.0/3rdparty/compiler-rt/builtin_fp16.h:108 | Comparing the two differences tests whether the pattern is in the normal range of the target, if and only if the word is at least as wide as int; in narrower words the promoted comparison holds for no number. |
| FloatConvert.TruncateNormal | apache-tvm-src-v0.10.0/3rdparty/compiler-rt/builtin_fp16.h:108-120 | Shift, rebias and round on unsigned words give the result that is rounded to nearest even. |
| FloatConvert.TruncateSmall | apache-tvm-src-v0.10.0/3rdparty/compiler-rt/builtin_fp16.h:131-154 | The shift with sticky bit, in unsigned words or promoted to int, is one rounding of the integer significand; undefined exactly for a negative shift or an overflow of int. |
| FloatConvert.TruncateAbs | apache-tvm-src-v0.10.0/3rdparty/compiler-rt/builtin_fp16.h:105-154 | NaN, overflow, normal and small inputs of any format, with the exact conditions for being defined and for the promise. |
| FloatConvert.Truncate | apache-tvm-src-v0.10.0/3rdparty/compiler-rt/builtin_fp16.h:65-165 | Where the code is defined, the sign is kept, and finite numbers become the nearest target number with ties to even (section 4.3.1 of IEEE 754-2008), infinity stays, a NaN becomes a quiet NaN with the high part of its payload: all this if and only if the number is not misread or misread without harm, and, in words narrower than int, is no tie that goes up. |
| FloatConvert.SingleToHalf | apache-tvm-src-v0.10.0/src/relay/transforms/pattern_utils.h:265-271 | Of the two targets in use, half precision meets the condition and brain float does not. |
| FloatConvert.ZeroToBrainFloat | apache-tvm-src-v0.10.0/src/relay/transforms/pattern_utils.h:267-271 | Zero becomes the brain float pattern 0x40, which is not the nearest number. |
| FloatConvert.ZeroKept | apache-tvm-src-v0.10.0/3rdparty/compiler-rt/builtin_fp16.h:131-154 | Zero stays zero if and only if the exponent range is narrower by at least the target fraction, in words narrower than int by more. |
| FloatConvert.TruncationMonotone | apache-tvm-src-v0.10.0/3rdparty/compiler-rt/builtin_fp16.h:65-165 | Where they are defined, the results of truncation never swap the order of two numbers of either sign, for every pair of formats, with the negative zero before the positive one. |
| FloatExtend.Clz | apache-tvm-src-v0.10.0/3rdparty/compiler-rt/builtin_fp16.h:33-61 | The position of the leading one of every 32-bit number, and 32 for zero. |
| FloatExtend.RenormalizesExactly | apache-tvm-src-v0.10.0/3rdparty/compiler-rt/builtin_fp16.h:221-229 | A subnormal number is in the normal range of the wide format exactly when the computed exponent is positive. |
| FloatExtend.ExtendSubnormal | apache-tvm-src-v0.10.0/3rdparty/compiler-rt/builtin_fp16.h:221-229 | Then renormalizing keeps its value. |
| FloatExtend.TinySpoilt | apache-tvm-src-v0.10.0/3rdparty/compiler-rt/builtin_fp16.h:221-229 | Otherwise the exponent is zero or wraps around, and the value is never kept. |
| FloatExtend.AllRenormalize | apache-tvm-src-v0.10.0/3rdparty/compiler-rt/builtin_fp16.h:221-229 | All numbers can be renormalized if and only if the exponent range is narrower by at least the fraction. |
| FloatExtend.TinyBrainFloat | apache-tvm-src-v0.10.0/src/relay/transforms/pattern_utils.h:476-479 | The smallest brain float becomes the single precision pattern 0xFD000000, a large negative number. |
| FloatExtend.ExtendExactly | apache-tvm-src-v0.10.0/3rdparty/compiler-rt/builtin_fp16.h:201-233 | Value and payload are kept if and only if the number can be renormalized. |
| FloatExtend.ExtendAbs | apache-tvm-src-v0.10.0/3rdparty/compiler-rt/builtin_fp16.h:201-233 | The case distinction computes that pattern. |
| FloatExtend.Extend | apache-tvm-src-v0.10.0/3rdparty/compiler-rt/builtin_fp16.h:169-244 | The same for whole patterns, and then the sign is kept. |
| FloatRoundTrip.ThereAndBack | apache-tvm-src-v0.10.0/3rdparty/compiler-rt/builtin_fp16.h:65-244 | The pattern that truncation makes of the pattern that extension makes is the original one if and only if it is a normal number, infinity, a quiet NaN, a subnormal number of at least half the smallest normal number of the wide format, or zero with an exponent range narrower by at least the fraction (by more in words narrower than int); a signaling NaN comes back quiet. |
| FloatRoundTrip.ReturnDefined | apache-tvm-src-v0.10.0/3rdparty/compiler-rt/builtin_fp16.h:65-244 | Back from words of 8 or 16 bits, truncation is defined for a pattern that returns if and only if it is not a normal number above the smallest exponent. |
| FloatRoundTrip.RoundTrip | apache-tvm-src-v0.10.0/3rdparty/compiler-rt/builtin_fp16.h:65-244 | The same of the two conversions called one after the other, which are defined for all patterns if the wide word is at least as wide as int; for narrow enough formats everything but signaling NaNs comes back. |
| FloatRoundTrip.OneKept | apache-tvm-src-v0.10.0/3rdparty/compiler-rt/builtin_fp16.h:65-244 | Both conversions take 1 to 1. |
| FloatRoundTrip.OneInHalf | apache-tvm-src-v0.10.0/3rdparty/compiler-rt/builtin_fp16.h:65-244 | Which patterns that is in single precision, half precision and brain floats. |
| FloatRoundTrip.BrainZeroBack | apache-tvm-src-v0.10.0/src/relay/transforms/pattern_utils.h:267-271 | Brain float zero comes back as the pattern 0x40. |
| FloatRoundTrip.BrainSubnormalBack | apache-tvm-src-v0.10.0/src/relay/transforms/pattern_utils.h:476-479 | The largest subnormal brain float comes back, although its value is spoilt on the way. |
| QuickSort.Swap | apache-tvm-src-v0.10.0/3rdparty/libbacktrace/sort.c:45-58 | Two elements change places, all others stay. |
| QuickSort.PartLoop | apache-tvm-src-v0.10.0/3rdparty/libbacktrace/sort.c:78-87 | A permutation with the smaller elements in front of the rest. |
| QuickSort.Partition | apache-tvm-src-v0.10.0/3rdparty/libbacktrace/sort.c:72-90 | The pivot is where it belongs: nothing before it is larger, nothing after it is smaller. |
| QuickSort.SortPart | apache-tvm-src-v0.10.0/3rdparty/libbacktrace/sort.c:92-107 | One side is sorted by a recursive call on less than half of the elements, the other is left for the loop. |
| QuickSort.Sort | apache-tvm-src-v0.10.0/3rdparty/libbacktrace/sort.c:61-108 | For every total preorder: a sorted permutation, nothing outside touched, and a recursion depth d with 2^d <= count. |
| AddressTable.BinarySearch | apache-tvm-src-v0.10.0/3rdparty/libbacktrace/dwarf.c:1596-1610 | Finds an entry whose comparison is zero if there is one, although the comparison with the next entry is not strict. |
| AddressTable.WalkForward | apache-tvm-src-v0.10.0/3rdparty/libbacktrace/dwarf.c:4002-4003 | Ends at the last entry with the greatest low at or below pc, whichever entry the search returned. |
| AddressTable.WalkBackward | apache-tvm-src-v0.10.0/3rdparty/libbacktrace/dwarf.c:4004-4017 | Ends at the tightest range with that low that contains pc, or finds that there is none. |
| AddressTable.Lookup | apache-tvm-src-v0.10.0/3rdparty/libbacktrace/dwarf.c:3983-4022 | Search and walks together: the tightest range that contains pc among those with the greatest low at or below pc. |
| AddressTable.DisjointLookup | apache-tvm-src-v0.10.0/3rdparty/libbacktrace/dwarf.c:3983-4022 | For disjoint ranges this is a linear scan, in both directions. |
| AddressTable.NestedMiss | apache-tvm-src-v0.10.0/3rdparty/libbacktrace/dwarf.c:4014-4015 | A range around pc is missed when a nested one has ended before pc. |
| AddressTable.MissedExactly | apache-tvm-src-v0.10.0/3rdparty/libbacktrace/dwarf.c:4005-4022 | A range around pc is missed if and only if all ranges with the greatest low at or below pc have ended. |
| DwarfIndex.SortAndLookup | apache-tvm-src-v0.10.0/3rdparty/libbacktrace/dwarf.c:1566-1610 | Sorting and looking up depends only on which ranges were read, not on their order: the tightest range around pc among those with the greatest start, and of equal ranges the one with the greatest tie. |
| DwarfIndex.SearchRows | apache-tvm-src-v0.10.0/3rdparty/libbacktrace/dwarf.c:1640-1654 | The row that covers pc; none exactly when all rows are above pc. |
| DwarfIndex.SortAndFindRow | apache-tvm-src-v0.10.0/3rdparty/libbacktrace/dwarf.c:1612-1654 | After sorting, the row whose address is the greatest at or below pc, and of the rows with that address the one with the greatest index, that is the last one added; none exactly when all addresses are above pc. |
| DwarfIndex.ReportInlined | apache-tvm-src-v0.10.0/3rdparty/libbacktrace/dwarf.c:3880-3955 | The frames are those of the chain of inlined calls around pc, innermost first, each with the position of its call, and the position left is that of the outermost call. |
| DwarfLookup.ChosenExactly | apache-tvm-src-v0.10.0/3rdparty/libbacktrace/dwarf.c:4030-4053 | The entry that answers when everything has been read is the first one, from the hit backward, that is not a useless unit inside the entry before it. |
| DwarfLookup.SkipExactly | apache-tvm-src-v0.10.0/3rdparty/libbacktrace/dwarf.c:4030-4053 | The walk ends at the first entry that is not a useless unit, known as such, inside the entry before it. |
| DwarfLookup.AnsweredRight | apache-tvm-src-v0.10.0/3rdparty/libbacktrace/dwarf.c:4033-4053 | A lookup is answered as if all units had been read before, if and only if the walk does not end at an unread useless unit with an enclosing one before it. |
| DwarfLookup.SkipMore | apache-tvm-src-v0.10.0/3rdparty/libbacktrace/dwarf.c:4033-4053 | Reading more units never brings the walk back. |
| DwarfLookup.Converges | apache-tvm-src-v0.10.0/3rdparty/libbacktrace/dwarf.c:3963-4121 | Whatever else is looked up, after as many lookups of pc as there are useless entries to skip, pc is answered as if all units had been read before. |
| DwarfLookup.SecondLookupDiffers | apache-tvm-src-v0.10.0/3rdparty/libbacktrace/dwarf.c:4066-4121 | A run in which the first lookup has no line and the second, equal one has. |
| DwarfLookup.Module.SkipUseless | apache-tvm-src-v0.10.0/3rdparty/libbacktrace/dwarf.c:4030-4053 | The walk over units that are known to be useless ends where the specification says. |
| DwarfLookup.Module.ChooseEntry | apache-tvm-src-v0.10.0/3rdparty/libbacktrace/dwarf.c:3983-4121 | The entry that answers and the units read afterwards, for every history of lookups; none exactly when no range with the greatest low contains pc; the retry is never made. |
| DwarfLookup.AskUnit | apache-tvm-src-v0.10.0/3rdparty/libbacktrace/dwarf.c:4123-4217 | Line, function and inlined frames of a unit. |
| DwarfLookup.Module.LookupPc | apache-tvm-src-v0.10.0/3rdparty/libbacktrace/dwarf.c:3963-4218 | The answer for pc is that of the unit chosen by the units read so far; not found exactly when no range with the greatest low contains pc. |
| Leb128.UlebRoundTrip | apache-tvm-src-v0.10.0/3rdparty/libbacktrace/dwarf.c:956-987 | The canonical encoding (section 7.6 of DWARF 5) of every 64-bit unsigned number is read back, and no byte more is used. |
| Leb128.SlebRoundTrip | apache-tvm-src-v0.10.0/3rdparty/libbacktrace/dwarf.c:991-1025 | The same for every 64-bit signed number. |
| Leb128.Examples | apache-tvm-src-v0.10.0/3rdparty/libbacktrace/dwarf.c:956-1025 | Examples of the tables of section 7.6 of DWARF 5. |
| Leb128.DwarfBuf.Advance | apache-tvm-src-v0.10.0/3rdparty/libbacktrace/dwarf.c:776-784 | Moves only when enough bytes are left, and marks the buffer otherwise. |
| Leb128.DwarfBuf.ReadByte | apache-tvm-src-v0.10.0/3rdparty/libbacktrace/dwarf.c:807-815 | The next byte, or zero and a marked buffer. |
| Leb128.DwarfBuf.ReadUleb | apache-tvm-src-v0.10.0/3rdparty/libbacktrace/dwarf.c:956-987 | The loop reads the specified number, with bits above 64 dropped, and marks an unfinished one. |
| Leb128.DwarfBuf.ReadSleb | apache-tvm-src-v0.10.0/3rdparty/libbacktrace/dwarf.c:991-1025 | The same with sign extension. |
| Abbrevs.TableRoundTrip | apache-tvm-src-v0.10.0/3rdparty/libbacktrace/dwarf.c:1750-1819 | Reading the canonical encoding of any abbreviation table (section 7.5.3 of DWARF 5) gives the table and stops at its end. |
| Abbrevs.CountAbbrevs | apache-tvm-src-v0.10.0/3rdparty/libbacktrace/dwarf.c:1709-1736 | The counting pass succeeds exactly when a whole table is there, and counts its abbreviations. |
| Abbrevs.FillAttrs | apache-tvm-src-v0.10.0/3rdparty/libbacktrace/dwarf.c:1795-1811 | As many attributes as were counted, each within the array. |
| Abbrevs.FillAbbrevs | apache-tvm-src-v0.10.0/3rdparty/libbacktrace/dwarf.c:1750-1819 | The filling pass uses the bytes of the counting pass, never runs short, and fills exactly what was counted. |
| Abbrevs.ReadAbbrevs | apache-tvm-src-v0.10.0/3rdparty/libbacktrace/dwarf.c:1682-1829 | The table in the section, sorted by code; refused exactly when the offset is outside or the table is cut short. |
| Abbrevs.LookupAbbrev | apache-tvm-src-v0.10.0/3rdparty/libbacktrace/dwarf.c:1834-1857 | Finds a code exactly when it is there; with distinct codes the shortcut and the search agree. |
| Abbrevs.ReadAndLookup | apache-tvm-src-v0.10.0/3rdparty/libbacktrace/dwarf.c:1682-1857 | Any code of a canonical table is found with what was written under it, however the table was numbered. |
| LzmaRange.SplitBounds | apache-tvm-src-v0.10.0/3rdparty/libbacktrace/elf.c:2911-2926 | With probabilities in 31..2017 both parts of a split are at least 2^16 wide, so that one byte restores range >= 2^24. |
| LzmaRange.AdaptMoves | apache-tvm-src-v0.10.0/3rdparty/libbacktrace/elf.c:2916-2926 | A probability moves at every decision towards its outcome until it is at 31 or at 2017, and stays only there. |
| LzmaRange.ScaledGood | apache-tvm-src-v0.10.0/3rdparty/libbacktrace/elf.c:2886-2898 | One byte is enough to normalize. |
| LzmaRange.NormalizeDenotes | apache-tvm-src-v0.10.0/3rdparty/libbacktrace/elf.c:2881-2898 | Normalizing loses no bit of the code and keeps code < range. |
| LzmaRange.DecideExact | apache-tvm-src-v0.10.0/3rdparty/libbacktrace/elf.c:2911-2926 | The 32-bit product and difference never wrap: the decision is the exact one. |
| LzmaRange.BitDenotes | apache-tvm-src-v0.10.0/3rdparty/libbacktrace/elf.c:2905-2927 | One decision narrows the interval exactly; code < range is kept except at the last unit of an odd range that is halved. |
| LzmaRange.ReadsExactly | apache-tvm-src-v0.10.0/3rdparty/libbacktrace/elf.c:2881-2927 | The decoder reads exactly the decisions whose interval contains the input, in both directions. |
| LzmaRange.StaysInRange | apache-tvm-src-v0.10.0/3rdparty/libbacktrace/elf.c:3508-3522 | For every sequence of reads: code < range throughout if and only if no halving meets the last unit of an odd range; adaptive reads alone always keep it; range and probabilities stay in their bounds. |
| LzmaRange.LastUnitExactly | apache-tvm-src-v0.10.0/3rdparty/libbacktrace/elf.c:3344-3363 | Behind given decisions from the reset on, some input brings a halving to the last unit if and only if the range is odd there. |
| LzmaRange.LastUnitReached | apache-tvm-src-v0.10.0/3rdparty/libbacktrace/elf.c:3512-3521 | Then the code equals the range after the halving. |
| LzmaRange.OddAtReset | apache-tvm-src-v0.10.0/3rdparty/libbacktrace/elf.c:3344-3345 | The range is odd right after the reset. |
| LzmaOdd.FollowRange | apache-tvm-src-v0.10.0/3rdparty/libbacktrace/elf.c:2911-2926 | The range after decisions with different probabilities depends on these probabilities and the bits only. |
| LzmaOdd.PacketsMeetLastUnit | apache-tvm-src-v0.10.0/3rdparty/libbacktrace/elf.c:3508-3522 | Two matches at distance 4097 at the start of a chunk: some input brings the sixth direct bit of the second distance to the last unit of an odd range. |
| LzmaRange.RangeRoundTrip | apache-tvm-src-v0.10.0/3rdparty/libbacktrace/elf.c:2881-2927 | Every sequence of decisions has an encoding, and it is decoded to that sequence whatever surrounds it. |
| LzmaPackets.SlotOf | apache-tvm-src-v0.10.0/3rdparty/libbacktrace/elf.c:3480-3501 | Every slot and footer make up one distance of that slot. |
| LzmaPackets.SlotFooter | apache-tvm-src-v0.10.0/3rdparty/libbacktrace/elf.c:3480-3533 | Every distance of at least 4 is made up of a slot and a footer. |
| LzmaPackets.PacketListed | apache-tvm-src-v0.10.0/3rdparty/libbacktrace/elf.c:2713-2836 | Every probability that any packet uses lies within the array. |
| LzmaPackets.PacketsPart | apache-tvm-src-v0.10.0/3rdparty/libbacktrace/elf.c:3381-3652 | The decisions of different packets part: none is the beginning of another. |
| LzmaPackets.DistancesMove | apache-tvm-src-v0.10.0/3rdparty/libbacktrace/elf.c:3399-3461 | What a packet does to the four distances: a match puts its own in front of the three latest, a repetition moves its distance to the front and keeps the others in order, and nothing is lost. |
| LzmaPackets.StateMeans | apache-tvm-src-v0.10.0/3rdparty/libbacktrace/elf.c:3440-3459 | What the state stands for after any packets: how many literals came last, up to three, and what kind of packet came before them. |
| LzmaPackets.StateBelowSeven | apache-tvm-src-v0.10.0/3rdparty/libbacktrace/elf.c:3604-3612 | The state is below 7 exactly at the reset and after a literal. |
| LzmaStream.WriteMeans | apache-tvm-src-v0.10.0/3rdparty/libbacktrace/elf.c:3536-3651 | What a packet writes: its byte, or bytes that each equal the one at the distance that it has or repeats. |
| LzmaStream.PlaceMeans | apache-tvm-src-v0.10.0/3rdparty/libbacktrace/elf.c:3378-3612 | What the decisions depend on besides: the output modulo 2^pb; modulo 2^lp and the lc highest bits of the last byte; and the byte that a short repetition would write. |
| LzmaStream.PlayState | apache-tvm-src-v0.10.0/3rdparty/libbacktrace/elf.c:3369-3653 | The state while packets are written is that of all packets since the reset. |
| LzmaLayout.IndexInjective | apache-tvm-src-v0.10.0/3rdparty/libbacktrace/elf.c:2713-2836 | No two questions about a packet share a probability. |
| LzmaLayout.PacketAsks | apache-tvm-src-v0.10.0/3rdparty/libbacktrace/elf.c:3369-3653 | Every probability that a packet uses is that of a question about this packet, in its state and at its place. |
| LzmaStream.StreamUnique | apache-tvm-src-v0.10.0/3rdparty/libbacktrace/elf.c:3369-3653 | An input is read as packets in at most one way. |
| LzmaStream.StreamRoundTrip | apache-tvm-src-v0.10.0/3rdparty/libbacktrace/elf.c:3369-3653 | An encoded stream is decoded to the packets it was made from. |
| LzmaDecoder.RangeDecoder.NormalizeRange | apache-tvm-src-v0.10.0/3rdparty/libbacktrace/elf.c:2881-2899 | The update in place is the specified normalization, also at the end of the input. |
| LzmaDecoder.RangeDecoder.Bit | apache-tvm-src-v0.10.0/3rdparty/libbacktrace/elf.c:2904-2927 | One adaptive decision with its update of the probability. |
| LzmaDecoder.RangeDecoder.HalfBit | apache-tvm-src-v0.10.0/3rdparty/libbacktrace/elf.c:3512-3521 | The sign-mask arithmetic is one decision at even odds. |
| LzmaDecoder.RangeDecoder.Integer | apache-tvm-src-v0.10.0/3rdparty/libbacktrace/elf.c:2932-2951 | Reads the decisions of a bit tree, highest bit first. |
| LzmaDecoder.RangeDecoder.ReverseInteger | apache-tvm-src-v0.10.0/3rdparty/libbacktrace/elf.c:2956-2979 | Reads the decisions of a bit tree, lowest bit first. |
| LzmaDecoder.RangeDecoder.Length | apache-tvm-src-v0.10.0/3rdparty/libbacktrace/elf.c:2984-3033 | Reads the decisions of a length from 2 to 273. |
| LzmaDecoder.RangeDecoder.HalfBits | apache-tvm-src-v0.10.0/3rdparty/libbacktrace/elf.c:3507-3522 | Reads the direct bits of a distance. |
| LzmaDecoder.RangeDecoder.Footer | apache-tvm-src-v0.10.0/3rdparty/libbacktrace/elf.c:3482-3533 | Reads the bits of a distance below its slot. |
| LzmaDecoder.RangeDecoder.Distance | apache-tvm-src-v0.10.0/3rdparty/libbacktrace/elf.c:3470-3533 | Reads the decisions of a distance, with the slot chosen by the length. |
| LzmaDecoder.RangeDecoder.MatchedLiteral | apache-tvm-src-v0.10.0/3rdparty/libbacktrace/elf.c:3610-3635 | The masks on the match byte select the predicted trees until the first difference. |
| LzmaChunk.Decompressor.Literal | apache-tvm-src-v0.10.0/3rdparty/libbacktrace/elf.c:3590-3636 | Reads the decisions of a literal in its context. |
| LzmaChunk.Decompressor.RepeatedDistance | apache-tvm-src-v0.10.0/3rdparty/libbacktrace/elf.c:3399-3437 | Which of the four distances is repeated, and the new distances: those that DistancesMove describes. |
| LzmaChunk.Decompressor.RepeatedMatch | apache-tvm-src-v0.10.0/3rdparty/libbacktrace/elf.c:3394-3450 | Reads a short or long repeated match and updates state and distances. |
| LzmaChunk.Decompressor.NewMatch | apache-tvm-src-v0.10.0/3rdparty/libbacktrace/elf.c:3453-3534 | Reads a match with a new distance and updates state and distances. |
| LzmaChunk.Decompressor.CopyPacket | apache-tvm-src-v0.10.0/3rdparty/libbacktrace/elf.c:3536-3578 | Copies exactly when distance and length are within the output; distance 2^32 passes the test and never ends. |
| LzmaChunk.Decompressor.PutLiteral | apache-tvm-src-v0.10.0/3rdparty/libbacktrace/elf.c:3638-3651 | Writes one byte and steps the state, or is out of room. |
| LzmaChunk.Decompressor.Step | apache-tvm-src-v0.10.0/3rdparty/libbacktrace/elf.c:3371-3652 | One turn reads one packet and writes what it means; the exact conditions of each outcome. |
| LzmaRun.EndsUnique | apache-tvm-src-v0.10.0/3rdparty/libbacktrace/elf.c:3369-3653 | An input has one run: one sequence of packets and one way to end, as it should, refused at a packet, or stuck at one. |
| LzmaRun.PlanEnds | apache-tvm-src-v0.10.0/3rdparty/libbacktrace/elf.c:3369-3653 | An input with the decisions of packets that fill the chunk runs through these packets and ends as it should. |
| LzmaRun.MarkEnds | apache-tvm-src-v0.10.0/3rdparty/libbacktrace/elf.c:3536-3578 | An input with the decisions of packets and then of a match with distance 2^32 gets stuck there. |
| LzmaChunk.Decompressor.Run | apache-tvm-src-v0.10.0/3rdparty/libbacktrace/elf.c:3369-3656 | The loop ends if and only if, and in the way in which, the run over the packets of the input ends, stuck and failed runs included; what is written is what the packets before that mean. |
| LzmaChunk.CanEncode | apache-tvm-src-v0.10.0/3rdparty/libbacktrace/elf.c:3369-3656 | Every stream of packets has an encoding that an input can hold. |
| LzmaChunk.CanGetStuck | apache-tvm-src-v0.10.0/3rdparty/libbacktrace/elf.c:3548-3578 | So has every stream followed by a match with distance 2^32. |
| LzmaChunk.StuckInput | apache-tvm-src-v0.10.0/3rdparty/libbacktrace/elf.c:3548-3578 | There is an input that makes a decoder with an empty output write one literal and never end. |
| LzmaChunk.HeldPlanEnds | apache-tvm-src-v0.10.0/3rdparty/libbacktrace/elf.c:3359-3369 | Every input in the interval of the decisions of a stream of packets is read as these packets. |
| LzmaChunk.HeldMarkEnds | apache-tvm-src-v0.10.0/3rdparty/libbacktrace/elf.c:3359-3369 | The same for a stream that ends with distance 2^32: the run gets stuck. |
| LzmaChunk.DecodeChunk | apache-tvm-src-v0.10.0/3rdparty/libbacktrace/elf.c:3334-3658 | A chunk with state reset ends as the run over its packets does and writes exactly what they mean: for every input in the interval of a stream of packets that fills the chunk that is the stream, and every input that holds distance 2^32 gets stuck. |
| Adler.ChunkIsLongest | apache-tvm-src-v0.10.0/3rdparty/libbacktrace/elf.c:2425-2466 | 5552 is the longest chunk: its worst sum is below 2^32, and that of one byte more is not. |
| Adler.DeferredNext | apache-tvm-src-v0.10.0/3rdparty/libbacktrace/elf.c:2429-2462 | A byte within a chunk never overflows 32 bits and keeps the sums congruent to the definition. |
| Adler.Add | apache-tvm-src-v0.10.0/3rdparty/libbacktrace/elf.c:2427-2462 | A row of bytes without a reduction does the same. |
| Adler.Verify | apache-tvm-src-v0.10.0/3rdparty/libbacktrace/elf.c:2402-2523 | Succeeds exactly when the four bytes are the Adler-32 of the data by the byte-by-byte definition of section 8.2 of RFC 1950. |
| Adler.LettersChecksum | apache-tvm-src-v0.10.0/3rdparty/libbacktrace/elf.c:2402-2523 | The checksum of the letters abc is 0x024D0127, and these four bytes in this order are its check. |
| Adler.OneByteNoticed | apache-tvm-src-v0.10.0/3rdparty/libbacktrace/elf.c:2516-2520 | A change of any one byte changes the checksum. |
| Crc.EntryIsEight | apache-tvm-src-v0.10.0/3rdparty/libbacktrace/elf.c:460-514 | Every entry of the table is eight steps of the reflected polynomial on its index. |
| Crc.EightByTable | apache-tvm-src-v0.10.0/3rdparty/libbacktrace/elf.c:519 | Eight steps on a register are a table entry and a shift. |
| Crc.ByteIsEight | apache-tvm-src-v0.10.0/3rdparty/libbacktrace/elf.c:519 | Dividing by the bits of a byte is eight steps on the register with the byte added. |
| Crc.Crc32 | apache-tvm-src-v0.10.0/3rdparty/libbacktrace/elf.c:457-521 | The table-driven loop is the bitwise CRC of section 8 of RFC 1952, for every start value and data. |
| Crc.CheckValue | apache-tvm-src-v0.10.0/3rdparty/libbacktrace/elf.c:457-521 | The CRC of the nine digits 1 to 9 is 0xCBF43926. |
| Crc.Continues | apache-tvm-src-v0.10.0/3rdparty/libbacktrace/elf.c:517-520 | Continuing the CRC of a over b gives the CRC of a and b together. |
| Crc.OneByteNoticed | apache-tvm-src-v0.10.0/3rdparty/libbacktrace/elf.c:517-520 | A change of any one byte of the data changes the CRC. |
| CasList.StepKeepsInv | apache-tvm-src-v0.10.0/3rdparty/libbacktrace/elf.c:713-750 | Every step of every thread keeps the list null-terminated and acyclic, and completed appends stay in place. |
| CasList.ListIsSafe | apache-tvm-src-v0.10.0/3rdparty/libbacktrace/dwarf.c:4247-4384 | In every run: the pointers form a chain of exactly the completed appends, each once; it only grows at its end; a traversal that reaches the end has seen every append completed before it began. |
| CasList.ChainUnique | apache-tvm-src-v0.10.0/3rdparty/libbacktrace/elf.c:734-744 | The pointers determine the list. |
| CasList.FailureMeansProgress | apache-tvm-src-v0.10.0/3rdparty/libbacktrace/elf.c:746-748 | A swap fails only if another append was completed meanwhile. |
| CasList.AloneFinishes | apache-tvm-src-v0.10.0/3rdparty/libbacktrace/elf.c:716-747 | A thread that runs alone appends its node within a bounded number of steps. |
| CasList.StepRead | apache-tvm-src-v0.10.0/3rdparty/libbacktrace/elf.c:781-794 | A reader that meets the end has seen the whole list. |
| Publish.PublishedConsistently | apache-tvm-src-v0.10.0/3rdparty/libbacktrace/dwarf.c:4052-4107 | If all threads read tables of the same sizes, a thread that loads a lines pointer gets counts and tables that fit together, in every interleaving of the four stores. |
| Publish.PublishedData | apache-tvm-src-v0.10.0/3rdparty/libbacktrace/dwarf.c:4086-4107 | If all threads read equal data, that data is what is loaded. |
| Publish.DifferentSizesRace | apache-tvm-src-v0.10.0/3rdparty/libbacktrace/dwarf.c:4086-4107 | If two threads would read tables of different sizes, some interleaving gives one of them a table with the count of the other. |
| Publish.ConsistentExactly | apache-tvm-src-v0.10.0/3rdparty/libbacktrace/dwarf.c:4086-4107 | The stores need no lock if and only if all threads read tables of the same sizes. |
| Tiling.NameLoops | tvm_test/matmul/get_tiling.py:100-115 | Loops are numbered in each dimension, and the sizes collected are those along each dimension. |
| Tiling.VirtualLoops | tvm_test/matmul/get_tiling.py:117-129 | One loop for each dimension, of as many rows as there are different offsets. |
| Tiling.AddVirtual | tvm_test/matmul/get_tiling.py:117-131 | The virtual threads are innermost, and the products along the dimensions are those of all loops. |
| Tiling.UnrollStart | tvm_test/matmul/get_tiling.py:154-161 | The unrolled part is within the factor apart from loops whose name starts with vthread, and one loop more would not be. |
| Tiling.UnrollsLongest | tvm_test/matmul/get_tiling.py:156-161 | A loop is unrolled if and only if it and all loops inside it pass the test; if no loop is empty, the test of the first loop from there inwards whose name does not start with vthread decides. |
| Tiling.DivideOut | tvm_test/matmul/get_tiling.py:163-174 | Every division is exact: what is left are the products of the unrolled loops; fails exactly on a loop of size zero. |
| Tiling.UnrollKeepsWork | tvm_test/matmul/get_tiling.py:163-174 | For every loop list, M_unroll * N_unroll * K_unroll times the trip count of the other loops is M_thread * N_thread * K_in times the trip count of the loops among them that run over none of the three dimensions; so it is M_thread * N_thread * K_in if and only if that trip count is 1 or the product is 0. |
| TilingCounts.SplitBlocks | tvm_test/matmul/get_tiling.py:88-94 | The splits of blocks, if and only if nothing is divided by zero and the number of blocks agrees. |
| TilingCounts.Tile | tvm_test/matmul/get_tiling.py:88-174 | The script gets to its end if and only if the sizes agree, and then all its numbers are right. |
| TilingCounts.ThreadWork | tvm_test/matmul/get_tiling.py:150-174 | Unrolling only regroups the work of a thread, if and only if the loops that are not unrolled and run over none of the three dimensions make one trip. |
| TilingCounts.OutputOnce | tvm_test/matmul/get_tiling.py:221-224 | block_num * thread_num * local_size is M * N if and only if the splits are exact, and never more. |
| TilingCounts.WorkDone | tvm_test/matmul/get_tiling.py:210-218 | The work is the number of multiplications covered times the trips of the other loops; all M * N * K are covered if and only if all splits are exact. |
| TilingCounts.WorkOnce | tvm_test/matmul/get_tiling.py:210-218 | With one trip of the other loops all M * N * K multiplications are done once if and only if the splits are exact, and with exact splits if and only if there is one trip. |
| TilingCounts.LoadedTraffic | tvm_test/matmul/get_tiling.py:203-207 | What the blocks load is j_block * M * K + i_block * K * N if and only if the block splits are exact, and never more. |
| TilingCounts.UnevenAccepted | tvm_test/matmul/get_tiling.py:88-148 | A kernel of five rows in blocks of two is accepted, covers 16 of its 20 results and loads 24 elements where the formula has 26. |
| TilingCounts.OuterAccepted | tvm_test/matmul/get_tiling.py:88-218 | A kernel with a loop of three trips around i, j and k is accepted with exact splits; the loop is not unrolled, and the work counted is three times M_thread * N_thread * K_in: 24 multiplications where the product has 8. |

## Left out

- InflateStream.InflateBlocks: the two fixed tables are parameters that read the fixed codes, as the tables of `BuildFixed` do; the printed entries are not compared with them one by one.
- Stored DEFLATE blocks and the realignment after them, the zlib header and concatenated streams.
- The xz container, its varints, the properties byte, and LZMA2 chunks that are uncompressed or keep the state of the chunk before.
- FloatConvert.Truncate: words of 17 to 31 bits, which no platform has, are modelled with the overflow of the sticky test only; other shifts of such words could overflow an int as well.
- FloatExtend.Extend: for source formats of at most 32 bits, since leading zeros are counted in 32 bits.
- Formats with fewer than two dropped fraction bits, where the sticky bit meets the rounding bit.
- Growing, finishing and releasing vectors in mmap.c: in the allocator model threads may split blocks that they own, which is all that these do to it.
- Failing unmaps are modelled; the error callbacks of failing maps are not.
- Weak memory: CasList, Publish and Allocator interleave atomic steps, as the acquire and release operations in the code are meant to give.
- Numbers in JSON are an abstract printer and reader that agree with each other; strtod, snprintf and locales are not modelled. Line numbers of error messages and the context that discards values are left out.
- Reading DWARF units, line programs and functions: the tables that they yield are inputs of the lookup. Callbacks that stop a lookup early and the construction of absolute file names are left out.
- Error messages for LEB128 numbers that overflow; their value is modelled.
- Division in the tiling script is exact division rounded down, which its floating-point division equals below 2^53. Parsing of the generated kernel is left out; the loops are an input.
- Section discovery in ELF, Mach-O, PE and XCOFF files, debug file search and the unwinder.
- All other scripts, benchmark applications and bundle code.
