# A verified model of the agent bus: pairing code, record authentication, terminal, transport, supervision

This project models five components in which a host supervises coding agents and a small handheld device shows and
answers for them, and proves what they are for.

* **The pairing code.** The host draws a QR symbol (`host/src/qr.ts`), the device's camera code reads it
  (`client/source/quirc.c`). Modules `Bits` to `EndToEnd`: the field tables of both sides, Reed-Solomon encoding, the
  decoder's Berlekamp-Massey, root search and Forney quotients up to half the parity, block interleaving, function
  patterns, the zigzag, masks, format information, bit packing, and the round trip over all of them, for every payload
  and also from a symbol with damaged modules; `Misread` is a payload that depends on repair. `Segments` reads segments
  of every mode, `FloodFill` is the decoder's bounded-stack span fill. `SymbolLaws`, `StreamLaws`, `CodeWords` and
  `VersionLaws` compare symbols, codewords and tables with the figures of ISO/IEC 18004, module by module and byte by byte.
* **Record authentication.** `PolyLimbs` and `Poly1305`: the 32-bit limb arithmetic of `client/source/monocypher.c` with
  its lazy carries, in machine integers, and the incremental interface, against section 2.5 of RFC 8439.
* **The terminal.** `TermModel` is a terminal as (scrollback, screen, cursor, attribute, parser phase); `Terminal` is the
  ring of rows of `client/source/term.c`, which refines it byte by byte. `TermLaws` says what each control byte and
  escape sequence does to the model.
* **The sealed stream.** `Framing` (length prefixes and chunking), `Transport` (both sides and a network that may deliver
  any bytes, as a state machine), `HostTransport` and `DeviceTransport` (the two ends' code, refining its steps).
* **Supervision.** `BoardModel` and `Board` (the device's packed table with its blocked-first index, cursor and approval
  cooldown), `Approvals` and `Bridge` (the host's rows and device ids under any interleaving of daemon events).
  `BoardLaws` and `BridgeLaws` spell out what each operation does and what the device is told.

Code that changes state in place is a class or a method over arrays here too; its contract names the new state by a
specification function, and the lemmas are about these functions; the modules named Laws, and the examples of the
standards, say what these functions mean without naming them in turn. Some facts came out of the proofs rather than the
documentation. For a block with one extra data byte the decoder reads that byte at `j * bc + i`
(`client/source/quirc.c:1309-1310`), the encoder writes it at `dw * bc + (i - ns)` (`host/src/qr.ts:156-158`): gathering
is exact if and only if `Codestream.GatheredIntact`'s condition holds; `Misread` gives a payload for which it does not,
and the two long blocks of version 10 depend on the repair of that byte. A device can be told the state of a session
after its end (`host/src/herdr/bridge.ts:678-684`), exactly when `Bridge.LateIff` says. The ECI the decoder reports
still has the bits that tell its length, so it is the assignment number promised in `client/source/quirc.h:154` only
below 128 (`Segments.EciRead`, `Segments.EciExample`). The flood fill leaves pixels out where its stack is too small for
the shape (`FloodFill.TwoPixels`). The decoder's table of the forty versions is the standard's but for one alignment
coordinate of version 21, 92 instead of 94 (`client/source/quirc.c:377`, `VersionLaws.VersionTable`,
`VersionLaws.MisplacedLine`); the encoder draws versions 1 to 10 only. The comment in `protocol/src/secureFrame.ts` gives
the context 12 bytes; its constant, and the model, have 15.

## Model

| member | source | states |
|---|---|---|
| `EndToEnd.RoundTripUndamaged` | host/src/qr.ts:352-388 | For every byte string of at most 271 bytes and every penalty function, decoding the drawn symbol gives success, data type 4 and exactly those bytes. |
| `EndToEnd.RoundTrip` | client/source/quirc.c:1595-1645 | The same with an arbitrary set of modules inverted, as long as at most three are in the format copy the decoder uses and each block has at most half as many hit codewords as parity bytes (one fewer for the long blocks of version 10). The first copy is used whenever at most three of its modules are hit. A payload is refused exactly when it is longer than 271 bytes, and the smallest version that holds it is used. |
| `EndToEnd.Recoverable` | client/source/quirc.c:1633-1644 | From any raw bits read off a lightly damaged symbol, the sent blocks are within the repair radius and the repaired stream starts with the payload's byte segment. |
| `EndToEnd.WrongAreHits` | client/source/quirc.c:1256-1281 | The number of wrong codewords in a received block is at most the number of its codewords with a damaged module. |
| `EndToEnd.UndamagedIsLight` | client/source/quirc.c:1309-1310 | Without damage the conditions of RoundTrip hold in every version and for both format copies, so the misread byte of version 10 is always within the repair radius. |
| `EndToEnd.FormatStillReadable` | client/source/quirc.c:1127-1165 | A format copy of the photographed symbol is readable if and only if at most three of its modules are damaged. |
| `Galois.MulDistrib` | client/source/quirc.c:747-836 | Multiplication through any log and exponent tables that iterate one shift-and-reduce step distributes over xor. |
| `Galois.MulAssoc` | client/source/quirc.c:747-836 | Table multiplication is associative. |
| `Galois.MulInv` | client/source/quirc.c:747-836 | Every nonzero element times its inverse is 1. |
| `Galois.PowEq` | client/source/quirc.c:747-836 | Equal powers of alpha have exponents equal modulo the field's period, so alpha is primitive. |
| `Galois.QuotientTable` | client/source/quirc.c:920 | exp[(p - log b + log d) mod p] is d divided by b, also with the table's unusual log[1] = p. |
| `Tables.Gf256IsField` | client/source/quirc.c:762-836 | The two literal 256-entry tables are a power table and its logarithms of x^8+x^4+x^3+x^2+1: every entry is one shift-and-reduce step from the previous one and every nonzero element has its logarithm. |
| `Tables.Gf16IsField` | client/source/quirc.c:746-760 | The same for the 16-entry tables of x^4+x+1. |
| `Polynomials.RootCount` | client/source/quirc.c:1030-1042 | A polynomial of degree at most d with nonzero constant term has at most d inverse roots in the field. |
| `BerlekampMassey.PolyAdd` | client/source/quirc.c:842-862 | dst becomes dst + c * x^shift * src, coefficient by coefficient, for positive and negative shifts, dropping what falls outside the 64 entries. |
| `BerlekampMassey.Discrepancy` | client/source/quirc.c:907-918 | The inner loop returns the convolution coefficient that the new syndrome should have made zero. |
| `BerlekampMassey.Run` | client/source/quirc.c:890-940 | For either field and any N < 64 syndromes, sigma has constant term 1 and degree at most L <= N, generates all syndromes from L to N, and no polynomial of smaller length does. |
| `BerlekampMassey.StepGrows` | client/source/quirc.c:924-932 | When twice the length is at most n, the corrected polynomial of length n + 1 - L keeps the loop's invariant, including that L is minimal. |
| `BerlekampMassey.StepRepairs` | client/source/quirc.c:933-936 | Otherwise the correction with the unchanged length keeps the invariant. |
| `ErrorTheory.Vandermonde` | client/source/quirc.c:948-973 | If as many power sums of weighted distinct units as there are units vanish, all weights are zero. |
| `ErrorLocation.LocatorGenerates` | client/source/quirc.c:975-1004 | The product of (1 - X x) over the error locators generates the syndromes from the number of errors on. |
| `ErrorLocation.ShortestLocates` | client/source/quirc.c:890-940 | When the syndromes are power sums of e errors and 2e <= N, any shortest generator has length e and its inverse roots include all e locators. |
| `ErrorLocation.OnlyLocators` | client/source/quirc.c:1030-1042 | Such a generator has no other inverse root. |
| `Forney.ConvQuotient` | client/source/quirc.c:975-1004 | Coefficient n of sigma times the syndromes is the sum over the errors of magnitude times the coefficient of sigma divided by the error's linear factor. |
| `Forney.Magnitude` | client/source/quirc.c:1034-1040 | Omega at the inverse locator divided by the formal derivative of sigma there is the error's magnitude; both are nonzero. |
| `Syndromes.SyndromesOfErrors` | client/source/quirc.c:948-973 | Syndromes of a received block are the power sums of the locators and magnitudes of its wrong bytes. |
| `CorrectBlock.PolyEval` | client/source/quirc.c:864-884 | Evaluation through the log tables is the field value of the polynomial, also at 0 and at 1. |
| `CorrectBlock.BlockSyndromes` | client/source/quirc.c:948-973 | s[i] is the block evaluated at alpha^i for i < npar and 0 beyond; the flag is set exactly when the block is not a codeword. |
| `CorrectBlock.ElocPoly` | client/source/quirc.c:975-1004 | omega holds the first n coefficients of sigma times the syndromes from the second on. |
| `CorrectBlock.Derivative` | client/source/quirc.c:1022-1025 | The second polynomial is the formal derivative over characteristic 2: odd coefficients moved down, even ones zero. |
| `CorrectBlock.FixRoots` | client/source/quirc.c:1030-1042 | The in-place loop changes exactly the bytes whose position is a root of sigma, each by its Forney quotient, and nothing outside the block. |
| `CorrectBlock.FixedIsCodeword` | client/source/quirc.c:1006-1048 | When some codeword differs from the block in at most npar/2 bytes, the roots and quotients turn the block into that codeword. |
| `CorrectBlock.Correct` | client/source/quirc.c:1006-1048 | correct_block restores every codeword from any at most floor(npar/2) wrong bytes, reports success exactly when the result is a codeword, and touches nothing else. |
| `CorrectBlock.NearCodeword` | client/source/quirc.c:1016-1018 | A block that is already a codeword is the only codeword within npar/2 bytes of it, so the early return is right. |
| `CorrectBlock.MinimumDistance` | client/source/quirc.c:948-973 | Two codewords that differ in at most as many bytes as there are parity bytes are equal. |
| `RsEncode.BuildTables` | host/src/qr.ts:69-80 | The encoder's doubled exponent table and logarithm table, built by shift and reduce, hold the powers of alpha and their exponents. |
| `RsEncode.GfMulIsMul` | host/src/qr.ts:82-85 | gfMul is the decoder's field multiplication although the two tables give log 1 differently (0 and 255). |
| `RsEncode.RsGenerator` | host/src/qr.ts:88-99 | The generator of degree n is monic of that degree and vanishes at alpha^0 to alpha^(n-1). |
| `RsEncode.RsEncode` | host/src/qr.ts:102-113 | Data followed by the remainder register is a codeword: every syndrome of the decoder is 0. |
| `Versions.TablesAgree` | host/src/qr.ts:23-54 | For versions 1 to 10 the encoder's block groups, parity counts, alignment coordinates and capacities describe the same blocks as the decoder's version table at level L. |
| `VersionLaws.VersionTable` | client/source/quirc.c:173-575 | For every version, total codewords, and blocks and parity bytes of all four levels, are those of ISO/IEC 18004; the alignment coordinates are those of its rule if and only if the version is not 21. |
| `VersionLaws.MisplacedLine` | client/source/quirc.c:375-384 | In version 21 the last coordinate is 92 and the rule gives 94, so the decoder takes module (96, 96) for data and passes over (90, 90). |
| `Codestream.Interleave` | host/src/qr.ts:143-163 | The blocks cut from the codewords concatenate to them, each with its parity is a codeword, and the output is the column-by-column sequence of data then parity. |
| `Codestream.PlacedSent` | host/src/qr.ts:149-162 | Reading an interleaved stream at the positions where the encoder puts block i gives that block back. |
| `Codestream.GatheredIntact` | client/source/quirc.c:1301-1312 | What the decoder gathers as block i is the sent block if and only if the block is short or the byte at j * bc + i for its last data byte happens to equal it. |
| `Codestream.LongBlocksOfTen` | client/source/quirc.c:1309-1310 | In version 10 the third and fourth block are gathered as sent if and only if the first parity byte of the first and second block equals their last data byte. |
| `Misread.ZeroParity` | host/src/qr.ts:102-113 | A block of zeros has zero parity. |
| `Misread.FourthBlockMisread` | client/source/quirc.c:1309-1310 | In every symbol drawn for 270 zero bytes and a one, the decoder gathers the fourth block otherwise than it was sent. |
| `Misread.Symbol` | host/src/qr.ts:352-388 | The encoder, given that payload, draws such a version 10 symbol, under any penalty. |
| `Codestream.MisreadDistance` | client/source/quirc.c:1309-1310 | The misread costs a long block at most one wrong byte on top of those the channel damaged, and a short block none. |
| `Codestream.CodestreamEcc` | client/source/quirc.c:1283-1324 | On success the output is the concatenated data parts of codewords of the right lengths; and if every gathered block is within npar/2 bytes of the sent one, it succeeds and the output is the sent data. |
| `Codestream.TolerableIsRepairable` | client/source/quirc.c:1283-1324 | Blocks damaged in at most half their parity, less the misread byte for long ones, arrive within the repair radius. |
| `Codestream.SentIsTolerable` | client/source/quirc.c:1283-1324 | An undamaged interleaved stream meets that condition whenever long blocks have two parity bytes, so de-interleaving inverts interleaving. |
| `Payload.BuildCodewords` | host/src/qr.ts:117-140 | The codewords have exactly the version's length: bit by bit the mode 4, the length in 8 or 16 bits, the payload and four zero bits, then 0xec and 0x11 in turn to the end. |
| `Payload.DataStream.TakeBits` | client/source/quirc.c:1331-1348 | Returns the next len bits as a number, highest first, fewer at the end of the stream, and advances by as many. |
| `Payload.DecodeByte` | client/source/quirc.c:1462-1482 | The state afterwards is that of one byte segment read at the cursor: count in 8 or 16 bits, overflow and underflow tests, the bytes appended to whatever payload there was, nothing appended on an error. |
| `Payload.NumericTuple` | client/source/quirc.c:1350-1369 | Too few bits leave everything as it was; otherwise the cursor moves by the width and the low decimal places of the number are appended as digits, the highest first. |
| `Payload.AlphaTuple` | client/source/quirc.c:1407-1430 | The same in base 45 with the characters of the alphanumeric set. |
| `Payload.DecodeNumeric` | client/source/quirc.c:1371-1405 | The state afterwards is that of a numeric segment: count in 10, 12 or 14 bits, overflow test, then tuples of three, two and one digits; where the stream ends within a tuple, underflow with the tuples before it kept. |
| `Payload.DecodeAlpha` | client/source/quirc.c:1432-1460 | The same for an alphanumeric segment: count in 9, 11 or 13 bits, tuples of two and one. |
| `Payload.DecodeKanji` | client/source/quirc.c:1484-1522 | Count in 8, 10 or 12 bits, overflow and underflow tests, then two bytes for each 13 bits. |
| `Payload.DecodeEci` | client/source/quirc.c:1524-1545 | One to three bytes by the leading bits of the first, or underflow with what was read so far. |
| `Segments.TextParses` | client/source/quirc.c:1371-1460 | A numeric or alphanumeric segment of any text as ISO/IEC 18004 encodes it, in any version, reads as success, its type and exactly that text. |
| `Segments.KanjiBack` | client/source/quirc.c:1502-1519 | Every character of the two Shift JIS ranges comes back from its 13 bits. |
| `Segments.KanjiParses` | client/source/quirc.c:1484-1522 | A kanji segment as ISO/IEC 18004 encodes it reads as success, type 8 and its characters, two bytes each. |
| `Segments.EciRead` | client/source/quirc.c:1524-1545 | For every assignment number as ISO/IEC 18004 encodes it, what is read is the number together with its leading bits, and the number itself if and only if it is below 128. |
| `Segments.EciExample` | client/source/quirc.c:1533-1537 | The two bytes that ISO/IEC 18004 prescribes for assignment 128 are reported as 0x8080. |
| `Payload.DecodePayload` | client/source/quirc.c:1547-1593 | For every stream, with segments of all five kinds: the result, payload, data type and ECI are those of reading segment after segment, the data type being the highest, up to a terminator, an unknown mode, an error, or fewer than four bits; on success a zero byte follows. |
| `Payload.SegmentParses` | client/source/quirc.c:1547-1593 | A stream that begins with one byte segment, behind which there is a terminator or no room for one, reads as success, type 4 and exactly its bytes. |
| `Segments.ParsePrefix` | client/source/quirc.c:1331-1348 | What a stream says, in any mode, depends on its first data_bits bits only. |
| `StreamLaws.MixedSegments` | client/source/quirc.c:1371-1593 | Eighteen bytes with a numeric, an alphanumeric and a kanji segment, encoded by hand as ISO/IEC 18004 prescribes, read as 01234567AC-42 and the two kanji in Shift JIS, with type 8. |
| `StreamLaws.CountWidths` | client/source/quirc.c:1371-1522 | The character count has 10, 12 or 14 bits in numeric, 9, 11 or 13 in alphanumeric, 8 or 16 in byte and 8, 10 or 12 in kanji mode. |
| `StreamLaws.ByteOutcome` | client/source/quirc.c:1462-1482 | A byte segment overflows exactly when its bytes and a zero exceed 8896, underflows exactly when fewer bits are left than it announces, and is appended otherwise. |
| `Format.BchRoots` | client/source/quirc.c:1060-1080 | The format generator polynomial vanishes at alpha^1 to alpha^6 of GF(16). |
| `Format.FormatWordOk` | host/src/qr.ts:226-229 | The five format bits followed by the encoder's ten remainder bits form a word with zero syndromes whose high bits are the five bits. |
| `Format.FormatSyndromes` | client/source/quirc.c:1060-1080 | The six syndromes of a 15-bit word, and whether the word is no code word. |
| `Format.NearFormatSame` | client/source/quirc.c:1092-1093 | A code word within three bits of another is that one. |
| `Format.CorrectFormat` | client/source/quirc.c:1082-1107 | Every format word is restored from any at most three wrong bits, and success always means that the result is a code word. |
| `Geometry.SpacedDb` | client/source/quirc.c:173-575 | Alignment coordinates of all forty versions are at least five apart, so a row or column is near at most one. |
| `Geometry.NearestLine` | client/source/quirc.c:1216-1224 | The search over alignment coordinates returns one within two modules of the index, and -1 only if there is none. |
| `Geometry.ReservedCell` | client/source/quirc.c:1183-1237 | The code's case analysis says reserved exactly for finders with format strips, timing lines, version blocks and alignment patterns, for all forty versions. |
| `Geometry.PathInjective` | host/src/qr.ts:259-275 | The zigzag visits no module twice. |
| `Geometry.PathCovers` | client/source/quirc.c:1256-1281 | The zigzag visits every module outside column 6. |
| `GridCapacity.AlignedSame` | host/src/qr.ts:208-218 | The encoder's alignment patterns cover exactly the modules of the decoder's alignment test in versions 1 to 10. |
| `GridCapacity.ReservedSame` | client/source/quirc.c:1183-1237 | reserved_cell is the encoder's isFunction map in versions 1 to 10. |
| `GridCapacity.ColumnCount` | client/source/quirc.c:1183-1237 | A closed form for the number of data modules in each column. |
| `GridCapacity.CodewordsFit` | host/src/qr.ts:259-275 | The data modules of versions 1 to 10 are exactly eight for each codeword, and seven left over in versions 2 to 6. |
| `Grid.Grid.Set` | host/src/qr.ts:173-176 | One module gets its colour and is marked as function module; no other changes. |
| `Grid.Grid.DrawFinder` | host/src/qr.ts:178-188 | The 9 by 9 window clipped to the symbol is drawn as a finder with its separator, and nothing else. |
| `Grid.Grid.DrawAlignment` | host/src/qr.ts:190-196 | A 5 by 5 alignment pattern, and nothing else. |
| `Grid.Grid.DrawTiming` | host/src/qr.ts:199-203 | Row 6 and column 6 alternate, dark on even indices. |
| `Grid.Grid.DrawAlignments` | host/src/qr.ts:208-218 | A pattern in its colours at each pair of coordinates except the three under finders. |
| `Grid.Grid.DrawFormatBits` | host/src/qr.ts:225-241 | Both copies of the fifteen bits at their places, and the dark module. |
| `Grid.Grid.DrawVersionBits` | host/src/qr.ts:244-256 | Both copies of the eighteen version bits from version 7 on, and nothing before. |
| `Grid.Grid.DrawFunctionPatterns` | host/src/qr.ts:198-221 | On an empty grid exactly the function modules of the version are marked; finders, alignment patterns, version blocks, timing lines and the dark module have their colours; all data modules stay light. |
| `Grid.CrossingsAgree` | host/src/qr.ts:198-221 | Where a timing line crosses an alignment pattern both have the same colour, so the later drawing does not spoil the earlier. |
| `Grid.FormatRemainder` | host/src/qr.ts:226-229 | The shift-and-xor loop computes the masked format word of level L and the mask. |
| `Grid.VersionSmall` | host/src/qr.ts:246-248 | The version remainder never leaves twelve bits. |
| `QrEncode.PlaceBit` | host/src/qr.ts:264-271 | One step of the zigzag writes the next bit into a free module and skips function modules and the end of the data. |
| `QrEncode.DrawData` | host/src/qr.ts:259-275 | After drawing, the free module at each zigzag position holds the bit of that position, leftover modules are light, and function modules are kept. |
| `QrEncode.ApplyMask` | host/src/qr.ts:298-304 | No function module changes, and of the data modules exactly those change that the mask of that number of ISO/IEC 18004 inverts: 0 where row and column have one parity, 1 in even rows, 2 in columns divisible by 3, 3 where their sum is divisible by 3, 4 to 7 by one period of each pattern, drawn in the contract. |
| `QrEncode.MaskPictures` | host/src/qr.ts:277-296 | For each of the eight numbers and every row and column, whether a module is inverted: by residues for 0 to 3, by a drawn period of the pattern for 4 to 7. |
| `QrEncode.MaskTwice` | host/src/qr.ts:298-304 | Applying the same mask twice restores the matrix. |
| `QrEncode.ChooseMask` | host/src/qr.ts:373-386 | The result is the matrix under the first of the eight masks with the lowest penalty, with that mask's format bits; trying the others leaves no trace. |
| `QrEncode.ChooseVersion` | host/src/qr.ts:352-361 | The smallest version that holds the payload, and none exactly beyond 271 bytes. |
| `QrEncode.FindersStay` | host/src/qr.ts:178-188 | Data, mask and format bits leave the three finders as drawn. |
| `QrEncode.PatternsStay` | host/src/qr.ts:369-387 | Data, mask and format bits leave finders, alignment patterns, version blocks, timing lines and the dark module as drawn. |
| `QrEncode.Combined` | host/src/qr.ts:373-387 | A masked candidate shows the interleaved stream under its mask and the format word of that mask in both copies. |
| `QrEncode.QrEncode` | host/src/qr.ts:352-388 | Fails exactly beyond 271 bytes; otherwise the symbol of the smallest version shows, under one of eight masks, the interleaved codewords of payload and padding, the format word of that mask in both copies, and every function pattern in its colours. What these names mean in modules and bytes is in `SymbolLaws` and `StreamLaws`. |
| `SymbolLaws.VersionFor` | host/src/qr.ts:23-65 | A version is the smallest for a length if and only if the length is between the listed capacities 17, 32, 53, 78, 106, 134, 154, 192, 230 and 271. |
| `CodeWords.FormatWords` | host/src/qr.ts:225-230 | The format words of the eight masks are 0x77c4, 0x72f3, 0x7daa, 0x789d, 0x662f, 0x6318, 0x6c41 and 0x6976. |
| `SymbolLaws.FormatPicture` | host/src/qr.ts:231-240 | The module at each of the thirty places of the two copies shows its bit of the word for the mask the data modules are under. |
| `CodeWords.VersionWords` | host/src/qr.ts:244-249 | The version words of versions 7 to 10 are 0x07c94, 0x085bc, 0x09a99 and 0x0a4d3. |
| `SymbolLaws.VersionPicture` | host/src/qr.ts:250-256 | Their eighteen bits stand in the lower left and, transposed, in the upper right block. |
| `SymbolLaws.FinderPicture` | host/src/qr.ts:178-188 | The upper left finder with its separator is the drawn eight by eight picture; the other two are its mirror images. |
| `SymbolLaws.TimingPicture` | host/src/qr.ts:199-203 | Both timing lines are dark at even places between the finders, and the dark module is dark. |
| `SymbolLaws.AlignmentPicture` | host/src/qr.ts:208-218 | Around every pair of the listed centre lines outside the finder corners the five by five pattern is as drawn. |
| `SymbolLaws.DataPicture` | host/src/qr.ts:259-275 | The module at step t of column pair k, its row and column written out, is the bit of the stream counted by the free modules before it, highest bit of a byte first, inverted where the mask says so. |
| `SymbolLaws.BitAtIs` | host/src/qr.ts:269 | Bit k of a byte of the stream is the byte divided by 128, 64, ... 1, modulo 2. |
| `StreamLaws.DataCodewordsAre` | host/src/qr.ts:117-140 | In versions 1 to 9 the data codewords are, half a byte off, 4, the length, the payload and 0, and then 0xec and 0x11 in turn, with the version's listed total. |
| `StreamLaws.DataCodewordsOfTen` | host/src/qr.ts:117-140 | The same for version 10 with its length in sixteen bits. |
| `StreamLaws.BlockTable` | host/src/qr.ts:23-40 | Blocks, data and parity bytes a block of level L in versions 1 to 10, as listed. |
| `StreamLaws.StreamData` | host/src/qr.ts:156-158 | Byte j of block i is codeword dw * i + j (one more in the fourth block of version 10) and goes to place bc * j + i of the stream. |
| `StreamLaws.StreamLong` | host/src/qr.ts:156-158 | The last bytes of the two long blocks of version 10 are codewords 204 and 273 and go to places 272 and 273. |
| `StreamLaws.StreamParity` | host/src/qr.ts:159-161 | Parity byte j of block i goes to place bc * j + i behind all data bytes. |
| `StreamLaws.TimesTwo` | host/src/qr.ts:72-79 | Multiplication by 2 in the code's field is a shift, less 0x11d on overflow. |
| `StreamLaws.SmallestGenerator` | host/src/qr.ts:88-99 | The block 1, 3, 2 is a codeword with two parity bytes and 1, 2, 3 is not, which fixes the first root and the order of the bytes. |
| `QrDecode.Extract` | client/source/quirc.c:2791-2799 | Bit i * size + j of the bitmap is the sampled colour of row i, column j. |
| `QrDecode.FirstCopyPlaces` | client/source/quirc.c:1143-1151 | The first format copy is read where the encoder drew it, bit for bit. |
| `QrDecode.ReadFormatWord` | client/source/quirc.c:1127-1152 | Bit i of the word is the module at the i-th place of the chosen copy. |
| `QrDecode.DamageIsDistance` | client/source/quirc.c:1127-1165 | Distance of the unmasked word from a format word is the number of wrong modules of the copy. |
| `QrDecode.ReadFormat` | client/source/quirc.c:1127-1165 | A copy with at most three wrong modules yields the level and mask that were sent. |
| `QrDecode.MasksAgree` | client/source/quirc.c:1167-1181 | The decoder's mask function is the encoder's for all eight masks, so that `QrEncode.MaskPictures` draws it too. |
| `QrDecode.PosEarlier` | client/source/quirc.c:1239-1254 | Data modules earlier on the zigzag have smaller bit positions, so writing one bit leaves the earlier ones. |
| `QrDecode.ReadBit` | client/source/quirc.c:1239-1254 | One free module, unmasked, becomes the next bit of the raw stream and the earlier bits are kept. |
| `QrDecode.ReadData` | client/source/quirc.c:1256-1281 | The raw stream holds the unmasked free modules in zigzag order, all of them. |
| `QrDecode.DecodeStream` | client/source/quirc.c:1634-1644 | Either a block cannot be repaired, which never happens within the repair radius, or the result, type, bytes and ECI are what the data parts of codewords of the version and level say; a repairable stream with a byte segment decodes to success, type 4 and its bytes. |
| `QrDecode.QuircDecode` | client/source/quirc.c:1595-1645 | The two size errors occur exactly for wrong sizes, the format error only if neither copy is within three modules of a format word; otherwise the mask whose number the copy in use gives is undone on all data modules (`SymbolLaws.ReadPicture`, `QrEncode.MaskPictures`), and the result is that of the repaired blocks. A readable copy gives its level and mask, and a repairable stream its bytes. |
| `SymbolLaws.SampledModule` | client/source/quirc.c:1121-1125 | Module (r, c) is bit q of byte p of the bitmap with 8p + q = r * size + c. |
| `SymbolLaws.ReadPicture` | client/source/quirc.c:1239-1281 | Bit 8i + j of the raw stream is the module at that step of the zigzag, its row, column and place in the bitmap written out, inverted where the mask says so. |
| `PolyLimbs.ProductColumns` | client/source/monocypher.c:318-342 | The five column sums with the folded multipliers (r >> 2) * 5 are the product of the limbs modulo 2^130-5. |
| `PolyLimbs.ColumnBounds` | client/source/monocypher.c:299-342 | For a reduced accumulator and a clamped key every column fits 64 bits, with tighter bounds for the upper ones. |
| `PolyLimbs.Carried` | client/source/monocypher.c:344-357 | The partial carry pass keeps the value modulo 2^130-5, folding the top bits times five. |
| `PolyLimbs.Reduce` | client/source/monocypher.c:344-357 | On 64-bit columns no intermediate overflows, the 32-bit fold of the top included, and the result is again reduced and congruent. |
| `PolyLimbs.Block` | client/source/monocypher.c:310-364 | One block: the new limbs are at most 4_ffffffff_ffffffff_ffffffff_ffffffff and congruent to (h + block + end * 2^128) * r; every product and every sum is taken in the width the machine uses and fits it. |
| `PolyLimbs.Column` | client/source/monocypher.c:337-342 | Whenever a column fits 64 bits, so does each of its products and each partial sum. |
| `PolyLimbs.TopProduct` | client/source/monocypher.c:337-342 | The products with the top limb fit the 32 bits they are computed in. |
| `Poly1305.StepsAccumulate` | client/source/monocypher.c:310-364 | Absorbing whole blocks continues the accumulation of the message absorbed so far. |
| `Poly1305.Context.constructor` | client/source/monocypher.c:366-375 | A fresh context for a key with the pad and with the multiplier that `KeyBytes` spells out, and an empty message. |
| `Poly1305.KeyBytes` | client/source/monocypher.c:371-374 | The multiplier is the first sixteen key bytes, of which bytes 3, 7, 11 and 15 keep their low four bits, bytes 4, 8 and 12 lose their low two, and all others are unchanged. |
| `Poly1305.Context.PolyBlocks` | client/source/monocypher.c:310-364 | Any number of blocks advances the accumulator's value modulo 2^130-5 by that many steps. |
| `Poly1305.Context.TopUp` | client/source/monocypher.c:385-398 | Completing the buffered block appends those bytes to the message and absorbs the block exactly when it is full. |
| `Poly1305.Context.TakeRest` | client/source/monocypher.c:400-411 | Whole blocks straight from the input and a tail that is buffered append the rest to the message. |
| `Poly1305.Context.Update` | client/source/monocypher.c:377-411 | Appends the data to the message, whatever is buffered from earlier calls. |
| `Poly1305.Context.TopCarry` | client/source/monocypher.c:424-432 | The carry chain yields 5 exactly when the accumulator is at least 2^130-5. |
| `Poly1305.CarryTells` | client/source/monocypher.c:424-432 | Adding 5 carries past bit 130 exactly when the value is at least 2^130-5. |
| `Poly1305.Subtracted` | client/source/monocypher.c:432-438 | The final carry chain gives the reduced accumulator plus the pad modulo 2^128, with at most one subtraction. |
| `Poly1305.Context.Final` | client/source/monocypher.c:413-440 | The sixteen bytes are the Poly1305 tag of the message under the key whose multiplier and pad the context holds, including a partial last block. |
| `Poly1305.MacOfParts` | client/source/monocypher.c:442-449 | Init, updates over any split and final give the tag of section 2.5 of RFC 8439 of the concatenation. |
| `Poly1305.ExampleMac` | client/source/monocypher.c:442-449 | For the key and message of section 2.5.2 of RFC 8439, cut in any way, the code returns the sixteen bytes a8 06 1d c1 ... 27 a9 printed there. |
| `FloodFill.FloodFillLine` | client/source/quirc.c:1778-1810 | Recolours the maximal run around the pixel, nothing else, and returns its two ends. |
| `FloodFill.CallNext` | client/source/quirc.c:1812-1853 | Finds the next pixel to fill beside the top span, fills its run and pushes it, or leaves everything as it was with that side exhausted. |
| `FloodFill.ClosedIsComponent` | client/source/quirc.c:1855-1931 | A set that holds the seed and every neighbour of its members of the same colour contains the whole component. |
| `FloodFill.WholeComponent` | client/source/quirc.c:1923-1929 | With the stack run empty, the filled pixels are exactly the connected component of the seed. |
| `FloodFill.FloodFillSeed` | client/source/quirc.c:1855-1931 | Terminates; recolours only pixels connected to the seed, each in exactly one reported span; stops early only with a walk of touching runs, none twice, as long as the stack; so where every such walk from the seed is shorter, or the component has fewer maximal runs than the stack has slots, it recolours exactly the component. |
| `FloodFill.ChainBound` | client/source/quirc.c:1855-1931 | A walk over touching maximal runs from the seed, none twice, is no longer than the component has runs. |
| `FloodFill.FilledIsMaximal` | client/source/quirc.c:1778-1810 | Every filled run is a maximal run of the original image, although others are filled already. |
| `FloodFill.TwoPixels` | client/source/quirc.c:668-671 | An image of two rows gets a stack of one slot, and of two pixels of one colour, one above the other, only the first is recoloured. |
| `FloodFill.FourNeighbours` | client/source/quirc.c:1812-1853 | With a pixel the component has every pixel of its colour above, below, left and right of it. |
| `FloodFill.CornersApart` | client/source/quirc.c:1812-1853 | Pixels that touch only at a corner are not connected. |
| `TermModel.SgrFields` | client/source/term.c:185-208 | What each attribute code changes and what it keeps, colours staying in 0 to 7 or 9. |
| `TermModel.StepOk` | client/source/term.c:356-373 | After every byte the cursor, the parameter buffer, the lengths and every cell and attribute are in range. |
| `TermModel.FeedConcat` | client/source/term.c:356-373 | Feeding a then b is feeding a followed by b. |
| `TermModel.HistoryKept` | client/source/term.c:50-61 | Whatever is fed, scrollback only loses rows at the old end and gains them at the new one; rows in it never change. |
| `TermModel.TextWraps` | client/source/term.c:106-115 | A fresh terminal fed n printable bytes shows the last 512 rows of the text wrapped at 50 columns, padded with blanks, and the cursor where the layout ends, its wrap deferred. |
| `Terminal.LinesTurn` | client/source/term.c:50-61 | Overwriting the oldest slot of a full ring and turning its base drops the first line and appends the new one. |
| `Terminal.Term.constructor` | client/source/term.c:65-81 | A reset terminal is the fresh model: an empty history and a blank screen. |
| `Terminal.Term.PushLine` | client/source/term.c:50-61 | The top screen row moves into the history, which loses its oldest row when full, and a blank row appears below. |
| `Terminal.Term.LineFeed` | client/source/term.c:92-104 | The ring refines the model's line feed. |
| `Terminal.Term.PutChar` | client/source/term.c:106-115 | The ring refines the model's character with deferred wrap. |
| `Terminal.Term.EraseLineToEnd` | client/source/term.c:118-125 | Blanks the cursor's row from the cursor on, in the model and the ring. |
| `Terminal.Term.EraseLineToStart` | client/source/term.c:127-134 | Blanks it up to the cursor. |
| `Terminal.Term.EraseLineAll` | client/source/term.c:136-138 | Blanks it whole. |
| `Terminal.Term.EraseScreenToEnd` | client/source/term.c:140-144 | Blanks from the cursor to the end of the screen and no row of the history. |
| `Terminal.Term.EraseScreenAll` | client/source/term.c:146-149 | Blanks the screen and no row of the history. |
| `Terminal.Term.CsiParams` | client/source/term.c:158-178 | The digit loop yields the semicolon-separated fields as numbers, with the default for empty ones, and their count. |
| `Terminal.Term.ApplySgr` | client/source/term.c:210-215 | All parameters are applied in order. |
| `Terminal.Term.DispatchCsi` | client/source/term.c:217-286 | The ring takes the model's dispatch for every final byte and every parameter string, private markers included; what each does to the screen is in `TermLaws`. |
| `Terminal.Term.FeedGround` | client/source/term.c:290-325 | One byte outside a sequence takes the model's step. |
| `Terminal.Term.FeedEsc` | client/source/term.c:327-339 | One byte after escape takes the model's step. |
| `Terminal.Term.FeedCsi` | client/source/term.c:341-354 | One byte in a control sequence takes the model's step, including overlong sequences (`TermLaws.Overlong`). |
| `Terminal.Term.Feed` | client/source/term.c:356-373 | For every byte string the ring ends in the state of the model, for which `TermLaws` says byte by byte what each control and sequence does, with the view at the bottom. |
| `Terminal.Term.CellAt` | client/source/term.c:382-392 | A cell in view is the one of scrollback followed by screen, shifted by the scroll offset; outside it is blank. |
| `Terminal.Term.Scroll` | client/source/term.c:394-400 | The offset is clamped between the bottom and the length of the history; the contents stay. |
| `Terminal.ShowText` | client/source/term.c:79-81 | The ring itself shows the wrapped layout of any printable text. |
| `TermLaws.Parameters` | client/source/term.c:158-178 | A parameter is the number its decimal digits write, whatever stands behind its semicolon; one that is empty or missing has the default. |
| `TermLaws.Skipped` | client/source/term.c:175-176 | A byte inside a parameter that is neither digit nor semicolon does not count. |
| `TermLaws.CursorUp` | client/source/term.c:228-232 | Feeding ESC [ params A moves the row up by max(1, n), not past the first, and changes nothing else. |
| `TermLaws.CursorDown` | client/source/term.c:233-237 | B moves it down, not past the last. |
| `TermLaws.CursorRight` | client/source/term.c:238-242 | C moves the column right, up to the place behind the last. |
| `TermLaws.CursorLeft` | client/source/term.c:243-247 | D moves it left, not past the first. |
| `TermLaws.CursorTo` | client/source/term.c:220-227 | H and f go to the row and column given, counted from 1 and clamped, 1 by default. |
| `TermLaws.CursorToColumn` | client/source/term.c:248-252 | G goes to the column given in the same row. |
| `TermLaws.CursorToRow` | client/source/term.c:253-257 | d goes to the row given in the same column. |
| `TermLaws.EraseLine` | client/source/term.c:258-267 | K blanks, in the cursor's row only, exactly the cells from the cursor on, up to it for 1, all for 2; every other cell, history, cursor and attribute stay. |
| `TermLaws.EraseDisplay` | client/source/term.c:268-275 | J blanks exactly the cells from the cursor to the end of the screen, all of them for 1 to 3. |
| `TermLaws.OneCode` | client/source/term.c:185-208 | ESC [ n m for every n: which bits of the attribute take which value, all others kept. |
| `TermLaws.NoCode` | client/source/term.c:210-215 | ESC [ m resets the attribute. |
| `TermLaws.Codes` | client/source/term.c:210-215 | Codes joined by a semicolon act as two sequences one after the other, up to sixteen. |
| `TermLaws.OtherFinals` | client/source/term.c:279-285 | Every other final byte changes nothing, whatever its parameters. |
| `TermLaws.InRow` | client/source/term.c:295-312 | BS, HT and CR move the cursor one to the left, to the next multiple of eight or the last column, and to the first column. |
| `TermLaws.NextRow` | client/source/term.c:92-104 | LF, VT and FF go to the first column of the next row; in the last row the top row joins the history of at most 488 rows and a blank row comes in below. |
| `TermLaws.Printed` | client/source/term.c:106-115 | A printable byte, or a question mark for the lead byte of a longer character, replaces the cell at the cursor, after a line feed if the cursor is behind the last column. |
| `TermLaws.Ignored` | client/source/term.c:313-324 | Bell, other control bytes and continuation bytes change nothing. |
| `TermLaws.Escapes` | client/source/term.c:327-339 | ESC and one byte other than [ change nothing; an escape inside a sequence abandons it. |
| `TermLaws.Overlong` | client/source/term.c:349-353 | Of a longer parameter string the first 32 bytes count. |
| `Framing.CutChunks` | protocol/src/secureFrame.ts:93-116 | Cutting a, keeping the rest, and cutting it with b gives the records of a followed by b, for well-formed prefixes and any b. |
| `Framing.CutStream` | protocol/src/secureFrame.ts:119-124 | A stream of length-prefixed records and an incomplete tail is cut into exactly the records, with the tail left. |
| `Framing.Decoder.Push` | protocol/src/secureFrame.ts:93-116 | The loop over the buffer returns the records of buffer and chunk and keeps their rest, or fails on a length out of range. |
| `Framing.DecodeChunks` | protocol/src/frames.ts:65-102 | For any chunking of a well-formed stream the decoder returns the same records in order, the tail pending. |
| `Framing.FramesRoundTrip` | protocol/src/frames.ts:40-102 | Frames sent one after the other by either side are decoded by the other, whatever its length limit, as the same type, session id and payload each, the incomplete tail pending. |
| `Framing.PrefixLayout` | protocol/src/secureFrame.ts:119-124 | A record on the wire is its length in four bytes, highest first, and the record. |
| `Framing.EncodedLayout` | protocol/src/frames.ts:40-58 | Encoding fails exactly for a type over 255, a session id over 4294967295 or a body over 4194304 bytes; otherwise length, type, session id and payload stand in bytes 0-3, 4, 5-8 and from 9 on, numbers highest byte first. |
| `Framing.WireLayout` | client/source/net.c:180-200 | The same layout for whatever the device sends. |
| `Transport.AadInjective` | protocol/src/secureFrame.ts:40-49 | Associated data under contexts of equal length determine context, direction, epoch and sequence number. |
| `Transport.AadLayout` | protocol/src/secureFrame.ts:40-49 | The 32 bytes are 3dsendai-msg-v1, 0 from the host or 1 from the device, epoch and sequence number in eight bytes each, highest first. |
| `Transport.ContextsApart` | protocol/src/secureFrame.ts:40-49 | A stream record and a discovery datagram never have the same associated data. |
| `Transport.ReceiveNext` | protocol/src/secureFrame.ts:73-85 | Whatever record arrives, each record a side delivered was sealed under the same number by some connection of the other side under the same epoch. |
| `Transport.StepSafe` | host/src/server/index.ts:198-229 | Connecting under any epoch the network gives a device, sealing, delivering any bytes at all and dropping keep the safety invariant of all connections. |
| `Transport.PrefixSafety` | client/source/net.c:282-317 | In every run, a side that has a single possible peer has delivered a prefix of what that connection sealed for its direction and epoch; with distinct epochs that is every side of every connection. |
| `Transport.RecordSafety` | host/src/server/index.ts:198-229 | In every run with distinct host epochs only, each record delivered is one the other side sealed under that epoch with that number. |
| `Transport.DevicePrefix` | client/source/net.c:86-116 | A device given a replayed epoch still delivers a prefix of what the one host connection of that epoch sealed. |
| `Transport.Splice` | client/source/net.c:86-116 | A run in which two device connections share an epoch and the host delivers a stream that neither of them sent, so distinct device epochs are needed for the prefix on the host's side. |
| `Transport.GenuineDelivered` | protocol/src/secureFrame.ts:73-85 | The peer's next record is opened, counted and delivered. |
| `Transport.GenuineChunk` | client/source/net.c:282-317 | A chunk that completes the peer's next records in order delivers exactly their plaintexts and keeps the connection open. |
| `Transport.FirstRecord` | client/source/net.c:282-317 | A first record with a length below 40 or above 16380 ends the connection, a whole one is opened, an incomplete one waits. |
| `Transport.ForgedCloses` | protocol/src/secureFrame.ts:73-85 | A record that nobody on the other side sealed under this epoch and the expected number ends the connection; nothing of it and nothing later is delivered. |
| `Transport.FrameBounds` | client/source/net.c:246-278 | A plaintext that holds one whole frame is accepted by the device if and only if its body has 5 to 16380 bytes, by the host if and only if it has 5 to 4194304. |
| `HostTransport.EncryptingSink.FlushPending` | host/src/server/index.ts:91-97 | For any result of the socket write, the accepted bytes move from pending to the wire and the rest stays in order. |
| `HostTransport.EncryptingSink.Write` | host/src/server/index.ts:67-84 | The frame is sealed under the next sequence number, appended and offered to the socket, or the connection is given up: exactly for a record over 16380 bytes or more than 8388608 bytes pending. |
| `HostTransport.Connection.Flush` | host/src/server/connection.ts:37-45 | Hands the queue to the sink as one frame and keeps what was not accepted; with any partial writes nothing queued is lost or reordered. |
| `HostTransport.Connection.Send` | host/src/server/connection.ts:30-34 | An open connection puts exactly the encoded frame, laid out as in `Framing.EncodedLayout`, on the line as the next sealed frame; a closed one changes nothing. |
| `HostTransport.Connection.Drain` | host/src/server/connection.ts:48-50 | A drain sends no new frame and loses none. |
| `HostTransport.Connection.Close` | host/src/server/connection.ts:56-59 | A closed connection has forgotten its queue. |
| `HostTransport.SendAll` | host/src/server/index.ts:56-98 | For any sends and drains with any write results: exactly which bytes the socket has, which are pending and whether the connection was given up; always accepted and pending bytes are a prefix of the length-prefixed records of the frames sent, record k sealed under sequence k, and until the connection is given up all of them. |
| `HostTransport.Receiver.TakeRecord` | host/src/server/index.ts:211-227 | One record takes the protocol's receive step: open under the next sequence number, feed, or drop. |
| `HostTransport.Receiver.Data` | host/src/server/index.ts:198-229 | A chunk takes the protocol's arrival step. |
| `DeviceTransport.PutU64` | client/source/crypto.c:19-22 | Eight bytes, highest first, equal to the host's encoding, and the rest of the buffer kept. |
| `DeviceTransport.BuildAadBytes` | client/source/crypto.c:24-30 | The device's associated data are the host's byte for byte. |
| `DeviceTransport.ParsePlainFrames` | client/source/net.c:246-278 | Cuts frames of 5 to RXBUF - 4 bytes, returns type, session id and payload of each, fails on a length outside, and reports what it consumed. |
| `DeviceTransport.Net.Connect` | client/source/net.c:86-116 | The four ways to fail, each with its code and no connection left but for the first; otherwise a fresh endpoint, with a key under the epoch the host sent as eight bytes, without one under epoch 0 and with nothing read. |
| `DeviceTransport.Net.Send` | client/source/net.c:180-200 | Refused without a trace when not connected or over 16340 bytes; a failed write disconnects; otherwise the wire gains one prefixed record, under the next sequence number and of a size the host accepts, that seals the frame in the layout of `Framing.WireLayout`. |
| `DeviceTransport.Net.SendPlain` | client/source/net.c:180-200 | Without a key the frame itself is written in the layout of `Framing.WireLayout`, or the connection dropped. |
| `DeviceTransport.Net.PollSealed` | client/source/net.c:282-317 | Opening record by record in the buffer is the protocol's receive step for each, the frames handed on are those of the plaintexts, and the rest moves to the front. |
| `DeviceTransport.Net.Poll` | client/source/net.c:319-348 | What was read, also nothing, takes the protocol's arrival step, and an end or an error disconnects; after every poll that stays connected the buffer holds an incomplete record and has room. |
| `DeviceTransport.Net.PollPlain` | client/source/net.c:319-348 | The unsealed poll cuts what is buffered and read into frames, disconnects on a bad length, an end or an error, and otherwise keeps an incomplete frame with room behind it. |
| `DeviceTransport.DeviceReads` | client/source/net.c:246-278 | Where the plaintexts delivered are the encodings of frames, the device hands on exactly these frames: type, session id and payload. |
| `DeviceTransport.HostReads` | protocol/src/frames.ts:65-102 | The same for the host and what the device sent. |
| `DeviceTransport.DeviceFramesPrefix` | client/source/net.c:282-317 | In every run the frames a device hands on are the first of those given to the one host connection of its epoch, in order and unchanged. |
| `DeviceTransport.HostFramesPrefix` | host/src/server/index.ts:198-229 | And the frames the host routes are the first of those given to the one device connection under its epoch. |
| `BoardModel.SortedIsPartition` | client/source/board.c:25-31 | The shown order is the blocked rows followed by the others, each in insertion order. |
| `BoardModel.RemovalCommutes` | client/source/board.c:78-101 | Sorting after a removal is removing the row's place from the sorted order. |
| `BoardModel.RemovalMovesCursor` | client/source/board.c:78-101 | A cursor on the removed row moves to its successor in the shown order, or to the new last row, or to none; any other cursor keeps its id. |
| `BoardModel.UpsertKeeps` | client/source/board.c:103-141 | An upsert keeps the invariant and every other blocked row; it is refused only for a new id on a board full of blocked rows, and otherwise the bounded copy of what was given is on the board. |
| `BoardModel.ReemitKeeps` | client/source/board.c:103-118 | Sending the same row again changes nothing, an approval in flight included, even where its strings were cut. |
| `BoardModel.ArmedOnce` | client/source/board.c:207-226 | Between two approvals armed for one session less than 120 ticks apart, also across a wrap-around of the 32-bit tick counter, there is a status change of its row, its removal, a reset, or an approval armed for another session. |
| `Board.AgentBoard.Reorder` | client/source/board.c:25-31 | The two passes write the stable blocked-first permutation of the row indices. |
| `Board.AgentBoard.CursorPosition` | client/source/board.c:68-73 | The place of the cursor's row in the shown order, or -1. |
| `Board.AgentBoard.RemoveAt` | client/source/board.c:78-101 | The in-place compaction and cursor repair are the model's removal. |
| `Board.AgentBoard.Put` | client/source/board.c:33-42 | Bounded copies, update, insertion, eviction and refusal are the model's upsert, result code included. |
| `Board.AgentBoard.Delete` | client/source/board.c:143-151 | Removal by id, with -1 for an unknown one. |
| `Board.AgentBoard.Move` | client/source/board.c:161-174 | Moves the cursor by a clamped distance in the shown order. |
| `Board.AgentBoard.ViewportTop` | client/source/board.c:181-198 | The scroll position follows the cursor and stays inside the list. |
| `Board.AgentBoard.ApprovalEnabled` | client/source/board.c:212-219 | Exactly a blocked, allowlisted cursor row without an approval in flight. |
| `Board.AgentBoard.ArmApproval` | client/source/board.c:221-226 | Arms exactly when enabled and records session and time. |
| `BoardLaws.ShownOrder` | client/source/board.c:25-31 | Of two rows shown one above the other, a blocked one is above one that is not, and of equal ones the older is above. |
| `BoardLaws.UpsertReplaces` | client/source/board.c:103-118 | A known session's row is replaced where it stands by copies of at most 31, 15, 19, 39 and 23 characters, and its approval in flight ends if and only if the status given differs from the stored one. |
| `BoardLaws.UpsertAppends` | client/source/board.c:120-140 | A new session goes behind the others, and takes the cursor if there is none. |
| `BoardLaws.UpsertEvicts` | client/source/board.c:123-134 | A full board first removes its oldest row that is not blocked, or refuses if all sixteen are. |
| `BoardLaws.RemoveRow` | client/source/board.c:78-101 | Removing takes out exactly the row of that id and ends its approval in flight; an unknown id changes nothing. |
| `BoardLaws.MoveCursor` | client/source/board.c:161-174 | Moving by d goes from place p of the view to place p + d, or to the first or last; a cursor on no row goes to the first. |
| `BoardLaws.Window` | client/source/board.c:181-198 | The window lies on the board and shows the cursor, and of all such windows it is the one that has moved least. |
| `BoardLaws.EnabledIff` | client/source/board.c:212-219 | Enabled if and only if the cursor's row is blocked, of one of the five kinds, and none was armed for it in the last 120 ticks of the 32-bit clock. |
| `BoardLaws.ArmRecords` | client/source/board.c:221-226 | Arming records session and time and nothing else; without a cursor's row it is refused. |
| `Approvals.GrantedIff` | host/src/herdr/approvals.ts:81-87 | Granted exactly for a present, blocked pane of one of the five kinds, which is the device's allowlist too; the keys are y or n for codex and cursor, enter or esc for claude and omp, enter or esc and then enter for opencode. |
| `Approvals.BeginKeeps` | host/src/herdr/bridge.ts:871-879 | A new exchange for an id without one keeps the book of exchanges consistent. |
| `Approvals.AnswerKeeps` | host/src/herdr/bridge.ts:880-912 | The keys sent on a snapshot are justified by an intent for the same session and pane and a snapshot asked for after it. |
| `Approvals.SettleKeeps` | host/src/herdr/bridge.ts:929-931 | Settling frees the id for the next exchange. |
| `Approvals.LogPresses` | host/src/herdr/approvals.ts:36-60 | Every keys entry of a history in order holds the listed sequence for the agent of the blocked pane in its snapshot and the action of its intent. |
| `Bridge.OneLiveRow` | host/src/herdr/bridge.ts:760-791 | Consistent indexes hold at most one live row for each session and pane. |
| `Bridge.EndKeeps` | host/src/herdr/bridge.ts:731-744 | Ending a live row keeps the indexes consistent, announces it once, and no alert of that id can follow. |
| `Bridge.NewKeeps` | host/src/herdr/bridge.ts:760-791 | A row under the next id keeps them consistent, also where an ended row has the same pane. |
| `Bridge.ForgetKeeps` | host/src/herdr/bridge.ts:747-758 | Forgetting a session's rows keeps them consistent and frees no id for reuse. |
| `Bridge.OnEventKeeps` | host/src/herdr/bridge.ts:656-701 | Every event keeps the indexes consistent and emissions final; no state follows an announced end, except for an agent detected on an ended row. |
| `Bridge.LateIff` | host/src/herdr/bridge.ts:678-684 | An event sends a state for an id whose end was announced if and only if it is an agent detected on a pane whose row has ended; that state is then its only emission. |
| `Bridge.LateExample` | host/src/herdr/bridge.ts:678-684 | A pane is created, closed, and then an agent detected on it: the device gets a state of the ended session. |
| `Bridge.HistoryMore` | host/src/herdr/bridge.ts:656-932 | A consistent next state extends a history in which ids never change their pane, return after being dropped, or live again after their end. |
| `Bridge.HerdrBridge.Start` | host/src/herdr/bridge.ts:297-309 | Repaints when up, and starts over with fresh error notices when idle. |
| `Bridge.HerdrBridge.DiscoveryFailed` | host/src/herdr/bridge.ts:317-325 | One error, and waiting requests are forgotten. |
| `Bridge.HerdrBridge.EnsureSession` | host/src/herdr/bridge.ts:760-791 | The known live row of a pane, or a new one under the next id, which takes the focus if there is none. |
| `Bridge.HerdrBridge.CommitPanes` | host/src/herdr/bridge.ts:374-383 | After a snapshot every pane has its live row, new ones numbered in order. |
| `Bridge.HerdrBridge.BootFailed` | host/src/herdr/bridge.ts:386-402 | The session's rows are forgotten and one error goes out for each episode of failures, remembered until it recovers. |
| `Bridge.HerdrBridge.AllBooted` | host/src/herdr/bridge.ts:326-339 | The bridge is up with a live focus, its board shown and the waiting requests handed back in order, unless its only daemon failed; then it is idle and they are forgotten. |
| `Bridge.HerdrBridge.SeedFocus` | host/src/herdr/bridge.ts:794-807 | A live focus stays; otherwise the hinted pane's live row, the oldest live row, or none. |
| `Bridge.HerdrBridge.EmitBoard` | host/src/herdr/bridge.ts:826-831 | The state of each live row in order of creation, then the list of exactly these. |
| `Bridge.HerdrBridge.HandleEvent` | host/src/herdr/bridge.ts:656-701 | The exact new rows and emissions for each kind of event, replays and ended rows included. |
| `Bridge.HerdrBridge.EndSession` | host/src/herdr/bridge.ts:731-744 | Ends a live row with one alert and closes a terminal on it; does nothing to an ended one. |
| `Bridge.HerdrBridge.EndSessions` | host/src/herdr/bridge.ts:709-712 | Ends exactly the live rows of one daemon, one alert each. |
| `Bridge.HerdrBridge.OnDaemonLost` | host/src/herdr/bridge.ts:709-729 | In addition one error, then the board for the other daemons, or a return to idle with a single one. |
| `Bridge.HerdrBridge.DropSessionPanes` | host/src/herdr/bridge.ts:747-758 | Rows and keys of the session, and a focus on them with its terminal, are gone; nothing else changes. |
| `Bridge.HerdrBridge.OpenChannel` | host/src/herdr/bridge.ts:590-606 | The new channel supersedes the old one, and a failed spawn leaves none and one error. |
| `Bridge.HerdrBridge.ChannelData` | host/src/herdr/bridge.ts:609-620 | Bytes of a superseded channel reach nobody; those of the current one go out under its own id. |
| `Bridge.HerdrBridge.ChannelExit` | host/src/herdr/bridge.ts:621-623 | The exit of a superseded channel is ignored; that of the current one leaves none. |
| `Bridge.HerdrBridge.Focus` | host/src/herdr/bridge.ts:475-487 | Focus moves only to a live row of a bridge that is up, with a new channel; a request during the start waits. |
| `Bridge.HerdrBridge.Resync` | host/src/herdr/bridge.ts:454-472 | Reopens a terminal, under a new channel, only if one was open, otherwise shows the board; then one alert for each live blocked or done row; a request during the start waits. |
| `Bridge.HerdrBridge.HandleApproval` | host/src/herdr/bridge.ts:871-882 | An exchange opens exactly for a live row of a ready daemon without one. |
| `Bridge.HerdrBridge.Approve` | host/src/herdr/bridge.ts:515-527 | A request reaches the gate only when the bridge is up; during the start it waits. |
| `Bridge.HerdrBridge.OnSnapshot` | host/src/herdr/bridge.ts:880-912 | Keys are sent exactly when the gate grants them for the row's pane in that snapshot, and they are the gate's (`Approvals.GrantedIff`); otherwise an error, and the exchange is settled. |
| `Bridge.HerdrBridge.OnKeysSent` | host/src/herdr/bridge.ts:909-931 | The exchange is settled, with an error if the daemon refused. |
| `Bridge.AllAimedMore` | host/src/herdr/bridge.ts:872-879 | A further step whose intents are for live rows keeps every intent of the run on the session and pane of the row that was tapped. |
| `Bridge.RunAll` | host/src/herdr/bridge.ts:235-932 | After any interleaving of attaches, boots, events, losses, channel exits, focus, resyncs, taps and late answers: a consistent history, at most one live row for each pane, session_ended once and as the last alert of its id, a state after it exactly where an agent was detected on the ended row, exchanges of one id never overlapping, every tap taken up for the pane that all states of the run have for the tapped id, and keys sent only to the pane of such a tap, written out for each agent and action, for a pane blocked in a snapshot asked for after it. |
| `BridgeLaws.StatusWords` | host/src/herdr/bridge.ts:172-185 | working is shown as running_tool, blocked, done and idle as they are, everything else as unknown. |
| `BridgeLaws.BoardShows` | host/src/herdr/bridge.ts:826-831 | A board is the state of each live row in ascending order of the ids and then the list of these ids, and changes no row. |
| `BridgeLaws.CreatedRow` | host/src/herdr/bridge.ts:656-665 | A new pane gets the next id with the agent and status it came with, and the board is shown; a known one is passed over. |
| `BridgeLaws.GonePane` | host/src/herdr/bridge.ts:666-677 | A pane that is gone ends its live row with one alert, and the board is shown; nothing happens otherwise. |
| `BridgeLaws.DetectedAgent` | host/src/herdr/bridge.ts:678-684 | A detected agent is stored and the row's state sent, also for an ended row. |
| `BridgeLaws.NewStatus` | host/src/herdr/bridge.ts:685-700 | A changed status of a live row is stored and sent, followed by an attention alert if blocked or a likely_done alert if done; the same status again sends nothing. |
| `BridgeLaws.StaleStatus` | host/src/herdr/bridge.ts:685-688 | A status for an unknown pane or an ended row changes nothing. |
| `BridgeLaws.Repeated` | host/src/herdr/bridge.ts:454-472 | A resync repeats exactly one alert of its class for every live row that is blocked or done, in the order of the ids. |
| `BridgeLaws.DepartedAre` | host/src/herdr/bridge.ts:709-712 | A lost daemon announces the end of exactly its live rows, in the order of the ids. |
| `BridgeLaws.SnapshotRows` | host/src/herdr/bridge.ts:374-383 | A snapshot leaves every row there was as it was and sends nothing; every new row is that of one of its panes. |
| `BridgeLaws.Forgotten` | host/src/herdr/bridge.ts:747-758 | Forgetting a session removes exactly its rows and keys and sends nothing. |
| `BridgeLaws.FocusSeeded` | host/src/herdr/bridge.ts:794-807 | A focus on a live row stays; else it goes to the hinted pane's live row, else to the least live id, else nowhere. |

## Left out

Contracts that are weaker than one might expect:

- EndToEnd.RoundTrip: which of the two format copies is used is an outcome (`first`) as soon as more than three modules of the first are damaged, since a badly damaged copy may also be repaired to a wrong word.
- Codestream.CodestreamEcc: for blocks damaged beyond half their parity only that success means codewords.
- FloodFill.FloodFillSeed: the conditions for completeness are sufficient; a shape with long walks may still be filled, depending on the order in which its runs are met.
- Framing.Decoder.Push: on a length out of range only the failure is stated; records cut earlier in the same call are discarded, as in the source.
- Transport.PrefixSafety: sealing is ideal (a record opens only if it was sealed under the same associated data, to the plaintext sealed) and keys and nonces are inside it; distinct host epochs and fewer than 2^64 records are conditions of a run.
- Terminal.Term.CsiParams: parameter values are mathematical integers, so no wrap-around of overlong digit strings.
- BoardModel.ArmedOnce: session ids are not zero.

What the repository does and the model does not:

- QR: finding the symbol in an image (thresholds, perspective, capstones); the sampled grid is a parameter.
- QR: the penalty score is an arbitrary function, as any mask is correct; text to UTF-8; drawing in a terminal or as luminance.
- Shifts and bitwise operators are written arithmetically; some nested loops are methods of their own; the encoder's rows of booleans are sequences in fields; the pixel buffer is a two-dimensional array.
- The flood fill's callback is the returned sequence of spans.
- Monocypher: wiping of memory, ChaCha20, and everything the product does not run (BLAKE2b, Argon2, X25519, EdDSA, Elligator); a message part is a sequence.
- Terminal: the interface's decoding of text before it feeds the terminal, which goes through a buffer of 8192 characters, so the device need not receive every byte of a pane.
- Transport: attach tokens, timeouts, sockets, discovery datagrams, memory that runs out; payloads are opaque bytes, so malformed JSON is not modelled; receive callbacks that enter the network layer again; data that arrive for a connection already dropped.
- Board: strings are without a zero byte; the used flag of a slot is the count.
- Bridge: rows are values, not shared objects; a daemon client is known by its session's name, so a late answer to a replaced client counts for its successor; labels, titles, keystrokes, sizes, transcripts, the refresh timer, resubscription, the reason a control channel gives for closing, and the stripping of control sequences; the order in which sessions are asked for a focused pane is one hint.
- The tmux bridge, adapters, policies, layouts, routines, the user interface, audio and camera code.
