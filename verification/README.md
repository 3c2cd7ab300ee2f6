# A verified model of the Sésamo vault clients

Sésamo is a zero-knowledge password manager. Its browser code carries its own cryptographic formats and
algorithms, and its server keeps versioned ciphertexts. This project models the algorithmic core of that code in
Dafny and proves what the core is for: decoders undo encoders, fast arithmetic refines the standards it implements,
shared state keeps its invariants under every interleaving.

`dafny verify dfyconfig.toml` verifies everything. One module per file, in layers:

| part | modules | source |
|---|---|---|
| words and bytes | `Bits`, `Bytes`, `Sequences`, `Strings`, `Utf8`, `JsInt`, `Wrappers`, `VaultItem` | shared vocabulary |
| QR encoder | `Gf256`, `ReedSolomon`, `QrCodewords`, `QrPatterns`, `QrPenalty`, `QrSymbol`, `BchCodes`, `QrReader`, `QrCapacity`, `QrEncoder` | web/qr.js |
| BLAKE2b, twice | `Blake2b` (RFC 7693, section 3), `Blake2bStream`, `Blake2bPairs` | web/blake2b.js, web/kdbx-read.js |
| Argon2 | `Argon2Compress`, `Argon2Index`, `Argon2`, `Argon2Modes`, `Argon2Program`, `Argon2Filled` | web/kdbx-read.js |
| KDBX files | `Cbc`, `KeyStream`, `Xml`, `KdbxContainer`, `KdbxAuthentic`, `KdbxWriter`, `KdbxReader`, `Kdbx`, `KdbxItems`, `KdbxItemsExact`, `KdbxJourney`, `KdbxJourneyExact` | web/export.js, web/kdbx-read.js |
| CSV | `Csv`, `CsvImport`, `CsvColumns` | web/export.js, web/import.js |
| SRP-6a | `Modular`, `Srp` | web/srp.js |
| random choice | `Generator` | web/generator.js |
| passkeys | `Cbor`, `Der` | extension/webauthn.js |
| items with history | `ItemProtocol` | internal/repository/item_repo.go, internal/service/item_service.go |

## How the model is built

* Code that updates variables, arrays or objects is a method or a class with the same loops and the same writes.
  Its `ensures` equates the result or the new state with a specification function that is written independently of
  the loop (from the standard, or as a decoder), and the lemmas are about those functions. `RsRemainder` shifts a
  register in place and returns `Remainder`; `CodewordVanishes` and `MinimumDistance` say what `Remainder` is good for.
* Words are natural numbers with explicit wrap-around. JavaScript's 32-bit operators, with their signed results, are
  the functions of `JsInt`; 64-bit words held in two halves are related to one number by `Join`. Bitwise operators are
  defined digit by digit in `Bits`.
* What the platform provides is a function-valued parameter, with the laws the code relies on gathered in a predicate
  `Lawful`: AES block decryption undoes encryption on 16-byte blocks, digests have their lengths, ChaCha20 blocks have 64
  bytes, `atob` undoes `btoa` and base64 text is made of base64 characters, `Number` is exact below 2^53. Nothing else is
  assumed of a hash or a cipher. BLAKE2b, Argon2, UTF-8, CBC with PKCS #7 padding and the XML subset are not assumed:
  they are modelled.
* Random bytes, clocks and identifiers are arguments. A finite supply of random words stands for the generator, so
  `RandomInt` has the additional outcome that the supply ran out where the source would go on drawing.
* Exceptions are constructors of result datatypes. `Crash` stands for an exception without an error code of its own
  (a read past the end of a buffer, an invalid code point), `Elsewhere` for a branch outside the model.
* The database is a state with one event per SQL statement. A run is any interleaving of such events by any number of
  transactions under READ COMMITTED, with the row lock of an UPDATE and the foreign key that keeps a row from being deleted.

## Where the code falls short of what it promises

Each shortfall is kept as it is and its exact extent is a lemma.

* `modPow(b, 0, 1)` is 1, not 0. Among exponents from 0 and moduli from 1 these are the only inputs on which `modPow` is not the
  modular power (`Srp.ModPowExact`).
* An update keeps history complete only if its version had been read before its transaction began. A client that sends
  a version from the future can make an archived version go missing: the snapshot and the conditional update see two
  different rows. `ItemProtocol.FutureVersionLoses` constructs such a run and `ItemProtocol.SafeIffReadBefore` shows that
  the guard is exact.
* The CSV parser returns no empty row, so rows round-trip exactly if none is empty (`Csv.RoundTripIff`).
* The CSV exporter names its secret column `totp`, and the importer looks for `otpauth`: importing an export loses the
  one-time-password secrets. `CsvImport.ReimportedIff` gives the exact class of items whose login properties come back, and
  `CsvImport.ImportOfExportIff` that of whole files; `CsvImport.SecretLost` and `CsvImport.SecretLostInFile` show items that lose
  nothing but the secret. The exporter's byte order mark stays in front of the first header cell; it is harmless because the
  importer trims that cell (`CsvImport.ExportHeader`).
* In an exported CSV file tags that contain a semicolon run together (`CsvColumns.TagsReadIff`), and a folded field is read back exactly
  if it has no line break in it and no colon with a blank in its label (`CsvColumns.FoldedReadIff`).
* Protected values lose one leading U+FEFF, plain ones their control characters (`Kdbx.FieldExact`); tags come back exactly
  if trimmed, not empty and free of separators and control characters (`Kdbx.TagsIff`).
* A label of a custom field may be taken for a field of another meaning, be renamed or be dropped; `KdbxItemsExact.ItemBackIff`
  gives the exact class of items that survive, and `KdbxJourneyExact.VaultBackIff` that of vaults written to a file and read back.
* A comment in web/srp.js calls its byte conversion equivalent to Go's `big.Int.Bytes()`. It is for every number but zero, for
  which it returns one zero byte where Go returns none (`Srp.MinBytesIsGoBytes`); the model follows the code. Of the numbers that
  the client hashes in this form, N, g and A are never zero, B is refused when it is, and the secret S is not zero when the server
  is honest (`Srp.NoZeroHashed`, with `Srp.TwoIsInvertible` for the source's generator 2 and odd modulus). A server that sends a B
  congruent to k · v makes the client hash S = 0 (`Srp.ZeroSecret`).

## Model

| member | source | states |
|---|---|---|
| Gf256.MulDistributes | web/qr.js:34-37 | Multiplication modulo 0x11D distributes over exclusive or, for all bytes. |
| Gf256.MulCommutes | web/qr.js:34-37 | It commutes, although it is defined by the digits of one factor only. |
| Gf256.MulAssociates | web/qr.js:34-37 | It associates. |
| Gf256.NoZeroDivisors | web/qr.js:34-37 | A product is zero only if a factor is: GF(256) has no zero divisors. |
| Gf256.PowAdd | web/qr.js:20-37 | α^m · α^n = α^(m+n), the law behind the logarithm tables. |
| Gf256.Order | web/qr.js:20-32 | No power of α below the 255th is 1: α has order 255. |
| Gf256.PowInjective | web/qr.js:24-30 | The first 255 powers of α are pairwise different, so that the table of logarithms is well defined. |
| Gf256.EveryByteIsAPower | web/qr.js:24-30 | Every byte but zero is one of them: α generates the multiplicative group. |
| Gf256.PowPeriod | web/qr.js:31 | Powers repeat with period 255, which justifies the second half of the exponent table. |
| ReedSolomon.Encoder.constructor | web/qr.js:21-32 | The tables filled by doubling hold α^k for all 512 entries, and exp[log[a]] = a for every nonzero byte. |
| ReedSolomon.Encoder.FillOnePeriod | web/qr.js:24-30 | The loop over one period writes every power and, for each, a logarithm that leads back to it. |
| ReedSolomon.Encoder.FillSecondPeriod | web/qr.js:31 | The copying loop extends the powers to 512 entries and leaves the first period alone. |
| ReedSolomon.Encoder.GfMul | web/qr.js:34-37 | Table look-up, zero factors included, is multiplication in GF(2)[x]/0x11D. |
| ReedSolomon.Encoder.MultiplyLinear | web/qr.js:43-48 | The inner loop returns g(x) · (x + r). |
| ReedSolomon.Encoder.RsGenerator | web/qr.js:40-51 | The generator is the product of (x + α^i) for i below the degree. |
| ReedSolomon.EvalTimesLinear | web/qr.js:43-48 | Evaluating g(x) · (x + r) is evaluating the factors and multiplying. |
| ReedSolomon.GeneratorRoots | web/qr.js:40-51 | The generator is monic and vanishes at α^0 … α^(degree-1). |
| ReedSolomon.Encoder.CopyWithin | web/qr.js:59 | The in-place move shifts every cell one place to the left and leaves the last as it was. |
| ReedSolomon.Encoder.Cancel | web/qr.js:61-63 | The in-place loop adds the factor times the generator to the register. |
| ReedSolomon.StepIsDivision | web/qr.js:57-64 | One register step subtracts a multiple of the generator from x · (data · x^degree + register): a step of polynomial division. |
| ReedSolomon.Encoder.RsRemainder | web/qr.js:54-66 | The shift register computes the remainder that the next two lemmas are about, for every degree from 1 to 255. |
| ReedSolomon.CodewordVanishes | web/qr.js:53-66 | For every byte sequence, data followed by its remainder is zero at α^0 … α^(degree-1). |
| ReedSolomon.ConsecutiveRoots | web/qr.js:53-66 | A nonzero word of at most 255 bytes that vanishes at d consecutive powers of α has more than d nonzero bytes. |
| ReedSolomon.MinimumDistance | web/qr.js:53-66 | Two different data blocks of the same length give codewords that differ in more than degree positions. |
| QrCodewords.TablesAddUp | web/qr.js:70-101 | In each of the 15 versions the block table accounts for every codeword, and every block with its check bytes fits into 255. |
| QrCodewords.TableFromPlan | web/qr.js:70-101 | The table follows from two numbers for each version, check codewords of a block and number of blocks: as many codewords as the modules left by the patterns can show, dealt out to the blocks as evenly as possible, the longer blocks last. |
| QrCodewords.NatOfBitsOf | web/qr.js:111-113 | The bits pushed for a value that fits are its binary digits. |
| QrCodewords.BitsOfNatOf | web/qr.js:111-113 | Every bit sequence is the digits of the number it denotes. |
| QrCodewords.BitBuffer.Push | web/qr.js:111-113 | Appends the digits of the value, highest first, to the buffer. |
| QrCodewords.BitBuffer.ToBytes | web/qr.js:115-119 | Returns the bits padded with zeros to whole bytes, eight to a byte. |
| QrCodewords.PackNext | web/qr.js:117 | Or-ing one shifted bit into a byte adds exactly that bit to the bytes packed so far. |
| QrCodewords.PackedAll | web/qr.js:115-119 | When all bits are in, the packed bytes are the padded bit string read in groups of eight. |
| QrCodewords.FromToBits | web/qr.js:115-119 | Bytes to bits and back is the identity. |
| QrCodewords.ToFromBits | web/qr.js:115-119 | Whole bytes of bits to bytes and back is the identity. |
| QrCodewords.ChooseVersion | web/qr.js:123-131 | Finds the smallest version with room for n bytes, or 0 exactly if none of the 15 has. |
| QrCodewords.MaximumCapacity | web/qr.js:104-106 | 412 bytes is the capacity of version 15 and the largest of all. |
| QrCodewords.PushBytes | web/qr.js:137 | The loop appends the bits of the bytes in order. |
| QrCodewords.PadToByte | web/qr.js:139-140 | Terminator and padding fill up to the next whole byte with zeros and add nothing when there already is one. |
| QrCodewords.FillWithPads | web/qr.js:141-143 | The rest of the capacity is filled with 0xEC and 0x11 in turn. |
| QrCodewords.EncodeData | web/qr.js:133-145 | Builds the data block: mode, count, bytes, terminator and pads. |
| QrCodewords.ReadDataBlock | web/qr.js:133-145 | A reader of mode, count and bytes recovers every byte string from its data block, at every version it fits. |
| QrCodewords.CutBlocks | web/qr.js:151-154 | The running offset cuts the data into blocks of the given lengths. |
| QrCodewords.SplitAt | web/qr.js:151-154 | Block b is the stretch of data behind the lengths before it: nothing is skipped or used twice. |
| QrCodewords.BlocksFill | web/qr.js:151-154 | The lengths of the blocks of a version add up to its data codewords. |
| QrCodewords.ComputeEcc | web/qr.js:155 | Every block gets its own remainder. |
| QrCodewords.WriteColumn | web/qr.js:160 | Column i of the blocks long enough to have one is written behind what is there, which stays. |
| QrCodewords.WriteColumns | web/qr.js:159-164 | The columns are written one behind the other, in order. |
| QrCodewords.Interleave | web/qr.js:149-167 | Writes the interleaved data blocks and the interleaved check blocks, and fills the symbol’s codewords to the last. |
| QrCodewords.ReadInterleaved | web/qr.js:149-167 | A reader that deals the codewords out column by column gets the blocks back, also blocks of unequal lengths, and what follows them. |
| QrCodewords.CodewordsRead | web/qr.js:149-167 | Deinterleaving and dropping the check bytes returns the data block. |
| QrCodewords.CodewordsLength | web/qr.js:149-167 | The number of codewords is the total of the version table. |
| QrPatterns.Canvas.constructor | web/qr.js:171-173 | A fresh square of light cells, none of them a function module. |
| QrPatterns.Canvas.Set | web/qr.js:175-178 | Colours and reserves one cell and changes no other. |
| QrPatterns.Canvas.DrawTiming | web/qr.js:180-184 | Row 6 and column 6 alternate and are reserved; every other cell keeps its state. |
| QrPatterns.Canvas.DrawRings | web/qr.js:187-196 | A square of rings around a centre is coloured by distance, clipped to the symbol; other cells keep their state. |
| QrPatterns.Canvas.DrawFinders | web/qr.js:186-199 | The three finders with separators, and nothing else. |
| QrPatterns.Canvas.DrawAlignments | web/qr.js:201-214 | The alignment patterns of the version, without the three that would cover a finder, and nothing else. |
| QrPatterns.Canvas.ComputeFormatBits | web/qr.js:271-275 | The 15-bit format word of a mask, computed by shifting. |
| QrPatterns.Canvas.DrawFirstCopy | web/qr.js:276-283 | The copy of the format word around the top left finder, cell by cell. |
| QrPatterns.Canvas.DrawSecondCopy | web/qr.js:285-288 | The copy beside the other two finders with the dark module, cell by cell. |
| QrPatterns.Canvas.DrawFormatBits | web/qr.js:271-289 | Overwrites the same cells whatever the mask, and no others. |
| QrPatterns.Canvas.DrawVersionInfo | web/qr.js:218-231 | Both copies of the version word, from version 7 on. |
| QrPatterns.Canvas.DrawFunctionPatterns | web/qr.js:180-231 | After all drawing a cell is reserved if and only if it belongs to a function pattern, and has the colour of the pattern drawn last. |
| QrPenalty.ScoreRuns | web/qr.js:318-326 | The run-length loop returns the total over all maximal runs of five or more cells. |
| QrPenalty.ScoreN1 | web/qr.js:315-328 | Rule 1 over all rows and columns. |
| QrPenalty.ScoreN2 | web/qr.js:330-336 | Rule 2 counts every 2×2 block of one colour, overlaps included. |
| QrPenalty.Matches | web/qr.js:341 | Compares a stretch of a line with a pattern; where the line is too short it answers no. |
| QrPenalty.NoLateFinder | web/qr.js:338-349 | No occurrence of the 11-cell patterns starts behind the last position the loop looks at. |
| QrPenalty.ScoreFinders | web/qr.js:338-349 | The loop counts the finder-like patterns of a row and the matching column. |
| QrPenalty.ScoreN3 | web/qr.js:338-349 | Rule 3 over the whole symbol. |
| QrPenalty.CountDark | web/qr.js:351-353 | Counts the dark cells of the symbol. |
| QrPenalty.ScoreN4 | web/qr.js:351-355 | Rule 4: ten points for every whole five per cent away from one half. |
| QrPenalty.PenaltyScore | web/qr.js:312-358 | The score is the sum of the four rules over the symbol. |
| QrSymbol.WalkBijective | web/qr.js:235-241 | The zigzag step of a cell the walk visits is the step that visits it: the walk is one-to-one. |
| QrSymbol.StepBijective | web/qr.js:235-241 | Every cell outside column 6 is visited, at the step computed from it: the walk is onto. |
| QrSymbol.FreeFromOrdered | web/qr.js:235-242 | The free cells appear in the order of the walk, each later than the one before. |
| QrSymbol.FreeFromComplete | web/qr.js:235-242 | No free cell still to be visited is missing. |
| QrSymbol.FreeCellsExact | web/qr.js:233-250 | The walk passes every data module exactly once. |
| QrSymbol.PlaceBit | web/qr.js:242-245 | Puts the next codeword bit into its cell, or leaves the cell when the bits have run out; other cells keep their state. |
| QrSymbol.PlaceRow | web/qr.js:238-247 | One row of a column pair advances the walk and the bit index together. |
| QrSymbol.PlacePair | web/qr.js:235-248 | One column pair, upward or downward, does so too. |
| QrSymbol.PlaceData | web/qr.js:233-250 | Afterwards the free cells hold the codeword bits in the order of the walk, the rest of them and the patterns are untouched. |
| QrSymbol.PlacedKeepsPatterns | web/qr.js:233-250 | The placed grid is a drawn pattern with data, and carries all codewords whenever the free cells suffice. |
| QrSymbol.ApplyMask | web/qr.js:302-309 | Flips exactly the unreserved cells the mask selects. |
| QrSymbol.DressUp | web/qr.js:257-258 | Mask and format bits turn the unmasked symbol into candidate m, with the right format bits for m. |
| QrSymbol.Undress | web/qr.js:261 | Applying the mask again leads back to unmasked data: trying a mask leaves no trace there. |
| QrSymbol.ChooseMask | web/qr.js:252-266 | The matrix left behind is the candidate of least penalty among the eight, the smallest mask number on ties. |
| QrSymbol.MasksAgree | web/qr.js:291-300 | The eight conditions select the same modules as the ones a reader uses, which are stated by residues modulo 2, 3, 4 and 6. |
| QrSymbol.SymbolReads | web/qr.js:123-289 | Unmasking by those conditions, walking, deinterleaving and reading mode, count and bytes recovers the text from any candidate that carries its codewords. |
| BchCodes.ClMulDistributes | web/qr.js:222 | Multiplication of polynomials over GF(2) distributes over addition. |
| BchCodes.StepReduces | web/qr.js:222 | One step of the remainder loop multiplies by x and subtracts the generator exactly if the degree has become its degree; the result keeps below that degree. |
| BchCodes.BchQuotient | web/qr.js:221-222 | After n steps the remainder stays below the degree of the generator, and data · x^n plus the remainder is a multiple of it. |
| BchCodes.WordIsMultiple | web/qr.js:221-223 | Data and remainder side by side, joined by an or that is a sum, are a multiple of the generator. |
| BchCodes.ProductDegree | web/qr.js:221-223 | The degree of a product over GF(2) is the sum of the degrees. |
| BchCodes.VersionWord | web/qr.js:219-223 | The version word has the version in front and is divisible by 0x1F25 over GF(2). |
| BchCodes.FormatWord | web/qr.js:271-275 | The format word without 0x5412 has the mask in front, is divisible by 0x537 over GF(2), and has 15 digits. |
| BchCodes.VersionWeight | web/qr.js:219-223 | Every multiple of 0x1F25 of degree below 16 has at least eight digits 1. |
| BchCodes.FormatWeight | web/qr.js:269-275 | Every multiple of 0x537 of degree below 13 has at least seven digits 1. |
| BchCodes.VersionsApart | web/qr.js:219-223 | The words of two different versions up to 15 differ in at least eight digits. |
| BchCodes.FormatsApart | web/qr.js:269-275 | The format words of two different masks differ in at least seven digits. |
| QrReader.NumberIsShown | web/qr.js:224-230 | Cells that show the digits of a word show the word. |
| QrReader.VersionIsRead | web/qr.js:219-231 | In every finished symbol both version blocks, read cell by cell, show the version word, and a reader takes the version of the symbol from either, for every version from 7 to 15. |
| QrReader.MaskIsRead | web/qr.js:271-289 | In every finished symbol both copies of the format word, read cell by cell, show the word from which level M and the mask are read. |
| QrReader.CentersSpaced | web/qr.js:91-95 | The tabulated centres are evenly spaced from 6 to size - 7: even steps from the far end, the least that cover the distance. |
| QrReader.PatternsApart | web/qr.js:201-214 | Alignment patterns keep clear of finders, format and version cells, and where they lie on the timing lines they have their colours. |
| QrReader.FindersShown | web/qr.js:186-199 | Every finished symbol shows the printed picture of a finder in its separator at three corners. |
| QrReader.TimingShown | web/qr.js:180-184 | Between the finders row 6 and column 6 alternate in every finished symbol, and the dark module is dark. |
| QrReader.AlignmentsShown | web/qr.js:201-214 | Every finished symbol shows the printed picture of the alignment pattern around every pair of centres but the three on finders. |
| QrReader.FinderLine | web/qr.js:338-341 | The patterns of the third penalty rule are a line through the middle of a finder with four light modules at one end or the other. |
| QrReader.GridReads | web/qr.js:123-289 | A reader that is given nothing but the modules, takes the version from their number, checks the three finders, timing, dark module, every alignment pattern, both version blocks and both format words, and then unmasks and decodes, recovers the text from every finished symbol that carries its codewords. |
| QrCapacity.CellsExact | web/qr.js:180-231 | A rectangle lists each of its cells, height times width of them. |
| QrCapacity.CoverAll | web/qr.js:180-231 | Every function module lies in one of the listed rectangles. |
| QrCapacity.RectsArea | web/qr.js:180-231 | The rectangles have the closed-form area of the version. |
| QrCapacity.RoomInTables | web/qr.js:70-101 | Size squared minus that area leaves room for eight times the codewords, for each version. |
| QrCapacity.EnoughModules | web/qr.js:70-101 | At every version the walk meets at least as many free modules as there are codeword bits: no codeword is cut off. |
| QrEncoder.QrMatrix | web/qr.js:367-370 | For every byte string of at most 412 bytes a matrix of the smallest fitting version from which that reader, given the modules alone, recovers exactly those bytes, with least penalty among the masks; longer input is refused. |
| Blake2bStream.Rotations | web/blake2b.js:52-54 | The shift-and-mask rotation equals rotation of a 64-bit word for the four distances used. |
| Blake2b.IvIsRoot | web/blake2b.js:7-16 | The initial values are the fractional parts of the square roots of the first eight primes: for the k-th prime p and r the whole part of its root, r · 2^64 + IV[k] is the whole part of the root of p · 2^128. |
| Blake2b.FirstPrimes | web/blake2b.js:7-16 | The numbers under the roots are all the primes up to 19. |
| Blake2b.SigmaPermutes | web/blake2b.js:18-31 | Every row of the schedule of RFC 7693, section 2.7, is a permutation of 0 to 15. |
| Blake2bStream.IvHalves | web/blake2b.js:7-16 | The table of halves of this program is that of the initial values. |
| Blake2bStream.SigmaRows | web/blake2b.js:18-31 | The twelve rows of this program are the schedule with its first two rows repeated. |
| Blake2bStream.LOAD64 | web/blake2b.js:33-39 | Two loops of shifts and ors read eight bytes as one little-endian word. |
| Blake2bStream.HalfG | web/blake2b.js:56-65 | Half a mixing step: four words change as RFC 7693 says, twelve stay. |
| Blake2bStream.G | web/blake2b.js:56-65 | The in-place mixing is the function G of RFC 7693, section 3.1. |
| Blake2bStream.DoRound | web/blake2b.js:81-91 | Eight in-place mixings make one round of the schedule. |
| Blake2bStream.Context.SetUp | web/blake2b.js:71-75 | The working vector of section 3.2, with counter and final flag. |
| Blake2bStream.Context.LoadBlock | web/blake2b.js:77-79 | The buffer as sixteen message words. |
| Blake2bStream.Context.FeedForward | web/blake2b.js:93-95 | Both halves of the working vector are folded into the state. |
| Blake2bStream.Context.DoCompress | web/blake2b.js:67-96 | The compression function F of section 3.2 on the object’s state. |
| Blake2bStream.Context.constructor | web/blake2b.js:98-111 | A context that has absorbed nothing. |
| Blake2bStream.Context.Take | web/blake2b.js:113-122 | One byte: a context that has absorbed some message has absorbed it with the byte behind it, also when the byte makes a full buffer overflow. |
| Blake2bStream.Context.Update | web/blake2b.js:113-122 | Absorbing input after any message equals having absorbed their concatenation: no split matters. |
| Blake2bStream.Context.Final | web/blake2b.js:124-134 | Returns the digest of the absorbed message, empty and exact multiples of 128 bytes included. |
| Blake2bStream.AbsorbPrefix | web/blake2b.js:113-122 | The state after k blocks depends on no byte behind them. |
| Blake2bStream.Blake2b256Multi | web/blake2b.js:151-161 | Hashing several inputs is hashing their concatenation. |
| JsInt.XorPair | web/kdbx-read.js:102-121 | Signed 32-bit exclusive or on halves is exclusive or of 64-bit words. |
| Blake2bPairs.IvPairs | web/kdbx-read.js:81-84 | The table of pairs of this program is that of the initial values. |
| Blake2bPairs.SigmaRows | web/kdbx-read.js:86-97 | The ten rows of this program, taken modulo 10, are the schedule of all twelve rounds. |
| JsInt.SumPair | web/kdbx-read.js:101-104 | Adding halves with the carry taken by division is addition modulo 2^64. |
| JsInt.Rotate24 | web/kdbx-read.js:109-111 | Rotation by 24 moves the given parts between the halves. |
| JsInt.Rotate16 | web/kdbx-read.js:114-115 | Likewise by 16. |
| JsInt.Rotate63 | web/kdbx-read.js:118-119 | Likewise by 63. |
| JsInt.Funnel24 | web/kdbx-read.js:111 | A right shift by 24 or-ed with a left shift by 8, with its signed intermediate, is the funnel shift of two halves. |
| JsInt.Funnel1 | web/kdbx-read.js:119 | So is a left shift by 1 or-ed with a right shift by 31. |
| Blake2bPairs.QuarterPairs | web/kdbx-read.js:99-119 | On eight halves the additions, exclusive ors and rotations compute the four words of the 64-bit mixing function. |
| Blake2bPairs.B2bG | web/kdbx-read.js:99-121 | In place, on pairs of halves, it is G of RFC 7693; other words stay. |
| Blake2bPairs.SetUp | web/kdbx-read.js:123-127 | The copied and negated halves are the working vector. |
| Blake2bPairs.FeedForward | web/kdbx-read.js:135 | The nested compound assignment folds both halves of the working vector into the state. |
| Blake2bPairs.B2bCompress | web/kdbx-read.js:123-136 | The compression function on pairs of halves is F. |
| Blake2bPairs.OrByte | web/kdbx-read.js:151 | Or-ing a shifted byte into a half, sign bit included, adds it at its place. |
| Blake2bPairs.LoadNext | web/kdbx-read.js:151 | One byte of the chunk changes one half, at one place. |
| Blake2bPairs.LoadBlock | web/kdbx-read.js:150-151 | The loop loads a chunk, zero-padded, as sixteen words. |
| Blake2bPairs.StartState | web/kdbx-read.js:139-140 | The initial state with the parameter block for the output length. |
| Blake2bPairs.Emit | web/kdbx-read.js:154-156 | The bytes taken out of the halves are the first bytes of the state’s words. |
| Blake2bPairs.Hash | web/kdbx-read.js:138-157 | The one-shot hash equals the same `Digest` as `Blake2bStream.Context.Final`, for every message below 2^64 bytes and every length from 1 to 64: the two implementations agree. |
| Argon2.HPrime | web/kdbx-read.js:162-175 | The loop computes H′ in the closed form of RFC 9106, section 3.3: r = ceil(T/32) - 2 half links and one of the rest. |
| Argon2Compress.Limbs | web/kdbx-read.js:187-192 | With 16-bit limbs every intermediate stays below 2^53 and the two result halves make up the exact product. |
| Argon2Compress.LimbMultiply | web/kdbx-read.js:188-192 | The 32×32-bit product, exactly. |
| Argon2Compress.FBlaMka | web/kdbx-read.js:187-197 | a + b + 2 · lo(a) · lo(b) modulo 2^64. |
| Argon2Compress.BmG | web/kdbx-read.js:199-217 | In place on halves, it is the multiplying mixing function of RFC 9106, section 3.6. |
| Argon2Compress.RowPartition | web/kdbx-read.js:231-234 | The row offsets meet each of the 128 words once. |
| Argon2Compress.ColumnPartition | web/kdbx-read.js:235-238 | So do the column offsets. |
| Argon2Compress.PApply | web/kdbx-read.js:221-227 | The permutation P is applied to the sixteen words at the offsets; other words stay. |
| Argon2Compress.AllRows | web/kdbx-read.js:231-234 | Eight times over the rows. |
| Argon2Compress.AllColumns | web/kdbx-read.js:235-238 | Eight times over the columns. |
| Argon2Compress.AgPermute | web/kdbx-read.js:229-239 | Rows, then columns, as RFC 9106, section 3.5, has it. |
| Argon2Compress.AgCompress | web/kdbx-read.js:244-249 | G of section 3.5, xored over the old block when asked; blocks may overlap inputs, and the rest of the memory stays. |
| Argon2Index.WindowSize | web/kdbx-read.js:327-337 | The reference area is never empty and never the whole lane. |
| Argon2Index.WindowSound | web/kdbx-read.js:327-341 | Every position the formula can reach is one the RFC allows. |
| Argon2Index.WindowComplete | web/kdbx-read.js:327-341 | Every allowed position is reached. |
| Argon2Index.WindowInjective | web/kdbx-read.js:327-341 | By one relative position only: the window enumerates the allowed blocks exactly once. |
| Argon2Index.UmulHi | web/kdbx-read.js:252-257 | The high half of a square, exactly, by limbs. |
| Argon2Index.RelInWindow | web/kdbx-read.js:338 | The double-precision formula gives a position inside the area, and is exact for lanes up to 2^21 blocks. |
| Argon2Index.ReferenceAllowed | web/kdbx-read.js:325-341 | For every step and every J1 the reference is in bounds, allowed by RFC 9106, section 3.4.2, not the current or previous block, and in another lane outside the slice being filled. |
| Argon2.StepLooksOnlyAtView | web/kdbx-read.js:302-342 | A step’s new block depends only on its own lane and on other lanes outside the slice. |
| Argon2.SegmentFrame | web/kdbx-read.js:295-345 | A segment writes only its own lane’s part of the slice. |
| Argon2.SegmentLooksOnlyAtView | web/kdbx-read.js:295-345 | Memories that agree on what a segment may see still agree after it. |
| Argon2.SliceByLanes | web/kdbx-read.js:294-346 | After a slice each lane is as if it had been processed alone. |
| Argon2.LaneOrderIrrelevant | web/kdbx-read.js:294-346 | Processing the lanes of a slice in any two orders leaves the same memory. |
| Argon2Modes.AddressingExact | web/kdbx-read.js:297 | A step’s pseudo-random word is the same for all memories exactly if the variant is 1, or it is 2 and the step lies in the first half of the first pass. |
| Argon2Modes.WordFromMemory | web/kdbx-read.js:322-324 | In every other step it is the first word of the lane’s previous block. |
| Argon2Modes.OldBlockFolded | web/kdbx-read.js:342 | The overwritten block counts in later passes of version 0x13 only, where a change of it is the same change of the new block; everywhere else two memories that differ in it alone give the same new block. |
| Argon2Modes.DistanceExact | web/kdbx-read.js:338 | The reference lies d blocks back from the newest of its area, for d the whole part of area · x / 2^32 and x that of J1 · J1 / 2^32, both stated by inequalities. |
| Argon2Modes.MemorySize | web/kdbx-read.js:264-266 | The memory is the most blocks that divide into four slices of every lane without exceeding the given size, and at least eight per lane. |
| Argon2Filled.PreviousDone | web/kdbx-read.js:304-305 | In the first pass the block before the current one has been filled. |
| Argon2Filled.AllowedIsDone | web/kdbx-read.js:325-341 | In the first pass every block the RFC allows has been filled. |
| Argon2Filled.SegmentAgrees | web/kdbx-read.js:294-345 | Two memories that agree on the filled blocks agree on them, and on the new ones, after a segment. |
| Argon2Filled.UnfilledNeverRead | web/kdbx-read.js:290-349 | From the end of the first pass on, the memory depends on the seeded blocks alone: no unfilled block is ever read. |
| Argon2Program.CellUnique | web/kdbx-read.js:284-303 | Different lanes and positions have different places in the flat array. |
| Argon2Program.MemUpdate | web/kdbx-read.js:302-342 | Writing one block’s 256 words changes exactly that block of the matrix of blocks. |
| Argon2Program.InitialHash | web/kdbx-read.js:268-271 | H0 of RFC 9106, section 3.2. |
| Argon2Program.Machine.constructor | web/kdbx-read.js:273-291 | A zeroed memory and scratch buffers, all distinct. |
| Argon2Program.Machine.WriteBlock | web/kdbx-read.js:281-284 | 1024 bytes become one block; no other changes. |
| Argon2Program.Machine.Seed | web/kdbx-read.js:274-286 | The first two blocks of every lane are seeded from H0. |
| Argon2Program.Machine.PrepareInput | web/kdbx-read.js:312-317 | The input block for addresses holds pass, lane, slice, size, passes, variant and counter, and zeros. |
| Argon2Program.Machine.RefreshAddresses | web/kdbx-read.js:312-321 | The shared address block becomes that of the given counter. |
| Argon2Program.Machine.Draw | web/kdbx-read.js:308-325 | J1 and J2 are the pseudo-random word of the step, in both addressing modes, provided the address block is the one for this step’s counter. |
| Argon2Program.FindReference | web/kdbx-read.js:326-341 | Lane and position of the reference, as specified, inside the memory. |
| Argon2Program.Machine.DoStep | web/kdbx-read.js:302-342 | One step on the flat array is the specified step on the matrix of blocks. |
| Argon2Program.Machine.FillSegment | web/kdbx-read.js:295-345 | The loop regenerates the address block before each use and ends in the specified segment. |
| Argon2Program.Machine.FillSlice | web/kdbx-read.js:294-346 | All lanes of a slice. |
| Argon2Program.Machine.FillMemory | web/kdbx-read.js:292-349 | All slices of all passes. |
| Argon2Program.Machine.XorInto | web/kdbx-read.js:352-355 | The last blocks of the lanes are folded together. |
| Argon2Program.Machine.Finish | web/kdbx-read.js:351-358 | Returns the serialized exclusive or of the last column. |
| Argon2Program.Serialize | web/kdbx-read.js:356-358 | Halves are written as little-endian bytes of 64-bit words. |
| Argon2Program.RunArgon2 | web/kdbx-read.js:262-360 | The program returns the tag of RFC 9106, section 3.2, for either version, and refuses any other version. |
| KeyStream.XorAtTwice | web/export.js:97-111 | Applying the stream twice at the same position gives the data back. |
| KeyStream.ChaChaStream.constructor | web/export.js:97-100 | A stream of which nothing is used. |
| KeyStream.ChaChaStream.Xor | web/export.js:97-111 | Uses the next bytes of one endless key stream, whatever the lengths of earlier calls, and advances by the length of the data. |
| Cbc.UnchainChain | web/export.js:223-260 | Decrypting a CBC chain of whole blocks gives the plaintext blocks, for every lawful block cipher. |
| Cbc.DecryptEncrypt | web/export.js:223-260 | With PKCS #7 padding, decryption undoes encryption for every plaintext. |
| Cbc.ChainOverZeros | web/export.js:113-131 | The n-th ciphertext block over zeros is the cipher iterated n times on the initial vector, whatever follows. |
| Cbc.AesKdfHalf | web/export.js:119-131 | Chained over chunks of any positive size, the result is the cipher iterated exactly `rounds` times. |
| KdbxContainer.AesKdf | web/export.js:133-140 | Both halves transformed and hashed. |
| KdbxContainer.FieldBack | web/export.js:151-153 | A reader of header fields takes a written field off the front and goes on with the rest. |
| KdbxContainer.EntryBack | web/export.js:155-163 | A reader of the variant dictionary takes a written entry off the front under its key. |
| KdbxContainer.Le64Back | web/export.js:41-46 | Eight little-endian bytes give the number back, below 2^64. |
| KdbxContainer.WriteBlocks | web/export.js:270-283 | The loop emits the authenticated blocks of at most 2^20 bytes and the empty last one. |
| KdbxContainer.Seal | web/export.js:223-286 | The complete file for given seeds, password and document. |
| Xml.EscapeIsCharwise | web/export.js:172-177 | The five successive replacements treat each character by itself: no replacement touches the output of an earlier one. |
| KdbxWriter.RenderTimes | web/export.js:199-203 | The concatenated time elements are the rendering of one document tree. |
| KdbxWriter.RenderMeta | web/export.js:208-213 | So are the meta elements. |
| KdbxWriter.FieldText | web/export.js:187-196 | The text of a field is the rendering of its tree, and a protected value uses exactly its length of the key stream. |
| KdbxWriter.FieldsText | web/export.js:187-196 | Fields use the stream one after the other, in order; empty ones are left out. |
| KdbxWriter.EntryText | web/export.js:186-204 | An entry is the rendering of its tree and uses the stream for its protected values only. |
| KdbxWriter.EntriesText | web/export.js:206-208 | Entries use the stream in order. |
| KdbxWriter.DatabaseXml | web/export.js:206-219 | The document is the rendering of one tree, with the stream used in document order from its beginning. |
| Kdbx.BuildKdbx | web/export.js:223-286 | The whole file: document, stream and container together. |
| KdbxItems.NumberedInjective | web/export.js:339-341 | Different numbers give different labels “label (n)”. |
| KdbxItems.TakenShrinks | web/export.js:341 | Each number tried and taken leaves fewer taken ones ahead: the measure by which the renaming loop ends. |
| KdbxItems.ChooseKey | web/export.js:339-341 | The loop ends, with the label itself or the first numbered one that is free. |
| KdbxItems.KeysDistinct | web/export.js:322-346 | No exported entry has two fields of the same key, whatever labels the item has. |
| KdbxItems.FieldsForItem | web/export.js:323-345 | The loops with their set of used keys produce the specified field list. |
| Csv.BuildCsv | web/export.js:364-383 | The file is a byte order mark and the quoted rows, extra and custom fields folded into the notes. |
| Csv.CellBack | web/export.js:356-359 | A field parser gets every cell back from its written form, quotes, commas and line ends included, and stops behind it. |
| Csv.ExportParses | web/export.js:364-383 | Parsing an export gives the header, its first cell with the byte order mark, and the row of each item. |
| CsvColumns.ColumnsKept | web/export.js:377-380 | In the parsed file every login property and the secret stand unchanged under their headings, and the type in front. |
| CsvColumns.SplitJoinIff | web/export.js:379 | Joined parts are split off again as they were if and only if there are any and none contains the separator. |
| CsvColumns.TagsReadIff | web/export.js:379 | The tags can be split off at the semicolons if and only if there are any and none contains one. |
| CsvColumns.ReadingIff | web/export.js:374 | A folded line, taken apart at its first colon with a blank behind it, is its label and value if and only if the label has no such separator. |
| CsvColumns.LinesReadIff | web/export.js:373-375 | Lines joined by line breaks are read as their labels and values if and only if none has a line break in it or a separator in its label. |
| CsvColumns.FoldedReadIff | web/export.js:368-376 | Behind an item’s own notes the parsed file has its fields by type that have a value, then its custom fields that are not blank, and they are read back as labels and values if and only if none has a line break in it or a separator in its label. |
| CsvColumns.FieldsKept | web/export.js:368-376 | So every card, identity and custom field with a value is read back from the file with its label, whenever the values are single lines. |
| KdbxContainer.TextDecodeBack | web/kdbx-read.js:42-43 | Decoding UTF-8 gives the string back exactly if it does not start with U+FEFF, and otherwise without that character. |
| KdbxContainer.ParseHeaderFields | web/kdbx-read.js:529-544 | The cursor loop returns the fields, the last of each identifier, and where they end, or the error of a truncated header. |
| KdbxContainer.ParseVariantDict | web/kdbx-read.js:546-569 | The cursor loop reads the typed entries up to the end mark; a read past the end is a crash. |
| KdbxContainer.ParseBlocks | web/kdbx-read.js:633-650 | Checks and strips each block, and reports a truncated stream, a truncated block and a wrong HMAC as corrupt. |
| KdbxContainer.BlocksBack | web/kdbx-read.js:633-650 | Reading a written block stream passes every check and returns the ciphertext, however many blocks it has. |
| KdbxAuthentic.AcceptedIff | web/kdbx-read.js:635-651 | A block stream is accepted with a ciphertext if and only if it starts with the frames of non-empty chunks that make up the ciphertext, each with its length and the HMAC for its number, and then the frame of the empty chunk. |
| KdbxAuthentic.OtherwiseCorrupt | web/kdbx-read.js:638-647 | Every other stream is reported as corrupt. |
| KdbxAuthentic.FramesRead | web/kdbx-read.js:635-651 | Frames in front are read one by one, and their chunks are put in front of what follows. |
| KdbxAuthentic.ForgedBlock | web/kdbx-read.js:647 | A block whose stored HMAC is not the one computed, behind any number of good ones, makes the stream corrupt, whatever follows. |
| KdbxAuthentic.BlockInputs | web/kdbx-read.js:643-646 | Number, length, data and key base can be read off key and message of a block’s HMAC, so that blocks of different numbers share neither. |
| KdbxAuthentic.HeaderInput | web/kdbx-read.js:629-631 | The key of the header’s HMAC is taken of the number behind all block numbers. |
| KdbxAuthentic.KeyTexts | web/kdbx-read.js:622-627 | What the keys are taken of: UTF-8 that decodes to the password, hashed twice, and seed and derived key side by side, with a byte 1 behind them for the HMACs. |
| KdbxAuthentic.HeaderChanged | web/kdbx-read.js:615-620 | A file with a header in front of another hash is refused as corrupt, whatever follows and whatever the password. |
| KdbxAuthentic.OpenedIsAuthentic | web/kdbx-read.js:613-651 | Every file that is opened, with any password, consists of a header, its hash, its HMAC, frames with the HMACs for their numbers and the frame of the empty chunk. |
| KdbxAuthentic.OpenFront | web/kdbx-read.js:613-678 | A written file with its blocks replaced by anything: what it opens to depends on the ciphertext of the accepted stream alone. |
| KdbxAuthentic.BlocksCorruptIff | web/kdbx-read.js:635-651 | Such a file is refused as corrupt if and only if what stands for the blocks does not start with a stream of frames with the HMACs for their numbers. |
| KdbxAuthentic.ForgedFile | web/kdbx-read.js:647 | A written file with a block in it whose HMAC is not the one stored is refused as corrupt. |
| KdbxContainer.HexInjective | web/kdbx-read.js:52-54 | Comparing in hexadecimal, as the reader does, is comparing. |
| KdbxContainer.CipherId | web/kdbx-read.js:520 | The hexadecimal identifier the reader looks for is that of the bytes the writer writes, for the cipher. |
| KdbxContainer.KdfId | web/kdbx-read.js:523 | So it is for the key derivation. |
| KdbxContainer.EpochOffset | web/kdbx-read.js:732 | The offset of times is the seconds of the Gregorian years 1 to 1969. |
| KdbxContainer.ParseInner | web/kdbx-read.js:656-669 | The inner header’s loop, with the stream identifier and key. |
| KdbxContainer.InnerFieldBack | web/kdbx-read.js:656-669 | A written inner field is taken off the front. |
| KdbxContainer.HeaderBack | web/kdbx-read.js:614-616 | The written outer header is parsed into exactly its fields. |
| KdbxContainer.DictBack | web/kdbx-read.js:578-582 | Key derivation parameters come back, with the number of rounds exact below 2^53. |
| KdbxContainer.InnerBack | web/kdbx-read.js:656-669 | The written inner header gives ChaCha20, its key, and the document behind it. |
| KdbxContainer.PayloadBack | web/kdbx-read.js:598-609 | Decrypting with the written fields gives the payload. |
| KdbxContainer.ReadKdbx4 | web/kdbx-read.js:613-678 | All branches of the version 4 reader, in the order of the source. |
| KdbxContainer.Open | web/kdbx-read.js:786-802 | Signature and version dispatch. |
| KdbxContainer.OpenSealed | web/kdbx-read.js:613-678 | Opening a sealed file with its password passes signature, header hash, header HMAC, every block HMAC and the terminator, and yields exactly the document and stream key written. |
| KdbxContainer.WrongPassword | web/kdbx-read.js:629-631 | A password whose header HMAC differs is reported as a bad password, not as corruption. |
| Xml.DecodeEscaped | web/kdbx-read.js:451-460 | Decoding what the writer escaped gives the text without its control characters. |
| Xml.NothingToDecode | web/kdbx-read.js:452 | Text without an ampersand is its own decoding. |
| Xml.MarkupStep | web/kdbx-read.js:471-508 | One markup construct: comment, CDATA, declaration, end tag, start tag or empty element, with the error of each that is unterminated. |
| Xml.ParseTree | web/kdbx-read.js:462-510 | The loop over the stack ends on every input and computes the specified parse. |
| Xml.TextStep | web/kdbx-read.js:470 | Escaped text in front of markup is added, decoded, to the open element. |
| Xml.OpenStep | web/kdbx-read.js:486-508 | A start tag opens an element. |
| Xml.CloseStep | web/kdbx-read.js:488-491 | An end tag closes it. |
| Xml.ProtectedAttribute | web/kdbx-read.js:497-506 | The attribute loop reads the writer’s protection mark. |
| Xml.ParseElement | web/kdbx-read.js:462-510 | Parsing the rendering of any document tree, in front of anything, adds exactly its tree to the open element. |
| Xml.ParseChildren | web/kdbx-read.js:462-510 | So for a sequence of trees. |
| Xml.ParseDocument | web/kdbx-read.js:462-513 | The rendered document with its declaration parses into its tree. |
| KdbxReader.UnprotectTree | web/kdbx-read.js:755-761 | Decrypts protected values over the whole tree in document order with one shared stream. |
| KdbxReader.UnprotectChildren | web/kdbx-read.js:760 | The children in order. |
| KdbxReader.EntryFromXml | web/kdbx-read.js:763-782 | Fields, tags and times of an entry element. |
| KdbxReader.ReadKdbx | web/kdbx-read.js:786-838 | The complete reader: container, document, stream, groups. |
| Kdbx.TimeBackExact | web/kdbx-read.js:734-748 | Times come back to the second within the range of exact numbers. |
| Kdbx.TimeText | web/kdbx-read.js:734-748 | The written base64 time is read as a number, never mistaken for a date. |
| Kdbx.CleanExact | web/kdbx-read.js:755-761 | A plain value comes back unchanged exactly if it has no control characters. |
| Kdbx.FieldExact | web/kdbx-read.js:755-769 | A field comes back as it was if and only if its key has no control character and its value none either or, when protected, no leading U+FEFF. |
| Kdbx.TagsIff | web/kdbx-read.js:777 | Tags come back if and only if each is trimmed, not empty, and free of separators and control characters. |
| Kdbx.HiddenValue | web/kdbx-read.js:756-759 | Decrypting a protected value at the stream position where it was encrypted recovers it, and leaves the stream where the writer left it. |
| Kdbx.UnprotectField | web/kdbx-read.js:755-761 | A field’s tree is decrypted and the stream advances by the writer’s use. |
| Kdbx.UnprotectFields | web/kdbx-read.js:755-761 | Fields consume the stream in exactly the order in which they produced it. |
| Kdbx.UnprotectEntries | web/kdbx-read.js:755-761 | So do entries. |
| Kdbx.UnprotectDatabase | web/kdbx-read.js:755-761 | So does the whole database, from the start of the stream to the writer’s end position. |
| Kdbx.EntryNodeBack | web/kdbx-read.js:763-782 | An entry is extracted from its decrypted tree. |
| Kdbx.WalkEntries | web/kdbx-read.js:819-831 | The walk finds all entries in order. |
| Kdbx.DatabaseBack | web/kdbx-read.js:804-838 | Name and entries of the decrypted document. |
| Kdbx.RoundTrip | web/kdbx-read.js:786-838 | Reading a built file with its password gives the database name and every entry, for every entry list and every number of rounds below 2^53. |
| KdbxReader.WalkExact | web/kdbx-read.js:819-830 | The walk through the groups finds exactly the entries above which every element is a group and none is the recycle bin, in document order, each with the names of the groups on its way. |
| KdbxItems.EntryToItem | web/kdbx-read.js:876-930 | One entry becomes an item, or none, by the same branches. |
| KdbxItems.TitleFallback | web/kdbx-read.js:882-888 | An entry gives no item exactly if title, user name, password and URL are empty, and otherwise a title: the first with a text among title, user name, URL and the word KeePass. |
| KdbxItems.SecretSource | web/kdbx-read.js:909-914 | The secret is that of the field otp, or of TOTP Seed if there is no such field. |
| KdbxItems.SecretNotCustom | web/kdbx-read.js:909-921 | The field that gave the secret, TOTP Settings and empty fields do not become custom fields. |
| KdbxItems.GroupsAsTags | web/kdbx-read.js:924-925 | The tags stay in front, and behind them every named group of the path that was no tag stands once, and nothing else. |
| KdbxItems.CustomLoop | web/kdbx-read.js:915-920 | The leftover fields become custom fields. |
| KdbxItems.ValOfKept | web/kdbx-read.js:878-880 | With distinct keys the reader’s map has the value the writer put under a key, and no key for an empty value. |
| KdbxItems.KindBack | web/kdbx-read.js:894-906 | The reader finds the type of every nice item again. |
| KdbxItems.CustomBack | web/kdbx-read.js:915-920 | Custom fields come back, labels, values and protection, in order. |
| KdbxItems.ItemBack | web/kdbx-read.js:876-930 | Every nice item comes back from its exported entry exactly: logins, cards with a number or holder, identities with a full name. |
| KdbxItemsExact.CustomForced | web/kdbx-read.js:915-920 | Custom fields come back under their labels only if no label was empty, changed, taken or consumed, and no value empty. |
| KdbxItemsExact.NotClaimed | web/kdbx-read.js:886-914 | In an item that comes back no label is one that the reader takes for something else. |
| KdbxItemsExact.ItemBackIff | web/kdbx-read.js:876-930 | An item comes back from its entry if and only if it is nice, a condition on its title, type, secret and labels that can be checked before exporting. |
| KdbxJourney.FieldsStored | web/kdbx-read.js:755-769 | The fields that reach the file come back if and only if each is storable. |
| KdbxJourney.AllBack | web/kdbx-read.js:876-930 | All items of a vault come back from the entries read, in order. |
| KdbxJourneyExact.CustomForcedBack | web/kdbx-read.js:915-920 | Custom fields come back from a file only if none was renamed, consumed or changed in storage. |
| KdbxJourneyExact.RecordBackIff | web/kdbx-read.js:763-930 | A stored item comes back if and only if it is nice and its fields and tags are storable, given links that do not start with U+FEFF. |
| KdbxJourneyExact.VaultBackIff | web/kdbx-read.js:786-930 | Reading the exported file with its password gives all items back, in order, if and only if every one of them is nice and storable. |
| KdbxJourney.VaultBack | web/kdbx-read.js:786-930 | Exporting a vault of nice, storable items to a file and importing the file with its password gives all items back, in order. |
| Csv.Parser.ParseQuoted | web/import.js:18-36 | The quoted field from the cursor on, and the cursor behind it. |
| Csv.Parser.ParsePlain | web/import.js:37-42 | The plain field, up to a comma or line end. |
| Csv.Parser.ParseField | web/import.js:16-44 | Either kind, or the empty field. |
| Csv.Parser.ParseRow | web/import.js:47-55 | The fields of a row up to the first that no comma follows. |
| Csv.Parser.SkipLineEnd | web/import.js:56-58 | One line end of either kind. |
| Csv.RowAdvances | web/import.js:46-60 | On every text a row takes at least one character, so that the outer loop ends. |
| Csv.Parser.ParseAll | web/import.js:46-60 | The outer loop ends and returns the specified rows. |
| Csv.ParseCsv | web/import.js:11-63 | So does the whole parser. |
| Csv.RowBack | web/import.js:47-55 | A written row is read back in front of a line end, whatever its cells contain. |
| Csv.RowsBack | web/import.js:11-63 | Every list of non-empty rows of arbitrary strings is read back. |
| Csv.NoEmptyRows | web/import.js:46-60 | No text yields an empty row. |
| Csv.RoundTripIff | web/import.js:11-63 | Rows round-trip if and only if none is empty. |
| CsvImport.MapRows | web/import.js:126-143 | The loop maps the rows with a title that are not documents. |
| CsvImport.MapCsvToItems | web/import.js:108-172 | Both layouts, with the error of a missing title column. |
| CsvImport.HeaderlessImport | web/import.js:151-170 | Rows of seven cells (one-time password link, notes, password, title, type, URL, user name) without a header import as the logins they were written from, those without a title and documents left out. |
| CsvImport.ExportHeader | web/import.js:102-122 | The exporter’s header is recognized as one, and which columns are found in it. |
| CsvImport.ReimportedIff | web/import.js:108-146 | The login properties of an item come back if and only if it is no document, has a title, no outer white space, no folded lines and no secret. |
| CsvImport.ImportOfExportIff | web/import.js:108-146 | An exported file imports as all its items if and only if every one is such an item. |
| CsvImport.SecretLost | web/import.js:119-141 | An item that meets all conditions but the last comes back without its secret and otherwise unchanged. |
| CsvImport.SecretLostInFile | web/import.js:119-141 | A concrete login with a secret is such an item, and the file made of it imports without the secret. |
| CsvImport.ImportOfExport | web/import.js:108-146 | Importing an exported file gives the trimmed login fields of every item with a title and loses the one-time-password secret. |
| Srp.SignFix | web/srp.js:55-56 | Both sign fixes after the truncating `%` of BigInt give the Euclidean remainder, for negative operands too. |
| Srp.SquareStep | web/srp.js:58-62 | One step of square-and-multiply keeps the power modulo m. |
| Srp.ModPow | web/srp.js:55-64 | The loop returns the power modulo m, and 1 for the exponent 0. |
| Srp.ModPowExact | web/srp.js:55-64 | It is the modular power for every base and exponent if and only if not both the exponent is 0 and the modulus 1. |
| Srp.HexToBytes | web/srp.js:17-23 | Pairs of digits become bytes. |
| Srp.EvenHexPairs | web/srp.js:30-35 | The digits of a number, made even in number, are the digits of its shortest byte form. |
| Srp.BigintToMinBytes | web/srp.js:30-35 | Returns the shortest big-endian bytes, one zero byte for zero. |
| Srp.MinBytesValue | web/srp.js:30-35 | They denote the number and have no leading zero, except for zero itself. |
| Srp.MinBytesIsGoBytes | web/srp.js:29-35 | The shortest bytes are those of Go’s big.Int if and only if the number is not zero. |
| Srp.TwoIsInvertible | web/srp.js:12-14 | 2 is invertible modulo every odd number. |
| Srp.NoZeroHashed | web/srp.js:104-130 | With an invertible generator neither g, A nor, for an honest server’s B, the secret S is zero. |
| Srp.ZeroSecret | web/srp.js:104-117 | For a B congruent to k · v the secret is zero. |
| Srp.Pad | web/srp.js:38-43 | Returns the bytes padded in front to the field size, longer ones unchanged. |
| Srp.PaddedValue | web/srp.js:38-43 | Padding does not change the value, and gives the field size unless the number is too long. |
| Srp.Hash | web/srp.js:46-48 | The hash of several byte strings is BLAKE2b-256 of their concatenation. |
| Srp.ScramblerText | web/srp.js:103-104 | The text hashed for u has A and B side by side in field size: both can be read off, so that no other pair of group elements has the same text. |
| Srp.MultiplierText | web/srp.js:73-76 | The text hashed for k has N without leading zeros in front and the generator in field size behind. |
| Srp.PrivateKeyText | web/srp.js:107-108 | The text hashed for x has the hash of the identity, that of the password and the salt, and each can be read off. |
| Srp.ProofText | web/srp.js:117-129 | The proof is the hash of K, A, B, the hashed identity, the salt, N and g, in this order. |
| Srp.ClientBase | web/srp.js:107-112 | B - k · g^x is congruent to g^b, also when the difference is negative. |
| Srp.SecretsAgree | web/srp.js:107-114 | (B - k · g^x)^(a + u · x) and (A · v^u)^b are congruent modulo N, for all a, b, x, u and k. |
| Srp.ClientSecretIsServerSecret | web/srp.js:107-114 | The value S as the code computes it is the server’s S of RFC 5054, section 2.6. |
| Srp.GenerateVerifier | web/srp.js:142-154 | The verifier is g^x modulo N for the x of identity, password and salt. |
| Srp.Client.constructor | web/srp.js:79-86 | The client’s hashes, A and k. |
| Srp.Client.Generate | web/srp.js:94-132 | Rejects B divisible by N and u = 0, and otherwise sends the proof of the key it computed; the object keeps both. |
| Srp.Login | web/srp.js:79-154 | A whole login: with the verifier of the same identity, password and salt the client sends a proof unless B or u is zero, both sides hold the same key, and the server’s proof is accepted. |
| Generator.CountWords | web/generator.js:9-20 | Below q · max, each residue has exactly q words. |
| Generator.Unbiased | web/generator.js:9-20 | The accepted words are equally many for every residue: floor(2^32 / max). |
| Generator.SomeWordAccepted | web/generator.js:9-20 | Some word is accepted if and only if max is at most 2^32: the loop can end. |
| Generator.RandomSource.RandomInt | web/generator.js:9-20 | Takes the first accepted word and skips only rejected ones. |
| Generator.Pick | web/generator.js:23-25 | The character that the residue of the first accepted word selects. |
| Generator.Shuffle | web/generator.js:28-36 | The in-place loop applies the swaps of the drawn indices, each within range, and keeps the contents. |
| Generator.PartlyIsShuffled | web/generator.js:28-36 | Swapping in place step by step is drawing elements from the end, the recursive form of the shuffle. |
| Generator.ShufflePermutes | web/generator.js:28-36 | Every index sequence gives a permutation. |
| Generator.ShuffleInjective | web/generator.js:28-36 | Different index sequences give different orders of distinct elements. |
| Generator.ShuffleSurjective | web/generator.js:28-36 | Every order is reached. |
| Generator.ShuffleBijective | web/generator.js:28-36 | Each order by exactly one index sequence. |
| Generator.DrawsAre | web/generator.js:9-36 | The drawn sequences for given indices are exactly those with an accepted word of the right residue at each step. |
| Generator.WaysCounts | web/generator.js:9-36 | Their number is the product of the words for each step. |
| Generator.OrdersEquallyLikely | web/generator.js:9-36 | Every index sequence, hence every order, comes from the same number of sequences of accepted words, one for each step. |
| Generator.StripIsFilter | web/generator.js:57-64 | Removes exactly the ambiguous characters: it decides character by character and keeps order and repetitions. |
| Generator.Alphabets | web/generator.js:52-56 | The classes are the alphabet in both cases, the ten digits, and signs, none of which is ambiguous. |
| Generator.OneOfEach | web/generator.js:80-82 | One character of each class, in order. |
| Generator.FillUp | web/generator.js:84 | Characters of the pool up to the length. |
| Generator.Covered | web/generator.js:79-89 | Shuffling loses no class. |
| Generator.GeneratePassword | web/generator.js:42-90 | The password has the length, only characters of enabled classes and, when it is long enough, one of each; without a class it fails. |
| Cbor.ConcatBytes | extension/webauthn.js:46-52 | The filling loop writes the concatenation. |
| Cbor.Head | extension/webauthn.js:58-67 | A head exists exactly for arguments below 2^32. |
| Cbor.HeadBack | extension/webauthn.js:58-67 | A decoder of RFC 8949, section 3, reads major type and argument of every head, whatever follows. |
| Cbor.DecodeEncode | extension/webauthn.js:69-90 | Decoding an encoded value followed by anything gives the value and what follows: the encoding is self-delimiting and invertible at every nesting. |
| Cbor.ItemsBack | extension/webauthn.js:79-81 | So for the items of an array. |
| Cbor.EntriesBack | extension/webauthn.js:82-86 | So for the entries of a map, in insertion order. |
| Cbor.EncodeInjective | extension/webauthn.js:69-90 | Equal encodings come from equal values. |
| Cbor.EncodesExactly | extension/webauthn.js:69-90 | Encoding fails if and only if an integer, length or count anywhere inside is 2^32 or more. |
| Der.DerInteger | extension/webauthn.js:135-141 | The scanning loop writes the tag, the length modulo 256 and the content of an INTEGER. |
| Der.ContentValue | extension/webauthn.js:135-141 | The content has the value of the bytes, is not negative and is as short as DER demands. |
| Der.IntegerBack | extension/webauthn.js:135-141 | A DER reader recovers the value and what follows if and only if the content has at most 127 bytes, the most that a one-byte length can tell. |
| Der.RawSigToDer | extension/webauthn.js:143-149 | 64 raw bytes become a DER signature of at most 72 bytes from which both integers are read; other lengths are refused. |
| Der.SignatureDetermines | extension/webauthn.js:143-149 | The two integers determine the raw signature: nothing is lost. |
| Utf8.DecodeEncode | extension/webauthn.js:76-77 | UTF-8 of every string of Unicode scalar values decodes to it. |
| Utf8.EncodeInjective | extension/webauthn.js:76-77 | Different strings have different UTF-8. |
| ItemProtocol.RowsKept | internal/repository/item_repo.go:101-117 | Every statement keeps each row equal to the last commit of its item. |
| ItemProtocol.HistoryKept | internal/repository/item_repo.go:93-105 | Every statement keeps each history row a copy of the version its transaction overwrote. |
| ItemProtocol.ArchivesKept | internal/repository/item_repo.go:93-123 | Every statement keeps every earlier version archived. |
| ItemProtocol.WritersKept | internal/repository/item_repo.go:107-123 | Each committed version has one writer, and it is the transaction that says so. |
| ItemProtocol.TxKept | internal/repository/item_repo.go:90-127 | What an unfinished transaction knows about the row stays true while others commit. |
| ItemProtocol.LocksKept | internal/repository/item_repo.go:107-111 | At most one transaction holds the row lock of an item. |
| ItemProtocol.StepKeeps | internal/repository/item_repo.go:90-142 | Every statement of every transaction keeps the invariant. |
| ItemProtocol.RunsKeep | internal/repository/item_repo.go:90-142 | So does every run whose requests had been read before they began. |
| ItemProtocol.ExactlyOneRowEach | internal/repository/item_repo.go:90-127 | In every reachable state an item at version v has exactly one history row for each earlier version, with the ciphertext and author committed as that version, and no other row. |
| ItemProtocol.OneCommitPerVersion | internal/repository/item_repo.go:107-123 | No two transactions commit the same version, and the committed version is the requested one plus one with the requested ciphertext. |
| ItemProtocol.NoTrace | internal/repository/item_repo.go:102-121 | A transaction that conflicts, fails or has not committed leaves no history row. |
| ItemProtocol.HistoryInOrder | internal/repository/item_repo.go:144-157 | Of two history rows of an item the one of the later version is never dated earlier, so that listing by time lists by version. |
| ItemProtocol.LogGrows | internal/repository/item_repo.go:107-123 | What was once committed stays in the log whatever happens after. |
| ItemProtocol.NothingLost | internal/repository/item_repo.go:90-127 | A row read in any reachable state is, later in any run, still the row or archived with its ciphertext. |
| ItemProtocol.Uninterrupted | internal/repository/item_repo.go:90-127 | A transaction with the current version that meets no lock commits. |
| ItemProtocol.Updates | internal/repository/item_repo.go:90-127 | From any such state n further updates can be committed. |
| ItemProtocol.FutureVersionLoses | internal/repository/item_repo.go:93-111 | A request with a version newer than the row can lead to a state with a version that is not archived: the run is constructed. |
| ItemProtocol.SafeIffReadBefore | internal/repository/item_repo.go:90-127 | For a request all further runs keep history complete if and only if its version is not newer than the row when its transaction begins. |
| ItemProtocol.ItemRepository.constructor | internal/repository/item_repo.go:46-48 | An empty database satisfies the invariant. |
| ItemProtocol.ItemRepository.Create | internal/repository/item_repo.go:50-60 | The row at version 1, the item with that version, and nothing else. |
| ItemProtocol.ItemRepository.Update | internal/repository/item_repo.go:90-127 | Without interference: succeeds exactly if the version is current, then archives the old row, writes the new and puts the new version into the item; a conflict changes neither rows nor history nor the item. |
| ItemProtocol.Finished | internal/repository/item_repo.go:90-127 | The three statements of an update in a row end in a conflict or in the bumped state, by the version alone. |
| ItemProtocol.ItemService.Update | internal/service/item_service.go:80-101 | Not found exactly if the row is missing or in another vault; success exactly if the request’s version is current, with the request’s ciphertext, version and user in the row and in the result; otherwise rows and history stay. |

## Left out

- Text is a sequence of Unicode scalar values. Lone surrogates, which JavaScript strings may hold and `TextEncoder` replaces, are not in the model; a numeric XML reference to one is treated as a crash.
- Typed arrays passed between functions are arrays where they are written in place, and sequences where they are only read.
- The elements that the XML parser mutates on its stack, and the tree `unprotectAll` rewrites, are values: sharing of nodes is not modelled. `attrs` of an element has no inherited properties; that the entity table has some is a parameter.
- Platform functions stay parameters: SHA-256, SHA-512, HMAC, the AES block cipher, the ChaCha20 block function, base64, replacement of invalid UTF-8, `Date.parse`, `toLowerCase` of header cells, and `Number` above 2^53.
- The codec of one-time-password links (`otpauthUri`, `totpSecretFrom`, `extractTOTPSecret`) is a pair of parameters. Of the link `VaultBackIff` assumes that it does not start with U+FEFF, as every link starts with `otpauth://`.
- Argon2Program.RunArgon2: requires lanes of at most 2^21 blocks, because beyond them the product in the reference formula may leave the exact range of doubles, and block counts below 2^32. Progress callbacks and yielding between slices are left out.
- The module variables `fmLo` and `fmHi` are results of `FBlaMka`.
- The KDBX reader’s branches for files the writer never produces: version 3.1, ChaCha20 and Twofish as outer cipher, Argon2 as key derivation, gzip, the Salsa20 and ARC4 inner streams. They end in the outcome `Elsewhere`.
- KdbxContainer.ReadKdbx4: does not follow other ciphers, Argon2 as key derivation or gzip, which the writer never produces, and does not return the number of attachments.
- KdbxContainer.Open: does not follow version 3.1 files, which the writer never produces.
- KdbxReader.ReadKdbx: does not follow what the two above do not, and does not return the number of attachments.
- KdbxContainer.WrongPassword: assumes that the two passwords give different header HMACs, because nothing is assumed of the hashes.
- KdbxAuthentic.HeaderChanged: assumes that the stored hash is not that of the header, because nothing is assumed of the hashes.
- KdbxAuthentic.ForgedFile: assumes that the stored HMAC is not that of the block, because nothing is assumed of the hashes.
- QrReader.GridReads: is about undamaged symbols; correcting errors by the check codewords is not part of the model, only the distances that make it possible.
- QrPenalty.ScoreN4: compares exact fractions where the source divides doubles.
- Hexadecimal parsing of server credentials and the text form of verifier and proofs in SRP; the group is any modulus above 1 with any generator, of which the source’s 2048-bit group is one.
- The INTEGER width of versions, access checks, vault deletion and erased authors. The clock is assumed not to run backwards.
- ItemProtocol.ItemService.Update: covers a call that no other transaction interrupts, like the repository's, and a user whose access has been checked.
- ItemProtocol.ItemRepository.Update: covers a call that no other transaction interrupts; interleaved calls are runs of events, and the lemmas about runs cover them.
- `generatePassphrase`, entropy estimates, 1PIF import, JSON export, COSE keys and attestation objects: they would add easy members only.
- Handlers, middleware, mail, identity providers, database access beyond the statements above, user interface, service worker and native shells.
