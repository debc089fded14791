# Verified core of Arkeion

Arkeion is an embedded, versioned, auditable database engine. This project models its
hand-written algorithms in Dafny and proves what the engine promises of them. Each
module is named after the part it models and says in its header which source file that is.
`dafny verify dfyconfig.toml` checks everything.

- **Error correction** (`src/ecc.rs`): `Gf256`, `Polynomials`, `PolynomialLoops`,
  `Syndromes`, `Codewords`, `BerlekampMassey`, `Forney`, `Encoder`, `Ecc`, `EccBlocks`. From the field
  tables to the theorem that `correct` returns exactly the original page whenever each of
  its codewords is damaged in at most `nsym / 2` bytes, and never wrong data within that budget.
- **Compression** (`src/compress.rs`, `src/format.rs`): `Bytes` (varints), `RangeCoder`,
  `Lzss`, `Densa`. Both coders decode to their input on every input, and never inflate.
- **Formats** (`docs/02-formato-archivo.md`): `Formats` and `KeyFormats`. Headers, slots, commit pages, hashed
  messages, records, keys and posting cells as bytes at offsets, independently of the functions that write them.
- **The log** (`src/commit.rs`, `src/pager.rs`, `src/tx.rs`): `LittleEndian`, `Commit`,
  `Records`, `PageCache`, `Pager`, `Recovery`, `AuditEvidence`, `AuditedWriting`,
  `AuditMeaning`, `RecoveredAudit`, `Store`, `Opening`, `CrashSafety`, `TornTail`, `Openability`,
  `CrashExample`. Files opened byte by byte; pages as framed, sealed, corrected records; the CLOCK cache;
  recovery and audit as methods over the pager; the commit protocol as a state machine
  whose crash step keeps any bytes of any subset of the unsynced writes.
- **Keys** (`src/keyenc.rs`, key layouts of `src/catalog.rs`): `KeyEnc`, `Keys`. Codes that
  sort as their values and of which none begins another; scans that hit exactly what is asked.
- **Full-text index** (`src/catalog.rs`): `Fts`, `FtsUpkeep`, `FtsBulk`, `PostingCodec`,
  `SortedSets`, `Windows`, `FtsQuery`. Maintained, rebuilt and queried; searching the index
  finds exactly the rows that the row-by-row evaluator accepts.
- **Rows and secondary indexes** (`src/catalog.rs`): `TableRows`, `BulkUnique`.
- **Queries** (`src/exec.rs`): `Expressions`, `Pushdown`, `JoinMeaning`, `AccessPaths`, `PlanMeaning`,
  over `Selections`. Pushdown through joins and the planner's index paths change nothing in
  the result, and what the result is is stated row by row, by index and by truth table.

Code that changes things step by step is a method over the same arrays, fields and buffers,
proved against a function that says what it is to compute; the properties are lemmas about
those functions. Where two sides of a theorem share a function, a lemma named `…Means` or `…Mean`
says what it computes without using it. Parts the engine calls into are parameters: the cipher (opening undoes
sealing for the same page), SHA-256 (`Env.sha`, collision-free only among the messages that
the audits in question hash), UTF-8 validity, the tokenizer, and the operators and functions
of SQL other than AND, OR and the comparisons.

## Findings

Where the code does not do what its documentation says, the model follows the code.

1. *A half-written commit can be adopted.* `docs/02-formato-archivo.md:207-212` says that it
   never is, because the data pages come before the commit page and recovery stops at the
   first unreadable one. The torn tail is only dropped logically, though, so a stale commit
   page can still lie in the file when a later transaction's data pages are written in front
   of it. `CrashSafety.StaleTailCanBeAdopted` builds the run from any two first commits with
   data records of one length, and `CrashExample.HalfWrittenCommitIsAdopted` is a concrete
   one. What still holds: nothing synced is lost and whatever is adopted was written as that
   commit page (`NoSyncedCommitIsLost`, `RecoveredWasWritten`); where no torn tail was in the
   file at opening and no transaction failed while writing, recovery is exact and every log
   passes its audit (`CleanRecoveryIsExact`, `CleanRunsStayAudited`). Over the bytes of the
   file, a stale commit is adopted exactly when what lies behind the new data records parses
   and opens as a commit page that follows the head (`TornTail.AdoptsStaleExactly`); and the
   audit that may follow recovery passes exactly when every adopted commit has the data pages
   it was written with (`Store.RecoverAndVerify`).
2. *A store with both meta slots torn does not open.* `docs/02-formato-archivo.md:219` promises
   a full scan, but `read_meta` returns an error. `Openability.OpenableExactly` says exactly
   when a store can be opened after any power loss; `AlternationRewritesTheSurvivor` shows
   that alternation writes over the surviving slot next, and `CrashExample.BothSlotsCanBeLost`
   is a run of two power losses that ends there with its log whole.
3. *The right key can be refused as wrong.* `docs/02-formato-archivo.md:222` has a torn tail
   ignored, but an encrypted file is only opened if its first page opens, before recovery has
   looked at the tail. Until the first commit is synced, the first record can be on disk
   without its payload (`CrashExample.TornFirstCommitIsRefused`). `OpenableExactly` shows that
   a synced commit rules this out, `KeyedOpenableExactly` that nothing else does while the
   zone is empty on disk.
4. `copy_within` fills the power table only up to entry 509 (`BuildTables`); no lookup reaches
   the last two. `correct` on empty data accepts any `nsym` bytes as its parity, as well as
   none, though the parity of empty data is empty (`Ecc.Correct`).
5. The chain hash does not cover flags, parent page, previous page, nonce counter or the
   number of pages; the number is tied down by the content hash all the same
   (`SameHashSameCommit`).

## Model

| member | source | states |
|---|---|---|
| `Gf256.BuildTables` | src/ecc.rs:26-44 | the loop leaves `exp[i]` the i-th power of the generator for i below 510 and `log` its inverse on the 255 nonzero bytes (`copy_within` leaves `exp[510]` and `exp[511]` zero) |
| `Gf256.LookupMul` | src/ecc.rs:46-52 | looking the product up in those tables, with the two-exponent sum unreduced, is multiplication in the field |
| `Gf256.MulIsCarryless` | src/ecc.rs:46-52 | multiplication by logarithms is shift-and-add multiplication of bit polynomials modulo 0x11D, for all bytes |
| `Gf256.TwiceMeans` | src/ecc.rs:26-44 | the step of the power table is linear, doubles below 128 and takes x^7 to x^4 + x^3 + x^2 + 1: it is multiplication by x |
| `Gf256.OrderIs255` | src/ecc.rs:26-44 | 2 is a generator: no positive exponent below 255 gives 1 |
| `Gf256.LogOfNonzero` | src/ecc.rs:26-44 | every nonzero byte is a power of the generator, and `log` names its exponent |
| `Gf256.MulAssociates` | src/ecc.rs:46-52 | field law: multiplication associates |
| `Gf256.MulDistributes` | src/ecc.rs:46-52 | field law: multiplication distributes over xor, on both sides |
| `Gf256.MulInv` | src/ecc.rs:64-67 | `inv` gives the multiplicative inverse of every nonzero byte |
| `Gf256.DivIsInverseOfMul` | src/ecc.rs:54-62 | `div(a, b)` is the value that times b gives a |
| `Gf256.PowAdd` | src/ecc.rs:70-73 | `pow` turns sums of exponents, negative ones included, into products |
| `Polynomials.EvalProduct` | src/ecc.rs:91-107 | the value of a product is the product of the values |
| `Polynomials.EvalLeading` | src/ecc.rs:101-107 | coefficients are place values, the first byte of n + 1 that of x to the n |
| `Polynomials.TooManyRoots` | src/ecc.rs:101-107 | a polynomial with as many distinct roots as coefficients is zero |
| `Polynomials.PowerSumsVanish` | src/ecc.rs:153-159 | if as many consecutive power sums as there are distinct nonzero locators vanish, every error value is zero |
| `PolynomialLoops.PolyAdd` | src/ecc.rs:79-89 | the aligned xor loop computes the polynomial sum |
| `PolynomialLoops.PolyEval` | src/ecc.rs:101-107 | Horner's loop computes the value |
| `PolynomialLoops.PolyMul` | src/ecc.rs:91-99 | the double loop computes the product |
| `PolynomialLoops.ReduceRow` | src/ecc.rs:110-125 | one in-place division step, zero coefficients skipped, adds exactly a multiple of the divisor into the buffer and touches nothing else |
| `PolynomialLoops.PolyDiv` | src/ecc.rs:110-125 | division with remainder at every point: dividend = quotient * divisor + remainder, for monic divisors |
| `Syndromes.AnnihilatorHasTheRoots` | src/ecc.rs:162-190 | a polynomial that annihilates as many syndromes as there are errors vanishes at every inverse error locator |
| `Syndromes.NoDiscrepancyAfterEnough` | src/ecc.rs:162-190 | Massey's bound: a polynomial that has annihilated enough syndromes annihilates the next |
| `Codewords.SyndromesExplained` | src/ecc.rs:153-159 | the syndromes of a damaged codeword are the power sums of the damage alone: error values over error locators |
| `Codewords.MinimumDistance` | src/ecc.rs:128-150 | distinct codewords of at most 255 bytes differ in at least nsym + 1 places |
| `Codewords.NearestCodewordIsUnique` | src/ecc.rs:241-259 | no word has two codewords within nsym / 2 of it |
| `BerlekampMassey.Discrepancy` | src/ecc.rs:162-190 | the discrepancy loop computes the next syndrome as seen through the current locator |
| `BerlekampMassey.Iterate` | src/ecc.rs:162-190 | the Berlekamp-Massey loop ends with a polynomial that annihilates all syndromes and is no longer than any error pattern explaining them needs |
| `BerlekampMassey.ErrorLocator` | src/ecc.rs:162-190 | whenever at most nsym / 2 errors explain the syndromes, the result is Some, of exactly that degree, with the inverse locators as roots; any Some has degree at most nsym / 2 |
| `BerlekampMassey.ErrorPositions` | src/ecc.rs:195-205 | the Chien search lists every root in the block, or refuses when their number is not the degree |
| `BerlekampMassey.ChienFindsTheErrors` | src/ecc.rs:195-205 | for a locator of the right length those roots are exactly the damaged positions, in order |
| `Forney.EvaluatorAtInverse` | src/ecc.rs:208-237 | the error evaluator at an inverse locator is the error value times the product of the other factors |
| `Forney.ForneyValue` | src/ecc.rs:208-237 | Forney's quotient is exactly the error value, and its denominator is never zero |
| `Encoder.GenPoly` | src/ecc.rs:128-134 | the loop multiplies out the generator polynomial |
| `Encoder.GeneratorRoots` | src/ecc.rs:128-134 | the first nsym powers of the generator are its roots |
| `Encoder.EncodeBlock` | src/ecc.rs:137-150 | data followed by its parity is a codeword of nsym zero syndromes, for every data and nsym |
| `Ecc.SyndromesOf` | src/ecc.rs:153-159 | entry i + 1 is the word's value at the i-th power, entry 0 is the padding zero |
| `Ecc.ZeroSyndromesMeanCodeword` | src/ecc.rs:241-259 | all syndromes are zero if and only if the word is a codeword |
| `Ecc.LocatorFromPositions` | src/ecc.rs:208-237 | the locator rebuilt from the positions is the product of the factors of those positions |
| `Ecc.ErrorEvaluator` | src/ecc.rs:208-237 | dividing reversed syndromes times locator leaves the error evaluator's coefficients |
| `Ecc.DerivativeAt` | src/ecc.rs:208-237 | the loop computes the product over all the other locators |
| `Ecc.CorrectErrata` | src/ecc.rs:208-237 | in place: only the listed positions change, and when they are the places in which the message differs from some codeword, the message becomes that codeword |
| `Ecc.DecodeBlock` | src/ecc.rs:241-259 | a block damaged in at most nsym / 2 of its bytes, data or parity, comes back exactly; any Some is within nsym / 2 of the received word |
| `Ecc.ParityLenStep` | src/ecc.rs:262-270 | the parity length counts nsym bytes for each block of the page |
| `Ecc.Parity` | src/ecc.rs:274-282 | the parity of a page has that length and completes every block to a codeword |
| `Ecc.ParityIsUnique` | src/ecc.rs:274-282 | only one parity does |
| `Ecc.Correct` | src/ecc.rs:287-302 | for every page, nsym from 1 to 254 and damage of at most nsym / 2 bytes in each codeword, correction returns exactly the original; any Some is within budget of what was read; a parity of the wrong length is refused, but that empty data takes any nsym bytes too |
| `Ecc.PlausibleIsRecoverable` | src/ecc.rs:287-302 | whatever correction can return is a page whose own parity the damage reaches within budget |
| `Ecc.SameRecoverable` | src/ecc.rs:287-302 | no damage is within budget of two different pages, so a result within budget is never wrong data |
| `EccBlocks.DistanceMeans` | src/ecc.rs:241-259 | the distance of two words is the number of places in which they differ |
| `EccBlocks.ParityLenMeans` | src/ecc.rs:262-270 | nsym parity bytes for each block, and as many blocks of 255 - nsym data bytes as the page takes |
| `EccBlocks.ParityMeans` | src/ecc.rs:274-282 | parity by index: bytes k * nsym and on complete data bytes k * (255 - nsym) and on to a codeword, for every block k, and there are no others |
| `EccBlocks.BudgetMeans` | src/ecc.rs:287-302 | damage is within budget exactly when in every such block, data and parity together, at most nsym / 2 bytes differ |
| `Bytes.PutVarint` | src/format.rs:233-243 | the loop appends the LEB128 code of the value |
| `Bytes.TakeVarint` | src/format.rs:250-265 | the loop reads one code or refuses: at the end of the input, or after ten bytes that all continue; bits past the 64th are dropped |
| `Bytes.VarintRoundTrip` | src/format.rs:233-265 | every 64-bit value reads back whatever follows it, consuming exactly its own bytes |
| `Formats.VarintMeans` | src/format.rs:233-243 | byte i of the code has the number's i-th seven bits, all but the last have the top bit, and no shorter code would do |
| `Formats.TakeMeans` | src/format.rs:250-265 | reading ends at the first byte below 128 and refuses exactly if none of the first ten is; up to nine bytes are the code of what is read |
| `RangeCoder.RangeModel.constructor` | src/compress.rs:288-293 | the model starts uniform |
| `RangeCoder.RangeModel.Cum` | src/compress.rs:296-298 | the loop sums the frequencies of the smaller symbols |
| `RangeCoder.RangeModel.Find` | src/compress.rs:301-313 | the scan returns the symbol whose interval holds the target, the last symbol beyond the total, with its cumulative and own frequency |
| `RangeCoder.RangeModel.Halve` | src/compress.rs:315-325 | rescaling halves every frequency, none to zero, and recounts the total |
| `RangeCoder.RangeModel.Update` | src/compress.rs:315-325 | the in-place update is the model's step, keeps the model valid, and no 16-bit frequency overflows, not even between the increment and the rescaling |
| `RangeCoder.UpdateKeepsValid` | src/compress.rs:315-325 | every frequency stays at least 1, the total stays their sum and below 2^15 |
| `RangeCoder.UpdateMeans` | src/compress.rs:315-325 | below the limit exactly the coded symbol's frequency grows, by 24, and the total with it; at the limit all frequencies are halved to odd numbers and recounted |
| `RangeCoder.XorTestIsSameTop` | src/compress.rs:342-362 | the source's test, a small xor of the two ends as 32-bit machine words, is exactly equality of the top bytes of the two numbers, with the upper end wrapped |
| `RangeCoder.SameTopStep` | src/compress.rs:342-362 | renormalising under equal top bytes multiplies the interval by 256 exactly and leaves low + range below 2^32 |
| `RangeCoder.UnderflowStep` | src/compress.rs:342-362 | the underflow branch cuts the range to a nonempty part of itself and ends at low + range = 2^32; together with the same-top step this bounds the loop |
| `RangeCoder.NarrowStep` | src/compress.rs:335-345 | range / total is at least 1, the symbol's interval lies inside the old one, and nothing wraps: low + range <= 2^32 always |
| `RangeCoder.EncodedWindow` | src/compress.rs:331-414 | the decoder's four-byte window on the encoder's output always lies in the encoder's interval: code - low < range throughout |
| `RangeCoder.DecodeInvertsEncode` | src/compress.rs:331-414 | from any valid interval and model, decoding the encoded bytes gives the input back with the window ending on the stream's last four bytes |
| `RangeCoder.ShiftOut` | src/compress.rs:342-368 | the encoder's renormalisation loop terminates and emits exactly the bytes of the specification |
| `RangeCoder.FlushOut` | src/compress.rs:331-368 | the final loop appends the four bytes of low |
| `RangeCoder.ShiftIn` | src/compress.rs:373-414 | the decoder's renormalisation loop slides the window by as many bytes as the encoder emitted for the same interval |
| `RangeCoder.DecodeSymbol` | src/compress.rs:373-414 | one decoder step selects the symbol whose sub-interval holds the code, and narrows as the encoder did |
| `RangeCoder.RcCompress` | src/compress.rs:331-368 | returns the encoding exactly when the input is long enough and the encoding is strictly shorter |
| `RangeCoder.RcDecompress` | src/compress.rs:373-414 | the decoder loop computes the decoding specification, for any bytes whatever |
| `RangeCoder.RoundTrip` | src/compress.rs:331-414 | decoding undoes encoding for every input, and every emitted byte is consumed exactly once |
| `Lzss.TakeTokenInverts` | src/compress.rs:225-261 | each written token, literal or match, short or extended, reads back as itself |
| `Lzss.TakeGroupInverts` | src/compress.rs:225-261 | so does a group of at most eight tokens under its flag byte |
| `Lzss.TakeGroupsInverts` | src/compress.rs:225-261 | and a whole serialized token list, using up the stream |
| `Lzss.TokenMeans` | src/compress.rs:134-223 | twelve bits of offset less one, four of length less three, or 15 and a byte of length less eighteen |
| `Lzss.GroupMeans` | src/compress.rs:134-223 | bit i of a group's first byte says whether token i is a literal, and the tokens follow |
| `Lzss.CopyBackMeans` | src/compress.rs:225-261 | a copied byte is the one `off` places before it, in what was there or in the copy itself |
| `Lzss.DecodesTokens` | src/compress.rs:134-261 | every token list that replays to the input decodes to the input, self-overlapping copies included |
| `Lzss.MatchLength` | src/compress.rs:134-223 | the comparison loop finds the longest common prefix up to the limit |
| `Lzss.FindMatch` | src/compress.rs:134-223 | the chain walk, bounded in steps and distance, finds a longest match among the candidates it may visit, the first of them on a tie, early exit included |
| `Lzss.BestMatch` | src/compress.rs:134-223 | what is found is the first longest match on the chain of the next three bytes, and it really occurs at its offset, inside the window and the input |
| `Lzss.Insert` | src/compress.rs:134-223 | a position is filed under the hash of its three bytes, in front of the chain that was there, or not at all near the end; every chain keeps pointing strictly backwards |
| `Lzss.FiledIsFirst` | src/compress.rs:134-223 | a later search under the same hash and within the window tries a filed position first, and then what it would have tried without it |
| `Lzss.InsertRun` | src/compress.rs:134-223 | the loop files every position that a match covers, in order |
| `Lzss.MatchBytes` | src/compress.rs:134-223 | the 12-bit offset and the length nibble, or the extension byte, are those of the token format |
| `Lzss.LzCompress` | src/compress.rs:134-223 | the output is the length and then, in groups with back-patched flag bytes, for every place reached the token of its first longest match of three bytes or more, with all positions before it filed, and otherwise its byte; it decodes to the input |
| `Lzss.CopyLoop` | src/compress.rs:225-261 | the byte-by-byte loop is the overlapping copy |
| `Lzss.ReadToken` | src/compress.rs:225-261 | one token read, every malformed case refused |
| `Lzss.LzDecompress` | src/compress.rs:225-261 | the decoder computes the decoding specification on any bytes, without running past either end |
| `Densa.CompressLz` | src/compress.rs:61-72 | `Lz` never inflates, and what it returns decodes to the body |
| `Densa.CompressDensa` | src/compress.rs:84-101 | `Densa` never inflates, decodes to the body, and takes the range coder exactly when that is shorter |
| `Densa.DecompressDensa` | src/compress.rs:103-110 | both method bytes are undone, anything else is refused |
| `Commit.HeaderRoundTrip` | src/commit.rs:53-112 | every commit header whose branch fits reads back from the page it was written to |
| `Formats.CommitPageMeans` | src/commit.rs:53-73 | the commit page byte by byte: magic, then each field at its offset, numbers least significant byte first, zeros between and behind |
| `Commit.ChainInputInjective` | src/commit.rs:116-128 | the chained message is unambiguous: equal messages come from equal previous link, content, version, time, roots and branch |
| `Formats.ChainMessageMeans` | src/commit.rs:116-128 | the chained message byte by byte: previous link, content digest, version, time, data root, meta root, branch, each in its place |
| `Commit.NewHeader` | src/tx.rs:2700-2763 | the header of a new commit carries its parameters, roots, time and counts, the digest of the content, and a chain hash consistent with all that |
| `Commit.JoinedBodiesMean` | src/tx.rs:2700-2763 | the hashed content is the bodies one after the other, whole and in order |
| `Commit.FaultMeans` | src/commit.rs:298-413 | each verdict on a commit names what is wrong with it and that the checks before it held; no verdict means that all of them hold |
| `Commit.PassesExactlyWhenAudited` | src/commit.rs:298-413 | the audit's answer is a pass if and only if some history from genesis to the head is audited in the declarative sense, and then it reports that history's head and length |
| `AuditMeaning.AuditedMeans` | src/commit.rs:298-413 | the declarative sense spelled out, in both directions: readable commits, each pointing to the one before, from the first of the file to the head; versions in sequence; chain, self-consistency, data pages and digest of each; the head's version and chain hash; the anchored version among them |
| `AuditMeaning.WholeMeans` | src/commit.rs:298-413 | what each verdict on a history as a whole says, and which version it names |
| `Recovery.ScanFromAdopted` | src/commit.rs:195-235 | from any head in the intact chain the forward scan ends where the scan from genesis does, and every page below it is readable |
| `Recovery.SlotsAreOnlyHints` | src/commit.rs:195-235 | as long as the meta slots point into the intact chain, recovery gives the same head as a scan from genesis, whichever slot is used |
| `Recovery.RecoveredIsRead` | src/commit.rs:157-235 | a recovered head is genesis, or its version, roots, chain hash and nonce counter are those of the commit page it names, and its page count ends there |
| `Recovery.ScanReadsEverything` | src/commit.rs:195-235 | every page from where a scan starts to the head it reaches was read |
| `Recovery.CommitIsAdopted` | src/commit.rs:195-235 | a commit written behind an adopted head is adopted in its turn |
| `Recovery.AdoptedInAnyExtension` | src/commit.rs:195-235 | a head once adopted stays adopted whatever follows in the file |
| `Store.CollectLinks` | src/commit.rs:298-413 | the backward walk collects exactly the commits from genesis to the head, or reports an unreadable commit at the head's version less the commits read before it |
| `Store.HashBodies` | src/commit.rs:298-413 | the content digest is that of the data pages' bodies in order, or an unreadable page |
| `Store.CheckLink` | src/commit.rs:298-413 | the checks of one commit come in the source's order, with its verdicts |
| `Store.CheckLinks` | src/commit.rs:298-413 | the commits are checked one after the other: the first fault, with its commit's version, or whether the anchored version was seen |
| `Store.VerifyAnchored` | src/commit.rs:298-413 | the audit's answer in every case, reason and version included, and that it passes if and only if the history is audited in the declarative sense |
| `Store.StartHead` | src/commit.rs:195-235 | the slots are tried newest first, the first usable one is taken, else genesis |
| `Store.Recover` | src/commit.rs:157-235 | the recovery loops, over pages read through the cache, compute the recovered head, which is genesis or has each field from the header that its commit page decodes to |
| `Store.RecoverAndVerify` | src/commit.rs:195-292 | recovering and then verifying a log of commits built behind one another passes if and only if every adopted commit has the data pages it was written with, whichever slot recovery started from; if not, the answer names the first commit that has not |
| `RecoveredAudit.RecoveredHistory` | src/commit.rs:195-235 | every recovered head is the end of a history of commits each of which follows the one before |
| `RecoveredAudit.WalkIsHistory` | src/commit.rs:298-413 | the backward walk from such a head is that history |
| `RecoveredAudit.JoinedMeansEach` | src/commit.rs:298-413 | as pages have one size, the joined contents are right exactly when each page is |
| `RecoveredAudit.AuditDecidesContents` | src/commit.rs:298-413 | on such a history the audit passes if and only if every data page under every commit is the one it was written with; otherwise it blames the first commit with a wrong one, for its pages |
| `RecoveredAudit.WrittenIsBuilt` | src/tx.rs:2700-2763 | whatever the commit writer writes is built behind its head in that sense |
| `Opening.PlainOpensExactly` | src/crypto.rs:80-125 | the plain provider opens a stored payload to a body if and only if it is what sealing that body as that page gives |
| `Formats.PlainPageMeans` | src/crypto.rs:80-125 | a page in the clear byte by byte: twelve zeros, the first half of the digest of its number and its body, the body |
| `Opening.FileHeaderRoundTrip` | src/format.rs:153-187 | every file header reads back from its page |
| `Formats.FileHeaderMeans` | src/format.rs:153-187 | page 0 byte by byte: magic, format 5, page size 4096, flags, identity, salt, parity bytes, zeros |
| `Opening.SlotRoundTrip` | src/format.rs:211-228 | every meta slot reads back from its page |
| `Formats.SlotMeans` | src/format.rs:203-228 | a meta slot byte by byte: magic, version, commit page, page count, zeros |
| `Opening.SlotWriteReads` | src/pager.rs:848-876 | a slot written is the slot read on its page, and the other slot, the header and the append zone are untouched |
| `Opening.OpenPager` | src/pager.rs:394-469 | opening makes its checks in the source's order, each with its own error, and otherwise ends with the pager the sweep builds |
| `Opening.OpenStore` | src/tx.rs:370-392 | opening fails with exactly the error of the verdict; otherwise the pager ends at the recovered head with the records up to it and the torn tail logically dropped |
| `Opening.CreatedOpensExactly` | src/pager.rs:304-372 | a file as created, whatever lies in its append zone, opens exactly with a key if it is encrypted and without if it is not, and with one under which the first record opens, if there is one; otherwise the error says which of these failed |
| `Opening.WholeLogOpens` | src/tx.rs:370-392 | a file whose append zone is exactly a log opens at that log's head, with all its records |
| `Opening.CommitAndReopen` | src/tx.rs:2700-2763 | a commit written and the file opened again: the head has the version, roots and nonce counter that the commit was written with, and the pages are those there were, the data pages and the commit page, on which every field is the one it was given |
| `Opening.OpenableIsOpening` | src/pager.rs:394-469 | the crash model's notion of a store that can be opened is that of the code on the bytes of the file |
| `AuditEvidence.SameHashSameCommit` | src/commit.rs:116-128 | two passing commits with one chain hash agree on version, time, roots, branch, data-page count and every data-page body |
| `AuditEvidence.SameCommitMeans` | src/commit.rs:116-128 | being the same commit spelled out: the same fields, and the same body on each of the data pages in front of the two commit pages |
| `AuditEvidence.ChainsAgree` | src/commit.rs:116-141 | equal chain values are reached by equally long, equal histories of the same file |
| `AuditEvidence.AnchoredHistoriesAgree` | src/commit.rs:268-413 | two logs that both pass the audit with one anchor have the same number of commits up to it, and the same commits, checkpoints of compacted files included |
| `AuditEvidence.HistoryOnlyGrows` | src/commit.rs:254-264 | a file that passes against the anchor of an earlier report still begins with the whole history reported then |
| `AuditedWriting.CommitKeepsAudit` | src/tx.rs:2700-2763 | appending a commit, normal or checkpoint, to a log that passes the audit gives a log that passes it, one commit longer |
| `PageCache.PageCache.constructor` | src/pager.rs:88-96 | an empty cache of capacity at least 1 |
| `PageCache.PageCache.Get` | src/pager.rs:98-102 | a hit returns the cached page and sets its reference bit; a miss changes nothing |
| `PageCache.PageCache.Insert` | src/pager.rs:104-138 | an entry already there gets the new page and its bit set; below capacity a new slot is added with its bit clear; at capacity exactly the second-chance victim leaves and the hand moves past its slot; every other page still cached is unchanged, and `index` and `slots` stay mutually inverse and within capacity |
| `PageCache.PageCache.FindVictim` | src/pager.rs:104-138 | the hand clears bits until the first slot whose bit is clear, going round at most once |
| `Records.CorrectPayload` | src/pager.rs:603-621 | correction of a payload's bytes returns the unique page within budget, if there is one |
| `Records.SymbolsAreBytes` | src/pager.rs:603-621 | the corrector's symbols are the payload's bytes, bit for bit |
| `Records.SweepFindsRecords` | src/pager.rs:478-514 | the sweep finds exactly the records written, then whatever the bytes after them still parse as |
| `Records.SweptAreRecords` | src/pager.rs:478-514 | what it finds are whole records that make up a prefix of the file |
| `Records.TrimTrailingZeros` | src/pager.rs:280-283 | the body is the trimmed part and zeros, and the trimmed part does not end in zero |
| `Records.BodyToSeal` | src/pager.rs:679-691 | what is sealed decodes to the trimmed body and is at most one byte longer; compressed files put a method byte in front, and compress only where that does not inflate |
| `Records.FramedRecord` | src/pager.rs:589-596 | length, payload and parity make a record whose parts are found again |
| `Formats.RecordMeans` | src/pager.rs:589-596 | a record byte by byte: the payload's length in four bytes, the payload, its parity |
| `Records.SealPage` | src/pager.rs:722-744 | writing a page and reading its record gives the body, which was sealed for that page under the given counter |
| `Records.ReadRecord` | src/pager.rs:548-621 | reading tries the seal first, then correction and the seal again, then undoes compression and padding |
| `Records.DamagedPageReads` | src/pager.rs:603-621 | a record damaged within the correction budget, whose seal no longer opens, still reads as the body written |
| `Pager.DirectoryLocates` | src/pager.rs:239-266 | every directory entry locates its page's payload and parity in the file |
| `Pager.Pager.constructor` | src/pager.rs:438-458 | the pager starts from a sweep of the append zone, with an empty cache |
| `Pager.Pager.Sweep` | src/pager.rs:478-514 | the sweep loop rebuilds directory, page count and write offset from the file |
| `Pager.Pager.ReadPage` | src/pager.rs:548-578 | a read gives what the page's record holds whether or not it comes from the cache |
| `Pager.Pager.WriteRecordAt` | src/pager.rs:722-744 | a record written past the last commit changes no page there is, and takes the next nonce counter |
| `Pager.Pager.InstallCommit` | src/pager.rs:758-775 | publication moves directory, offset and page count together |
| `Pager.Pager.TruncateToHead` | src/pager.rs:781-800 | only the pages past the head go; the bytes stay |
| `Pager.Pager.AppendPage` | src/pager.rs:520-543 | afterwards the pages are the old ones and the appended body, for every later read; a file without a tail keeps none |
| `Pager.Pager.WriteDataPages` | src/tx.rs:2700-2763 | the data pages lie behind the log in order, and the content digest is taken over exactly their bodies |
| `Pager.Pager.WriteCommitPages` | src/tx.rs:2700-2763 | after a commit the pages are the old ones, the data bodies and the header page, each sealed under the next nonce counter; the new head has the version, roots and counter the commit was written with |
| `CrashSafety.ImageKeepsPrefix` | src/pager.rs:722-744 | a power loss that keeps any bytes of any subset of the unsynced writes changes nothing that was synced |
| `CrashSafety.AnyPartsMaySurvive` | src/pager.rs:722-744 | the crash step leaves nothing out: whatever parts of whatever unsynced writes reached the disk, in whatever order, the file they give is one it allows for |
| `CrashSafety.StepKeepsInv` | src/tx.rs:260-294 | every step of the protocol (commit, failed transaction, sync, slot write, kill, power loss, reopen) keeps the invariant: the synced log is at the front of the file, and every slot points into it or nowhere |
| `CrashSafety.ReopenIsSafe` | src/commit.rs:195-235 | reopening after any crash gives a head that equals or extends the last synced one, the same as a scan from genesis, with the slots of no influence |
| `CrashSafety.NoSyncedCommitIsLost` | src/tx.rs:260-294 | over whole runs: from any moment to any later one, the commits synced then are still there, page for page, and every page up to the head is readable |
| `CrashSafety.RecoveredWasWritten` | src/commit.rs:195-235 | what a reopening adopts is the last synced head, or a commit page that was really written on that page |
| `CrashSafety.CleanRecoveryIsExact` | src/pager.rs:781-800 | where no torn tail was in the file when it was opened and no transaction failed while writing, recovery finds exactly a beginning of what was written |
| `CrashSafety.CleanRunsStayAudited` | src/commit.rs:298-413 | in runs of that kind the log passes the audit at every moment, at its head and at every earlier head, whatever the crashes |
| `CrashSafety.StaleTailCanBeAdopted` | src/pager.rs:781-800 | otherwise a half-written commit can be adopted: for any two first commits with data records of one length there is a run with two power losses that ends open on the one's commit page over the other's data page |
| `CrashExample.HalfWrittenCommitIsAdopted` | src/pager.rs:781-800 | a concrete store in which that happens: the adopted commit's content hash is not that of the data page found under it |
| `TornTail.ScanMovesExactly` | src/commit.rs:195-235 | a scan goes on past a head if and only if the first commit page behind it, with only readable data pages in between, follows the head |
| `TornTail.AdoptsStaleExactly` | src/pager.rs:781-800 | over the bytes of the file: once a transaction has written data records behind the log and no commit page, recovery adopts a commit that it did not write if and only if the bytes behind those records parse and open as data pages and then a self-consistent commit page that follows the head |
| `Openability.OpenableExactly` | src/pager.rs:394-469 | a plain file, or one with a synced commit, can be opened after any power loss if and only if some readable slot is not the one being rewritten |
| `Openability.KeyedOpenableExactly` | src/pager.rs:461-467 | an encrypted file of which nothing is synced can be opened after any power loss if and only if a slot survives and nothing has been written yet |
| `Openability.AlternationRewritesTheSurvivor` | src/format.rs:207-209 | after a torn slot write the next one goes to the surviving slot, so a second power loss can leave a whole log that cannot be opened |
| `CrashExample.BothSlotsCanBeLost` | src/pager.rs:836-845 | a concrete run of two commits and two power losses that ends with the log whole and neither slot readable |
| `CrashExample.TornFirstCommitIsRefused` | src/pager.rs:461-467 | a concrete run in which power is lost in the first commit of an encrypted store: both slots read, and the store does not open |
| `KeyEnc.OintSorts` | src/keyenc.rs:103-117 | the integer code sorts by value over all of i64, and no code is the beginning of another |
| `KeyEnc.EncodeOint` | src/keyenc.rs:103-117 | the encoder loop appends that code |
| `KeyEnc.DecodeOint` | src/keyenc.rs:121-146 | the decoder reads one code or refuses a bad header, a short input or a value out of range |
| `KeyEnc.OintRoundTrip` | src/keyenc.rs:103-146 | every i64 reads back whatever follows, with exactly its own bytes taken |
| `KeyFormats.OintMeans` | src/keyenc.rs:103-117 | the code byte by byte: a header of sign and length, and the fewest bytes that hold the number, most significant first, or the complement of -1 - v |
| `KeyEnc.EncodeBytes` | src/keyenc.rs:80-89 | the escaping loop appends the escaped string and its terminator |
| `KeyFormats.EscapedMeans` | src/keyenc.rs:80-89 | escaping goes byte by byte: a zero becomes 0x00 0xFF, any other byte itself, and 0x00 0x00 ends it |
| `KeyEnc.EncodedBytesSort` | src/keyenc.rs:80-89 | escaped strings sort as the strings, and none begins another |
| `KeyEnc.PrefixScanHits` | src/keyenc.rs:51-59 | a key scan for an escaped prefix hits exactly the strings that begin with it |
| `Keys.EncodeIndexValue` | src/keyenc.rs:21-73 | the encoder appends the tagged code of the value |
| `KeyFormats.ValueMeans` | src/keyenc.rs:21-73 | each type's code byte by byte: 0 for NULL, otherwise 1 and the integer with its sign bit flipped, the real with its sign bit or all bits flipped, a byte, or an escaped string |
| `Keys.ValueSorts` | src/keyenc.rs:21-73 | value codes sort as the values, NULL first, REAL in the total order of section 5.10 of IEEE 754-2008 |
| `Keys.IndexEntryKey` | src/catalog.rs:526-533 | the key is index id, values and rowid in order |
| `KeyFormats.IndexKeyMeans` | src/catalog.rs:526-533 | an index key byte by byte: 0x02, the index id, the values, the rowid with its sign bit flipped |
| `Keys.IndexKeysSort` | src/catalog.rs:526-533 | composite keys sort if and only if (values, rowid) do, and are equal only for equal entries |
| `Keys.IndexScanHits` | src/catalog.rs:514-520 | a scan under the first columns' values hits exactly the entries with those values |
| `Keys.RowKeysSort` | src/catalog.rs:460-465 | row keys sort exactly by table, then rowid, negative rowids included |
| `Keys.RowKeyRoundTrip` | src/catalog.rs:460-487 | a row key decodes to its table and rowid |
| `Keys.FtsKeysInjective` | src/catalog.rs:1771-1930 | no two postings, dictionary words, counters or statistics of a full-text index share a key |
| `KeyFormats.FtsKeyMeans` | src/catalog.rs:1771-1930 | every kind of full-text key byte by byte |
| `Keys.PostingScanHits` | src/catalog.rs:1852-1856 | the scan for one term hits exactly its postings |
| `Keys.PostingsSort` | src/catalog.rs:1804-1810 | within a term, postings come in rowid order |
| `Keys.EncodeTextPrefix` | src/keyenc.rs:51-59 | the prefix encoder appends the tag and the escaped bytes, unterminated |
| `Keys.DictScanHits` | src/catalog.rs:2434-2461 | the dictionary scan for a prefix hits exactly the words that begin with it |
| `PostingCodec.EncodePostingValue` | src/catalog.rs:1816-1828 | the loops append per field its number, count and gaps |
| `KeyFormats.FieldMeans` | src/catalog.rs:1816-1828 | a field in a cell: its number, the count, the first position, and then each one's distance from the one before, as varints |
| `PostingCodec.DecodePostingValue` | src/catalog.rs:1831-1847 | the loops read such a cell or refuse it |
| `PostingCodec.CellRoundTrip` | src/catalog.rs:1816-1847 | a cell decodes to exactly the (field, position) places it was made from, with 32-bit wrap-around of the gaps |
| `Fts.GroupTokens` | src/catalog.rs:2024-2088 | the tokens of a row's indexed columns, grouped by term and field in the order they come, and their number |
| `Fts.DocMeans` | src/catalog.rs:2036-2056 | a document has a token exactly when its field is an indexed column with text in which the tokenizer finds that term at that position |
| `Fts.DocInOrder` | src/catalog.rs:2036-2056 | the tokens come column by column, each column's in the tokenizer's order, and their number is the document's length |
| `Fts.GroupedMeans` | src/catalog.rs:2036-2056 | a term's cell has a field exactly if the document has the term there, with the positions of those tokens in their order |
| `Fts.ApplyFtsRow` | src/catalog.rs:2024-2088 | adding or removing a row applies its terms in key order, then its length and the totals |
| `FtsUpkeep.AddKeepsMatching` | src/catalog.rs:2024-2103 | adding a row to an index of some rows gives the index of those rows and it |
| `FtsUpkeep.RemoveKeepsMatching` | src/catalog.rs:2123-2135 | removing a row takes back exactly what adding it put there: postings, document frequencies, lengths and totals |
| `FtsUpkeep.IndexAlwaysMatches` | src/catalog.rs:2024-2135 | after any sequence of inserts, updates and deletes the index is that of the live rows |
| `FtsUpkeep.MatchingIsUnique` | src/catalog.rs:1970-2017 | two indexes of the same rows have equal statistics and equal cells term by term, so a maintained index equals a rebuild up to the retained dictionary |
| `FtsUpkeep.StatisticsMean` | src/catalog.rs:1970-2017 | what a matching index says: for each term the number of rows that have it, for each row its length, and the number of rows and tokens |
| `FtsBulk.CollectRow` | src/catalog.rs:2145-2231 | collecting a row in memory is what one incremental step does |
| `FtsBulk.BackfillFtsIndex` | src/catalog.rs:2145-2231 | the bulk build gives exactly the term ids, counter, postings, frequencies, lengths and totals of adding the rows one by one |
| `FtsBulk.SortingChangesNothing` | src/catalog.rs:2145-2231 | sorting the collected cells before writing them changes nothing, as no two share a key |
| `Windows.MinWindowSpan` | src/catalog.rs:2580-2613 | the minimum of max minus min over all choices of one position per group; None exactly when there is no group or some group is empty |
| `Windows.SlideWindow` | src/catalog.rs:2580-2613 | the two-index sweep leaves no covering window narrower than its result, from any start |
| `SortedSets.IntersectSorted` | src/catalog.rs:2475-2490 | the merge gives the ascending intersection |
| `SortedSets.UnionSorted` | src/catalog.rs:2492-2511 | the merge gives the ascending union |
| `SortedSets.DifferenceSorted` | src/catalog.rs:2513-2528 | the merge gives the ascending difference |
| `SortedSets.SortDistinct` | src/catalog.rs:2464-2473 | sorting and dropping repetitions gives the ascending list of the same elements |
| `FtsQuery.CellsAreTokens` | src/catalog.rs:2393-2413 | an index of some rows has a posting for a term at a place exactly where the row has that token |
| `FtsQuery.TermPostings` | src/catalog.rs:2416-2428 | the postings of a word are its places in the live rows, none for an unknown word |
| `FtsQuery.PrefixPostings` | src/catalog.rs:2434-2461 | the postings of a prefix are the places of all words that begin with it |
| `FtsQuery.TermRowids` | src/catalog.rs:2332-2356 | ascending, each once: the rows with the word, or a word with the prefix, in an allowed column |
| `FtsQuery.TokenizedInOrder` | src/catalog.rs:2658-2732 | the words of several texts are those of the one, then those of the next |
| `FtsQuery.PhraseRowids` | src/catalog.rs:2540-2575 | the rows in which the words stand next to each other in one column |
| `FtsQuery.SpanDecides` | src/catalog.rs:2618-2654 | the narrowest window decides NEAR: it fits the distance if and only if some choice of positions does |
| `FtsQuery.NearRowids` | src/catalog.rs:2618-2654 | the rows in which the words stand within the distance in one column |
| `FtsQuery.EvalQuery` | src/catalog.rs:2658-2732 | for every query (term, prefix, phrase, NEAR, AND, OR, NOT, column filters) exactly the live rows of which it is true, ascending, each once |
| `FtsQuery.DocHasTerm` | src/catalog.rs:2884-2893 | the row test for a term |
| `FtsQuery.DocHasPhrase` | src/catalog.rs:2896-2914 | the row test for a phrase |
| `FtsQuery.DocHasNear` | src/catalog.rs:2918-2946 | the row test for NEAR |
| `FtsQuery.EvalDoc` | src/catalog.rs:2951-3003 | the row evaluator is true exactly when the query is true of the row |
| `FtsQuery.RowMatches` | src/catalog.rs:3008-3032 | matching a stored row tokenizes its indexed columns and decides the same |
| `FtsQuery.SearchEqualsScan` | src/catalog.rs:2658-3032 | after any history of row operations, searching the index and scanning the rows with `fts_row_matches` find the same rows |
| `TableRows.CheckHeld` | src/catalog.rs:1737-1751 | the UNIQUE probe says whether another row holds the values, NULLs exempt |
| `TableRows.ConflictsMean` | src/catalog.rs:1737-1751 | a UNIQUE conflict in terms of records: no indexed column of the row is NULL, and another row has the same value in each |
| `TableRows.InsertIndexEntries` | src/catalog.rs:1698-1718 | all indexes get the row's entry, or the insert fails, exactly on a UNIQUE conflict |
| `TableRows.DeleteIndexEntries` | src/catalog.rs:1754-1766 | all indexes lose exactly the row's entry |
| `TableRows.ResolveRowid` | src/catalog.rs:3861-3890 | the rowid is never a live one, also where the duplicate check is skipped; duplicates and exhaustion are refused exactly when they occur; the new counter is the least that does not go back and is above the rowid, saturation aside |
| `TableRows.InsertRow` | src/catalog.rs:4058-4070 | rows, counter and indexes after an insert, and exactly when it fails; the counter is the least one allowed |
| `TableRows.UpdateRow` | src/catalog.rs:4073-4114 | an update replaces the row and its entries, leaves the counter, and fails exactly when the new values clash with other rows |
| `TableRows.DeleteRow` | src/catalog.rs:4149-4175 | a delete removes the row and its entries and nothing else |
| `TableRows.UniqueHolds` | src/catalog.rs:1698-1766 | two rows never share a UNIQUE key without NULLs |
| `BulkUnique.OneByOneIs` | src/catalog.rs:1698-1751 | inserting row by row succeeds exactly when the batch clashes neither with the index nor within itself |
| `BulkUnique.AdjacentDecides` | src/catalog.rs:4019-4053 | in key order, looking at neighbours finds every clash inside the batch |
| `BulkUnique.SortByKey` | src/catalog.rs:4019-4053 | the batch in key order, none lost |
| `BulkUnique.NeighboursClash` | src/catalog.rs:4019-4053 | the neighbour check |
| `BulkUnique.ProbeExisting` | src/catalog.rs:4019-4053 | the probe of the existing index, once per distinct key |
| `BulkUnique.FlushIndexEntries` | src/catalog.rs:4019-4053 | the flush fails exactly when inserting the rows one at a time would, and otherwise leaves the same entries |
| `Expressions.ConjunctionHolds` | src/exec.rs:2893-2900 | a WHERE is true exactly when all its conjuncts are, under three-valued logic |
| `Expressions.LogicMeans` | src/exec.rs:5829-5845 | the value tables of AND and OR: when each is TRUE, when FALSE, and NULL otherwise |
| `Expressions.ComparisonMeans` | src/exec.rs:5846-5863 | each of the six operators by the order of the two values, type by type, and NULL where a side is NULL |
| `KeyEnc.LessMeans` | src/exec.rs:6968-6986 | the order of byte strings: at the first difference, or at the end of the shorter |
| `Expressions.ColumnMeans` | src/exec.rs:330-366 | a column is that name in the first table of its qualifier, or in the first that has it, and its place is behind all columns of the tables before |
| `Expressions.LeavesMean` | src/exec.rs:5728-5964 | literals are themselves, parameters count from one, other operators see their arguments' values in order |
| `Expressions.SplitIsWhole` | src/exec.rs:2893-2900 | no conjunct of a WHERE is an AND itself |
| `Expressions.ConjunctQualifier` | src/exec.rs:2905-2956 | a qualifier is returned only for a conjunct all of whose columns are that table's |
| `Expressions.QualifierMeans` | src/exec.rs:2905-2956 | a conjunct has a qualifier exactly if it has a column and, constants aside, nothing but columns with that qualifier |
| `Pushdown.EvalIsLocal` | src/exec.rs:5728-5964 | an expression about one table has the same value in that table's row and in any joined row |
| `Pushdown.Prefilter` | src/exec.rs:2960-2990 | the loop keeps, in order, the rows that pass every pushed conjunct of their table |
| `JoinMeaning.PrefilteredPlaces` | src/exec.rs:2960-2990 | by index: the rows kept are exactly those on which every conjunct about this table alone is true, in their order |
| `Pushdown.JoinedRowPushed` | src/exec.rs:2658-2696 | for one left row, filtering the right side before an INNER join equals filtering after it; a LEFT join's NULL-extended row survives |
| `Pushdown.JoinAllPushed` | src/exec.rs:2658-2696 | so it does for the whole chain |
| `Pushdown.WhereForgets` | src/exec.rs:2698-2717 | re-applying the WHERE forgets what was filtered before |
| `Pushdown.PushdownPreservesMeaning` | src/exec.rs:2635-2717 | for every chain of INNER and LEFT joins and every WHERE: the same rows in the same order, NULL-extended rows included |
| `Pushdown.NestedLoop` | src/exec.rs:2658-2696 | the nested loop computes the join, unmatched left rows of a LEFT join once with NULLs |
| `JoinMeaning.JoinedRowPlaces` | src/exec.rs:2658-2696 | by index: a left row gives a row for each right row on which the ON is true, in their order; a LEFT join without any gives it once, followed by NULLs |
| `JoinMeaning.JoinedRowMeans` | src/exec.rs:2658-2696 | a row is among those a left row gives if and only if it is made with a right row on which the ON is true, or the join is LEFT, there is none, and NULLs follow |
| `JoinMeaning.ChainInOrder` | src/exec.rs:2658-2696 | with one join more, each row so far gives its rows, one left row after the other |
| `Pushdown.FilterRows` | src/exec.rs:2698-2717 | the WHERE loop keeps the rows on which it is true |
| `JoinMeaning.KeptPlaces` | src/exec.rs:2698-2717 | by index: the rows kept are exactly those on which the WHERE is true, in their order |
| `Pushdown.RunFromWhere` | src/exec.rs:2629-2717 | FROM, joins and WHERE as executed, with pushdown, give what joining everything and then filtering gives |
| `JoinMeaning.QueryMeans` | src/exec.rs:2629-2717 | a row is in the result if and only if it arises from a row of FROM, join by join, and the WHERE is true on it |
| `AccessPaths.FilterForgetsThePath` | src/exec.rs:2593-2628 | any distinct live rowids that include every row on which the WHERE is true leave, after the filter, what a full scan leaves |
| `AccessPaths.ConstIsConst` | src/exec.rs:5571-5573 | an expression without columns has one value on all rows |
| `AccessPaths.EqualMeansSame` | src/exec.rs:6968-6986 | among values of one column type, REAL aside, comparing equal is being equal |
| `AccessPaths.ComparisonIsKeyOrder` | src/exec.rs:6968-6986 | and comparison is the byte order of the keys |
| `AccessPaths.PointIds` | src/exec.rs:4254-4272 | a primary-key lookup misses no row on which the WHERE is true, and by an integer finds that row alone |
| `PlanMeaning.PointPlanMeans` | src/exec.rs:4254-4272 | a key is looked up exactly when the whole WHERE sets the rowid column equal to a constant, on either side, and it is that one |
| `AccessPaths.EqualitiesHold` | src/exec.rs:4277-4306 | every equality collected from a WHERE holds of each row on which the WHERE is true |
| `PlanMeaning.CollectedMeans` | src/exec.rs:4277-4306 | the equalities collected are exactly the conjuncts that set a column equal to a constant, on either side |
| `AccessPaths.IndexEqPlan` | src/exec.rs:4313-4345 | the plan takes a covered index of the most columns, one whenever some index is covered |
| `AccessPaths.CoerceConstants` | src/exec.rs:4351-4377 | constants coerced to the columns' types compare as the originals, or the query falls back to a scan: exactly if one is NULL or of another type |
| `AccessPaths.IndexScanEq` | src/catalog.rs:3694-3709 | exactly the rowids under those values, each once |
| `AccessPaths.IndexEqIds` | src/exec.rs:4351-4377 | the equality plan misses no row on which the WHERE is true, and with usable constants finds exactly the rows that have them |
| `AccessPaths.IndexRangePlan` | src/exec.rs:4382-4432 | the range plan's operator and bound are those of a conjunct, turned round where the column stands on the right, on a single-column index |
| `PlanMeaning.RangePlanMeans` | src/exec.rs:4382-4432 | a range is scanned exactly when the whole WHERE orders a column other than the rowid's against a constant and an index is on that column alone: the first such |
| `AccessPaths.IndexScanRange` | src/catalog.rs:3724-3772 | exactly the rowids of the non-NULL entries within the bounds, inclusive or not, though the scan stops early |
| `AccessPaths.IndexRangeIds` | src/exec.rs:4436-4467 | the range plan misses no row on which the WHERE is true, and with a usable bound finds exactly the rows on the right side of it |
| `AccessPaths.ChooseIds` | src/exec.rs:2593-2628 | whichever path the planner takes, no such row is missed |
| `AccessPaths.SelectRows` | src/exec.rs:2593-2717 | for INTEGER, TEXT, BLOB and BOOLEAN columns the chosen path followed by the WHERE returns the same multiset of rows as a full scan followed by it |

## Left out

- Threads, `Mutex`, `Arc` and the cache's shards: one shard, one thread. In `make_durable` one slot write is pending at a time, the one of the synced head.
- SHA-256 and AES-GCM: parameters, as is the derivation of a file's key. The plain provider is modelled down to its tag. That a seal cannot be forged is a condition of the reopening step in `CrashSafety`: a page that opens was written as that page.
- Nonces: the margin that opening adds for the torn tail, and so that no counter is used twice across openings. Within one, every page takes the next.
- File I/O errors, locks, scrubbing, random identities.
- A header that asks for 255 parity bytes: the source then divides by zero; `EccFits` leaves it out.
- Openability.KeyedOpenableExactly: covers an encrypted file whose zone is empty on disk; with no commit synced but stale bytes there already, whether a half-written first record opens is up to the cipher and the correction.
- `prev_page` pointing at or past its own page: the backward walk assumes that it does not (`Descending`), as the code does not check it.
- A page body longer than its page: `read_page` would panic, the model has the read fail; no written page is one.
- The b-tree: maps and sets keyed by what a key encodes. That keys and entries are one to one, sorted and scanned alike is proved in `Keys`.
- CrashSafety.CleanRunsStayAudited: one direction only; whether an unclean run reaches a log that fails its audit depends on the record lengths of transactions yet to come.
- CrashSafety.RecoveredWasWritten: says that the adopted commit page was written, not that its data pages are that commit's own, which is false (finding 1).
- Lzss.LzCompress: does not state how short the output is.
- Fts.GroupTokens: a column's number is unbounded; the source keeps it in a byte, so columns past the 256th would share numbers.
- Fts.ApplyFtsRow: term ids, counters and totals are unbounded; no 32-bit or 64-bit overflow.
- FtsQuery.EvalQuery: a query that names a column without index is refused by both evaluators; that refusal is `Accepted`, not an error value.
- AccessPaths.SelectRows: the order of rows is not stated, as the paths differ in it, and REAL columns are outside, as their keys are finer than their comparison at plus and minus zero.
- Pushdown.PushdownPreservesMeaning: for evaluation without errors; which error is raised may differ.
- Subqueries, aggregates and MATCH in a WHERE: one opaque value of the whole row, never pushed down.
- Duplicate columns in an index, dropped columns, defaults, CHECK, foreign keys, triggers, record encoding and schema serialisation.
- GROUP BY, ORDER BY, windows, DISTINCT, LIMIT, the SQL parser, the function library.
- BM25 scores, snippets, vector indexes: floating point. The integer statistics of BM25 are in `Fts`.
- Vacuum itself: the checkpoint commit it writes is in `AuditedWriting`.
- Branches, snapshots and time travel beyond the fields that a commit header carries.
- Gf256.LookupMul: the other routines multiply by the field's functions directly instead of going through the tables.
