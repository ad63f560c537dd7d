# zipy: a verified model

zipy extracts ZIP archives, also while they are still arriving and after earlier
runs were interrupted. Its speed comes from forms of simple operations that are
hard to recognise as such: a CRC over sixteen bytes at a time or over three
segments at once, a search for the end of an entry through a window that keeps
fifteen bytes, one reused SHA-1 block for thousands of HMACs, batches of entries
claimed by several threads, a directory that is parsed over a mapping or by
reading. This project models those forms and proves, for every input and every
run, that they do what the simple operation does.

Files and archives are sequences of bytes; `byte` is an 8-bit vector and CRC
registers are 32-bit vectors. What the program changes in place is an array or
an object here, and each such method is proved against a specification on
values, about which the theorems are then stated.

| files | subject |
|---|---|
| `Bytes`, `Signatures` | little-endian fields, reads, record signatures |
| `Crc32`, `Crc32BaseTable`, `Crc32Tables`, `Crc32Update` | bit-serial CRC-32, the listed table, the sixteen generated tables, the sliced loops |
| `Crc32Columns`, `Crc32Chains` | the listed shift tables, three chains recombined over GF(2) |
| `StoreDescriptors`, `StoreScanner`, `DescriptorBytes` | the end of a stored entry of unknown size, and its descriptors as bytes |
| `DescriptorOverlap`, `ScannerResume`, `ScannerRuns` | resuming that search on an archive that is there in part, over interrupted runs |
| `PartDisk`, `PartFile`, `PartRuns` | the part file of an entry of known size, over interrupted runs |
| `Workers`, `WorkerRuns`, `WorkerSteps` | parallel extraction in every interleaving |
| `Sha1`, `Sha1State`, `Sha1Abc`, `Hmac`, `Pbkdf2` | buffered SHA-1 (FIPS 180-4) and a known digest (RFC 3174), HMAC (RFC 2104), PBKDF2 (RFC 8018) |
| `AesCtr`, `DeflateAuth`, `ZipCrypto` | WinZip AES streaming, its HMAC roll-back, the traditional cipher |
| `Eocd`, `Zip64Extra`, `CentralDirectory`, `DataDescriptor` | the directory of an archive and its ambiguous records |
| `EocdRoundTrip`, `DirectoryRoundTrip` | archives written out in bytes, and what is listed for them |
| `Paths` | member names and output paths |

## Findings

The code is modelled as it is. Where it does not do what it is meant to do, the
exact condition under which it does is proved, with a concrete input that fails.

1. README.md:182-185 of zipy says that an unknown-size stored entry can continue
   when the archive grows. It does, except when a retry saw the archive end 16 to
   19 bytes after the start of the signed descriptor: then the scan has already
   flushed the descriptor's first byte as payload, and no later run stops there
   (`ScannerRuns.GrowingArchive`, `ScannerResume.TruncationLosesDescriptor`). Apart
   from that no run on a truncated archive publishes or keeps a byte that is not
   payload (`ScannerRuns.AnyRuns`), and a whole resuming run that sees it always
   keeps one (`ScannerRuns.WhenRunsLeavePayload`).
2. When a part or a target of the right size fails its CRC, extract_entry deletes
   the part but keeps the CRC it computed (src/zip.c:6024, 6072-6095) and continues the
   fresh copy from it. From a stale part, an intact entry can therefore need three
   runs instead of two, an encrypted entry can never replace an old target of its
   size, and a damaged payload can be published whose CRC is not the entry's
   (`PartRuns.WhenRunSucceeds`, `PartRuns.TwoRunsSuffice`,
   `PartRuns.NeverReplacesTarget`, `PartRuns.PublishedCrc`; inputs that fail in
   `PartRuns.ThreeRunsExample`, `PartRuns.EncryptedTargetExample` and
   `PartRuns.DamagedPayloadExample`). Deflate entries and all theorems about parts
   that are true prefixes are untouched by this, and the way out of it is a run
   without resuming (`PartRuns.FreshRunSucceeds`).
3. A disk number that is left to ZIP64 but not supplied is refused in a record with
   extra bytes and accepted in one without (`CentralDirectory.UnresolvedDisk`,
   `CentralDirectory.UnresolvedDiskExample`).
4. Where no CRC is checked, an unsigned descriptor can be skipped four bytes too
   far: when the payload's CRC is the descriptor's signature and its size the
   signature of the record that follows, as for a payload of 0x02014B50 bytes with
   CRC 0x08074B50 directly before the central directory
   (`DataDescriptor.UnsignedRoundTrip`, `DataDescriptor.BothReadingsAgree`,
   `DataDescriptor.SkipsTooFar`).

## Model

| member | source | states |
|---|---|---|
| Crc32.StepLinear | src/zip.c:3015-3057 | one shift of the reflected register is linear over GF(2), which the recombination of chains rests on |
| Crc32.UpdateConcat | src/zip.c:3133-3194 | the CRC of a concatenation is the CRC continued over the second part, for every split and start value |
| Crc32.RawLinear | src/zip.c:3031-3101 | the register after data from a sum of start values is the register after the data plus the other start value shifted past its length |
| Crc32.UpdateInjective | src/zip.c:6072-6175 | continuing from two different CRCs over the same bytes never gives the same CRC: a stale start value cannot be absorbed |
| Crc32BaseTable.BaseEntryIs | src/zip.c:276-341 | each of the 256 listed constants is the register after that byte, bit by bit |
| Crc32Columns.ColumnTables | src/zip.c:345-387 | each of the four listed column tables is the image of the 32 basis bits under 1, 2, 16 and 32 KiB of zero bytes |
| Crc32Tables.OneByte | src/zip.c:3191-3193 | a lookup and a byte shift equal eight bit-serial steps |
| Crc32Tables.RawIsSlices | src/zip.c:3151-3189 | the register after at least four bytes is a sum of independent lookups, one for each byte mixed with the register |
| Crc32Tables.MakeTables | src/zip.c:2972-2989 | fills the tables so that row j holds the register after the byte and j zero bytes |
| Crc32Update.SixteenBytes | src/zip.c:3151-3173 | the sixteen-lookup expression equals the bit-serial register after sixteen bytes |
| Crc32Update.EightBytes | src/zip.c:3175-3189 | the eight-lookup expression equals the bit-serial register after eight bytes |
| Crc32Update.UpdateTables | src/zip.c:3133-3194 | the 16-, 8- and 1-byte loops together equal the bit-serial CRC-32 of section 4.4.7 of APPNOTE.TXT, for every start value and length |
| Crc32Chains.ShiftByColumns | src/zip.c:3015-3029 | applying the columns for n zero bytes, with early exit at zero, equals 8n bit shifts |
| Crc32Chains.ColumnsCompose | src/zip.c:345-387 | the columns for 2n bytes are the columns for n bytes shifted once more |
| Crc32Chains.ThreeChains | src/zip.c:3040-3077 | three chains over consecutive segments, two of them started at zero, recombine to one sequential register |
| Crc32Chains.ChainSegments | src/zip.c:3041-3077 | the interleaved loop over three segments and its recombination equal the register after all three |
| Crc32Chains.UpdateArm | src/zip.c:3031-3101 | both segment sizes, the word loops and the byte tail equal the bit-serial CRC-32 |
| StoreDescriptors.MatchSigned | src/zip.c:870-924 | matches exactly the signed descriptors of the given length and CRC that a record follows, and leaves the position 16 bytes on |
| StoreDescriptors.MatchUnsigned | src/zip.c:926-977 | the same for unsigned descriptors |
| DescriptorBytes.RecordSignatureIs | src/zip.c:862-868 | a record starts exactly with one of five signatures, given as bytes |
| DescriptorBytes.SignedInBytes | src/zip.c:870-924 | a signed descriptor closes the g bytes before it exactly where its sixteen bytes, with their CRC and length, and one of the five signatures stand |
| DescriptorBytes.UnsignedInBytes | src/zip.c:926-977 | the same for an unsigned descriptor |
| StoreScanner.SignaturesStartWith50 | src/zip.c:5233-5242 | the memchr skip passes over no signature |
| StoreScanner.WindowQuiet | src/zip.c:5217-5338 | a quiet window after a quiet past leaves no stop behind its end: cursors whose descriptor started before the window were decided before |
| StoreScanner.ScanWindow | src/zip.c:5230-5317 | the skip, the size filter and the probes find the least stopping cursor of the window and report whether they moved the file position |
| StoreScanner.FlushWindow | src/zip.c:5319-5338 | writes all but the last 15 bytes of a window without a hit and carries their CRC |
| StoreScanner.PartCrc | src/zip.c:3267-3307 | the CRC of a part does not depend on the chunks it is read in |
| StoreScanner.ExtractStoreDataDescriptor | src/zip.c:5107-5419 | for every archive, every chunking into positive reads and every part: publishes exactly the bytes before the least stopping cursor of the whole stream, with their CRC and the next position, or keeps all but the last 15 bytes; its effects on the disk, in order, are the opening, these bytes one by one, and the rename or removal |
| StoreScanner.FirstEffect | src/zip.c:5171-5216 | which part is removed before the output file is opened |
| DescriptorBytes.StopsBehindPayload | src/zip.c:5217-5318 | behind every payload each form of its descriptor, before a record of any of the five kinds, stops the scan at the end of the payload |
| DescriptorBytes.PublishedAsStored | src/zip.c:5107-5388 | a fresh scan of a stored payload, its descriptor and another record publishes that payload, its CRC and the position of the record, if and only if no cursor before stops it |
| ScannerResume.ResumeAgrees | src/zip.c:5171-5216 | from the first k bytes the scan stops where a fresh scan does if and only if k is within the payload |
| ScannerResume.ResumedRunAgrees | src/zip.c:5171-5216 | the outcomes of the resumed and the fresh run are equal, bytes, CRC and position, if and only if the part holds no descriptor byte |
| ScannerResume.ResumeAfterTruncation | src/zip.c:5319-5349 | after one unsuccessful run on a truncated archive, resuming agrees with a fresh run if and only if the truncation was not 16 to 19 bytes into a signed descriptor |
| DescriptorOverlap.CrcAfterOwnCrc | src/zip.c:897-915 | a string followed by its own CRC and the descriptor signature has one and the same CRC whatever the string |
| DescriptorOverlap.NoOverlap | src/zip.c:861-977 | no unsigned descriptor matches whose next record starts inside a matching signed descriptor |
| ScannerResume.TruncatedStop | src/zip.c:5217-5318 | a run on any truncation that finds a descriptor finds the one that a fresh run on the whole archive finds |
| ScannerRuns.RunLeavesPayload | src/zip.c:5171-5419 | one run, resuming or not, on any truncation that does not cut the descriptor and cut off after any effect, leaves payload bytes only; uncut, it leaves the published payload or what it flushed |
| ScannerRuns.AnyRuns | src/zip.c:5171-5419 | over any number of such runs the part holds payload bytes only, and the target, if any, is exactly the payload of a fresh scan of the whole archive |
| ScannerRuns.WhenRunsLeavePayload | src/zip.c:5319-5349 | over any number of resuming runs that are not cut off, the files are payload before and after each of them if and only if none saw the archive end 16 to 19 bytes into the signed descriptor |
| ScannerRuns.LastRunPublishes | src/zip.c:5351-5388 | after them an uncut run on the whole archive publishes the payload |
| ScannerRuns.GrowingArchive | src/zip.c:5319-5349 | after retries on a growing archive, each resuming from what the one before left, the resumed scan ends exactly like a fresh one if and only if no retry saw the archive end 16 to 19 bytes into the signed descriptor |
| ScannerResume.TruncationLosesDescriptor | src/zip.c:5319-5349 | a concrete archive on which it does not |
| PartFile.CopyStore | src/zip.c:3339-3455 | writes the payload from the offset on, whatever the chunks, and accepts it exactly if the seeded CRC ends at the entry's |
| PartFile.InflateRaw | src/zip.c:3623-3855 | either fills a mapped output in place, possibly with bytes that are not the payload, or writes the payload only once it is known good |
| PartFile.CheckTarget | src/zip.c:6006-6040 | skips exactly a target of the right size whose CRC is right or not asked for, and otherwise leaves the CRC it computed |
| PartFile.PreparePart | src/zip.c:6042-6120 | the branches on an existing part, by size, method, encryption and CRC, amount to one decision, with its effects on the files |
| PartFile.ExtractEntry | src/zip.c:5992-6210 | performs exactly the effects of the decision, the copy and the publication, in this order, with the outcome they determine |
| PartRuns.WhenSkipped | src/zip.c:6010-6036 | a run is skipped exactly if it resumes and a target of the entry's size is there, whose CRC is right or not asked for |
| PartRuns.TargetHasSize | src/zip.c:6010-6205 | whatever the options, a run that does not fail leaves a target of the entry's size |
| PartRuns.WhenTakenOver | src/zip.c:6044-6095 | exactly when a part is published as it is |
| PartRuns.WhenCopied | src/zip.c:6044-6133 | when a part is continued, and by which bytes, when the copy starts over, and when the part is removed first |
| PartRuns.WhenCopyEndsWell | src/zip.c:6142-6205 | a copy is published exactly if decoder and authentication end well, the sizes agree, and the CRC, if asked for, is right |
| PartRuns.TargetIsReplacedAtOnce | src/zip.c:6179-6205 | a run cut off before its last effect, or failing, leaves the target as it was |
| PartRuns.DoneReplaces | src/zip.c:6179-6205 | a finished run leaves no part and a target of the entry's size |
| PartRuns.NeverPublishesStalePart | src/zip.c:6046-6070 | with CRC off, a full-size Deflate or encrypted part is never published without being rewritten |
| PartRuns.StaleSeedIsDecision | src/zip.c:6024-6120 | the copy starts at offset 0 from a nonzero CRC exactly when a full-size part or target with a nonzero CRC was rejected |
| PartRuns.PublishedCrc | src/zip.c:6072-6175 | with CRC on, a published file has the entry's CRC if and only if the copy was not seeded so |
| PartRuns.WhenRunSucceeds | src/zip.c:5992-6205 | exactly when a resuming run on an intact stored entry succeeds |
| PartRuns.DeflateRunSucceeds | src/zip.c:5992-6205 | a resuming run on an intact Deflate entry, encrypted or not, leaves a good target from any part and any target |
| PartRuns.SuccessIsGood | src/zip.c:5992-6205 | a run on an intact entry that does not fail leaves a target of the entry's size and CRC |
| PartRuns.AtMostThreeRuns | src/zip.c:5992-6205 | from any part and target, one of three uninterrupted runs leaves a good target, unless the entry is both stored and encrypted |
| PartRuns.TwoRunsSuffice | src/zip.c:6072-6120 | for the same entries two runs are enough if and only if there is no part of a stored entry to continue that completes to a CRC which is neither the entry's nor zero |
| PartRuns.EncryptedRunSucceeds | src/zip.c:6010-6053 | a resuming run on an intact encrypted stored entry succeeds if and only if no target of its size with a wrong, nonzero CRC is there |
| PartRuns.FreshRunSucceeds | src/zip.c:5992-6205 | a run without resuming publishes exactly the payload of any intact entry, stored or Deflate, encrypted or not, with or without CRC validation, from any part and any target |
| PartRuns.NeverReplacesTarget | src/zip.c:6010-6175 | such a target is never replaced, by any number of runs |
| PartRuns.CutKeepsPrefix | src/zip.c:3339-3455 | a run cut off anywhere keeps the part of a stored, unencrypted entry a true prefix |
| PartRuns.FullRunKeepsPrefix | src/zip.c:5992-6205 | an uninterrupted run from a true prefix that does not fail publishes exactly the payload |
| PartRuns.AnyRunsKeepPrefix | src/zip.c:5992-6205 | over any number of runs with any options, each cut off after any write, the part stays a prefix and the target is never anything but the payload |
| PartRuns.PrefixRunSucceeds | src/zip.c:5992-6205 | from a true prefix of an intact entry the next uninterrupted run does not fail |
| PartRuns.ThreeRunsExample | src/zip.c:6072-6120 | a one-byte part before an intact entry that takes three runs |
| PartRuns.EncryptedTargetExample | src/zip.c:6010-6175 | an encrypted entry and an old target that no number of runs replaces |
| PartRuns.DamagedPayloadExample | src/zip.c:6072-6175 | a damaged payload that is published |
| Workers.RecordExtractMetrics | src/zip.c:1680-1697 | the running, saturating total is the saturated sum of the sizes |
| Workers.BatchIsMaximal | src/zip.c:6390-6410 | a claimed batch is the longest that fits: at most eight entries and, if more than one, at most 1 MiB |
| Workers.Context.ClaimBatch | src/zip.c:6383-6411 | one critical section claims the next batch, or none once there is a result or nothing left |
| Workers.Context.RecordFailure | src/zip.c:6472-6477 | the first failure becomes the result and stays |
| Workers.Context.ProgressAdvance | src/zip.c:4775-4814 | one critical section adds, saturating, reports, and turns a refusal into the result |
| WorkerRuns.NoBatchAfterFailure | src/zip.c:6383-6388 | over whole executions, once there is a result no further batch is claimed |
| WorkerRuns.RefusalStops | src/zip.c:4807-4814 | a refused report records the cancellation in the same step, and its worker gives up |
| WorkerRuns.OthersGoOn | src/zip.c:4775-4834 | a step in which nothing is refused and nothing fails leaves the result and its worker goes on |
| WorkerRuns.NeverReturns | src/zip.c:6470-6477 | a worker that has given up or stopped never takes part again |
| WorkerRuns.NothingForDirectories | src/zip.c:4754-4761 | no progress is ever credited to a directory |
| WorkerRuns.StepAccounted | src/zip.c:6350-6481 | every step of every worker keeps the accounting of entries, owners, batches and credited bytes |
| WorkerRuns.StepBatches | src/zip.c:6383-6411 | claimed batches tile [0, next) without gap or overlap, each a valid batch |
| WorkerRuns.StepProgress | src/zip.c:4775-4834 | the done count is the saturated sum of credits and never goes down; reports are sorted, and the last one is the done count |
| WorkerRuns.DoneAtMostTotal | src/zip.c:4775-4834 | neither the done count nor any report exceeds the total |
| WorkerRuns.StepResult | src/zip.c:6460-6477 | the result is the first failure recorded and never changes |
| WorkerRuns.StepFiles | src/zip.c:6413-6468 | with distinct paths the files are those of the entries extracted so far, whatever the order |
| WorkerRuns.EveryState | src/zip.c:6350-6541 | in every interleaving of any number of workers all of this holds in every state, and no entry is begun twice |
| WorkerRuns.NeverGoesBack | src/zip.c:6350-6541 | over whole executions, a recorded result stays, progress does not fall, and reports only get longer |
| WorkerRuns.JoinedWithoutFailure | src/zip.c:6507-6540 | an execution that has stopped all workers without failure handled every entry exactly once, left the serial run's files, and last reported the total |
| WorkerRuns.NeverStuck | src/zip.c:6350-6481 | a worker that has not stopped always has a next step |
| WorkerSteps.StepCosts | src/zip.c:6383-6477 | every step lowers what the workers still have to do |
| WorkerSteps.ExecutionsEnd | src/zip.c:6350-6541 | no execution has more than four steps for each worker, one for each byte and six for each entry |
| WorkerRuns.ExtractAllSerial | src/zip.c:6277-6348 | stops at the first entry that fails or whose last report the callback refuses; otherwise gives the serial files and the whole total |
| WorkerRuns.WhenAllEndWell | src/zip.c:6277-6348 | all entries end well exactly if each is skipped or extracted and every report of what was left is accepted |
| Sha1.FoldConcat | src/crypto/sha1.c:188-220 | compressing whole blocks in turn is a fold: a concatenation continues it |
| Sha1.Be64Value | src/crypto/sha1.c:52-62 | the eight bytes stand for the number modulo 2^64, most significant first |
| Sha1.Be32Value | src/crypto/sha1.c:44-50 | the four bytes stand for the word |
| Sha1Abc.DigestOfAbc | src/crypto/sha1.c:64-157 | the digest of "abc" is the one of section 7.3 of RFC 3174, by eighty rounds |
| Sha1State.State.Update | src/crypto/sha1.c:188-220 | for every split of a message the state keeps the fold of its whole blocks, the pending bytes and the length modulo 2^64 |
| Sha1State.State.Final | src/crypto/sha1.c:222-245 | gives the digest of the message padded by section 5.1.1 of FIPS 180-4, also when the padding needs a block of its own |
| Hmac.State.constructor | src/crypto/sha1.c:247-277 | starts the HMAC of section 2 of RFC 2104 for every key, longer than a block or not |
| Hmac.State.Update | src/crypto/sha1.c:279-282 | adds to the authenticated text and keeps the key |
| Hmac.State.Final | src/crypto/sha1.c:284-291 | gives the HMAC of all text taken in |
| Hmac.MacIs | src/crypto/sha1.c:247-291 | the formula of section 2 of RFC 2104 with its pads written out; a key longer than a block counts as its digest |
| Pbkdf2.DigestAfterPad | src/crypto/sha1.c:159-174 | one compression of the digest and a constant tail is the SHA-1 of a key pad followed by the digest |
| Pbkdf2.Digest20 | src/crypto/sha1.c:159-174 | the reused block holds the full HMAC of the previous digest, with its tail intact |
| Pbkdf2.OneBlock | src/crypto/sha1.c:337-345 | the iterations of one block give U_1 xor ... xor U_c |
| Pbkdf2.Derive | src/crypto/sha1.c:293-357 | for every password, salt, length and iteration count the output is the derived key of section 5.2 of RFC 8018; zero iterations are refused |
| Pbkdf2.CounterValue | src/crypto/sha1.c:329-332 | the four bytes of a block number stand for it, modulo 2^32 |
| Pbkdf2.FirstKeys | src/crypto/sha1.c:293-357 | the keys after one and two iterations and the start of a second block, written out |
| AesCtr.IncrementCounts | src/crypto/aes_wg.c:258-270 | adding one with carry to the bytes of n gives the bytes of n + 1, modulo their width |
| AesCtr.XorStreamConcat | src/crypto/aes_wg.c:328-386 | decryption does not depend on how the ciphertext is cut into calls |
| AesCtr.State.NextStream | src/crypto/aes_wg.c:258-270 | the next key stream block is the encryption of the next little-endian 64-bit counter |
| AesCtr.FirstKeyBytes | src/crypto/aes_wg.c:258-270 | the key stream is the encryption of the counters 1, 2, ..., least significant byte first |
| AesCtr.AddLanesCounts | src/crypto/aes_wg.c:216-227 | adding one in a 64-bit vector lane gives the bytes that the carry loop gives, also where it wraps around |
| AesCtr.State.Decrypt4 | src/crypto/aes_wg.c:210-255 | four blocks at once give the bytes and the complete state that four single blocks give |
| AesCtr.State.Decrypt | src/crypto/aes_wg.c:328-386 | decrypts byte k with block k / 16 + 1, authenticates the ciphertext, and leaves the state of the position reached, on every path |
| AesCtr.State.Authenticate | src/crypto/aes_wg.c:388-398 | accepts exactly the first ten bytes of the HMAC of all ciphertext |
| AesCtr.ConstantTimeEqual | src/crypto/aes_wg.c:49-58 | the comparison without early exit is equality |
| DeflateAuth.RollBack | src/zip.c:5643-5653 | restoring the saved HMAC and feeding the used bytes leaves the HMAC of the text up to them |
| DeflateAuth.FeedChunks | src/zip.c:5568-5653 | for every chunking and every end position, the authenticated text is exactly the consumed payload |
| DeflateAuth.CheckDeflate | src/zip.c:5568-5683 | of the bytes up to the last ten of the file, the verdict is the comparison of the HMAC of exactly the consumed ciphertext with the ten bytes after it |
| ZipCrypto.WideStreamByteAgrees | src/crypto/dec.c:109-116 | the stream byte from the 32-bit key equals the one from the 16-bit temporary of section 6.1.6 of APPNOTE.TXT |
| ZipCrypto.TableIsCrc | src/crypto/dec.c:25-99 | the table lookup is the CRC step of section 6.1.5 |
| ZipCrypto.DecryptEncrypt | src/crypto/dec.c:131-141 | decryption inverts the encryption of section 6.1 under the same keys |
| ZipCrypto.EncryptDecrypt | src/crypto/dec.c:131-141 | and encryption inverts decryption |
| ZipCrypto.DecryptConcat | src/crypto/dec.c:131-141 | decryption does not depend on fragmentation |
| ZipCrypto.State.DecryptInPlace | src/crypto/dec.c:131-141 | decrypts a prefix of the buffer in place and leaves the keys after its plaintext |
| ZipCrypto.State.Open | src/crypto/dec.c:143-155 | accepts exactly a header whose last decrypted byte is the expected one |
| ZipCrypto.KnownCiphertext | src/crypto/dec.c:101-142 | under the password "z" the bytes "ip" are stored as FE C5 |
| Eocd.FindMapped | src/zip.c:1316-1381 | returns what the last end record in the window, whose comment ends at the end of the file, determines |
| Eocd.FindBuffered | src/zip.c:1383-1458 | the same, from a buffered tail |
| Eocd.ReadZip64Mapped | src/zip.c:1277-1314 | the ZIP64 directory of a single-disk locator and end record, or nothing |
| Eocd.ReadZip64Seek | src/zip.c:1234-1275 | the same, with seeks and reads |
| Eocd.SearchesAgree | src/zip.c:1316-1458 | the two searches return the same result for every file |
| Eocd.FoundDirectory | src/zip.c:1316-1458 | a directory that is found ends at or before its end record without overflow, also after ZIP64 replaced its fields |
| EocdRoundTrip.EndsFileInBytes | src/zip.c:1334-1345 | an end record is one exactly where its signature bytes stand and its comment reaches the end of the file |
| EocdRoundTrip.PlainEnd | src/zip.c:1316-1458 | for an archive that ends with an end record, given by its fields, the search returns exactly the offset, size and entries that it says |
| EocdRoundTrip.Zip64End | src/zip.c:1235-1314 | the same for a ZIP64 end record and its locator, given by their fields |
| EocdRoundTrip.NoLocator | src/zip.c:1235-1290 | without a locator a field that is left to ZIP64 refuses the archive |
| EocdRoundTrip.Zip64DirInBytes | src/zip.c:1235-1314 | ZIP64 values come only from a record with its own signature bytes, to which a locator with its own points |
| Zip64Extra.FieldsOfStored | src/zip.c:1477-1487 | every list of extra fields is read back as it was stored |
| Zip64Extra.StoredOfFields | src/zip.c:1477-1537 | a list that is accepted is exactly the bytes of its fields: none is skipped and none left over |
| Zip64Extra.Info.ParseZip64Extra | src/zip.c:1460-1542 | accepts exactly the usable lists, and then holds the values of the last ZIP64 field |
| Zip64Extra.RoundTrip | src/zip.c:1460-1542 | the last ZIP64 field of section 4.5.3 of APPNOTE.TXT, anywhere among other fields, gives back every 64-bit value, also one equal to 0xFFFFFFFF, and is accepted exactly on disk 0 |
| Zip64Extra.WithoutZip64 | src/zip.c:1536-1542 | without a ZIP64 field a list is accepted exactly if no sentinel is left and the disk is 0 |
| CentralDirectory.ParseAesExtra | src/zip.c:1544-1582 | accepts exactly the lists whose AES fields are all well formed, and takes the last |
| CentralDirectory.ParseEntry | src/zip.c:6922-7006 | accepts exactly a record whose name has no zero byte, whose extra bytes resolve it, and whose entry the archive can have |
| CentralDirectory.ReadRecord | src/zip.c:6850-6961 | both branches read the record that is there, the mapped one only if its comment is inside too |
| CentralDirectory.Archive.PutName | src/zip.c:504-527 | a name is stored with its zero byte; what was stored before stays; a chunk with room is used to its last byte, and otherwise one of 4096 bytes or the name's size is added |
| CentralDirectory.Archive.PreallocNameSlab | src/zip.c:529-583 | accepts exactly a directory whose records fill it, and sets aside the bytes that all names need |
| CentralDirectory.Archive.ReadDirectory | src/zip.c:6834-7016 | accepts exactly a walk of usable records, over a mapping only one that ends with the directory; every name is where its reference says; over a mapping the names tile one slab of exactly their size |
| CentralDirectory.SkimOfWalk | src/zip.c:529-583 | the first pass sees the records that the second walks, and needs exactly the bytes of their names |
| CentralDirectory.MappedAgreesWithSeek | src/zip.c:6834-7016 | the mapped parse accepts if and only if the seek-and-read parse of the same bytes accepts and its records end where the directory is said to end; then both give the same entries |
| CentralDirectory.Open | src/zip.c:6767-7016 | lists what the found directory holds, mapped or not, and leaves every name where its reference says |
| CentralDirectory.MappedOpenMeansOpen | src/zip.c:6767-7016 | for every file, whatever the mapped parse lists, the seek-and-read parse lists too |
| DirectoryRoundTrip.AesFieldInBytes | src/zip.c:1544-1582 | the bytes of a well-formed AES field |
| DirectoryRoundTrip.ReadBack | src/zip.c:6850-7006 | a record written from its fields, with or without ZIP64 and AES fields among others, is read back as the member it describes, exactly if that is usable |
| DirectoryRoundTrip.ListedRecord | src/zip.c:6850-7006 | what is never listed: other signature bytes, another disk, no name, a zero byte in it, an offset behind the directory |
| DirectoryRoundTrip.CountedRecord | src/zip.c:529-583 | the first pass counts no record without its signature bytes, without a name, or ending outside |
| DirectoryRoundTrip.WalkBack | src/zip.c:6834-7016 | a directory of such records is walked to its end and gives its members in order, exactly if all are usable |
| DirectoryRoundTrip.ArchiveIsListed | src/zip.c:6767-7016 | an archive written out as body, directory and end record is listed as it was written, mapped or not, if and only if all members are usable |
| DirectoryRoundTrip.Zip64ArchiveIsListed | src/zip.c:6767-7016 | the same with ZIP64 records, for any directory that 64 bits can describe |
| CentralDirectory.UnresolvedDisk | src/zip.c:6943-6975 | the disk number 0xFFFF without a ZIP64 field is accepted exactly in a record without extra bytes |
| CentralDirectory.UnresolvedDiskExample | src/zip.c:6943-6975 | a record that is accepted so, and refused with four unrelated extra bytes |
| DataDescriptor.Reader.SkipDataDescriptor | src/zip.c:783-859 | the outcome, error by error, and the position after either reading |
| DataDescriptor.WhenSkipped | src/zip.c:820-856 | a descriptor is skipped exactly if one of its readings agrees with the entry, and to the end of that reading |
| DataDescriptor.WhenRefused | src/zip.c:783-859 | which error is given otherwise |
| DataDescriptor.SignedRoundTrip | src/zip.c:783-859 | a signed descriptor of either width is skipped exactly |
| DataDescriptor.UnsignedRoundTrip | src/zip.c:783-859 | an unsigned one is skipped exactly if and only if its CRC is not the signature, or four bytes follow and the signed reading does not agree too |
| DataDescriptor.BothReadingsAgree | src/zip.c:832-856 | when both readings of a 32-bit descriptor agree with the entry |
| DataDescriptor.SkipsTooFar | src/zip.c:783-859 | an unsigned descriptor before the central directory that agrees with its entry and is skipped four bytes too far, because the sizes hold the next record's signature |
| Paths.ScanMemberName | src/zip.c:1726-1769 | refuses exactly names with a zero byte; finds safety, spelling and the length of the parent |
| Paths.PathBuffer.SetArchiveDir | src/zip.c:4103-4128 | the buffer starts with the directory and one slash, kept or written anew |
| Paths.PathBuffer.AppendName | src/zip.c:4130-4156 | writes the normalised name behind the prefix, which stays |
| Paths.PathBuffer.EntryPath | src/zip.c:4103-4156 | whatever directories and names went before, the buffer holds the path built from scratch |
| Paths.ExtractPathLen | src/zip.c:4050-4076 | the from-scratch path |
| Paths.PathInBytes | src/zip.c:4050-4156 | the path byte by byte: directory, slash, and the name with a slash for either separator |
| Paths.SafeInBytes | src/zip.c:1726-1769 | exactly which names are safe, in bytes |
| Paths.StaysBelow | src/zip.c:1726-1769 | the path of a safe name has no ".." segment behind the prefix and starts no new root there |
| Paths.ParentLenAgrees | src/zip.c:4200-4207 | the stored parent length gives the length that a scan of the whole path finds, except exactly for names whose only separator comes first, which are not safe |
| Paths.Rescan | src/zip.c:2860-2884 | the scan for the last separator |

## Left out

- The Deflate decoder: inflating is a function parameter, and in PartFile an entry says which contents it writes and whether it succeeds; that it never writes past the declared size is taken for granted.
- AES rounds and key schedule: the block encryption is a function parameter, so what is proved holds for any cipher. SHA-1's compression is modelled, the vector forms of it are not.
- aes_wg_open, dec_init, dec_decrypt and dec_finish as dispatchers: the states they set up and call are modelled, the selection by kind is not.
- Bit-vector words stand for the 8-byte loads of the CRC loops; the unaligned load itself and the big-endian build are not modelled.
- The scanner's progress callback, cancellation, metadata and state text file; its ZIP64-sized descriptors, which the code refuses before scanning.
- The fallback after a failed mapping of the output, write errors other than interruption, flushing, permissions, timestamps and the state text file of the part protocol. A rename is one step; a write may be cut after any byte.
- Extraction without a part file, symlinks and directories, conflicts, save folders and manifests.
- size_t is taken to hold every 64-bit value, and file offsets not to overflow.
- Canonical paths, Windows separators and the text of save folders; size_t overflow of path lengths.
- Extended timestamps and the file-type bits of directory records; the metrics taken while the directory is read are modelled separately in Workers.
- Allocation failure and transient read errors everywhere.
- Thread creation: any number of workers runs, each critical section is one step, and the order of steps is arbitrary.
- WorkerRuns.JoinedWithoutFailure: the serial files are stated for distinct output paths only; with equal paths the last writer wins, which depends on the order.
- Zip64Extra.Info.ParseZip64Extra: says nothing of the record's fields after a refusal, because the whole archive is then dropped.
- CentralDirectory.Archive.ReadDirectory: a name is put into its chunk after the whole record is read, where the code does so before the extra bytes; a refusal drops both.
