# A verified model of the Android system services

This project models the hardest parts of an Android system tree in Dafny and proves
what they promise: the OCB3 cipher of keymaster, the key-blob stack built on it, the
streaming AES-GCM operations, rate limits on keys, password throttling in gatekeeper,
the futex-based event flag of libfmq, death notification in libhwbinder, and the
service registry of hwservicemanager. `dafny verify dfyconfig.toml` checks all of it.

## How the model is laid out

`Wrappers` and `Basics` hold what all parts share.

**OCB (`Bytes`, `Blocks`, `OcbSpec`, `OcbWords`, `OcbKeys`, `OcbSums`, `Memory`,
`OcbAd`, `OcbText`, `Ocb`, `OcbTheorems`, `OcbLaws`).** `OcbSpec` is the block-by-block algorithm
of RFC 7253 (HASH in section 4.1, OCB-ENCRYPT in section 4.2, OCB-DECRYPT in section
4.3), written on bit strings. `Ocb.AeCtx` is the context of `keymaster/ocb.c` with its
offsets, checksums, cached nonce block and block counters; its methods work on byte
arrays, four blocks at a time, in place if the caller wants. AES is an arbitrary
permutation with its inverse. The build is the configured one: four blocks per
iteration, a 16-byte tag, 16 entries in the L table, the portable block type. Words are
bit strings, so shifts, the byte swaps and the register/memory order of the source are
expressed as slices of those strings. `OcbLaws` says what the values of `OcbSpec` are
without its recursions: the Gray-code form of the offsets, every ciphertext block and the
tag by position, and that a message opens exactly if it is a sealing.

**Key blobs (`Codec`, `AuthData`, `AuthOrder`, `AuthSorting`, `AuthorizationSets`,
`AuthTheorems`, `ByteBuffer`, `BlobFormats`, `KeyWrapping`, `OcbBlobs`,
`IntegrityBlobs`, `BlobLaws`, `VersionTags`, `SoftKeymaster`, `UpgradeTheorems`).**
`AuthorizationSets.AuthorizationSet` keeps the element array and the indirect byte area
of the source, with blob elements that point into the area and are moved when it grows.
`AuthData` says what a set denotes and what its serialized form is. The parameter
comparator comes from a header that is not part of this tree; it is modelled as any
total order whose least element is the invalid parameter. Tag numbers and the type
nibble of a tag follow the published keymaster definitions. SHA-256 and HMAC-SHA-256 are
arbitrary functions with 32-byte results.

**AES-GCM (`GcmSpec`, `AesGcm`).** The library's context is modelled as a class whose
calls may fail and which pads every piece of associated data on its own, which is why
the operation has to hand over whole blocks.

**Protocols (`EventFlags`, `WaitTimes`, `DeathNotices`, `DeathRuns`).** Threads are
interleaved at every atomic operation, system call or lock section.

**Policy (`AccessTables`, `Enforcement`, `EnforcementLaws`, `EnforcementRuns`,
`LinkedList`, `Gatekeeper`, `GatekeeperRuns`) and registry (`Registry`, `ServiceManagers`, `RegistryRuns`).** Classes
for what the source changes in place, functions for what one operation does, and lemmas
over every run.

## Results

- One-shot and incremental OCB encryption and decryption are RFC 7253, for every cut of
  text and associated data into pending calls of whole four-block groups, in place, with
  the tag separate or bundled; decryption reports an invalid tag exactly when the tag
  differs from the one the RFC computes.
- The offset of every block follows from its number alone, by the Gray code; no two
  consecutive ones are equal unless the cipher maps zero to zero. A sealed message opens
  to a text if and only if it is the sealing of that text.
- The cached nonce block never changes a result, over any sequence of messages.
- A key that is wrapped and parsed again comes back with both sets, because parsing
  keeps the bytes from which the wrapping key is derived. Those bytes, and what an HMAC
  covers, determine all sets they are made from, the hidden one included; and an
  encrypted blob gives up a key if and only if it holds the sealing of that key.
- Serialized authorization sets are read back exactly; the condition is stated as an
  if-and-only-if. `Deduplicate`, `Union` and `Difference` are set operations.
- An upgraded key blob holds the same key and the same other authorizations, is
  accepted by the version check, and needs no second upgrade; for software blobs this
  holds without further conditions on their contents.
- Streamed GCM equals one-shot GCM for every chunking, and what one stream encrypts
  comes back when its output is cut in any other way and decrypted.
- No wake-up is lost, and every bit raised is told to exactly one waiter or still set.
- Every recipient taken for a death report is told once and in order; nothing links
  after the report.
- Authorized uses of a rate-limited key are spaced, whatever is evicted in between; uses
  per boot are limited. Both limits come with the exact condition on the key. A request
  is authorized if and only if purpose, dates, limits, token and nonce allow it and the
  tables take it.
- Failed password attempts are counted before they are checked, under any clock; the
  time they take is at least the sum of the timeouts, which is more than seven days for
  140 attempts, and a clock reset starts the whole timeout again.
- The circular list refines a sequence, its assignment operator copies for every pair of
  lengths, and the access tables on top of it erase while they iterate.
- The registry says what its history of registrations and deaths says, and it is known
  exactly in which histories every registered service stays linked to death.

Where the code does not meet the property one would expect, the model follows the code:

- A key blob of the old layout without a version byte is not recovered if its first five
  nonce bytes look like a version byte and the length of a nonempty string that fits
  into the blob: the failed first attempt leaves bytes in the nonce buffer, and the
  fallback appends to them. The key comes back if and only if that is not so
  (`OcbBlobs.LegacyWrapParse`, and `BlobFormats.UnversionedRoundTrip` for the parse);
  `BlobFormats.MistakenBlob` is an instance.
- A minimum interval of `UINT32_MAX` seconds is never recorded
  (`EnforcementRuns.UnlimitedInterval`). A usable key is kept to its interval if and only
  if that is another value (`EnforcementRuns.SpacedIff`);
  `EnforcementRuns.UseWithoutTrace` is an instance.
- A key whose hardware set records an older patch level is sent to be upgraded again
  after every upgrade, because an upgrade changes the software set only
  (`UpgradeTheorems.CheckAfterUpgrade` has the exact condition).
- One use per boot is always allowed, even when the limit is zero. A usable key is kept
  to its limit if and only if that is at least one (`EnforcementRuns.WithinIff`);
  `EnforcementRuns.UseAtLimitZero` is an instance.
- The end of a gatekeeper timeout is computed in 64 bits, and a request in the middle of
  a timeout whose end wraps around is let through: `Gatekeeper.HeldOff` has the exact
  condition, `Gatekeeper.WrappedTimeout` an instance. The comment above
  `ComputeRetryTimeout` speaks of no timeout between six and ten failures and of values
  of 30; the code gives 30000 milliseconds at ten.
- A negative timeout for a wait without retry can produce a time with negative
  nanoseconds. A timeout is safe at any time of day if and only if it is not negative or
  a whole number of seconds (`WaitTimes.NormalAtAnyTime`); `WaitTimes.NegativeTimeout` is
  an instance.
- A service that is replaced under one of its interfaces loses a death link even where
  it stays registered under another: a service of version 1.1 of an interface is left
  without one when a service of version 1.0 takes its place there
  (`RegistryRuns.OrphanedService`). And a service whose linking to death fails is
  registered all the same (`RegistryRuns.UnlinkedService`).
  `RegistryRuns.WatchedAfterAdd` says exactly when an add leaves every registered service
  linked, whatever links and unlinks fail, and `RegistryRuns.WatchedHistory` extends that
  to whole histories.

## Model

| member | source | states |
|---|---|---|
| OcbWords.DoubleWordsDoubles | keymaster/ocb.c:328-333 | the two-word doubling is multiplication by x in GF(2^128) as section 2 of RFC 7253 defines double() |
| OcbWords.GenOffsetIsSlice | keymaster/ocb.c:302-312 | the shifted and joined words are the 128 bits of the three words that start at the given bit, also for bit zero |
| OcbWords.KtopWordsStretch | keymaster/ocb.c:779-784 | the three stored words are the Stretch of section 4.2 of RFC 7253 |
| OcbWords.NonceSplit | keymaster/ocb.c:761-776 | the masked nonce block and its low six bits are Top and Bottom of the RFC's nonce string |
| OcbWords.NonceTopNotZero | keymaster/ocb.c:722 | no nonce gives the zero block that initialization leaves in the cache, so it never counts as a hit |
| OcbWords.NonceOffset | keymaster/ocb.c:748-787 | the offset derived from a nonce is Offset_0 of section 4.2 |
| OcbWords.TableIndex | keymaster/ocb.c:642-643 | every trailing-zero count of a block number below 2^16 is an index into the table of 16 |
| OcbWords.NtzOfFour | keymaster/ocb.c:954-964 | in a group of four blocks only the last needs the trailing-zero count |
| OcbWords.PadXor | keymaster/ocb.c:1045-1062 | the short last block, padded in place and XORed with the pad, starts with the ciphertext bytes of the RFC |
| OcbWords.PadCancel | keymaster/ocb.c:1256-1265 | XORing the pad over a partly overwritten pad leaves P* followed by 0x80 and zeros |
| OcbKeys.EcbEncrypt | keymaster/ocb.c:349-354 | every block of the array is enciphered, from the last to the first |
| OcbKeys.EcbDecrypt | keymaster/ocb.c:356-361 | every block of the array is deciphered |
| OcbKeys.ConstantTimeCompare | keymaster/ocb.c:1114-1127 | the accumulated difference is zero exactly when the two regions are equal |
| OcbKeys.ComputeKeyed | keymaster/ocb.c:725-735 | the stored key-dependent blocks are L_*, L_$ and L_0 to L_15 of section 4.1 |
| OcbSums.OffsetsOfFour | keymaster/ocb.c:954-964 | the four offsets of a group follow from L_0, L_1, L_0 and one table entry |
| OcbSums.HashSumConcat | keymaster/ocb.c:804-845 | the hash sum over more blocks is the sum so far and the enciphered terms of the new ones |
| OcbAd.AdFour | keymaster/ocb.c:804-841 | one iteration over associated data adds the four HASH terms and advances the offset by four |
| OcbAd.AdRest | keymaster/ocb.c:851-889 | the cipher inputs for the last, possibly short blocks carry the offsets and the padding of HASH |
| OcbAd.AddDown | keymaster/ocb.c:891-911 | the fall-through switch adds every enciphered block, whatever the order |
| OcbAd.HashOfRest | keymaster/ocb.c:847-915 | the sum after the rest is HASH of all blocks and the short tail |
| OcbAd.ProcessAd | keymaster/ocb.c:789-916 | a pending call continues the HASH sum, a final call completes HASH over everything given |
| OcbText.FourOffsets | keymaster/ocb.c:954-964 | the offsets computed in a group are Offset_{n+1} to Offset_{n+4} |
| OcbText.EncryptFour | keymaster/ocb.c:951-988 | one iteration gives the four ciphertext blocks, the new offset and the checksum with the four plaintext blocks |
| OcbText.DecryptFour | keymaster/ocb.c:1170-1202 | one iteration gives the four plaintext blocks, the new offset and the checksum with them |
| OcbText.EncryptStep | keymaster/ocb.c:951-996 | the group is read at and written to its position in the buffers and nothing else changes |
| OcbText.DecryptStep | keymaster/ocb.c:1170-1214 | the same for decryption |
| OcbText.EncryptBulk | keymaster/ocb.c:943-1001 | after the loop the target holds the RFC's ciphertext blocks, even if it is the source buffer |
| OcbText.DecryptBulk | keymaster/ocb.c:1162-1219 | after the loop the target holds the RFC's plaintext blocks, even if it is the source buffer |
| OcbText.EncryptRest | keymaster/ocb.c:1003-1083 | the last fewer than 64 bytes give the rest of the ciphertext and the tag |
| OcbText.DecryptRest | keymaster/ocb.c:1221-1299 | the last fewer than 64 bytes give the rest of the plaintext and the expected tag |
| OcbText.EncryptFinal | keymaster/ocb.c:1003-1101 | rest and tag go behind the bulk, the tag into its own buffer or behind the ciphertext |
| OcbText.TagMatches | keymaster/ocb.c:1301-1318 | the comparison succeeds exactly for the computed tag, given separately or behind the ciphertext |
| OcbText.EncryptText | keymaster/ocb.c:943-1103 | ciphertext and tag of the whole text argument, and the context values for a pending call |
| OcbText.DecryptText | keymaster/ocb.c:1162-1321 | plaintext, the verdict on the tag, and the context values for a pending call |
| Ocb.AeCtx.Init | keymaster/ocb.c:703-744 | only 12-byte nonces are supported; otherwise the context is ready with an empty cache |
| Ocb.AeCtx.GenOffsetFromNonce | keymaster/ocb.c:748-787 | Offset_0 of the nonce, whether or not the cached block is used, and a cache that stays right |
| Ocb.AeCtx.Encrypt | keymaster/ocb.c:918-1103 | any call of a message: its bytes, its tag, the state for the next call, and reuse of the last associated data |
| Ocb.AeCtx.Decrypt | keymaster/ocb.c:1129-1321 | any call of a message; AE_INVALID exactly when the given tag is not the computed one |
| OcbTheorems.SealInPieces | keymaster/ocb.c:918-1103 | any number of pending calls and a final one, in place, give OCB-ENCRYPT of the whole message |
| OcbTheorems.OpenInPieces | keymaster/ocb.c:1129-1321 | any number of pending calls and a final one, in place, give OCB-DECRYPT of the whole ciphertext and tag |
| OcbTheorems.SealLast | keymaster/ocb.c:1003-1101 | what was written so far and the final call's output are the ciphertext and tag of the whole message |
| OcbTheorems.OpenLast | keymaster/ocb.c:1221-1319 | the same for the plaintext and the expected tag |
| OcbTheorems.OpenUndoesSeal | keymaster/ocb.c:1129-1321 | decrypting what was encrypted at the same point recovers it, and the tags agree |
| OcbTheorems.BundledRoundTrip | keymaster/ocb.c:1092-1100 | encrypting and decrypting one buffer in place with a bundled tag restores length and text |
| OcbSpec.DecryptEncrypt | keymaster/ocb.c:918-1321 | OCB-DECRYPT of section 4.3 undoes OCB-ENCRYPT of section 4.2 for every text, short or empty |
| OcbTheorems.SealWithSameAd | keymaster/ocb.c:930-936 | a message without associated data of its own is sealed with that of the message before |
| OcbLaws.DoubleLinear | keymaster/ocb.c:328-333 | doubling distributes over addition |
| OcbLaws.DoubleUnit | keymaster/ocb.c:328-333 | doubling takes x^k to x^(k+1) and x^127 to x^7 + x^2 + x + 1, which with linearity determines it |
| OcbLaws.DoubleNonzero | keymaster/ocb.c:328-333 | only zero doubles to zero |
| OcbLaws.LIsTimes | keymaster/ocb.c:725-735 | L_*, L_$ and L_i are the enciphered zero block times 1, x and x^(i+2) |
| OcbLaws.NtzMeans | keymaster/ocb.c:642-643 | the trailing-zero count is the exponent of two in the block number |
| OcbLaws.OffsetStep | keymaster/ocb.c:951-964 | consecutive offsets differ by the enciphered zero block times x^(2+ntz) |
| OcbLaws.OffsetMoves | keymaster/ocb.c:951-964 | no two consecutive offsets are equal unless the cipher maps zero to zero |
| OcbLaws.OffsetByGray | keymaster/ocb.c:951-964 | the offset of any block directly from its number: the start plus the table entries of its Gray code |
| OcbLaws.NonceParts | keymaster/ocb.c:761-776 | the cached block is header and nonce without the last six bits, which are the window |
| OcbLaws.SameTop | keymaster/ocb.c:761-784 | two nonces share the cached block if and only if they agree but for their last six bits |
| OcbLaws.FirstOffsetBits | keymaster/ocb.c:748-787 | every bit of Offset_0 as one or the sum of two bits of the enciphered block |
| OcbLaws.BlockOfCiphertext | keymaster/ocb.c:951-996 | every whole ciphertext block of every message by its position alone |
| OcbLaws.TailOfCiphertext | keymaster/ocb.c:1045-1062 | the ciphertext of the short last block of every message |
| OcbLaws.ChecksumBits | keymaster/ocb.c:951-966 | every bit of the checksum is the parity of that bit over all plaintext blocks |
| OcbLaws.TagOfWholeMessage | keymaster/ocb.c:1003-1083 | the tag of every message of whole blocks from checksum, Gray-code offset, enciphered zero block and hash |
| OcbLaws.TagOfShortMessage | keymaster/ocb.c:1003-1083 | the tag of every other message, with the padded rest in the checksum |
| OcbLaws.HashOfBlocksBits | keymaster/ocb.c:804-845 | every bit of the hash sum is the parity over the enciphered blocks at their Gray-code offsets |
| OcbLaws.HashOfData | keymaster/ocb.c:789-916 | the hash of all associated data, with the short last block under its own offset |
| OcbLaws.OpensIff | keymaster/ocb.c:1129-1321 | a sealed message opens to a text if and only if it is the sealing of that text |
| Codec.Append | keymaster/serializable.cpp:27-36 | what fits before the end is written and the cursor advances; otherwise nothing changes |
| Codec.GetPutData | keymaster/serializable.cpp:49-68 | a length-prefixed string is read back exactly when its length fits into 32 bits |
| BlobLaws.ByteCounts | keymaster/include/keymaster/serializable.h:88-100 | numbers are written least significant byte first: each further byte counts 256 times as much |
| ByteBuffer.Buffer.Reserve | keymaster/serializable.cpp:70-84 | room for more bytes without a change of the contents |
| ByteBuffer.Buffer.Write | keymaster/serializable.cpp:122-128 | appends to the queue if there is room, else nothing |
| ByteBuffer.Buffer.Read | keymaster/serializable.cpp:130-136 | takes from the front of the queue if there is enough, else nothing |
| ByteBuffer.Buffer.Reinitialize | keymaster/serializable.cpp:97-109 | the contents are the given bytes |
| ByteBuffer.Buffer.Deserialize | keymaster/serializable.cpp:146-155 | the contents are the next length-prefixed string; if there is none they are empty and the cursor is past the length, if that could be read |
| AuthData.PushOk | keymaster/authorization_set.cpp:286-306 | appending a parameter appends exactly it to what the set denotes, with its blob copied |
| AuthData.PushAllOk | keymaster/authorization_set.cpp:269-284 | the same for a whole parameter set |
| AuthData.DecodeEncode | keymaster/authorization_set.cpp:428-497 | a serialized set is read back, and exactly its bytes are consumed |
| AuthData.DecodeSound | keymaster/authorization_set.cpp:438-497 | whatever is accepted is well formed, could be written again, and accounts for the bytes consumed |
| AuthData.RoundTrip | keymaster/authorization_set.cpp:428-497 | writing and reading gives the set back if and only if its tags are readable, its area holds its blobs and nothing else, and its sizes fit into 32 bits |
| BlobLaws.TagTypes | keymaster/authorization_set.cpp:308-329 | which ranges of tags are numbers, long numbers, flags and blobs |
| BlobLaws.ElementLayout | keymaster/authorization_set.cpp:331-364 | where tag, number, flag, and length and offset of a blob stand in a serialized parameter |
| BlobLaws.ElementAt | keymaster/authorization_set.cpp:417-426 | serialized parameters stand one behind the other, in order |
| BlobLaws.SetLayout | keymaster/authorization_set.cpp:428-436 | where indirect data, count, size and elements stand in a serialized set |
| BlobLaws.NonzeroIsTrue | keymaster/authorization_set.cpp:386-393 | any byte but zero is read as true |
| BlobLaws.SlackIsLeft | keymaster/authorization_set.cpp:448-497 | a set that announces more element bytes than it uses is read if they are there, and leaves them |
| AuthSorting.SortSorted | keymaster/authorization_set.cpp:149-152 | the sorted elements are in order and are a permutation of the given ones |
| AuthOrder.SortedUnique | keymaster/authorization_set.cpp:149-152 | a multiset of parameters has one sorted sequence, so the library's sorting algorithm does not matter |
| AuthOrder.DeduplicatedCorrect | keymaster/authorization_set.cpp:154-180 | marking and dropping leaves a strictly sorted sequence with exactly the distinct valid parameters |
| AuthOrder.DropInvalids | keymaster/authorization_set.cpp:172-179 | after sorting again the invalid parameters stand first and the rest are the kept ones |
| AuthorizationSets.AuthorizationSet.ReserveElems | keymaster/authorization_set.cpp:64-80 | growing the element array does not change the set |
| AuthorizationSets.AuthorizationSet.ReserveIndirect | keymaster/authorization_set.cpp:82-104 | growing the indirect area moves every blob pointer and does not change the set |
| AuthorizationSets.AuthorizationSet.PushBack | keymaster/authorization_set.cpp:286-306 | the set denotes one parameter more; an invalid set stays as it is |
| AuthorizationSets.AuthorizationSet.PushBackAll | keymaster/authorization_set.cpp:269-284 | the set denotes all given parameters more, also if it was just deserialized; an invalid set stays as it is |
| AuthorizationSets.AuthorizationSet.Reinitialize | keymaster/authorization_set.cpp:123-142 | the set denotes exactly the given parameters |
| AuthorizationSets.AuthorizationSet.Sort | keymaster/authorization_set.cpp:149-152 | the elements are a sorted permutation and the indirect area is untouched |
| AuthorizationSets.AuthorizationSet.MarkDuplicates | keymaster/authorization_set.cpp:157-170 | every parameter equal to its successor becomes invalid, and the invalid ones are counted |
| AuthorizationSets.AuthorizationSet.Deduplicate | keymaster/authorization_set.cpp:154-180 | a strictly sorted set of exactly the same distinct valid parameters |
| AuthorizationSets.AuthorizationSet.Find | keymaster/authorization_set.cpp:229-240 | the first entry with the tag behind the given position, or -1 if there is none or the set is invalid; past the end the index after the given one |
| AuthorizationSets.AuthorizationSet.Erase | keymaster/authorization_set.cpp:242-250 | removes the entry at an index and keeps the order; other indices are refused |
| AuthorizationSets.AuthorizationSet.Union | keymaster/authorization_set.cpp:182-188 | a parameter is in the result exactly if it was valid and in one of the two, also for sets that were just deserialized; an invalid set gains nothing |
| AuthorizationSets.AuthorizationSet.FindEqual | keymaster/authorization_set.cpp:196-204 | the search finds the parameter wherever it stands, and gives up only if it is not there |
| AuthorizationSets.AuthorizationSet.EraseParam | keymaster/authorization_set.cpp:196-204 | for a valid or invalid set the search loop ends, and it removes exactly the one parameter |
| AuthorizationSets.AuthorizationSet.Difference | keymaster/authorization_set.cpp:190-206 | a parameter is in the result exactly if it was valid, in the set and not in the argument; an empty argument changes nothing, and from an invalid set nothing is taken |
| AuthorizationSets.AuthorizationSet.SizeOf | keymaster/authorization_set.cpp:412-426 | the size is the length of the serialized form |
| AuthorizationSets.AuthorizationSet.Serialize | keymaster/authorization_set.cpp:428-436 | with room it writes exactly the serialized form, and never outside its range |
| AuthorizationSets.AuthorizationSet.Deserialize | keymaster/authorization_set.cpp:485-497 | accepts exactly what can be decoded and then holds it; otherwise the set is invalid and empty |
| AuthTheorems.BuiltSets | keymaster/authorization_set.cpp:123-152 | every set built by any run of push_back, Reinitialize and Sort is well formed and its area holds its blobs and nothing else |
| AuthTheorems.BuiltRoundTrip | keymaster/authorization_set.cpp:428-497 | such a set is read back if and only if it has no unreadable tag and fits into 32 bits, with the same parameters and bytes |
| BlobFormats.VersionedRoundTrip | keymaster/auth_encrypted_key_blob.cpp:29-55 | a blob of the current layout gives its fields back, whatever the buffers held before |
| BlobFormats.UnversionedRoundTrip | keymaster/auth_encrypted_key_blob.cpp:57-135 | a blob of the old layout gives its fields back if and only if its nonce is not mistaken for a version byte and a string |
| BlobFormats.MistakenRefused | keymaster/auth_encrypted_key_blob.cpp:96-131 | a mistaken nonce leaves a nonce that is too long, unless the whole blob parses as versioned |
| BlobFormats.MistakenBlob | keymaster/auth_encrypted_key_blob.cpp:96-131 | a well-formed blob of the old layout that is not recovered |
| BlobFormats.ParsedSound | keymaster/auth_encrypted_key_blob.cpp:82-135 | whatever is read from a blob could have been written into one |
| BlobLaws.VersionedLayout | keymaster/auth_encrypted_key_blob.cpp:29-55 | where everything stands in a blob of the current layout |
| BlobLaws.UnversionedLayout | keymaster/auth_encrypted_key_blob.cpp:57-80 | where everything stands in a blob of the old layout |
| BlobLaws.VersionedMeans | keymaster/auth_encrypted_key_blob.cpp:96-131 | whatever the current parser accepts has version zero and everything in those places |
| BlobLaws.UnversionedMeans | keymaster/auth_encrypted_key_blob.cpp:57-80 | the same for the old parser |
| KeyWrapping.BuildDerivationData | keymaster/ocb_utils.cpp:48-66 | the buffer holds the serialized hidden, hardware and software sets, in that order, and nothing else |
| KeyWrapping.WrappingContext | keymaster/ocb_utils.cpp:68-116 | a ready context for the cipher whose key is the enciphered first half of the hash of those bytes |
| BlobLaws.DerivationInjective | keymaster/ocb_utils.cpp:48-66 | different hidden, hardware or software sets give different derivation data |
| BlobLaws.DerivationOrder | keymaster/ocb_utils.cpp:61-63 | the hidden set comes first, then the hardware set, then the software set |
| BlobLaws.DerivedKeyMeans | keymaster/ocb_utils.cpp:68-116 | deciphering the derived key gives the first half of the hash, so keys agree if and only if those halves do |
| KeyWrapping.OcbEncryptKey | keymaster/ocb_utils.cpp:118-152 | OCB-ENCRYPT of the key under the derived cipher; a nonce of another length is refused |
| KeyWrapping.OcbDecryptKey | keymaster/ocb_utils.cpp:154-192 | the plaintext exactly when OCB-DECRYPT accepts, else an invalid blob and no bytes |
| KeyWrapping.DeserializeUnversionedBlob | keymaster/auth_encrypted_key_blob.cpp:57-80 | the old layout; nonce and tag are appended to what the buffers hold |
| KeyWrapping.DeserializeAuthEncryptedBlob | keymaster/auth_encrypted_key_blob.cpp:82-135 | the versioned attempt and the fallback, with what the attempt leaves in the buffers |
| OcbBlobs.SerializeAuthEncryptedBlob | keymaster/auth_encrypted_key_blob.cpp:29-55 | the buffer is exactly the versioned blob and is filled completely |
| OcbBlobs.ParseOcbAuthEncryptedBlob | keymaster/soft_keymaster_context.cpp:526-543 | the decrypted key and both sets, or an invalid blob |
| OcbBlobs.WrapParse | keymaster/soft_keymaster_context.cpp:526-543 | a wrapped key is recovered from its blob together with both sets |
| OcbBlobs.LegacyWrapParse | keymaster/soft_keymaster_context.cpp:526-543 | a key in the old layout is recovered if and only if its nonce is not mistaken for a version byte and a string |
| OcbBlobs.VersionedReadingDiffers | keymaster/auth_encrypted_key_blob.cpp:96-131 | an old blob that parses as versioned does not yield the key it was made from |
| OcbBlobs.WrapThenParse | keymaster/ocb_utils.cpp:118-192 | encrypting, serializing, parsing and decrypting end to end returns the key material and both sets |
| BlobLaws.OcbAcceptedIff | keymaster/soft_keymaster_context.cpp:526-543 | a blob gives up a key if and only if it holds the sealing of it under the cipher of its own sets and the hidden set |
| IntegrityBlobs.ComputeHmac | keymaster/integrity_assured_key_blob.cpp:52-78 | the first eight bytes of the HMAC over the data and the serialized hidden set |
| IntegrityBlobs.SerializeIntegrityAssuredBlob | keymaster/integrity_assured_key_blob.cpp:80-101 | the buffer is version, material, both sets and the HMAC over them, filled completely |
| IntegrityBlobs.DeserializeIntegrityAssuredBlob | keymaster/integrity_assured_key_blob.cpp:103-125 | the HMAC decides before anything is parsed; short, forged and malformed blobs are invalid |
| IntegrityBlobs.DeserializeBody | keymaster/integrity_assured_key_blob.cpp:127-147 | version byte, material and both sets, or an invalid blob |
| IntegrityBlobs.AssuredRoundTrip | keymaster/integrity_assured_key_blob.cpp:80-147 | a blob is read back with the same hidden set |
| IntegrityBlobs.AcceptedIsAssured | keymaster/integrity_assured_key_blob.cpp:103-125 | only blobs that end in their own HMAC under the hidden set are accepted |
| BlobLaws.MacInputInjective | keymaster/integrity_assured_key_blob.cpp:52-78 | what the HMAC covers determines key material, both sets and the hidden set |
| BlobLaws.AssuredLayout | keymaster/integrity_assured_key_blob.cpp:80-101 | where everything stands in an integrity-assured blob, with the first eight HMAC bytes last |
| BlobLaws.BodyMeans | keymaster/integrity_assured_key_blob.cpp:127-147 | whatever is accepted has version zero and everything in those places |
| SoftKeymaster.HiddenDenotes | keymaster/soft_keymaster_context.cpp:984-996 | the hidden set denotes the first application id and data given, and the root of trust, in that order |
| SoftKeymaster.BuildHiddenAuthorizations | keymaster/soft_keymaster_context.cpp:984-996 | builds that set; an invalid input counts as empty |
| SoftKeymaster.ParseKeyBlob | keymaster/soft_keymaster_context.cpp:617-686 | integrity-assured first, then OCB-encrypted, then the other kinds; each is tried only if the one before calls the blob invalid |
| UpgradeTheorems.ParseOrder | keymaster/soft_keymaster_context.cpp:659-686 | whose key and sets, or whose error, the result is |
| SoftKeymaster.UpgradeIntegerTag | keymaster/soft_keymaster_context.cpp:286-306 | a missing tag is appended, a lower value raised, a higher one refused |
| SoftKeymaster.UpgradeKeyBlob | keymaster/soft_keymaster_context.cpp:466-524 | failure, no change or the new blob, as the upgrade of the entries says |
| VersionTags.UpgradeTagOk | keymaster/soft_keymaster_context.cpp:286-306 | refused exactly for a higher value; otherwise the tag has the value, other tags keep theirs, and the flag says whether anything changed |
| VersionTags.UpgradeEntriesOk | keymaster/soft_keymaster_context.cpp:492-512 | both versions are brought up to date and every other entry is kept in order; refused exactly for a downgrade other than to version zero |
| UpgradeTheorems.CheckVersionInfo | keymaster/android_keymaster.cpp:47-64 | the patch level of the hardware set counts first; older needs an upgrade, newer is invalid |
| UpgradeTheorems.CheckMeans | keymaster/android_keymaster.cpp:47-64 | an upgrade is required if and only if the level that counts is lower, the blob invalid if and only if it is higher; that of hardware counts first |
| UpgradeTheorems.UpgradeRefuses | keymaster/soft_keymaster_context.cpp:488-516 | refused exactly for keymaster1 hardware keys and downgrades, always for a newer patch level; unchanged exactly when up to date |
| UpgradeTheorems.UpgradeKeepsKey | keymaster/soft_keymaster_context.cpp:466-524 | the new blob parses to the same material, hardware set and other entries, passes the version check, and a second upgrade changes nothing |
| UpgradeTheorems.SoftwareKeys | keymaster/soft_keymaster_context.cpp:659-670 | every software blob that parses, and is not within 16 bytes of 2^32, meets the conditions of that result |
| UpgradeTheorems.UpgradeKeepsSoftwareKey | keymaster/soft_keymaster_context.cpp:466-524 | for software blobs: refused with the one error for downgrades, unchanged when up to date, else a software blob with the same key that passes the version check and needs no second upgrade |
| UpgradeTheorems.SentToUpgrade | keymaster/soft_keymaster_context.cpp:466-524 | a key that the version check sends to be upgraded gets a new blob if and only if it is no keymaster1 hardware key and its OS version does not go back |
| UpgradeTheorems.CheckAfterUpgrade | keymaster/soft_keymaster_context.cpp:466-524 | after an upgrade the version check passes if and only if the hardware set has no patch level or the current one |
| UpgradeTheorems.HardwareKeyMeans | keymaster/soft_keymaster_context.cpp:483-490 | a keymaster1 hardware key has a purpose and no patch level in hardware |
| UpgradeTheorems.VersionsMean | keymaster/soft_keymaster_context.cpp:492-516 | downgrade and up to date in terms of both levels |
| AesGcm.AesGcmOperation.FillBufferedAadBlock | keymaster/aes_operation.cpp:439-445 | as much as fits moves to the block buffer and the rest is returned |
| AesGcm.AesGcmOperation.ProcessBufferedAadBlock | keymaster/aes_operation.cpp:415-424 | the buffered bytes go to the library and the buffer is empty, unless the library fails |
| AesGcm.AesGcmOperation.HandleAad | keymaster/aes_operation.cpp:377-413 | only whole blocks reach the library before the last piece, all before any text; associated data after text is refused |
| AesGcm.AesGcmOperation.ProcessTagBufContentsAsData | keymaster/aes_operation.cpp:612-621 | the first held bytes are decrypted and the others move to the front |
| AesGcm.AesGcmOperation.BufferCandidateTagData | keymaster/aes_operation.cpp:623-627 | the bytes are appended to the candidate tag |
| AesGcm.AesGcmOperation.ProcessAllButTagLengthBytes | keymaster/aes_operation.cpp:582-610 | the library has all input but the last tag-length bytes, which are held |
| AesGcm.AesGcmOperation.Update | keymaster/aes_operation.cpp:560-580 | either purpose: the stream grows by what was given and by the output of the call |
| AesGcm.AesGcmOperation.FinishEncrypt | keymaster/aes_operation.cpp:508-530 | the whole output is one-shot encryption of all input, with the tag |
| AesGcm.AesGcmOperation.FinishDecrypt | keymaster/aes_operation.cpp:629-645 | the outcome and the whole output are those of one-shot decryption |
| AesGcm.DecryptStream | keymaster/aes_operation.cpp:560-645 | for every chunking the result is that of one-shot decryption; refused exactly for associated data after text |
| AesGcm.EncryptStream | keymaster/aes_operation.cpp:193-239 | for every chunking the result is that of one-shot encryption |
| AesGcm.SealThenOpen | keymaster/aes_operation.cpp:377-645 | encrypting any stream, cutting its output and associated data anew in any way and decrypting that gives the text back |
| GcmSpec.OpenedIff | keymaster/aes_operation.cpp:629-645 | a stream is accepted if and only if it is long enough and ends in the authenticator, and then every byte is the deciphered one |
| GcmSpec.OnlyOneTag | keymaster/aes_operation.cpp:629-645 | behind a ciphertext only the tag of the sealing is accepted |
| EventFlags.StepKeepsWakeups | libfmq/EventFlag.cpp:106-188 | every atomic step keeps the invariant that a set bit someone sleeps on is about to be announced |
| EventFlags.NothingLost | libfmq/EventFlag.cpp:106-188 | in every state of every interleaving no sleeper misses a set bit, although wake skips the call when all bits were set |
| EventFlags.QuietMeansServed | libfmq/EventFlag.cpp:115-127 | when no wake call is outstanding no thread sleeps on a set bit |
| EventFlags.PendingWakes | libfmq/EventFlag.cpp:120-127 | the outstanding wake call wakes a thread that sleeps on a set bit |
| EventFlags.StepConserves | libfmq/EventFlag.cpp:144-186 | a step accounts for every change of a bit |
| EventFlags.BitsConserved | libfmq/EventFlag.cpp:106-188 | in every run the 0-to-1 changes of a bit are its reports to waiters and one more if it is still set |
| EventFlags.NeverStuck | libfmq/EventFlag.cpp:106-188 | every thread inside a call can take a step of its own |
| EventFlags.FoundAtOnce | libfmq/EventFlag.cpp:144-155 | a waiter whose bits are there takes exactly those and does not sleep |
| WaitTimes.WaitRetry | libfmq/EventFlag.cpp:195-228 | each call gets the original timeout minus the time elapsed, never zero for a timed wait; EAGAIN and EINTR are never returned |
| WaitTimes.AddNanosecondsToCurrentTime | libfmq/EventFlag.cpp:257-268 | the right instant always, for the given current time |
| WaitTimes.NormalAtAnyTime | libfmq/EventFlag.cpp:257-268 | the time is normal whatever the current time if and only if the timeout is not negative or is a whole number of seconds |
| WaitTimes.NegativeTimeout | libfmq/EventFlag.cpp:257-268 | a negative timeout and a current time for which the result is not normal |
| DeathNotices.BpHwBinder.LinkToDeath | libhwbinder/BpHwBinder.cpp:116-148 | the recipient is listed and the first one requests a notification; refused once obituaries were sent |
| DeathNotices.BpHwBinder.UnlinkToDeath | libhwbinder/BpHwBinder.cpp:150-183 | removes the first match by recipient, or by cookie if none is given, and the last one clears the notification |
| DeathNotices.BpHwBinder.SendObituary | libhwbinder/BpHwBinder.cpp:185-216 | takes the list, clears the notification and reports every entry once and in order; a second call does nothing |
| DeathRuns.AlwaysInv | libhwbinder/BpHwBinder.cpp:116-216 | in every interleaving links equal unlinks, listed and taken entries; reports are a prefix of what was taken; requests exceed clears by one exactly while the list exists |
| DeathRuns.AllReported | libhwbinder/BpHwBinder.cpp:206-215 | once no thread is sending, every taken entry has been reported exactly once and in order |
| DeathRuns.DeadStaysDead | libhwbinder/BpHwBinder.cpp:131-148 | after obituaries were sent nothing is linked, listed or taken any more |
| DeathRuns.OrderKept | libhwbinder/BpHwBinder.cpp:116-216 | unless someone unlinks, recipients are taken and reported in the order in which they linked |
| DeathRuns.LateSender | libhwbinder/BpHwBinder.cpp:190-191 | a sender that comes after the obituaries only marks the proxy dead |
| DeathNotices.LinkMeans | libhwbinder/BpHwBinder.cpp:116-148 | a link goes behind the others, and only the first asks the kernel |
| DeathNotices.UnlinkMeans | libhwbinder/BpHwBinder.cpp:150-183 | exactly the first entry with the flags and the recipient, or else the cookie, is removed |
| DeathNotices.UnlinkUndoesLink | libhwbinder/BpHwBinder.cpp:116-183 | unlinking a new recipient restores the list and the balance with the kernel |
| AccessTables.AccessTimeMap.LastKeyAccessTime | keymaster/keymaster_enforcement.cpp:517-524 | the time of the key's entry, if it has one |
| AccessTables.AccessTimeMap.ScanNodes | keymaster/keymaster_enforcement.cpp:526-541 | erasing expired nodes while iterating drops exactly the expired entries before the key's own, and the time of that one is renewed |
| AccessTables.AccessTimeMap.UpdateKeyAccessTime | keymaster/keymaster_enforcement.cpp:526-551 | the new entries of the linked table and the verdict |
| AccessTables.UpdateTimeOk | keymaster/keymaster_enforcement.cpp:526-551 | other keys lose their entry only when it has expired, the key gets the current time, ids stay unique and the limit holds |
| EnforcementLaws.ScanExact | keymaster/keymaster_enforcement.cpp:526-541 | exactly the expired entries in front of the key are dropped |
| EnforcementLaws.FullMeans | keymaster/keymaster_enforcement.cpp:543-551 | a key is turned away only by a table full of entries that have not expired |
| AccessTables.AccessCountMap.KeyAccessCount | keymaster/keymaster_enforcement.cpp:553-560 | the key's count in 32 bits, if it has one |
| AccessTables.AccessCountMap.IncrementKeyAccessCount | keymaster/keymaster_enforcement.cpp:562-583 | one more for a known key, an entry with one for a new key, refused when the table is full |
| AccessTables.IncrementOk | keymaster/keymaster_enforcement.cpp:562-583 | only the key's own count changes, ids stay unique and the limit holds |
| Enforcement.KeymasterEnforcement.MinTimeBetweenOpsPassed | keymaster/keymaster_enforcement.cpp:420-428 | true without an entry, else when the interval has passed |
| Enforcement.KeymasterEnforcement.MaxUsesPerBootNotExceeded | keymaster/keymaster_enforcement.cpp:430-438 | true without an entry, else when the count is below the limit |
| Enforcement.KeymasterEnforcement.CheckAll | keymaster/keymaster_enforcement.cpp:227-352 | the first objection of the authorizations in order, and what the loop collects |
| Enforcement.KeymasterEnforcement.AuthorizeBegin | keymaster/keymaster_enforcement.cpp:192-390 | the verdict and both tables; the time is recorded before the use is counted |
| EnforcementLaws.AuthorizedIff | keymaster/keymaster_enforcement.cpp:192-390 | authorized if and only if purpose, every authorization, token and nonce allow it and both tables take it |
| EnforcementLaws.AuthorizedMeans | keymaster/keymaster_enforcement.cpp:192-390 | what an authorized request has: valid dates, a token where one is needed, permission for its nonce, nothing forbidden |
| EnforcementLaws.RefusalMeans | keymaster/keymaster_enforcement.cpp:236-350 | which authorization gives which error, exactly when |
| EnforcementLaws.FirstObjection | keymaster/keymaster_enforcement.cpp:227-352 | the error is that of the first authorization that objects |
| EnforcementLaws.RefusalOrder | keymaster/keymaster_enforcement.cpp:216-390 | purpose, authorizations, token and nonce in that order; a refusal by them leaves the tables alone |
| EnforcementLaws.IntervalMeans | keymaster/keymaster_enforcement.cpp:252-256 | the last minimum interval of a key is the one that is recorded |
| EnforcementRuns.AlwaysTables | keymaster/keymaster_enforcement.cpp:526-583 | in every run both tables have unique ids, stay within their limits and record each key's own interval |
| EnforcementRuns.UsesAreSpaced | keymaster/keymaster_enforcement.cpp:252-256 | two authorized uses of a key are at least its interval apart, even if its entry was evicted in between |
| EnforcementRuns.UnlimitedInterval | keymaster/keymaster_enforcement.cpp:365-376 | an interval of UINT32_MAX is never recorded and limits nothing |
| EnforcementRuns.SpacedIff | keymaster/keymaster_enforcement.cpp:192-390 | in every run the uses of a usable key, which its use limit lets be used twice, are its interval apart if and only if the interval is not UINT32_MAX |
| EnforcementRuns.UseWithoutTrace | keymaster/keymaster_enforcement.cpp:365-376 | a use under an interval of UINT32_MAX that leaves both tables empty, so that it can be repeated at once |
| EnforcementRuns.UsesAreLimited | keymaster/keymaster_enforcement.cpp:258-262 | the table counts the authorized uses, and they do not exceed the limit or one |
| EnforcementRuns.WithinIff | keymaster/keymaster_enforcement.cpp:192-390 | in every run the uses of a usable key stay within its limit if and only if the limit is at least one |
| EnforcementRuns.UseAtLimitZero | keymaster/keymaster_enforcement.cpp:430-438 | a use that is authorized although the limit is zero |
| EnforcementRuns.ReadyIsAuthorized | keymaster/keymaster_enforcement.cpp:192-390 | a key that nothing forbids and that has no entry in the way is authorized |
| LinkedList.List.Begin | keymaster/List.h:193-198 | the first node, or the sentinel of an empty list |
| LinkedList.List.Insert | keymaster/List.h:211-219 | the value is inserted before the position and all links stay right |
| LinkedList.List.Erase | keymaster/List.h:228-235 | the node is removed, its successor returned and all links stay right |
| LinkedList.List.InsertRange | keymaster/List.h:222-225 | copies of a range of another list are inserted in order and that list is unchanged |
| LinkedList.List.EraseRange | keymaster/List.h:238-242 | exactly the range is removed |
| LinkedList.List.Clear | keymaster/List.h:245-256 | the list is empty and the sentinel linked to itself |
| LinkedList.List.Distance | keymaster/List.h:273-282 | the number of positions between two iterators |
| LinkedList.List.LinksInverse | keymaster/List.h:211-256 | next and prev undo each other at every node and at the sentinel |
| LinkedList.List.Assign | keymaster/List.h:313-328 | the target equals the source for every pair of lengths, the source is unchanged, and self-assignment does nothing |
| Gatekeeper.AtMostADay | gatekeeper/gatekeeper.cpp:265-282 | no timeout exceeds a day |
| Gatekeeper.TimeoutGrows | gatekeeper/gatekeeper.cpp:265-282 | from ten failures on the timeout is positive and never shrinks |
| Gatekeeper.TimeoutTable | gatekeeper/gatekeeper.cpp:265-282 | the timeouts in numbers: none, thirty seconds, doubled every ten failures, a day |
| Gatekeeper.HeldOff | gatekeeper/gatekeeper.cpp:287-295 | a request during a timeout is held off for exactly the rest of it, if and only if the end does not wrap around |
| Gatekeeper.ThrottleMeans | gatekeeper/gatekeeper.cpp:284-310 | exactly when a request passes, waits or restarts the timeout, and for how long it waits |
| Gatekeeper.AcceptedIff | gatekeeper/gatekeeper.cpp:124-166 | a password is accepted if and only if it matches, no timeout holds it off and its failure was written first |
| Gatekeeper.ServedMeans | gatekeeper/gatekeeper.cpp:124-166 | record and reply for every case of a throttled request |
| Gatekeeper.StoresMean | gatekeeper/gatekeeper.cpp:81-86 | the two stores are apart, and the plain record is cleared only if the secure one cannot be |
| Gatekeeper.WrappedTimeout | gatekeeper/gatekeeper.cpp:287-295 | a request one millisecond into a timeout that wraps around, which passes |
| Gatekeeper.GateKeeper.ThrottleRequest | gatekeeper/gatekeeper.cpp:284-310 | pass, wait or restart, and what is written to the store |
| Gatekeeper.GateKeeper.IncrementFailureRecord | gatekeeper/gatekeeper.cpp:312-319 | one failure more, in 32 bits, at the current time, if it can be written |
| Gatekeeper.GateKeeper.Verify | gatekeeper/gatekeeper.cpp:104-167 | in the store that the handle names, the failure is charged before the password is checked and cleared by a match; a match, and nothing else, yields a token for the user, challenge and time; old handle versions are not throttled and ask for re-enrollment |
| Gatekeeper.GateKeeper.Enroll | gatekeeper/gatekeeper.cpp:25-102 | an old password is charged in its own store and checked in the same way; the secure record is cleared, or else the plain one, and on success the new handle names the store that was cleared |
| GatekeeperRuns.AttemptsAreCounted | gatekeeper/gatekeeper.cpp:124-166 | in every run of failing requests, under any clock, the counter is the number of passwords checked modulo 2^32 |
| GatekeeperRuns.LastIsOnRecord | gatekeeper/gatekeeper.cpp:312-319 | while the clock runs forward the record holds the time of the last check |
| GatekeeperRuns.RestartHolds | gatekeeper/gatekeeper.cpp:296-306 | after a clock reset the next check has the same counter and comes no earlier than the whole timeout after the reset |
| GatekeeperRuns.AttemptsAreThrottled | gatekeeper/gatekeeper.cpp:265-319 | the last of n checks comes at least the sum of the first n-1 timeouts after the first |
| GatekeeperRuns.TotalInNumbers | gatekeeper/gatekeeper.cpp:265-282 | the timeouts of 140 attempts sum up to 614730000 milliseconds, and each further attempt adds a day |
| GatekeeperRuns.GuessingIsSlow | gatekeeper/gatekeeper.cpp:265-319 | checking 140 wrong passwords takes more than seven days, and each further one another day |
| GatekeeperRuns.CounterIsAttempts | gatekeeper/gatekeeper.cpp:312-319 | with fewer than 2^32 requests the counter is exactly the number of attempts |
| Registry.AddOk | hwservicemanager/ServiceManager.cpp:187-245 | an add registers the service under its whole interface chain and nothing else, or changes nothing |
| Registry.AdmittedMeans | hwservicemanager/ServiceManager.cpp:187-213 | a service is admitted if and only if it has a chain and every interface of it may be added |
| Registry.AddEntries | hwservicemanager/ServiceManager.cpp:214-229 | the entries of the chain carry the service and the adding process; all others are as before |
| Registry.RemoveOk | hwservicemanager/ServiceManager.cpp:467-483 | a dead service disappears from every pair of names and only it |
| Registry.RemoveEntries | hwservicemanager/ServiceManager.cpp:467-483 | the entries of a removed service stay, without service and process |
| Registry.DieOk | hwservicemanager/ServiceManager.cpp:51-63 | the same for a reported death, which also ends the links of the service |
| Registry.AwaitOk | hwservicemanager/ServiceManager.cpp:353-359 | an entry for someone who waits registers nothing |
| Registry.AwaitEntries | hwservicemanager/ServiceManager.cpp:353-359 | someone who waits leaves an empty entry unless there is one |
| RegistryRuns.RefinesHistory | hwservicemanager/ServiceManager.cpp:165-245 | a pair of names has the service of the latest successful add that covers it, unless its death was reported since |
| RegistryRuns.AlwaysNames | hwservicemanager/ServiceManager.cpp:91-94 | every entry is stored under its own interface and instance name |
| RegistryRuns.WatchedAfterAdd | hwservicemanager/ServiceManager.cpp:223-235 | after an add every registered service is linked to death if and only if the added one is linked or keeps a link, and every service left registered elsewhere has more links than the replaced entries cost it; linking and unlinking may fail |
| RegistryRuns.WatchedHistory | hwservicemanager/ServiceManager.cpp:187-245 | over every history of adds, deaths and waiting clients, no registered service is ever without a death link if and only if every add meets that condition |
| RegistryRuns.NothingUnlinked | hwservicemanager/ServiceManager.cpp:223-226 | if every unlink fails no link is lost |
| RegistryRuns.UnlinkedService | hwservicemanager/ServiceManager.cpp:233-234 | a service whose linking fails is registered and has no death link |
| RegistryRuns.OrphanedService | hwservicemanager/ServiceManager.cpp:223-235 | a service of version 1.1 and then one of version 1.0, after which the first is registered and has no death link |
| ServiceManagers.ServiceManager.Get | hwservicemanager/ServiceManager.cpp:165-185 | the registered service, or none without access |
| ServiceManagers.ServiceManager.Add | hwservicemanager/ServiceManager.cpp:187-245 | access to the whole chain is checked before anything is changed; a failing unlink or link is ignored |
| ServiceManagers.ServiceManager.RemoveService | hwservicemanager/ServiceManager.cpp:467-483 | both loops take the service out of every entry and say whether there was one |
| ServiceManagers.ServiceManager.ServiceDied | hwservicemanager/ServiceManager.cpp:51-63 | only the cookie of services removes a service, whose links are gone |
| ServiceManagers.ServiceManager.ListByInterface | hwservicemanager/ServiceManager.cpp:287-324 | exactly the names with a service, each once; nothing without access |
| ServiceManagers.ServiceManager.List | hwservicemanager/ServiceManager.cpp:267-285 | exactly the full names of the entries with a service, one per entry; nothing without access |

## Left out

- AES, SHA-256, HMAC, the GCM library, random numbers and clocks: foreign code and inputs; parameters of the model.
- SSE, AltiVec, NEON, ARM assembly and AES-NI branches of `keymaster/ocb.c`: alternative builds of the same functions.
- Texts and associated data of 2^16 blocks or more, and associated data in a message that asked to reuse that of the last one: outside what the configured build of `keymaster/ocb.c` supports.
- Allocation failures: allocation is taken to succeed.
- Pushing a blob parameter onto a set that was just deserialized: its recorded capacity is zero, so `AuthorizationSets.AuthorizationSet.PushBack` requires a capacity of at least the size for blobs.
- Serializing sets after a blob element was erased: the orphaned bytes make the parser refuse the result, which `AuthData.RoundTrip` states as part of its condition.
- AuthorizationSets.AuthorizationSet.Sort: the library's sorting algorithm is not modelled; any sorted permutation is shown to be the same sequence.
- Parsers for old software, keymaster0 and keymaster1 blobs: an arbitrary function of the blob in `SoftKeymaster.ParseKeyBlob`.
- SoftKeymaster.ParseKeyBlob: a blob that is tried as OCB-encrypted has less than 2^20 bytes of encrypted material, which is what the OCB code supports.
- SoftKeymaster.UpgradeKeyBlob: the same limit on the material of OCB-encrypted blobs.
- ECB, CBC and CTR modes, padding and IV handling of `keymaster/aes_operation.cpp`: plumbing around the library.
- AesGcm.AesGcmOperation.Update: the output buffer's reallocation is not part of it; the bytes each call appends are its result.
- Failing futex calls other than EAGAIN, timeouts and interruptions, and the mapping of the event flag word: system calls.
- EventFlags.NothingLost: a wake call is taken to succeed once it is made; on values, since threads interleave between the statements of wake and waitHelper.
- WaitTimes.WaitRetry: 64-bit overflow of a negative timeout near the minimum is not modelled.
- Reference counting of proxies and the destructor of BpHwBinder: lifetime, not protocol.
- Enforcement.KeymasterEnforcement.AuthorizeBegin: whether the purpose is authorized, whether each date lies on the right side of the wall clock and whether a token matches each secure user id are inputs, because they depend on the caller, the clock and the token's signature and not on the tables.
- AuthorizeUpdateOrFinish and the shortcut for public-key operations in `keymaster/keymaster_enforcement.cpp`: they neither read nor write the access tables.
- Gatekeeper.GateKeeper.Enroll: the handle is the user and which store it names; its salt and signature are not modelled, and whether it can be made is an input.
- Gatekeeper.GateKeeper.Verify: a token is what it vouches for; its signature is not modelled.
- The store behind gatekeeper's failure record: the store returns what was last written, and a failing read or write is an input.
- RegistryRuns.WatchedAfterAdd: whether linking to death and each unlinking succeed is an input of the add, because libhwbinder decides it.
- ServiceManagers.ServiceManager.ServiceDied: the cookies of listeners, whose death removes listeners and no services, do nothing here.
- Listeners, passthrough clients, package notifications, transport lookup and the debug dump of hwservicemanager: they do not affect which services are registered.
- TokenManager and OperationTable, which hand out and look up handles; the KDF classes, which loop over a hash; message serializers, which write one field after the other; attestation records, which build ASN.1; loggers and text output.
