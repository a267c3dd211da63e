# A verified model of zucrypt

zucrypt is a C adapter over a PSA cryptography backend, with R glue around it and a small DER codec in R. This project models the adapter's own logic in Dafny and proves what it promises. The backend's mathematics is a parameter: a hash, a block cipher and an AEAD are passed in as functions with stated hypotheses (`Hmac.IsHash`, `Cbc.IsBlockCipher`, `Aead.IsAead`), and every backend step but the destruction of a key, every allocation and every R call may fail. What fails, and what a failing step leaves behind, is an argument or a free choice of the model, so every statement covers all of it.

`dafny verify dfyconfig.toml` checks the whole project.

| file | models |
|---|---|
| `Bytes.dfy`, `BitXor.dfy`, `Options.dfy`, `Statuses.dfy`, `Psa.dfy` | byte strings and their values, status codes, how backend answers are reported |
| `X690.dfy` | a strict DER reader written from X.690 alone, the reference for both codecs |
| `DerIntegers.dfy`, `Ecdsa.dfy` | the R codec: SEQUENCEs of INTEGERs, ECDSA signatures |
| `KeyEncoding.dfy`, `KeyWriter.dfy` | SEC1 and PKCS#8: what is encoded, and the write passes that fill the buffers |
| `Buffers.dfy`, `Cbc.dfy`, `Aes.dfy`, `CbcLoops.dfy` | one memory with overlapping buffers, CBC, the AES handle, the loops that drive it |
| `Digest.dfy`, `Hmac.dfy`, `Derive.dfy` | the hash and HMAC handles, the stored HMAC key, the iterated derivation |
| `Aead.dfy` | authenticated encryption in memory |
| `Lifetimes.dfy`, `Library.dfy`, `LibraryRuns.dfy`, `PkeyOps.dfy` | reference count, key store, live counter, and what failing key operations leave behind |
| `RHeap.dfy`, `Glue.dfy`, `Streams.dfy` | R objects, garbage collection and longjmp, the entry points that own native contexts, and what a stream returns over a session |

## Main results

- An ECDSA signature is accepted exactly when it is the DER of two integers that fit the width, although the reader beneath ignores the outer tag and length and reads zeros past the end (`Ecdsa.RawIffDer`).
- SEC1 and PKCS#8 fill exactly the buffers sized for them and decode back to the key exactly while the body fits two length octets; PKCS#8 is then injective across the three kinds of key, and past it only two keys on one curve can collide (`KeyWriter.EcSec1`, `KeyEncoding.Sec1Iff`, `KeyEncoding.Pkcs8Iff`, `KeyEncoding.Pkcs8Equal`, `KeyEncoding.Pkcs8Collides`).
- However a message is cut into calls, in place or not, and whatever fails in between, a CBC handle computes one pass, and any other cut decrypts it (`Aes.HandleIsOnePass`, `Aes.AnyPartitionInverts`).
- Over every sequence of calls, finish on a hash or HMAC handle succeeds exactly when nothing went wrong since the last reset, and then returns the function of all the data since (`Digest.FinishIff`).
- Driven through any operations with any failures, the adapter returns the statuses and ends in the state of a run computed from the operations alone, and key store, live counter and handles agree at every point of it, exactly if it never shuts down for the last time under a handle that owns a key (`LibraryRuns.Drive`, `Lifetimes.AgreesThroughoutIff`).
- For every choice of which R calls longjmp, each entry point is left by a longjmp exactly when one of its own R calls jumps and otherwise returns the digest, the MAC or the CBC pass; every other R variable is the same object holding the same context in the same state; every native context has exactly one owner with a finalizer; and at the end of a session every context ever made has been freed exactly once, with no key in the store and the live counter at zero (`Glue.RunSession`, `Glue.LiveAsBefore`).
- Over every session, whatever else it does and wherever R jumps, finish on a stream that R kept returns the digest or MAC of exactly the data fed to that stream, in order, and exactly when it succeeds is known (`Streams.StreamGives`).
- Encryption leaves ciphertext and tag, decryption accepts exactly the genuine messages, and the two undo each other, for all algorithms, keys and memories, exactly when the tag shares no byte with the outputs (`Aead.SealedIff`, `Aead.TagCheckedIff`, `Aead.RoundTripIff`).
- What an accepted write of a private key leaves in the caller's buffer reads back as that key, for every RSA key and every key of the curves' sizes (`PkeyOps.WrittenKeyReads`).
- Every function that a contract names is fixed by a statement of its own: which status means what (the `...Exactly` lemmas), the bytes of each encoding (`KeyEncoding.Sec1Shape`, `KeyEncoding.Pkcs8Shape`, `PkeyOps.EncodedExactly`), each block of CBC and each bit of exclusive or (`Cbc.EncryptBlock`, `BitXor.XorByBit`), the pads of HMAC (`Hmac.PadsExactly`), and the recursion of the derivation (`Derive.SpinIsRecursion`).

## Where the code does less than one might read into it

- `crypt_ecdsa_parse` accepts several encodings of one pair (`Ecdsa.ParseIsLax`), exactly those `Ecdsa.ParseIff` describes; re-encoding its result tells exactly when its input was DER (`Ecdsa.ParseStrictWhen`). `ecdsa_raw` does that check.
- The EC and X25519 encoders have no length bound of their own: past 0xFFFF the length octets lose their high bits, the result decodes to nothing (`KeyEncoding.Sec1Iff`), and two different keys can have the same one (`KeyEncoding.Pkcs8Collides`). Every key the curves allow is far below it (`KeyEncoding.LengthsInRange`).
- An update refused for a NULL pointer leaves a hash handle usable, so a later finish succeeds without it (`Digest.NullUpdateIsForgotten`); only an update the backend refused makes the handle fail (`Digest.FinishIff`).
- AEAD decryption checks the overlap of input and output but not of tag and output, and reads the tag after the plaintext is there (`Aead.VerifiedByByte`). In every placement where they share a byte some genuine message is refused and some forged one accepted (`Aead.SharedTagFails`, `Aead.GenuineRefused`); in every other placement neither happens (`Aead.TagCheckedIff`).
- AEAD encryption does not check it either, and writes the tag last: where they share a byte the tag overwrites ciphertext, and the message cannot be opened again (`Aead.SealedByByte`, `Aead.SharedTagSpoils`, `Aead.CiphertextLost`).
- `zl_segments` casts its segment size to `size_t` before it checks it, so a negative multiple of 16, the missing integer among them, means a single segment (`CbcLoops.NegativeSegment`).

## Model

| member | source | states |
|---|---|---|
| `Bytes.StripSplits` | R/pkey.R:325 | the cumulative-sum subset drops leading zeros, all of them, and nothing else |
| `BitXor.XorByBit` | src/zuc_aes.c:154-193 | each bit of each byte is set exactly when it differs in the two strings |
| `X690.UniversalTags` | src/zuc_pkey.c:663-687 | the tags that are written are the universal numbers of INTEGER, BIT STRING, OCTET STRING and SEQUENCE |
| `X690.LengthExactly` | src/zuc_pkey.c:515-531 | which octets a strict reader takes for which length |
| `DerIntegers.DerLength` | R/pkey.R:312-322 | the digit loop ends and returns the length octets for every n |
| `DerIntegers.LengthRoundTrip` | R/pkey.R:312-322 | a strict reader reads every written length back, with the octets it used |
| `DerIntegers.LengthIsUnique` | R/pkey.R:312-322 | whatever a strict reader accepts as the length n is what `der_length(n)` writes |
| `DerIntegers.LengthsOutOfReach` | R/pkey.R:312-322 | R's longest vector, and what would be written past the octet that counts digits |
| `DerIntegers.ContentIsDer` | R/pkey.R:324-329 | the contents octets are the shortest two's complement form of the unsigned value |
| `DerIntegers.ContentIsUnique` | R/pkey.R:324-329 | any contents octets of that value in the shortest form are the ones written |
| `DerIntegers.DerIntegerByValue` | R/pkey.R:324-329 | two integers are written alike exactly when they have the same value |
| `DerIntegers.DerIntegers` | R/pkey.R:337-357 | the reading loop ends on every input, errors included, and computes the reader's recursion |
| `DerIntegers.SequenceRoundTrip` | R/pkey.R:331-357 | reading any written SEQUENCE back gives the same integers without leading zeros |
| `Ecdsa.FixedWidthKeepsValue` | R/ec.R:122-134 | the result is the only string of n bytes with that value; refused exactly from 256^n on |
| `Ecdsa.ParseWritten` | R/ec.R:264-286 | parsing what was written returns the two integers, normalised |
| `Ecdsa.ParseStrictWhen` | R/ec.R:264-277 | re-encoding what was parsed gives the input back exactly when the input is DER of some pair |
| `Ecdsa.ParseIsLax` | R/ec.R:264-277 | two different inputs parse to the same pair |
| `Ecdsa.ParseIff` | R/ec.R:264-277 | it returns a pair exactly for a SEQUENCE tag, any length octets and two INTEGER elements of that pair, trailing zeros cut off or not |
| `Ecdsa.KnownSignatures` | R/ec.R:281-306 | two signatures byte by byte, r before s |
| `Ecdsa.WriteIffDer` | R/ec.R:281-286 | the written signature is the one strict DER encoding of its two integers |
| `Ecdsa.RawIffWritten` | R/ec.R:291-306 | `ecdsa_raw` returns a value exactly for what `ecdsa_der` writes for that value |
| `Ecdsa.RawIffDer` | R/ec.R:288-301 | it accepts exactly the strict DER of two integers below 256^n and returns them side by side |
| `Ecdsa.RawUndoesDer` | R/ec.R:291-306 | for every r, s of n bytes each, converting to DER and back is the identity |
| `Ecdsa.RawWidthZero` | R/ec.R:291-301 | a width of 0 accepts nothing |
| `KeyEncoding.OidsNameTheKeys` | src/zuc_pkey.c:639-649 | the OID constants are the base-128 encodings of the arcs RFC 5480, RFC 8410 and RFC 8017 assign |
| `KeyEncoding.TlvIff` | src/zuc_pkey.c:619-637 | an element is read back exactly when its content is at most 0xFFFF bytes, and otherwise not at all |
| `KeyEncoding.OctetsSpell` | src/zuc_pkey.c:516-531 | the length octets spell the low 16 bits of the length |
| `KeyEncoding.Sec1Shape` | src/zuc_pkey.c:660-687 | SEC1 byte by byte: version, scalar, curve in [0], and the point in a BIT STRING in [1] |
| `KeyEncoding.AlgorithmShape` | src/zuc_pkey.c:639-658 | each kind of key and each curve has its own identifier |
| `KeyEncoding.Pkcs8Shape` | src/zuc_pkey.c:536-780 | PKCS#8 byte by byte for the three kinds of key |
| `KeyEncoding.Sec1Iff` | src/zuc_pkey.c:660-687 | SEC1 decodes to scalar, optional curve and point exactly while its body fits, and otherwise to nothing |
| `KeyEncoding.Pkcs8Iff` | src/zuc_pkey.c:691-780 | PKCS#8 of an RSA, NIST or X25519 key decodes to the key exactly while its body fits |
| `KeyEncoding.Pkcs8Injective` | src/zuc_pkey.c:536-779 | no two keys, of the same or different kinds, have the same encoding |
| `KeyEncoding.Pkcs8Equal` | src/zuc_pkey.c:516-779 | for keys of any size, equal encodings mean equal keys, or two keys on one curve with equal SEC1 forms |
| `KeyEncoding.Pkcs8Collides` | src/zuc_pkey.c:516-531 | two such keys, for every curve |
| `KeyEncoding.LengthsInRange` | src/zuc_pkey.c:548-552 | the RSA wrapper's bound, and the curve sizes, keep every length in range |
| `KeyWriter.PutLength` | src/zuc_pkey.c:516-531 | the length octets, truncation included, and no other byte, are written |
| `KeyWriter.PutHead` | src/zuc_pkey.c:626-630 | tag and length are written at the index, which advances by as much |
| `KeyWriter.PutTlv` | src/zuc_pkey.c:632-637 | the element is written and the size counted is its size |
| `KeyWriter.EcSec1` | src/zuc_pkey.c:663-687 | for every length the size pass equals what the write pass emits, and nothing else changes |
| `KeyWriter.Pkcs8Wrap` | src/zuc_pkey.c:536-573 | over the bound it is an internal error; otherwise the exact buffer holds the RSA PKCS#8 form |
| `KeyWriter.EcEncode` | src/zuc_pkey.c:691-780 | the status for every format, failure and key kind; on success the exact buffer holds SEC1 or PKCS#8 |
| `Buffers.OverlapsIffPartial` | src/zuc_util.c:39-67 | refused exactly when the buffers share a byte without being the same buffer |
| `Buffers.ReadableIff` | src/zuc_util.c:39-67 | a buffer is readable exactly when each of its bytes is in memory |
| `Buffers.SecureZero` | src/zuc_util.c:29-37 | the buffer is all zeros and nothing else changes; NULL is left alone |
| `Cbc.EncryptAppend` | src/zuc_aes.c:9-13 | encrypting two pieces, the second from the last ciphertext block of the first, is encrypting both |
| `Cbc.DecryptAppend` | src/zuc_aes.c:9-13 | the same for decryption |
| `Cbc.EncryptBlock` | src/zuc_aes.c:154-193 | section 6.2 of SP 800-38A: each ciphertext block from its plaintext block and the ciphertext block before it |
| `Cbc.DecryptBlock` | src/zuc_aes.c:154-193 | the same for decryption |
| `Cbc.DecryptEncrypt` | src/zuc_aes.c:195-234 | decryption undoes encryption from the same chaining value |
| `Aes.ArgsAccepted` | src/zuc_aes.c:126-152 | exactly which calls reach the backend: whole blocks, disjoint or exactly in place |
| `Aes.BlockArgsExactly` | src/zuc_aes.c:126-152 | which call is refused with which status, an overlap being buffers that differ and share a byte |
| `Aes.PossibleExactly` | src/zuc_aes.c:154-193 | what a pass of the backend may do, a wrong byte count among it |
| `Aes.EncryptPass` | src/zuc_aes.c:154-193 | the block loop leaves CBC of the input in the output, in place or apart, and nothing else changes |
| `Aes.DecryptPass` | src/zuc_aes.c:154-193 | the same for decryption, whose input it may overwrite |
| `Aes.CipherRun` | src/zuc_aes.c:154-193 | OK exactly when every step and the byte count are right; otherwise the failing step's status, or an internal error for the count, and what the output holds |
| `Aes.Handle.constructor` | src/zuc_aes.c:79-92 | a new handle has the key and a zero chaining value |
| `Aes.Handle.SetState` | src/zuc_aes.c:108-115 | the chaining value is replaced, or kept when the argument is NULL |
| `Aes.Handle.CbcEncrypt` | src/zuc_aes.c:195-211 | refused calls change nothing, failed passes keep the chain, completed ones encrypt and chain on the last block |
| `Aes.Handle.CbcDecrypt` | src/zuc_aes.c:213-234 | the same for decryption, chaining on the last ciphertext block even when it was overwritten |
| `Aes.OneCall` | src/zuc_aes.c:126-152 | any call either leaves the chain alone or ran one pass over the input as it was before; no byte outside the output changes, and none at all when it was refused |
| `Aes.HandleIsOnePass` | src/zuc_aes.c:9-18 | over every run of calls the outputs together are one pass over the inputs together |
| `Aes.HandleChains` | src/zuc_aes.c:207-233 | after every run the chain is the last ciphertext block, in both directions |
| `Aes.AnyPartitionInverts` | src/zuc_aes.c:9-18 | decrypting a run's output under any other cut returns what was encrypted |
| `CbcLoops.Piece` | tools/zucryptlink/src/link.c:385-388 | one piece: its exact status, and on success the output is extended by a pass from the handle's chaining value |
| `CbcLoops.LoopStatusIff` | src/zucrypt_crypt.c:380-393 | a loop over pieces succeeds exactly when there is nothing to do, or all is whole blocks and every pass completes |
| `CbcLoops.LoopStatusFirst` | src/zucrypt_crypt.c:380-393 | a loop ends with the status of its first piece to fail |
| `CbcLoops.ChunkIsOneMebibyte` | src/zucrypt_crypt.c:42 | the chunk is 1024 times 1024 bytes, whole blocks |
| `CbcLoops.ChainedStep` | src/zucrypt_crypt.c:380-393 | one more chunk from the handle's chaining value extends one pass over the whole |
| `CbcLoops.Segments` | tools/zucryptlink/src/link.c:356-397 | which sizes are refused; otherwise the exact status, success exactly when every segment succeeds, and independent passes from the same IV |
| `CbcLoops.SizeTExactly` | tools/zucryptlink/src/link.c:358 | what the cast to size_t makes of the segment size |
| `CbcLoops.SegmentAt` | tools/zucryptlink/src/link.c:378-389 | each segment of the result is a pass of its own from the same IV over that segment |
| `CbcLoops.SegmentedInverts` | tools/zucryptlink/src/link.c:354-397 | segmented decryption with the same size undoes segmented encryption |
| `CbcLoops.NegativeSegment` | tools/zucryptlink/src/link.c:358-374 | a negative multiple of the block size is accepted and means a single pass |
| `Digest.Handle.DoUpdate` | src/zuc_hash.c:123-137 | the handle's new state and the status, from its old state and the backend's answer |
| `Digest.Handle.DoFinish` | src/zuc_hash.c:139-159 | the same for finish, with the digest |
| `Digest.Handle.DoReset` | src/zuc_hash.c:161-180 | the same for reset |
| `Digest.StateOfRun` | src/zuc_hash.c:123-180 | the state after any calls follows from their history alone |
| `Digest.FinishIff` | src/zuc_hash.c:139-159 | finish is OK exactly when nothing went wrong since the last reset, and returns the function of the data since |
| `Digest.RepliesExactly` | src/zuc_hash.c:123-180 | which status every call returns in every state, and what it does to the handle |
| `Digest.ResetIsFresh` | src/zuc_hash.c:161-180 | whatever came before a reset, what follows is as on a new handle |
| `Digest.ShortFinishChangesNothing` | src/zuc_hash.c:144-152 | a finish refused for its buffer leaves the handle as it was |
| `Digest.NullUpdateIsForgotten` | src/zuc_hash.c:123-137 | an update refused for a NULL pointer does not make finish fail |
| `Digest.AnySplit` | src/zuc_hash.c:3-7 | every split of a message, on a new or a reset handle, gives the one-shot result |
| `Hmac.ImportHmacKey` | src/zuc_hash.c:212-250 | which step's failure is reported, and the key that is stored: hashed when over-long, a zero byte when empty, else as it is |
| `Hmac.PadsExactly` | src/zuc_hash.c:252-282 | section 2 of RFC 2104 byte by byte, with 0x36 inside and 0x5c outside |
| `Hmac.StoredKeyImports` | src/zuc_hash.c:204-211 | the stored key is never empty and never over the backend's cap |
| `Hmac.StoredKeyMacs` | src/zuc_hash.c:204-248 | for every key length the MAC under the stored key is RFC 2104's HMAC under the caller's key |
| `Hmac.HmacCompute` | src/zuc_hash.c:252-282 | which failure is reported; on success the result is RFC 2104's HMAC |
| `Hmac.MacsAgree` | src/zuc_hash.c:284-388 | incremental in any split, and after a reset, gives the same MAC |
| `Derive.CounterIsInt32Le` | tools/zucryptlink/src/link.c:330-335 | the four counter bytes are the little-endian 32-bit form |
| `Derive.Turn` | tools/zucryptlink/src/link.c:336-339 | one turn on the reused handle and buffer hashes the counter and the first `size` bytes, and leaves the digest there |
| `Derive.SpinIsRecursion` | tools/zucryptlink/src/link.c:304-340 | any sequence that begins with H(seed) and goes on with H of the little-endian counter, from 0, and the last value is the derivation |
| `Derive.SpinOkIff` | tools/zucryptlink/src/link.c:325-340 | it succeeds exactly when every call of every turn does |
| `Derive.ZlDerive` | tools/zucryptlink/src/link.c:308-352 | for every seed and count the result is the recursion, or the status of the first step to fail; negative counts are refused; the digest buffer is wiped |
| `Aead.AeadRun` | src/zuc_aead.c:95-153 | what a pass leaves in output and tag, and that decryption compares the tag last |
| `Aead.AeadArgsExactly` | src/zuc_aead.c:42-77 | which arguments are refused with which status, lengths of 16, 24 or 32, 12 and 16 among them |
| `Aead.PossibleRunExactly` | src/zuc_aead.c:95-153 | what a pass of the backend may do |
| `Aead.RunStatusExactly` | src/zuc_aead.c:138-153 | how a pass that fails is reported |
| `Aead.AeadEncrypt` | src/zuc_aead.c:155-181 | argument errors change nothing; later failures leave zero output and tag; success is ciphertext and tag under the caller's key, nonce and associated data |
| `Aead.AeadDecrypt` | src/zuc_aead.c:183-204 | argument errors change nothing; OK exactly when the tag verified under the caller's key, nonce and associated data; every other end leaves a zero output |
| `Aead.VerifiedTagApart` | src/zuc_aead.c:121-136 | with the tag outside the output, the tag checked is the caller's |
| `Aead.VerifiedByByte` | src/zuc_aead.c:121-136 | in every placement each tag byte is compared as plaintext where the output covers it and as the caller's elsewhere |
| `Aead.SharedTagFails` | src/zuc_aead.c:42-77 | whenever tag and output share a byte, a genuine message is refused and a forged one accepted |
| `Aead.TagCheckedIff` | src/zuc_aead.c:42-77 | for every placement, all genuine messages are accepted, and no forged one, exactly when tag and output share no byte |
| `Aead.GenuineRefused` | src/zuc_aead.c:121-136 | three calls, apart and in place, accepted by the argument checks, that refuse a genuine message |
| `Aead.AcceptedIffEncrypted` | src/zuc_aead.c:3-7 | decryption accepts and leaves p in memory exactly when memory held the encryption of p and its tag |
| `Aead.OpensSealed` | src/zuc_aead.c:155-204 | with the tag apart, decrypting in memory what encryption left there returns the plaintext, for every length |
| `Aead.SealedByByte` | src/zuc_aead.c:121-136 | in every placement, what an encryption leaves at each address |
| `Aead.SharedTagSpoils` | src/zuc_aead.c:42-77 | whenever tag and ciphertext share a byte, some ciphertext is lost and cannot be opened |
| `Aead.SealedIff` | src/zuc_aead.c:42-77 | for every placement, encryption always leaves ciphertext and tag exactly when they share no byte |
| `Aead.RoundTripIff` | src/zuc_aead.c:155-204 | for every placement, decryption always undoes encryption exactly when the tag shares no byte with either output |
| `Aead.CiphertextLost` | src/zuc_aead.c:42-77 | one call, accepted by the argument checks, whose ciphertext is lost |
| `Lifetimes.EventKeepsIff` | src/zuc_backend.c:76-88 | every step keeps the agreement of store, counter and handles, except exactly a last shutdown under a keyed handle |
| `Lifetimes.RunIsConsistent` | src/zuc_backend.c:3-10 | over every run without that exception they agree |
| `Lifetimes.AgreesThroughoutIff` | src/zuc_backend.c:3-10 | they agree at every point of a run exactly when it has no such exception |
| `Lifetimes.CountIsBalance` | src/zuc_backend.c:47-88 | the count is successful inits minus successful shutdowns and never wraps; up exactly while positive; torn down exactly on last shutdowns |
| `Lifetimes.CountCeiling` | src/zuc_backend.c:56-64 | an init is refused at 2^32 - 1 and nowhere below |
| `Lifetimes.LiveIsBalance` | src/zuc_backend.c:34-45 | the live counter is handles handed out minus handles freed |
| `Lifetimes.CountExactly` | src/zuc_backend.c:34-45 | what is counted are the places of the run where it happened |
| `Library.Adapter.Init` | src/zuc_backend.c:52-74 | the new count, and when it is refused |
| `Psa.FromPsaExactly` | src/zuc_status.c:53-65 | which backend status is reported as what |
| `Psa.MemoryOrExactly` | src/zuc_util.c:89-92 | a failure is a lack of memory exactly when it was one or an allocation failed before it |
| `Library.Adapter.Shutdown` | src/zuc_backend.c:76-88 | the new count, teardown at zero, and the refusal below it |
| `Library.Adapter.HashNew` | src/zuc_hash.c:92-120 | the status, and that only success hands out a handle |
| `Library.Adapter.HmacNew` | src/zuc_hash.c:296-332 | the same, with the imported key destroyed when set-up fails |
| `Library.Adapter.AesNew` | src/zuc_aes.c:64-92 | the same, with its key in the store exactly on success |
| `Library.NewExactly` | src/zuc_hash.c:92-120 | which status `zuc_hash_new` and `zuc_aes_new` return, and when; keys of 16, 24 or 32 bytes |
| `Library.HmacNewExactly` | src/zuc_hash.c:284-332 | the same for `zuc_hmac_new` |
| `Library.Adapter.Free` | src/zuc_hash.c:390-402 | the handle is gone, with its key if it had one; NULL changes nothing |
| `Library.Adapter.OneShot` | src/zuc_hash.c:270-281 | store, counter and handles are as before on every path |
| `Library.Adapter.PkeyFromPsa` | src/zuc_pkey.c:188-240 | the status of every failing step, and a handle exactly on success |
| `Library.Adapter.MakePkey` | src/zuc_pkey.c:442-474 | the key passes through the store and never stays there |
| `Library.MakeCheckExactly` | src/zuc_pkey.c:411-440 | the argument checks of generate, import and public: 1024 to 4096 bits for RSA, a curve's own size |
| `Library.MadeExactly` | src/zuc_pkey.c:188-240 | when making a key, its public half or parsing succeeds, and what each failing step is reported as |
| `Library.Adapter.ParseTail` | src/zuc_pkey.c:387-403 | a handle that is not private when asked for is freed again |
| `Library.Adapter.PublicDer` | src/zuc_pkey.c:482-513 | the intermediate handle is gone on every path |
| `LibraryRuns.Perform` | src/zuc_pkey.c:1285-1368 | every operation, argument checks included, returns the status, and does to the state the one event, that follow from its arguments and the backend's answers |
| `LibraryRuns.StatusExactly` | src/zuc_pkey.c:1285-1368 | operation by operation, what is returned when |
| `LibraryRuns.OneShotsExactly` | src/zuc_hash.c:34-56 | the argument checks of `zuc_hmac_compute`, and what authenticated encryption reports |
| `LibraryRuns.SensibleExactly` | src/zuc_backend.c:3-10 | which operations can happen when |
| `LibraryRuns.EventsArePossible` | src/zuc_backend.c:3-10 | any sequence of operations amounts to a possible run of events |
| `LibraryRuns.RunsAgree` | src/zuc_backend.c:3-10 | before every operation store, counter and handles agree exactly in the supported runs, and the count is balanced in all |
| `LibraryRuns.Drive` | src/zuc_backend.c:3-10 | the adapter, driven through any operations, returns every status of their run and ends in its state, with store, counter and handles in agreement throughout |
| `PkeyOps.UseKey` | src/zuc_pkey.c:918-1121 | the exact status of sign, encrypt and decrypt; on failure length 0 and output untouched or zero; store restored |
| `PkeyOps.SigningExactly` | src/zuc_pkey.c:918-954 | which signing call is refused with which status: key, scheme, digest length and room |
| `PkeyOps.CryptingExactly` | src/zuc_pkey.c:1034-1102 | the same for encryption and decryption |
| `PkeyOps.UseExactly` | src/zuc_pkey.c:955-966 | what is reported once the arguments are accepted, and when it is a lack of memory |
| `PkeyOps.CleanExactly` | src/zuc_pkey.c:960-964 | an output after a failure is as it was, or all zeros |
| `PkeyOps.Export` | src/zuc_pkey.c:1176-1213 | the exact status; on success the key's own material, or the public half of a private key when only that was asked for; a failure never touches the output |
| `PkeyOps.ExportExactly` | src/zuc_pkey.c:1176-1213 | which export returns which status |
| `PkeyOps.Agree` | src/zuc_pkey.c:1215-1273 | the exact status and secret; an X25519 secret that is returned has a byte that is not zero; a failure leaves length 0 and the output untouched or zero |
| `PkeyOps.AgreeCheckExactly` | src/zuc_pkey.c:1226-1243 | which agreement is refused with which status |
| `PkeyOps.AgreeExactly` | src/zuc_pkey.c:1244-1272 | agreement succeeds exactly when every step does and, for X25519 alone, the secret is not all zeros |
| `PkeyOps.AllZero` | src/zuc_pkey.c:1258-1267 | the loop finds exactly whether the secret is all zeros |
| `PkeyOps.SpkiDer` | src/zuc_pkey.c:576-614 | the exact status of the public writer, with the key destroyed on every path |
| `PkeyOps.Encode` | src/zuc_pkey.c:802-832 | for every key and format the exact status, the encoding, and the store and handles as before |
| `PkeyOps.SpkiExactly` | src/zuc_pkey.c:576-614 | what the public writer reports when |
| `PkeyOps.EncodedExactly` | src/zuc_pkey.c:691-835 | what is written for each key and format: the curve's own identifier, and only the public half where that was asked for |
| `PkeyOps.EncodeStatusExactly` | src/zuc_pkey.c:691-835 | which encodings there are, and what each failing step is reported as |
| `PkeyOps.Write` | src/zuc_pkey.c:782-869 | the exact status with the allocation watch; a DER write leaves the encoded key and nothing else; on failure length 0 and output untouched or zero; store restored |
| `PkeyOps.WriteExactly` | src/zuc_pkey.c:782-869 | which write returns which status |
| `PkeyOps.WrittenKeyReads` | src/zuc_pkey.c:782-869 | a strict reader recovers a private key from what was written as PKCS#8 exactly while its body fits, as every RSA key that is written and every key of the curves' sizes does |
| `PkeyOps.WrittenKeyIs` | src/zuc_pkey.c:691-780 | what was written as PKCS#8 reads back with the key's own material, and for 256, 384 and 521 bits as P-256, P-384 and P-521 |
| `PkeyOps.WrittenSec1Is` | src/zuc_pkey.c:651-687 | the SEC1 form reads back with the identifier of its curve |
| `PkeyOps.DecryptStatusIsUniform` | src/zuc_pkey.c:1107-1119 | for one key, import and set of arguments, no two backend failures but lack of memory can be told apart |
| `PkeyOps.AuthIff` | src/zuc_pkey.c:1107-1119 | that status is reported exactly when call and import were in order and the backend failed with memory to spare |
| `RHeap.Session.Finalize` | src/zucrypt_crypt.c:48-73 | the context is freed and the pointer cleared, the accounts of contexts balance, others are untouched |
| `RHeap.Session.ReleasePtr` | src/zucrypt_crypt.c:75-85 | the pointer is cleared and its context freed, if it had one |
| `RHeap.Session.CreateInto` | src/zucrypt_crypt.c:127-137 | the context is in its owner before R can run |
| `RHeap.Session.RCall` | src/zucrypt_crypt.c:14-20 | an R call: the collector may run, and then it longjmps exactly if it is one of those that do |
| `RHeap.Session.MayJump` | src/zucrypt_crypt.c:14-27 | demands single ownership wherever R may longjmp; what is reachable survives |
| `RHeap.Session.Result` | src/zucrypt_crypt.c:98-110 | the value survives the six allocations because it is protected |
| `RHeap.Session.Collect` | src/zucrypt_crypt.c:66-73 | collection keeps ownership and the accounts, and frees contexts only with their pointers |
| `RHeap.GrownSame` | src/zucrypt_crypt.c:14-20 | every R variable outside a call is the same object after it and holds the same context in the same state |
| `Glue.Chunk` | src/zucrypt_crypt.c:140-147 | one chunk and its interrupt check, left by longjmp or not |
| `Glue.FeedStatusFirst` | src/zucrypt_crypt.c:139-147 | the loop ends with the answer to the first megabyte that is refused |
| `Glue.TurnsExactly` | src/zucrypt_crypt.c:139-147 | R is asked for an interrupt once for every megabyte begun |
| `Glue.DigestStatusExactly` | src/zucrypt_crypt.c:149-162 | what a digest call returns: constructor, update, finish, or the wrong size |
| `Glue.DigestCallsExactly` | src/zucrypt_crypt.c:126-170 | how many R calls a digest makes, each a place where it may be left |
| `Glue.Absorb` | src/zucrypt_crypt.c:139-147 | unless an R call of the loop jumped, it has fed all the data or has the status of the first chunk to fail; if one did, the context is owned |
| `Glue.FinishDigest` | src/zucrypt_crypt.c:156-170 | the digest of what was fed, a wrong size refused; the context is freed exactly when the output could be allocated |
| `Glue.ZucryptDigest` | src/zucrypt_crypt.c:116-224 | left by a longjmp exactly when one of its R calls jumps; otherwise the exact status and the function of the data, with no context left; exactly when a context is made; every R variable and the state of what it holds is as before |
| `Glue.StreamNew` | src/zucrypt_crypt.c:240-295 | unless R jumps, the status, and on success R's pointer holds the one context made, fresh |
| `Glue.StreamUpdate` | src/zucrypt_crypt.c:299-319 | the context absorbs the data whether or not R jumps afterwards; every other R variable and what it holds is as before |
| `Glue.StreamFinish` | src/zucrypt_crypt.c:321-347 | unless R jumps, the digest; the stream is emptied exactly when the output could be allocated, and unchanged otherwise; every other R variable and what it holds is as before |
| `Glue.RunAes` | src/zucrypt_crypt.c:380-393 | the 1 MiB loop on the AES handle: the status of the first chunk to fail, or one CBC pass over the data in the output, or R jumped with the context owned |
| `Glue.ZucryptAesCbc` | src/zucrypt_crypt.c:353-405 | as for a digest: left by a longjmp exactly when one of its R calls jumps; otherwise the exact status and one CBC pass, with no context left |
| `Glue.ZucryptPkeyNew` | src/zucrypt_crypt.c:600-660 | unless R jumps, the status, and on success R's pointer holds the one key made |
| `Glue.FullCollection` | src/zucrypt_crypt.c:48-73 | after a collection exactly the contexts that R variables hold are alive, each unchanged and in the same variable |
| `Glue.ActKeepsWell` | src/zucrypt_crypt.c:14-27 | whatever an entry point did, every unfreed context has one owner and the accounts balance |
| `Glue.LiveAsBefore` | src/zucrypt_crypt.c:14-27 | after a call that leaves nothing behind and a collection, exactly the contexts R held before it are alive, wherever R jumped |
| `Glue.AdapterFollows` | src/zuc_backend.c:34-45 | at every point of a session the adapter's handles are the session's contexts, the keys in its store those of the MAC and AES contexts, and its live counter their number |
| `Glue.RunSession` | src/zucrypt_crypt.c:14-27 | over every session each action does what its entry point promises; once variables are dropped and collected, every context ever made was freed exactly once, and the adapter holds no key and no handle |
| `Streams.StreamState` | src/zucrypt_crypt.c:226-347 | at every point of a session a kept stream has absorbed exactly the updates on it, or it was finished |
| `Streams.StreamGives` | src/zucrypt_crypt.c:226-347 | its finish is OK exactly when it is the first, and the backend accepted all of it; then the value is the function of all the data fed to it, in order |

## Left out

- The backend itself (SHA, AES, GCM, RSA, curves, the PK and PEM layers): it is a parameter with hypotheses.
- `pkey_parse_impl`'s reading, `spki_der` and PEM encoding: thin wrappers over the backend; only their effect on resources and outputs is modelled.
- src/zuc_kdf.c, src/zuc_random.c, `zuc_pkey_verify_hash`, `zuc_get_info`, the algorithm tables and the API table: no loop or invariant of their own, or operating-system input.
- `zucrypt_hex`, `looks_like_pem`, PEM labels and R argument validation: easy members.
- NULL handles and NULL `out` of constructors: single-branch refusals. How reading a key's bytes ends is an argument of `LibraryRuns.Perform`.
- `psa_destroy_key` is taken to remove a live volatile key always; every other backend step may fail.
- Constant-time behaviour, removal of wipes by a compiler, threads: not expressible here.
- Sums of lengths are unbounded integers: `size_t` overflow needs a buffer larger than the address space.
- `KeyWriter.EcEncode`: the private half only; public keys go through the backend's writer, whose output is a parameter of `PkeyOps.Encode`.
- PEM text, and the entry points of src/zucrypt_crypt.c that make no context (information, signing, encryption, export, agreement): nothing of theirs can be lost by a longjmp.
- Schemes a build can switch off (the `PSA_WANT_ALG_*` conditionals of src/zuc_pkey.c): taken as compiled in.
- `Lifetimes.RunIsConsistent`: excludes a last shutdown under a handle that owns a key, which zucrypt documents as unsupported; `Lifetimes.AgreesThroughoutIff` proves that this is the only exception.
- `Ecdsa.RawIffDer`: assumes that R can allocate a vector as long as the signature it already holds.
