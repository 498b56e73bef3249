# OP-TEE: verified models of six pieces of its code

A Dafny project beside the OP-TEE sources. Each part models hand-written C or Python with the branches, constants and
error cases of the code, and proves what it is for over all inputs and all runs.

- **AES-GCM** (`GhashField`, `GhashTable`, `GcmSpec`, `Gcm`, `GcmRuns`, `GcmStandard`, `GcmPolynomial`): the
  4-bit-table multiply and the bitwise one against the field product, and the buffered state machine against
  NIST SP 800-38D, down to every byte of the ciphertext and the tag as a polynomial in the hash key.
- **SM4 and its modes** (`Sm4`, `BlockModes`, `Sm4Modes`, `Sm4Xts`): the Feistel network inverted by reversed keys,
  ECB, CBC and CTR over whole runs of calls, and XTS with ciphertext stealing against IEEE Std 1619-2007.
- **Fortuna** (`FortunaRing`, `FortunaPools`, `Fortuna`, `FortunaFeed`): the ring buffer and the pool counter under every
  interleaving, the reseed schedule, which counter is encrypted under which key over whole runs, and what of the pushed
  events reaches the pools.
- **ldelf** (`ElfSymbols`, `ElfSegments`, `ElfLoader`): hash tables as indexes over the symbol table, segments merged
  and aligned in place, and the queue of ELFs that grows while it is walked.
- **Streaming constructions** (`AesCts`, `CbcMac`, `Sm3`): buffer-and-block machines equal to one-shot definitions
  for every cutting of the input.
- **Subkey chains** (`ImageFormat`, `ImageUuid`, `ImageChain`, `ImageWriter`, `SignedHdr`, `ImageRuns`): writer, parser
  and the two verifiers of a recursive, variable-length image format, and whole runs from signing to both verdicts.

Each one-shot definition that a method is proved against is also stated without it: block by block, byte by byte, or bit
by bit, from the function parameters and plain arithmetic. `Bytes` holds what they share. Block ciphers, hash and compression functions, signatures and key checks are function
parameters: every theorem holds for all of them. Concurrency is a step relation over single loads and stores; calls into
libraries that may fail ask an arbitrary oracle; `err()`, `panic()` and failed asserts end a run.

Where code and documentation differ the model follows the code. The GCM counter is 128 bits wide and its bit lengths
are taken modulo 2^32, with the exact conditions under which that is the standard's. The Fortuna ring writes at the
advanced index and reads at the old one, so its first element is a slot that was never written. `ta_elf_resolve_sym`
takes a module's weak symbols, also undefined ones, before the next module's, and searches on when the named module has
no such symbol, unlike its comment says; when that shows is an if-and-only-if. The SM3 byte count carries once per call
and the bytes of whole blocks are a 32-bit product, which is right exactly under stated conditions. The script and the
secure world disagree about subkeys without a name field: the script keeps the UUID as bytes that equal no UUID and
refuses whatever follows (scripts/sign_encrypt.py:899-908), the secure world passes the UUID on
(core/crypto/signed_hdr.c:197-200).

`dafny verify dfyconfig.toml` checks the whole project.

## Model

| member | source | states |
|---|---|---|
| GhashField.ProductIsDot | core/crypto/aes-gcm.c:523-548 | the 128-step product of section 6.3 of NIST SP 800-38D is the sum of the multiples of one operand selected by the bits of the other |
| GhashField.ProductCommutes | core/crypto/aes-gcm.c:523-548 | the field product commutes, so selecting on the bits of either operand is the same |
| GhashField.ProductAssoc | core/crypto/aes-gcm.c:523-548 | the field product is associative |
| GhashField.ProductSum | core/crypto/aes-gcm.c:523-548 | and distributes over sums |
| GhashField.PowersMultiply | core/crypto/aes-gcm.c:523-548 | the powers of P multiply by adding exponents, and P^128 is 1 + P + P^2 + P^7: with the three laws before, this determines every product |
| GhashTable.BlockProductCommutes | core/crypto/aes-gcm-ghash-tbl.c:109-145 | the same on 16-byte blocks |
| GhashTable.BlockProductBits | core/crypto/aes-gcm-ghash-tbl.c:109-145 | the bytes of the block product hold exactly the bits of the field product, and of no other element |
| GhashTable.BitsXor | core/crypto/aes-gcm-sw.c:24-35 | exclusive or of blocks is the sum of their elements |
| GhashTable.GfMul | core/crypto/aes-gcm.c:523-548 | the bitwise multiply computes the block product of the standard |
| GhashTable.ShiftByFour | core/crypto/aes-gcm-ghash-tbl.c:94-103 | shifting a table value by four bits and adding last4 of what falls out is multiplication by P^4 |
| GhashTable.MultiplesExactly | core/crypto/aes-gcm-ghash-tbl.c:62-90 | a table satisfies the recurrences it is built by, halving and adding rows, exactly when it holds the multiples of H by all sixteen nibbles |
| GhashTable.GhashKey.GenTable | core/crypto/aes-gcm-ghash-tbl.c:49-91 | the generated tables are the multiples of the hash key |
| GhashTable.GhashKey.MultTable | core/crypto/aes-gcm-ghash-tbl.c:109-145 | multiplication over the tables gives the block product of the standard for every H and x, hence what the bitwise multiply gives |
| Gcm.State.GhashUpdateBlock | core/crypto/aes-gcm-sw.c:24-35 | one block absorbed, whichever multiplier is configured: the new state is the field product of the sum of the old state and the block with the encryption of the zero block |
| Gcm.State.GhashUpdate | core/crypto/aes-gcm-sw.c:37-51 | an optional head block and then the data are absorbed, in that order, once |
| Gcm.State.Init | core/crypto/aes-gcm.c:69-122 | tag lengths above 16 are refused; otherwise the state is that of a fresh message with the pre-counter block of the nonce |
| Gcm.State.UpdateAad | core/crypto/aes-gcm.c:140-181 | AAD is refused exactly after payload; otherwise it extends what has been hashed, for every length and pointer alignment |
| Gcm.State.AadRound | core/crypto/aes-gcm.c:150-178 | one turn of the AAD loop absorbs what it consumes exactly once although the head pointer stays set |
| Gcm.State.EncryptBlock | core/crypto/aes-gcm-sw.c:53-66 | a block enciphered with the keystream block kept ready, which is then moved on |
| Gcm.State.DecryptBlock | core/crypto/aes-gcm-sw.c:92-105 | a block deciphered with a keystream block made on the spot |
| Gcm.State.UpdateBlocks | core/crypto/aes-gcm-sw.c:68-90 | whole blocks go through at their position of the keystream, and the ciphertext is hashed |
| Gcm.State.UpdatePayload | core/crypto/aes-gcm.c:189-255 | any piece comes out as its exclusive or with its stretch of the keystream; AAD is padded once before the first |
| Gcm.State.OperationFinal | core/crypto/aes-gcm.c:266-288 | the tag is the masked hash of padded AAD, padded ciphertext and lengths |
| Gcm.State.EncFinal | core/crypto/aes-gcm.c:290-308 | short tag room is refused without effect; otherwise last piece and tag |
| Gcm.State.DecFinal | core/crypto/aes-gcm.c:318-336 | accepted exactly when length and bytes of the tag are right |
| GcmRuns.EncryptRun | core/crypto/aes-gcm.c:140-308 | ciphertext and tag of any cutting of AAD and payload are those of one call |
| GcmRuns.DecryptRun | core/crypto/aes-gcm.c:140-336 | plaintext of any cutting is that of one call, and the tag is accepted exactly when it is right |
| GcmRuns.RoundTrip | core/crypto/aes-gcm.c:98-252 | decryption under any cutting and either multiplier undoes encryption under any other, and accepts its tag |
| GcmStandard.IncrementAgrees | core/crypto/aes-gcm.c:346-356 | the 128-bit increment is the standard's 32-bit increment exactly when the last word is not all ones |
| GcmStandard.LengthsAgree | core/crypto/aes-gcm.c:57-67 | the length block is the standard's exactly when both lengths are below 2^29 bytes |
| GcmStandard.PreCounterAgrees | core/crypto/aes-gcm.c:84-93 | the pre-counter block is the standard's, for every nonce below 2^29 bytes |
| GcmStandard.GctrIsKeyStream | core/crypto/aes-gcm-sw.c:53-90 | the running keystream is the standard's GCTR while the last word does not overflow |
| GcmStandard.CounterBlocksAgree | core/crypto/aes-gcm.c:346-356 | the first n counter blocks are those of iterated inc32 exactly when the last word plus n is at most 2^32 |
| GcmStandard.StreamsAgree | core/crypto/aes-gcm-sw.c:53-90 | keystream and GCTR of n bytes agree under every block function exactly then |
| GcmStandard.CountersExactly | core/crypto/aes-gcm.c:84-93 | from the pre-counter block on, the bound that the whole-message theorems put on other nonces is exact |
| GcmStandard.TagAgrees | core/crypto/aes-gcm.c:266-288 | the tag is that of section 7.1 of NIST SP 800-38D |
| GcmStandard.AgreesWithStandard | core/crypto/aes-gcm.c:69-308 | ciphertext and tag are those of section 7.1 of NIST SP 800-38D for 96-bit nonces and lengths below 2^29, and for other nonces while their last counter word does not overflow |
| GcmStandard.StandardEncryption | core/crypto/aes-gcm.c:69-308 | under those bounds any cutting of AAD and payload gives the ciphertext and the truncated tag of section 7.1 of NIST SP 800-38D |
| GcmStandard.StandardDecryption | core/crypto/aes-gcm.c:69-336 | under those bounds any cutting of a decryption gives what the standard encrypts to the input, and accepts exactly the standard's tag |
| GcmPolynomial.GhashIsPolynomial | core/crypto/aes-gcm-sw.c:24-51 | GHASH of n blocks is the sum of block i times the hash key to the power n - i |
| GcmPolynomial.StandardSpelledOut | core/crypto/aes-gcm.c:69-308 | encryption and tag of section 7.1 of NIST SP 800-38D from the block cipher, the field product and arithmetic alone: every ciphertext byte with its 32-bit counter, the tag and a pre-counter block from a long nonce as polynomials in the hash key |
| GcmPolynomial.CodeSpelledOut | core/crypto/aes-gcm.c:69-308 | the same of what the code computes, with its 128-bit counter and its bit lengths modulo 2^32 |
| GcmPolynomial.EncryptedBytes | core/crypto/aes-gcm.c:69-308 | under any cutting of AAD and payload and either multiplier the bytes that come out are those |
| Sm4.ReversedKeysInvert | core/crypto/sm4.c:163-201 | with its round keys reversed the cipher is a two-sided inverse of itself, for any word transform |
| Sm4.CipherSpelledOut | core/crypto/sm4.c:163-184 | the cipher as that recurrence |
| Sm4.ScheduleSpelledOut | core/crypto/sm4.c:140-161 | the key schedule as that recurrence |
| Sm4.Xor32Bit | core/crypto/sm4.c:118-122 | every bit of a sum of words is the sum of the bits modulo two |
| Sm4.Context.SetKey | core/crypto/sm4.c:140-161 | the round keys are the key schedule: the last 32 of 36 words that start from the key words plus FK, each the sum of the fourth before it and the transform of the sum of the three before it and CK |
| Sm4.Context.SetKeyEnc | core/crypto/sm4.c:186-190 | the schedule as it is |
| Sm4.Context.SetKeyDec | core/crypto/sm4.c:192-201 | the schedule reversed by in-place swaps |
| Sm4.Context.OneRound | core/crypto/sm4.c:163-184 | the 32-round loop computes the cipher of the round keys: of 36 words the first four are the input, each later one the sum of the fourth before it and the transform of the sum of the three before it and its round key, and the last four backwards are the output |
| BlockModes.EcbInverts | core/crypto/sm4.c:203-214 | ECB with an inverse cipher undoes ECB |
| BlockModes.EcbAppend | core/crypto/sm4.c:203-214 | ECB of a concatenation is the concatenation |
| BlockModes.CbcInverts | core/crypto/sm4.c:216-247 | CBC decryption undoes encryption |
| BlockModes.CbcAppend | core/crypto/sm4.c:216-247 | CBC encryption goes on from the last ciphertext block |
| BlockModes.CbcInvAppend | core/crypto/sm4.c:216-247 | and so does decryption |
| BlockModes.CtrInvolution | core/crypto/sm4.c:249-270 | CTR is its own inverse |
| BlockModes.CtrAppend | core/crypto/sm4.c:249-270 | CTR goes on from the advanced counter |
| BlockModes.AdvanceValue | core/crypto/sm4.c:263-265 | the counter after k blocks is start + k modulo 2^128 |
| BlockModes.EcbSpelledOut | core/crypto/sm4.c:203-214 | every block of ECB is the cipher on that block |
| BlockModes.CbcSpelledOut | core/crypto/sm4.c:216-247 | every ciphertext block of CBC is the cipher on the sum of the plaintext block and the ciphertext block before it |
| BlockModes.CbcInvSpelledOut | core/crypto/sm4.c:216-247 | every plaintext block is the sum of the cipher on the ciphertext block and the one before it |
| BlockModes.CtrSpelledOut | core/crypto/sm4.c:249-270 | every block of CTR is the sum of the input block and the cipher on the block of the counter number plus its index modulo 2^128 |
| Sm4Modes.CarriedIsNext | core/crypto/sm4.c:263-265 | the byte-wise carry is the increment modulo 2^128 |
| Sm4Modes.Increment | core/crypto/sm4.c:263-265 | the increment loop with its early exit, in place |
| Sm4Modes.CryptEcb | core/crypto/sm4.c:203-214 | the loop computes ECB, also said block by block |
| Sm4Modes.CryptCbc | core/crypto/sm4.c:216-247 | the loops compute CBC in the direction of the context, also said block by block, and leave the chaining block in the iv |
| Sm4Modes.CryptCtr | core/crypto/sm4.c:249-270 | the loop computes CTR, also said block by block, and leaves the counter as a number advanced by the number of blocks modulo 2^128 |
| Sm4Modes.EcbRun | core/crypto/sm4.c:203-214 | any block-aligned cutting gives the one-call result |
| Sm4Modes.CbcEncryptRun | core/crypto/sm4.c:216-247 | any block-aligned cutting gives the one-call ciphertext |
| Sm4Modes.CbcDecryptRun | core/crypto/sm4.c:216-247 | any block-aligned cutting gives the one-call plaintext |
| Sm4Modes.CtrRun | core/crypto/sm4.c:249-270 | any block-aligned cutting gives the one-call result, with the counter at start + blocks modulo 2^128 |
| Sm4Modes.EcbRoundTrip | core/crypto/sm4.c:186-214 | contexts keyed for the two directions undo each other in ECB, under any two cuttings |
| Sm4Modes.CbcRoundTrip | core/crypto/sm4.c:186-247 | and in CBC, under any two cuttings |
| Sm4Modes.CtrRoundTrip | core/crypto/sm4.c:186-270 | and in CTR, both directions with the encryption keys, under any two cuttings |
| Sm4Xts.ShiftedDoubles | core/crypto/sm4.c:272-285 | read as a little-endian number the tweak doubles, and the dropped bit is the one reduced by 0x87 |
| Sm4Xts.AlphaIsProduct | core/crypto/sm4.c:272-285 | as polynomials over the bits, alpha is the product with x modulo x^128 + x^7 + x^2 + x + 1 |
| Sm4Xts.XtsMulti | core/crypto/sm4.c:272-285 | the loop is the multiplication by alpha of section 5.2 of IEEE Std 1619-2007, also in place |
| Sm4Xts.XtsInverts | core/crypto/sm4.c:295-351 | XTS decryption undoes encryption for every length of at least 16 |
| Sm4Xts.XtsSpelledOut | core/crypto/sm4.c:295-351 | every byte of the data unit from the cipher, byte-wise sums and that product: each block between two additions of its tweak, each tweak alpha times the one before, and the stolen bytes with the last two tweaks in the order of the direction |
| Sm4Xts.XtsAppend | core/crypto/sm4.c:306-321 | a message cut at a block boundary goes on from the advanced tweak, in both directions |
| Sm4Xts.StealEncrypting | core/crypto/sm4.c:326-336 | the end of encryption is the ciphertext stealing of section 5.3 |
| Sm4Xts.StealDecrypting | core/crypto/sm4.c:337-350 | the end of decryption is its counterpart, with the two last tweaks exchanged |
| Sm4Xts.EachBlock | core/crypto/sm4.c:311-324 | the loop enciphers the whole blocks with successive tweaks and leaves the next one |
| Sm4Xts.CryptXts | core/crypto/sm4.c:295-351 | the function computes the data-unit procedures of sections 5.3 and 5.4 of IEEE Std 1619-2007 for every length of at least 16, also said byte by byte; the iv becomes the key-two decryption of the next tweak exactly when the message ends on a block boundary |
| Sm4Xts.XtsRun | core/crypto/sm4.c:306-321 | a message cut at any block boundaries into successive calls comes out as from one call |
| Sm4Xts.XtsRoundTrip | core/crypto/sm4.c:186-351 | decryption under any cutting undoes encryption under any other, from the same two keys and iv |
| FortunaRing.StepInv | core/crypto/rng_fortuna.c:61-70 | every load and store of writer and reader keeps the published and unconsumed elements intact |
| FortunaRing.EveryRun | core/crypto/rng_fortuna.c:175-220 | in every interleaving the popped elements are a prefix of the zero slot followed by the accepted events, at most seven behind |
| FortunaRing.FullExactly | core/crypto/rng_fortuna.c:185-187 | the indices tell full and empty exactly, at seven and at no waiting elements |
| FortunaRing.RefusedOnlyWhenFull | core/crypto/rng_fortuna.c:185-187 | an event is dropped exactly when seven are waiting |
| FortunaRing.EmptyOnlyWhenNoneWaits | core/crypto/rng_fortuna.c:206-207 | a pop begins exactly when an element is waiting |
| FortunaRing.ConsumesOldest | core/crypto/rng_fortuna.c:209-219 | and ends with the oldest one |
| FortunaRing.HistoryGrows | core/crypto/rng_fortuna.c:189-216 | nothing accepted or popped is ever taken back |
| FortunaPools.EveryInterleaving | core/crypto/rng_fortuna.c:267-296 | however compare-and-swap loops interleave, updates are dealt to the 32 pools in turn from pool 0 |
| FortunaPools.DividesNext | core/crypto/rng_fortuna.c:420-430 | one more zero bit is divisibility by the next power of two |
| FortunaPools.DrawnExactly | core/crypto/rng_fortuna.c:450-451 | a loop that stops at the first failing bit test draws pool n exactly when 2^n divides the reseed count |
| FortunaPools.TurnsExactly | core/crypto/rng_fortuna.c:450-451 | the number of pools the loop draws from, pool n being among them exactly when 2^n divides the count |
| FortunaPools.DividesWrapped | core/crypto/rng_fortuna.c:444 | the 32-bit wrap of the reseed count does not change which pools are named |
| FortunaPools.UsesExactly | core/crypto/rng_fortuna.c:444-451 | among the reseeds 1 to R the rule names pool n floor(R / 2^n) times |
| Fortuna.NeverTwice | core/crypto/rng_fortuna.c:74-79 | with increasing uses, no counter value is encrypted twice before 2^128 increments |
| Fortuna.State.IncCounter | core/crypto/rng_fortuna.c:74-79 | the two words count increments modulo 2^128 |
| Fortuna.State.GenerateBlocks | core/crypto/rng_fortuna.c:315-338 | consecutive counters under the current key, each used once also when a cipher call fails; on success the keystream |
| Fortuna.State.GenerateRandomData | core/crypto/rng_fortuna.c:341-359 | the first bytes of the keystream, with the blocks counted |
| Fortuna.State.RestartPool | core/crypto/rng_fortuna.c:395-418 | a pool goes on from the digest of what it held |
| Fortuna.State.DrawPools | core/crypto/rng_fortuna.c:450-461 | the digests of the pools whose turn it is are taken in order; those pools are restarted and counted as drawn once more, the others left alone |
| Fortuna.State.MaybeReseed | core/crypto/rng_fortuna.c:432-474 | a reseed happens exactly with 64 bytes or more in pool 0 and no rate limit; its key is the hash of the digests of the pools whose turn it is, it has encrypted nothing, the counter moved by one, and the draws keep to the schedule; otherwise key and counter stay |
| Fortuna.State.Reseed | core/crypto/rng_fortuna.c:444-471 | the reseed itself: the count, the digests of the pools whose turn it is, the key and the counter, with every early error return |
| Fortuna.ReseedKeySpelledOut | core/crypto/rng_fortuna.c:444-471 | the new key is the hash of the digests of pools 0, 1 and so on one after another, pool n among them exactly when 2^n divides the count |
| Fortuna.State.AddEvent | core/crypto/rng_fortuna.c:222-246 | a pool gets source, length and at most 32 bytes behind what it holds, and pool 0 counts the data; a pool that does not exist is an error |
| Fortuna.State.DrainRingBuffer | core/crypto/rng_fortuna.c:248-265 | what comes out of the ring is fed in order, up to the first element without data; the events fed and the pools afterwards are exact, and nothing is fed twice or out of turn |
| Fortuna.State.DrainOne | core/crypto/rng_fortuna.c:250-264 | the next element ends the loop, reaches its pool, or is lost with a failing call |
| Fortuna.State.FortunaRead | core/crypto/rng_fortuna.c:476-512 | byte k of the data is byte k mod 16 of the encryption of the starting counter plus k / 16 under the exact key, reseeded or not, and the next key is the two blocks after the data; any failure ends the generator; a key still in use has encrypted nothing |
| Fortuna.State.CryptoRngRead | core/crypto/rng_fortuna.c:514-531 | every byte is the encryption of a counter under the key of its mebibyte; the keys follow one another, each the two blocks after the data of the one before or a reseed; as many pieces as mebibytes begun |
| Fortuna.State.CryptoRngInit | core/crypto/rng_fortuna.c:130-173 | refused while running; otherwise counting starts at one |
| Fortuna.State.CryptoRngAddEvent | core/crypto/rng_fortuna.c:298-312 | feeding pools uses no key and no counter |
| Fortuna.Run | core/crypto/rng_fortuna.c:130-531 | over any run after an initialisation, with any calls failing: no counter value is encrypted twice before 2^128 increments, no key encrypts more than 2^16 + 2 blocks, and while the generator lives pool n has been drawn from floor(reseeds / 2^n) times, also past the wrap of the count |
| FortunaFeed.PushedComesOut | core/crypto/rng_fortuna.c:175-220 | an event comes out of the ring as it went in, cut to the four bytes of a slot |
| FortunaFeed.PoppedInOrder | core/crypto/rng_fortuna.c:175-265 | in every interleaving of pushes and pops the events with data that came out are a prefix of those pushed, the slot that was never written counting for nothing |
| FortunaFeed.RunOnRing | core/crypto/rng_fortuna.c:175-531 | over any interleaving on the ring and any run of the generator, the events taken out are a prefix of the accepted pushes, in order; those that reached the pools are among them in that order, and all of them when no call fails |
| ElfSymbols.ComputeGnuHash | ldelf/ta_elf_rel.c:35-44 | shift-and-add with wrap-around is 5381 times 33 to the length plus the bytes in base 33, modulo 2^32 |
| ElfSymbols.ComputeElfHash | ldelf/ta_elf_rel.c:19-33 | the folding loop of the System V hash: from zero, each value is 16 times the one before plus a byte modulo 2^32, its bits 28 to 31 cleared and added to bits 4 to 7, bit by bit |
| ElfSymbols.OtherNameRefused | ldelf/ta_elf_rel.c:46-90 | a symbol of another name is never accepted |
| ElfSymbols.VerdictExactly | ldelf/ta_elf_rel.c:46-90 | a symbol is accepted, and with which value, exactly when its name stands zero-terminated in the string section, its binding is looked for, and it is weak undefined (zero), addressed within the module (load address plus value) or thread-local (value); and the loader stops exactly on the three malformed cases |
| ElfSymbols.Indexed | ldelf/ta_elf_rel.c:148-189 | in a well-formed table a symbol of a name sits in the name's bucket, passes the bloom filter and carries the hash |
| ElfSymbols.BuiltIsWellFormed | ldelf/ta_elf_rel.c:140-189 | every list of symbols sorted by bucket has a well-formed table, so lookup is about all of them |
| ElfSymbols.Follow | ldelf/ta_elf_rel.c:176-189 | walking a chain to its end flag finds what a scan from its first symbol finds |
| ElfSymbols.LookupGnu | ldelf/ta_elf_rel.c:140-189 | lookup in a well-formed DT_GNU_HASH table gives the result of a linear scan from symoffset: the same first symbol, the same value, or none |
| ElfSymbols.LookupSysv | ldelf/ta_elf_rel.c:190-209 | lookup in a well-formed acyclic DT_HASH table ends with the first symbol of the name's chain that is not refused |
| ElfSymbols.SysvAnswers | ldelf/ta_elf_rel.c:190-209 | that chain finds an acceptable symbol exactly when the table has one |
| ElfSymbols.AnswersAsScan | ldelf/ta_elf_rel.c:190-209 | with one symbol of the name that is the result of a linear scan |
| ElfSymbols.ResolveIn | ldelf/ta_elf_rel.c:134-212 | one module, through whichever table it has: the exact symbol and its value from load address and symbol fields, found exactly when there is an acceptable one, or the call of err() |
| ElfSymbols.ResolveGlobalThenWeak | ldelf/ta_elf_rel.c:226-233 | the exact symbol one module gives |
| ElfSymbols.TakenMeans | ldelf/ta_elf_rel.c:226-233 | a module gives nothing only if it has no acceptable symbol, and a global one exactly if it has one |
| ElfSymbols.ResolveSym | ldelf/ta_elf_rel.c:222-248 | the named module first, then the first module of the queue that gives anything: module, symbol and value |
| ElfSymbols.FirstTakenMeans | ldelf/ta_elf_rel.c:235-240 | the search of the queue ends at the first module with any acceptable symbol, and finds nothing only if there is none |
| ElfSymbols.DocumentedOrderIff | ldelf/ta_elf_rel.c:214-248 | the comment's order, global, then weak, then weak undefined symbols, within the named module or all modules, is followed exactly when: the first module with any acceptable symbol has a global one; or none has a global one and that module's first is defined or none is; for a named module, likewise within it, and when it has no acceptable symbol no other module has one |
| ElfSymbols.WeakBeforeGlobal | ldelf/ta_elf_rel.c:235-240 | a weak symbol in the first module wins over a global one in the second |
| ElfSymbols.UndefinedBeforeDefined | ldelf/ta_elf_rel.c:235-240 | a weak undefined symbol in the first module, resolved to zero, wins over a weak defined one in the second |
| ElfSymbols.NamedModuleLeft | ldelf/ta_elf_rel.c:226-240 | a symbol missing from the named module is found in another |
| ElfSegments.TaElf.CheckSanity | ldelf/ta_elf.c:637-655 | the sanity asserts hold exactly when the list is sane |
| ElfSegments.TaElf.AdjustSegments | ldelf/ta_elf.c:628-722 | it ends without a failed assert exactly when every segment is sane and mergeable, and then the list is sorted, page-disjoint and aligned, with every input inside its target, the exact extents and offsets of every output, flags joined, and shared file pages marked for remapping |
| ElfSegments.TaElf.AdjustOne | ldelf/ta_elf.c:662-720 | one turn of the loop places one more input segment |
| ElfSegments.TargetExactly | ldelf/ta_elf.c:662-681 | a segment goes to the target of the one before it exactly when its page begins before that one ends, and else to the next |
| ElfSegments.ExtentsExactly | ldelf/ta_elf.c:690-718 | an output begins on the page of the first input merged into it and ends, in memory and in the file, where the last one does |
| ElfSegments.FlagsExactly | ldelf/ta_elf.c:690-694 | it has exactly the flags of the inputs merged into it |
| ElfSegments.ApartStaysApart | ldelf/ta_elf.c:662-720 | segments on disjoint pages come out as many as went in, each with its own flags and ends |
| ElfSegments.RemappedExactly | ldelf/ta_elf.c:703-709 | an output is marked for remapping exactly when its first input was, or is unaligned in the file and shares its page with the output before |
| ElfSegments.BitAndMask | ldelf/ta_elf.c:657-705 | the test with a mask of low bits is the test of a remainder |
| ElfSegments.ExactlyOne | ldelf/ta_elf.c:628-722 | a segment that occupies memory meets its target and no other output segment |
| ElfSegments.OffsetKeptIff | ldelf/ta_elf.c:681-718 | a file-backed address stays file-backed, and keeps its file offset exactly when its segment is shifted like the first one it was merged with |
| ElfSegments.DeltasAgree | ldelf/ta_elf.c:681-718 | equal steps in address and offset at each merge are enough for that |
| ElfLoader.Loader.FindElf | ldelf/ta_elf.c:90-99 | found exactly when queued |
| ElfLoader.Loader.QueueElf | ldelf/ta_elf.c:76-88 | appended unless queued already |
| ElfLoader.Loader.AddDependencies | ldelf/ta_elf.c:1037-1081 | the DT_NEEDED entries are appended in order, each once |
| ElfLoader.Loader.LoadDependency | ldelf/ta_elf.c:1313-1334 | everything but the main ELF is loaded and its needs queued |
| ElfLoader.Loader.LoadMain | ldelf/ta_elf.c:1205-1260 | the main ELF is loaded, and loaded once more if it is a legacy one; its needs are queued once |
| ElfLoader.Loader.LoadFrom | ldelf/main.c:159-160 | the loop over a queue that grows while it is walked ends, over finitely many UUIDs, with a queue closed under needs |
| ElfLoader.Loader.RelocateFrom | ldelf/main.c:162-165 | each queued ELF relocated once, in order |
| ElfLoader.Loader.Ldelf | ldelf/main.c:150-165 | main first, then its closure, all loaded before any is relocated; a legacy main ELF is loaded twice and relocated once |
| ElfLoader.Loader.AddLibrary | ldelf/ta_elf.c:1607-1638 | dlopen adds the closure of the library, repeats nothing, and does nothing when it is there already or cannot be queued |
| ElfLoader.Run | ldelf/main.c:150-165 | after ldelf() and any dlopens, some of which may fail to queue, the queue is exactly the closure of what was queued, main first, each UUID once; a legacy main ELF is loaded twice, every other ELF once; each is relocated once, after its whole closure was loaded |
| ElfLoader.RelocatedRight | ldelf/ta_elf_rel.c:404-466 | so after any such run a word with one relocation entry holds, modulo 2^32, its file content plus load address and symbol, plus symbol minus place, or plus load address, or the stored value, by the kind of entry; other words are untouched |
| AesCts.PaddedIsZeroPadding | core/crypto/aes-cts.c:117-122 | the padded last block is the zero padding of the whole message |
| AesCts.OffsetFits | core/crypto/aes-cts.c:100-118 | the offset of the last block fits an int exactly up to 2^31 bytes |
| AesCts.CtsInverts | core/crypto/aes-cts.c:139-185 | decryption undoes encryption for every length beyond one block |
| AesCts.CtsEncryptAppend | core/crypto/aes-cts.c:104-106 | block-aligned text in front only moves the chaining block, in encryption |
| AesCts.CtsDecryptAppend | core/crypto/aes-cts.c:104-106 | and in decryption |
| AesCts.CtsEncryptSpelledOut | core/crypto/aes-cts.c:116-138 | the ciphertext from CBC block by block over the zero-padded message, its last two blocks exchanged and the second cut |
| AesCts.CtsDecryptSpelledOut | core/crypto/aes-cts.c:139-185 | the plaintext likewise, the cut block made up with the end of the deciphered one |
| AesCts.CtsContext.EncryptLast | core/crypto/aes-cts.c:116-138 | the last call, up to 2^31 bytes, computes CBC-CS3 of the Addendum to NIST SP 800-38A: pad, CBC, swap the last two blocks, truncate |
| AesCts.CtsContext.DecryptLast | core/crypto/aes-cts.c:139-185 | the last call, up to 2^31 bytes, computes its inverse |
| AesCts.CtsContext.Update | core/crypto/aes-cts.c:93-187 | every call, with its two error cases; the last one also said block by block |
| AesCts.Run | core/crypto/aes-cts.c:93-187 | any block-aligned updates before the last leave the result as it is in one call |
| AesCts.RoundTrip | core/crypto/aes-cts.c:93-187 | decryption under any cutting undoes encryption under any other |
| CbcMac.Context.Init | core/crypto/cbc-mac.c:42-55 | an empty message with a zero iv, for 8- and 16-byte blocks |
| CbcMac.Context.Blocks | core/crypto/cbc-mac.c:83-114 | whole blocks in bundles or singly leave the same chaining block, and the digest is the last one |
| CbcMac.Context.Update | core/crypto/cbc-mac.c:57-125 | the message grows by the data, for every bundle size and allocation outcome |
| CbcMac.Context.Final | core/crypto/cbc-mac.c:127-153 | the last CBC block of the optionally padded message, or the error, also said block by block |
| CbcMac.Run | core/crypto/cbc-mac.c:42-153 | for 8- and 16-byte blocks, every chunking, bundle size and allocation outcome the result is the one-shot MAC, also said block by block |
| CbcMac.ChainedIsCbc | core/crypto/cbc-mac.c:99-113 | for 16-byte blocks the one-shot MAC is the last block of CBC as the cipher modes compute it |
| CbcMac.MacSpelledOut | core/crypto/cbc-mac.c:127-153 | the MAC is the beginning of the last of the values from zero on, each the cipher on the sum of a message block and the value before it; the padding is n times the byte n, n from one to a whole block |
| CbcMac.FailsExactly | core/crypto/cbc-mac.c:146-147 | it fails exactly without padding and without whole blocks, or with a partial one |
| Sm3.CarryExactly | core/crypto/sm3.c:199-202 | the two words of the byte count are right exactly for calls below 2^32 bytes and those that carry once |
| Sm3.ConsumedExactly | core/crypto/sm3.c:212-215 | the 32-bit product of blocks and block size is the number of bytes in whole blocks exactly below 2^32 bytes |
| Sm3.ServedExactly | core/crypto/sm3.c:187-219 | a call leaves less than a block for the buffer and counts right exactly when what follows the completed block is below 2^32 bytes and the count carries at most once |
| Sm3.Context.Update | core/crypto/sm3.c:187-219 | for every such call the message grows by the input; whole blocks are compressed and the rest kept |
| Sm3.LengthBytes | core/crypto/sm3.c:234-238 | the length field is the bit length in 64 bits |
| Sm3.HashSpelledOut | core/crypto/sm3.c:221-254 | the digest is the last of a chain of values, the first made of the eight initial words, each later one the compression of a named 64-byte block into the one before; the blocks are the message, 0x80, the fewest zeros and the bit length |
| Sm3.HmacSpelledOut | core/crypto/sm3.c:267-308 | the HMAC from two such chains, over the key made up to a block plus 0x36 and the text, and over the key plus 0x5C and the inner digest |
| Sm3.Context.Final | core/crypto/sm3.c:228-254 | the digest is that of the message padded per section 5.2 of GM/T 0004-2012, also said as a chain of compressions |
| Sm3.HashRun | core/crypto/sm3.c:187-254 | for every chunking into calls below 2^32 bytes |
| Sm3.Context.HmacInit | core/crypto/sm3.c:267-290 | the pads are the block key combined with 0x36 and 0x5C, for short, full and long keys below 2^32 bytes |
| Sm3.Context.HmacFinal | core/crypto/sm3.c:297-308 | the outer hash of the inner hash, also said as chains of compressions |
| Sm3.HmacRun | core/crypto/sm3.c:267-308 | the streaming HMAC is that of section 2 of RFC 2104 for every key below 2^32 bytes and every chunking |
| ImageFormat.IntBytesBack | scripts/sign_encrypt.py:454-458 | int.from_bytes recovers what int_to_bytes wrote |
| ImageFormat.HeaderBack | scripts/sign_encrypt.py:364-371 | a written header parses back, in front of anything |
| ImageFormat.SubkeyBack | scripts/sign_encrypt.py:422-569 | parsing recovers every field of a written subkey, its modulus and exponent, and what follows it |
| ImageFormat.TaBack | scripts/sign_encrypt.py:413-420 | parsing recovers a written bootstrap TA |
| ImageFormat.SubkeyLayout | scripts/sign_encrypt.py:422-470 | every field of a written subkey at its byte offset: header, digest, signature, UUID, sizes, depth, algorithm, the two attributes and the numbers they hold |
| ImageFormat.TaLayout | scripts/sign_encrypt.py:413-420 | every field of a written TA at its byte offset |
| ImageWriter.ChainBack | scripts/sign_encrypt.py:472-569 | parsing a whole file image by image gives back every subkey, name and the TA |
| ImageWriter.BinaryImage.AddSubkey | scripts/sign_encrypt.py:790-804 | the loop finds the last subkey of the file, its depth and its name size |
| ImageWriter.BinaryImage.SetSubkey | scripts/sign_encrypt.py:422-470 | refused exactly when no smaller depth is left or a field does not fit; otherwise image, header and digest |
| ImageWriter.BinaryImage.SetBootstrapTa | scripts/sign_encrypt.py:413-420 | with every signature of the announced size what has been put together is a TA image that parses back to the TA, and its digest is that of the parsed header and image |
| ImageWriter.DepthSinks | scripts/sign_encrypt.py:435-452 | the depth given to a subkey is below that of the one before it |
| ImageWriter.FileExtends | scripts/sign_encrypt.py:806-823 | a file of subkeys, a padded name and more of the chain are the file of the longer chain |
| ImageWriter.SignFirstSubkey | scripts/sign_encrypt.py:847-855 | the file of a chain of one |
| ImageWriter.SignNextSubkey | scripts/sign_encrypt.py:847-855 | the file of the longer chain, one step deeper |
| ImageWriter.SignTa | scripts/sign_encrypt.py:838-844 | the file of the chain with its TA, or of the TA alone without a subkey file |
| ImageChain.CommandVerify | scripts/sign_encrypt.py:874-921 | the loop decides the recursive acceptance of the chain, with what it keeps as next UUID after a subkey without a name field: bytes instead of a UUID; and what it accepts is signed image by image |
| ImageChain.BareBytesRejected | scripts/sign_encrypt.py:899-908 | after a subkey without a name field the script accepts nothing |
| ImageChain.CorrectIsAccepted | scripts/sign_encrypt.py:874-921 | a correctly signed chain with derived UUIDs and sinking depths is accepted exactly when every subkey in front of something has a name field |
| ImageChain.AcceptedIsSigned | scripts/sign_encrypt.py:874-921 | from whatever bytes, an accepted file is images each signed by the first key or the key in the subkey before it, over the digest of its header and contents, each with the UUID that the one before derives for it, deeper than it, up to the TA asked for or the end of the file |
| ImageChain.AcceptedIsShort | scripts/sign_encrypt.py:891-895 | an accepted chain has strictly decreasing max_depth, so at most the first max_depth plus one subkeys |
| ImageUuid.SameUuid | core/crypto/signed_hdr.c:221-235 | setting variant and version in the 128-bit integer and in the fields gives the same UUID |
| ImageUuid.NextUuidSpelledOut | core/crypto/signed_hdr.c:185-244 | the subkey's own UUID without a name; else the first sixteen bytes of the hash of that UUID followed by the name up to its first zero byte, with four bits of byte 6 and two of byte 8 set |
| ImageUuid.CalcNextUuid | core/crypto/signed_hdr.c:185-244 | the secure world derives the UUID that the script derives, also said byte by byte |
| SignedHdr.CheckAttrs | core/crypto/signed_hdr.c:166-183 | accepted exactly when every attribute ends inside the image |
| SignedHdr.LoadAttr | core/crypto/signed_hdr.c:115-125 | the attribute found is the one the script finds |
| SignedHdr.ShdrLoadPubKey | core/crypto/signed_hdr.c:246-329 | a key is loaded exactly when the subkey may be used; and from whatever bytes, the script reads the same UUID, depth, name size, key and next UUID |
| SignedHdr.WrittenIsLoadable | core/crypto/signed_hdr.c:246-329 | a subkey as written can be used exactly where its UUID and depth allow |
| SignedHdr.LoadChain | core/kernel/ree_fs_ta.c:264-360 | the loop over headers, signatures and subkeys computes the recursive walk of the chain, for headers of every hash that is not weak, with the digest size of their algorithm; and the chain it goes along with is signed header by header, read at offsets in the file |
| SignedHdr.LoadedIsSigned | core/kernel/ree_fs_ta.c:264-360 | from whatever bytes, in a chain that is gone along with the i-th header, found from the sizes in the file, holds a digest and signature that check under the root key or the key in the subkey before it, and the digest of a subkey is that of its header and image |
| SignedHdr.KnownIsSha256 | lib/libutee/include/utee_defines.h:132-176 | the algorithms that the script writes are RSA with SHA-256, by the bits the secure world reads the hash from |
| SignedHdr.CorrectIsLoaded | core/kernel/ree_fs_ta.c:264-360 | a correctly signed chain is gone along with exactly when its first depth is below 2^32 - 1, with its keys, depths and UUIDs, also with identity subkeys |
| SignedHdr.IdentitySubkeyDiffers | core/crypto/signed_hdr.c:197-200 | an identity subkey in front of its TA: the secure world goes along, the script refuses |
| SignedHdr.IdentitySubkeyExample | core/crypto/signed_hdr.c:197-200 | there are such chains |
| SignedHdr.LoadedChainIsShort | core/kernel/ree_fs_ta.c:284-338 | from whatever bytes, the keys of a chain that is gone along with sink strictly, each named by the one before, so they are at most the first depth plus one |
| ImageRuns.SignSubkeys | scripts/sign_encrypt.py:847-855 | signing subkey after subkey succeeds exactly while depths last, and leaves the file of a correct chain of what was asked for |
| ImageRuns.SignLast | scripts/sign_encrypt.py:838-844 | signing a TA under it, or without subkeys under the root key, leaves the file of the correct chain with the TA |
| ImageRuns.SignAndJudge | scripts/sign_encrypt.py:838-921 | what the commands sign, with any number of subkeys or none, the script accepts exactly when every subkey has a name field, and the secure world goes along with exactly when there is no subkey or the first depth is below 2^32 - 1 |

## Left out

- AES, SHA, RSA, the SM4 substitution box and the SM3 compression rounds: function parameters, nothing depends on them.
- Overlapping buffers: modes take the input as a value and build the output as one, so a call whose output overwrites
  its own input is not modelled.
- GcmStandard.AgreesWithStandard: one way, because a cipher and message can be such that different counter blocks give
  the same output; the exact statements are about counter blocks, CountersExactly, about all block functions,
  StreamsAgree, and about length blocks, LengthsAgree.
- Sm3.Context.Update: calls that leave 2^32 bytes or more after the block begun, or whose count would carry twice, are
  excluded, because the code goes wrong there; ServedExactly says exactly when.
- Sm3.HmacRun: keys of 2^32 bytes and more are excluded for the same reason.
- Sm3.HashRun: from 2^61 bytes on the length field is the bit length modulo 2^64, which the standard does not define.
- AesCts.CtsContext.Update: a last call of more than 2^31 bytes is excluded, because the block offsets are of type int
  and overflow; OffsetFits says exactly when.
- AesCts.Run: the last call is at most 2^31 bytes, for the same reason.
- CbcMac.Run: cipher calls that succeed.
- ElfSymbols.LookupGnu: well-formed tables only; the test of a chain against the end of its section never fires on them.
- ElfSymbols.LookupSysv: well-formed tables only, where no chain cycles or leaves the table.
- ElfSymbols.DocumentedOrderIff: symbols that make the loader call err() are excluded there; ResolveSym covers them.
- ElfSegments.TaElf.AdjustSegments: size_t wrap-around of file offsets is not modelled; that of addresses is asserted
  against by the code.
- ElfLoader.Run: an ELF is its UUID and what it needs; mapping, symbol saving and TLS are not modelled, and runs that end
  in err() are not runs of the model.
- ElfLoader.RelocatedRight: REL tables of 32-bit words that do not overlap, with resolved values given.
- FortunaRing.EveryRun: memory is sequentially consistent; the data bytes of an element are one load and one store.
- Fortuna.Run: what comes out of the ring is a parameter, which FortunaFeed.RunOnRing takes from FortunaRing; whether the
  ring is empty at a pop, and the rate limiter's clock, are oracles.
- Fortuna.State.CryptoRngRead: no other caller reads between two of its pieces, although the mutex is free there; and of
  the pools that a reseed between two pieces drew from it says only that there are such pools.
- SignedHdr.ShdrLoadPubKey: memory and hash contexts are taken to be available, and the digest in the header to have the
  size of its algorithm, which the signature check before it demands.
- The encrypted-TA branch of the script: its parser raises on every such image.
- SignedHdr.LoadChain: the part of ree_fs_ta_open up to the UUID check; reading and hashing the TA itself is left out.
- Rollback versions, fault-mitigation counters, zeroisation, constant-time comparison and index
  confinement.
- internal_aes_gcm_dec_ctr and the ARM accelerated paths.
- Everything under core/drivers, the crypto dispatch layer, and the remaining scripts.
