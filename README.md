# Cloakwork core, modelled in Dafny

Cloakwork is a header-only C++ obfuscation library (`cloakwork.h`). This
project models the parts of it that are sequential, bit-exact transforms.
It then proves what the library relies on: the two hash families agree,
ciphers round-trip, containers give back what was stored, dispatchers stop,
and the export walk and the syscall scan return what they claim.

The modelled components are:

- **Name hashing and checksums** (`hashing.dfy`):
  - FNV-1a over bytes, wide characters, and case-folded or low-byte views, at compile time and at run time;
  - the sign-extending seed hash;
  - the twelve-byte vendor hashes;
  - the bitwise CRC-32.
- **Byte-level words** (`words.dfy`): little-endian loads and stores, C strings and wide C strings, and the wrapping 32-bit access counters.
- **XTEA** (`xtea.dfy`): the 32-cycle block cipher and the in-place buffer mode. Whole 8-byte blocks are enciphered and the tail is xored with key bytes.
- **Stack strings** (`stack_cipher.dfy`): the per-position xor of `encrypted_buf`, `decrypt_to_stack`, `zero_buf` and the leftmost-match `find_substr`.
- **Encrypted string containers** (`strings.dfy`): `encrypted_string`, `layered_encrypted_string` with its re-keying every tenth access, `stack_encrypted_string` and `encrypted_wstring`.
- **Mixed boolean-arithmetic** (`mba.dfy`): the `mba::*` identities at every width.
- **Obfuscated comparisons** (`comparison.dfy`).
- **Value containers** (`values.dfy`): `obfuscated_value`, `mba_obfuscated`, `encrypted_constant`, `runtime_constant` and the random-range macros.
- **Opaque booleans** (`bools.dfy`): `obfuscated_true`, `obfuscated_false`, `obfuscate_bool` and the three-byte `obfuscated_bool`.
- **Data hiding** (`data_hiding.dfy`): `scattered_value` chunking and `polymorphic_value` mutation.
- **Obfuscated calls** (`obf_call.dfy`): the XTEA-encrypted function pointer among decoys.
- **Control-flow flattening** (`flatten.dfy`):
  - the case-value derivations;
  - an interpreter for the `CW_FLAT_*` dispatcher, with its six dead blocks, sentinel, default case and 16384-iteration ceiling;
  - the fixed `CW_PROTECT` machine;
  - `flattened_flow::execute`.
- **Opaque predicates** (`opaque.dfy`): the eight `opaque_detail` predicates, their per-call-site pairing in `opaque_true<N>` and `opaque_false<N>`, and `indirect_branch`.
- **Import hiding** (`pe_exports.dfy`):
  - PE header validation and the export-table walk over a little-endian image (section 6.3 of the Microsoft PE/COFF specification);
  - the forwarder split and one level of forwarding;
  - module lookup by hashed name.
- **Syscall numbers** (`syscall.dfy`): `getSyscallNumber` over a partial byte map, including the "halo's gate" neighbour scan.
- **Integrity** (`integrity.dfy`): `computeHash`, `integrity_checked`, `detectHook`, `verifyFunctions`, `has_breakpoints` and the probe order of `comprehensive_check`. `detectHook` and `verifyFunctions` take the target `Platform` from `opaque.dfy`, because their tests are compiled only under `_WIN32`.

Fixed-width C++ arithmetic is written with Dafny bit-vectors (`bv8` to
`bv64`). Where a result is stated for every width it is written as `nat`
values below `2^w`, with the wrap written out. Every compile-time template
key and every `CW_RANDOM_RT()` draw is an ordinary parameter. Where the code
reads a stack address, a time-stamp counter, a thread id or a return
address, that value is a parameter too.

Where the code reads memory under `__try`, an unreadable byte is part of the
model. In the export walk it is an image too short for the read. In the
syscall scan it is an address missing from the byte map. Either way it
leads to the same null result or error value as the `__except` handler.

## Model

| member | source | states |
|---|---|---|
| Hashing.HashCt | cloakwork.h:1084-1091 | the compile-time hash of the first `len` bytes is the FNV-1a hash of exactly those bytes |
| Hashing.HashWideCt | cloakwork.h:1098-1112 | the wide compile-time hash is FNV-1a of each character's low byte followed by its high byte |
| Hashing.HashCiCt | cloakwork.h:1172-1186 | the case-insensitive compile-time hash is FNV-1a of the bytes with only A-Z lowered |
| Hashing.HashRuntime | cloakwork.h:1114-1121 | the run-time hash of a terminated string is FNV-1a of its characters before the first NUL |
| Hashing.HashRuntimeWide | cloakwork.h:1123-1133 | the run-time wide hash is FNV-1a of the byte image of the wide C string |
| Hashing.HashRuntimeCi | cloakwork.h:1135-1144 | the run-time case-insensitive hash is FNV-1a of the C string with A-Z lowered |
| Hashing.HashRuntimeCiWide | cloakwork.h:1146-1157 | the wide case-insensitive hash folds A-Z and then hashes both bytes of each character |
| Hashing.HashRuntimeCiW2a | cloakwork.h:1160-1170 | the loader-name hash folds A-Z on the wide characters and hashes only their low bytes |
| Hashing.FoldAppend | cloakwork.h:1084-1091 | hashing is incremental: the hash of a + b continues from the hash of a |
| Hashing.LiteralHashesAgree | cloakwork.h:1084-1144 | for a NUL-free literal, the compile-time and run-time hashes agree, both plain and case-insensitive |
| Hashing.W2aAgreesWithNarrowFolding | cloakwork.h:1160-1186 | when every wide character is below 0x100, folding then taking low bytes equals taking low bytes then folding |
| Hashing.LoaderNameMatchesCiHash | cloakwork.h:1160-1186 | a loader name whose characters are below 0x100 hashes under `fnv1a_runtime_ci_w2a` to the `fnv1a_ci` hash of its low bytes, which is how `CW_HASH_CI` names match loaded modules |
| Hashing.W2aDisagreesAboveLatin1 | cloakwork.h:1160-1170 | above 0x100 the two foldings disagree (U+0141) |
| Hashing.SeedHash | cloakwork.h:889-897 | the seed hash is FNV-1a with each `char` sign-extended to 32 bits, over the literal without its terminator |
| Hashing.SeedHashAgreesOnAscii | cloakwork.h:889-897 | on bytes below 0x80 the seed hash is the ordinary FNV-1a hash |
| Hashing.SeedHashDiffersOnHighBytes | cloakwork.h:893 | a byte of 0x80 or more makes the seed hash differ from FNV-1a |
| Hashing.HashVendor12 | cloakwork.h:1332-1339 | the vendor hash is FNV-1a of exactly the first twelve bytes |
| Hashing.HashVendor12Ct | cloakwork.h:1342-1355 | the compile-time vendor hash is FNV-1a of at most twelve bytes of the literal, zero-padded to twelve |
| Hashing.VendorHashesAgree | cloakwork.h:1955-1972 | the compile-time hash of a vendor literal equals the run-time hash of a CPUID buffer exactly when the buffer's twelve bytes are the literal's first `min(len, 12)` bytes followed by zeros, and then the two FNV-1a hashes agree |
| Hashing.ComputeCrc32 | cloakwork.h:1358-1367 | the bytewise and bitwise loops compute the reflected CRC-32 of IEEE 802.3 (preset all ones, result complemented) |
| Hashing.AbsorbByte | cloakwork.h:1361-1364 | the eight-shift inner loop absorbs one byte into the register |
| Hashing.CrcRegAppend | cloakwork.h:1358-1367 | the CRC register can absorb a message in pieces |
| Hashing.Crc32CheckValue | cloakwork.h:1358-1367 | CRC-32 of the ASCII digits "123456789" is 0xCBF43926, the standard check value of the IEEE 802.3 CRC |
| Words.StoreLoad32 | cloakwork.h:2339-2357 | storing a loaded little-endian word writes back the same four bytes |
| Words.LoadStore32 | cloakwork.h:2339-2357 | loading a stored word gives the word back |
| Words.LoadStore64 | cloakwork.h:4301-4314 | a pointer's eight little-endian bytes load back as the same 64-bit address |
| Words.StoreLoad64 | cloakwork.h:4301-4314 | eight bytes loaded as an address and stored again are unchanged |
| Words.StrLen | cloakwork.h:1114-1121 | `strlen` is the index of the first NUL, with no NUL before it |
| Words.CStrOfLiteral | cloakwork.h:1114-1121 | a NUL-free string followed by its terminator reads back as itself |
| Words.WCStrOfLiteral | cloakwork.h:1123-1133 | the same for wide strings |
| Words.NextCount | cloakwork.h:2509 | a `uint32_t` counter's increment wraps to 0 exactly after 2^32 - 1 and is otherwise + 1 |
| Xtea.SumAfterAllRounds | cloakwork.h:2317-2333 | decryption's starting sum `DELTA * 32` is the sum encryption reaches after 32 cycles, and 32 decryption cycles bring it back to 0 |
| Xtea.RoundInverse | cloakwork.h:2317-2333 | one decryption cycle undoes one encryption cycle and the reverse |
| Xtea.CipherRoundTrip | cloakwork.h:2317-2333 | XTEA is a permutation: decryption undoes encryption and encryption undoes decryption, for every key |
| Xtea.EncryptBlock | cloakwork.h:2317-2324 | the 32-cycle loop computes the reference encipherment |
| Xtea.DecryptBlock | cloakwork.h:2326-2333 | the 32-cycle loop from `DELTA * ROUNDS` computes the reference decipherment |
| Xtea.TailMaskInvolution | cloakwork.h:2360-2365 | xoring the tail with byte i % 4 of key word i % 4 twice gives it back |
| Xtea.BufferModeSplit | cloakwork.h:2337-2366 | a buffer is enciphered block by block up to `(len / 8) * 8`, then tail-masked |
| Xtea.BufferRoundTrip | cloakwork.h:2337-2398 | `decrypt_buffer` undoes `encrypt_buffer`, and the reverse, for every length and key |
| Xtea.ShortBufferIsMasked | cloakwork.h:2360-2365 | a buffer shorter than a block is only xored with key bytes, the same in both directions |
| Xtea.BlockLoop | cloakwork.h:2338-2358 | the in-place block loop turns the whole-block prefix into its blockwise image and leaves the tail |
| Xtea.MaskTail | cloakwork.h:2361-2365 | the in-place tail loop masks exactly the bytes past the last whole block |
| Xtea.EncryptBuffer | cloakwork.h:2337-2366 | the array afterwards holds the encryption of its old contents |
| Xtea.DecryptBuffer | cloakwork.h:2368-2398 | the array afterwards holds the decryption of its old contents |
| StackCipher.KeyedInvolution | cloakwork.h:1196-1222 | the per-position xor is its own inverse |
| StackCipher.KeyedInjective | cloakwork.h:1196-1209 | two different strings never share an encryption under one key |
| StackCipher.EncryptedBuf | cloakwork.h:1196-1209 | the stored bytes are the literal, each xored with its position's key byte |
| StackCipher.DecryptToStack | cloakwork.h:1211-1222 | each output byte is the keyed input byte at that position |
| StackCipher.ZeroBuf | cloakwork.h:1224-1229 | every byte of the buffer becomes zero |
| StackCipher.StackStringRoundTrip | cloakwork.h:1196-1222 | a literal decrypted to the stack from its `encrypted_buf` is the literal |
| StackCipher.MatchRun | cloakwork.h:1236-1238 | the inner loop stops at the first mismatch or at the end of either string, and matched the run it skipped |
| StackCipher.FindSubstr | cloakwork.h:1232-1241 | null for a null haystack, 0 for a null or empty needle, otherwise the leftmost occurrence or null when there is none |
| Strings.EncryptedString.constructor | cloakwork.h:2413-2426 | a fresh container holds `encrypt_buffer(literal)` with `decrypted` false |
| Strings.EncryptedString.Get | cloakwork.h:2429-2441 | `get()` returns the plaintext buffer and sets the flag; a later call leaves the buffer untouched |
| Strings.EncryptedString.Destroy | cloakwork.h:2445-2454 | the destructor re-encrypts a decrypted buffer and clears the flag |
| Strings.RekeySchedule | cloakwork.h:2509-2510 | re-keying happens at pre-increment counts 10, 20, ..., never below 10 and never twice within ten accesses |
| Strings.LayeredEncryptedString.constructor | cloakwork.h:2491-2495 | encrypted under the compile-time key, which is also the current key |
| Strings.LayeredEncryptedString.GetAsWritten | cloakwork.h:2497-2522 | as written: a re-keying access leaves the old-key encryption decrypted under the new key |
| Strings.LayeredEncryptedString.Get | cloakwork.h:2497-2522 | a re-keying `get()` moves to the new key and still returns the plaintext |
| Strings.LayeredEncryptedString.Destroy | cloakwork.h:2526-2535 | the destructor re-encrypts under the current key and clears the flag |
| Strings.RekeyAsWrittenGarbles | cloakwork.h:2481-2487 | under the written re-key, a short string's first byte comes back xored with the entropy's low byte |
| Strings.EleventhAccessAsWritten | cloakwork.h:2509-2516 | eleven as-written accesses to a short string with nonzero entropy return something other than the string |
| Strings.CopyPrefix | cloakwork.h:2548-2552 | a fresh N-byte buffer whose first min(N, M) bytes are copied |
| Strings.StackEncryptedString.constructor | cloakwork.h:2548-2552 | the stack buffer holds the first min(N, M) plaintext bytes |
| Strings.StackEncryptedString.Destroy | cloakwork.h:2557-2563 | the destructor zeroes all N bytes |
| Strings.WideCharsOfBytes | cloakwork.h:2579-2600 | serialising 16-bit characters and reading them back gives the characters |
| Strings.WideRoundTrip | cloakwork.h:2579-2623 | the wide ciphertext decrypts to the characters, and the reverse |
| Strings.ToBytes | cloakwork.h:2583-2587 | byte 2i is the low byte and byte 2i + 1 the high byte of character i |
| Strings.FromBytes | cloakwork.h:2592-2596 | character i is `bytes[2i] | bytes[2i+1] << 8` |
| Strings.EncryptedWString.constructor | cloakwork.h:2579-2600 | a fresh wide container holds the wide ciphertext with `decrypted` false |
| Strings.EncryptedWString.Get | cloakwork.h:2602-2623 | `get()` returns the characters and sets the flag; a later call changes nothing |
| Strings.EncryptedWString.Destroy | cloakwork.h:2627-2645 | the destructor re-encrypts and clears the flag |
| Mba.AddXorAnd | cloakwork.h:2884-2887 | x + y == (x ^ y) + 2 (x & y) over the integers |
| Mba.SubXorAndNot | cloakwork.h:2889-2893 | x - y == (x ^ y) - 2 (~x & y) for w-bit operands |
| Mba.AndDeMorgan | cloakwork.h:2907-2911 | ~(~x \| ~y) == x & y |
| Mba.OrDeMorgan | cloakwork.h:2913-2917 | ~(~x & ~y) == x \| y |
| Mba.AddMba | cloakwork.h:2884-2887 | `add_mba` is wrapping addition at every width |
| Mba.SubMba | cloakwork.h:2890-2893 | `sub_mba` is wrapping subtraction at every width |
| Mba.AddSubCancel | cloakwork.h:2884-2893 | `sub_mba` undoes `add_mba` with the same operand, and the reverse |
| Mba.Mul2MbaAsWritten | cloakwork.h:2896-2899 | the written `(x ^ (x << 1)) + (x << 1)` stays within the width |
| Mba.Mul2MbaAsWrittenOnlyZero | cloakwork.h:2896-2899 | the written doubling equals 2x only for x == 0 |
| Mba.Mul2MbaAsWrittenOfOne | cloakwork.h:2898 | at 8 bits the written `mul2_mba(1)` is 5, not 2 |
| Mba.Mul2Mba | cloakwork.h:2895-2899 | the corrected doubling is 2x modulo 2^w |
| Mba.NegMba | cloakwork.h:2902-2905 | `neg_mba` is wrapping negation |
| Mba.AndMba | cloakwork.h:2908-2911 | `and_mba` is bitwise and |
| Mba.OrMba | cloakwork.h:2914-2917 | `or_mba` is bitwise or |
| Comparison.Equals | cloakwork.h:5224-5236 | `obfuscated_equals` holds exactly when the operands are equal |
| Comparison.NotEquals | cloakwork.h:5238-5247 | `obfuscated_not_equals` holds exactly when they differ |
| Comparison.LessMeaning | cloakwork.h:5249-5263 | unsigned `obfuscated_less` is <; signed, it agrees with < exactly when a - b does not overflow |
| Comparison.DerivedMeaning | cloakwork.h:5265-5278 | greater, less-equal and greater-equal are <, >, <= and >= under the same no-overflow condition |
| Comparison.LessOverflowExample | cloakwork.h:5253-5255 | for `int8_t`, -128 < 1 but the test says no |
| Comparison.Widen | cloakwork.h:5249-5255 | sign extension keeps the signed value |
| Comparison.LessWidened | cloakwork.h:5249-5255 | subtracting in a wider type gives exactly signed < |
| Values.RandRange | cloakwork.h:1066 | `min + r % (max - min + 1)` lies in [min, max] |
| Values.RandRangeCovers | cloakwork.h:1066-1070 | every value of the range is drawn by some random word |
| Values.LowByteIsMask | cloakwork.h:2956-2974 | the residue modulo 256 is `x & 0xFF` |
| Values.ValueRoundTrip | cloakwork.h:2956-3000 | `get` decoding undoes `set` encoding, and the reverse, for every pair of keys |
| Values.ObfuscatedValue.constructor | cloakwork.h:2944-2954 | the keys are truncated random words and the stored word is the encoding of the value |
| Values.ObfuscatedValue.Set | cloakwork.h:2956-2974 | the stored word is the encoding of the new value under the same keys |
| Values.ObfuscatedValue.Get | cloakwork.h:2976-3000 | `get` returns the decoding, counts the access in a wrapping counter, and checks on every 1000th |
| Values.MbaRoundTrip | cloakwork.h:3026-3041 | the MBA encoding `add_mba(v, key1) ^ key2` is undone by `sub_mba(e ^ key2, key1)`, and the reverse |
| Values.MbaObfuscated.constructor | cloakwork.h:3014-3024 | the container holds the encoded value under truncated random keys |
| Values.MbaObfuscated.Set | cloakwork.h:3026-3032 | `set` stores the encoding of the new value |
| Values.MbaObfuscated.Get | cloakwork.h:3034-3041 | `get` returns the value last stored |
| Values.ConstantKey | cloakwork.h:5298 | the default key lies in [1, 255] |
| Values.StoredEncrypted | cloakwork.h:5303 | a nonzero key always changes the stored bits |
| Values.ConstantRoundTrip | cloakwork.h:5298-5317 | `encrypted_constant::get` returns the constant |
| Values.MakeRuntimeConstant | cloakwork.h:5327-5334 | the stored word equals the value only when the random key is zero |
| Values.RuntimeConstantRoundTrip | cloakwork.h:5320-5347 | `runtime_constant::get` returns the value it was built with |
| Bools.ObfuscatedTrue | cloakwork.h:3052-3091 | the stack-hash, complement and dual-path probes always give true |
| Bools.ObfuscatedFalse | cloakwork.h:3093-3096 | always false |
| Bools.ObfuscateBool | cloakwork.h:3098-3117 | the result equals the input value |
| Bools.Decode | cloakwork.h:3150-3163 | decoding says true exactly when the tertiary byte is the one a true encoding of the primary byte carries |
| Bools.DecodeTrue | cloakwork.h:3137-3141 | `encode(true)` decodes as true for every key and noise |
| Bools.DecodeFalse | cloakwork.h:3142-3157 | `encode(false)` decodes as true exactly when (~p ^ Key1) + (~p ^ Key2) wraps to 0, p being the stored primary byte |
| Bools.FalseDecodesTrueWhen | cloakwork.h:3144-3156 | with Key1 == Key2 and primary byte ~Key1, a stored false reads back as true |
| Bools.FalseDecodesTrue | cloakwork.h:3144-3156 | valid keys (all nonzero) and zero noise exist for which a stored false reads back as true |
| Bools.DecodeEncodeFixed | cloakwork.h:3134-3163 | with the false branch storing the complement of the expected byte, decoding returns the encoded value for every key and noise |
| Bools.DecodeComplement | cloakwork.h:3156-3157 | a tertiary byte that complements the expected one never decodes as true |
| Bools.ObfuscatedBool.constructor | cloakwork.h:3166-3167 | the three bytes are the encoding of the initial value |
| Bools.ObfuscatedBool.Set | cloakwork.h:3180-3182 | the bytes are the encoding of the new value under fresh noise |
| Bools.ObfuscatedBool.Get | cloakwork.h:3169-3178 | `get` returns the decoding, counts the access in a wrapping counter, and checks on every 500th |
| DataHiding.ChunkSizesSum | cloakwork.h:4381-4397 | the chunk sizes add up to sizeof(T) |
| DataHiding.ChunkSizeBounds | cloakwork.h:4381-4397 | chunk sizes are sizeof(T) / Chunks or one more, and none is empty when sizeof(T) >= Chunks |
| DataHiding.GatherPrefix | cloakwork.h:4381-4422 | reassembling the first m chunks gives the first `Offset(m)` bytes |
| DataHiding.ScatterRoundTrip | cloakwork.h:4381-4422 | `get()` after `scatter_data(v)` returns v, whatever the keys |
| DataHiding.KeyBytes | cloakwork.h:4389-4393 | the copy loop stores the chunk's slice xored with its key and advances the byte index by its size |
| DataHiding.UnkeyBytes | cloakwork.h:4412-4419 | the gather loop appends the chunk's bytes xored with its key |
| DataHiding.ScatteredValue.constructor | cloakwork.h:4400-4407 | the chunks are the scatter of the value under the drawn keys |
| DataHiding.ScatteredValue.ScatterData | cloakwork.h:4381-4397 | chunk i gets its slice of the value, keyed |
| DataHiding.ScatteredValue.Get | cloakwork.h:4409-4422 | `get` returns the reassembled sizeof(T) bytes |
| DataHiding.ScatteredValue.Set | cloakwork.h:4426-4429 | `set` re-scatters the new value under fresh keys |
| DataHiding.RotrRotl | cloakwork.h:4472-4478 | rotating right by one undoes rotating left by one |
| DataHiding.TransformAsWrittenPreserves | cloakwork.h:4439-4490 | every transform but transform 0 on a 2-byte type leaves the value unchanged |
| DataHiding.TransformZeroComplements16 | cloakwork.h:4464-4467 | transform 0 on a 2-byte type stores ~v, never v |
| DataHiding.TransformPreserves | cloakwork.h:4439-4490 | with the 2-byte branch complementing twice, every transform leaves the value unchanged |
| DataHiding.PolymorphicValue.constructor | cloakwork.h:4493-4494 | the value is stored and no mutation has happened |
| DataHiding.PolymorphicValue.Mutate | cloakwork.h:4439-4490 | counts the mutation (wrapping) and applies the transform selected on every hundredth |
| DataHiding.PolymorphicValue.Get | cloakwork.h:4496-4499 | `get` mutates, then returns the stored value, unchanged except for 2-byte types |
| DataHiding.PolymorphicValue.Set | cloakwork.h:4501-4504 | `set` stores, then mutates; the stored value is unchanged except for 2-byte types |
| ObfCall.DecoyCount | cloakwork.h:4325 | the decoy count lies in [4, 16] |
| ObfCall.DecoyCountCovers | cloakwork.h:4325 | every count from 4 to 16 is drawn by some random word |
| ObfCall.AddrRoundTrip | cloakwork.h:4301-4314 | `decrypt_ptr` undoes `encrypt_ptr` for every key |
| ObfCall.ObfuscatedCall.EncryptPtr | cloakwork.h:4301-4305 | the buffer holds the XTEA encryption of the address's eight bytes |
| ObfCall.ObfuscatedCall.FillDecoys | cloakwork.h:4326-4328 | the first `count` slots hold the random draws |
| ObfCall.ObfuscatedCall.constructor | cloakwork.h:4317-4334 | the decoy count is in [4, 16], the real index is below it, the other slots hold draws, and the real slot holds the encrypted address |
| ObfCall.ObfuscatedCall.DecryptPtr | cloakwork.h:4307-4314 | decrypting gives back the target address |
| ObfCall.ObfuscatedCall.Call | cloakwork.h:4336-4345 | the call goes to the target; the shared count wraps and checks every 100th call |
| Flatten.DeriveState | cloakwork.h:3686-3694 | every block case value is odd |
| Flatten.DeriveDead | cloakwork.h:3697-3705 | every dead-block case value is odd |
| Flatten.DeadNext | cloakwork.h:3775-3822 | dead blocks lead only to dead blocks: 0 to 1 to 2 to 3 to 4 or 0, 4 to 5 to 0 |
| Flatten.SeedLabelsOdd | cloakwork.h:3726-3731 | all case values derived from a seed are odd |
| Flatten.BlockIndex | cloakwork.h:3828-3831 | the dispatcher picks the first block whose case value is the state, and no earlier block matches |
| Flatten.SwitchTarget | cloakwork.h:3902-3936 | a `CW_FLAT_SWITCHn` goes to the block of a matching arm or to the default block |
| Flatten.RunStops | cloakwork.h:3767-3963 | the loop ends only with `run` cleared or the count at 16384 |
| Flatten.DefaultStops | cloakwork.h:3939-3945 | a state matching no case ends the loop at once and changes nothing else |
| Flatten.DeadAbsorbing | cloakwork.h:3774-3822 | once in a dead block the loop cycles to the ceiling with the shared variables and result unchanged |
| Flatten.SentinelSpins | cloakwork.h:3823-3831 | the sentinel case breaks without a transition, so the loop spins to the ceiling |
| Flatten.ReturnStops | cloakwork.h:3883-3888 | a `CW_FLAT_RETURN` block stores its value and ends the loop |
| Flatten.ObfuscatedMiss | cloakwork.h:3842-3880 | when the opaque predicate of an obfuscated jump fails, the loop runs to the ceiling and the result is never set again |
| Flatten.RunBlock | cloakwork.h:3828-3936 | running a block's code and transition performs one `Transit` step |
| Flatten.Execute | cloakwork.h:3735-3963 | the dispatcher returns the result of the interpreted run |
| Flatten.GuardNeverHolds | cloakwork.h:4062-4063 | `(op * (op - 1)) & 1` is always 0, so state 1 always moves on to state 2 |
| Flatten.ProtectStepInv | cloakwork.h:4000-4098 | each iteration preserves the invariant: the body ran at most once and the result is its value or the default |
| Flatten.ProtectAtMostOnce | cloakwork.h:3990-4100 | `CW_PROTECT` runs the body at most once and returns its result if it ran, the default otherwise |
| Flatten.ProtectOnce | cloakwork.h:3990-4100 | when both opaque predicates hold, the body runs exactly once and its result is returned |
| Flatten.Protect | cloakwork.h:3990-4100 | the loop computes the `CW_PROTECT` machine's result |
| Flatten.FlowStops | cloakwork.h:3543-3611 | `flattened_flow::execute` always ends with the count at 64 |
| Flatten.FlowAtMostOnce | cloakwork.h:3534-3614 | `func` is called at most once, and the result is its value if it was called, else the default |
| Flatten.FlowOnce | cloakwork.h:3534-3614 | when both opaque predicates hold, S0 to S4 run in order and `func`'s value is returned |
| Flatten.ExecuteFlow | cloakwork.h:3534-3614 | the loop computes the state machine's result |
| Opaque.StackHashTrue | cloakwork.h:3279-3296 | h + ~h is all ones for every stack address and seed |
| Opaque.TscStackTrue | cloakwork.h:3301-3324 | m \| ~m is all ones for every counter and stack address |
| Opaque.TidTransformTrue | cloakwork.h:3329-3358 | true for every thread id; the loop applies the Collatz-like step three times |
| Opaque.MacEntropyTrue | cloakwork.h:3363-3379 | a mixed word minus itself is zero |
| Opaque.DualPathTrue | cloakwork.h:3384-3403 | the two identical paths agree |
| Opaque.RetAddrTrue | cloakwork.h:3407-3422 | the return address xored with itself is zero |
| Opaque.ModuleHashTrue | cloakwork.h:3425-3451 | any hash masked with zero is zero |
| Opaque.TscDeltaForward | cloakwork.h:3456-3474 | readings that do not go backwards, the later one below the bound, satisfy `tsc_delta_true` |
| Opaque.TscDeltaBackward | cloakwork.h:3456-3474 | on Windows, a later reading that lags by at most 2^32 fails `tsc_delta_true` |
| Opaque.CppRem | cloakwork.h:3485-3486 | C++ `%` keeps the dividend's sign, so the selectors of a negative N fall outside 0..7 |
| Opaque.Predicate | cloakwork.h:3489-3506 | a selector's predicate fails only when it selects predicate 7 and the readings fail it |
| Opaque.OpaqueTrue | cloakwork.h:3480-3510 | `opaque_true<N>` is the primary predicate and then the secondary one |
| Opaque.OpaqueFalse | cloakwork.h:3513-3516 | `opaque_false<N>` is its negation |
| Opaque.OpaqueTrueHolds | cloakwork.h:3480-3510 | for N in 0..7, `opaque_true<N>` always holds except N = 2 and N = 7, which depend on `tsc_delta_true`; off Windows it always holds |
| Opaque.OpaqueTrueCanFail | cloakwork.h:3456-3510 | `opaque_true<7>` is false on Windows when the counter goes backwards |
| Opaque.IndirectBranch | cloakwork.h:3618-3643 | every one of the five rewrites returns the value |
| PeExports.Signed32 | cloakwork.h:4709 | `e_lfanew` read as a `LONG` is non-negative exactly below 2^31 |
| PeExports.ValidatePeHeader | cloakwork.h:4704-4725 | accepted headers carry the DOS magic, an `e_lfanew` in (0, 0x1000) at which the NT signature sits, and a size in [1, 0x7FFFFFFF] |
| PeExports.HeaderAccepted | cloakwork.h:4704-4725 | conversely, every such image is accepted with that offset and size |
| PeExports.RvaInBounds | cloakwork.h:4728-4731 | holds iff rva < image size and rva + size <= image size, without wrap |
| PeExports.Narrow32 | cloakwork.h:4944-4952 | a size below 2^32 passes unchanged, and a larger one shrinks |
| PeExports.TableFitsCovers | cloakwork.h:4954-4956 | every entry of a table that fits lies inside the image |
| PeExports.NarrowedNamesCheckWraps | cloakwork.h:4944-4946 | 0x40000000 names pass the narrowed check although they do not fit |
| PeExports.NarrowedOrdinalsCheckWraps | cloakwork.h:4947-4949 | 0x80000000 ordinals pass the narrowed check although they do not fit |
| PeExports.NarrowedCheckAgreesBelowWrap | cloakwork.h:4944-4952 | below the wrap, the narrowed and exact checks agree |
| PeExports.InDirectory | cloakwork.h:4974-4978 | the forwarder test is rva in [dir, dir + size), in 64 bits |
| PeExports.Prepare | cloakwork.h:4924-4956 | a walk that gets past its checks has a valid header, a non-empty directory in bounds, and its three tables in bounds |
| PeExports.Resolve | cloakwork.h:4966-4988 | the ordinal is below `NumberOfFunctions`; a forwarder is handed on only when the RVA lies in the directory; the corrected walk also keeps an address inside the image |
| PeExports.ResolveEscapesImage | cloakwork.h:4971-4988 | as written, a function RVA past the image is returned as an address; the corrected walk gives null |
| PeExports.ScanFindsFirstHit | cloakwork.h:4958-4990 | when names before k are skipped and name k matches, the scan resolves name k |
| PeExports.ScanOnlyFromHit | cloakwork.h:4958-4990 | every non-null result comes from the first matching name |
| PeExports.WalkFound | cloakwork.h:4924-4993 | a successful walk passed every check and resolved the first matching name |
| PeExports.WalkInImage | cloakwork.h:4924-4993 | the corrected walk's address lies inside the image |
| PeExports.WalkFindsFirstHit | cloakwork.h:4924-4993 | once the checks pass, the first matching name decides the walk |
| PeExports.CheckName | cloakwork.h:4959-4966 | one loop round skips a name RVA outside the image and otherwise compares the run-time hash |
| PeExports.WalkExportTable | cloakwork.h:4924-4993 | the index loop computes the walk |
| PeExports.ScanNames | cloakwork.h:4958-4990 | the loop computes the first-hit scan |
| PeExports.FindModule | cloakwork.h:4907-4915 | a found entry's name hashes to the wanted hash |
| PeExports.FindModuleFirstMatch | cloakwork.h:4907-4915 | the lookup returns k iff entry k matches and every earlier entry is unnamed or named otherwise |
| PeExports.GetModuleBase | cloakwork.h:4895-4921 | the list loop computes the first-match lookup |
| PeExports.DotOrEnd | cloakwork.h:4736-4738 | the scan stops at the first dot or the terminator |
| PeExports.SplitForwarder | cloakwork.h:4734-4754 | a split module name plus ".dll" and its NUL fits the 256-byte buffer |
| PeExports.SplitForwarderString | cloakwork.h:4734-4754 | the dot search and the copy compute the split |
| PeExports.SplitJoin | cloakwork.h:4734-4754 | splitting "Module.Function" gives back "Module.dll" and "Function" |
| PeExports.ForwardTarget | cloakwork.h:4757-4785 | a forwarder names a loaded module index |
| PeExports.ResolveIn | cloakwork.h:4788-4819 | the inlined walk over the target gives `DllBase + func_rva`, or null |
| PeExports.GetProcAddress | cloakwork.h:4995-5011 | a null module gives null |
| PeExports.OffsetWithin | cloakwork.h:4988 | base + off in 64-bit arithmetic lies within size of base when off < size |
| PeExports.ResolveInImage | cloakwork.h:4788-4819 | the corrected inlined walk lands inside the target image |
| PeExports.ForwardedInImage | cloakwork.h:4734-4819 | a forwarder resolved by the corrected walk lands inside some loaded module's image |
| PeExports.CorrectedAddressInImage | cloakwork.h:4924-5011 | with the corrections, every address returned lies inside a mapped image: the module's own, or the one its forwarder names |
| Syscall.MatchFromHolds | cloakwork.h:5057 | the short-circuit byte comparison succeeds exactly when the pattern is there |
| Syscall.ReadStub | cloakwork.h:5057-5058 | a stub is reported exactly when `4C 8B D1 B8 imm32` sits at the address, with that number |
| Syscall.Up | cloakwork.h:5073-5077 | a number found above is a clean neighbour's plus the offset: wrapped as written, exact when corrected |
| Syscall.Down | cloakwork.h:5081-5087 | a number found below is a clean neighbour's minus the offset, never negative |
| Syscall.SyscallNumber | cloakwork.h:5046-5103 | the result is `SYSCALL_ERROR` or a number below 0x2000 |
| Syscall.StandardFirst | cloakwork.h:5057-5060 | a clean stub with a plausible number decides the result |
| Syscall.HaloFound | cloakwork.h:5071-5089 | a scan that answers answered at some neighbour, every nearer one giving nothing |
| Syscall.HaloNearest | cloakwork.h:5071-5089 | the nearest neighbour that answers decides the scan |
| Syscall.CorrectedNumberSound | cloakwork.h:5046-5103 | every number the corrected routine returns is read from a clean stub: its own, one k above plus k, one k below minus k, or a legacy `B8` stub |
| Syscall.NearestNeighbourDecides | cloakwork.h:5065-5089 | for a hooked stub, the nearest answering neighbour decides the result |
| Syscall.UpDiffersOnlyOnWrap | cloakwork.h:5076 | the written and corrected upward probes differ only when the sum passes 2^32 |
| Syscall.UpwardNeighbourWraps | cloakwork.h:5073-5077 | a neighbour numbered 0xFFFFFFFF one stub above a hooked stub yields 0 as written; the corrected scan rejects it |
| Syscall.GetSyscallNumber | cloakwork.h:5046-5103 | the loop computes the routine's result |
| Integrity.ComputeHash | cloakwork.h:5516-5526 | the loop computes FNV-1a of the first `size` bytes |
| Integrity.IntegrityChecked.constructor | cloakwork.h:5537-5540 | the code it was built from is intact |
| Integrity.IntegrityChecked.Verify | cloakwork.h:5559-5563 | `verify()` holds exactly when the code's hash still matches |
| Integrity.IntegrityChecked.Call | cloakwork.h:5542-5557 | the count wraps; tampering is reported exactly on a hundredth call whose code no longer matches |
| Integrity.UnpatchedNeverTampered | cloakwork.h:5542-5563 | code whose checked bytes are unchanged is always intact |
| Integrity.DetectHookMatchesPatterns | cloakwork.h:5566-5586 | on a `_WIN32` build `detectHook` reports exactly code that begins with one of the five hook patterns; on any other build it always returns false |
| Integrity.VerifyFunctions | cloakwork.h:5588-5591 | the fold holds exactly when no function's prologue is hooked; off `_WIN32` it always holds |
| Integrity.HasBreakpoints | cloakwork.h:1491-1497 | true exactly when one of the first `size` bytes is `int3` |
| Integrity.CheckFromDetects | cloakwork.h:1889-1923 | from a probe on, the check holds iff a later probe detects and no outer probe before it raised |
| Integrity.ComprehensiveCheckDetects | cloakwork.h:1889-1923 | `comprehensive_check` is true iff some probe detects and none of the first three raised before it |

## Left out

- OS-reading detection probes are not modelled: PEB flags, debug registers, CPUID, registry, windows, snapshots, `VirtualQuery` and kernel-debugger queries. `comprehensive_check` takes their answers as inputs.
- Timing checks depend on hardware clocks and floating-point ratios. Time-stamp readings appear only as parameters of the opaque predicates.
- Entropy sources and seeds are not modelled. Every random draw and compile-time key is a parameter.
- Locks, atomics and double-checked locking are left out. The containers are modelled sequentially.
- The following are left out because they generate or patch code: executable thunks, `invokeSyscall`, `spoofed_call`, gadget scanners, `pe_erase` and `iat_scrub`.
- Anti-debug responses (`__debugbreak`, the deliberate crash, `CW_INLINE_CHECK`) become a `tampered` or `check` flag.
- Floating-point paths are left out: the float branch of `obfuscated_value`, transform 2 on floats, and the float junk of `flattened_flow`.
- Kernel-mode code paths are not modelled: `MmIsAddressValid`, `PsLoadedModuleList` and the ntoskrnl name list. `getModuleBase` is the user-mode loader-list walk.
- Export-table reads are modelled in two ways:
  - a read past the mapped image is an access violation, which the `__try` around the walk turns into null;
  - a partially readable export directory is treated the same way.
- The PEB itself is not read. The loader list is given as a sequence of entries, and a null name buffer is an empty name.
- `getCachedImport` and `getCachedSyscallNumber` only cache results and are not modelled.
- Syscall.SyscallNumber: the `func` parameter is what `getProcAddress` returned. A missing ntdll and a missing export both arrive as 0.
- Syscall.GetSyscallNumber: memory is a partial byte map; the exception handler is the same as an unmapped read.
- Integrity.IntegrityChecked.Call: the wrapped function call itself is not modelled. The code's current bytes are a parameter of each check.
- Integrity.VerifyFunctions: function prologues are given as byte sequences, not as addresses.
- ObfCall.ObfuscatedCall.Call: the static `call_count` shared by all instances is passed in and returned.
- Bools.ObfuscatedTrue: only the machine values it reads are parameters. The `volatile` barriers are not modelled.
- DataHiding.PolymorphicValue.Mutate: transform 2 on signed types wraps modulo 2^w. Signed overflow in C++ is undefined, and the model takes the two's-complement result.
- Addresses are numbers below 2^64 with wrapping arithmetic. Pointer provenance is not modelled.
- Flatten.Execute: user block bodies, conditions and switch selectors are functions of an abstract environment. Each `opaque_true<>()` outcome is an oracle indexed by the loop count.
- Xtea.BlockLoop: the loop applies the `Encipher` reference function to each chunk. `EncryptBlock` is proved equal to that function separately.

## Findings

| source | as written | input that shows it | evidently intended | confidence | as-written member | corrected member |
|---|---|---|---|---|---|---|
| cloakwork.h:2514-2516 | a re-keying `get()` encrypts under the old key, re-keys, then decrypts under the new key | any string shorter than 8 bytes, on the eleventh access, with entropy whose low byte is nonzero | decrypt under the old key's encryption undone, so the plaintext is unchanged | not executed | Strings.LayeredEncryptedString.GetAsWritten, Strings.RekeyAsWrittenGarbles, Strings.EleventhAccessAsWritten | Strings.LayeredEncryptedString.Get |
| cloakwork.h:2898 | `mul2_mba(x) = (x ^ (x << 1)) + (x << 1)` | x = 1 at 8 bits gives 5 | 2x modulo 2^w | not executed | Mba.Mul2MbaAsWritten, Mba.Mul2MbaAsWrittenOfOne, Mba.Mul2MbaAsWrittenOnlyZero | Mba.Mul2Mba |
| cloakwork.h:5253-5255 | signed `obfuscated_less` tests the sign of the wrapped difference | `int8_t` a = -128, b = 1 gives false | a < b | not executed | Comparison.LessOverflowExample, Comparison.LessMeaning | Comparison.LessWidened |
| cloakwork.h:3144-3146 | `encode(false)` stores `(p - s) ^ VERIFY_MASK`, which `decode` (line 3156) can mistake for true | Key1 = Key2 = k, Key3 chosen so that FALSE_PATTERN = ~k, zero noise | a false value always decodes as false | not executed | Bools.FalseDecodesTrue, Bools.FalseDecodesTrueWhen | Bools.DecodeEncodeFixed |
| cloakwork.h:4464-4467 | transform 0 complements a 2-byte value once | any 16-bit value v becomes ~v on the hundredth mutation | complement twice, as for 4- and 8-byte types, leaving v | not executed | DataHiding.TransformZeroComplements16 | DataHiding.TransformPreserves |
| cloakwork.h:4944-4952 | table sizes `NumberOfNames * sizeof(...)` are narrowed to 32 bits | NumberOfNames = 0x40000000 passes as size 0 | check the full table size | not executed | PeExports.NarrowedNamesCheckWraps, PeExports.NarrowedOrdinalsCheckWraps | PeExports.TableFitsCovers |
| cloakwork.h:4971 | `func_rva` is never bounded before `base + func_rva` (line 4988) | a matched export whose function entry is past `SizeOfImage` and outside the directory | return null for an RVA outside the image | not executed | PeExports.ResolveEscapesImage | PeExports.CorrectedAddressInImage |
| cloakwork.h:5076 | the upward halo's-gate number `neighbor_num + offset` can wrap | a hooked stub at 0x1000 with a clean stub numbered 0xFFFFFFFF 32 bytes above gives 0 | reject a sum that passes 2^32, as the downward branch does (line 5084) | not executed | Syscall.UpwardNeighbourWraps | Syscall.CorrectedNumberSound |
