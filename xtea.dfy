/**
 * The XTEA block cipher of `cloakwork::xtea` (64-bit blocks, 128-bit keys,
 * 32 cycles) and its buffer mode: whole 8-byte blocks are enciphered in
 * place, little-endian, and the bytes after the last whole block are xored
 * with key bytes.
 *
 * The reference definitions are functions over values; the library's
 * routines are methods proved against them, and the round trips
 * (decrypt after encrypt and encrypt after decrypt) are proved about the
 * functions.
 */
module Xtea {
  import opened Words

  const DELTA: bv32 := 0x9E37_79B9
  const ROUNDS: nat := 32

  /** `key128`: the four 32-bit key words `k[0..4]`. */
  type Key128 = k: seq<bv32> | |k| == 4 witness [0, 0, 0, 0]

  /** `key.k[j]` for an index that the callers mask with `& 3`. */
  function Word(key: Key128, j: bv32): bv32
    requires j < 4
  {
    key[j]
  }

  /** The pair `(v0, v1)` a block is loaded into. */
  datatype Block = Block(v0: bv32, v1: bv32)

  /** The mixing function `((v << 4) ^ (v >> 5)) + v`. */
  function Mix(v: bv32): bv32 {
    ((v << 4) ^ (v >> 5)) + v
  }

  /**
   * `uint32_t` addition and subtraction, wrapping modulo 2^32. They are named
   * so that a proof can cancel an addition against the subtraction that
   * undoes it, which the solver does not do on its own for 32-bit words.
   */
  function WrapAdd(x: bv32, y: bv32): bv32 {
    x + y
  }

  function WrapSub(x: bv32, y: bv32): bv32 {
    x - y
  }

  lemma SubUndoesAdd(a: bv32, h: bv32)
    ensures WrapSub(WrapAdd(a, h), h) == a
  {
    assert WrapAdd(a, h) == a + h;
    assert WrapSub(a + h, h) == a;
  }

  lemma AddUndoesSub(a: bv32, h: bv32)
    ensures WrapAdd(WrapSub(a, h), h) == a
  {
    assert WrapSub(a, h) == a - h;
    assert WrapAdd(a - h, h) == a;
  }

  /** The value of `sum` after `n` cycles of the encryption loop entered with `sum == s`. */
  function Advance(s: bv32, n: nat): bv32 {
    if n == 0 then s else WrapAdd(Advance(s, n - 1), DELTA)
  }

  /** The value of `sum` after `n` cycles of the decryption loop entered with `sum == s`. */
  function Retreat(s: bv32, n: nat): bv32 {
    if n == 0 then s else WrapSub(Retreat(s, n - 1), DELTA)
  }

  /** Advancing from `s + DELTA` is advancing one cycle further from `s`. */
  lemma {:induction false} AdvanceShift(s: bv32, n: nat)
    ensures Advance(WrapAdd(s, DELTA), n) == Advance(s, n + 1)
  {
    if n > 0 {
      AdvanceShift(s, n - 1);
    }
  }

  /** Retreating from `s - DELTA` is retreating one cycle further from `s`. */
  lemma {:induction false} RetreatShift(s: bv32, n: nat)
    ensures Retreat(WrapSub(s, DELTA), n) == Retreat(s, n + 1)
  {
    if n > 0 {
      RetreatShift(s, n - 1);
    }
  }

  /**
   * Decryption's starting sum, written `DELTA * ROUNDS` in the library, is the
   * sum encryption reaches after 32 cycles, and 32 decryption cycles bring it
   * back to 0.
   */
  lemma SumAfterAllRounds()
    ensures Advance(0, ROUNDS) == 0xC6EF_3720 == DELTA * 32
    ensures Retreat(DELTA * 32, ROUNDS) == 0
  {
    assert Advance(0, 4) == 0x78DDE6E4;
    assert Advance(0, 8) == 0xF1BBCDC8;
    assert Advance(0, 12) == 0x6A99B4AC;
    assert Advance(0, 16) == 0xE3779B90;
    assert Advance(0, 20) == 0x5C558274;
    assert Advance(0, 24) == 0xD5336958;
    assert Advance(0, 28) == 0x4E11503C;
    assert Retreat(0xC6EF_3720, 4) == 0x4E11503C;
    assert Retreat(0xC6EF_3720, 8) == 0xD5336958;
    assert Retreat(0xC6EF_3720, 12) == 0x5C558274;
    assert Retreat(0xC6EF_3720, 16) == 0xE3779B90;
    assert Retreat(0xC6EF_3720, 20) == 0x6A99B4AC;
    assert Retreat(0xC6EF_3720, 24) == 0xF1BBCDC8;
    assert Retreat(0xC6EF_3720, 28) == 0x78DDE6E4;
  }

  /** The key word the first half of a cycle adds to `sum`: `key.k[sum & 3]`. */
  function KeyLo(s: bv32, key: Key128): bv32 {
    s + Word(key, s & 3)
  }

  /** The key word the second half adds: `key.k[(sum >> 11) & 3]`. */
  function KeyHi(s: bv32, key: Key128): bv32 {
    s + Word(key, (s >> 11) & 3)
  }

  /** What the first half of a cycle adds to `v0`: `((v1 << 4) ^ (v1 >> 5)) + v1) ^ (sum + key.k[sum & 3])`. */
  function HalfLo(v: bv32, s: bv32, key: Key128): bv32 {
    Mix(v) ^ KeyLo(s, key)
  }

  /** What the second half adds to `v1`, with the advanced `sum`. */
  function HalfHi(v: bv32, s: bv32, key: Key128): bv32 {
    Mix(v) ^ KeyHi(s, key)
  }

  /** One encryption cycle entered with `sum == s`. */
  function EncRound(b: Block, s: bv32, key: Key128): Block {
    var v0 := WrapAdd(b.v0, HalfLo(b.v1, s, key));
    var v1 := WrapAdd(b.v1, HalfHi(v0, WrapAdd(s, DELTA), key));
    Block(v0, v1)
  }

  /** One decryption cycle entered with `sum == s`. */
  function DecRound(b: Block, s: bv32, key: Key128): Block {
    var v1 := WrapSub(b.v1, HalfHi(b.v0, s, key));
    var v0 := WrapSub(b.v0, HalfLo(v1, WrapSub(s, DELTA), key));
    Block(v0, v1)
  }

  /** A decryption cycle entered with the sum an encryption cycle left undoes it, and the converse. */
  lemma RoundInverse(b: Block, s: bv32, key: Key128)
    ensures DecRound(EncRound(b, s, key), WrapAdd(s, DELTA), key) == b
    ensures EncRound(DecRound(b, WrapAdd(s, DELTA), key), s, key) == b
  {
    var s' := WrapAdd(s, DELTA);
    SubUndoesAdd(s, DELTA);
    var e := EncRound(b, s, key);
    SubUndoesAdd(b.v1, HalfHi(e.v0, s', key));
    SubUndoesAdd(b.v0, HalfLo(b.v1, s, key));
    var d := DecRound(b, s', key);
    AddUndoesSub(b.v0, HalfLo(d.v1, s, key));
    AddUndoesSub(b.v1, HalfHi(b.v0, s', key));
  }

  /** `n` more cycles of the encryption loop from the state `(b, sum == s)`. */
  function EncCycles(b: Block, s: bv32, key: Key128, n: nat): Block
    decreases n
  {
    if n == 0 then b else EncCycles(EncRound(b, s, key), WrapAdd(s, DELTA), key, n - 1)
  }

  /** `n` more cycles of the decryption loop from the state `(b, sum == s)`. */
  function DecCycles(b: Block, s: bv32, key: Key128, n: nat): Block
    decreases n
  {
    if n == 0 then b else DecCycles(DecRound(b, s, key), WrapSub(s, DELTA), key, n - 1)
  }

  /** `encrypt_block`: 32 cycles from `sum == 0`. */
  function Encipher(b: Block, key: Key128): Block {
    EncCycles(b, 0, key, ROUNDS)
  }

  /** `decrypt_block`: 32 cycles from `sum == DELTA * ROUNDS`. */
  function Decipher(b: Block, key: Key128): Block {
    DecCycles(b, DELTA * 32, key, ROUNDS)
  }

  /** The last of `n + 1` encryption cycles is entered with the sum the first `n` reached. */
  lemma {:induction false} EncSnoc(b: Block, s: bv32, key: Key128, n: nat)
    ensures EncCycles(b, s, key, n + 1) == EncRound(EncCycles(b, s, key, n), Advance(s, n), key)
    decreases n
  {
    if n > 0 {
      EncSnoc(EncRound(b, s, key), WrapAdd(s, DELTA), key, n - 1);
      AdvanceShift(s, n - 1);
    }
  }

  /** The last of `n + 1` decryption cycles is entered with the sum the first `n` reached. */
  lemma {:induction false} DecSnoc(b: Block, s: bv32, key: Key128, n: nat)
    ensures DecCycles(b, s, key, n + 1) == DecRound(DecCycles(b, s, key, n), Retreat(s, n), key)
    decreases n
  {
    if n > 0 {
      DecSnoc(DecRound(b, s, key), WrapSub(s, DELTA), key, n - 1);
      RetreatShift(s, n - 1);
    }
  }

  /** `n` decryption cycles entered with the sum `n` encryption cycles reached undo them. */
  lemma {:induction false} DecUndoesEnc(b: Block, s: bv32, key: Key128, n: nat)
    ensures DecCycles(EncCycles(b, s, key, n), Advance(s, n), key, n) == b
  {
    if n > 0 {
      var m := n - 1;
      var x, t := EncCycles(b, s, key, m), Advance(s, m);
      EncSnoc(b, s, key, m);
      RoundInverse(x, t, key);
      SubUndoesAdd(t, DELTA);
      calc {
        DecCycles(EncCycles(b, s, key, n), Advance(s, n), key, n);
        DecCycles(EncRound(x, t, key), WrapAdd(t, DELTA), key, n);
        DecCycles(DecRound(EncRound(x, t, key), WrapAdd(t, DELTA), key), WrapSub(WrapAdd(t, DELTA), DELTA), key, m);
        DecCycles(x, t, key, m);
        { DecUndoesEnc(b, s, key, m); }
        b;
      }
    }
  }

  /** `n` encryption cycles entered with the sum `n` decryption cycles reached undo them. */
  lemma {:induction false} EncUndoesDec(b: Block, s: bv32, key: Key128, n: nat)
    ensures EncCycles(DecCycles(b, s, key, n), Retreat(s, n), key, n) == b
  {
    if n > 0 {
      var m := n - 1;
      var y, u := DecCycles(b, s, key, m), Retreat(s, m);
      DecSnoc(b, s, key, m);
      RoundInverse(y, WrapSub(u, DELTA), key);
      AddUndoesSub(u, DELTA);
      EncUndoesDec(b, s, key, m);
    }
  }

  /** XTEA is a permutation of blocks: each direction undoes the other. */
  lemma CipherRoundTrip(b: Block, key: Key128)
    ensures Decipher(Encipher(b, key), key) == b
    ensures Encipher(Decipher(b, key), key) == b
  {
    SumAfterAllRounds();
    DecUndoesEnc(b, 0, key, ROUNDS);
    EncUndoesDec(b, DELTA * 32, key, ROUNDS);
  }

  /** `encrypt_block(v0, v1, key)`. */
  method EncryptBlock(v0: bv32, v1: bv32, key: Key128) returns (r0: bv32, r1: bv32)
    ensures Block(r0, r1) == Encipher(Block(v0, v1), key)
  {
    r0, r1 := v0, v1;
    var sum: bv32 := 0;
    var i := 0;
    while i < ROUNDS
      invariant i <= ROUNDS
      invariant EncCycles(Block(r0, r1), sum, key, ROUNDS - i) == Encipher(Block(v0, v1), key)
    {
      ghost var next := EncRound(Block(r0, r1), sum, key);
      r0 := WrapAdd(r0, HalfLo(r1, sum, key));
      sum := WrapAdd(sum, DELTA);
      r1 := WrapAdd(r1, HalfHi(r0, sum, key));
      assert Block(r0, r1) == next;
      i := i + 1;
    }
  }

  /** `decrypt_block(v0, v1, key)`. */
  method DecryptBlock(v0: bv32, v1: bv32, key: Key128) returns (r0: bv32, r1: bv32)
    ensures Block(r0, r1) == Decipher(Block(v0, v1), key)
  {
    r0, r1 := v0, v1;
    var sum: bv32 := DELTA * 32;
    var i := 0;
    while i < ROUNDS
      invariant i <= ROUNDS
      invariant DecCycles(Block(r0, r1), sum, key, ROUNDS - i) == Decipher(Block(v0, v1), key)
    {
      ghost var next := DecRound(Block(r0, r1), sum, key);
      r1 := WrapSub(r1, HalfHi(r0, sum, key));
      sum := WrapSub(sum, DELTA);
      r0 := WrapSub(r0, HalfLo(r1, sum, key));
      assert Block(r0, r1) == next;
      i := i + 1;
    }
  }

  // ---------------------------------------------------------------------
  // buffer mode
  // ---------------------------------------------------------------------

  /** An eight-byte chunk of a buffer: one block's worth of bytes. */
  type Chunk = x: seq<bv8> | |x| == 8 witness [0, 0, 0, 0, 0, 0, 0, 0]

  /** The block loaded as two little-endian words from a chunk. */
  function LoadBlock(x: Chunk): Block {
    Block(Load32(x, 0), Load32(x, 4))
  }

  /** The chunk a block is stored back as, `v0` first, each word little-endian. */
  function BlockBytes(b: Block): (r: Chunk) {
    Store32(b.v0) + Store32(b.v1)
  }

  lemma LoadBlockBytes(b: Block)
    ensures LoadBlock(BlockBytes(b)) == b
  {
    var s := BlockBytes(b);
    LoadStore32(b.v0);
    LoadStore32(b.v1);
    assert s[..4] == Store32(b.v0) && s[4..] == Store32(b.v1);
    assert Load32(s, 0) == Load32(Store32(b.v0), 0);
    assert Load32(s, 4) == Load32(Store32(b.v1), 0);
  }

  lemma BlockBytesOfLoad(x: Chunk)
    ensures BlockBytes(LoadBlock(x)) == x
  {
    StoreLoad32(x, 0);
    StoreLoad32(x, 4);
    assert x == x[0..4] + x[4..8];
  }

  /** What the block loop of `encrypt_buffer` does to one chunk: load, `encrypt_block`, store. */
  function EncipherChunk(key: Key128): Chunk -> Chunk {
    x => BlockBytes(Encipher(LoadBlock(x), key))
  }

  /** What the block loop of `decrypt_buffer` does to one chunk. */
  function DecipherChunk(key: Key128): Chunk -> Chunk {
    x => BlockBytes(Decipher(LoadBlock(x), key))
  }

  /** On chunks, too, each direction of the cipher undoes the other. */
  lemma ChunkRoundTrip(key: Key128)
    ensures forall x :: DecipherChunk(key)(EncipherChunk(key)(x)) == x
    ensures forall x :: EncipherChunk(key)(DecipherChunk(key)(x)) == x
  {
    forall x: Chunk ensures DecipherChunk(key)(EncipherChunk(key)(x)) == x {
      var b := LoadBlock(x);
      var e := Encipher(b, key);
      LoadBlockBytes(e);
      CipherRoundTrip(b, key);
      BlockBytesOfLoad(x);
    }
    forall x: Chunk ensures EncipherChunk(key)(DecipherChunk(key)(x)) == x {
      var b := LoadBlock(x);
      var d := Decipher(b, key);
      LoadBlockBytes(d);
      CipherRoundTrip(b, key);
      BlockBytesOfLoad(x);
    }
  }

  /**
   * The whole chunks of `s`, in order, each replaced by `f` of it: what the
   * block loop of both buffer routines does.
   */
  function Blockwise(s: seq<bv8>, f: Chunk -> Chunk): (r: seq<bv8>)
    requires |s| % 8 == 0
    ensures |r| == |s|
  {
    if s == [] then [] else Blockwise(s[..|s| - 8], f) + f(s[|s| - 8..])
  }

  lemma BlockwiseSnoc(s: seq<bv8>, i: nat, f: Chunk -> Chunk)
    requires i % 8 == 0 && i + 8 <= |s|
    ensures Blockwise(s[..i + 8], f) == Blockwise(s[..i], f) + f(s[i..i + 8])
  {
    var p := s[..i + 8];
    assert p[..i] == s[..i];
    assert p[i..] == s[i..i + 8];
  }

  /** When `g` undoes `f` on every chunk, blockwise `g` undoes blockwise `f` on every buffer. */
  lemma {:induction false} BlockwiseInverse(s: seq<bv8>, f: Chunk -> Chunk, g: Chunk -> Chunk)
    requires |s| % 8 == 0
    requires forall x :: g(f(x)) == x
    ensures Blockwise(Blockwise(s, f), g) == s
  {
    if s != [] {
      var n := |s| - 8;
      var e := Blockwise(s, f);
      BlockwiseInverse(s[..n], f, g);
      assert e[..n] == Blockwise(s[..n], f);
      assert e[n..] == f(s[n..]);
      assert s == s[..n] + s[n..];
    }
  }

  /** The key byte a tail byte at index `i` is xored with: byte `i % 4` of word `i % 4`. */
  function TailKeyByte(key: Key128, i: nat): bv8 {
    var j := i % 4;
    if j == 0 then Low8(key[0])
    else if j == 1 then Low8(key[1] >> 8)
    else if j == 2 then Low8(key[2] >> 16)
    else Low8(key[3] >> 24)
  }

  /** Tail byte `b` at buffer index `i` xored with its key byte. */
  function MaskByte(b: bv8, key: Key128, i: nat): bv8 {
    b ^ TailKeyByte(key, i)
  }

  lemma MaskByteInvolution(b: bv8, key: Key128, i: nat)
    ensures MaskByte(MaskByte(b, key, i), key, i) == b
  {
  }

  /** The tail `s`, starting at buffer index `start`, xored with key bytes. */
  function TailMask(s: seq<bv8>, start: nat, key: Key128): (r: seq<bv8>)
    ensures |r| == |s| && forall k :: 0 <= k < |s| ==> r[k] == MaskByte(s[k], key, start + k)
  {
    seq(|s|, k requires 0 <= k < |s| => MaskByte(s[k], key, start + k))
  }

  /** Masking the tail twice gives it back. */
  lemma TailMaskInvolution(s: seq<bv8>, start: nat, key: Key128)
    ensures TailMask(TailMask(s, start, key), start, key) == s
  {
    forall k | 0 <= k < |s| ensures TailMask(TailMask(s, start, key), start, key)[k] == s[k] {
      MaskByteInvolution(s[k], key, start + k);
    }
  }

  lemma TailMaskSnoc(s: seq<bv8>, start: nat, i: nat, key: Key128)
    requires start <= i < |s|
    ensures TailMask(s[start..i + 1], start, key) == TailMask(s[start..i], start, key) + [MaskByte(s[i], key, i)]
  {
  }

  /** Where the tail starts: `(len / 8) * 8`, the largest multiple of eight not above `len`. */
  function TailStart(n: nat): (t: nat)
    ensures t <= n && t % 8 == 0 && n - t < 8
  {
    n - n % 8
  }

  /** The library's `(len / 8) * 8` is the tail start. */
  lemma TailStartIsRoundedDown(n: nat)
    ensures (n / 8) * 8 == TailStart(n)
  {
  }

  /** Whole chunks followed by fewer than eight bytes: the tail starts right after the chunks. */
  lemma TailStartAfter(a: nat, b: nat, n: nat)
    requires a % 8 == 0 && b < 8 && n == a + b
    ensures TailStart(n) == a
  {
  }

  /** The buffer mode with chunk function `f`: whole chunks through `f`, the tail masked. */
  function BufferMode(s: seq<bv8>, f: Chunk -> Chunk, key: Key128): (r: seq<bv8>)
    ensures |r| == |s|
  {
    var t := TailStart(|s|);
    Blockwise(s[..t], f) + TailMask(s[t..], t, key)
  }

  /** `encrypt_buffer(data, len, key)` on a buffer of `len` bytes. */
  function Encrypted(s: seq<bv8>, key: Key128): (r: seq<bv8>)
    ensures |r| == |s|
  {
    BufferMode(s, EncipherChunk(key), key)
  }

  /** `decrypt_buffer(data, len, key)` on a buffer of `len` bytes. */
  function Decrypted(s: seq<bv8>, key: Key128): (r: seq<bv8>)
    ensures |r| == |s|
  {
    BufferMode(s, DecipherChunk(key), key)
  }

  /** A buffer whose whole-chunk part is `w` and whose tail is `t` is split back at `|w|`. */
  lemma BufferModeSplit(w: seq<bv8>, t: seq<bv8>, f: Chunk -> Chunk, key: Key128)
    requires |w| % 8 == 0 && |t| < 8
    ensures BufferMode(w + t, f, key) == Blockwise(w, f) + TailMask(t, |w|, key)
  {
    var s := w + t;
    TailStartAfter(|w|, |t|, |s|);
    var ts := TailStart(|s|);
    assert s[..ts] == w && s[ts..] == t;
    assert BufferMode(s, f, key) == Blockwise(s[..ts], f) + TailMask(s[ts..], ts, key);
  }

  /** Running the buffer mode with `g` after `f` gives the buffer back when `g` undoes `f`. */
  lemma BufferModeInverse(s: seq<bv8>, f: Chunk -> Chunk, g: Chunk -> Chunk, key: Key128)
    requires forall x :: g(f(x)) == x
    ensures BufferMode(BufferMode(s, f, key), g, key) == s
  {
    var t := TailStart(|s|);
    var w, tl := s[..t], s[t..];
    assert s == w + tl;
    BlockwiseInverse(w, f, g);
    TailMaskInvolution(tl, t, key);
    BufferModeSplit(Blockwise(w, f), TailMask(tl, t, key), g, key);
  }

  /** The buffer mode is a permutation of buffers: each direction undoes the other. */
  lemma BufferRoundTrip(s: seq<bv8>, key: Key128)
    ensures Decrypted(Encrypted(s, key), key) == s
    ensures Encrypted(Decrypted(s, key), key) == s
  {
    ChunkRoundTrip(key);
    BufferModeInverse(s, EncipherChunk(key), DecipherChunk(key), key);
    BufferModeInverse(s, DecipherChunk(key), EncipherChunk(key), key);
  }

  /** Each byte of a buffer shorter than a block is xored with a key byte, and nothing else happens. */
  lemma ShortBufferIsMasked(s: seq<bv8>, key: Key128)
    requires |s| < 8
    ensures Encrypted(s, key) == TailMask(s, 0, key) == Decrypted(s, key)
  {
    assert s[..0] == [] && s[0..] == s;
  }

  /** Writes a chunk back at `data[i..i+8]`, as the eight byte stores after each block do. */
  method StoreChunk(data: array<bv8>, i: nat, out: Chunk)
    requires i + 8 <= data.Length
    modifies data
    ensures data[..] == old(data[..i]) + out + old(data[i + 8..])
  {
    forall k | 0 <= k < 8 {
      data[i + k] := out[k];
    }
    assert data[i..i + 8] == out;
    assert data[..] == data[..i] + data[i..i + 8] + data[i + 8..];
  }

  /**
   * One iteration of the block loop over the whole-chunk part `w` of a
   * buffer that ends in `rest`: the stored chunk extends the processed prefix.
   */
  lemma BlockLoopStep(w: seq<bv8>, rest: seq<bv8>, cur: seq<bv8>, i: nat, f: Chunk -> Chunk)
    requires i % 8 == 0 && i + 8 <= |w| && |w| % 8 == 0
    requires cur == Blockwise(w[..i], f) + w[i..] + rest
    ensures i + 8 <= |cur|
    ensures cur[..i] + f(cur[i..i + 8]) + cur[i + 8..] == Blockwise(w[..i + 8], f) + w[i + 8..] + rest
  {
    var done := Blockwise(w[..i], f);
    assert |done| == i;
    assert cur == done + (w[i..] + rest);
    assert cur[..i] == done;
    assert cur[i..] == w[i..] + rest;
    assert cur[i..i + 8] == w[i..i + 8];
    assert cur[i + 8..] == w[i + 8..] + rest;
    BlockwiseSnoc(w, i, f);
  }

  /** Overwriting the first byte after the processed prefix `pre + m` extends the prefix by it. */
  lemma UpdateAfter(pre: seq<bv8>, m: seq<bv8>, src: seq<bv8>, i: nat, x: bv8)
    requires |pre| + |m| == i < |src|
    ensures (pre + m + src[i..])[i := x] == pre + (m + [x]) + src[i + 1..]
  {
    assert src[i..] == [src[i]] + src[i + 1..];
  }

  /** One iteration of the tail loop: one more tail byte is masked. */
  lemma TailLoopStep(pre: seq<bv8>, src: seq<bv8>, cur: seq<bv8>, tail: nat, i: nat, key: Key128)
    requires tail <= i < |src| && |pre| == tail
    requires cur == pre + TailMask(src[tail..i], tail, key) + src[i..]
    ensures |cur| == |src|
    ensures cur[i := MaskByte(cur[i], key, i)] == pre + TailMask(src[tail..i + 1], tail, key) + src[i + 1..]
  {
    var m := TailMask(src[tail..i], tail, key);
    assert cur[i] == src[i];
    UpdateAfter(pre, m, src, i, MaskByte(src[i], key, i));
    TailMaskSnoc(src, tail, i, key);
  }

  /** One iteration of the block loop: the chunk at `data[i..i+8]` is loaded, ciphered by `f` and stored back. */
  method CipherChunkAt(data: array<bv8>, i: nat, f: Chunk -> Chunk, ghost w: seq<bv8>, ghost rest: seq<bv8>)
    requires i % 8 == 0 && i + 8 <= |w| && |w| % 8 == 0
    requires data[..] == Blockwise(w[..i], f) + w[i..] + rest
    modifies data
    ensures data[..] == Blockwise(w[..i + 8], f) + w[i + 8..] + rest
  {
    ghost var cur := data[..];
    BlockLoopStep(w, rest, cur, i, f);
    var out := f(data[i..i + 8]);
    StoreChunk(data, i, out);
  }

  /** A multiple of eight below `len` with room for one more block is below the tail. */
  lemma BlockFits(i: nat, len: nat)
    requires i % 8 == 0 && i + 7 < len
    ensures i + 8 <= TailStart(len) && (i + 8) % 8 == 0
  {
  }

  /** The block loop stops exactly at the tail. */
  lemma BlockLoopExit(i: nat, len: nat)
    requires i % 8 == 0 && i <= TailStart(len) && len <= i + 7
    ensures i == TailStart(len)
  {
  }

  /**
   * The block loop both buffer routines share: every whole chunk is
   * replaced by `f` of it (load two words, run the block cipher, store
   * them), the tail is untouched.
   */
  method BlockLoop(data: array<bv8>, f: Chunk -> Chunk)
    modifies data
    ensures var t := TailStart(data.Length);
      data[..] == Blockwise(old(data[..t]), f) + old(data[t..])
  {
    ghost var src := data[..];
    var len := data.Length;
    ghost var tail := TailStart(len);
    ghost var w, rest := src[..tail], src[tail..];
    assert w[..0] == [] && w[0..] == w && src == w + rest;
    var i := 0;
    while i + 7 < len
      invariant i % 8 == 0 && i <= tail
      invariant data[..] == Blockwise(w[..i], f) + w[i..] + rest
    {
      BlockFits(i, len);
      CipherChunkAt(data, i, f, w, rest);
      i := i + 8;
    }
    BlockLoopExit(i, len);
    assert w[..i] == w && w[i..] == [];
  }

  /** The tail loop both buffer routines share: each byte past the last whole block is masked. */
  method MaskTail(data: array<bv8>, key: Key128)
    modifies data
    ensures var t := TailStart(data.Length);
      data[..] == old(data[..t]) + TailMask(old(data[t..]), t, key)
  {
    ghost var src := data[..];
    var len := data.Length;
    TailStartIsRoundedDown(len);
    var tail := (len / 8) * 8;
    ghost var pre := src[..tail];
    assert src[tail..tail] == [] && src == pre + src[tail..];
    var i := tail;
    while i < len
      invariant tail <= i <= len
      invariant data[..] == pre + TailMask(src[tail..i], tail, key) + src[i..]
    {
      TailLoopStep(pre, src, data[..], tail, i, key);
      data[i] := MaskByte(data[i], key, i);
      i := i + 1;
    }
    assert src[tail..i] == src[tail..];
  }

  /** `xtea::encrypt_buffer(data, len, key)`: whole blocks first, then the tail. */
  method EncryptBuffer(data: array<bv8>, key: Key128)
    modifies data
    ensures data[..] == Encrypted(old(data[..]), key)
  {
    ghost var src := data[..];
    ghost var t := TailStart(data.Length);
    BlockLoop(data, EncipherChunk(key));
    ghost var mid := data[..];
    assert mid[..t] == Blockwise(src[..t], EncipherChunk(key)) && mid[t..] == src[t..];
    MaskTail(data, key);
  }

  /** `xtea::decrypt_buffer(data, len, key)`: the tail first, then whole blocks. */
  method DecryptBuffer(data: array<bv8>, key: Key128)
    modifies data
    ensures data[..] == Decrypted(old(data[..]), key)
  {
    ghost var src := data[..];
    ghost var t := TailStart(data.Length);
    MaskTail(data, key);
    ghost var mid := data[..];
    assert mid[..t] == src[..t] && mid[t..] == TailMask(src[t..], t, key);
    BlockLoop(data, DecipherChunk(key));
  }
}
