/**
 * `data_hiding`: `scattered_value`, which splits the bytes of a value over
 * `Chunks` separately keyed chunks, and `polymorphic_value`, which rewrites
 * its stored value on every hundredth access by an identity transform.
 * Random draws (the chunk keys, the transform selector) are parameters.
 */
module DataHiding {
  import opened Mba
  import opened Words

  // ---------------------------------------------------------------------
  // scattered_value<T, Chunks>
  // ---------------------------------------------------------------------

  /** The two `static_assert`s: 2 <= Chunks <= 64, and sizeof(T) >= Chunks unless Chunks is 2. */
  predicate ChunkParams(size: nat, count: nat) {
    2 <= count <= 64 && (size >= count || count == 2)
  }

  /** How `scatter_data` cuts a value: Chunks, sizeof(T) / Chunks and sizeof(T) % Chunks. */
  datatype Layout = Layout(count: nat, perChunk: nat, remainder: nat)

  function LayoutOf(size: nat, count: nat): (l: Layout)
    requires count > 0
    ensures l.count == count && l.remainder < count
  {
    Layout(count, size / count, size % count)
  }

  /** The size of chunk `i`: sizeof(T) / Chunks, plus one for each of the first sizeof(T) % Chunks chunks. */
  function ChunkSize(l: Layout, i: nat): nat {
    l.perChunk + (if i < l.remainder then 1 else 0)
  }

  /** Where chunk `i` starts in the value's bytes: the sizes of the chunks before it, added up. */
  function Offset(l: Layout, i: nat): nat {
    if i == 0 then 0 else Offset(l, i - 1) + ChunkSize(l, i - 1)
  }

  lemma {:induction false} OffsetMonotone(l: Layout, i: nat, j: nat)
    requires i <= j
    ensures Offset(l, i) <= Offset(l, j)
    decreases j
  {
    if i < j {
      OffsetMonotone(l, i, j - 1);
    }
  }

  /** The first `i` chunks hold i * (sizeof(T) / Chunks) bytes, plus one for each of them below the remainder. */
  lemma {:induction false} OffsetClosed(l: Layout, i: nat)
    ensures Offset(l, i) == i * l.perChunk + (if i < l.remainder then i else l.remainder)
  {
    if i > 0 {
      OffsetClosed(l, i - 1);
      assert i * l.perChunk == (i - 1) * l.perChunk + l.perChunk;
    }
  }

  /** The chunk sizes add up to sizeof(T), so every byte lands in exactly one chunk. */
  lemma ChunkSizesSum(size: nat, count: nat)
    requires count > 0
    ensures Offset(LayoutOf(size, count), count) == size
  {
    OffsetClosed(LayoutOf(size, count), count);
  }

  /** The chunk sizes differ by at most one, and none is empty when sizeof(T) >= Chunks. */
  lemma ChunkSizeBounds(size: nat, count: nat, i: nat)
    requires count > 0 && i < count
    ensures size / count <= ChunkSize(LayoutOf(size, count), i) <= size / count + 1
    ensures size >= count ==> ChunkSize(LayoutOf(size, count), i) >= 1
  {
  }

  /** A `chunk_holder`: its bytes (`size` is their number) and its key. */
  datatype Chunk = Chunk(data: seq<bv8>, key: bv8)

  /** Each byte xored with the key. */
  function XorBytes(s: seq<bv8>, k: bv8): seq<bv8> {
    seq(|s|, i requires 0 <= i < |s| => s[i] ^ k)
  }

  lemma XorBytesInvolution(s: seq<bv8>, k: bv8)
    ensures XorBytes(XorBytes(s, k), k) == s
  {
  }

  /** A layout that covers exactly the value's bytes, with a key per chunk. */
  predicate Covers(l: Layout, value: seq<bv8>, keys: seq<bv8>) {
    Offset(l, l.count) == |value| && |keys| == l.count
  }

  /** Chunk `i` of a scattered value: its slice of the bytes, xored with its key. */
  function ChunkOf(value: seq<bv8>, l: Layout, keys: seq<bv8>, i: nat): (c: Chunk)
    requires Covers(l, value, keys) && i < l.count
    ensures |c.data| == ChunkSize(l, i) && c.key == keys[i]
  {
    OffsetMonotone(l, i + 1, l.count);
    Chunk(XorBytes(value[Offset(l, i)..Offset(l, i + 1)], keys[i]), keys[i])
  }

  /** `scatter_data(value)` with `keys[i]` the key drawn for chunk `i`. */
  function Scatter(value: seq<bv8>, l: Layout, keys: seq<bv8>): (cs: seq<Chunk>)
    requires Covers(l, value, keys)
    ensures |cs| == l.count
    ensures forall i :: 0 <= i < l.count ==> |cs[i].data| == ChunkSize(l, i) && cs[i].key == keys[i]
  {
    seq(l.count, i requires 0 <= i < l.count => ChunkOf(value, l, keys, i))
  }

  /** What `get` reassembles: every chunk's bytes, unkeyed, in chunk order. */
  function Gather(cs: seq<Chunk>): seq<bv8> {
    if |cs| == 0 then [] else Gather(cs[..|cs| - 1]) + XorBytes(cs[|cs| - 1].data, cs[|cs| - 1].key)
  }

  /** Reassembling the first `m` chunks yields the first `Offset(m)` bytes. */
  lemma {:induction false} GatherPrefix(value: seq<bv8>, l: Layout, keys: seq<bv8>, m: nat)
    requires Covers(l, value, keys) && m <= l.count
    ensures Offset(l, m) <= |value|
    ensures Gather(Scatter(value, l, keys)[..m]) == value[..Offset(l, m)]
  {
    OffsetMonotone(l, m, l.count);
    if m > 0 {
      var cs := Scatter(value, l, keys);
      GatherPrefix(value, l, keys, m - 1);
      OffsetMonotone(l, m - 1, m);
      var lo, hi := Offset(l, m - 1), Offset(l, m);
      ChunkUnkeys(value, l, keys, m - 1);
      GatherStep(cs, m);
      SliceSplit(value, lo, hi);
    }
  }

  /** Unkeying chunk `i` of a scattered value gives back its slice. */
  lemma ChunkUnkeys(value: seq<bv8>, l: Layout, keys: seq<bv8>, i: nat)
    requires Covers(l, value, keys) && i < l.count
    ensures Offset(l, i) <= Offset(l, i + 1) <= |value|
    ensures XorBytes(Scatter(value, l, keys)[i].data, keys[i]) == value[Offset(l, i)..Offset(l, i + 1)]
  {
    OffsetMonotone(l, i, i + 1);
    OffsetMonotone(l, i + 1, l.count);
    assert Scatter(value, l, keys)[i] == ChunkOf(value, l, keys, i);
    XorBytesInvolution(value[Offset(l, i)..Offset(l, i + 1)], keys[i]);
  }

  lemma SliceSplit(s: seq<bv8>, lo: nat, hi: nat)
    requires lo <= hi <= |s|
    ensures s[..hi] == s[..lo] + s[lo..hi]
  {
  }

  /** Gathering one more chunk appends that chunk's unkeyed bytes. */
  lemma GatherStep(cs: seq<Chunk>, m: nat)
    requires 0 < m <= |cs|
    ensures Gather(cs[..m]) == Gather(cs[..m - 1]) + XorBytes(cs[m - 1].data, cs[m - 1].key)
  {
    assert cs[..m][..m - 1] == cs[..m - 1];
  }

  /** `get()` after `scatter_data(value)` returns `value`, whatever the keys. */
  lemma ScatterRoundTrip(value: seq<bv8>, count: nat, keys: seq<bv8>)
    requires ChunkParams(|value|, count) && |keys| == count
    ensures Covers(LayoutOf(|value|, count), value, keys)
    ensures Gather(Scatter(value, LayoutOf(|value|, count), keys)) == value
  {
    var l := LayoutOf(|value|, count);
    ChunkSizesSum(|value|, count);
    GatherPrefix(value, l, keys, count);
    assert Scatter(value, l, keys)[..count] == Scatter(value, l, keys);
  }

  /** Chunks of the layout's sizes reassemble to the layout's offsets. */
  lemma {:induction false} GatherLength(cs: seq<Chunk>, l: Layout, m: nat)
    requires m <= |cs|
    requires forall i :: 0 <= i < |cs| ==> |cs[i].data| == ChunkSize(l, i)
    ensures |Gather(cs[..m])| == Offset(l, m)
  {
    if m > 0 {
      GatherLength(cs, l, m - 1);
      assert cs[..m][..m - 1] == cs[..m - 1];
    }
  }

  /**
   * The inner loop of `scatter_data`: `n` bytes from `byteIdx` on, each xored
   * with the key, into a zero-filled chunk buffer; also returns the advanced
   * byte index.
   */
  method KeyBytes(value: seq<bv8>, byteIdx: nat, n: nat, key: bv8) returns (data: seq<bv8>, next: nat)
    requires byteIdx + n <= |value|
    ensures data == XorBytes(value[byteIdx..byteIdx + n], key) && next == byteIdx + n
  {
    data := seq(n, _ => 0);
    next := byteIdx;
    var j := 0;
    while j < n && next < |value|
      invariant 0 <= j <= n && |data| == n && next == byteIdx + j
      invariant forall t :: 0 <= t < j ==> data[t] == value[byteIdx + t] ^ key
    {
      data := data[j := value[next] ^ key];
      j := j + 1;
      next := next + 1;
    }
  }

  /**
   * The inner loop of `get`: appends the chunk's bytes, unkeyed, to the
   * result while it is shorter than sizeof(T).
   */
  method UnkeyBytes(r0: seq<bv8>, c: Chunk, size: nat) returns (r: seq<bv8>)
    requires |r0| + |c.data| <= size
    ensures r == r0 + XorBytes(c.data, c.key)
  {
    r := r0;
    var j := 0;
    while j < |c.data| && |r| < size
      invariant 0 <= j <= |c.data| && |r| == |r0| + j
      invariant r[..|r0|] == r0
      invariant forall t :: 0 <= t < j ==> r[|r0| + t] == c.data[t] ^ c.key
    {
      r := r + [c.data[j] ^ c.key];
      j := j + 1;
    }
    assert r == r0 + XorBytes(c.data, c.key);
  }

  /**
   * A `scattered_value<T, Chunks>` with sizeof(T) == `size` and Chunks ==
   * `count`; a value of T is its object representation, `size` bytes.
   * `layout` names the cut `scatter_data` computes on every call.
   */
  class ScatteredValue {
    const size: nat
    const count: nat
    ghost const layout: Layout
    var chunks: seq<Chunk>

    /** Every chunk holds the number of bytes `scatter_data` gave it. */
    ghost predicate Valid()
      reads this`chunks
    {
      && ChunkParams(size, count)
      && layout == LayoutOf(size, count)
      && |chunks| == count
      && (forall i :: 0 <= i < count ==> |chunks[i].data| == ChunkSize(layout, i))
    }

    /**
     * `scattered_value(value)`; the default constructor is the case of a
     * value-initialised `value`.  The chunk holders start empty.
     */
    constructor (size: nat, count: nat, value: seq<bv8>, keys: seq<bv8>)
      requires ChunkParams(size, count) && |value| == size && |keys| == count
      ensures this.size == size && this.count == count && layout == LayoutOf(size, count)
      ensures Valid() && Covers(layout, value, keys) && chunks == Scatter(value, layout, keys)
    {
      this.size := size;
      this.count := count;
      layout := LayoutOf(size, count);
      chunks := seq(count, _ => Chunk([], 0));
      new;
      ScatterData(value, keys);
    }

    /** `scatter_data(value)`: chunk `i` gets its slice of the bytes, xored with `keys[i]`. */
    method ScatterData(value: seq<bv8>, keys: seq<bv8>)
      requires ChunkParams(size, count) && layout == LayoutOf(size, count)
      requires |chunks| == count && |value| == size && |keys| == count
      modifies this`chunks
      ensures Valid() && Covers(layout, value, keys) && chunks == Scatter(value, layout, keys)
    {
      var bytesPerChunk := size / count;
      var remainder := size % count;
      ChunkSizesSum(size, count);
      ghost var l := layout;
      assert l.perChunk == bytesPerChunk && l.remainder == remainder && l.count == count;
      assert Covers(l, value, keys);
      var byteIdx := 0;
      var i := 0;
      while i < count
        invariant 0 <= i <= count && |chunks| == count
        invariant byteIdx == Offset(l, i)
        invariant forall k :: 0 <= k < i ==> chunks[k] == ChunkOf(value, l, keys, k)
      {
        var chunkSize := bytesPerChunk + (if i < remainder then 1 else 0);
        var key := keys[i];
        assert chunkSize == ChunkSize(l, i);
        assert Offset(l, i + 1) == byteIdx + chunkSize;
        OffsetMonotone(l, i + 1, count);
        var data;
        data, byteIdx := KeyBytes(value, byteIdx, chunkSize, key);
        assert Chunk(data, key) == ChunkOf(value, l, keys, i);
        chunks := chunks[i := Chunk(data, key)];
        i := i + 1;
      }
      assert chunks == Scatter(value, l, keys);
    }

    /** `get()`: every chunk's bytes, unkeyed, in order, stopping at sizeof(T). */
    method Get() returns (r: seq<bv8>)
      requires Valid()
      ensures r == Gather(chunks) && |r| == size
    {
      ChunkSizesSum(size, count);
      ghost var l := layout;
      assert Offset(l, count) == size;
      r := [];
      var byteIdx := 0;
      var i := 0;
      while i < count
        invariant 0 <= i <= count
        invariant r == Gather(chunks[..i]) && byteIdx == |r|
      {
        GatherLength(chunks, l, i);
        OffsetMonotone(l, i + 1, count);
        r := UnkeyBytes(r, chunks[i], size);
        byteIdx := |r|;
        assert chunks[..i + 1][..i] == chunks[..i];
        i := i + 1;
      }
      assert chunks[..count] == chunks;
      GatherLength(chunks, l, count);
    }

    /** `set(value)`: scatters the new value under fresh keys. */
    method Set(value: seq<bv8>, keys: seq<bv8>)
      requires Valid() && |value| == size && |keys| == count
      modifies this`chunks
      ensures Valid() && Covers(layout, value, keys) && chunks == Scatter(value, layout, keys)
    {
      ScatterData(value, keys);
    }
  }

  // ---------------------------------------------------------------------
  // polymorphic_value<T>
  // ---------------------------------------------------------------------

  /** The integral types: 1, 2, 4 or 8 bytes. */
  predicate IntegralWidth(w: nat) {
    w == 8 || w == 16 || w == 32 || w == 64
  }

  /** `std::rotl(x, 1)` of a `w`-bit value: the low w - 1 bits shifted up, the top bit brought round. */
  function Rotl(w: nat, x: nat): (r: nat)
    requires w >= 1 && x < Pow2(w)
    ensures r < Pow2(w)
  {
    var p := Pow2(w - 1);
    assert Pow2(w) == 2 * p;
    if x >= p then 2 * (x - p) + 1 else 2 * x
  }

  /** `std::rotr(x, 1)` of a `w`-bit value: shifted down, the low bit brought round to the top. */
  function Rotr(w: nat, x: nat): (r: nat)
    requires w >= 1 && x < Pow2(w)
    ensures r < Pow2(w)
  {
    var p := Pow2(w - 1);
    assert Pow2(w) == 2 * p;
    if x % 2 == 1 then x / 2 + p else x / 2
  }

  /** Rotating right by one undoes rotating left by one. */
  lemma RotrRotl(w: nat, x: nat)
    requires w >= 1 && x < Pow2(w)
    ensures Rotr(w, Rotl(w, x)) == x
  {
    var p := Pow2(w - 1);
    assert Pow2(w) == 2 * p;
  }

  /**
   * One run of `mutate`'s switch on the stored value `temp`, selected by
   * `transform` (CW_RANDOM_RT() % 4), as written.  `count` is the mutation
   * count, truncated to T as the key of transform 2.
   */
  function TransformAsWritten(w: nat, signed: bool, temp: nat, count: nat, transform: nat): nat
    requires IntegralWidth(w) && temp < Pow2(w) && transform < 4
  {
    if transform == 0 then
      if w == 64 || w == 32 then Not(w, Not(w, temp))
      else if w == 16 then Not(w, temp)
      else temp
    else if transform == 1 then
      if signed then temp else Rotr(w, Rotl(w, temp))
    else if transform == 2 then
      var key := count % Pow2(w);
      SubMba(w, AddMba(w, temp, key), key)
    else temp
  }

  /** Every transform but transform 0 on a 2-byte type leaves the value unchanged. */
  lemma TransformAsWrittenPreserves(w: nat, signed: bool, temp: nat, count: nat, transform: nat)
    requires IntegralWidth(w) && temp < Pow2(w) && transform < 4
    requires transform != 0 || w != 16
    ensures TransformAsWritten(w, signed, temp, count, transform) == temp
  {
    if transform == 1 && !signed {
      RotrRotl(w, temp);
    } else if transform == 2 {
      AddSubCancel(w, temp, count % Pow2(w));
    }
  }

  /** No `w`-bit value is its own complement. */
  lemma NotDiffers(w: nat, x: nat)
    requires w >= 1 && x < Pow2(w)
    ensures Not(w, x) != x
  {
    assert Pow2(w) == 2 * Pow2(w - 1);
  }

  /**
   * Transform 0 on a 2-byte type complements the bits once only: the value
   * comes back as `~v`, which is never `v`.
   */
  lemma TransformZeroComplements16(signed: bool, temp: nat, count: nat)
    requires temp < Pow2(16)
    ensures TransformAsWritten(16, signed, temp, count, 0) == Not(16, temp)
    ensures TransformAsWritten(16, signed, temp, count, 0) != temp
  {
    NotDiffers(16, temp);
  }

  /** The switch with transform 0 complementing 2-byte values twice, as it does 4- and 8-byte ones. */
  function Transform(w: nat, signed: bool, temp: nat, count: nat, transform: nat): nat
    requires IntegralWidth(w) && temp < Pow2(w) && transform < 4
  {
    if transform == 0 && w == 16 then Not(w, Not(w, temp))
    else TransformAsWritten(w, signed, temp, count, transform)
  }

  /** With the correction, every transform leaves the value unchanged. */
  lemma TransformPreserves(w: nat, signed: bool, temp: nat, count: nat, transform: nat)
    requires IntegralWidth(w) && temp < Pow2(w) && transform < 4
    ensures Transform(w, signed, temp, count, transform) == temp
  {
    if !(transform == 0 && w == 16) {
      TransformAsWrittenPreserves(w, signed, temp, count, transform);
    }
  }

  /** A `polymorphic_value<T>` for an integral T of `w` bits. */
  class PolymorphicValue {
    const w: nat
    const signed: bool
    var value: nat
    var mutationCount: nat

    ghost predicate Valid()
      reads this`value, this`mutationCount
    {
      IntegralWidth(w) && value < Pow2(w) && mutationCount < COUNT_MOD
    }

    /** `polymorphic_value(val)`; the default constructor is the case `val == 0`. */
    constructor (w: nat, signed: bool, val: nat)
      requires IntegralWidth(w) && val < Pow2(w)
      ensures Valid() && this.w == w && this.signed == signed
      ensures value == val && mutationCount == 0
    {
      this.w := w;
      this.signed := signed;
      value := val;
      mutationCount := 0;
    }

    /**
     * `mutate()`: counts the call and, on every hundredth count, runs the
     * transform `random % 4` on the value, as written.
     */
    method Mutate(random: nat)
      requires Valid()
      modifies this`value, this`mutationCount
      ensures Valid() && mutationCount == NextCount(old(mutationCount))
      ensures value == if mutationCount % 100 == 0
        then TransformAsWritten(w, signed, old(value), mutationCount, random % 4)
        else old(value)
    {
      mutationCount := NextCount(mutationCount);
      if mutationCount % 100 == 0 {
        var temp := value;
        var transform := random % 4;
        if transform == 0 {
          if w == 64 || w == 32 {
            var bits := Not(w, temp);
            value := bits;
            bits := Not(w, value);
            value := bits;
          } else if w == 16 {
            var bits := Not(w, temp);
            value := bits;
          } else {
            value := temp;
          }
        } else if transform == 1 {
          if !signed {
            value := Rotl(w, value);
            value := Rotr(w, value);
          }
        } else if transform == 2 {
          var key := mutationCount % Pow2(w);
          value := AddMba(w, temp, key);
          value := SubMba(w, value, key);
        }
      }
    }

    /** `get()`: mutates, then returns the stored value. */
    method Get(random: nat) returns (v: nat)
      requires Valid()
      modifies this`value, this`mutationCount
      ensures Valid() && mutationCount == NextCount(old(mutationCount)) && v == value
      ensures w != 16 ==> v == old(value)
    {
      Mutate(random);
      v := value;
      if mutationCount % 100 == 0 && w != 16 {
        TransformAsWrittenPreserves(w, signed, old(value), mutationCount, random % 4);
      }
    }

    /** `set(val)`: stores, then mutates. */
    method Set(val: nat, random: nat)
      requires Valid() && val < Pow2(w)
      modifies this`value, this`mutationCount
      ensures Valid() && mutationCount == NextCount(old(mutationCount))
      ensures w != 16 ==> value == val
    {
      value := val;
      Mutate(random);
      if mutationCount % 100 == 0 && w != 16 {
        TransformAsWrittenPreserves(w, signed, val, mutationCount, random % 4);
      }
    }
  }
}
