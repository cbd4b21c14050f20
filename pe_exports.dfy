/**
 * Import hiding: finding a loaded module by the hash of its name and a
 * function by the hash of its exported name, by walking the export
 * directory of a PE32+ image (section 6.3 of the Microsoft PE/COFF
 * specification).
 *
 * A mapped image is the little-endian byte sequence readable from its base
 * address.  A read past the end of that sequence is an access violation,
 * which the `__try`/`__except` around the walk turns into a null pointer;
 * the model keeps it apart as `Fault` until that point.  Header fields are
 * numbers below 2^32; addresses are numbers below 2^64.
 */
module PeExports {
  import opened Words
  import opened Hashing
  import opened Wrappers

  const WORD: nat := 0x1_0000_0000
  const ADDRESS_SPACE: nat := 0x1_0000_0000_0000_0000

  /** A byte of a mapped image. */
  type byte = x: nat | x < 0x100
  /** A `DWORD`. */
  type u32 = x: nat | x < WORD
  /** A pointer-sized address. */
  type address = x: nat | x < ADDRESS_SPACE

  /** The `DWORD` stored little-endian at `img[i..i+4]`. */
  function U32(img: seq<byte>, i: nat): u32
    requires i + 4 <= |img|
  {
    U16(img, i) + 0x1_0000 * U16(img, i + 2)
  }

  /** The `WORD` stored little-endian at `img[i..i+2]`. */
  function U16(img: seq<byte>, i: nat): (r: nat)
    requires i + 2 <= |img|
    ensures r < 0x1_0000
  {
    img[i] as nat + 0x100 * img[i + 1] as nat
  }

  /** Bytes read as the characters of a C string. */
  function Chars(s: seq<byte>): (r: seq<bv8>)
    ensures |r| == |s|
  {
    if s == [] then [] else [s[0] as bv8] + Chars(s[1..])
  }

  /** `IMAGE_DOS_SIGNATURE`, "MZ". */
  const DOS_SIGNATURE: nat := 0x5A4D
  /** `IMAGE_NT_SIGNATURE`, "PE\0\0". */
  const NT_SIGNATURE: nat := 0x0000_4550
  /** Offset of `e_lfanew` in `IMAGE_DOS_HEADER`. */
  const LFANEW_AT: nat := 0x3C
  /** The bound `e_lfanew` must stay below. */
  const LFANEW_LIMIT: nat := 0x1000
  /** Offset of `OptionalHeader.SizeOfImage` in `IMAGE_NT_HEADERS64`. */
  const SIZE_OF_IMAGE_AT: nat := 0x50
  /** Offset of `OptionalHeader.DataDirectory[IMAGE_DIRECTORY_ENTRY_EXPORT]`. */
  const EXPORT_ENTRY_AT: nat := 0x88
  /** The largest `SizeOfImage` accepted. */
  const MAX_IMAGE_SIZE: nat := 0x7FFF_FFFF
  /** `sizeof(IMAGE_EXPORT_DIRECTORY)`. */
  const EXPORT_DIR_BYTES: nat := 40

  // ---------------------------------------------------------------------
  // validate_pe_header
  // ---------------------------------------------------------------------

  /** A `LONG` read as a two's-complement number. */
  function Signed32(w: u32): (r: int)
    ensures -0x8000_0000 <= r < 0x8000_0000
    ensures r >= 0 <==> w < 0x8000_0000
    ensures r >= 0 ==> r == w
  {
    if w < 0x8000_0000 then w else w - WORD
  }

  datatype Header = Valid(nt: nat, imageSize: u32) | Invalid | Faulted

  /**
   * `validate_pe_header`: the DOS magic, a positive `e_lfanew` below 0x1000,
   * the NT signature there, and a `SizeOfImage` in [1, 0x7FFFFFFF].
   */
  function ValidatePeHeader(img: seq<byte>): (r: Header)
    ensures r.Valid? ==>
      && LFANEW_AT + 4 <= |img|
      && r.nt == U32(img, LFANEW_AT)
      && 0 < r.nt < LFANEW_LIMIT
      && r.nt + SIZE_OF_IMAGE_AT + 4 <= |img|
      && U16(img, 0) == DOS_SIGNATURE
      && U32(img, r.nt) == NT_SIGNATURE
      && r.imageSize == U32(img, r.nt + SIZE_OF_IMAGE_AT)
      && 0 < r.imageSize <= MAX_IMAGE_SIZE
  {
    if |img| < 2 then Faulted
    else if U16(img, 0) != DOS_SIGNATURE then Invalid
    else if |img| < LFANEW_AT + 4 then Faulted
    else
      var lfanew := Signed32(U32(img, LFANEW_AT));
      if lfanew <= 0 || lfanew >= LFANEW_LIMIT then Invalid
      else
        var nt := lfanew as nat;
        if nt + 4 > |img| then Faulted
        else if U32(img, nt) != NT_SIGNATURE then Invalid
        else if nt + SIZE_OF_IMAGE_AT + 4 > |img| then Faulted
        else
          var size := U32(img, nt + SIZE_OF_IMAGE_AT);
          if size == 0 || size > MAX_IMAGE_SIZE then Invalid
          else Valid(nt, size)
  }

  /**
   * The converse: a readable image with the two signatures, an `e_lfanew`
   * in (0, 0x1000) read as an unsigned word, and a size in range is
   * accepted; so the signed test on `e_lfanew` rejects exactly the words
   * an unsigned one would.
   */
  lemma HeaderAccepted(img: seq<byte>, nt: nat)
    requires LFANEW_AT + 4 <= |img| && nt == U32(img, LFANEW_AT)
    requires 0 < nt < LFANEW_LIMIT && nt + SIZE_OF_IMAGE_AT + 4 <= |img|
    requires U16(img, 0) == DOS_SIGNATURE && U32(img, nt) == NT_SIGNATURE
    requires 0 < U32(img, nt + SIZE_OF_IMAGE_AT) <= MAX_IMAGE_SIZE
    ensures ValidatePeHeader(img).Valid?
    ensures ValidatePeHeader(img).nt == nt && ValidatePeHeader(img).imageSize == U32(img, nt + SIZE_OF_IMAGE_AT)
  {
    assert |img| >= 2;
    assert Signed32(U32(img, LFANEW_AT)) == nt;
    assert !(U32(img, nt) != NT_SIGNATURE);
    var size := U32(img, nt + SIZE_OF_IMAGE_AT);
    assert !(size == 0 || size > MAX_IMAGE_SIZE);
  }

  // ---------------------------------------------------------------------
  // rva_in_bounds and the table sizes
  // ---------------------------------------------------------------------

  /** `rva_in_bounds`: the end is computed in 64 bits, so it cannot wrap. */
  function RvaInBounds(rva: u32, size: u32, imageSize: u32): (b: bool)
    ensures b <==> rva < imageSize && rva + size <= imageSize
  {
    var end := (rva + size) % ADDRESS_SPACE;
    rva < imageSize && end <= imageSize
  }

  /** A size narrowed into a `uint32_t` parameter. */
  function Narrow32(n: nat): (r: u32)
    ensures n < WORD ==> r == n
    ensures r < n || n < WORD
  {
    n % WORD
  }

  /**
   * The corrected table check: `count` entries of `width` bytes from `rva`,
   * sized without narrowing.
   */
  predicate TableFits(rva: u32, count: u32, width: nat, imageSize: u32) {
    rva < imageSize && rva + count * width <= imageSize
  }

  /** Every entry of a table that fits lies inside the image. */
  lemma TableFitsCovers(rva: u32, count: u32, width: nat, imageSize: u32, j: nat)
    requires TableFits(rva, count, width, imageSize) && j < count
    ensures rva + width * j + width <= imageSize
  {
    MulMono(width, j + 1, count);
  }

  lemma MulMono(a: nat, b: nat, c: nat)
    requires b <= c
    ensures a * b <= a * c
  {
  }

  /**
   * The table check as written: `NumberOfNames * sizeof(uint32_t)` is
   * narrowed into the `uint32_t size` parameter, so 0x40000000 names pass
   * as a table of size 0 although they span 4 GiB.
   */
  lemma NarrowedNamesCheckWraps(rva: u32, imageSize: u32)
    requires rva < imageSize
    ensures RvaInBounds(rva, Narrow32(0x4000_0000 * 4), imageSize)
    ensures !TableFits(rva, 0x4000_0000, 4, imageSize)
  {
  }

  /** The same for the ordinal table: 0x80000000 ordinals pass as size 0. */
  lemma NarrowedOrdinalsCheckWraps(rva: u32, imageSize: u32)
    requires rva < imageSize
    ensures RvaInBounds(rva, Narrow32(0x8000_0000 * 2), imageSize)
    ensures !TableFits(rva, 0x8000_0000, 2, imageSize)
  {
  }

  /** Below the wrap, the narrowed check and the corrected one agree. */
  lemma NarrowedCheckAgreesBelowWrap(rva: u32, count: u32, width: nat, imageSize: u32)
    requires count * width < WORD
    ensures RvaInBounds(rva, Narrow32(count * width), imageSize) <==> TableFits(rva, count, width, imageSize)
  {
  }

  // ---------------------------------------------------------------------
  // the export directory
  // ---------------------------------------------------------------------

  /** `IMAGE_DATA_DIRECTORY`. */
  datatype Directory = Directory(rva: u32, size: u32)

  /** The fields of `IMAGE_EXPORT_DIRECTORY` the walk reads. */
  datatype ExportDir = ExportDir(numFunctions: u32, numNames: u32, functions: u32, names: u32, ordinals: u32)

  function ReadExportDir(img: seq<byte>, at: nat): ExportDir
    requires at + EXPORT_DIR_BYTES <= |img|
  {
    ExportDir(U32(img, at + 0x14), U32(img, at + 0x18), U32(img, at + 0x1C),
              U32(img, at + 0x20), U32(img, at + 0x24))
  }

  /**
   * The forwarder test, in 64 bits: `func_rva` lies in
   * [VirtualAddress, VirtualAddress + Size).
   */
  function InDirectory(f: u32, d: Directory): (b: bool)
    ensures b <==> d.rva <= f < d.rva + d.size
  {
    var end := (d.rva + d.size) % ADDRESS_SPACE;
    f >= d.rva && f < end
  }

  /**
   * The three table checks.  As written (`fixed` false) each size is
   * narrowed to 32 bits; the corrected walk checks the full size.
   */
  predicate TablesInBounds(e: ExportDir, imageSize: u32, fixed: bool) {
    if fixed then
      && TableFits(e.names, e.numNames, 4, imageSize)
      && TableFits(e.ordinals, e.numNames, 2, imageSize)
      && TableFits(e.functions, e.numFunctions, 4, imageSize)
    else
      && RvaInBounds(e.names, Narrow32(e.numNames * 4), imageSize)
      && RvaInBounds(e.ordinals, Narrow32(e.numNames * 2), imageSize)
      && RvaInBounds(e.functions, Narrow32(e.numFunctions * 4), imageSize)
  }

  /** What a walk returns: `base + rva`, a forwarder string at `base + rva`, null, or an access violation. */
  datatype Export = Address(rva: u32) | Forward(rva: u32) | NotFound | Fault

  /** The checked headers a walk scans with. */
  datatype View = View(imageSize: u32, dir: Directory, exports: ExportDir)

  datatype Prelude = Ready(v: View) | Stop(r: Export)

  /** The export data directory of the NT headers at `nt`. */
  function DataDirectory(img: seq<byte>, nt: nat): Directory
    requires nt + EXPORT_ENTRY_AT + 8 <= |img|
  {
    Directory(U32(img, nt + EXPORT_ENTRY_AT), U32(img, nt + EXPORT_ENTRY_AT + 4))
  }

  /**
   * Everything `walkExportTable` checks before its loop.  `follow` selects
   * `walkExportTable` itself, which also rejects an empty directory; the
   * walk inlined in `resolve_forwarded_export` tests only its address.
   */
  function Prepare(img: seq<byte>, follow: bool, fixed: bool): (p: Prelude)
    ensures p.Stop? ==> p.r == NotFound || p.r == Fault
    ensures p.Ready? ==>
      && ValidatePeHeader(img).Valid?
      && p.v.imageSize == ValidatePeHeader(img).imageSize
      && ValidatePeHeader(img).nt + EXPORT_ENTRY_AT + 8 <= |img|
      && p.v.dir == DataDirectory(img, ValidatePeHeader(img).nt)
      && p.v.dir.rva != 0 && (follow ==> p.v.dir.size != 0)
      && RvaInBounds(p.v.dir.rva, p.v.dir.size, p.v.imageSize)
      && p.v.dir.rva + EXPORT_DIR_BYTES <= |img|
      && p.v.exports == ReadExportDir(img, p.v.dir.rva)
      && TablesInBounds(p.v.exports, p.v.imageSize, fixed)
  {
    match ValidatePeHeader(img)
    case Faulted => Stop(Fault)
    case Invalid => Stop(NotFound)
    case Valid(nt, size) =>
      if nt + EXPORT_ENTRY_AT + 8 > |img| then Stop(Fault)
      else
        var d := DataDirectory(img, nt);
        if d.rva == 0 || (follow && d.size == 0) then Stop(NotFound)
        else if !RvaInBounds(d.rva, d.size, size) then Stop(NotFound)
        else if d.rva + EXPORT_DIR_BYTES > |img| then Stop(Fault)
        else
          var e := ReadExportDir(img, d.rva);
          if !TablesInBounds(e, size, fixed) then Stop(NotFound)
          else Ready(View(size, d, e))
  }

  /** How the loop treats name `i`: skipped, matched, or an access violation. */
  datatype Entry = Skip | Hit | Faults

  /**
   * Name `i`: its RVA is read from the name table; one outside the image is
   * skipped, otherwise the NUL-terminated name there is hashed.
   */
  function EntryAt(img: seq<byte>, v: View, funcHash: bv32, i: nat): Entry {
    var at := v.exports.names + 4 * i;
    if at + 4 > |img| then Faults
    else
      var nameRva := U32(img, at);
      if !RvaInBounds(nameRva, 1, v.imageSize) then Skip
      else if nameRva >= |img| || !Terminated(Chars(img[nameRva..])) then Faults
      else if Fnv1a(CStr(Chars(img[nameRva..]))) == funcHash then Hit
      else Skip
  }

  /** The ordinal of name `i`, read from the ordinal table. */
  function OrdinalAt(img: seq<byte>, v: View, i: nat): nat
    requires v.exports.ordinals + 2 * i + 2 <= |img|
  {
    U16(img, v.exports.ordinals + 2 * i)
  }

  /**
   * The matched name `i`: its ordinal, checked against `NumberOfFunctions`,
   * selects `func_rva`.  The walk that follows forwarders hands an RVA inside
   * the export directory to the forwarder; the corrected walk also rejects
   * an RVA outside the image.
   */
  function Resolve(img: seq<byte>, v: View, i: nat, follow: bool, fixed: bool): (r: Export)
    ensures r.Forward? ==> follow && InDirectory(r.rva, v.dir)
    ensures r.Address? && follow ==> !InDirectory(r.rva, v.dir)
    ensures r.Address? && fixed ==> r.rva < v.imageSize
    ensures (r.Address? || r.Forward?) ==>
      && v.exports.ordinals + 2 * i + 2 <= |img|
      && OrdinalAt(img, v, i) < v.exports.numFunctions
      && v.exports.functions + 4 * OrdinalAt(img, v, i) + 4 <= |img|
      && r.rva == U32(img, v.exports.functions + 4 * OrdinalAt(img, v, i))
  {
    var at := v.exports.ordinals + 2 * i;
    if at + 2 > |img| then Fault
    else
      var ordinal := OrdinalAt(img, v, i);
      if ordinal >= v.exports.numFunctions then NotFound
      else
        var fat := v.exports.functions + 4 * ordinal;
        if fat + 4 > |img| then Fault
        else
          var f := U32(img, fat);
          if follow && InDirectory(f, v.dir) then Forward(f)
          else if fixed && f >= v.imageSize then NotFound
          else Address(f)
  }

  /**
   * As written, nothing bounds `func_rva`: a matched export whose function
   * entry lies past `SizeOfImage` (and outside the directory) is returned
   * as an address outside the module; the corrected walk returns null.
   */
  lemma ResolveEscapesImage(img: seq<byte>, v: View, i: nat, follow: bool, f: u32)
    requires v.exports.ordinals + 2 * i + 2 <= |img|
    requires OrdinalAt(img, v, i) < v.exports.numFunctions
    requires v.exports.functions + 4 * OrdinalAt(img, v, i) + 4 <= |img|
    requires f == U32(img, v.exports.functions + 4 * OrdinalAt(img, v, i))
    requires f >= v.imageSize && !InDirectory(f, v.dir)
    ensures Resolve(img, v, i, follow, false) == Address(f)
    ensures Resolve(img, v, i, follow, true) == NotFound
  {
  }

  /**
   * The loop from name `i` on, over the decision for each name (`entry`)
   * and the export a matched name resolves to (`resolve`): the first name
   * that faults or matches decides.
   */
  function Scan(n: nat, entry: nat -> Entry, resolve: nat -> Export, i: nat): Export
    decreases n - i
  {
    if i >= n then NotFound
    else
      match entry(i)
      case Faults => Fault
      case Skip => Scan(n, entry, resolve, i + 1)
      case Hit => resolve(i)
  }

  /** The decisions of `EntryAt` for the names of `v`. */
  function Entries(img: seq<byte>, v: View, funcHash: bv32): nat -> Entry {
    (j: nat) => EntryAt(img, v, funcHash, j)
  }

  /** The exports `Resolve` gives the names of `v`. */
  function Resolutions(img: seq<byte>, v: View, follow: bool, fixed: bool): nat -> Export {
    (j: nat) => Resolve(img, v, j, follow, fixed)
  }

  /** The outcome of `walkExportTable` (`follow`) or of the walk inlined in `resolve_forwarded_export`. */
  function Walk(img: seq<byte>, funcHash: bv32, follow: bool, fixed: bool): Export {
    match Prepare(img, follow, fixed)
    case Stop(r) => r
    case Ready(v) => Scan(v.exports.numNames, Entries(img, v, funcHash), Resolutions(img, v, follow, fixed), 0)
  }

  /** All names in [i, k) are skipped. */
  predicate SkippedUpTo(entry: nat -> Entry, i: nat, k: nat) {
    forall j :: i <= j < k ==> entry(j) == Skip
  }

  /** First match: when names [i, k) are skipped and name k matches, the scan resolves name k. */
  lemma {:induction false} ScanFindsFirstHit(n: nat, entry: nat -> Entry, resolve: nat -> Export, i: nat, k: nat)
    requires i <= k < n && SkippedUpTo(entry, i, k) && entry(k) == Hit
    ensures Scan(n, entry, resolve, i) == resolve(k)
    decreases k - i
  {
    if i < k {
      assert entry(i) == Skip;
      ScanFindsFirstHit(n, entry, resolve, i + 1, k);
    }
  }

  /** Conversely, whatever the scan returns that is not null or a fault comes from the first matching name. */
  lemma {:induction false} ScanOnlyFromHit(n: nat, entry: nat -> Entry, resolve: nat -> Export, i: nat)
    requires Scan(n, entry, resolve, i) != NotFound && Scan(n, entry, resolve, i) != Fault
    ensures exists k :: (i <= k < n && SkippedUpTo(entry, i, k) && entry(k) == Hit
      && Scan(n, entry, resolve, i) == resolve(k))
    decreases n - i
  {
    if entry(i) == Skip {
      ScanOnlyFromHit(n, entry, resolve, i + 1);
      var k :| i + 1 <= k < n && SkippedUpTo(entry, i + 1, k) && entry(k) == Hit
        && Scan(n, entry, resolve, i + 1) == resolve(k);
      assert SkippedUpTo(entry, i, k);
    } else {
      assert SkippedUpTo(entry, i, i);
    }
  }

  /**
   * What a successful walk guarantees: every check before the loop passed,
   * and the first matching name chose the export (its ordinal below
   * `NumberOfFunctions`, by `Resolve`).
   */
  lemma WalkFound(img: seq<byte>, funcHash: bv32, follow: bool, fixed: bool)
    requires Walk(img, funcHash, follow, fixed).Address? || Walk(img, funcHash, follow, fixed).Forward?
    ensures Prepare(img, follow, fixed).Ready?
    ensures var v := Prepare(img, follow, fixed).v;
      exists k :: 0 <= k < v.exports.numNames && SkippedUpTo(Entries(img, v, funcHash), 0, k)
        && EntryAt(img, v, funcHash, k) == Hit
        && Walk(img, funcHash, follow, fixed) == Resolve(img, v, k, follow, fixed)
  {
    var v := Prepare(img, follow, fixed).v;
    var entry, resolve := Entries(img, v, funcHash), Resolutions(img, v, follow, fixed);
    ScanOnlyFromHit(v.exports.numNames, entry, resolve, 0);
    var k :| 0 <= k < v.exports.numNames && SkippedUpTo(entry, 0, k) && entry(k) == Hit
      && Scan(v.exports.numNames, entry, resolve, 0) == resolve(k);
    assert resolve(k) == Resolve(img, v, k, follow, fixed);
  }

  /** The corrected walk's address lies inside the image. */
  lemma WalkInImage(img: seq<byte>, funcHash: bv32, follow: bool)
    requires Walk(img, funcHash, follow, true).Address?
    ensures ValidatePeHeader(img).Valid? && Walk(img, funcHash, follow, true).rva < ValidatePeHeader(img).imageSize
  {
    WalkFound(img, funcHash, follow, true);
  }

  /**
   * The converse: once the checks pass, the first matching name decides
   * the walk.
   */
  lemma WalkFindsFirstHit(img: seq<byte>, funcHash: bv32, follow: bool, fixed: bool, k: nat)
    requires Prepare(img, follow, fixed).Ready?
    requires var v := Prepare(img, follow, fixed).v;
      k < v.exports.numNames && SkippedUpTo(Entries(img, v, funcHash), 0, k) && EntryAt(img, v, funcHash, k) == Hit
    ensures Walk(img, funcHash, follow, fixed) == Resolve(img, Prepare(img, follow, fixed).v, k, follow, fixed)
  {
    var v := Prepare(img, follow, fixed).v;
    ScanFindsFirstHit(v.exports.numNames, Entries(img, v, funcHash), Resolutions(img, v, follow, fixed), 0, k);
  }

  /**
   * One round of the loop: read `names[i]`, skip an RVA outside the image,
   * hash the name with `fnv1a_runtime` and compare.
   */
  method CheckName(img: seq<byte>, v: View, funcHash: bv32, i: nat) returns (e: Entry)
    ensures e == EntryAt(img, v, funcHash, i)
  {
    var at := v.exports.names + 4 * i;
    if at + 4 > |img| {
      return Faults;
    }
    var nameRva := U32(img, at);
    if !RvaInBounds(nameRva, 1, v.imageSize) {
      return Skip;
    }
    if nameRva >= |img| || !Terminated(Chars(img[nameRva..])) {
      return Faults;
    }
    var h := HashRuntime(Chars(img[nameRva..]));
    e := if h == funcHash then Hit else Skip;
  }

  /**
   * `walkExportTable` (`follow`) and the walk inlined in
   * `resolve_forwarded_export`: an index scan over the name table.
   */
  method WalkExportTable(img: seq<byte>, funcHash: bv32, follow: bool, fixed: bool) returns (r: Export)
    ensures r == Walk(img, funcHash, follow, fixed)
  {
    var p := Prepare(img, follow, fixed);
    if p.Stop? {
      return p.r;
    }
    r := ScanNames(img, p.v, funcHash, follow, fixed);
  }

  /** The loop of the walk: names `0 .. NumberOfNames - 1` in order. */
  method ScanNames(img: seq<byte>, v: View, funcHash: bv32, follow: bool, fixed: bool) returns (r: Export)
    ensures r == Scan(v.exports.numNames, Entries(img, v, funcHash), Resolutions(img, v, follow, fixed), 0)
  {
    ghost var entry, resolve := Entries(img, v, funcHash), Resolutions(img, v, follow, fixed);
    var i: nat := 0;
    while i < v.exports.numNames
      invariant Scan(v.exports.numNames, entry, resolve, 0) == Scan(v.exports.numNames, entry, resolve, i)
      decreases v.exports.numNames - i
    {
      var e := CheckName(img, v, funcHash, i);
      assert e == entry(i);
      if e == Faults {
        return Fault;
      } else if e == Hit {
        assert resolve(i) == Resolve(img, v, i, follow, fixed);
        return Resolve(img, v, i, follow, fixed);
      }
      i := i + 1;
    }
    return NotFound;
  }

  // ---------------------------------------------------------------------
  // loaded modules (getModuleBase)
  // ---------------------------------------------------------------------

  /**
   * A loader entry: `BaseDllName` (its buffer and `Length`; a null buffer is
   * the empty sequence), `DllBase`, and the bytes mapped there.
   */
  datatype LoadedModule = LoadedModule(nameBuffer: seq<bv16>, nameLength: nat, base: address, image: seq<byte>)

  /** An entry the lookup passes over without reading its name. */
  predicate Unnamed(m: LoadedModule) {
    |m.nameBuffer| == 0 || m.nameLength == 0
  }

  /** The entry's name hashes to `moduleHash` under `fnv1a_runtime_ci_w2a`. */
  predicate NamedAs(m: LoadedModule, moduleHash: bv32) {
    !Unnamed(m) && WTerminated(m.nameBuffer)
    && Fnv1a(LowBytes(LowerWideAll(WCStr(m.nameBuffer)))) == moduleHash
  }

  /** Entry `m` is passed over by the lookup: unnamed, or named otherwise. */
  predicate PassedOver(m: LoadedModule, moduleHash: bv32) {
    Unnamed(m) || (WTerminated(m.nameBuffer) && !NamedAs(m, moduleHash))
  }

  /**
   * The index of the first entry whose name hashes to `moduleHash`; `None`
   * when there is none, or when an unterminated name faults first.
   */
  function FindModule(mods: seq<LoadedModule>, moduleHash: bv32): (r: Option<nat>)
    ensures r.Some? ==> r.value < |mods| && NamedAs(mods[r.value], moduleHash)
  {
    FindFrom(mods, moduleHash, 0)
  }

  function FindFrom(mods: seq<LoadedModule>, moduleHash: bv32, i: nat): (r: Option<nat>)
    ensures r.Some? ==> i <= r.value < |mods| && NamedAs(mods[r.value], moduleHash)
    decreases |mods| - i
  {
    if i >= |mods| then None
    else if Unnamed(mods[i]) then FindFrom(mods, moduleHash, i + 1)
    else if !WTerminated(mods[i].nameBuffer) then None
    else if NamedAs(mods[i], moduleHash) then Some(i)
    else FindFrom(mods, moduleHash, i + 1)
  }

  /** First match, both ways: the lookup finds k exactly when k matches and every earlier entry is passed over. */
  lemma FindFromFirstMatch(mods: seq<LoadedModule>, moduleHash: bv32, i: nat, k: nat)
    requires i <= k
    ensures FindFrom(mods, moduleHash, i) == Some(k) <==>
      (k < |mods| && NamedAs(mods[k], moduleHash) && forall j :: i <= j < k ==> PassedOver(mods[j], moduleHash))
  {
    if FindFrom(mods, moduleHash, i) == Some(k) {
      FindFromOnlyFirst(mods, moduleHash, i, k);
    }
    if k < |mods| && NamedAs(mods[k], moduleHash) && forall j :: i <= j < k ==> PassedOver(mods[j], moduleHash) {
      FindFromReaches(mods, moduleHash, i, k);
    }
  }

  /** A found entry is preceded only by entries passed over. */
  lemma {:induction false} FindFromOnlyFirst(mods: seq<LoadedModule>, moduleHash: bv32, i: nat, k: nat)
    requires FindFrom(mods, moduleHash, i) == Some(k)
    ensures forall j :: i <= j < k ==> PassedOver(mods[j], moduleHash)
    decreases |mods| - i
  {
    if i < k {
      assert PassedOver(mods[i], moduleHash);
      FindFromOnlyFirst(mods, moduleHash, i + 1, k);
    }
  }

  /** Passing over every entry before a match reaches that match. */
  lemma {:induction false} FindFromReaches(mods: seq<LoadedModule>, moduleHash: bv32, i: nat, k: nat)
    requires i <= k < |mods| && NamedAs(mods[k], moduleHash)
    requires forall j :: i <= j < k ==> PassedOver(mods[j], moduleHash)
    ensures FindFrom(mods, moduleHash, i) == Some(k)
    decreases k - i
  {
    if i < k {
      assert PassedOver(mods[i], moduleHash);
      FindFromReaches(mods, moduleHash, i + 1, k);
      assert FindFrom(mods, moduleHash, i) == FindFrom(mods, moduleHash, i + 1);
    }
  }

  /** The lookup returns k iff entry k is the first whose name hashes to `moduleHash`. */
  lemma FindModuleFirstMatch(mods: seq<LoadedModule>, moduleHash: bv32, k: nat)
    ensures FindModule(mods, moduleHash) == Some(k) <==>
      (k < |mods| && NamedAs(mods[k], moduleHash) && forall j :: 0 <= j < k ==> PassedOver(mods[j], moduleHash))
  {
    FindFromFirstMatch(mods, moduleHash, 0, k);
  }

  /** `getModuleBase` (user mode): the loop over the loader's module list. */
  method GetModuleBase(mods: seq<LoadedModule>, moduleHash: bv32) returns (r: Option<nat>)
    ensures r == FindModule(mods, moduleHash)
  {
    var i := 0;
    while i < |mods|
      invariant i <= |mods| && FindFrom(mods, moduleHash, i) == FindModule(mods, moduleHash)
    {
      var m := mods[i];
      if !Unnamed(m) {
        if !WTerminated(m.nameBuffer) {
          return None;
        }
        var h := HashRuntimeCiW2a(m.nameBuffer);
        if h == moduleHash {
          return Some(i);
        }
      }
      i := i + 1;
    }
    return None;
  }

  // ---------------------------------------------------------------------
  // resolve_forwarded_export and getProcAddress
  // ---------------------------------------------------------------------

  const DOT: bv8 := 0x2E
  /** ".dll". */
  const DLL_SUFFIX: seq<bv8> := [0x2E, 0x64, 0x6C, 0x6C]
  /** `sizeof(module_name)`. */
  const MODULE_NAME_BYTES: nat := 256

  /** A forwarder "Module.Function" split into "Module.dll" and "Function". */
  datatype Forwarder = Forwarder(moduleName: seq<bv8>, funcName: seq<bv8>)

  /** The index of the first byte of `s` that is a dot or the terminator. */
  function DotOrEnd(s: seq<bv8>): (n: nat)
    requires Terminated(s)
    ensures n <= StrLen(s) && (n < StrLen(s) <==> s[n] == DOT)
    ensures forall j :: 0 <= j < n ==> s[j] != DOT && s[j] != 0
  {
    if s[0] == 0 || s[0] == DOT then 0
    else
      assert 0 in s[1..];
      1 + DotOrEnd(s[1..])
  }

  /**
   * The split of `resolve_forwarded_export`: no dot, or a module part of
   * 251 bytes or more (no room for ".dll" and the NUL), gives null.
   */
  function SplitForwarder(s: seq<bv8>): (r: Option<Forwarder>)
    requires Terminated(s)
    ensures r.Some? ==> |r.value.moduleName| + 1 <= MODULE_NAME_BYTES
  {
    var k := DotOrEnd(s);
    if s[k] == 0 then None
    else if k >= MODULE_NAME_BYTES - 5 then None
    else
      assert 0 in s[k + 1..] by { assert s[StrLen(s)] == 0; }
      Some(Forwarder(s[..k] + DLL_SUFFIX, CStr(s[k + 1..])))
  }

  /** The loop that finds the dot, then the copy and the ".dll" suffix. */
  method SplitForwarderString(s: seq<bv8>) returns (r: Option<Forwarder>)
    requires Terminated(s)
    ensures r == SplitForwarder(s)
  {
    var dot := 0;
    while s[dot] != 0 && s[dot] != DOT
      invariant dot <= DotOrEnd(s)
      decreases DotOrEnd(s) - dot
    {
      dot := dot + 1;
    }
    if s[dot] == 0 {
      return None;
    }
    if dot >= MODULE_NAME_BYTES - 5 {
      return None;
    }
    var name := s[..dot] + DLL_SUFFIX;
    return Some(Forwarder(name, CStr(s[dot + 1..])));
  }

  /**
   * The split inverts the forwarder's construction: a dot-free module name
   * shorter than 251 bytes and a function name, joined by a dot and stored
   * with a terminator, split back into the module's ".dll" name and the
   * function name.
   */
  lemma {:induction false} SplitJoin(m: seq<bv8>, f: seq<bv8>, rest: seq<bv8>)
    requires NulFree(m) && DOT !in m && |m| < MODULE_NAME_BYTES - 5 && NulFree(f)
    ensures Terminated(m + [DOT] + f + [0] + rest)
    ensures SplitForwarder(m + [DOT] + f + [0] + rest) == Some(Forwarder(m + DLL_SUFFIX, f))
  {
    var s := m + [DOT] + f + [0] + rest;
    assert s[|m| + 1 + |f|] == 0;
    DotOrEndAt(m, s);
    assert s[|m| + 1..] == f + [0] + rest;
    CStrOfLiteral(f, rest);
    assert s[..|m|] == m;
  }

  lemma {:induction false} DotOrEndAt(m: seq<bv8>, s: seq<bv8>)
    requires NulFree(m) && DOT !in m && |m| < |s| && s[..|m|] == m && s[|m|] == DOT && Terminated(s)
    ensures DotOrEnd(s) == |m|
  {
    if m != [] {
      assert m[0] in m;
      assert s[1..][..|m| - 1] == m[1..];
      assert 0 in s[1..] by {
        assert s[StrLen(s)] == 0;
        assert StrLen(s) > 0;
      }
      DotOrEndAt(m[1..], s[1..]);
    }
  }

  /** A forwarder's target: a loaded module and the hash of a function name. */
  datatype Target = Target(index: nat, funcHash: bv32)

  /**
   * The target a forwarder string at `f` names: the index of the first
   * loaded module whose name matches its module part plus ".dll"
   * (`fnv1a_runtime_ci`), and the `fnv1a_runtime` hash of its function part.
   */
  function ForwardTarget(mods: seq<LoadedModule>, img: seq<byte>, f: u32): (r: Option<Target>)
    ensures r.Some? ==> r.value.index < |mods|
  {
    if f >= |img| || !Terminated(Chars(img[f..])) then None
    else
      match SplitForwarder(Chars(img[f..]))
      case None => None
      case Some(fw) =>
        match FindModule(mods, Fnv1a(LowerAll(fw.moduleName)))
        case None => None
        case Some(k) => Some(Target(k, Fnv1a(fw.funcName)))
  }

  /**
   * `resolve_forwarded_export`: one level, through the inlined walk that
   * does not follow a second forwarder; a null `DllBase` gives null.
   */
  function ResolveForwardedExport(mods: seq<LoadedModule>, img: seq<byte>, f: u32, fixed: bool): (r: Option<address>)
  {
    var t := ForwardTarget(mods, img, f);
    if t.None? then None else ResolveIn(mods[t.value.index], t.value.funcHash, fixed)
  }

  /**
   * The inlined walk over the target module: null for a null `DllBase`,
   * otherwise `DllBase + func_rva`, the forwarder not being followed again.
   */
  function ResolveIn(target: LoadedModule, funcHash: bv32, fixed: bool): (r: Option<address>)
  {
    if target.base == 0 then None
    else
      var w := Walk(target.image, funcHash, false, fixed);
      if w.Address? then Some(Rebase(target.base, w.rva)) else None
  }

  /** `base + rva` in 64-bit address arithmetic. */
  function Rebase(base: address, rva: u32): address {
    (base + rva) % ADDRESS_SPACE
  }

  /** `a - base`, in 64-bit address arithmetic, is below `size`. */
  predicate Within(a: address, base: address, size: nat) {
    (a - base) % ADDRESS_SPACE < size
  }

  /** `a` lies in the image mapped at `base`: `a - base` is below `SizeOfImage`. */
  predicate InModule(a: address, base: address, img: seq<byte>) {
    ValidatePeHeader(img).Valid? && Within(a, base, ValidatePeHeader(img).imageSize)
  }

  /**
   * `getProcAddress` (user mode): null for a null module, the walk's
   * address, or the forwarder's target; an access violation gives null.
   */
  function GetProcAddress(mods: seq<LoadedModule>, base: address, img: seq<byte>, funcHash: bv32, fixed: bool): (r: Option<address>)
    ensures r.Some? ==> base != 0
  {
    if base == 0 then None
    else
      match Walk(img, funcHash, true, fixed)
      case Address(f) => Some(Rebase(base, f))
      case Forward(f) => ResolveForwardedExport(mods, img, f, fixed)
      case _ => None
  }

  /** `base + off`, in 64-bit address arithmetic, lies within `size` of `base` when `off` is below `size`. */
  lemma OffsetWithin(base: address, off: u32, size: nat)
    requires off < size
    ensures Within(Rebase(base, off), base, size)
  {
    if base + off >= ADDRESS_SPACE {
      assert (base + off) % ADDRESS_SPACE == base + off - ADDRESS_SPACE;
    }
  }

  /** The corrected inlined walk lands inside the target module's image. */
  lemma ResolveInImage(target: LoadedModule, funcHash: bv32)
    requires ResolveIn(target, funcHash, true).Some?
    ensures InModule(ResolveIn(target, funcHash, true).value, target.base, target.image)
  {
    var w := Walk(target.image, funcHash, false, true);
    WalkInImage(target.image, funcHash, false);
    OffsetWithin(target.base, w.rva, ValidatePeHeader(target.image).imageSize);
  }

  /** A forwarder resolved by the corrected walk lands inside the image of the module it names. */
  lemma ForwardedInImage(mods: seq<LoadedModule>, img: seq<byte>, f: u32)
    requires ResolveForwardedExport(mods, img, f, true).Some?
    ensures exists k :: 0 <= k < |mods| && InModule(ResolveForwardedExport(mods, img, f, true).value, mods[k].base, mods[k].image)
  {
    var t := ForwardTarget(mods, img, f).value;
    ResolveInImage(mods[t.index], t.funcHash);
  }

  /**
   * With the corrected checks every address returned lies inside a mapped
   * image: the module's own, or the one its forwarder names.
   */
  lemma CorrectedAddressInImage(mods: seq<LoadedModule>, base: address, img: seq<byte>, funcHash: bv32)
    requires GetProcAddress(mods, base, img, funcHash, true).Some?
    ensures var a := GetProcAddress(mods, base, img, funcHash, true).value;
      InModule(a, base, img) || exists k :: 0 <= k < |mods| && InModule(a, mods[k].base, mods[k].image)
  {
    match Walk(img, funcHash, true, true)
    case Address(f) =>
      WalkInImage(img, funcHash, true);
      OffsetWithin(base, f, ValidatePeHeader(img).imageSize);
    case Forward(f) =>
      ForwardedInImage(mods, img, f);
  }
}
