/**
 * `obfuscated_call<Func>`: a function pointer kept XTEA-encrypted under a
 * random key, hidden among a random number of random decoy words.  A
 * pointer is a 64-bit address; every `CW_RANDOM_RT()` draw is a parameter.
 */
module ObfCall {
  import opened Words
  import opened Xtea

  /** `MAX_DECOYS`, the capacity of the decoy table. */
  const MAX_DECOYS: nat := 16

  /** `sizeof(uintptr_t)` on a 64-bit target. */
  const PTR_BYTES: nat := 8

  /** `4 + (CW_RANDOM_RT() % (MAX_DECOYS - 4 + 1))`: between 4 and 16 decoys. */
  function DecoyCount(r: nat): (n: nat)
    ensures 4 <= n <= MAX_DECOYS
  {
    4 + r % (MAX_DECOYS - 4 + 1)
  }

  /** Every count from 4 to 16 is drawn by some random word. */
  lemma DecoyCountCovers(n: nat)
    requires 4 <= n <= MAX_DECOYS
    ensures DecoyCount(n - 4) == n
  {
  }

  /** The bytes `encrypt_ptr` leaves in `encrypted_addr` for the address `addr`. */
  function EncryptedAddr(addr: bv64, key: Key128): (r: seq<bv8>)
    ensures |r| == PTR_BYTES
  {
    Encrypted(Store64(addr), key)
  }

  /** `decrypt_ptr` undoes `encrypt_ptr`, whatever the key. */
  lemma AddrRoundTrip(addr: bv64, key: Key128)
    ensures Load64(Decrypted(EncryptedAddr(addr, key), key), 0) == addr
  {
    BufferRoundTrip(Store64(addr), key);
    LoadStore64(addr);
  }

  class ObfuscatedCall {
    const encryptedAddr: array<bv8>
    const ptrKey: Key128
    const decoys: array<bv64>
    var decoyCount: nat
    var realIndex: nat
    /** The address the object was built with. */
    ghost const target: bv64

    /**
     * The object's invariant: the encrypted address is the target's, the
     * decoy count is in [4, 16], the real index is below it, and that slot
     * holds the encrypted address read as a word.
     */
    ghost predicate Valid()
      reads this, encryptedAddr, decoys
    {
      && encryptedAddr.Length == PTR_BYTES
      && decoys.Length == MAX_DECOYS
      && encryptedAddr != decoys as object
      && encryptedAddr[..] == EncryptedAddr(target, ptrKey)
      && 4 <= decoyCount <= MAX_DECOYS
      && realIndex < decoyCount
      && decoys[realIndex] == Load64(encryptedAddr[..], 0)
    }

    /** `encrypt_ptr(ptr)`: the address's bytes, encrypted in place. */
    static method EncryptPtr(buf: array<bv8>, addr: bv64, key: Key128)
      requires buf.Length == PTR_BYTES
      modifies buf
      ensures buf[..] == EncryptedAddr(addr, key)
    {
      var bytes := Store64(addr);
      forall i | 0 <= i < PTR_BYTES {
        buf[i] := bytes[i];
      }
      assert buf[..] == bytes;
      EncryptBuffer(buf, key);
    }

    /**
     * `obfuscated_call(func)`: four random key words, the encrypted
     * address, `DecoyCount(countDraw)` decoys taken from `draws`, and the
     * encrypted address written over slot `indexDraw % decoy_count`.
     */
    constructor (func: bv64, key: Key128, countDraw: nat, indexDraw: nat, draws: seq<bv64>)
      requires |draws| == MAX_DECOYS
      ensures Valid() && target == func && ptrKey == key
      ensures decoyCount == DecoyCount(countDraw) && realIndex == indexDraw % decoyCount
      ensures forall i :: 0 <= i < decoyCount && i != realIndex ==> decoys[i] == draws[i]
      ensures decoys[realIndex] == Load64(EncryptedAddr(func, key), 0)
      ensures fresh(encryptedAddr) && fresh(decoys)
    {
      ptrKey := key;
      target := func;
      var buf := new bv8[PTR_BYTES];
      EncryptPtr(buf, func, key);
      encryptedAddr := buf;
      var count := DecoyCount(countDraw);
      var index := indexDraw % count;
      var table := new bv64[MAX_DECOYS](_ => 0);
      FillDecoys(table, count, draws);
      table[index] := Load64(buf[..], 0);
      decoys := table;
      decoyCount := count;
      realIndex := index;
    }

    /** The loop that fills the first `count` decoy slots with random words. */
    static method FillDecoys(table: array<bv64>, count: nat, draws: seq<bv64>)
      requires count <= table.Length && count <= |draws|
      modifies table
      ensures forall j :: 0 <= j < count ==> table[j] == draws[j]
    {
      var i := 0;
      while i < count
        invariant 0 <= i <= count
        invariant forall j :: 0 <= j < i ==> table[j] == draws[j]
      {
        table[i] := draws[i];
        i := i + 1;
      }
    }

    /** `decrypt_ptr()`: a copy of the encrypted bytes, decrypted, read as an address. */
    method DecryptPtr() returns (addr: bv64)
      requires Valid()
      ensures addr == target
    {
      var temp := new bv8[PTR_BYTES];
      forall i | 0 <= i < PTR_BYTES {
        temp[i] := encryptedAddr[i];
      }
      ghost var enc := temp[..];
      assert enc == EncryptedAddr(target, ptrKey);
      DecryptBuffer(temp, ptrKey);
      assert temp[..] == Decrypted(enc, ptrKey);
      AddrRoundTrip(target, ptrKey);
      addr := Load64(temp[..], 0);
    }

    /**
     * `operator()`: counts the call in the shared `call_count` (passed in
     * and returned), says whether the inline debugger check runs, and
     * returns the address that is called.
     */
    method Call(callCount: nat) returns (addr: bv64, next: nat, check: bool)
      requires Valid() && callCount < COUNT_MOD
      ensures next == NextCount(callCount) && (check <==> next % 100 == 0)
      ensures addr == target
    {
      next := NextCount(callCount);
      check := next % 100 == 0;
      addr := DecryptPtr();
    }
  }
}
