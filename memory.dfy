/**
 * The process image the patch engine reads and overwrites, as an array of
 * bytes indexed by address, together with the two memory primitives it uses:
 * the byte-by-byte snapshot read done when a patch is created, and the
 * all-or-nothing write primitive that enable and disable delegate to.
 */
module Memory {

  /** `m` with the bytes from `at` on replaced by `bytes`. */
  function Splice(m: seq<bv8>, at: nat, bytes: seq<bv8>): (r: seq<bv8>)
    requires at + |bytes| <= |m|
    ensures |r| == |m|
  {
    m[..at] + bytes + m[at + |bytes|..]
  }

  /** What each address holds after a splice. */
  lemma SpliceAt(m: seq<bv8>, at: nat, bytes: seq<bv8>, k: nat)
    requires at + |bytes| <= |m| && k < |m|
    ensures Splice(m, at, bytes)[k] == if at <= k < at + |bytes| then bytes[k - at] else m[k]
  {
  }

  /** After a splice the range reads back exactly the bytes written. */
  lemma SpliceReadsBack(m: seq<bv8>, at: nat, bytes: seq<bv8>)
    requires at + |bytes| <= |m|
    ensures Splice(m, at, bytes)[at..at + |bytes|] == bytes
  {
  }

  /**
   * Writing the patch bytes over a range that holds the snapshot `original`,
   * then writing `original` back, restores the whole image.
   */
  lemma SpliceRestores(m: seq<bv8>, at: nat, original: seq<bv8>, patch: seq<bv8>)
    requires at + |patch| <= |m| && |original| == |patch|
    requires m[at..at + |patch|] == original
    ensures Splice(Splice(m, at, patch), at, original) == m
  {
  }

  /**
   * Snapshot of `amount` bytes starting at `address`, read one byte at a
   * time and appended in address order.  The source dereferences the raw
   * address without a check, so the range must lie inside the image.
   */
  method ReadMemory(mem: array<bv8>, address: nat, amount: nat) returns (ret: seq<bv8>)
    requires address + amount <= mem.Length
    ensures |ret| == amount
    ensures forall i :: 0 <= i < amount ==> ret[i] == mem[address + i]
    ensures ret == mem[address..address + amount]
  {
    ret := [];
    var i := 0;
    while i < amount
      invariant 0 <= i <= amount
      invariant ret == mem[address..address + i]
    {
      ret := ret + [mem[address + i]];
      i := i + 1;
    }
  }

  /**
   * The write primitive the engine delegates to.  Its outcome is supplied by
   * the caller (`succeeds`: page protection and cache flushing happened
   * without error); a range outside the image fails as well.  It writes all of
   * `bytes` or nothing.
   */
  method WriteMemory(mem: array<bv8>, address: nat, bytes: seq<bv8>, succeeds: bool) returns (ok: bool)
    modifies mem
    ensures ok <==> succeeds && address + |bytes| <= mem.Length
    ensures ok ==> mem[..] == Splice(old(mem[..]), address, bytes)
    ensures !ok ==> mem[..] == old(mem[..])
  {
    ok := succeeds && address + |bytes| <= mem.Length;
    if ok {
      var i := 0;
      while i < |bytes|
        invariant 0 <= i <= |bytes|
        invariant forall k :: 0 <= k < mem.Length ==>
          mem[k] == if address <= k < address + i then bytes[k - address] else old(mem[k])
      {
        mem[address + i] := bytes[i];
        i := i + 1;
      }
      forall k | 0 <= k < mem.Length
        ensures mem[..][k] == Splice(old(mem[..]), address, bytes)[k]
      {
        SpliceAt(old(mem[..]), address, bytes, k);
      }
    }
  }
}
