/**
 * The runtime byte-patch engine: a patch overwrites the bytes at a fixed
 * address of the running image, keeps a snapshot of the bytes it replaced so
 * that it can put them back, and refuses to go live while its range
 * intersects the range of any patch already enabled anywhere in the process.
 * The process-wide list of enabled patches is the `Registry`; the process
 * image is an array of bytes handed to each operation.
 */
module PatchEngine {
  import opened Wrappers
  import opened Ranges
  import opened Memory
  import opened Decimal

  /** Addresses are `uintptr_t`: every address and range end stays below 2^64. */
  const Word: nat := 0x1_0000_0000_0000_0000

  /** The identifier of the mod that owns a patch. */
  type OwnerId = string

  datatype PatchError =
    | Overlap(address: nat, owner: OwnerId)  // an enabled patch at `address`, owned by `owner`, is in the way
    | WriteFailed                           // the write primitive reported an error
    | DisownFailed                          // the owner refused to disown the patch

  datatype Status = Ok | Fail(error: PatchError)

  /** What became of one step of the teardown sequence. */
  datatype Step = Skipped | Succeeded | Failed(error: PatchError)

  /** The outcome of a teardown; failures are only logged by the source. */
  datatype Teardown = Teardown(disable: Step, disown: Step)

  /** The inspection record exported for a patch. */
  datatype RuntimeInfo = RuntimeInfo(address: string, original: seq<bv8>, patch: seq<bv8>, enabled: bool)

  /** No patch instance occurs twice. */
  predicate Distinct(s: seq<Patch>)
  {
    forall i, j :: 0 <= i < j < |s| ==> s[i] != s[j]
  }

  /** No two entries pass the enable-time intersection test against each other. */
  predicate Disjoint(s: seq<Patch>)
  {
    forall i, j :: 0 <= i < |s| && 0 <= j < |s| && i != j ==> !Intersects(s[i].Span(), s[j].Span())
  }

  /** The position of the first entry whose range intersects `span`, if any. */
  function FirstConflict(s: seq<Patch>, span: Range): (r: Option<nat>)
    ensures r.Some? ==> r.value < |s| && Intersects(span, s[r.value].Span())
    ensures r.Some? ==> forall j :: 0 <= j < r.value ==> !Intersects(span, s[j].Span())
    ensures r.None? <==> forall j :: 0 <= j < |s| ==> !Intersects(span, s[j].Span())
  {
    if |s| == 0 then None
    else if Intersects(span, s[0].Span()) then Some(0)
    else match FirstConflict(s[1..], span)
      case None => None
      case Some(k) => Some(k + 1)
  }

  /** The first position holding exactly the instance `p` (identity, not value). */
  function IndexOf(s: seq<Patch>, p: Patch): (i: nat)
    requires p in s
    ensures i < |s| && s[i] == p && p !in s[..i]
  {
    if s[0] == p then 0
    else
      assert s == [s[0]] + s[1..];
      var k := IndexOf(s[1..], p);
      assert s[..k + 1] == [s[0]] + s[1..][..k];
      k + 1
  }

  /** The conflict message names the owner of the first conflicting patch,
      which the source dereferences without a check. */
  ghost predicate ConflictHasOwner(s: seq<Patch>, span: Range)
    reads s
  {
    var c := FirstConflict(s, span);
    c.Some? ==> s[c.value].owner.Some?
  }

  /** A patch that passes the scan is not yet registered: every patch range
      intersects itself. */
  lemma NoConflictNotRegistered(s: seq<Patch>, p: Patch)
    requires FirstConflict(s, p.Span()) == None
    ensures p !in s
  {
  }

  /** An enabled patch always conflicts, at least with itself. */
  lemma RegisteredConflicts(s: seq<Patch>, p: Patch)
    requires p in s
    ensures FirstConflict(s, p.Span()).Some?
  {
  }

  /** Appending a patch that passed the scan keeps the list duplicate-free and
      pairwise non-intersecting. */
  lemma AppendKeepsInvariant(s: seq<Patch>, p: Patch)
    requires Distinct(s) && Disjoint(s)
    requires FirstConflict(s, p.Span()) == None
    ensures Distinct(s + [p]) && Disjoint(s + [p])
  {
  }

  /** Removing one entry keeps the invariant, drops exactly that instance and
      keeps every other entry. */
  lemma RemoveKeepsInvariant(s: seq<Patch>, k: nat)
    requires Distinct(s) && Disjoint(s) && k < |s|
    ensures Distinct(s[..k] + s[k + 1..]) && Disjoint(s[..k] + s[k + 1..])
    ensures s[k] !in s[..k] + s[k + 1..]
    ensures forall q :: q in s[..k] + s[k + 1..] <==> q in s && q != s[k]
  {
  }

  /** Patches in a registry that satisfies the invariant never cover a common byte. */
  lemma DisjointNoSharedByte(s: seq<Patch>, i: nat, j: nat, x: nat)
    requires Disjoint(s) && i < |s| && j < |s| && i != j
    ensures !(Covers(s[i].Span(), x) && Covers(s[j].Span(), x))
  {
  }

  /** The process-wide list of enabled patches. */
  class Registry {
    var entries: seq<Patch>

    /** Every entry is enabled and well formed, no instance occurs twice and
        no two entries intersect. */
    ghost predicate Valid()
      reads this, entries
    {
      Distinct(entries) && Disjoint(entries) &&
      forall p :: p in entries ==> p.enabled && p.Valid()
    }

    /** The list starts out empty, on first use. */
    constructor ()
      ensures Valid() && entries == []
    {
      entries := [];
    }
  }

  class Patch {
    const address: nat
    const original: seq<bv8>
    const patch: seq<bv8>
    var enabled: bool
    var owner: Option<OwnerId>

    /** The snapshot is as long as the replacement and the range does not wrap. */
    ghost predicate Valid()
    {
      |original| == |patch| && address + |patch| < Word
    }

    constructor (address: nat, original: seq<bv8>, patch: seq<bv8>)
      ensures this.address == address && this.original == original && this.patch == patch
      ensures !enabled && owner == None
    {
      this.address := address;
      this.original := original;
      this.patch := patch;
      enabled := false;
      owner := None;
    }

    /**
     * Builds a disabled, ownerless patch whose snapshot is the bytes currently
     * at `address`.  It neither writes memory nor touches the registry.
     */
    static method Create(mem: array<bv8>, address: nat, patch: seq<bv8>) returns (p: Patch)
      requires address + |patch| <= mem.Length && address + |patch| < Word
      ensures fresh(p) && p.Valid()
      ensures p.address == address && p.patch == patch && !p.enabled && p.owner == None
      ensures |p.original| == |patch|
      ensures forall i :: 0 <= i < |patch| ==> p.original[i] == mem[address + i]
    {
      var original := ReadMemory(mem, address, |patch|);
      p := new Patch(address, original, patch);
    }

    /** The numeric address; it fits a machine word. */
    function GetAddress(): (a: nat)
      requires Valid()
      ensures a == address && a < Word
    {
      address
    }

    /** The range [address, address + length] the intersection test works on. */
    function Span(): (r: Range)
    {
      Range(address, address + |patch|)
    }

    /**
     * Scans every enabled patch and fails on the first one whose range
     * intersects this one, naming its address and owner; otherwise writes the
     * replacement bytes and, if the write succeeds, marks this patch enabled and
     * appends it to the registry.  Every failure leaves memory, the flag and the
     * registry as they were.
     */
    method Enable(reg: Registry, mem: array<bv8>, writeSucceeds: bool) returns (r: Status)
      requires Valid() && reg.Valid() && (enabled <==> this in reg.entries)
      requires ConflictHasOwner(reg.entries, Span())
      modifies this`enabled, reg`entries, mem
      ensures reg.Valid() && (enabled <==> this in reg.entries)
      ensures forall q: Patch :: q != this ==> (q in reg.entries <==> q in old(reg.entries))
      ensures match FirstConflict(old(reg.entries), Span())
        case Some(k) =>
          && r == Fail(Overlap(old(reg.entries[k].address), old(reg.entries[k].owner.value)))
          && enabled == old(enabled) && reg.entries == old(reg.entries) && mem[..] == old(mem[..])
        case None =>
          if writeSucceeds && address + |patch| <= mem.Length then
            && r == Ok && enabled && reg.entries == old(reg.entries) + [this]
            && mem[..] == Splice(old(mem[..]), address, patch)
          else
            && r == Fail(WriteFailed)
            && enabled == old(enabled) && reg.entries == old(reg.entries) && mem[..] == old(mem[..])
    {
      var all := reg.entries;
      var i := 0;
      while i < |all|
        invariant 0 <= i <= |all|
        invariant forall j :: 0 <= j < i ==> !Intersects(Span(), all[j].Span())
      {
        var other := all[i];
        var thisMin := GetAddress();
        var thisMax := GetAddress() + |patch|;
        var otherMin := other.GetAddress();
        var otherMax := other.GetAddress() + |other.patch|;
        var intersects := !(otherMax < thisMin || thisMax < otherMin);
        if intersects {
          assert FirstConflict(all, Span()) == Some(i);
          return Fail(Overlap(other.address, other.owner.value));
        }
        i := i + 1;
      }
      var ok := WriteMemory(mem, address, patch, writeSucceeds);
      if !ok {
        return Fail(WriteFailed);
      }
      AppendKeepsInvariant(all, this);
      enabled := true;
      reg.entries := all + [this];
      r := Ok;
    }

    /**
     * Writes the snapshot back and, if the write succeeds, clears the flag and
     * removes exactly this instance from the registry, keeping the order of the
     * others.  A failed write changes nothing.  The source erases whatever
     * `find` returns, so it must only be called on a registered patch.
     */
    method Disable(reg: Registry, mem: array<bv8>, writeSucceeds: bool) returns (r: Status)
      requires Valid() && reg.Valid() && this in reg.entries
      modifies this`enabled, reg`entries, mem
      ensures reg.Valid() && (enabled <==> this in reg.entries)
      ensures forall q: Patch :: q != this ==> (q in reg.entries <==> q in old(reg.entries))
      ensures if writeSucceeds && address + |original| <= mem.Length then
          var k := IndexOf(old(reg.entries), this);
          && r == Ok && !enabled
          && reg.entries == old(reg.entries)[..k] + old(reg.entries)[k + 1..]
          && mem[..] == Splice(old(mem[..]), address, original)
          && mem[address..address + |original|] == original
        else
          && r == Fail(WriteFailed) && enabled
          && reg.entries == old(reg.entries) && mem[..] == old(mem[..])
    {
      var ok := WriteMemory(mem, address, original, writeSucceeds);
      if !ok {
        return Fail(WriteFailed);
      }
      SpliceReadsBack(old(mem[..]), address, original);
      assert mem[address..address + |original|] == mem[..][address..address + |original|];
      enabled := false;
      var k := IndexOf(reg.entries, this);
      RemoveKeepsInvariant(reg.entries, k);
      reg.entries := reg.entries[..k] + reg.entries[k + 1..];
      r := Ok;
    }

    /**
     * The destructor's best-effort teardown: disable if enabled, then ask the
     * owner (if any) to disown the patch.  `writeSucceeds` and
     * `disownSucceeds` are the outcomes of the two external calls.  A failing
     * step is reported in the result and never stops the next one.
     */
    method Dispose(reg: Registry, mem: array<bv8>, writeSucceeds: bool, disownSucceeds: bool)
      returns (log: Teardown)
      requires Valid() && reg.Valid() && (enabled <==> this in reg.entries)
      modifies this`enabled, reg`entries, mem
      ensures reg.Valid() && (enabled <==> this in reg.entries)
      ensures forall q: Patch :: q != this ==> (q in reg.entries <==> q in old(reg.entries))
      ensures log.disable ==
        if !old(enabled) then Skipped
        else if writeSucceeds && address + |original| <= mem.Length then Succeeded
        else Failed(WriteFailed)
      ensures log.disown ==
        if owner.None? then Skipped
        else if disownSucceeds then Succeeded
        else Failed(DisownFailed)
      ensures log.disable != Succeeded ==>
        enabled == old(enabled) && reg.entries == old(reg.entries) && mem[..] == old(mem[..])
      ensures log.disable == Succeeded ==>
        && !enabled && this !in reg.entries
        && reg.entries == old(reg.entries)[..IndexOf(old(reg.entries), this)]
                          + old(reg.entries)[IndexOf(old(reg.entries), this) + 1..]
        && mem[..] == Splice(old(mem[..]), address, original)
        && mem[address..address + |original|] == original
    {
      var disableStep := Skipped;
      if enabled {
        var res := Disable(reg, mem, writeSucceeds);
        disableStep := if res.Ok? then Succeeded else Failed(res.error);
      }
      var disownStep := Skipped;
      if owner.Some? {
        disownStep := if disownSucceeds then Succeeded else Failed(DisownFailed);
      }
      log := Teardown(disableStep, disownStep);
    }

    /** The inspection record: the address in decimal, both byte sequences and
        the flag exactly as stored. */
    function GetRuntimeInfo(): (info: RuntimeInfo)
      reads this
      ensures |info.address| >= 1
      ensures forall i :: 0 <= i < |info.address| ==> IsDigit(info.address[i])
      ensures DecimalValue(info.address) == address
      ensures |info.address| > 1 ==> info.address[0] != '0'
      ensures info.original == original && info.patch == patch && info.enabled == enabled
    {
      DecimalRoundTrip(address);
      RuntimeInfo(DecimalString(address), original, patch, enabled)
    }
  }

  /**
   * Enabling a patch over a range that still holds its snapshot and then
   * disabling it, both writes succeeding, gives back the image and the registry
   * it started from.
   */
  method EnableDisableRoundTrip(p: Patch, reg: Registry, mem: array<bv8>)
    requires p.Valid() && reg.Valid() && !p.enabled && p !in reg.entries
    requires FirstConflict(reg.entries, p.Span()) == None
    requires p.address + |p.patch| <= mem.Length
    requires mem[p.address..p.address + |p.patch|] == p.original
    modifies p`enabled, reg`entries, mem
    ensures !p.enabled && reg.entries == old(reg.entries) && mem[..] == old(mem[..])
  {
    var r := p.Enable(reg, mem, true);
    assert reg.entries == old(reg.entries) + [p];
    assert mem[..] == Splice(old(mem[..]), p.address, p.patch);
    var s := p.Disable(reg, mem, true);
    var k := IndexOf(old(reg.entries) + [p], p);
    assert k == |old(reg.entries)|;
    assert reg.entries == (old(reg.entries) + [p])[..k];
    assert old(mem[..])[p.address..p.address + |p.patch|] == p.original;
    SpliceRestores(old(mem[..]), p.address, p.original, p.patch);
  }
}
