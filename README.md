# Runtime byte-patch engine (Geode loader), modelled in Dafny

The model covers `Patch::Impl`, the loader's runtime byte-patch engine. A patch
overwrites the bytes at a fixed address of the running image. It keeps a
snapshot of the bytes it replaced so that `disable` can put them back. It
refuses to be enabled while its range intersects the range of any patch that
is already enabled anywhere in the process.

- `Memory` (memory.dfy): the process image as an `array<bv8>` indexed by
  address. `ReadMemory` is the byte-by-byte snapshot loop. `WriteMemory` is the
  all-or-nothing write primitive, whose outcome the caller supplies.
- `Ranges` (ranges.dfy): the intersection test of `enable`, written exactly as
  the source has it, and what it means.
- `Decimal` (decimal.dfy): the decimal rendering of an address used by the
  inspection record, with its inverse.
- `PatchEngine` (patch.dfy): `Registry` is the process-wide list of enabled
  patches (`allEnabled`). `Patch` is one patch, a class with constant
  `address`, `original` and `patch` and the mutable `enabled` flag and `owner`.
  `Enable`, `Disable` and `Dispose` (the destructor) change the flag, the
  registry and the image in place. `Registry.Valid()` is the engine's
  invariant: every entry is enabled, no instance occurs twice, and no two
  entries pass the intersection test against each other. Each method keeps it
  and keeps `enabled <==> this in reg.entries` for the patch it runs on. For
  every other patch, registry membership is unchanged and its flag is outside
  the frame.

The overlap test compares the exclusive range ends with strict `<`. So it
behaves as a test on closed ranges. Ranges that only touch, such as [10,20)
and [20,30), are reported as conflicting (`Ranges.TouchingRangesIntersect`).

## Model

| member | source | states |
|---|---|---|
| `Memory.ReadMemory` | loader/src/loader/PatchImpl.cpp:26-32 | the snapshot has exactly `amount` bytes and byte `i` is the byte at `address + i`; nothing is written |
| `Memory.WriteMemory` | loader/src/loader/PatchImpl.cpp:63-64 | the write primitive succeeds exactly when its outcome is success and the range is inside the image; on success all bytes are written over the range, on failure the image is untouched |
| `Memory.SpliceReadsBack` | loader/src/loader/PatchImpl.cpp:63 | after a write the range reads back exactly the bytes written |
| `Memory.SpliceRestores` | loader/src/loader/PatchImpl.cpp:63-75 | writing the patch over a range that holds the snapshot and then writing the snapshot back restores the whole image |
| `Ranges.IntersectsIffClosedOverlap` | loader/src/loader/PatchImpl.cpp:51-55 | for well-formed ranges, the line-55 test holds exactly when the closed ranges [min, max] share an address (both directions) |
| `Ranges.IntersectsSymmetric` | loader/src/loader/PatchImpl.cpp:55 | the test gives the same answer whichever range is the one being enabled |
| `Ranges.SharedByteIntersects` | loader/src/loader/PatchImpl.cpp:51-55 | the test never misses two ranges that cover a common byte |
| `Ranges.IntersectsItself` | loader/src/loader/PatchImpl.cpp:51-55 | every range intersects itself, including an empty one |
| `Ranges.TouchingRangesIntersect` | loader/src/loader/PatchImpl.cpp:51-55 | [lo,mid) and [mid,hi) share no byte yet are reported as intersecting, in both orders |
| `Decimal.DecimalString` | loader/src/loader/PatchImpl.cpp:84 | the rendering of an address is a non-empty string of decimal digits without a leading zero |
| `Decimal.DecimalRoundTrip` | loader/src/loader/PatchImpl.cpp:84 | reading the rendered string back as a decimal number gives the address |
| `Decimal.DecimalStringInjective` | loader/src/loader/PatchImpl.cpp:84 | distinct addresses render as distinct strings |
| `PatchEngine.FirstConflict` | loader/src/loader/PatchImpl.cpp:50-62 | the position found intersects the patch and no earlier entry does; no position is found exactly when no entry intersects |
| `PatchEngine.IndexOf` | loader/src/loader/PatchImpl.cpp:74 | `find` returns the first position that holds this very instance, compared by identity |
| `PatchEngine.NoConflictNotRegistered` | loader/src/loader/PatchImpl.cpp:50-66 | a patch that passes the scan is not in the registry, so appending it creates no duplicate |
| `PatchEngine.RegisteredConflicts` | loader/src/loader/PatchImpl.cpp:50-61 | enabling a patch that is already registered always fails with a conflict, at least against itself |
| `PatchEngine.AppendKeepsInvariant` | loader/src/loader/PatchImpl.cpp:50-67 | appending a patch that passed the scan keeps the registry duplicate-free and pairwise non-intersecting |
| `PatchEngine.RemoveKeepsInvariant` | loader/src/loader/PatchImpl.cpp:73-74 | erasing one entry keeps the invariant, removes that instance entirely and keeps every other entry |
| `PatchEngine.DisjointNoSharedByte` | loader/src/loader/PatchImpl.cpp:43-76 | two different patches in a registry that keeps the invariant never cover a common byte |
| `PatchEngine.Registry.constructor` | loader/src/loader/PatchImpl.cpp:43-46 | the process-wide list starts empty and satisfies the invariant |
| `PatchEngine.Patch.constructor` | loader/src/loader/PatchImpl.cpp:6-9 | the instance stores the address and both byte sequences as given, disabled and without owner |
| `PatchEngine.Patch.Create` | loader/src/loader/PatchImpl.cpp:34-41 | a fresh disabled, ownerless patch whose snapshot is the `|patch|` bytes now at `address`; it writes no memory and does not touch the registry |
| `PatchEngine.Patch.GetAddress` | loader/src/loader/PatchImpl.cpp:78-80 | the stored address, as a value below 2^64 |
| `PatchEngine.Patch.Enable` | loader/src/loader/PatchImpl.cpp:48-68 | on the first intersecting registered patch: a conflict naming its address and owner, nothing changed; else on a failed write: a write error, nothing changed; else the replacement is written, the flag set and exactly this instance appended; the registry invariant and flag/membership agreement are kept |
| `PatchEngine.Patch.Disable` | loader/src/loader/PatchImpl.cpp:70-76 | on a failed write: a write error, nothing changed; else the snapshot is written back and reads back, the flag cleared and the one occurrence of this instance removed with the other entries in order; the invariant is kept |
| `PatchEngine.Patch.Dispose` | loader/src/loader/PatchImpl.cpp:10-23 | disable runs only when enabled and disown only when an owner is set; a failure of either step is reported and never stops the other; a successful teardown of an enabled patch leaves the snapshot in memory and removes this one instance from the registry, the other entries keeping their order |
| `PatchEngine.Patch.GetRuntimeInfo` | loader/src/loader/PatchImpl.cpp:82-89 | the address field is a non-empty decimal-digit string without a leading zero whose value is the address; original, patch and enabled are reported as stored |
| `PatchEngine.EnableDisableRoundTrip` | loader/src/loader/PatchImpl.cpp:48-76 | enabling a patch over a range that holds its snapshot and then disabling it, both writes succeeding, restores the image and the registry and leaves the patch disabled |

## Left out

- loader/src/ui/mods/ModListSource.hpp: a UI list source made only of declarations (promises, events, server queries, a page cache), with nothing to model.
- The write primitive's internals (page protection, cache flush, architecture specifics): `WriteMemory` takes its outcome as a parameter and is all-or-nothing.
- The owner's `disownPatch` and `getID`: the disown outcome is a parameter of `Dispose`, and an owner is represented by its identifier.
- Setting the owner (`setOwner`) and the header that declares the fields are not part of this model; the model assumes a new patch starts disabled and without owner, and no modelled operation changes the owner.
- `log::error` and the text of every error message: the model keeps the error kind, plus the conflicting address and owner identifier; `Dispose` returns what would be logged.
- The JSON object of `getRuntimeInfo`: the model returns a plain record with the same four fields.
- The `shared_ptr` wrapper and custom deleter of `create`: `Create` returns the patch object itself. The `m_self` back-pointer passed to `disownPatch` (loader/src/loader/PatchImpl.cpp:18) is set outside this file and is not modelled.
- Reading outside the image: `ReadMemory` and `Create` require the range to lie inside the image, as the unchecked raw read demands.
- Address wrap-around: `Create` requires `address + |patch| < 2^64`, so the `uintptr_t` sums of lines 52 and 54 never wrap.
- PatchEngine.Patch.Disable: requires the patch to be registered, because the source erases the result of `find` unchecked; disabling a disabled patch is not modelled.
- PatchEngine.Patch.Enable: requires the first conflicting patch to have an owner, because the source dereferences it unchecked when building the message.
- Concurrency: the source takes no lock, and the model is sequential.
- PatchEngine.Patch.Dispose: object lifetime is not modelled. When the write fails during teardown the source logs the error and then destroys the instance, which stays in the registry; a later enable then reads the destroyed entry. The model keeps the instance alive and registered (`log.disable` failed, registry unchanged), so this dangling entry looks harmless here.
