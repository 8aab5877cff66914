# intrusive_ptr: a verified model of the handle / embedded-counter protocol

This project models the single header `intrusive_ptr.h`, a shared-ownership smart pointer
whose reference count lives inside the pointee. There are two parts:

- `intrusive_ref_counter` is the mixin that embeds the count. It comes with the free
  functions `intrusive_ptr_add_ref` and `intrusive_ptr_release`.
- `intrusive_ptr` is the owning handle. It stores one raw address and calls those two
  functions to take and give back units of ownership.

The model is sequential. One `Heap` object holds every counted object: a natural-number
`refCount` and a `live` flag, which `delete` clears. Each `IntrusivePtr` handle object has
one mutable field, `ptr`, which is null or an object id. Every handle member changes `ptr`
in place as the header does. Assignments and `reset` are written the way the header writes
them: build a temporary, swap it into `*this`, then destroy the temporary.

The ownership bookkeeping is ghost state of `Heap`:

- `view` records every existing handle and the address it stores.
- `raw` counts the units held as raw pointers outside any handle, after `detach` or a
  direct `intrusive_ptr_add_ref`.

`Heap.Valid()` ties `view` to the real `ptr` fields and states the central invariant
(`Accounting.Accounted`). For every live object, `refCount` equals the number of handles
that store its address plus its raw units. Every non-null handle and every raw unit refers
to a live object whose count is at least one. Every handle operation keeps this invariant.
Its contract states the exact new address, the new handle map and the new counts. An object
is destroyed exactly once: by the release that takes its count to zero, and never while a
handle or raw unit still refers to it.

Files:

- `RefCounter.dfy`: the counting protocol on values. It covers `Counter`, add-ref, release,
  `use_count`, the counter's copy constructor and copy assignment, and the whole-heap forms
  `Acquire` and `Drop`.
- `Accounting.dfy`: the ownership invariant and one preservation lemma per primitive handle
  step. These are pure lemmas over a map from handles to addresses.
- `SmartPtr.dfy`: the `Heap` and `IntrusivePtr` classes and the comparison operators.
- `Scenarios.dfy`: client code proving the round trips and the lifecycle from the contracts
  alone.

`IntrusivePtr.Get` models `get()` (intrusive_ptr.h:95-97), and `IntrusivePtr.ToBool` models
`explicit operator bool` (intrusive_ptr.h:105-107). The predicates `Equal`, `NotEqual`,
`EqualRaw`, `NotEqualRaw` and `Less` model the free operators at intrusive_ptr.h:120-153.
`EqualRaw` and `NotEqualRaw` cover both operand orders of the mixed handle/raw-pointer
operators. These members are plain definitions. What they promise is stated by the lemmas
`EqualityByAddress`, `LessIsStrictTotalOrder`, `ToBoolIsNonNull` and `NonNullOwnsLive`.

## Model

| member | source | states |
|---|---|---|
| RefCounter.NewCounter | intrusive_ptr.h:184 | a new object's embedded counter starts at zero, and the object is live |
| RefCounter.CopyCounter | intrusive_ptr.h:164-165 | a copy-constructed counter starts at zero and is live, whatever the source's count is |
| RefCounter.AssignCounter | intrusive_ptr.h:167-169 | copy assignment leaves the target's count and state unchanged |
| RefCounter.UseCount | intrusive_ptr.h:171-173 | `use_count` is below 2^32, equals the count while the count fits in 32 bits, and is zero exactly when the count is a multiple of 2^32 |
| RefCounter.AddRef | intrusive_ptr.h:188-191 | add-ref raises the count by exactly one and keeps the object live |
| RefCounter.Release | intrusive_ptr.h:193-199 | release lowers the count by exactly one, and the object is destroyed iff the count reached zero |
| RefCounter.ReleaseAsWritten | intrusive_ptr.h:194-198 | the release as written, which tests the 32-bit `use_count`; it lowers the count by one and agrees with `Release` while the count is at most 2^32 |
| RefCounter.ReleaseAsWrittenDestroysEarly | intrusive_ptr.h:195-197 | with 2^32 + 1 units, one as-written release destroys the object while 2^32 units remain; the intended release keeps it live |
| RefCounter.ReleaseAfterAddRef | intrusive_ptr.h:188-199 | a release right after an add-ref restores the counter if it was positive, and destroys an unreferenced object |
| RefCounter.ReleasesDestroyOnLast | intrusive_ptr.h:193-199 | after k of n >= 1 releases the count is n - k, and the object is live iff k < n: it is destroyed once, by the last release |
| RefCounter.Acquire | intrusive_ptr.h:20-24 | the handle's `if (ptr != nullptr) intrusive_ptr_add_ref(ptr)`: a null address changes nothing; otherwise only the pointee gains one unit |
| RefCounter.Drop | intrusive_ptr.h:42-46 | the destructor's conditional release: a null address changes nothing; otherwise only the pointee loses one unit, and it stays live iff it had at least two |
| RefCounter.DropUndoesAcquire | intrusive_ptr.h:48-51 | taking and giving back a unit on an address that already held one restores every count (the count effect of `h = h`) |
| RefCounter.AssignMovesUnits | intrusive_ptr.h:48-51 | copy-assigning a handle holding q into one holding p != q: q gains one unit, p loses one (and is destroyed iff that was its last), nothing else changes |
| Accounting.NewObjectStep | intrusive_ptr.h:184 | allocating an object with a zero counter under a fresh id keeps the ownership invariant |
| Accounting.AcquireStep | intrusive_ptr.h:14-31 | a new handle that takes a fresh unit on its address (null, raw with add-ref, copy) keeps the invariant |
| Accounting.AdoptStep | intrusive_ptr.h:14-18 | a new handle that adopts a raw unit (add_ref false) keeps the invariant, with that unit leaving the raw pool |
| Accounting.MoveStep | intrusive_ptr.h:33-40 | moving an address into a new handle and nulling the source keeps the invariant with no count change |
| Accounting.SwapStep | intrusive_ptr.h:109-111 | exchanging two handles' addresses keeps the invariant with no count change |
| Accounting.DetachStep | intrusive_ptr.h:99-103 | nulling a handle and moving its unit to the raw pool keeps the invariant with no count change |
| Accounting.DropStep | intrusive_ptr.h:42-46 | destroying a handle and releasing its unit keeps the invariant; no other handle or raw unit is left on a destroyed object |
| Accounting.RawAcquireStep | intrusive_ptr.h:188-191 | a direct add-ref that keeps the unit as a raw pointer keeps the invariant |
| Accounting.RawDropStep | intrusive_ptr.h:193-199 | a direct release of a raw unit keeps the invariant |
| SmartPtr.Heap.New | intrusive_ptr.h:162 | allocation adds one live object with count zero under a fresh id and changes nothing else |
| SmartPtr.Heap.CopyObject | intrusive_ptr.h:164-165 | copy-constructing a counted object gives a new object with count zero; the source's counter is untouched |
| SmartPtr.Heap.AssignObject | intrusive_ptr.h:167-169 | copy-assigning one counted object to another leaves every counter unchanged |
| SmartPtr.Heap.TakeUnit | intrusive_ptr.h:14-31 | registering a new handle that add-refs its non-null address: one more unit on it, the handle recorded, invariant kept |
| SmartPtr.Heap.AdoptUnit | intrusive_ptr.h:14-18 | registering a new handle that adopts a raw unit: no count changes, the unit leaves the raw pool |
| SmartPtr.Heap.AddRef | intrusive_ptr.h:188-191 | `intrusive_ptr_add_ref` on the heap: the pointee gains one unit, nothing else changes |
| SmartPtr.Heap.Release | intrusive_ptr.h:193-199 | `intrusive_ptr_release` on the heap, corrected: one unit less, and destroyed iff the full count is now zero (the header tests the 32-bit `use_count`; see Findings) |
| SmartPtr.Heap.RawAddRef | intrusive_ptr.h:188-191 | add-ref called by foreign code: one more unit, held as a raw unit |
| SmartPtr.Heap.RawRelease | intrusive_ptr.h:193-199 | release of a raw unit held by foreign code: one unit less, destroyed iff it was the last |
| SmartPtr.IntrusivePtr.Null | intrusive_ptr.h:12 | a default-constructed handle is null and changes no count |
| SmartPtr.IntrusivePtr.FromRaw | intrusive_ptr.h:14-18 | the handle stores the address; with add_ref it raises the pointee's count by one (address must be non-null); without it it adopts a raw unit and no count changes |
| SmartPtr.IntrusivePtr.Copy | intrusive_ptr.h:20-31 | plain and converting copy store the same address; one more unit if non-null, nothing if null |
| SmartPtr.IntrusivePtr.Move | intrusive_ptr.h:33-40 | plain and converting move give the new handle the source's address and null the source; no count changes |
| SmartPtr.IntrusivePtr.Destroy | intrusive_ptr.h:42-46 | the destructor lowers a non-null pointee's count by one, destroying it iff that was the last unit; a null handle changes nothing |
| SmartPtr.IntrusivePtr.Swap | intrusive_ptr.h:109-111 | member swap exchanges the two addresses and changes no count |
| SmartPtr.IntrusivePtr.SwapIntoAndDestroy | intrusive_ptr.h:49 | `tmp.swap(*this)` followed by the temporary's destruction: the target gets the temporary's address, and its old pointee loses one unit |
| SmartPtr.IntrusivePtr.CopyAssign | intrusive_ptr.h:48-57 | plain and converting copy assignment: the handle gets r's address; r's pointee gains a unit before the old pointee loses one |
| SmartPtr.IntrusivePtr.AssignRaw | intrusive_ptr.h:59-62 | `operator=(T*)` with a non-null address: the handle stores it, which gains a unit; the old pointee loses one |
| SmartPtr.IntrusivePtr.MoveAssign | intrusive_ptr.h:64-73 | move assignment: for r != this the handle takes r's address, r becomes null, the old pointee loses a unit; self move leaves address and counts unchanged |
| SmartPtr.IntrusivePtr.Reset | intrusive_ptr.h:75-77 | `reset()` nulls the handle and releases the old pointee, the same effect as assigning a null handle |
| SmartPtr.IntrusivePtr.ResetTo | intrusive_ptr.h:79-81 | `reset(T*)` with a non-null address: the same effect as `operator=(T*)` |
| SmartPtr.IntrusivePtr.ResetWith | intrusive_ptr.h:83-85 | `reset(T*, add_ref)`: the handle stores the address, taking a new unit or adopting a raw one, and the old pointee loses a unit |
| SmartPtr.IntrusivePtr.Deref | intrusive_ptr.h:87-93 | dereferencing requires a non-null handle and then reaches a live object whose count is at least one |
| SmartPtr.IntrusivePtr.Detach | intrusive_ptr.h:99-103 | `detach` returns the stored address, nulls the handle, changes no count, and hands the unit to the caller as a raw unit |
| SmartPtr.NonNullOwnsLive | intrusive_ptr.h:105-107 | a handle whose bool conversion is true refers to a live object whose count covers all its holders and is at least one |
| SmartPtr.SwapHandles | intrusive_ptr.h:155-158 | free swap exchanges the two addresses and changes no count |
| SmartPtr.Address | intrusive_ptr.h:150-153 | the numeric address behind `<`: zero exactly for null, distinct for distinct objects |
| SmartPtr.EqualityByAddress | intrusive_ptr.h:120-148 | `==` and `!=` are complementary and decided by the addresses alone; a handle equals the raw address it stores |
| SmartPtr.LessIsStrictTotalOrder | intrusive_ptr.h:150-153 | `<` is irreflexive, asymmetric, transitive and total up to equality, so handles sort exactly as their addresses do |
| SmartPtr.ToBoolIsNonNull | intrusive_ptr.h:105-107 | bool conversion is true iff the handle is not equal to null |
| Scenarios.DetachThenAdopt | intrusive_ptr.h:99-103 | detach, then constructing from the address with add_ref false, restores the ownership state: same counts, same raw units, the address held again |
| Scenarios.CopyThenDrop | intrusive_ptr.h:20-46 | copying a handle and destroying the copy leaves every count and the handle map unchanged |
| Scenarios.SelfCopyAssign | intrusive_ptr.h:48-51 | `h = h` leaves the address and every count unchanged |
| Scenarios.WrapTwice | intrusive_ptr.h:14-24 | wrapping a fresh object in a handle and copying that handle gives count two |
| Scenarios.DropBoth | intrusive_ptr.h:42-46 | of two handles to one object at count two, destroying both leaves it destroyed at count zero; the intermediate state (live, count one) is asserted in the body, not part of the contract |
| Scenarios.Lifecycle | intrusive_ptr.h:193-199 | a fresh object wrapped in a handle and a copy of it ends up destroyed at count zero once both are destroyed; the contract states only the final state, the intermediate ones are those of `WrapTwice` and `DropBoth` |

## Left out

- SmartPtr.Heap.Release: tests the full count, not the 32-bit `use_count` of intrusive_ptr.h:196, so every handle operation (`Destroy`, the assignments, the resets, `RawRelease`) follows the corrected release.
- Atomics and memory ordering (intrusive_ptr.h:172, 190, 195) are not modelled. Every counter update is a plain sequential update. The release path decrements and then re-reads the count in a separate load (intrusive_ptr.h:195-196). That is a race between threads, outside a sequential model.
- `delete p` through the base-typed pointer with a protected non-virtual destructor (intrusive_ptr.h:185, 197) is modelled only as clearing the object's `live` flag. Object layout and the destructors of derived types are not modelled.
- Template conversions from `intrusive_ptr<Y>` to `intrusive_ptr<T>` (intrusive_ptr.h:26-31, 37-40, 53-57, 69-73) are modelled as the plain operations over a single object-id type.
- `operator*` and `operator->` (intrusive_ptr.h:87-93) return the object id only. The object's own data is not modelled.
- Raw addresses are object ids. Null counts as address 0, below every object, and ids are never reused after `delete`. Real allocator addresses and their reuse are not modelled.
- `ref_count` is a `size_t` that is modelled as unbounded. A count that overflows `size_t` is not modelled. `RefCounter.Release` and `SmartPtr.Heap.Release` require a count of at least one, because a release at zero would wrap the `size_t`. No valid handle or raw unit can cause that.
- The copy constructor and copy assignment of a counted object are modelled only for their effect on the counter. Copying the derived type's other members is not modelled.
- A handle's destruction at end of scope is the explicit method `IntrusivePtr.Destroy`. After it the handle is no longer in the heap's handle map, and no operation may be applied to it.
- SmartPtr.IntrusivePtr.FromRaw: with `add_ref == false` the model requires the address to carry a unit already taken out as a raw pointer, such as one from `detach` or a direct add-ref. The header cannot check this. Adopting an address with no such unit would make a later release one too many.
- SmartPtr.IntrusivePtr.FromRaw, `AssignRaw`, `ResetTo` and `ResetWith` require a non-null address when add_ref is true. The raw-address constructor (intrusive_ptr.h:14-18) calls `intrusive_ptr_add_ref` with no null check, so building from null with add-ref is undefined behaviour in the header. That covers `h = nullptr` and `h.reset(nullptr)`. The model makes it a precondition rather than a case.
- SmartPtr.IntrusivePtr.ResetWith: the same adoption requirement as `FromRaw` applies when `add_ref == false`.
- Exceptions cannot occur. No operation of the header throws, and pointee destructors are assumed not to throw.

Two behaviours of the header worth noting:

- Self move-assignment goes through a temporary (intrusive_ptr.h:65), so the handle keeps its address (`MoveAssign`).
- `use_count` narrows the `size_t` count to `unsigned int` (intrusive_ptr.h:172, `UseCount`); see the finding below.

## Findings

| source | as written | input that shows it | evidently intended | confidence | as-written member | corrected member |
|---|---|---|---|---|---|---|
| intrusive_ptr.h:171-173, intrusive_ptr.h:194-198 | `intrusive_ptr_release` destroys the object when `use_count() == 0`, and `use_count` narrows the `size_t` count to `unsigned int` | a target where `size_t` is 64 bits and `unsigned int` is 32, and an object with 2^32 + 1 units; one release leaves 2^32 units, which `use_count` reads as 0, so the object is deleted while 2^32 owners still refer to it | destroy only when the full count reaches zero | not executed; follows from the integer widths, and needs 2^32 live references | RefCounter.ReleaseAsWritten, RefCounter.ReleaseAsWrittenDestroysEarly | RefCounter.Release, SmartPtr.Heap.Release |
