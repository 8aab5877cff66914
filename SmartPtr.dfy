/** The owning handle `intrusive_ptr` over a heap of counted objects.

    `Heap` holds the embedded counters of all objects (`objects`) and, as ghost state, the
    ownership bookkeeping: `view` maps every existing handle to the address it stores, and
    `raw` counts the units currently held as raw pointers outside any handle. `Valid()`
    ties `view` to the handles' real `ptr` fields and states the ownership invariant.

    `IntrusivePtr` is the handle; its single field `ptr` is changed in place exactly as the
    member functions of the source change it. Assignments and `reset` are written as the
    source writes them: build a temporary, swap it into `this`, destroy the temporary. */
module SmartPtr {
  import opened RefCounter
  import opened Accounting

  class Heap {
    var objects: Objects
    var nextId: ObjId
    ghost var view: map<IntrusivePtr, RawPtr>
    ghost var raw: multiset<ObjId>

    ghost predicate Valid()
      reads this, view.Keys
    {
      && (forall o :: o in objects ==> o < nextId)
      && (forall h :: h in view ==> h.ptr == view[h])
      && Accounted(objects, view, raw)
    }

    /** An empty heap: no objects, no handles, no raw units. */
    constructor ()
      ensures Valid()
      ensures objects == map[] && view == map[] && raw == multiset{}
    {
      objects, nextId := map[], 0;
      view, raw := map[], multiset{};
      new;
      EmptyAccounted(objects, view);
    }

    /** Allocates a counted object; its counter is default-constructed to zero. */
    method New() returns (o: ObjId)
      requires Valid()
      modifies this
      ensures Valid()
      ensures o !in old(objects) && objects == old(objects)[o := NewCounter()]
      ensures view == old(view) && raw == old(raw)
    {
      o := nextId;
      NewObjectStep(objects, view, raw, o);
      objects := objects[o := NewCounter()];
      nextId := nextId + 1;
    }

    /** Copy-constructs a counted object from `src`: a new object whose counter starts at
        zero instead of copying the source's count. */
    method CopyObject(src: ObjId) returns (o: ObjId)
      requires Valid() && Live(objects, src)
      modifies this
      ensures Valid()
      ensures o !in old(objects) && objects == old(objects)[o := CopyCounter(old(objects)[src])]
      ensures objects[o].refCount == 0 && objects[src] == old(objects)[src]
      ensures view == old(view) && raw == old(raw)
    {
      o := nextId;
      NewObjectStep(objects, view, raw, o);
      objects := objects[o := CopyCounter(objects[src])];
      nextId := nextId + 1;
    }

    /** Copy-assigns counted object `src` to `dst`: both counters keep their values. */
    method AssignObject(dst: ObjId, src: ObjId)
      requires Valid() && Live(objects, dst) && Live(objects, src)
      modifies this
      ensures Valid()
      ensures objects == old(objects)
      ensures view == old(view) && raw == old(raw) && nextId == old(nextId)
    {
      var c := AssignCounter(objects[dst], objects[src]);
      UpdateSame(objects, dst, c);
      objects := objects[dst := c];
    }

    /** A new handle `h` takes a unit of its own on the address it stores: the
        `intrusive_ptr_add_ref(ptr)` of the null, raw-address and copy constructors, which
        add-ref only a non-null address. */
    method TakeUnit(h: IntrusivePtr)
      requires Valid() && h !in view && NullOrLive(objects, h.ptr)
      modifies this
      ensures Valid()
      ensures view == old(view)[h := h.ptr] && objects == Acquire(old(objects), h.ptr)
      ensures raw == old(raw) && nextId == old(nextId)
    {
      AcquireStep(objects, view, raw, h, h.ptr);
      if h.ptr != RawPtr.Null {
        AddRef(h.ptr.id);
      }
      view := view[h := h.ptr];
    }

    /** A new handle `h` adopts a unit already taken out as a raw pointer (the raw-address
        constructor with `add_ref == false`): no count changes. */
    method AdoptUnit(h: IntrusivePtr)
      requires Valid() && h !in view && (h.ptr.Null? || h.ptr.id in raw)
      modifies this
      ensures Valid()
      ensures view == old(view)[h := h.ptr] && raw == old(raw) - Units(h.ptr)
      ensures objects == old(objects) && nextId == old(nextId)
    {
      AdoptStep(objects, view, raw, h, h.ptr);
      raw := raw - Units(h.ptr);
      view := view[h := h.ptr];
    }

    /** `intrusive_ptr_add_ref` as the handle calls it; the caller records who holds the
        new unit, so the invariant is not kept by this step alone. */
    method AddRef(o: ObjId)
      requires Live(objects, o)
      modifies this
      ensures objects == Acquire(old(objects), Addr(o))
      ensures view == old(view) && raw == old(raw) && nextId == old(nextId)
    {
      objects := objects[o := RefCounter.AddRef(objects[o])];
    }

    /** `intrusive_ptr_release` as the handle calls it, in its corrected form: decrement,
        then destroy the object if the full count read back is zero (the header tests the
        32-bit `use_count` instead; see `RefCounter.ReleaseAsWritten`). */
    method Release(o: ObjId)
      requires Held(objects, Addr(o))
      modifies this
      ensures objects == Drop(old(objects), Addr(o))
      ensures objects[o].live <==> objects[o].refCount != 0
      ensures view == old(view) && raw == old(raw) && nextId == old(nextId)
    {
      objects := objects[o := Counter(objects[o].refCount - 1, true)];
      if objects[o].refCount == 0 {
        objects := objects[o := Counter(0, false)];
      }
    }

    /** `intrusive_ptr_add_ref` called directly by code that keeps the unit as a raw
        pointer, e.g. a factory that returns a pre-incremented object. */
    method RawAddRef(o: ObjId)
      requires Valid() && Live(objects, o)
      modifies this
      ensures Valid()
      ensures objects == Acquire(old(objects), Addr(o)) && raw == old(raw) + multiset{o}
      ensures view == old(view) && nextId == old(nextId)
    {
      RawAcquireStep(objects, view, raw, o);
      AddRef(o);
      raw := raw + multiset{o};
    }

    /** `intrusive_ptr_release` called directly on a raw unit, such as one `detach` handed out. */
    method RawRelease(o: ObjId)
      requires Valid() && o in raw
      modifies this
      ensures Valid()
      ensures objects == Drop(old(objects), Addr(o)) && raw == old(raw) - multiset{o}
      ensures view == old(view) && nextId == old(nextId)
    {
      RawDropStep(objects, view, raw, o);
      Release(o);
      raw := raw - multiset{o};
    }
  }

  class IntrusivePtr {
    var ptr: RawPtr

    /** Default construction: a null handle. */
    constructor Null(heap: Heap)
      requires heap.Valid()
      modifies heap
      ensures heap.Valid() && ptr == RawPtr.Null
      ensures heap.view == old(heap.view)[this := RawPtr.Null]
      ensures heap.objects == old(heap.objects) && heap.raw == old(heap.raw)
      ensures heap.nextId == old(heap.nextId)
    {
      ptr := RawPtr.Null;
      new;
      heap.TakeUnit(this);
    }

    /** Construction from a raw address. With `addRef` the handle takes a new unit (and the
        address must not be null, as add-ref is called unconditionally); without it the
        handle adopts a unit already taken out as a raw pointer. */
    constructor FromRaw(heap: Heap, p: RawPtr, addRef: bool)
      requires heap.Valid()
      requires addRef ==> p.Addr? && Live(heap.objects, p.id)
      requires !addRef ==> p.Null? || p.id in heap.raw
      modifies heap
      ensures heap.Valid() && ptr == p
      ensures heap.view == old(heap.view)[this := p]
      ensures heap.objects == if addRef then Acquire(old(heap.objects), p) else old(heap.objects)
      ensures heap.raw == if addRef then old(heap.raw) else old(heap.raw) - Units(p)
      ensures heap.nextId == old(heap.nextId)
    {
      ptr := p;
      new;
      if addRef {
        heap.TakeUnit(this);
      } else {
        heap.AdoptUnit(this);
      }
    }

    /** Copy construction (also the converting copy): same address, one more unit if
        non-null. */
    constructor Copy(heap: Heap, r: IntrusivePtr)
      requires heap.Valid() && r in heap.view
      modifies heap
      ensures heap.Valid() && ptr == r.ptr
      ensures heap.view == old(heap.view)[this := r.ptr]
      ensures heap.objects == Acquire(old(heap.objects), r.ptr)
      ensures heap.raw == old(heap.raw) && heap.nextId == old(heap.nextId)
    {
      ptr := r.ptr;
      new;
      heap.TakeUnit(this);
    }

    /** Move construction (also the converting move): takes the address, leaves `r` null,
        changes no count. */
    constructor Move(heap: Heap, r: IntrusivePtr)
      requires heap.Valid() && r in heap.view
      modifies heap, r
      ensures heap.Valid() && ptr == old(r.ptr) && r.ptr == RawPtr.Null
      ensures heap.view == old(heap.view)[this := old(r.ptr)][r := RawPtr.Null]
      ensures heap.objects == old(heap.objects) && heap.raw == old(heap.raw)
      ensures heap.nextId == old(heap.nextId)
    {
      ptr := r.ptr;
      new;
      MoveStep(heap.objects, heap.view, heap.raw, this, r);
      r.ptr := RawPtr.Null;
      heap.view := heap.view[this := ptr][r := RawPtr.Null];
    }

    /** The destructor: gives back the unit if non-null; the handle no longer exists. */
    method Destroy(heap: Heap)
      requires heap.Valid() && this in heap.view
      modifies heap
      ensures heap.Valid() && this !in heap.view
      ensures heap.view == old(heap.view) - {this}
      ensures heap.objects == Drop(old(heap.objects), ptr)
      ensures heap.raw == old(heap.raw) && heap.nextId == old(heap.nextId)
    {
      DropStep(heap.objects, heap.view, heap.raw, this);
      if ptr != RawPtr.Null {
        heap.Release(ptr.id);
      }
      heap.view := heap.view - {this};
    }

    /** Member `swap`: exchanges the two addresses, no count traffic. */
    method Swap(heap: Heap, b: IntrusivePtr)
      requires heap.Valid() && this in heap.view && b in heap.view
      modifies this, b, heap
      ensures heap.Valid() && ptr == old(b.ptr) && b.ptr == old(ptr)
      ensures heap.view == old(heap.view)[this := old(b.ptr)][b := old(ptr)]
      ensures heap.objects == old(heap.objects) && heap.raw == old(heap.raw)
      ensures heap.nextId == old(heap.nextId)
    {
      SwapStep(heap.objects, heap.view, heap.raw, this, b);
      heap.view := heap.view[this := b.ptr][b := ptr];
      var t := ptr;
      ptr := b.ptr;
      b.ptr := t;
    }

    /** The tail of every assignment and `reset`: `tmp.swap(*this)`, then the temporary
        `tmp` (this handle) is destroyed, releasing what `target` held before. */
    method SwapIntoAndDestroy(heap: Heap, target: IntrusivePtr)
      requires heap.Valid() && this in heap.view && target in heap.view && this != target
      modifies this, target, heap
      ensures heap.Valid() && target.ptr == old(ptr) && this !in heap.view
      ensures heap.view == (old(heap.view) - {this})[target := old(ptr)]
      ensures heap.objects == Drop(old(heap.objects), old(target.ptr))
      ensures heap.raw == old(heap.raw) && heap.nextId == old(heap.nextId)
    {
      ghost var v0 := heap.view;
      Swap(heap, target);
      Destroy(heap);
      SwapThenRemove(v0, this, target);
    }

    /** Copy assignment (also the converting one): copy `r` into a temporary, swap it in,
        destroy the temporary. The new pointee gains a unit before the old one loses its. */
    method CopyAssign(heap: Heap, r: IntrusivePtr)
      requires heap.Valid() && this in heap.view && r in heap.view
      modifies this, heap
      ensures heap.Valid() && ptr == old(r.ptr)
      ensures heap.view == old(heap.view)[this := old(r.ptr)]
      ensures heap.objects == Drop(Acquire(old(heap.objects), old(r.ptr)), old(ptr))
      ensures heap.raw == old(heap.raw) && heap.nextId == old(heap.nextId)
    {
      ghost var v0 := heap.view;
      var tmp := new IntrusivePtr.Copy(heap, r);
      ghost var x := tmp.ptr;
      tmp.SwapIntoAndDestroy(heap, this);
      TempDiscarded(v0, tmp, x, this, x);
    }

    /** Assignment from a raw address, `operator=(T*)`: a temporary built with add-ref, so
        the address must not be null. */
    method AssignRaw(heap: Heap, p: RawPtr)
      requires heap.Valid() && this in heap.view
      requires p.Addr? && Live(heap.objects, p.id)
      modifies this, heap
      ensures heap.Valid() && ptr == p
      ensures heap.view == old(heap.view)[this := p]
      ensures heap.objects == Drop(Acquire(old(heap.objects), p), old(ptr))
      ensures heap.raw == old(heap.raw) && heap.nextId == old(heap.nextId)
    {
      ghost var v0 := heap.view;
      var tmp := new IntrusivePtr.FromRaw(heap, p, true);
      ghost var x := tmp.ptr;
      tmp.SwapIntoAndDestroy(heap, this);
      TempDiscarded(v0, tmp, x, this, x);
    }

    /** Move assignment (also the converting one): move `r` into a temporary, swap it in,
        destroy the temporary. When `r` is `this`, the temporary nulls `this` first and the
        swap puts the address back, so the handle and the count are unchanged. */
    method MoveAssign(heap: Heap, r: IntrusivePtr)
      requires heap.Valid() && this in heap.view && r in heap.view
      modifies this, r, heap
      ensures heap.Valid()
      ensures r == this ==> ptr == old(ptr) && heap.view == old(heap.view)
                            && heap.objects == old(heap.objects)
      ensures r != this ==> ptr == old(r.ptr) && r.ptr == RawPtr.Null
                            && heap.view == old(heap.view)[r := RawPtr.Null][this := old(r.ptr)]
                            && heap.objects == Drop(old(heap.objects), old(ptr))
      ensures heap.raw == old(heap.raw) && heap.nextId == old(heap.nextId)
    {
      ghost var v0 := heap.view;
      var tmp := new IntrusivePtr.Move(heap, r);
      ghost var x := tmp.ptr;
      tmp.SwapIntoAndDestroy(heap, this);
      MovedTempDiscarded(v0, tmp, x, r, RawPtr.Null, this);
    }

    /** `reset()`: swap in a null temporary and destroy it; the same as assigning a null
        handle. */
    method Reset(heap: Heap)
      requires heap.Valid() && this in heap.view
      modifies this, heap
      ensures heap.Valid() && ptr == RawPtr.Null
      ensures heap.view == old(heap.view)[this := RawPtr.Null]
      ensures heap.objects == Drop(old(heap.objects), old(ptr))
      ensures heap.raw == old(heap.raw) && heap.nextId == old(heap.nextId)
    {
      ghost var v0 := heap.view;
      var tmp := new IntrusivePtr.Null(heap);
      ghost var x := tmp.ptr;
      tmp.SwapIntoAndDestroy(heap, this);
      TempDiscarded(v0, tmp, x, this, x);
    }

    /** `reset(T*)`: a temporary built with add-ref, so the address must not be null. */
    method ResetTo(heap: Heap, p: RawPtr)
      requires heap.Valid() && this in heap.view
      requires p.Addr? && Live(heap.objects, p.id)
      modifies this, heap
      ensures heap.Valid() && ptr == p
      ensures heap.view == old(heap.view)[this := p]
      ensures heap.objects == Drop(Acquire(old(heap.objects), p), old(ptr))
      ensures heap.raw == old(heap.raw) && heap.nextId == old(heap.nextId)
    {
      ResetWith(heap, p, true);
    }

    /** `reset(T*, bool add_ref)`: a temporary built from the raw address, with or without
        add-ref, swapped in. */
    method ResetWith(heap: Heap, p: RawPtr, addRef: bool)
      requires heap.Valid() && this in heap.view
      requires addRef ==> p.Addr? && Live(heap.objects, p.id)
      requires !addRef ==> p.Null? || p.id in heap.raw
      modifies this, heap
      ensures heap.Valid() && ptr == p
      ensures heap.view == old(heap.view)[this := p]
      ensures heap.objects
              == Drop(if addRef then Acquire(old(heap.objects), p) else old(heap.objects), old(ptr))
      ensures heap.raw == if addRef then old(heap.raw) else old(heap.raw) - Units(p)
      ensures heap.nextId == old(heap.nextId)
    {
      ghost var v0 := heap.view;
      var tmp := new IntrusivePtr.FromRaw(heap, p, addRef);
      ghost var x := tmp.ptr;
      tmp.SwapIntoAndDestroy(heap, this);
      TempDiscarded(v0, tmp, x, this, x);
    }

    /** `get()`: the stored address, whatever it is. */
    function Get(): RawPtr
      reads this
    {
      ptr
    }

    /** Boolean conversion: the handle stores an address. */
    predicate ToBool()
      reads this
    {
      Get() != RawPtr.Null
    }

    /** `operator*` and `operator->`: defined only on a non-null handle, and then the
        object reached is live and the handle's unit is counted on it. */
    method Deref(heap: Heap) returns (o: ObjId)
      requires heap.Valid() && this in heap.view && ToBool()
      ensures Get() == Addr(o) && Live(heap.objects, o)
      ensures heap.objects[o].refCount >= 1
    {
      o := Get().id;
    }

    /** `detach()`: returns the address and nulls the handle; the unit the handle held is
        now a raw unit of the caller, and no count changes. */
    method Detach(heap: Heap) returns (p: RawPtr)
      requires heap.Valid() && this in heap.view
      modifies this, heap
      ensures heap.Valid() && p == old(ptr) && ptr == RawPtr.Null
      ensures heap.view == old(heap.view)[this := RawPtr.Null]
      ensures heap.raw == old(heap.raw) + Units(p)
      ensures heap.objects == old(heap.objects) && heap.nextId == old(heap.nextId)
    {
      DetachStep(heap.objects, heap.view, heap.raw, this);
      p := ptr;
      ptr := RawPtr.Null;
      heap.view := heap.view[this := RawPtr.Null];
      heap.raw := heap.raw + Units(p);
    }
  }

  /** Writing back the value a map already holds leaves it unchanged. */
  lemma UpdateSame<K, V>(m: map<K, V>, k: K, v: V)
    requires k in m && m[k] == v
    ensures m[k := v] == m
  {
  }

  /** Swapping the entries of `a` and `b` and then dropping `a` leaves `b` with `a`'s old
      entry. */
  lemma SwapThenRemove<K, V>(m: map<K, V>, a: K, b: K)
    requires a in m && b in m && a != b
    ensures m[a := m[b]][b := m[a]] - {a} == (m - {a})[b := m[a]]
  {
  }

  /** A temporary added to the handle map and removed again leaves no trace. */
  lemma TempDiscarded<K, V>(m: map<K, V>, t: K, x: V, k: K, y: V)
    requires t !in m && t != k
    ensures (m[t := x] - {t})[k := y] == m[k := y]
  {
  }

  /** The handle map around a move assignment through a temporary `t`: `r` is nulled and
      `k` takes `r`'s old entry, which for `r == k` restores the map. */
  lemma MovedTempDiscarded<K, V>(m: map<K, V>, t: K, x: V, r: K, n: V, k: K)
    requires t !in m && t != r && t != k && r in m && k in m && x == m[r]
    ensures r == k ==> (m[t := x][r := n] - {t})[k := x] == m
    ensures r != k ==> (m[t := x][r := n] - {t})[k := x] == m[r := n][k := x]
  {
  }

  /** A non-null handle in a valid heap owns a unit on a live object. */
  lemma NonNullOwnsLive(heap: Heap, h: IntrusivePtr)
    requires heap.Valid() && h in heap.view && h.ToBool()
    ensures Live(heap.objects, h.Get().id)
    ensures heap.objects[h.Get().id].refCount >= Holders(heap.view, h.Get().id) >= 1
  {
    HolderCounted(heap.view, h);
  }

  /** The free `swap(a, b)`: forwards to the member `swap`. */
  method SwapHandles(heap: Heap, a: IntrusivePtr, b: IntrusivePtr)
    requires heap.Valid() && a in heap.view && b in heap.view
    modifies a, b, heap
    ensures heap.Valid() && a.ptr == old(b.ptr) && b.ptr == old(a.ptr)
    ensures heap.view == old(heap.view)[a := old(b.ptr)][b := old(a.ptr)]
    ensures heap.objects == old(heap.objects) && heap.raw == old(heap.raw)
    ensures heap.nextId == old(heap.nextId)
  {
    a.Swap(heap, b);
  }

  /** The numeric value of a raw address; null is below every object. */
  function Address(p: RawPtr): (n: nat)
    ensures n == 0 <==> p.Null?
    ensures p.Addr? ==> n == p.id + 1
  {
    match p
    case Null => 0
    case Addr(id) => id + 1
  }

  /** `a == b` on two handles: decided by the stored addresses alone. */
  predicate Equal(a: IntrusivePtr, b: IntrusivePtr)
    reads a, b
  {
    a.Get() == b.Get()
  }

  /** `a != b` on two handles. */
  predicate NotEqual(a: IntrusivePtr, b: IntrusivePtr)
    reads a, b
  {
    a.Get() != b.Get()
  }

  /** `a == p` and `p == a` between a handle and a raw address. */
  predicate EqualRaw(a: IntrusivePtr, p: RawPtr)
    reads a
  {
    a.Get() == p
  }

  /** `a != p` and `p != a` between a handle and a raw address. */
  predicate NotEqualRaw(a: IntrusivePtr, p: RawPtr)
    reads a
  {
    a.Get() != p
  }

  /** `a < b`: the order of the stored addresses. */
  predicate Less(a: IntrusivePtr, b: IntrusivePtr)
    reads a, b
  {
    Address(a.Get()) < Address(b.Get())
  }

  /** Equality and inequality are complementary and depend only on the addresses: two
      handles are equal iff they store the same address, and each compares equal to the
      raw address it stores. */
  lemma EqualityByAddress(a: IntrusivePtr, b: IntrusivePtr)
    ensures Equal(a, b) <==> !NotEqual(a, b)
    ensures Equal(a, b) <==> Address(a.Get()) == Address(b.Get())
    ensures Equal(a, b) <==> EqualRaw(a, b.Get())
    ensures EqualRaw(a, a.Get()) && !NotEqualRaw(a, a.Get())
  {
  }

  /** `<` is a strict total order on handles up to equality, so sorting handles by `<`
      orders them exactly as sorting their addresses would. */
  lemma LessIsStrictTotalOrder(a: IntrusivePtr, b: IntrusivePtr, c: IntrusivePtr)
    ensures !Less(a, a)
    ensures Less(a, b) ==> !Less(b, a)
    ensures Less(a, b) && Less(b, c) ==> Less(a, c)
    ensures Less(a, b) || Less(b, a) || Equal(a, b)
    ensures Equal(a, b) ==> !Less(a, b) && !Less(b, a)
  {
  }

  /** Boolean conversion is true iff the handle differs from the null address. */
  lemma ToBoolIsNonNull(a: IntrusivePtr)
    ensures a.ToBool() <==> NotEqualRaw(a, RawPtr.Null)
    ensures a.ToBool() <==> Address(a.Get()) > 0
  {
  }
}
