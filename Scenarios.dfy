/** Client code of the handle: the round trips and the lifecycle of the handle,
    proved from the handle's contracts alone. */
module Scenarios {
  import opened RefCounter
  import opened Accounting
  import opened SmartPtr

  /** `h.detach()` followed by constructing a handle from the returned address with
      `add_ref == false` gives back exactly the ownership state before the detach: the
      address is held by the new handle, and no count and no raw unit changed. */
  method DetachThenAdopt(heap: Heap, h: IntrusivePtr) returns (g: IntrusivePtr)
    requires heap.Valid() && h in heap.view
    modifies h, heap
    ensures heap.Valid() && g.ptr == old(h.ptr) && h.ptr == RawPtr.Null
    ensures heap.objects == old(heap.objects) && heap.raw == old(heap.raw)
    ensures heap.view == old(heap.view)[h := RawPtr.Null][g := old(h.ptr)]
  {
    var p := h.Detach(heap);
    g := new IntrusivePtr.FromRaw(heap, p, false);
    assert heap.raw == old(heap.raw) + Units(p) - Units(p);
  }

  /** Copying a handle and dropping the copy changes no count. */
  method CopyThenDrop(heap: Heap, h: IntrusivePtr)
    requires heap.Valid() && h in heap.view
    modifies heap
    ensures heap.Valid() && heap.view == old(heap.view)
    ensures heap.objects == old(heap.objects) && heap.raw == old(heap.raw)
  {
    var c := new IntrusivePtr.Copy(heap, h);
    assert Held(old(heap.objects), h.ptr);
    c.Destroy(heap);
    DropUndoesAcquire(old(heap.objects), h.ptr);
    TempRemovedAgain(old(heap.view), c, h.ptr);
  }

  /** The handle map after a temporary was added and removed again. */
  lemma TempRemovedAgain<K, V>(m: map<K, V>, t: K, x: V)
    requires t !in m
    ensures m[t := x] - {t} == m
  {
  }

  /** Self copy-assignment `h = h` leaves the address and every count unchanged. */
  method SelfCopyAssign(heap: Heap, h: IntrusivePtr)
    requires heap.Valid() && h in heap.view
    modifies h, heap
    ensures heap.Valid() && h.ptr == old(h.ptr)
    ensures heap.objects == old(heap.objects) && heap.raw == old(heap.raw)
  {
    assert Held(heap.objects, h.ptr);
    h.CopyAssign(heap, h);
    DropUndoesAcquire(old(heap.objects), old(h.ptr));
  }

  /** A fresh object wrapped by a handle `a` and by a copy `b` of it has count two. */
  method WrapTwice(heap: Heap) returns (o: ObjId, a: IntrusivePtr, b: IntrusivePtr)
    requires heap.Valid()
    modifies heap
    ensures heap.Valid() && a in heap.view && b in heap.view && a != b
    ensures a.ptr == Addr(o) && b.ptr == Addr(o)
    ensures Live(heap.objects, o) && heap.objects[o].refCount == 2
  {
    o := heap.New();
    var h := new IntrusivePtr.FromRaw(heap, Addr(o), true);
    a := h;
    b := new IntrusivePtr.Copy(heap, a);
  }

  /** An object held by two handles survives the destruction of the first and is destroyed
      by the destruction of the second. */
  method DropBoth(heap: Heap, o: ObjId, a: IntrusivePtr, b: IntrusivePtr)
    requires heap.Valid() && a in heap.view && b in heap.view && a != b
    requires a.ptr == Addr(o) && b.ptr == Addr(o)
    requires Live(heap.objects, o) && heap.objects[o].refCount == 2
    modifies heap
    ensures heap.Valid() && o in heap.objects && !heap.objects[o].live
    ensures heap.objects[o].refCount == 0
  {
    a.Destroy(heap);
    assert Live(heap.objects, o) && heap.objects[o].refCount == 1;
    b.Destroy(heap);
  }

  /** The lifecycle of one counted object: unreferenced, live with two owners, destroyed
      exactly when the last owner goes. */
  method Lifecycle(heap: Heap) returns (o: ObjId)
    requires heap.Valid()
    modifies heap
    ensures heap.Valid() && o in heap.objects && !heap.objects[o].live
    ensures heap.objects[o].refCount == 0
  {
    var a, b;
    o, a, b := WrapTwice(heap);
    DropBoth(heap, o, a, b);
  }
}
