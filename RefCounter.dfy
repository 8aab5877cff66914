/** The counting protocol: the counter that intrusive_ref_counter embeds in every
    counted object, and the two free functions intrusive_ptr_add_ref and
    intrusive_ptr_release that the handle calls. Atomic orderings are not modelled:
    every update is a plain sequential update of a natural number. */
module RefCounter {

  /** Identity of a counted object; stands for its address. */
  type ObjId = nat

  /** A raw pointer `T*`: null, or the address of a counted object. */
  datatype RawPtr = Null | Addr(id: ObjId)

  /** `use_count` returns `unsigned int`, a 32-bit type on the usual targets. */
  const UIntModulus: nat := 0x1_0000_0000

  /** The embedded counter of one object, and whether `delete` has run on it. */
  datatype Counter = Counter(refCount: nat, live: bool)

  /** Every object ever allocated, by identity; destroyed ones stay with `live == false`. */
  type Objects = map<ObjId, Counter>

  predicate Live(objs: Objects, o: ObjId) {
    o in objs && objs[o].live
  }

  /** A pointer that is null or points at a live object. */
  predicate NullOrLive(objs: Objects, p: RawPtr) {
    p.Null? || Live(objs, p.id)
  }

  /** A pointer that is null or carries a unit of a live object whose count is at least one:
      what every non-null handle has and what `intrusive_ptr_release` needs. */
  predicate Held(objs: Objects, p: RawPtr) {
    p.Null? || (Live(objs, p.id) && objs[p.id].refCount >= 1)
  }

  /** The units of ownership a raw pointer stands for: none for null, one otherwise. */
  function Units(p: RawPtr): (m: multiset<ObjId>)
    ensures |m| == if p.Null? then 0 else 1
    ensures p.Addr? ==> m[p.id] == 1
  {
    if p.Null? then multiset{} else multiset{p.id}
  }

  /** A freshly constructed counter (`ref_count{ 0 }`). */
  function NewCounter(): (c: Counter)
    ensures c.live && c.refCount == 0
  {
    Counter(0, true)
  }

  /** Copy construction of a counted object: the copy gets a counter of its own at zero,
      whatever the source's count is. */
  function CopyCounter(src: Counter): (c: Counter)
    ensures c.live && c.refCount == 0
  {
    NewCounter()
  }

  /** Copy assignment of a counted object returns `*this` untouched: the target keeps
      its own count and the source's count is ignored. */
  function AssignCounter(dst: Counter, src: Counter): (c: Counter)
    ensures c.refCount == dst.refCount && c.live == dst.live
  {
    dst
  }

  /** `use_count`: the count converted to `unsigned int`, i.e. reduced modulo 2^32. */
  function UseCount(c: Counter): (r: nat)
    ensures r < UIntModulus
    ensures c.refCount < UIntModulus ==> r == c.refCount
    ensures (r == 0) <==> (c.refCount % UIntModulus == 0)
  {
    c.refCount % UIntModulus
  }

  /** `intrusive_ptr_add_ref`: one more unit. */
  function AddRef(c: Counter): (r: Counter)
    requires c.live
    ensures r.live && r.refCount == c.refCount + 1
  {
    Counter(c.refCount + 1, true)
  }

  /** `intrusive_ptr_release`, as intended: one unit less, and the object is destroyed
      exactly when the count reaches zero. */
  function Release(c: Counter): (r: Counter)
    requires c.live && c.refCount >= 1
    ensures r.refCount == c.refCount - 1
    ensures r.live <==> r.refCount != 0
  {
    var n := c.refCount - 1;
    Counter(n, n != 0)
  }

  /** `intrusive_ptr_release` as written: after the decrement it tests `use_count() == 0`,
      and `use_count` truncates the count to 32 bits. */
  function ReleaseAsWritten(c: Counter): (r: Counter)
    requires c.live && c.refCount >= 1
    ensures r.refCount == c.refCount - 1
    ensures c.refCount <= UIntModulus ==> r == Release(c)
  {
    var n := c.refCount - 1;
    Counter(n, UseCount(Counter(n, true)) != 0)
  }

  /** Releasing 2^32 + 1 units once leaves 2^32 units outstanding, yet the as-written
      release destroys the object, since the truncated count reads zero. */
  lemma ReleaseAsWrittenDestroysEarly()
    ensures var r := ReleaseAsWritten(Counter(UIntModulus + 1, true));
            !r.live && r.refCount == UIntModulus && Release(Counter(UIntModulus + 1, true)).live
  {
  }

  /** A release right after an add-ref restores the counter when someone else already held
      a unit; on an unreferenced object it destroys it. */
  lemma ReleaseAfterAddRef(c: Counter)
    requires c.live
    ensures Release(AddRef(c)) == if c.refCount == 0 then Counter(0, false) else c
  {
  }

  /** `k` releases in a row, as when `k` handles to one object are dropped in some order. */
  function ReleaseTimes(c: Counter, k: nat): Counter
    requires k == 0 || (c.live && k <= c.refCount)
    decreases k
  {
    if k == 0 then c else ReleaseTimes(Release(c), k - 1)
  }

  /** Dropping `k` of `n >= 1` units leaves `n - k`, and the object is still live after
      every release but the one that takes the count to zero: destruction happens once,
      on the last release. */
  lemma {:induction false} ReleasesDestroyOnLast(c: Counter, k: nat)
    requires c.live && c.refCount >= 1 && k <= c.refCount
    ensures ReleaseTimes(c, k).refCount == c.refCount - k
    ensures ReleaseTimes(c, k).live <==> k < c.refCount
    decreases k
  {
    if k > 0 {
      if k - 1 > 0 {
        ReleasesDestroyOnLast(Release(c), k - 1);
      }
    }
  }

  /** `if (p != nullptr) intrusive_ptr_add_ref(p)` on the whole object map: the only
      change is one more unit on the pointee. */
  function Acquire(objs: Objects, p: RawPtr): (r: Objects)
    requires NullOrLive(objs, p)
    ensures r.Keys == objs.Keys
    ensures p.Null? ==> r == objs
    ensures forall o :: o in objs && p != Addr(o) ==> r[o] == objs[o]
    ensures p.Addr? ==> r[p.id].live && r[p.id].refCount == objs[p.id].refCount + 1
  {
    if p.Null? then objs else objs[p.id := AddRef(objs[p.id])]
  }

  /** `if (p != nullptr) intrusive_ptr_release(p)` on the whole object map: one unit less
      on the pointee, which is destroyed iff that was its last unit. */
  function Drop(objs: Objects, p: RawPtr): (r: Objects)
    requires Held(objs, p)
    ensures r.Keys == objs.Keys
    ensures p.Null? ==> r == objs
    ensures forall o :: o in objs && p != Addr(o) ==> r[o] == objs[o]
    ensures p.Addr? ==> r[p.id].refCount == objs[p.id].refCount - 1
    ensures p.Addr? ==> (r[p.id].live <==> objs[p.id].refCount >= 2)
  {
    if p.Null? then objs else objs[p.id := Release(objs[p.id])]
  }

  /** Taking a unit and giving it back is a no-op when the pointer already held one: the
      count effect of `h = h` and of copying a handle and dropping the copy. */
  lemma DropUndoesAcquire(objs: Objects, p: RawPtr)
    requires Held(objs, p)
    ensures Drop(Acquire(objs, p), p) == objs
  {
    if p.Addr? {
      ReleaseAfterAddRef(objs[p.id]);
    }
  }

  /** The count effect of copy-assigning a handle holding `q` into one holding `p != q`:
      the new pointee gains one unit, the old pointee loses one (and is destroyed iff that
      was its last), and no other object changes. */
  lemma AssignMovesUnits(objs: Objects, p: RawPtr, q: RawPtr)
    requires Held(objs, p) && NullOrLive(objs, q) && p != q
    ensures Held(Acquire(objs, q), p)
    ensures var r := Drop(Acquire(objs, q), p);
            && r.Keys == objs.Keys
            && (q.Addr? ==> r[q.id] == AddRef(objs[q.id]))
            && (p.Addr? ==> r[p.id] == Release(objs[p.id]))
            && (forall o :: o in objs && Addr(o) != p && Addr(o) != q ==> r[o] == objs[o])
  {
  }
}
