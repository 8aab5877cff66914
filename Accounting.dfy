/** The ownership invariant of the handle/counter pair, stated on values: a map from each
    existing handle to the address it stores, and a multiset of the units held as raw
    pointers outside any handle (after `detach`, or taken with a direct add-ref). The key
    type `H` is left generic so that the lemmas do not depend on the handle class. */
module Accounting {
  import opened RefCounter

  /** The handles that store the address of `o`. */
  ghost function HolderSet<H>(view: map<H, RawPtr>, o: ObjId): set<H> {
    set h | h in view && view[h] == Addr(o)
  }

  /** How many handles store the address of `o`. */
  ghost function Holders<H>(view: map<H, RawPtr>, o: ObjId): nat {
    |HolderSet(view, o)|
  }

  /** The central invariant: every handle and every raw unit refers to a live object with a
      positive count, and each live object's count is exactly the number of handles storing
      its address plus the raw units taken out on it. */
  ghost predicate Accounted<H>(objs: Objects, view: map<H, RawPtr>, raw: multiset<ObjId>) {
    && (forall h :: h in view ==> Held(objs, view[h]))
    && (forall o :: o in raw ==> Held(objs, Addr(o)))
    && (forall o :: Live(objs, o) ==> objs[o].refCount == Holders(view, o) + raw[o])
  }

  /** Re-pointing one handle changes the holder count of `o` only by that handle. */
  lemma HoldersUpdate<H>(view: map<H, RawPtr>, h: H, p: RawPtr, o: ObjId)
    ensures Holders(view[h := p], o)
            == Holders(view, o) - (if h in view && view[h] == Addr(o) then 1 else 0)
                                + (if p == Addr(o) then 1 else 0)
  {
    var a, b := HolderSet(view, o), HolderSet(view[h := p], o);
    assert a - {h} == b - {h};
    if h in a {
      assert |a| == |a - {h}| + 1;
    } else {
      assert a - {h} == a;
    }
    if h in b {
      assert |b| == |b - {h}| + 1;
    } else {
      assert b - {h} == b;
    }
  }

  /** Forgetting one handle lowers the holder count of `o` only if it stored `o`. */
  lemma HoldersRemove<H>(view: map<H, RawPtr>, h: H, o: ObjId)
    ensures Holders(view - {h}, o)
            == Holders(view, o) - (if h in view && view[h] == Addr(o) then 1 else 0)
  {
    var a, b := HolderSet(view, o), HolderSet(view - {h}, o);
    assert b == a - {h};
    if h in a {
      assert |a| == |b| + 1;
    }
  }

  /** A handle that stores `o` is one of its holders. */
  lemma HolderCounted<H>(view: map<H, RawPtr>, h: H)
    requires h in view && view[h].Addr?
    ensures Holders(view, view[h].id) >= 1
  {
    assert h in HolderSet(view, view[h].id);
  }

  /** An object no handle stores has no holders. */
  lemma NoHolders<H>(view: map<H, RawPtr>, o: ObjId)
    requires forall h :: h in view ==> view[h] != Addr(o)
    ensures Holders(view, o) == 0
  {
    assert HolderSet(view, o) == {};
  }

  /** The invariant with no handle and no raw unit, over any objects whose counts are zero. */
  lemma EmptyAccounted<H>(objs: Objects, view: map<H, RawPtr>)
    requires view == map[]
    requires forall o :: o in objs ==> objs[o].refCount == 0
    ensures Accounted(objs, view, multiset{})
  {
    forall o | Live(objs, o)
      ensures objs[o].refCount == Holders(view, o) + multiset{}[o]
    {
      NoHolders(view, o);
    }
  }

  /** Allocating a new counted object (count zero) under an id no handle or raw unit uses. */
  lemma NewObjectStep<H>(objs: Objects, view: map<H, RawPtr>, raw: multiset<ObjId>, o: ObjId)
    requires Accounted(objs, view, raw) && o !in objs
    ensures Accounted(objs[o := NewCounter()], view, raw)
  {
    var objs' := objs[o := NewCounter()];
    forall o' | Live(objs', o')
      ensures objs'[o'].refCount == Holders(view, o') + raw[o']
    {
      if o' == o {
        NoHolders(view, o);
        assert o !in raw;
      }
    }
  }

  /** A new handle `h` that stores `p` and takes a fresh unit on it: the null constructor,
      the raw-address constructor with add-ref, and copy construction. */
  lemma AcquireStep<H>(objs: Objects, view: map<H, RawPtr>, raw: multiset<ObjId>, h: H, p: RawPtr)
    requires Accounted(objs, view, raw) && h !in view && NullOrLive(objs, p)
    ensures Accounted(Acquire(objs, p), view[h := p], raw)
  {
    var objs', view' := Acquire(objs, p), view[h := p];
    forall o | Live(objs', o)
      ensures objs'[o].refCount == Holders(view', o) + raw[o]
    {
      HoldersUpdate(view, h, p, o);
    }
  }

  /** A new handle `h` that adopts a unit already taken out as a raw pointer: the
      raw-address constructor without add-ref. */
  lemma AdoptStep<H>(objs: Objects, view: map<H, RawPtr>, raw: multiset<ObjId>, h: H, p: RawPtr)
    requires Accounted(objs, view, raw) && h !in view && (p.Null? || p.id in raw)
    ensures Accounted(objs, view[h := p], raw - Units(p))
  {
    var view', raw' := view[h := p], raw - Units(p);
    forall o | Live(objs, o)
      ensures objs[o].refCount == Holders(view', o) + raw'[o]
    {
      HoldersUpdate(view, h, p, o);
    }
  }

  /** A new handle `h` that takes over the address of `r`, which becomes null: move
      construction. */
  lemma MoveStep<H>(objs: Objects, view: map<H, RawPtr>, raw: multiset<ObjId>, h: H, r: H)
    requires Accounted(objs, view, raw) && h !in view && r in view
    ensures Accounted(objs, view[h := view[r]][r := Null], raw)
  {
    var mid := view[h := view[r]];
    var view' := mid[r := Null];
    forall o | Live(objs, o)
      ensures objs[o].refCount == Holders(view', o) + raw[o]
    {
      HoldersUpdate(view, h, view[r], o);
      HoldersUpdate(mid, r, Null, o);
    }
  }

  /** Handles `a` and `b` exchange their addresses: `swap`. */
  lemma SwapStep<H>(objs: Objects, view: map<H, RawPtr>, raw: multiset<ObjId>, a: H, b: H)
    requires Accounted(objs, view, raw) && a in view && b in view
    ensures Accounted(objs, view[a := view[b]][b := view[a]], raw)
  {
    var mid := view[a := view[b]];
    var view' := mid[b := view[a]];
    forall o | Live(objs, o)
      ensures objs[o].refCount == Holders(view', o) + raw[o]
    {
      HoldersUpdate(view, a, view[b], o);
      HoldersUpdate(mid, b, view[a], o);
    }
  }

  /** Handle `h` hands its unit out as a raw pointer and becomes null: `detach`. */
  lemma DetachStep<H>(objs: Objects, view: map<H, RawPtr>, raw: multiset<ObjId>, h: H)
    requires Accounted(objs, view, raw) && h in view
    ensures Accounted(objs, view[h := Null], raw + Units(view[h]))
  {
    var view', raw' := view[h := Null], raw + Units(view[h]);
    forall o | Live(objs, o)
      ensures objs[o].refCount == Holders(view', o) + raw'[o]
    {
      HoldersUpdate(view, h, Null, o);
    }
  }

  /** Handle `h` gives up its unit and ceases to exist: the destructor. */
  lemma DropStep<H>(objs: Objects, view: map<H, RawPtr>, raw: multiset<ObjId>, h: H)
    requires Accounted(objs, view, raw) && h in view
    ensures Accounted(Drop(objs, view[h]), view - {h}, raw)
  {
    var p := view[h];
    var objs', view' := Drop(objs, p), view - {h};
    forall o | Live(objs', o)
      ensures objs'[o].refCount == Holders(view', o) + raw[o]
    {
      HoldersRemove(view, h, o);
    }
    forall h' | h' in view'
      ensures Held(objs', view'[h'])
    {
      if view'[h'].Addr? {
        var o := view'[h'].id;
        HolderCounted(view', h');
        HoldersRemove(view, h, o);
      }
    }
    forall o | o in raw
      ensures Held(objs', Addr(o))
    {
      HoldersRemove(view, h, o);
    }
  }

  /** A raw unit taken directly with `intrusive_ptr_add_ref` by code outside any handle. */
  lemma RawAcquireStep<H>(objs: Objects, view: map<H, RawPtr>, raw: multiset<ObjId>, o: ObjId)
    requires Accounted(objs, view, raw) && Live(objs, o)
    ensures Accounted(Acquire(objs, Addr(o)), view, raw + multiset{o})
  {
  }

  /** A raw unit given back directly with `intrusive_ptr_release`. */
  lemma RawDropStep<H>(objs: Objects, view: map<H, RawPtr>, raw: multiset<ObjId>, o: ObjId)
    requires Accounted(objs, view, raw) && o in raw
    ensures Accounted(Drop(objs, Addr(o)), view, raw - multiset{o})
  {
    var objs', raw' := Drop(objs, Addr(o)), raw - multiset{o};
    forall h | h in view
      ensures Held(objs', view[h])
    {
      if view[h] == Addr(o) {
        HolderCounted(view, h);
      }
    }
  }
}
