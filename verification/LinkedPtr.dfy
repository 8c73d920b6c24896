/** `linked_ptr`: reference counting by membership of a circular list.

    The link embedded in each smart pointer is its field `next`. The ghost value `World`
    records what no single smart pointer knows: which smart pointers are live and in
    which circle, which objects were ever captured and which have been deleted. The
    circles are the groups of live pointers to the same object
    (`SameRingIffSameObject`), so the contracts of the operations speak only of the live
    pointers, their values and the deleted objects. */
module LinkedPtrs {
  import opened Basics

  class Pointee {
    constructor () {}
  }

  // ----- circles -----

  /** The circle `r`, listed from any of its members. */
  ghost predicate IsRing(r: seq<LinkedPtr>)
    reads r
  {
    && |r| > 0
    && Distinct(r)
    && (forall i {:trigger r[i].next} :: 0 <= i < |r| ==> r[i].next == r[if i + 1 < |r| then i + 1 else 0])
    && (forall i {:trigger r[i].value} :: 0 <= i < |r| ==> r[i].value == r[0].value)
    && (r[0].value == null ==> |r| == 1)
  }

  ghost function Elements(r: seq<LinkedPtr>): set<LinkedPtr> {
    set p | p in r
  }

  lemma HeadAndTail(r: seq<LinkedPtr>)
    requires IsRing(r)
    ensures Elements(r) == {r[0]} + Elements(r[1..]) && r[0] !in Elements(r[1..])
  {
    assert r == [r[0]] + r[1..];
  }

  /** The circle of each live pointer, and the circle of each object that is held. */
  datatype Rings = Rings(of: map<LinkedPtr, seq<LinkedPtr>>, holding: map<Pointee, seq<LinkedPtr>>)

  /** Each live pointer is in its circle, which is the circle of all its members; the
      circles are therefore disjoint. */
  ghost predicate ValidCircles(of: map<LinkedPtr, seq<LinkedPtr>>)
    reads of.Keys
  {
    && (forall p {:trigger of[p]} :: p in of ==> p in of[p])
    && (forall p, i {:trigger of[p][i]} ::
          p in of && 0 <= i < |of[p]| ==> of[p][i] in of && of[of[p][i]] == of[p])
    && (forall p {:trigger of[p]} :: p in of ==> IsRing(of[p]))
  }

  /** Moreover, no two circles hold the same object. */
  ghost predicate ValidRings(rings: Rings)
    reads rings.of.Keys
  {
    && ValidCircles(rings.of)
    && (forall p {:trigger p.value} ::
          p in rings.of && p.value != null ==>
            p.value in rings.holding && rings.holding[p.value] == rings.of[p])
    && (forall o {:trigger rings.holding[o]} ::
          o in rings.holding ==>
            var r := rings.holding[o]; |r| > 0 && r[0] in rings.of && r[0].value == o)
  }

  lemma SameRingIffSameObject(rings: Rings, p: LinkedPtr, q: LinkedPtr)
    requires ValidRings(rings) && p in rings.of && q in rings.of
    ensures rings.of[p] == rings.of[q] <==> p == q || (p.value == q.value && p.value != null)
  {
    var r := rings.of[p];
    assert p in r && p.value == r[0].value;
    assert q in rings.of[q];
  }

  lemma RotatedRing(r: seq<LinkedPtr>, k: nat)
    requires IsRing(r) && k < |r|
    ensures var c := r[k..] + r[..k];
            IsRing(c) && c[0] == r[k] && (forall p :: p in c <==> p in r)
  {
    var c := r[k..] + r[..k];
    assert r == r[..k] + r[k..];
    forall i {:trigger c[i].next} | 0 <= i < |r|
      ensures c[i] == r[if i < |r| - k then i + k else i + k - |r|]
      ensures c[i].next == c[if i + 1 < |c| then i + 1 else 0] && c[i].value == c[0].value
    {
      var j := if i < |r| - k then i + k else i + k - |r|;
      assert r[j].next == r[if j + 1 < |r| then j + 1 else 0];
    }
  }

  /** The circle of `p`, listed from `p`. */
  lemma RingFrom(rings: Rings, p: LinkedPtr) returns (c: seq<LinkedPtr>)
    requires ValidRings(rings) && p in rings.of
    ensures IsRing(c) && c[0] == p
    ensures Elements(c) == Elements(rings.of[p]) <= rings.of.Keys
  {
    var r := rings.of[p];
    var k :| 0 <= k < |r| && r[k] == p;
    RotatedRing(r, k);
    c := r[k..] + r[..k];
  }

  ghost function ObjectSet(o: Pointee?): set<Pointee> {
    if o == null then {} else {o}
  }

  /** Forgets the circle of `p`, whose links may then be changed. */
  lemma RemoveRing(rings: Rings, p: LinkedPtr) returns (others: Rings)
    requires ValidRings(rings) && p in rings.of
    ensures ValidRings(others)
    ensures others.of.Keys == rings.of.Keys - Elements(rings.of[p])
    ensures others.holding.Keys == rings.holding.Keys - ObjectSet(p.value)
  {
    var r := rings.of[p];
    assert p.value == r[0].value;
    others := Rings(map q | q in rings.of && q !in r :: rings.of[q],
                    map o | o in rings.holding && o != p.value :: rings.holding[o]);
    assert forall q :: q in others.of ==> forall i :: 0 <= i < |rings.of[q]| ==> rings.of[q][i] !in r;
  }

  lemma AddCircle(of: map<LinkedPtr, seq<LinkedPtr>>, r: seq<LinkedPtr>) returns (now: map<LinkedPtr, seq<LinkedPtr>>)
    requires ValidCircles(of) && IsRing(r)
    requires Elements(r) !! of.Keys
    ensures now.Keys == of.Keys + Elements(r)
    ensures forall p :: p in now ==> now[p] == if p in r then r else of[p]
    ensures ValidCircles(now)
  {
    now := map p | p in of.Keys + Elements(r) :: if p in r then r else of[p];
    forall p, i {:trigger now[p][i]} | p in now && 0 <= i < |now[p]|
      ensures now[p][i] in now && now[now[p][i]] == now[p]
    {
      if p !in r {
        assert of[p][i] in of;
      }
    }
    assert forall p {:trigger now[p]} :: p in now ==> p in now[p] && IsRing(now[p]);
  }

  /** The circles of the objects, when the circle `r` joins the others. */
  ghost function HoldingWith(holding: map<Pointee, seq<LinkedPtr>>, r: seq<LinkedPtr>, o: Pointee?)
    : map<Pointee, seq<LinkedPtr>>
  {
    if o == null then holding else holding[o := r]
  }

  lemma EveryObjectHasItsCircle(rings: Rings, r: seq<LinkedPtr>, now: Rings)
    requires ValidRings(rings) && IsRing(r) && Elements(r) !! rings.of.Keys
    requires r[0].value != null ==> r[0].value !in rings.holding
    requires now.of.Keys == rings.of.Keys + Elements(r)
    requires forall p :: p in now.of ==> now.of[p] == if p in r then r else rings.of[p]
    requires now.holding == HoldingWith(rings.holding, r, r[0].value)
    ensures forall p {:trigger p.value} ::
              p in now.of && p.value != null ==> p.value in now.holding && now.holding[p.value] == now.of[p]
  {
    forall p {:trigger p.value} | p in now.of && p.value != null
      ensures p.value in now.holding && now.holding[p.value] == now.of[p]
    {
      if p in r {
        assert p.value == r[0].value;
      } else {
        assert p in rings.of;
      }
    }
  }

  /** Records the circle `r`. */
  lemma AddRing(rings: Rings, r: seq<LinkedPtr>) returns (now: Rings)
    requires ValidRings(rings) && IsRing(r)
    requires Elements(r) !! rings.of.Keys
    requires r[0].value != null ==> r[0].value !in rings.holding
    ensures ValidRings(now)
    ensures now.of.Keys == rings.of.Keys + Elements(r)
    ensures now.holding.Keys == rings.holding.Keys + ObjectSet(r[0].value)
  {
    var o := r[0].value;
    var of := AddCircle(rings.of, r);
    now := Rings(of, HoldingWith(rings.holding, r, o));
    EveryObjectHasItsCircle(rings, r, now);
    forall x {:trigger now.holding[x]} | x in now.holding
      ensures var c := now.holding[x]; |c| > 0 && c[0] in now.of && c[0].value == x
    {
      if x == o {
        assert r[0] in r;
      } else {
        assert rings.holding[x][0] in rings.of;
      }
    }
  }

  // ----- what exists and what was deleted -----

  /** The circles, the objects ever captured, and the objects deleted. */
  datatype World = World(rings: Rings, captured: set<Pointee>, deleted: set<Pointee>) {
    ghost function Live(): set<LinkedPtr> {
      rings.of.Keys
    }

    /** The objects that some live pointer holds (see `HeldByALivePointer`). */
    ghost function Held(): set<Pointee> {
      rings.holding.Keys
    }

    /** Every object ever captured is held by a live pointer or deleted, and not both. */
    ghost predicate Valid()
      reads rings.of.Keys
    {
      && ValidRings(rings)
      && captured == Held() + deleted
      && Held() !! deleted
    }
  }

  lemma LiveObjectIsHeld(w: World, p: LinkedPtr)
    requires w.Valid() && p in w.Live()
    ensures ObjectSet(p.value) <= w.Held()
  {
  }

  lemma HeldByALivePointer(w: World, o: Pointee)
    requires w.Valid()
    ensures o in w.Held() <==> exists p :: p in w.Live() && p.value == o
  {
    if o in w.Held() {
      assert w.rings.holding[o][0] in w.Live();
    }
  }

  /** Before the first smart pointer is made. */
  ghost function EmptyWorld(): (w: World)
    ensures w.Valid() && w.Live() == {} && w.captured == {}
  {
    World(Rings(map[], map[]), {}, {})
  }

  /** When the last smart pointer is gone, every captured object has been deleted. */
  lemma NothingLeaks(w: World)
    requires w.Valid() && w.Live() == {}
    ensures w.deleted == w.captured
  {
    forall o | o in w.captured
      ensures o in w.deleted
    {
      HeldByALivePointer(w, o);
    }
  }

  /** `delete value_`: a null pointer is left alone, and nothing may be deleted twice. */
  ghost function Delete(deleted: set<Pointee>, value: Pointee?): set<Pointee>
    requires ObjectSet(value) !! deleted
  {
    deleted + ObjectSet(value)
  }

  class LinkedPtr {
    var value: Pointee?
    var next: LinkedPtr?

    // ----- the circular list (linked_ptr_internal) -----

    /** The walk round a circle that both `join` and `depart` make. */
    static method WalkToPredecessor(start: LinkedPtr, target: LinkedPtr, ghost c: seq<LinkedPtr>, ghost k: nat)
      returns (p: LinkedPtr)
      requires IsRing(c) && c[0] == target && k < |c| && start == c[k]
      ensures p == c[|c| - 1]
    {
      p := start;
      ghost var i := k;
      while p.next != target
        invariant 0 <= i < |c| && p == c[i]
        decreases |c| - i
      {
        p := p.next;
        i := i + 1;
      }
    }

    method JoinNew()
      modifies this`next
      ensures next == this
    {
      next := this;
    }

    method Join(ptr: LinkedPtr, ghost c: seq<LinkedPtr>)
      requires IsRing(c) && c[0] == ptr && this !in c
      requires value != null && value == ptr.value
      modifies this`next, c`next
      ensures IsRing(c + [this])
    {
      var p := WalkToPredecessor(ptr, ptr, c, 0);
      p.next := this;
      next := ptr;
    }

    method Depart(ghost c: seq<LinkedPtr>) returns (last: bool)
      requires IsRing(c) && c[0] == this
      modifies c`next
      ensures last <==> |c| == 1
      ensures !last ==> IsRing(c[1..])
    {
      if next == this {
        return true;
      }
      var p := WalkToPredecessor(next, this, c, 1);
      p.next := next;
      return false;
    }

    /** Leaves the circle of `rings` that this pointer is in. */
    method DepartCircle(ghost rings: Rings) returns (last: bool, ghost now: Rings)
      requires ValidRings(rings) && this in rings.of
      modifies rings.of.Keys`next
      ensures ValidRings(now) && now.of.Keys == rings.of.Keys - {this}
      ensures now.holding.Keys == rings.holding.Keys - if last then ObjectSet(value) else {}
      ensures ObjectSet(value) <= rings.holding.Keys
    {
      ghost var c := RingFrom(rings, this);
      ghost var others := RemoveRing(rings, this);
      HeadAndTail(c);
      last := Depart(c);
      if last {
        now := others;
      } else {
        now := AddRing(others, c[1..]);
      }
    }

    /** Joins the circle of `rings` that `ptr` is in. */
    method JoinCircle(ptr: LinkedPtr, ghost rings: Rings) returns (ghost now: Rings)
      requires ValidRings(rings) && this !in rings.of && ptr in rings.of
      requires value != null && value == ptr.value
      modifies this`next, rings.of.Keys`next
      ensures ValidRings(now) && now.of.Keys == rings.of.Keys + {this}
      ensures now.holding.Keys == rings.holding.Keys
    {
      ghost var c := RingFrom(rings, ptr);
      ghost var others := RemoveRing(rings, ptr);
      ghost var longer := c + [this];
      assert Elements(longer) == Elements(c) + {this} && longer[0] == ptr;
      Join(ptr, c);
      now := AddRing(others, longer);
    }

    /** Starts a circle of its own. */
    method JoinNewCircle(ghost rings: Rings) returns (ghost now: Rings)
      requires ValidRings(rings) && this !in rings.of
      requires value != null ==> value !in rings.holding
      modifies this`next
      ensures ValidRings(now) && now.of.Keys == rings.of.Keys + {this}
      ensures now.holding.Keys == rings.holding.Keys + ObjectSet(value)
    {
      JoinNew();
      now := AddRing(rings, [this]);
    }

    // ----- the smart pointer -----
    // Each operation takes the world before it and returns the world after it.

    method DepartAndDelete(ghost w: World) returns (ghost after: World)
      requires w.Valid() && this in w.Live()
      modifies w.Live()`next
      ensures after.Valid() && after.Live() == w.Live() - {this}
      ensures after.captured == w.captured && after.deleted == w.deleted + (ObjectSet(value) - after.Held())
    {
      var last;
      ghost var now;
      last, now := DepartCircle(w.rings);
      after := World(now, w.captured, if last then Delete(w.deleted, value) else w.deleted);
    }

    method Capture(ptr: Pointee?, ghost w: World) returns (ghost after: World)
      requires w.Valid() && this !in w.Live()
      requires ObjectSet(ptr) !! w.captured
      modifies this
      ensures value == ptr
      ensures after.Valid() && after.Live() == w.Live() + {this}
      ensures after.captured == w.captured + ObjectSet(ptr) && after.deleted == w.deleted
    {
      value := ptr;
      ghost var now := JoinNewCircle(w.rings);
      after := World(now, w.captured + ObjectSet(ptr), w.deleted);
    }

    method Copy(ptr: LinkedPtr, ghost w: World) returns (ghost after: World)
      requires w.Valid() && this !in w.Live() && ptr in w.Live()
      modifies this, w.Live()`next
      ensures value == ptr.value
      ensures after.Valid() && after.Live() == w.Live() + {this}
      ensures after.captured == w.captured && after.deleted == w.deleted
    {
      value := ptr.value;
      ghost var now;
      if value != null {
        now := JoinCircle(ptr, w.rings);
      } else {
        now := JoinNewCircle(w.rings);
      }
      after := World(now, w.captured, w.deleted);
    }

    /** The constructor from a raw pointer, which must not be owned yet. */
    static method Make(ptr: Pointee?, ghost w: World) returns (p: LinkedPtr, ghost after: World)
      requires w.Valid()
      requires ObjectSet(ptr) !! w.captured
      ensures fresh(p) && p.value == ptr
      ensures after.Valid() && after.Live() == w.Live() + {p}
      ensures after.captured == w.captured + ObjectSet(ptr) && after.deleted == w.deleted
    {
      p := new LinkedPtr;
      after := p.Capture(ptr, w);
    }

    /** The copy constructor. */
    static method MakeCopy(ptr: LinkedPtr, ghost w: World) returns (p: LinkedPtr, ghost after: World)
      requires w.Valid() && ptr in w.Live()
      modifies w.Live()`next
      ensures fresh(p) && p.value == ptr.value
      ensures after.Valid() && after.Live() == w.Live() + {p}
      ensures after.captured == w.captured && after.deleted == w.deleted
    {
      p := new LinkedPtr;
      after := p.Copy(ptr, w);
    }

    /** The old object is deleted exactly when no live pointer holds it any more; assigning
        a pointer to itself changes nothing. */
    method Assign(ptr: LinkedPtr, ghost w: World) returns (ghost after: World)
      requires w.Valid() && this in w.Live() && ptr in w.Live()
      modifies this, w.Live()`next
      ensures value == old(ptr.value)
      ensures after.Valid() && after.Live() == w.Live()
      ensures after.captured == w.captured && after.deleted == w.deleted + (ObjectSet(old(value)) - after.Held())
      ensures ptr == this ==>
                after == w && forall p :: p in w.Live() ==> p.next == old(p.next) && p.value == old(p.value)
    {
      LiveObjectIsHeld(w, this);
      hide ValidRings;
      after := w;
      if ptr != this {
        after := DepartAndCopy(ptr, w);
      }
    }

    method DepartAndCopy(ptr: LinkedPtr, ghost w: World) returns (ghost after: World)
      requires w.Valid() && this in w.Live() && ptr in w.Live() && ptr != this
      modifies this, w.Live()`next
      ensures value == ptr.value == old(ptr.value)
      ensures after.Valid() && after.Live() == w.Live()
      ensures after.captured == w.captured && after.deleted == w.deleted + (ObjectSet(old(value)) - after.Held())
    {
      hide ValidRings, IsRing;
      ghost var between := DepartAndDelete(w);
      after := Copy(ptr, between);
    }

    method Reset(ptr: Pointee?, ghost w: World) returns (ghost after: World)
      requires w.Valid() && this in w.Live()
      requires ObjectSet(ptr) !! w.captured
      modifies this, w.Live()`next
      ensures value == ptr
      ensures after.Valid() && after.Live() == w.Live()
      ensures after.captured == w.captured + ObjectSet(ptr)
      ensures after.deleted == w.deleted + (ObjectSet(old(value)) - after.Held())
    {
      hide ValidRings, IsRing;
      assert w.Live() - {this} + {this} == w.Live();
      ghost var between := DepartAndDelete(w);
      after := Capture(ptr, between);
    }

    /** The destructor. */
    method Destroy(ghost w: World) returns (ghost after: World)
      requires w.Valid() && this in w.Live()
      modifies w.Live()`next
      ensures after.Valid() && after.Live() == w.Live() - {this}
      ensures after.captured == w.captured && after.deleted == w.deleted + (ObjectSet(value) - after.Held())
    {
      after := DepartAndDelete(w);
    }
  }
}
