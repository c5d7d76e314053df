/**
 A copy-on-write handle to a point whose use count lives inside the box
 (`Handle` over `UPoint { Point p_; int u_; }`).

 The free store is modelled by maps: `boxes` maps the address of every `UPoint` ever
 allocated to its point, its count `u_` and whether it has been deleted; `handles`
 maps every live `Handle` to its `up_` pointer. `Inv` is the reference-counting
 invariant: a live handle points at a box that has not been deleted, every box's `u_`
 is the number of live handles pointing at it, a box is deleted exactly when that
 number is zero, and it is deleted at most once. Each primitive step of the handle
 operations has a lemma saying it preserves `Inv`; the `Heap` class performs the
 steps in the order the source does.
 */
module HandleOne {
  import opened RefCount
  import opened Points

  /** A `UPoint` box: the point, its use count `u`, and whether `delete` has run on it. */
  datatype UPoint = UPoint(p: Point, u: int, freed: bool)

  type BoxId = nat
  type HandleId = nat
  type Boxes = map<BoxId, UPoint>
  type Handles = map<HandleId, BoxId>

  /** The reference-counting invariant of the free store. */
  ghost predicate Inv(boxes: Boxes, handles: Handles, nextBox: nat, nextHandle: nat)
  {
    && (forall h :: h in handles ==> h < nextHandle && handles[h] in boxes && !boxes[handles[h]].freed)
    && (forall b :: b in boxes ==> b < nextBox)
    && (forall b {:trigger Count(handles, b)} :: b in boxes ==> boxes[b].u == Count(handles, b))
    && (forall b :: b in boxes ==> (boxes[b].freed <==> boxes[b].u == 0))
  }

  /** `++up_->u_` */
  function Retain(boxes: Boxes, b: BoxId): Boxes
    requires b in boxes
  {
    boxes[b := boxes[b].(u := boxes[b].u + 1)]
  }

  /** `if (--up_->u_ == 0) delete up_;` */
  function Release(boxes: Boxes, b: BoxId): Boxes
    requires b in boxes
  {
    boxes[b := if boxes[b].u == 1 then boxes[b].(u := 0, freed := true) else boxes[b].(u := boxes[b].u - 1)]
  }

  /** Raising a count by one and then lowering it by one restores every box. */
  lemma RetainThenRelease(boxes: Boxes, b: BoxId)
    requires b in boxes && boxes[b].u >= 1
    ensures Release(Retain(boxes, b), b) == boxes
  {
  }

  /** Allocating a box with count 1 for a new handle keeps the invariant. */
  lemma {:induction false} CreatePreserves(boxes: Boxes, handles: Handles, nextBox: nat, nextHandle: nat,
                                           pt: Point)
    requires Inv(boxes, handles, nextBox, nextHandle)
    ensures nextBox !in boxes && nextHandle !in handles
    ensures Inv(boxes[nextBox := UPoint(pt, 1, false)], handles[nextHandle := nextBox],
                nextBox + 1, nextHandle + 1)
  {
    var boxes', handles' := boxes[nextBox := UPoint(pt, 1, false)], handles[nextHandle := nextBox];
    forall c: BoxId | c in boxes'
      ensures boxes'[c].u == Count(handles', c)
    {
      CountInsert(handles, nextHandle, nextBox, c);
      CountZero(handles, nextBox);
    }
  }

  /** A new handle attached to the box of `h`, with its count raised, keeps the invariant. */
  lemma {:induction false} CopyPreserves(boxes: Boxes, handles: Handles, nextBox: nat, nextHandle: nat, h: HandleId)
    requires Inv(boxes, handles, nextBox, nextHandle) && h in handles
    ensures nextHandle !in handles
    ensures Inv(Retain(boxes, handles[h]), handles[nextHandle := handles[h]], nextBox, nextHandle + 1)
  {
    var boxes', handles' := Retain(boxes, handles[h]), handles[nextHandle := handles[h]];
    forall c: BoxId | c in boxes'
      ensures boxes'[c].u == Count(handles', c)
    {
      CountInsert(handles, nextHandle, handles[h], c);
      assert boxes[c].u == Count(handles, c);
    }
    assert boxes[handles[h]].u == Count(handles, handles[h]);
    CountPositive(handles, h);
  }

  /** Dropping a handle and releasing its box keeps the invariant. */
  lemma {:induction false} DestroyPreserves(boxes: Boxes, handles: Handles, nextBox: nat, nextHandle: nat, h: HandleId)
    requires Inv(boxes, handles, nextBox, nextHandle) && h in handles
    ensures Inv(Release(boxes, handles[h]), handles - {h}, nextBox, nextHandle)
  {
    var b := handles[h];
    var boxes', handles' := Release(boxes, b), handles - {h};
    forall c: BoxId | c in boxes'
      ensures boxes'[c].u == Count(handles', c)
    {
      CountRemove(handles, h, c);
    }
    CountZero(handles', b);
  }

  /**
   Retaining the box of `other`, releasing the box of `self` and redirecting `self`
   keeps the invariant, also when the two boxes are the same.
   */
  lemma {:induction false} AssignPreserves(boxes: Boxes, handles: Handles, nextBox: nat, nextHandle: nat, self: HandleId, other: HandleId)
    requires Inv(boxes, handles, nextBox, nextHandle) && self in handles && other in handles
    ensures var retained := Retain(boxes, handles[other]);
      Inv(Release(retained, handles[self]), handles[self := handles[other]], nextBox, nextHandle)
  {
    var s, o := handles[self], handles[other];
    var retained := Retain(boxes, o);
    var boxes', handles' := Release(retained, s), handles[self := o];
    forall c: BoxId | c in boxes'
      ensures boxes'[c].u == Count(handles', c)
    {
      CountUpdate(handles, self, o, c);
      assert boxes[c].u == Count(handles, c);
    }
    assert boxes[s].u == Count(handles, s) && boxes[o].u == Count(handles, o);
    CountPositive(handles, self);
    CountPositive(handles, other);
    CountZero(handles', s);
  }

  /**
   Giving up one share of a box whose count is not 1 and moving `h` to a fresh copy of
   the point with count 1 keeps the invariant; the old box is not deleted.
   */
  lemma {:induction false} SplitPreserves(boxes: Boxes, handles: Handles, nextBox: nat, nextHandle: nat, h: HandleId)
    requires Inv(boxes, handles, nextBox, nextHandle) && h in handles
    requires boxes[handles[h]].u != 1
    ensures boxes[handles[h]].u > 1 && nextBox !in boxes
    ensures var b := handles[h];
      Inv(boxes[b := boxes[b].(u := boxes[b].u - 1)][nextBox := UPoint(boxes[b].p, 1, false)],
          handles[h := nextBox], nextBox + 1, nextHandle)
  {
    var b := handles[h];
    CountPositive(handles, h);
    CountZero(handles, nextBox);
    var boxes' := boxes[b := boxes[b].(u := boxes[b].u - 1)][nextBox := UPoint(boxes[b].p, 1, false)];
    var handles' := handles[h := nextBox];
    forall c: BoxId | c in boxes'
      ensures boxes'[c].u == Count(handles', c)
    {
      CountUpdate(handles, h, nextBox, c);
      if c != nextBox {
        assert boxes[c].u == Count(handles, c);
      }
    }
  }

  /** Writing the point of a box that only `h` uses changes what `h` reads and nothing else. */
  lemma {:induction false} WriteUnshared(boxes: Boxes, handles: Handles, nextBox: nat, nextHandle: nat, h: HandleId, p: Point)
    requires Inv(boxes, handles, nextBox, nextHandle) && h in handles
    requires boxes[handles[h]].u == 1
    ensures var b := handles[h];
      Inv(boxes[b := boxes[b].(p := p)], handles, nextBox, nextHandle)
    ensures forall g :: g in handles && g != h ==> handles[g] != handles[h]
  {
    CountOne(handles, h);
  }

  class Heap {
    /** Every box ever allocated, by address. */
    var boxes: Boxes
    /** The `up_` pointer of every live handle. */
    var handles: Handles
    /** The next fresh box address and handle address. */
    var nextBox: BoxId
    var nextHandle: HandleId
    /** The number of `delete`s of a box performed so far. */
    ghost var deletes: nat

    ghost predicate Valid()
      reads this
    {
      Inv(boxes, handles, nextBox, nextHandle)
    }

    /** The point that handle `h` reads. */
    ghost function Value(h: HandleId): Point
      reads this
      requires h in handles && handles[h] in boxes
    {
      boxes[handles[h]].p
    }

    /** An empty free store. */
    constructor ()
      ensures Valid()
      ensures boxes == map[] && handles == map[] && deletes == 0
    {
      boxes, handles := map[], map[];
      nextBox, nextHandle := 0, 0;
      deletes := 0;
    }

    /** `Handle(int, int)` and `Handle(const Point&)`: a new handle on a new box with count 1. */
    method Create(pt: Point) returns (h: HandleId)
      requires Valid()
      modifies this
      ensures Valid()
      ensures h !in old(handles) && old(nextBox) !in old(boxes)
      ensures handles == old(handles)[h := old(nextBox)]
      ensures boxes == old(boxes)[old(nextBox) := UPoint(pt, 1, false)]
      ensures deletes == old(deletes)
      ensures Value(h) == pt
    {
      CreatePreserves(boxes, handles, nextBox, nextHandle, pt);
      var b := nextBox;
      h := nextHandle;
      boxes := boxes[b := UPoint(pt, 1, false)];
      handles := handles[h := b];
      nextBox, nextHandle := nextBox + 1, nextHandle + 1;
    }

    /** `Handle()`: a new handle on a new box holding the origin. */
    method CreateDefault() returns (h: HandleId)
      requires Valid()
      modifies this
      ensures Valid()
      ensures h !in old(handles) && old(nextBox) !in old(boxes)
      ensures handles == old(handles)[h := old(nextBox)]
      ensures boxes == old(boxes)[old(nextBox) := UPoint(Origin, 1, false)]
      ensures deletes == old(deletes)
      ensures Value(h) == Point(0, 0)
    {
      h := Create(Origin);
    }

    /** `Handle(const Handle&)`: shares the box and adds one to its count; the point is not copied. */
    method Copy(h: HandleId) returns (g: HandleId)
      requires Valid() && h in handles
      modifies this
      ensures Valid()
      ensures g !in old(handles)
      ensures handles == old(handles)[g := old(handles[h])]
      ensures boxes == Retain(old(boxes), old(handles[h]))
      ensures nextBox == old(nextBox) && deletes == old(deletes)
      ensures Value(g) == Value(h) == old(Value(h))
    {
      CopyPreserves(boxes, handles, nextBox, nextHandle, h);
      var b := handles[h];
      g := nextHandle;
      boxes := boxes[b := boxes[b].(u := boxes[b].u + 1)];
      handles := handles[g := b];
      nextHandle := nextHandle + 1;
    }

    /** `~Handle()`: takes one from the count and deletes the box exactly when it reaches zero. */
    method Destroy(h: HandleId)
      requires Valid() && h in handles
      modifies this
      ensures Valid()
      ensures handles == old(handles) - {h}
      ensures boxes == Release(old(boxes), old(handles[h]))
      ensures boxes[old(handles[h])].freed <==> old(boxes[handles[h]].u) == 1
      ensures deletes == old(deletes) + if old(boxes[handles[h]].u) == 1 then 1 else 0
      ensures nextBox == old(nextBox)
    {
      DestroyPreserves(boxes, handles, nextBox, nextHandle, h);
      var b := handles[h];
      deletes := deletes + if boxes[b].u == 1 then 1 else 0;
      boxes := Release(boxes, b);
      handles := handles - {h};
    }

    /**
     `operator=`: the source's count goes up before the target's goes down, so assigning
     a handle to itself, or to another handle on the same box, changes no box at all.
     */
    method Assign(self: HandleId, other: HandleId) returns (r: HandleId)
      requires Valid() && self in handles && other in handles
      modifies this
      ensures Valid() && r == self
      ensures handles == old(handles)[self := old(handles[other])]
      ensures Value(self) == old(Value(other))
      ensures boxes == Release(Retain(old(boxes), old(handles[other])), old(handles[self]))
      ensures deletes == old(deletes) + if Retain(old(boxes), old(handles[other]))[old(handles[self])].u == 1 then 1 else 0
      ensures old(handles[self]) == old(handles[other]) ==> boxes == old(boxes) && deletes == old(deletes)
      ensures forall g :: g in handles && g != self ==> Value(g) == old(Value(g))
      ensures nextBox == old(nextBox)
    {
      AssignPreserves(boxes, handles, nextBox, nextHandle, self, other);
      var s, o := handles[self], handles[other];
      var retained := Retain(boxes, o);
      deletes := deletes + if retained[s].u == 1 then 1 else 0;
      boxes := Release(retained, s);
      handles := handles[self := o];
      r := self;
      if s == o {
        CountPositive(old(handles), self);
        RetainThenRelease(old(boxes), s);
      }
    }

    /** `x() const`: reads the shared point; changes nothing. */
    method X(h: HandleId) returns (x: int)
      requires Valid() && h in handles
      ensures x == Value(h).x
    {
      x := boxes[handles[h]].p.x;
    }

    /** `y() const`: reads the shared point; changes nothing. */
    method Y(h: HandleId) returns (y: int)
      requires Valid() && h in handles
      ensures y == Value(h).y
    {
      y := boxes[handles[h]].p.y;
    }

    /**
     The copy-on-write guard of both setters: on a box with a count other than 1, give up
     one share of it (the count cannot reach zero, it was above 1) and move to a fresh box
     holding a copy of the point, with count 1. On an unshared box nothing happens.
     */
    method MakeUnique(h: HandleId)
      requires Valid() && h in handles
      modifies this
      ensures Valid() && h in handles
      ensures boxes[handles[h]].u == 1 && Value(h) == old(Value(h))
      ensures old(boxes[handles[h]].u) == 1 ==>
        handles == old(handles) && boxes == old(boxes) && nextBox == old(nextBox)
      ensures var b := old(handles[h]);
        old(boxes[b].u) != 1 ==>
          && old(boxes[b].u) > 1 && old(nextBox) !in old(boxes)
          && handles == old(handles)[h := old(nextBox)]
          && boxes == old(boxes)[b := old(boxes[b]).(u := old(boxes[b].u) - 1)]
                                [old(nextBox) := UPoint(old(boxes[b].p), 1, false)]
          && nextBox == old(nextBox) + 1
      ensures nextHandle == old(nextHandle) && deletes == old(deletes)
      ensures forall g :: g in old(handles) && g != h ==> g in handles && Value(g) == old(Value(g))
    {
      var b := handles[h];
      if boxes[b].u != 1 {
        SplitPreserves(boxes, handles, nextBox, nextHandle, h);
        var c := nextBox;
        boxes := boxes[b := boxes[b].(u := boxes[b].u - 1)][c := UPoint(boxes[b].p, 1, false)];
        nextBox := nextBox + 1;
        handles := handles[h := c];
      }
    }

    /**
     `x(int)`: after the copy-on-write guard, writes the new coordinate into this handle's
     own box and returns the handle, so that writes can be chained. No other handle sees
     the write.
     */
    method SetX(h: HandleId, v: int) returns (r: HandleId)
      requires Valid() && h in handles
      modifies this
      ensures Valid() && r == h && h in handles
      ensures Value(h) == old(Value(h)).(x := v)
      ensures forall g :: g in old(handles) && g != h ==> g in handles && Value(g) == old(Value(g))
      ensures var b := old(handles[h]);
        old(boxes[b].u) == 1 ==>
          && handles == old(handles) && nextBox == old(nextBox)
          && boxes == old(boxes)[b := old(boxes[b]).(p := old(boxes[b].p).(x := v))]
      ensures var b := old(handles[h]);
        old(boxes[b].u) != 1 ==>
          && handles == old(handles)[h := old(nextBox)]
          && boxes == old(boxes)[b := old(boxes[b]).(u := old(boxes[b].u) - 1)]
                                [old(nextBox) := UPoint(old(boxes[b].p).(x := v), 1, false)]
      ensures deletes == old(deletes)
    {
      MakeUnique(h);
      r := Write(h, boxes[handles[h]].p.(x := v));
    }

    /** `y(int)`: as `x(int)`, for the other coordinate. */
    method SetY(h: HandleId, v: int) returns (r: HandleId)
      requires Valid() && h in handles
      modifies this
      ensures Valid() && r == h && h in handles
      ensures Value(h) == old(Value(h)).(y := v)
      ensures forall g :: g in old(handles) && g != h ==> g in handles && Value(g) == old(Value(g))
      ensures var b := old(handles[h]);
        old(boxes[b].u) == 1 ==>
          && handles == old(handles) && nextBox == old(nextBox)
          && boxes == old(boxes)[b := old(boxes[b]).(p := old(boxes[b].p).(y := v))]
      ensures var b := old(handles[h]);
        old(boxes[b].u) != 1 ==>
          && handles == old(handles)[h := old(nextBox)]
          && boxes == old(boxes)[b := old(boxes[b]).(u := old(boxes[b].u) - 1)]
                                [old(nextBox) := UPoint(old(boxes[b].p).(y := v), 1, false)]
      ensures deletes == old(deletes)
    {
      MakeUnique(h);
      r := Write(h, boxes[handles[h]].p.(y := v));
    }

    /** `up_->p_.x(x)` or `up_->p_.y(y)` on a box that only `h` uses. */
    method Write(h: HandleId, p: Point) returns (r: HandleId)
      requires Valid() && h in handles && boxes[handles[h]].u == 1
      modifies this
      ensures Valid() && r == h
      ensures handles == old(handles) && nextBox == old(nextBox) && deletes == old(deletes)
      ensures boxes == old(boxes)[old(handles[h]) := old(boxes[handles[h]]).(p := p)]
      ensures forall g :: g in handles && g != h ==> handles[g] != handles[h]
      ensures forall g :: g in handles && g != h ==> Value(g) == old(Value(g))
    {
      WriteUnshared(boxes, handles, nextBox, nextHandle, h, p);
      var b := handles[h];
      boxes := boxes[b := boxes[b].(p := p)];
      r := h;
    }

    /**
     Destroying every handle of one box, in the order `hs` gives: the box stays alive until
     the last of them and is deleted exactly once, by the last destructor.
     */
    method DestroyAll(hs: seq<HandleId>, b: BoxId)
      requires Valid() && b in boxes && !boxes[b].freed
      requires forall i :: 0 <= i < |hs| ==> hs[i] in handles && handles[hs[i]] == b
      requires forall i, j :: 0 <= i < j < |hs| ==> hs[i] != hs[j]
      requires |hs| == boxes[b].u
      modifies this
      ensures Valid()
      ensures b in boxes && boxes[b].freed
      ensures deletes == old(deletes) + 1
      ensures forall g :: g in old(handles) && old(handles[g]) != b ==> g in handles && handles[g] == old(handles[g])
    {
      var i := 0;
      while i < |hs|
        invariant 0 <= i <= |hs|
        invariant Valid() && b in boxes
        invariant forall k :: i <= k < |hs| ==> hs[k] in handles && handles[hs[k]] == b
        invariant boxes[b].u == |hs| - i
        invariant boxes[b].freed <==> i == |hs|
        invariant deletes == old(deletes) + if i == |hs| then 1 else 0
        invariant forall g :: g in old(handles) && old(handles[g]) != b ==> g in handles && handles[g] == old(handles[g])
      {
        Destroy(hs[i]);
        i := i + 1;
      }
    }
  }

  /**
   The handle scenario of the demonstration program: `h2 = h1; h2.x(1).y(2)` leaves
   `h1` reading (10, 20) and `h2` reading (1, 2).
   */
  method ChainedWrites() returns (x1: int, y1: int, x2: int, y2: int)
    ensures x1 == 10 && y1 == 20 && x2 == 1 && y2 == 2
  {
    var heap := new Heap();
    var h1 := heap.Create(Point(10, 20));
    var h2 := heap.Copy(h1);
    var s := heap.SetX(h2, 1);
    s := heap.SetY(s, 2);
    x1 := heap.X(h1);
    y1 := heap.Y(h1);
    x2 := heap.X(h2);
    y2 := heap.Y(h2);
  }
}
