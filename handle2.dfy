/**
 A copy-on-write handle to a point whose use count lives in a separate cell
 (`Handle { Point* p_; UseCount u_; }` with `UseCount { int* p_; }`).

 The free store is modelled by maps: `points` maps the address of every `Point` the
 handles allocated to its value and whether it has been deleted, `counters` does the
 same for the `int` cells the `UseCount`s share. For every live handle, `ptr` holds its
 `p_` and `use` holds the `p_` of its `UseCount` member.

 `CountInv` is the invariant of the `UseCount` layer alone: every counter is the number
 of `UseCount`s sharing it and is deleted exactly when that number is zero. `Inv` adds
 the `Handle` layer: points and counters are allocated and deleted in pairs, a handle's
 counter is the one allocated together with its point, so two handles share a counter
 exactly when they share a point, and a point is deleted exactly when no handle uses
 it.
 */
module HandleTwo {
  import opened RefCount
  import opened Points

  /** An `int` use-count cell: its value and whether `delete` has run on it. */
  datatype Counter = Counter(n: int, freed: bool)

  /** A `Point` on the free store and whether `delete` has run on it. */
  datatype PointCell = PointCell(pt: Point, freed: bool)

  type CounterId = nat
  type PointId = nat
  type HandleId = nat
  type Counters = map<CounterId, Counter>
  type PointStore = map<PointId, PointCell>

  /** The invariant of the `UseCount` layer. */
  ghost predicate CountInv(counters: Counters, use: map<HandleId, CounterId>, nextCounter: nat)
  {
    && (forall h :: h in use ==> use[h] in counters && !counters[use[h]].freed)
    && (forall c :: c in counters ==> c < nextCounter)
    && (forall c {:trigger Count(use, c)} :: c in counters ==> counters[c].n == Count(use, c))
    && (forall c :: c in counters ==> (counters[c].freed <==> counters[c].n == 0))
  }

  /** The invariant of the whole free store, `UseCount` and `Handle` layers together. */
  ghost predicate Inv(points: PointStore, counters: Counters, ptr: map<HandleId, PointId>,
                      use: map<HandleId, CounterId>, nextPoint: nat, nextCounter: nat, nextHandle: nat)
  {
    && CountInv(counters, use, nextCounter)
    && ptr == use
    && (forall h :: h in ptr ==> h < nextHandle)
    && nextPoint == nextCounter
    && points.Keys == counters.Keys
    && (forall b :: b in points ==> points[b].freed == counters[b].freed)
  }

  /** `++*p_` */
  function Retain(counters: Counters, c: CounterId): Counters
    requires c in counters
  {
    counters[c := counters[c].(n := counters[c].n + 1)]
  }

  /** `if (--*p_ == 0) delete p_;` */
  function Release(counters: Counters, c: CounterId): Counters
    requires c in counters
  {
    counters[c := if counters[c].n == 1 then Counter(0, true) else counters[c].(n := counters[c].n - 1)]
  }

  /** A new `UseCount` with a fresh counter of 1 keeps the counting invariant. */
  lemma {:induction false} NewCountPreserves(counters: Counters, use: map<HandleId, CounterId>, nextCounter: nat,
                                             h: HandleId)
    requires CountInv(counters, use, nextCounter) && h !in use
    ensures nextCounter !in counters
    ensures CountInv(counters[nextCounter := Counter(1, false)], use[h := nextCounter], nextCounter + 1)
  {
    var counters', use' := counters[nextCounter := Counter(1, false)], use[h := nextCounter];
    forall c: CounterId | c in counters'
      ensures counters'[c].n == Count(use', c)
    {
      CountInsert(use, h, nextCounter, c);
      CountZero(use, nextCounter);
    }
  }

  /** A copied `UseCount` sharing the counter of `h`, raised by one, keeps the invariant. */
  lemma {:induction false} CopyCountPreserves(counters: Counters, use: map<HandleId, CounterId>, nextCounter: nat,
                                              h: HandleId, g: HandleId)
    requires CountInv(counters, use, nextCounter) && h in use && g !in use
    ensures CountInv(Retain(counters, use[h]), use[g := use[h]], nextCounter)
  {
    var counters', use' := Retain(counters, use[h]), use[g := use[h]];
    forall c: CounterId | c in counters'
      ensures counters'[c].n == Count(use', c)
    {
      CountInsert(use, g, use[h], c);
    }
    assert counters[use[h]].n == Count(use, use[h]);
    CountPositive(use, h);
  }

  /** Dropping a `UseCount` and releasing its counter keeps the invariant. */
  lemma {:induction false} DropCountPreserves(counters: Counters, use: map<HandleId, CounterId>, nextCounter: nat,
                                              h: HandleId)
    requires CountInv(counters, use, nextCounter) && h in use
    ensures CountInv(Release(counters, use[h]), use - {h}, nextCounter)
  {
    var counters', use' := Release(counters, use[h]), use - {h};
    forall c: CounterId | c in counters'
      ensures counters'[c].n == Count(use', c)
    {
      CountRemove(use, h, c);
    }
    CountZero(use', use[h]);
  }

  /**
   Raising the counter of `g`, releasing the counter of `h` and moving `h` onto the
   counter of `g` keeps the invariant, also when the two counters are the same.
   */
  lemma {:induction false} ReattachPreserves(counters: Counters, use: map<HandleId, CounterId>, nextCounter: nat,
                                             h: HandleId, g: HandleId)
    requires CountInv(counters, use, nextCounter) && h in use && g in use
    ensures CountInv(Release(Retain(counters, use[g]), use[h]), use[h := use[g]], nextCounter)
  {
    var own, other := use[h], use[g];
    var counters', use' := Release(Retain(counters, other), own), use[h := other];
    forall c: CounterId | c in counters'
      ensures counters'[c].n == Count(use', c)
    {
      CountUpdate(use, h, other, c);
    }
    assert counters[own].n == Count(use, own) && counters[other].n == Count(use, other);
    CountPositive(use, h);
    CountPositive(use, g);
    CountZero(use', own);
  }

  /**
   Giving up one share of a counter above 1 and moving `h` onto a fresh counter of 1
   keeps the invariant; the old counter is not deleted.
   */
  lemma {:induction false} MakeOnlyPreserves(counters: Counters, use: map<HandleId, CounterId>, nextCounter: nat,
                                             h: HandleId)
    requires CountInv(counters, use, nextCounter) && h in use && counters[use[h]].n != 1
    ensures counters[use[h]].n > 1 && nextCounter !in counters
    ensures var c := use[h];
      CountInv(counters[c := counters[c].(n := counters[c].n - 1)][nextCounter := Counter(1, false)],
               use[h := nextCounter], nextCounter + 1)
  {
    var old_c := use[h];
    CountPositive(use, h);
    CountZero(use, nextCounter);
    var counters' := counters[old_c := counters[old_c].(n := counters[old_c].n - 1)][nextCounter := Counter(1, false)];
    var use' := use[h := nextCounter];
    forall c: CounterId | c in counters'
      ensures counters'[c].n == Count(use', c)
    {
      CountUpdate(use, h, nextCounter, c);
    }
  }

  /** Under the invariant, `only()` holds exactly when no other handle shares the point. */
  lemma {:induction false} OnlyMeansSoleOwner(points: PointStore, counters: Counters, ptr: map<HandleId, PointId>,
                                              use: map<HandleId, CounterId>, nextPoint: nat, nextCounter: nat,
                                              nextHandle: nat, h: HandleId)
    requires Inv(points, counters, ptr, use, nextPoint, nextCounter, nextHandle) && h in ptr
    ensures counters[use[h]].n == 1 <==> forall g :: g in ptr && g != h ==> ptr[g] != ptr[h]
  {
    if counters[use[h]].n == 1 {
      CountOne(use, h);
    } else {
      CountPositive(use, h);
      CountRemove(use, h, use[h]);
      CountZero(use - {h}, use[h]);
      var g :| g in use - {h} && (use - {h})[g] == use[h];
      assert g in ptr && g != h && ptr[g] == ptr[h];
    }
  }

  /** Under the invariant, two handles share a counter exactly when they share a point. */
  lemma SharedCounterMeansSharedPoint(points: PointStore, counters: Counters, ptr: map<HandleId, PointId>,
                                      use: map<HandleId, CounterId>, nextPoint: nat, nextCounter: nat,
                                      nextHandle: nat, g: HandleId, h: HandleId)
    requires Inv(points, counters, ptr, use, nextPoint, nextCounter, nextHandle) && g in ptr && h in ptr
    ensures use[g] == use[h] <==> ptr[g] == ptr[h]
  {
  }

  /**
   `operator=` as a whole keeps the invariant: the counters move as `reattach` moves
   them, the old point is deleted exactly when its counter was, and `self` takes the
   pointer of `other`.
   */
  lemma {:induction false} AssignPreserves(points: PointStore, counters: Counters, ptr: map<HandleId, PointId>,
                                           use: map<HandleId, CounterId>, nextPoint: nat, nextCounter: nat,
                                           nextHandle: nat, self: HandleId, other: HandleId)
    requires Inv(points, counters, ptr, use, nextPoint, nextCounter, nextHandle) && self in ptr && other in ptr
    ensures var b := ptr[self];
      var last := use[self] != use[other] && counters[use[self]].n == 1;
      Inv(if last then points[b := points[b].(freed := true)] else points,
          Release(Retain(counters, use[other]), use[self]), ptr[self := ptr[other]], use[self := use[other]],
          nextPoint, nextCounter, nextHandle)
  {
    ReattachPreserves(counters, use, nextCounter, self, other);
    if use[self] == use[other] {
      CountPositive(use, self);
    }
  }

  class Heap {
    /** Every `Point` the handles allocated, by address. */
    var points: PointStore
    /** Every use-count cell the `UseCount`s allocated, by address. */
    var counters: Counters
    /** The `p_` of every live handle. */
    var ptr: map<HandleId, PointId>
    /** The `u_.p_` of every live handle. */
    var use: map<HandleId, CounterId>
    /** The next fresh addresses. */
    var nextPoint: PointId
    var nextCounter: CounterId
    var nextHandle: HandleId

    /** The `UseCount` layer is consistent. */
    ghost predicate CountsValid()
      reads this
    {
      CountInv(counters, use, nextCounter)
    }

    /** The whole free store is consistent. */
    ghost predicate Valid()
      reads this
    {
      Inv(points, counters, ptr, use, nextPoint, nextCounter, nextHandle)
    }

    /** The point that handle `h` reads. */
    ghost function Value(h: HandleId): Point
      reads this
      requires h in ptr && ptr[h] in points
    {
      points[ptr[h]].pt
    }

    /** An empty free store. */
    constructor ()
      ensures Valid()
      ensures points == map[] && counters == map[] && ptr == map[] && use == map[]
    {
      points, counters, ptr, use := map[], map[], map[], map[];
      nextPoint, nextCounter, nextHandle := 0, 0, 0;
    }

    /** `UseCount()`: the `UseCount` of the new handle `h` gets a counter of its own, equal to 1. */
    method NewCount(h: HandleId)
      requires CountsValid() && h !in use
      modifies this
      ensures CountsValid()
      ensures counters == old(counters)[old(nextCounter) := Counter(1, false)]
      ensures old(nextCounter) !in old(counters)
      ensures use == old(use)[h := old(nextCounter)]
      ensures nextCounter == old(nextCounter) + 1
      ensures points == old(points) && ptr == old(ptr) && nextPoint == old(nextPoint) && nextHandle == old(nextHandle)
    {
      NewCountPreserves(counters, use, nextCounter, h);
      counters := counters[nextCounter := Counter(1, false)];
      use := use[h := nextCounter];
      nextCounter := nextCounter + 1;
    }

    /** `UseCount(const UseCount&)`: the `UseCount` of `g` shares the counter of `h`, raised by one. */
    method CopyCount(h: HandleId, g: HandleId)
      requires CountsValid() && h in use && g !in use
      modifies this
      ensures CountsValid()
      ensures counters == Retain(old(counters), old(use[h]))
      ensures use == old(use)[g := old(use[h])]
      ensures points == old(points) && ptr == old(ptr)
      ensures nextPoint == old(nextPoint) && nextCounter == old(nextCounter) && nextHandle == old(nextHandle)
    {
      CopyCountPreserves(counters, use, nextCounter, h, g);
      var c := use[h];
      counters := counters[c := counters[c].(n := counters[c].n + 1)];
      use := use[g := c];
    }

    /** `~UseCount()`: the counter goes down by one and is deleted exactly when it reaches zero. */
    method DropCount(h: HandleId)
      requires CountsValid() && h in use
      modifies this
      ensures CountsValid()
      ensures counters == Release(old(counters), old(use[h]))
      ensures counters[old(use[h])].freed <==> old(counters[use[h]].n) == 1
      ensures use == old(use) - {h}
      ensures points == old(points) && ptr == old(ptr)
      ensures nextPoint == old(nextPoint) && nextCounter == old(nextCounter) && nextHandle == old(nextHandle)
    {
      DropCountPreserves(counters, use, nextCounter, h);
      counters := Release(counters, use[h]);
      use := use - {h};
    }

    /** `only()`: whether the counter of `h` is 1; changes nothing. */
    method Only(h: HandleId) returns (sole: bool)
      requires CountsValid() && h in use
      ensures sole <==> counters[use[h]].n == 1
    {
      sole := counters[use[h]].n == 1;
    }

    /**
     `reattach(u)`: raises the counter of `g` first, then lowers the counter of `h`,
     deleting it when it reaches zero, and leaves `h` sharing the counter of `g`. The
     result says whether the counter of `h` was deleted, which cannot happen when the two
     share one counter.
     */
    method Reattach(h: HandleId, g: HandleId) returns (last: bool)
      requires CountsValid() && h in use && g in use
      modifies this
      ensures CountsValid()
      ensures last <==> old(use[h]) != old(use[g]) && old(counters[use[h]].n) == 1
      ensures old(use[h]) in counters && (last <==> counters[old(use[h])].freed)
      ensures counters == Release(Retain(old(counters), old(use[g])), old(use[h]))
      ensures old(use[h]) == old(use[g]) ==> counters == old(counters)
      ensures use == old(use)[h := old(use[g])]
      ensures points == old(points) && ptr == old(ptr)
      ensures nextPoint == old(nextPoint) && nextCounter == old(nextCounter) && nextHandle == old(nextHandle)
    {
      ReattachPreserves(counters, use, nextCounter, h, g);
      var own, other := use[h], use[g];
      if own == other {
        CountPositive(use, h);
      }
      var raised := Retain(counters, other);
      last := raised[own].n == 1;
      counters := Release(raised, own);
      use := use[h := other];
    }

    /**
     `makeonly()`: on a counter of 1 returns false and changes nothing; otherwise gives up
     one share of the counter (which stays alive, it was above 1), moves `h` onto a fresh
     counter of 1 and returns true.
     */
    method MakeOnly(h: HandleId) returns (made: bool)
      requires CountsValid() && h in use
      modifies this
      ensures CountsValid()
      ensures made <==> old(counters[use[h]].n) != 1
      ensures !made ==> counters == old(counters) && use == old(use) && nextCounter == old(nextCounter)
      ensures var c := old(use[h]);
        made ==>
          && old(counters[c].n) > 1 && old(nextCounter) !in old(counters)
          && counters == old(counters)[c := old(counters[c]).(n := old(counters[c].n) - 1)]
                                      [old(nextCounter) := Counter(1, false)]
          && use == old(use)[h := old(nextCounter)]
          && nextCounter == old(nextCounter) + 1
      ensures points == old(points) && ptr == old(ptr) && nextPoint == old(nextPoint) && nextHandle == old(nextHandle)
    {
      var c := use[h];
      if counters[c].n == 1 {
        made := false;
      } else {
        MakeOnlyPreserves(counters, use, nextCounter, h);
        counters := counters[c := counters[c].(n := counters[c].n - 1)][nextCounter := Counter(1, false)];
        use := use[h := nextCounter];
        nextCounter := nextCounter + 1;
        made := true;
      }
    }

    /**
     `Handle(int, int)` and `Handle(const Point&)`: a new point, then a new `UseCount`
     with a counter of 1.
     */
    method Create(pt: Point) returns (h: HandleId)
      requires Valid()
      modifies this
      ensures Valid()
      ensures h !in old(ptr) && old(nextPoint) !in old(points)
      ensures ptr == old(ptr)[h := old(nextPoint)]
      ensures points == old(points)[old(nextPoint) := PointCell(pt, false)]
      ensures counters == old(counters)[old(nextCounter) := Counter(1, false)]
      ensures Value(h) == pt
    {
      h := nextHandle;
      var b := nextPoint;
      points := points[b := PointCell(pt, false)];
      ptr := ptr[h := b];
      nextPoint := nextPoint + 1;
      NewCount(h);
      nextHandle := nextHandle + 1;
    }

    /** `Handle()`: a new handle on a new point holding the origin. */
    method CreateDefault() returns (h: HandleId)
      requires Valid()
      modifies this
      ensures Valid()
      ensures h !in old(ptr) && old(nextPoint) !in old(points)
      ensures ptr == old(ptr)[h := old(nextPoint)]
      ensures points == old(points)[old(nextPoint) := PointCell(Origin, false)]
      ensures counters == old(counters)[old(nextCounter) := Counter(1, false)]
      ensures Value(h) == Point(0, 0)
    {
      h := Create(Origin);
    }

    /** `Handle(const Handle&)`: copies the `UseCount` (raising the shared counter) and the pointer. */
    method Copy(h: HandleId) returns (g: HandleId)
      requires Valid() && h in ptr
      modifies this
      ensures Valid()
      ensures g !in old(ptr)
      ensures ptr == old(ptr)[g := old(ptr[h])]
      ensures points == old(points)
      ensures counters == Retain(old(counters), old(use[h]))
      ensures Value(g) == Value(h) == old(Value(h))
    {
      g := nextHandle;
      CopyCount(h, g);
      ptr := ptr[g := ptr[h]];
      nextHandle := nextHandle + 1;
    }

    /**
     `~Handle()`: deletes the point when this handle is its only user, then the `UseCount`
     member's destructor lowers the counter, deleting it at zero.
     */
    method Destroy(h: HandleId)
      requires Valid() && h in ptr
      modifies this
      ensures Valid()
      ensures ptr == old(ptr) - {h}
      ensures counters == Release(old(counters), old(use[h]))
      ensures var b := old(ptr[h]);
        points == old(points)[b := old(points[b]).(freed := old(counters[use[h]].n) == 1)]
      ensures points[old(ptr[h])].freed <==> forall g :: g in old(ptr) && g != h ==> old(ptr[g]) != old(ptr[h])
    {
      OnlyMeansSoleOwner(points, counters, ptr, use, nextPoint, nextCounter, nextHandle, h);
      var sole := Only(h);
      if sole {
        var b := ptr[h];
        points := points[b := points[b].(freed := true)];
      }
      ptr := ptr - {h};
      DropCount(h);
    }

    /**
     `operator=`: `reattach` moves the `UseCount` first; if it reports that the old
     counter was the last, the old point is deleted too; then the pointer is copied.
     Self-assignment and assignment between handles on one point delete nothing and
     change no counter.
     */
    method Assign(self: HandleId, other: HandleId) returns (r: HandleId)
      requires Valid() && self in ptr && other in ptr
      modifies this
      ensures Valid() && r == self
      ensures ptr == old(ptr)[self := old(ptr[other])]
      ensures Value(self) == old(Value(other))
      ensures counters == Release(Retain(old(counters), old(use[other])), old(use[self]))
      ensures var b := old(ptr[self]);
        points == if old(ptr[self]) != old(ptr[other]) && old(counters[use[self]].n) == 1
                  then old(points)[b := old(points[b]).(freed := true)] else old(points)
      ensures old(ptr[self]) == old(ptr[other]) ==> points == old(points) && counters == old(counters)
    {
      AssignPreserves(points, counters, ptr, use, nextPoint, nextCounter, nextHandle, self, other);
      var last := Reattach(self, other);
      if last {
        var b := ptr[self];
        points := points[b := points[b].(freed := true)];
      }
      ptr := ptr[self := ptr[other]];
      r := self;
    }

    /** `x() const`: reads the shared point; changes nothing. */
    method X(h: HandleId) returns (x: int)
      requires Valid() && h in ptr
      ensures x == Value(h).x
    {
      x := points[ptr[h]].pt.x;
    }

    /** `y() const`: reads the shared point; changes nothing. */
    method Y(h: HandleId) returns (y: int)
      requires Valid() && h in ptr
      ensures y == Value(h).y
    {
      y := points[ptr[h]].pt.y;
    }

    /**
     The copy-on-write guard of both setters: when `makeonly()` reports that the
     `UseCount` moved to a fresh counter, the handle moves to a fresh copy of its point.
     */
    method Unshare(h: HandleId)
      requires Valid() && h in ptr
      modifies this
      ensures Valid() && h in ptr
      ensures counters[use[h]].n == 1 && Value(h) == old(Value(h))
      ensures old(counters[use[h]].n) == 1 ==>
        ptr == old(ptr) && points == old(points) && counters == old(counters)
      ensures var b := old(ptr[h]);
        old(counters[use[h]].n) != 1 ==>
          && old(nextPoint) !in old(points)
          && ptr == old(ptr)[h := old(nextPoint)]
          && points == old(points)[old(nextPoint) := PointCell(old(points[b].pt), false)]
      ensures nextHandle == old(nextHandle)
    {
      var made := MakeOnly(h);
      if made {
        var b := nextPoint;
        points := points[b := PointCell(points[ptr[h]].pt, false)];
        ptr := ptr[h := b];
        nextPoint := nextPoint + 1;
      }
    }

    /** `p_->x(x)` or `p_->y(y)` on a point that only `h` uses. */
    method Write(h: HandleId, p: Point) returns (r: HandleId)
      requires Valid() && h in ptr && counters[use[h]].n == 1
      modifies this
      ensures Valid() && r == h
      ensures ptr == old(ptr) && counters == old(counters) && use == old(use)
      ensures points == old(points)[old(ptr[h]) := PointCell(p, false)]
      ensures forall g :: g in ptr && g != h ==> ptr[g] != ptr[h]
    {
      OnlyMeansSoleOwner(points, counters, ptr, use, nextPoint, nextCounter, nextHandle, h);
      var b := ptr[h];
      points := points[b := PointCell(p, false)];
      r := h;
    }

    /**
     `x(int)`: after the copy-on-write guard, writes the coordinate into the point this
     handle alone uses and returns the handle. No other handle sees the write.
     */
    method SetX(h: HandleId, v: int) returns (r: HandleId)
      requires Valid() && h in ptr
      modifies this
      ensures Valid() && r == h && h in ptr
      ensures Value(h) == old(Value(h)).(x := v)
      ensures forall g :: g in old(ptr) && g != h ==> g in ptr && Value(g) == old(Value(g))
      ensures var b := old(ptr[h]);
        old(counters[use[h]].n) == 1 ==>
          ptr == old(ptr) && points == old(points)[b := PointCell(old(points[b].pt).(x := v), false)]
      ensures var b := old(ptr[h]);
        old(counters[use[h]].n) != 1 ==>
          && ptr == old(ptr)[h := old(nextPoint)]
          && points == old(points)[old(nextPoint) := PointCell(old(points[b].pt).(x := v), false)]
    {
      Unshare(h);
      r := Write(h, points[ptr[h]].pt.(x := v));
    }

    /** `y(int)`: as `x(int)`, for the other coordinate. */
    method SetY(h: HandleId, v: int) returns (r: HandleId)
      requires Valid() && h in ptr
      modifies this
      ensures Valid() && r == h && h in ptr
      ensures Value(h) == old(Value(h)).(y := v)
      ensures forall g :: g in old(ptr) && g != h ==> g in ptr && Value(g) == old(Value(g))
      ensures var b := old(ptr[h]);
        old(counters[use[h]].n) == 1 ==>
          ptr == old(ptr) && points == old(points)[b := PointCell(old(points[b].pt).(y := v), false)]
      ensures var b := old(ptr[h]);
        old(counters[use[h]].n) != 1 ==>
          && ptr == old(ptr)[h := old(nextPoint)]
          && points == old(points)[old(nextPoint) := PointCell(old(points[b].pt).(y := v), false)]
    {
      Unshare(h);
      r := Write(h, points[ptr[h]].pt.(y := v));
    }
  }

  /**
   The handle scenario of the demonstration program: `h2 = h1; h2.x(1).y(2)` leaves
   `h1` reading (10, 20) and `h2` reading (1, 2).
   */
  method ChainedWrites() returns (x1: int, y1: int, x2: int, y2: int)
    ensures x1 == 10 && y1 == 20 && x2 == 1 && y2 == 2
  {
    var heap := new Heap();
    var h1 := heap.Create(Point(10, 20));
    var h2 := heap.Copy(h1);
    var s := heap.SetX(h2, 1);
    s := heap.SetY(s, 2);
    x1 := heap.X(h1);
    y1 := heap.Y(h1);
    x2 := heap.X(h2);
    y2 := heap.Y(h2);
  }
}
