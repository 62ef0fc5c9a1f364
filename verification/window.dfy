/** The window of the record-list cursor as a run of the ordered table, and one step inside it. */
module Window {
  import opened Common
  import opened Statement
  import opened Cursor
  import opened CursorPages

  /** The record numbers of the order, in the two directions. */
  datatype Orders = Orders(fwd: seq<int>, bwd: seq<int>) {
    function Of(dir: Direction): seq<int> {
      if dir.Forward? then fwd else bwd
    }

    ghost predicate Mirrored() {
      && |fwd| == |bwd| && Distinct(fwd) && Distinct(bwd)
      && (forall i :: 0 <= i < |fwd| ==> bwd[i] == fwd[|fwd| - 1 - i])
    }
  }

  function Other(dir: Direction): Direction {
    if dir.Forward? then Backward else Forward
  }

  /** The cursor is on the record at index `p` of the order in direction `dir`. */
  predicate At(o: Orders, c: Cursor, dir: Direction, p: int) {
    c.Shaped() && 0 <= p < |o.Of(dir)| && c.size > 0 && c.Here() == o.Of(dir)[p]
  }

  /** The window is the slice [b, b + size) of the order in direction `dir`. */
  ghost predicate RunIn(o: Orders, c: Cursor, dir: Direction, b: nat) {
    && c.Shaped() && 0 < c.size && b + c.size <= |o.Of(dir)|
    && forall i :: 0 <= i < c.size ==> c.list[i] == o.Of(dir)[b + i]
  }

  /** The window is a contiguous run of the order, ascending or descending. */
  ghost predicate HasRun(o: Orders, c: Cursor) {
    exists dir, b :: RunIn(o, c, dir, b)
  }

  /** A single record outside the order, left by GoTo: filtered out, or not in the table. */
  predicate Stray(o: Orders, c: Cursor) {
    c.Shaped() && c.size == 1 && c.Here() != 0 && c.Here() !in o.fwd
  }

  /** A remembered end is forgotten (0) or right. */
  predicate MarksSound(o: Orders, c: Cursor) {
    && (c.bofAt == 0 || (o.fwd != [] && c.bofAt == o.fwd[0]))
    && (c.eofAt == 0 || (o.bwd != [] && c.eofAt == o.bwd[0]))
  }

  lemma AtMirror(o: Orders, c: Cursor, dir: Direction, p: nat)
    requires o.Mirrored() && At(o, c, dir, p)
    ensures At(o, c, Other(dir), |o.fwd| - 1 - p)
  {
    assert o.bwd[|o.fwd| - 1 - p] == o.fwd[p];
  }

  /** The cursor is on one record only. */
  lemma AtOnce(o: Orders, c: Cursor, dir: Direction, p: int, q: int)
    requires o.Mirrored() && At(o, c, dir, p)
    ensures At(o, c, dir, q) <==> q == p
  {
  }

  /** Where window position `pos` is in the order, seen from direction `to`. */
  function Seen(o: Orders, dir: Direction, b: nat, pos: nat, to: Direction): int {
    if dir == to then b + pos else |o.fwd| - 1 - (b + pos)
  }

  lemma PlaceInRun(o: Orders, c: Cursor, dir: Direction, b: nat, pos: nat, to: Direction)
    requires o.Mirrored() && RunIn(o, c, dir, b) && pos < c.size
    ensures At(o, c.(pos := pos), to, Seen(o, dir, b, pos, to))
  {
    assert At(o, c.(pos := pos), dir, b + pos);
    AtMirror(o, c.(pos := pos), dir, b + pos);
  }

  /** A window of two or more records has one sense and one place. */
  lemma RunIsUnique(o: Orders, c: Cursor, d1: Direction, b1: nat, d2: Direction, b2: nat)
    requires o.Mirrored() && RunIn(o, c, d1, b1) && RunIn(o, c, d2, b2)
    ensures d1 == d2 ==> b1 == b2
    ensures d1 != d2 ==> c.size == 1
  {
    SamePlace(o, c, d1, b1, d2, b2, 0);
    if c.size > 1 {
      SamePlace(o, c, d1, b1, d2, b2, 1);
    }
  }

  lemma SamePlace(o: Orders, c: Cursor, d1: Direction, b1: nat, d2: Direction, b2: nat, pos: nat)
    requires o.Mirrored() && RunIn(o, c, d1, b1) && RunIn(o, c, d2, b2) && pos < c.size
    ensures b1 + pos == Seen(o, d2, b2, pos, d1)
  {
    PlaceInRun(o, c, d1, b1, pos, d1);
    PlaceInRun(o, c, d2, b2, pos, d1);
    AtOnce(o, c.(pos := pos), d1, b1 + pos, Seen(o, d2, b2, pos, d1));
  }

  predicate Inside(c: Cursor, step: int) {
    0 <= (if c.dir.Forward? then c.pos + step else c.pos - step) < c.size
  }

  /** A move inside the window lands on the true neighbour exactly when the sense of the window
      agrees with the direction; otherwise it lands on the neighbour on the other side. */
  lemma CacheMoveExact(o: Orders, t: Table, c: Cursor, step: int, p: nat, dir: Direction, b: nat)
    requires o.Mirrored() && (step == 1 || step == -1)
    requires RunIn(o, c, dir, b) && At(o, c, Dir(step), p) && Inside(c, step)
    ensures TryCache(t, c, step).Some?
    ensures var c' := TryCache(t, c, step).value;
            && c' == c.(pos := c'.pos)
            && (At(o, c', Dir(step), p + 1) <==> dir == c.dir)
            && (At(o, c', Dir(step), p - 1) <==> dir != c.dir)
  {
    var pos := if c.dir.Forward? then c.pos + step else c.pos - step;
    assert TryCache(t, c, step) == Some(c.(pos := pos));
    PlaceInRun(o, c, dir, b, c.pos, Dir(step));
    PlaceInRun(o, c, dir, b, pos, Dir(step));
    assert c.(pos := c.pos) == c;
    AtOnce(o, c, Dir(step), p, Seen(o, dir, b, c.pos, Dir(step)));
    var there := Seen(o, dir, b, pos, Dir(step));
    AtOnce(o, c.(pos := pos), Dir(step), there, p + 1);
    AtOnce(o, c.(pos := pos), Dir(step), there, p - 1);
  }

  /** A remembered end is raised only at that end, whatever the window. */
  lemma CacheEndExact(o: Orders, t: Table, c: Cursor, step: int)
    requires o.Mirrored() && MarksSound(o, c) && (step == 1 || step == -1) && 0 !in o.fwd
    requires (exists p :: At(o, c, Dir(step), p)) || Stray(o, c)
    requires !Inside(c, step) && TryCache(t, c, step).Some?
    ensures At(o, c, Dir(step), |o.fwd| - 1)
    ensures TryCache(t, c, step).value == if step > 0 then CleanBuffer(t, c) else c.(fBof := true)
  {
    assert c.Here() == if step > 0 then c.eofAt else c.bofAt;
    if !Stray(o, c) {
      var p :| At(o, c, Dir(step), p);
      AtMirror(o, c, Dir(step), p);
    }
  }
}
