/** Leaving hidden records: the mutual recursion of GoTop, GoBottom and SkipFilter over a raw
    cursor whose single step moves to the adjacent record or raises BOF or EOF. */
module FilterWalk {

  /** What a record is to the walk: whether it passes SET FILTER, and whether it is deleted. */
  datatype Rec = Rec(passes: bool, deleted: bool)

  /** Where the walk stands; at EOF it is past the last record. */
  datatype Place = Place(pos: nat, fBof: bool, fEof: bool)

  class FilteredArea {
    const records: seq<Rec>
    const hasFilter: bool        // dbfi.itmCobExpr != NULL
    const setDeleted: bool       // SET DELETED ON
    var pos: nat
    var fBof: bool
    var fEof: bool
    var fTop: bool
    var fBottom: bool

    predicate Valid()
      reads this
    {
      && pos <= |records| && (fEof <==> pos == |records|)
    }

    predicate Shown(i: nat)
      requires i < |records|
    {
      (hasFilter ==> records[i].passes) && (setDeleted ==> !records[i].deleted)
    }

    /** The first shown record at or after `i`, or |records|. */
    function NextShown(i: nat): (j: nat)
      requires i <= |records|
      ensures i <= j <= |records| && (j < |records| ==> Shown(j))
      ensures forall k :: i <= k < j ==> !Shown(k)
      decreases |records| - i
    {
      if i == |records| || Shown(i) then i else NextShown(i + 1)
    }

    /** The last shown record at or before `i`, or -1. */
    function PrevShown(i: int): (j: int)
      requires -1 <= i < |records|
      ensures -1 <= j <= i && (j >= 0 ==> Shown(j))
      ensures forall k :: j < k <= i ==> !Shown(k)
      decreases i + 1
    {
      if i == -1 || Shown(i) then i else PrevShown(i - 1)
    }

    predicate Active() {
      hasFilter || setDeleted
    }

    function Here(): Place
      reads this
    {
      Place(pos, fBof, fEof)
    }

    /** The first shown record, or the phantom record. */
    function TopPlace(): Place {
      var j := if Active() then NextShown(0) else 0;
      Place(j, records == [] && !Active(), j == |records|)
    }

    /** SKIPRAW by one record, as the walk needs it. */
    method SkipRaw(step: int)
      requires Valid() && !fBof && !fEof && (step == 1 || step == -1)
      modifies this`pos, this`fBof, this`fEof
      ensures Valid()
      ensures step > 0 ==> pos == old(pos) + 1 && !fBof
      ensures step < 0 ==> !fEof && (if old(pos) > 0 then pos == old(pos) - 1 && !fBof else pos == 0 && fBof)
    {
      if step > 0 {
        pos := pos + 1;
        fEof := pos == |records|;
      } else if pos > 0 {
        pos := pos - 1;
      } else {
        fBof := true;
      }
    }

    /** sqlSkipFilter: on the nearest shown record in the direction of the walk.  Going forward
        with none it is at EOF; going backward with none it is on the first shown record with BOF
        raised, or at EOF with BOF raised when nothing is shown. */
    method SkipFilter(upDown: int)
      requires Valid()
      modifies this
      ensures Valid()
      ensures !Active() ==> Here() == old(Here())
      ensures Active() && upDown > 0 ==>
                Here() == (if old(fBof) || old(fEof) then Place(old(pos), false, old(fEof))
                           else Place(NextShown(old(pos)), false, NextShown(old(pos)) == |records|))
      ensures Active() && upDown <= 0 ==>
                Here() == (if !old(fBof) && !old(fEof) && PrevShown(old(pos)) >= 0
                           then Place(PrevShown(old(pos)), false, false)
                           else Place(NextShown(0), true, NextShown(0) == |records|))
      ensures var toTop := Active() && upDown <= 0 && (old(fBof) || old(fEof) || PrevShown(old(pos)) < 0);
              fTop == (toTop || old(fTop)) && fBottom == (!toTop && old(fBottom))
      decreases if upDown > 0 then 0 else 2
    {
      if !setDeleted && !hasFilter {
        return;
      }
      var step := if upDown > 0 then 1 else -1;
      var outOfRange := false;
      ghost var raised := fBof || fEof;
      while true
        invariant Valid() && !outOfRange && fTop == old(fTop) && fBottom == old(fBottom)
        invariant raised ==> pos == old(pos) && fBof == old(fBof) && fEof == old(fEof)
        invariant !raised && step > 0 ==> !fBof && NextShown(old(pos)) == NextShown(pos)
        invariant !raised && step < 0 ==>
                    !fEof && PrevShown(old(pos)) == if fBof then -1 else PrevShown(pos)
        decreases if step > 0 then |records| - pos else pos, if fBof || fEof then 0 else 1
      {
        if fBof || fEof {
          outOfRange := true;
          break;
        }
        if hasFilter {
          if !records[pos].passes {
            SkipRaw(step);
            continue;
          }
        }
        if setDeleted {
          if records[pos].deleted {
            SkipRaw(step);
            continue;
          }
        }
        break;
      }
      if outOfRange {
        if step < 0 {
          GoTop();
          fBof := true;
        } else {
          fBof := false;
        }
      }
    }

    /** sqlGoTop. */
    method GoTop()
      requires pos <= |records|
      modifies this
      ensures Valid() && Here() == TopPlace() && fTop && !fBottom
      decreases 1
    {
      pos := 0;
      fEof, fBof := records == [], records == [];
      fTop, fBottom := true, false;
      SkipFilter(1);
    }

    /** sqlGoBottom: on the last shown record, or where a walk back from it ends. */
    method GoBottom()
      requires pos <= |records|
      modifies this
      ensures Valid()
      ensures Active() ==>
                Here() == (if records != [] && PrevShown(|records| - 1) >= 0
                           then Place(PrevShown(|records| - 1), false, false)
                           else Place(|records|, true, true))
      ensures !Active() ==> Here() == Place(if records == [] then 0 else |records| - 1, records == [], records == [])
      ensures fTop == !fBottom == (Active() && (records == [] || PrevShown(|records| - 1) < 0))
    {
      pos := if records == [] then 0 else |records| - 1;
      fEof, fBof := records == [], records == [];
      fTop, fBottom := false, true;
      SkipFilter(-1);
      if Active() && !(records != [] && PrevShown(|records| - 1) >= 0) {
        NothingShown();
      }
    }

    /** If no record is shown up to the last one, none is shown from the first. */
    lemma NothingShown()
      requires records == [] || PrevShown(|records| - 1) < 0
      ensures NextShown(0) == |records|
    {
    }
  }
}
