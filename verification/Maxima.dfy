/** The largest of a finite set of identifiers. */
module Maxima {

  ghost predicate IsMaxOrZero(m: nat, ids: set<nat>) {
    && (ids == {} ==> m == 0)
    && (ids != {} ==> m in ids)
    && forall i :: i in ids ==> i <= m
  }

  /** coalesce(max(id), 0) */
  function MaxOrZero(ids: set<nat>): (m: nat)
    ensures IsMaxOrZero(m, ids)
  {
    if ids == {} then 0 else MaxIsTaken(ids); var m :| m in ids && forall i :: i in ids ==> i <= m; m
  }

  lemma {:induction false} MaxIsTaken(ids: set<nat>)
    requires ids != {}
    ensures exists m :: m in ids && forall i :: i in ids ==> i <= m
  {
    var x :| x in ids;
    if ids != {x} {
      MaxIsTaken(ids - {x});
      var m :| m in ids - {x} && forall i :: i in ids - {x} ==> i <= m;
      var top := if m < x then x else m;
      forall i | i in ids ensures i <= top { assert i == x || i in ids - {x}; }
      assert top in ids;
    }
  }
}
