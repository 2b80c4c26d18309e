/** Where a node sits in a tree: the steps that lead to it from the root. */
module Paths {

  datatype Path<T> = Root | Down(up: Path<T>, step: T)

  /** p lies on the way from the root to q. */
  predicate Above<T(==)>(p: Path<T>, q: Path<T>)
  {
    p == q || (q.Down? && Above(p, q.up))
  }

  function OnTheWay<T(==)>(q: Path<T>): (s: set<Path<T>>)
    ensures q in s
  {
    if q.Root? then {q} else OnTheWay(q.up) + {q}
  }

  lemma {:induction false} OnTheWayIsAbove<T>(p: Path<T>, q: Path<T>)
    ensures p in OnTheWay(q) <==> Above(p, q)
  {
    if q.Down? {
      OnTheWayIsAbove(p, q.up);
    }
  }

  lemma {:induction false} RootAbove<T>(q: Path<T>)
    ensures Above(Root, q)
  {
    if q.Down? {
      RootAbove(q.up);
    }
  }

  lemma {:induction false} AboveTransitive<T>(p: Path<T>, q: Path<T>, r: Path<T>)
    requires Above(p, q) && Above(q, r)
    ensures Above(p, r)
  {
    if q != r {
      AboveTransitive(p, q, r.up);
    }
  }

  function Depth<T>(p: Path<T>): nat
  {
    if p.Root? then 0 else 1 + Depth(p.up)
  }

  lemma {:induction false} AboveIsShorter<T>(p: Path<T>, q: Path<T>)
    requires Above(p, q)
    ensures Depth(p) <= Depth(q)
  {
    if p != q {
      AboveIsShorter(p, q.up);
    }
  }

  /** The step from p towards q. */
  function StepToward<T(==)>(p: Path<T>, q: Path<T>): T
    requires Above(p, q) && p != q
  {
    if q.up == p then q.step else StepToward(p, q.up)
  }

  /** A path strictly below p lies below exactly one of the paths one step down. */
  lemma {:induction false} BelowOneStep<T>(p: Path<T>, q: Path<T>, step: T)
    requires Above(p, q) && p != q
    ensures Above(Down(p, step), q) <==> step == StepToward(p, q)
  {
    if q.up == p {
      if Above(Down(p, step), q) && Down(p, step) != q {
        AboveIsShorter(Down(p, step), q.up);
      }
    } else {
      BelowOneStep(p, q.up, step);
    }
  }

  /** The paths at or below a child are those below p whose first step leads to the child. */
  lemma BelowChild<T>(p: Path<T>, q: Path<T>, step: T)
    ensures Above(Down(p, step), q) <==> Above(p, q) && q != p && StepToward(p, q) == step
  {
    if Above(Down(p, step), q) {
      AboveTransitive(p, Down(p, step), q);
      AboveIsShorter(Down(p, step), q);
    }
    if Above(p, q) && q != p {
      BelowOneStep(p, q, step);
    }
  }

  /** Every path but the root has the path one step up. */
  ghost predicate UpClosed<T(!new)>(paths: set<Path<T>>)
  {
    forall p {:trigger p.up} :: p in paths && p.Down? ==> p.up in paths
  }

  lemma {:induction false} UpClosedAbove<T(!new)>(paths: set<Path<T>>, p: Path<T>, q: Path<T>)
    requires UpClosed(paths) && q in paths && Above(p, q)
    ensures p in paths
  {
    if p != q {
      UpClosedAbove(paths, p, q.up);
    }
  }
}
