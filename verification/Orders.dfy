/** Least elements of finite sets under any linear order. */
module Orders {

  ghost predicate Linear<T(!new)>(s: set<T>, le: (T, T) -> bool) {
    && (forall a, b :: a in s && b in s ==> le(a, b) || le(b, a))
    && (forall a, b, c :: a in s && b in s && c in s && le(a, b) && le(b, c) ==> le(a, c))
  }

  ghost predicate IsMinimum<T(!new)>(m: T, s: set<T>, le: (T, T) -> bool) {
    m in s && forall t :: t in s ==> le(m, t)
  }

  lemma {:induction false} MinimumExists<T(!new)>(s: set<T>, le: (T, T) -> bool) returns (m: T)
    requires s != {} && Linear(s, le)
    ensures IsMinimum(m, s, le)
  {
    var x :| x in s;
    var rest := s - {x};
    assert forall t :: t in s ==> t == x || t in rest;
    if rest == {} {
      m := x;
    } else {
      m := MinimumExists(rest, le);
      if le(x, m) {
        m := x;
      }
    }
  }
}
