/** Small shared types. */
module Wrappers {
  datatype Option<T> = None | Some(value: T)

  lemma {:induction false} Least(s: set<int>) returns (m: int)
    requires s != {}
    ensures m in s && forall x :: x in s ==> m <= x
  {
    assert (forall x :: x !in s) ==> s == {};
    var y :| y in s;
    var rest := s - {y};
    if rest == {} {
      m := y;
      assert forall x :: x in s ==> x == y || x in rest;
    } else {
      var k := Least(rest);
      m := if k < y then k else y;
      assert forall x :: x in s ==> x == y || x in rest;
    }
  }
}
