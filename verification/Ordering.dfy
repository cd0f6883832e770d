/** The least element of a set, which an ordered container's iterators visit first. */
module Ordering {

  lemma PickOne<T>(s: set<T>) returns (x: T)
    requires s != {}
    ensures x in s
  {
    x :| x in s;
  }

  lemma {:induction false} LeastExists(s: set<int>)
    requires s != {}
    ensures exists m :: m in s && forall x :: x in s ==> m <= x
    decreases |s|
  {
    var m := PickOne(s);
    if s != {m} {
      LeastExists(s - {m});
      var r :| r in s - {m} && forall x :: x in s - {m} ==> r <= x;
      var least := if r < m then r else m;
      assert forall x :: x in s ==> x == m || x in s - {m};
      assert least in s && forall x :: x in s ==> least <= x;
    } else {
      assert forall x :: x in s ==> m <= x;
    }
  }

  ghost function Least(s: set<int>): (m: int)
    requires s != {}
    ensures m in s && forall x :: x in s ==> m <= x
  {
    LeastExists(s);
    var m :| m in s && forall x :: x in s ==> m <= x;
    m
  }
}
