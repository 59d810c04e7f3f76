/** Primary-key assignment for the `users` and `tasks` tables. */
module Ids {

  /** A non-empty set has a member to pick. */
  lemma Inhabited(s: set<int>)
    requires s != {}
    ensures exists y :: y in s
  {
    if forall y :: y !in s {
      assert false;
    }
  }

  /** Every non-empty finite set of ids has a largest element. */
  lemma {:induction false} MaxExists(s: set<int>)
    requires s != {}
    ensures exists m :: m in s && forall x :: x in s ==> x <= m
  {
    Inhabited(s);
    var y :| y in s;
    var rest := s - {y};
    if rest == {} {
      forall x | x in s ensures x <= y {
        assert x !in rest;
      }
    } else {
      MaxExists(rest);
      var m' :| m' in rest && forall x :: x in rest ==> x <= m';
      var m := if y <= m' then m' else y;
      forall x | x in s ensures x <= m {
        if x != y { assert x in rest; }
      }
      assert m in s;
    }
  }

  /** Every non-empty finite set of ids has a smallest element. */
  lemma {:induction false} MinExists(s: set<int>)
    requires s != {}
    ensures exists m :: m in s && forall x :: x in s ==> m <= x
  {
    Inhabited(s);
    var y :| y in s;
    var rest := s - {y};
    if rest == {} {
      forall x | x in s ensures y <= x {
        assert x !in rest;
      }
    } else {
      MinExists(rest);
      var m' :| m' in rest && forall x :: x in rest ==> m' <= x;
      var m := if m' <= y then m' else y;
      forall x | x in s ensures m <= x {
        if x != y { assert x in rest; }
      }
      assert m in s;
    }
  }

  function Max(s: set<int>): (m: int)
    requires s != {}
    ensures m in s
    ensures forall x :: x in s ==> x <= m
  {
    MaxExists(s);
    var m :| m in s && forall x :: x in s ==> x <= m; m
  }

  function Min(s: set<int>): (m: int)
    requires s != {}
    ensures m in s
    ensures forall x :: x in s ==> m <= x
  {
    MinExists(s);
    var m :| m in s && forall x :: x in s ==> m <= x; m
  }

  /** The id the database gives a new row: one more than the largest id in
      the table, or 1 for an empty table (SQLite's rowid rule for an INTEGER
      PRIMARY KEY declared without the AUTOINCREMENT keyword). The new id is
      fresh and above every id in use. */
  function NextId(used: set<int>): (r: int)
    ensures r !in used
    ensures forall x :: x in used ==> x < r
    ensures used == {} ==> r == 1
    ensures used != {} ==> r - 1 in used
  {
    if used == {} then 1 else Max(used) + 1
  }
}
