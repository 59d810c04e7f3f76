/** The task list (GET /tasks): the logged-in user's tasks, ordered by
    creation time. The database does not fix the order of tasks created at
    the same instant, so neither does the contract. */
module Listing {
  import opened Results
  import opened Models
  import opened Auth
  import Ids

  /** Creation times never decrease along the list. */
  predicate SortedByDate(xs: seq<(int, Task)>) {
    forall i, j :: 0 <= i < j < |xs| ==> xs[i].1.dateCreated <= xs[j].1.dateCreated
  }

  /** No task id appears twice. */
  predicate DistinctIds(xs: seq<(int, Task)>)
    decreases |xs|
  {
    xs == [] || ((forall p :: p in xs[1..] ==> p.0 != xs[0].0) && DistinctIds(xs[1..]))
  }

  /** `xs` is what the task page shows user `uid`: each of that user's
      tasks exactly once, with its stored fields, oldest first. */
  predicate IsListing(tasks: map<int, Task>, uid: int, xs: seq<(int, Task)>) {
    && SortedByDate(xs)
    && DistinctIds(xs)
    && (forall p :: p in xs ==> p.0 in tasks && tasks[p.0] == p.1 && p.1.userId == uid)
    && (forall id :: id in tasks && tasks[id].userId == uid ==> (id, tasks[id]) in xs)
  }

  /** A non-empty list is its head followed by its tail. */
  lemma SplitHead(xs: seq<(int, Task)>)
    requires xs != []
    ensures xs == [xs[0]] + xs[1..]
    ensures forall p :: p in xs <==> p == xs[0] || p in xs[1..]
  {
  }

  /** The head of a date-ordered list is created no later than any entry. */
  lemma SortedHeadLeast(xs: seq<(int, Task)>)
    requires SortedByDate(xs)
    ensures xs != [] ==> forall p :: p in xs ==> xs[0].1.dateCreated <= p.1.dateCreated
  {
    forall p | p in xs ensures xs[0].1.dateCreated <= p.1.dateCreated {
      var j :| 0 <= j < |xs| && xs[j] == p;
    }
  }

  /** An entry no later than every entry of a date-ordered list may go in
      front of it. */
  lemma ConsSorted(h: (int, Task), t: seq<(int, Task)>)
    requires SortedByDate(t)
    requires forall p :: p in t ==> h.1.dateCreated <= p.1.dateCreated
    ensures SortedByDate([h] + t)
  {
    var r := [h] + t;
    forall i, j | 0 <= i < j < |r| ensures r[i].1.dateCreated <= r[j].1.dateCreated {
      assert r[j] == t[j - 1];
      if i == 0 {
        assert t[j - 1] in t;
      } else {
        assert r[i] == t[i - 1];
      }
    }
  }

  /** Insert one entry into a date-ordered list, after every entry with the
      same or an earlier date. */
  function InsertByDate(xs: seq<(int, Task)>, e: (int, Task)): (r: seq<(int, Task)>)
    requires SortedByDate(xs)
    ensures SortedByDate(r)
    ensures |r| == |xs| + 1
    ensures forall p :: p in r <==> p in xs || p == e
    ensures DistinctIds(xs) && (forall p :: p in xs ==> p.0 != e.0) ==> DistinctIds(r)
  {
    if xs == [] || e.1.dateCreated < xs[0].1.dateCreated then
      SortedHeadLeast(xs);
      ConsSorted(e, xs);
      assert ([e] + xs)[1..] == xs;
      [e] + xs
    else
      SplitHead(xs);
      SortedHeadLeast(xs);
      var tail := InsertByDate(xs[1..], e);
      ConsSorted(xs[0], tail);
      assert ([xs[0]] + tail)[1..] == tail;
      [xs[0]] + tail
  }

  /** List the logged-in user's tasks, oldest first; the store is only read. */
  method ListTasks(app: App) returns (r: Result<seq<(int, Task)>, Error>)
    ensures r.Err? <==> CurrentUser(app).Err?
    ensures r.Err? ==> r.error == Unauthorized
    ensures r.Ok? ==> IsListing(app.tasks, app.session.userId, r.value)
  {
    var who := CurrentUser(app);
    if who.Err? {
      return Err(who.error);
    }
    var uid := who.value;
    var rest := app.tasks.Keys;
    var acc: seq<(int, Task)> := [];
    while rest != {}
      invariant rest <= app.tasks.Keys
      invariant SortedByDate(acc)
      invariant DistinctIds(acc)
      invariant forall p :: p in acc ==> p.0 in app.tasks && p.0 !in rest && app.tasks[p.0] == p.1 && p.1.userId == uid
      invariant forall id :: id in app.tasks && app.tasks[id].userId == uid && id !in rest ==> (id, app.tasks[id]) in acc
      decreases rest
    {
      Ids.Inhabited(rest);
      var id :| id in rest;
      if app.tasks[id].userId == uid {
        acc := InsertByDate(acc, (id, app.tasks[id]));
      }
      rest := rest - {id};
    }
    return Ok(acc);
  }

  /** A list without repeated ids has as many entries as distinct entries. */
  lemma {:induction false} DistinctCount(xs: seq<(int, Task)>)
    requires DistinctIds(xs)
    ensures |set p | p in xs| == |xs|
  {
    if xs != [] {
      var rest := xs[1..];
      DistinctCount(rest);
      assert (set p | p in xs) == {xs[0]} + (set p | p in rest);
      assert xs[0] !in rest;
    }
  }

  /** The task list is determined up to the order of tasks created at the
      same instant: any two listings hold the same entries and have the same
      length. */
  lemma ListingsAgree(tasks: map<int, Task>, uid: int, xs: seq<(int, Task)>, ys: seq<(int, Task)>)
    requires IsListing(tasks, uid, xs)
    requires IsListing(tasks, uid, ys)
    ensures forall p :: p in xs <==> p in ys
    ensures |xs| == |ys|
  {
    forall p | p in xs ensures p in ys {
      var id := p.0;
      assert id in tasks;
      assert tasks[id].userId == uid;
      assert (id, tasks[id]) in ys;
      assert p == (id, tasks[id]);
    }
    forall p | p in ys ensures p in xs {
      var id := p.0;
      assert id in tasks;
      assert tasks[id].userId == uid;
      assert (id, tasks[id]) in xs;
      assert p == (id, tasks[id]);
    }
    assert (set p | p in xs) == (set p | p in ys);
    DistinctCount(xs);
    DistinctCount(ys);
  }

  /** Two date-ordered lists without repeated ids that hold the same
      entries, no two of them created at the same time, are the same list. */
  lemma {:induction false} SortedSameEntriesEqual(xs: seq<(int, Task)>, ys: seq<(int, Task)>)
    requires SortedByDate(xs) && DistinctIds(xs)
    requires SortedByDate(ys) && DistinctIds(ys)
    requires forall p :: p in xs <==> p in ys
    requires forall p, q :: p in xs && q in xs && p != q ==> p.1.dateCreated != q.1.dateCreated
    ensures xs == ys
  {
    if xs != [] {
      assert xs[0] in ys;
      SplitHead(xs);
      SplitHead(ys);
      SortedHeadLeast(xs);
      SortedHeadLeast(ys);
      assert ys[0] in xs;
      assert xs[0] == ys[0];
      var xt, yt := xs[1..], ys[1..];
      assert xs[0] !in xt && ys[0] !in yt;
      SortedSameEntriesEqual(xt, yt);
    }
  }

  /** When no two of the user's tasks were created at the same instant, the
      task list is completely determined. */
  lemma ListingUnique(tasks: map<int, Task>, uid: int, xs: seq<(int, Task)>, ys: seq<(int, Task)>)
    requires IsListing(tasks, uid, xs)
    requires IsListing(tasks, uid, ys)
    requires forall i, j :: i in OwnedIds(tasks, uid) && j in OwnedIds(tasks, uid) && i != j ==>
      tasks[i].dateCreated != tasks[j].dateCreated
    ensures xs == ys
  {
    ListingsAgree(tasks, uid, xs, ys);
    forall p, q | p in xs && q in xs && p != q ensures p.1.dateCreated != q.1.dateCreated {
      assert p.0 in OwnedIds(tasks, uid) && q.0 in OwnedIds(tasks, uid);
      assert p == (p.0, tasks[p.0]) && q == (q.0, tasks[q.0]);
    }
    SortedSameEntriesEqual(xs, ys);
  }
}
