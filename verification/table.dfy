/** A database table as a sequence of rows in insertion order, and the query
    building blocks the repositories combine: lookup by id, removal, in-place
    replacement, filtering, counting, ordering and offset/limit paging. */
module Table {

  import opened Wrappers
  import Arith

  /** A persisted entity with the id the database gave it. */
  datatype Row<T> = Row(id: nat, val: T)

  function Ids<T>(t: seq<Row<T>>): set<nat> {
    set i | 0 <= i < |t| :: t[i].id
  }

  /** The primary-key constraint. */
  predicate UniqueIds<T>(t: seq<Row<T>>) {
    forall i, j :: 0 <= i < j < |t| ==> t[i].id != t[j].id
  }

  lemma IdsCons<T>(t: seq<Row<T>>)
    requires |t| > 0
    ensures Ids(t) == {t[0].id} + Ids(t[1..])
  {
    forall k | k in Ids(t) ensures k in {t[0].id} + Ids(t[1..]) {
      var i :| 0 <= i < |t| && t[i].id == k;
      if i > 0 {
        assert t[1..][i - 1].id == k;
      }
    }
    forall k | k in Ids(t[1..]) ensures k in Ids(t) {
      var i :| 0 <= i < |t[1..]| && t[1..][i].id == k;
      assert t[i + 1].id == k;
    }
  }

  /** Doctrine `find($id)`: the entity with that id, or null. */
  function Find<T>(t: seq<Row<T>>, id: nat): (r: Option<T>)
    ensures r.Some? <==> id in Ids(t)
    ensures r.Some? ==> Row(id, r.value) in t
    ensures UniqueIds(t) ==> forall i :: 0 <= i < |t| && t[i].id == id ==> r == Some(t[i].val)
  {
    if |t| == 0 then None
    else
      IdsCons(t);
      if t[0].id == id then Some(t[0].val) else Find(t[1..], id)
  }

  /** The table without the row of that id (`remove` + `flush`). */
  function Delete<T(!new)>(t: seq<Row<T>>, id: nat): (r: seq<Row<T>>)
    ensures Ids(r) == Ids(t) - {id}
    ensures forall x :: x in r <==> x in t && x.id != id
    ensures UniqueIds(t) ==> UniqueIds(r)
    ensures id !in Ids(t) ==> r == t
  {
    if |t| == 0 then []
    else
      IdsCons(t);
      var rest := Delete(t[1..], id);
      if t[0].id == id then rest
      else
        var r := [t[0]] + rest;
        IdsCons(r);
        assert r[1..] == rest;
        r
  }

  /** The table with the row of that id holding a new value (`flush` after setters). */
  function Update<T>(t: seq<Row<T>>, id: nat, v: T): (r: seq<Row<T>>)
    ensures |r| == |t|
    ensures forall i :: 0 <= i < |t| ==> r[i].id == t[i].id
    ensures forall i :: 0 <= i < |t| && t[i].id != id ==> r[i] == t[i]
    ensures forall i :: 0 <= i < |t| && t[i].id == id ==> r[i].val == v
  {
    seq(|t|, i requires 0 <= i < |t| => if t[i].id == id then Row(id, v) else t[i])
  }

  /** Replacing a row changes what `find` returns for that id and for no other. */
  lemma UpdateFind<T>(t: seq<Row<T>>, id: nat, v: T, k: nat)
    ensures Ids(Update(t, id, v)) == Ids(t)
    ensures Find(Update(t, id, v), k) == if k == id && id in Ids(t) then Some(v) else Find(t, k)
    ensures UniqueIds(t) ==> UniqueIds(Update(t, id, v))
  {
    var r := Update(t, id, v);
    assert forall i :: 0 <= i < |r| ==> r[i].id == t[i].id;
    assert Ids(r) == Ids(t);
    if |t| > 0 {
      UpdateFind(t[1..], id, v, k);
      assert r[1..] == Update(t[1..], id, v);
      IdsCons(t);
      IdsCons(r);
    }
  }

  /** `after` differs from `before` at most in the row with id `id`: the same
      ids, and every other id finds the same value. */
  ghost predicate SameExcept<T>(after: seq<Row<T>>, before: seq<Row<T>>, id: nat) {
    Ids(after) == Ids(before) && forall k :: k != id ==> Find(after, k) == Find(before, k)
  }

  /** Replacing the row of `id` leaves every other row as it was. */
  lemma UpdateSameExcept<T>(t: seq<Row<T>>, id: nat, v: T)
    ensures SameExcept(Update(t, id, v), t, id)
  {
    forall k
      ensures Find(Update(t, id, v), k) == if k == id && id in Ids(t) then Some(v) else Find(t, k)
    {
      UpdateFind(t, id, v, k);
    }
  }

  /** Writing the same value twice is writing it once. */
  lemma UpdateTwice<T>(t: seq<Row<T>>, id: nat, v: T)
    ensures Update(Update(t, id, v), id, v) == Update(t, id, v)
  {
  }

  /** A property of every row's value that the new value also has survives the update. */
  lemma UpdateKeepsAll<T>(t: seq<Row<T>>, id: nat, v: T, p: T -> bool)
    requires forall x :: x in t ==> p(x.val)
    requires p(v)
    ensures forall x :: x in Update(t, id, v) ==> p(x.val)
  {
    var r := Update(t, id, v);
    forall x | x in r ensures p(x.val) {
      var i :| 0 <= i < |r| && r[i] == x;
      assert t[i] in t;
    }
  }

  lemma UpdateBelow<T>(t: seq<Row<T>>, id: nat, v: T, next: nat)
    requires IdsBelow(t, next)
    ensures IdsBelow(Update(t, id, v), next)
  {
  }

  /** A new row at the end, as a SELECT without ORDER BY returns it. */
  function Insert<T>(t: seq<Row<T>>, id: nat, v: T): (r: seq<Row<T>>)
    ensures Ids(r) == Ids(t) + {id}
    ensures id !in Ids(t) && UniqueIds(t) ==> UniqueIds(r)
    ensures Find(r, id) == (if id in Ids(t) then Find(t, id) else Some(v))
    ensures forall k :: k != id ==> Find(r, k) == Find(t, k)
  {
    var r := t + [Row(id, v)];
    assert r[|t|].id == id;
    assert forall i :: 0 <= i < |t| ==> r[i] == t[i];
    InsertFind(t, Row(id, v));
    r
  }

  lemma {:induction false} InsertFind<T>(t: seq<Row<T>>, x: Row<T>)
    ensures forall k :: Find(t + [x], k) == if k in Ids(t) then Find(t, k) else if k == x.id then Some(x.val) else None
  {
    if |t| > 0 {
      InsertFind(t[1..], x);
      assert (t + [x])[1..] == t[1..] + [x];
      IdsCons(t);
    }
  }

  /** Deleting a row just inserted under a fresh id gives the table back. */
  lemma {:induction false} DeleteInserted<T(!new)>(t: seq<Row<T>>, id: nat, v: T)
    requires id !in Ids(t)
    ensures Delete(Insert(t, id, v), id) == t
  {
    if |t| == 0 {
      var u := Insert(t, id, v);
      assert u == [Row(id, v)];
      assert u[1..] == [];
    } else {
      assert t[0] in t;
      IdsCons(t);
      DeleteInserted(t[1..], id, v);
      DeleteInsertedStep(t, id, v);
    }
  }

  lemma DeleteInsertedStep<T(!new)>(t: seq<Row<T>>, id: nat, v: T)
    requires |t| > 0 && t[0].id != id
    requires Delete(Insert(t[1..], id, v), id) == t[1..]
    ensures Delete(Insert(t, id, v), id) == t
  {
    var u := Insert(t, id, v);
    InsertTail(t, id, v);
    DeleteCons(u, id);
    assert t == [t[0]] + t[1..];
  }

  /** Inserting at the end leaves the head where it was. */
  lemma InsertTail<T>(t: seq<Row<T>>, id: nat, v: T)
    requires |t| > 0
    ensures Insert(t, id, v)[0] == t[0] && Insert(t, id, v)[1..] == Insert(t[1..], id, v)
  {
    assert (t + [Row(id, v)])[1..] == t[1..] + [Row(id, v)];
  }

  /** Deleting another id keeps the head. */
  lemma DeleteCons<T(!new)>(t: seq<Row<T>>, id: nat)
    requires |t| > 0 && t[0].id != id
    ensures Delete(t, id) == [t[0]] + Delete(t[1..], id)
  {
  }

  /** Every id is below the next one the table will hand out. */
  predicate IdsBelow<T>(t: seq<Row<T>>, next: nat) {
    forall i :: 0 <= i < |t| ==> t[i].id < next
  }

  /** The rows whose value satisfies p, in their order (a DELETE of the others). */
  function Keep<T(!new)>(t: seq<Row<T>>, p: T -> bool): (r: seq<Row<T>>)
    ensures forall x :: x in r <==> x in t && p(x.val)
    ensures Ids(r) <= Ids(t)
    ensures UniqueIds(t) ==> UniqueIds(r)
    ensures (forall i :: 0 <= i < |t| ==> p(t[i].val)) ==> r == t
  {
    if |t| == 0 then []
    else
      IdsCons(t);
      var rest := Keep(t[1..], p);
      if p(t[0].val) then
        var r := [t[0]] + rest;
        IdsCons(r);
        assert r[1..] == rest;
        assert t == [t[0]] + t[1..];
        KeepHead(t, rest);
        r
      else rest
  }

  lemma KeepHead<T>(t: seq<Row<T>>, rest: seq<Row<T>>)
    requires |t| > 0 && Ids(rest) <= Ids(t[1..])
    ensures UniqueIds(t) && UniqueIds(rest) ==> UniqueIds([t[0]] + rest)
  {
    if UniqueIds(t) && UniqueIds(rest) {
      UniqueCons(t);
      UniqueCons'(t[0], rest);
    }
  }

  /** The head of a keyed table is not among the ids of its tail, which is keyed too. */
  lemma UniqueCons<T>(t: seq<Row<T>>)
    requires |t| > 0 && UniqueIds(t)
    ensures UniqueIds(t[1..]) && t[0].id !in Ids(t[1..])
  {
    assert forall i :: 0 <= i < |t[1..]| ==> t[1..][i] == t[i + 1];
  }

  /** Two equal entries at different positions make the multiset count two. */
  lemma CountTwo<T>(s: seq<T>, i: nat, j: nat)
    requires i < j < |s| && s[i] == s[j]
    ensures multiset(s)[s[i]] >= 2
  {
    assert s == s[..j] + [s[j]] + s[j + 1..];
    assert s[..j][i] == s[i];
    assert multiset(s[..j])[s[i]] >= 1;
  }

  /** In a table with unique ids no row occurs twice. */
  lemma {:induction false} UniqueOnce<T>(t: seq<Row<T>>, x: Row<T>)
    requires UniqueIds(t)
    ensures multiset(t)[x] <= 1
  {
    if |t| > 0 {
      UniqueCons(t);
      UniqueOnce(t[1..], x);
      assert t == [t[0]] + t[1..];
      if x == t[0] {
        assert x !in t[1..];
      }
    }
  }

  /** A reordering of a table with unique ids has unique ids. */
  lemma ReorderUnique<T>(a: seq<Row<T>>, b: seq<Row<T>>)
    requires multiset(a) == multiset(b) && UniqueIds(b)
    ensures UniqueIds(a)
  {
    forall i, j | 0 <= i < j < |a|
      ensures a[i].id != a[j].id
    {
      if a[i] == a[j] {
        CountTwo(a, i, j);
        UniqueOnce(b, a[i]);
      } else {
        assert a[i] in multiset(b) && a[j] in multiset(b);
        var i' :| 0 <= i' < |b| && b[i'] == a[i];
        var j' :| 0 <= j' < |b| && b[j'] == a[j];
      }
    }
  }

  /** A row whose id the keyed table lacks extends it to a keyed table. */
  lemma UniqueCons'<T>(x: Row<T>, t: seq<Row<T>>)
    requires UniqueIds(t) && x.id !in Ids(t)
    ensures UniqueIds([x] + t)
  {
    var r := [x] + t;
    forall i, j | 0 <= i < j < |r|
      ensures r[i].id != r[j].id
    {
      if i == 0 {
        assert r[j] == t[j - 1];
      } else {
        assert r[i] == t[i - 1] && r[j] == t[j - 1];
      }
    }
  }

  lemma DeleteBelow<T(!new)>(t: seq<Row<T>>, id: nat, next: nat)
    requires IdsBelow(t, next)
    ensures IdsBelow(Delete(t, id), next)
  {
    var r := Delete(t, id);
    forall i | 0 <= i < |r| ensures r[i].id < next {
      assert r[i] in t;
    }
  }

  /** Keeping the rows a condition leaves alone keeps every id below the bound. */
  lemma KeepBelow<T(!new)>(t: seq<Row<T>>, p: T -> bool, next: nat)
    requires IdsBelow(t, next)
    ensures IdsBelow(Keep(t, p), next)
  {
    var r := Keep(t, p);
    forall i | 0 <= i < |r| ensures r[i].id < next {
      assert r[i] in t;
    }
  }

  /** A selection is no longer than its table. */
  lemma {:induction false} KeepShorter<T(!new)>(t: seq<Row<T>>, p: T -> bool)
    ensures |Keep(t, p)| <= |t|
  {
    if |t| > 0 {
      KeepShorter(t[1..], p);
    }
  }

  /** A weaker condition never keeps fewer rows. */
  lemma {:induction false} KeepMono<T(!new)>(t: seq<Row<T>>, p: T -> bool, q: T -> bool)
    requires forall v :: p(v) ==> q(v)
    ensures |Keep(t, p)| <= |Keep(t, q)|
  {
    if |t| > 0 {
      KeepMono(t[1..], p, q);
    }
  }

  /** Two conditions no value meets together keep at most the whole table between them. */
  lemma {:induction false} KeepDisjoint<T(!new)>(t: seq<Row<T>>, p: T -> bool, q: T -> bool)
    requires forall v :: !(p(v) && q(v))
    ensures |Keep(t, p)| + |Keep(t, q)| <= |t|
  {
    if |t| > 0 {
      KeepDisjoint(t[1..], p, q);
    }
  }

  /** Replacing one row's value changes how many rows a condition keeps by
      what the condition says of the old and the new value. */
  lemma {:induction false} KeepUpdate<T(!new)>(t: seq<Row<T>>, id: nat, v: T, p: T -> bool)
    requires UniqueIds(t) && id in Ids(t)
    ensures |Keep(Update(t, id, v), p)| + (if p(Find(t, id).value) then 1 else 0)
            == |Keep(t, p)| + (if p(v) then 1 else 0)
  {
    var u := Update(t, id, v);
    IdsCons(t);
    assert u[1..] == Update(t[1..], id, v);
    if t[0].id == id {
      assert id !in Ids(t[1..]);
      assert Update(t[1..], id, v) == t[1..];
      assert u[0] == Row(id, v);
    } else {
      assert u[0] == t[0];
      KeepUpdate(t[1..], id, v, p);
    }
  }

  // --- queries --------------------------------------------------------------

  /** A WHERE clause: the elements satisfying p, in their order. */
  function Filter<T(!new)>(s: seq<T>, p: T -> bool): (r: seq<T>)
    ensures forall x :: x in r <==> x in s && p(x)
    ensures |r| <= |s|
  {
    if |s| == 0 then []
    else if p(s[0]) then [s[0]] + Filter(s[1..], p)
    else Filter(s[1..], p)
  }

  /** `SELECT COUNT(*) ... WHERE p`, counted from the back. */
  function Count<T>(s: seq<T>, p: T -> bool): nat {
    if |s| == 0 then 0
    else Count(s[..|s| - 1], p) + (if p(s[|s| - 1]) then 1 else 0)
  }

  /** The count and the filtered rows always agree: what COUNT reports is
      exactly the number of rows the filtered query can return. */
  lemma {:induction false} CountIsFilterSize<T(!new)>(s: seq<T>, p: T -> bool)
    ensures Count(s, p) == |Filter(s, p)|
  {
    if |s| > 0 {
      CountIsFilterSize(s[1..], p);
      CountCons(s, p);
    }
  }

  lemma {:induction false} CountCons<T>(s: seq<T>, p: T -> bool)
    requires |s| > 0
    ensures Count(s, p) == (if p(s[0]) then 1 else 0) + Count(s[1..], p)
  {
    if |s| > 1 {
      var init := s[..|s| - 1];
      assert init[1..] == s[1..][..|s[1..]| - 1];
      CountCons(init, p);
      assert init[0] == s[0];
      assert s[1..][|s[1..]| - 1] == s[|s| - 1];
    } else {
      assert s[1..] == [];
      assert s[..0] == [];
    }
  }

  /** Two disjoint conditions count to the count of their disjunction. */
  lemma {:induction false} CountSplit<T>(s: seq<T>, p: T -> bool, q: T -> bool, pq: T -> bool)
    requires forall x :: !(p(x) && q(x))
    requires forall x :: pq(x) <==> p(x) || q(x)
    ensures Count(s, pq) == Count(s, p) + Count(s, q)
  {
    if |s| > 0 {
      CountSplit(s[..|s| - 1], p, q, pq);
    }
  }

  /** A weaker condition never counts fewer rows. */
  lemma {:induction false} CountMono<T>(s: seq<T>, p: T -> bool, q: T -> bool)
    requires forall x :: p(x) ==> q(x)
    ensures Count(s, p) <= Count(s, q)
  {
    if |s| > 0 {
      CountMono(s[..|s| - 1], p, q);
    }
  }

  // --- ORDER BY key DESC ----------------------------------------------------

  predicate SortedDesc<T>(s: seq<T>, key: T -> int) {
    forall i, j :: 0 <= i < j < |s| ==> key(s[i]) >= key(s[j])
  }

  function InsertDesc<T(==)>(x: T, s: seq<T>, key: T -> int): (r: seq<T>)
    requires SortedDesc(s, key)
    ensures SortedDesc(r, key)
    ensures multiset(r) == multiset(s) + multiset{x}
    ensures |r| == |s| + 1
  {
    if |s| == 0 then [x]
    else if key(x) >= key(s[0]) then [x] + s
    else
      var rest := InsertDesc(x, s[1..], key);
      assert s == [s[0]] + s[1..];
      HeadDominates(x, s, rest, key);
      [s[0]] + rest
  }

  /** Every element of the insertion into the tail ranks below the head. */
  lemma HeadDominates<T>(x: T, s: seq<T>, rest: seq<T>, key: T -> int)
    requires |s| > 0 && SortedDesc(s, key) && key(x) < key(s[0])
    requires multiset(rest) == multiset(s[1..]) + multiset{x}
    requires SortedDesc(rest, key)
    ensures SortedDesc([s[0]] + rest, key)
  {
    forall j | 0 <= j < |rest|
      ensures key(s[0]) >= key(rest[j])
    {
      assert rest[j] in multiset(rest);
      if rest[j] != x {
        assert rest[j] in multiset(s[1..]);
        var m :| 0 <= m < |s[1..]| && s[1..][m] == rest[j];
        assert s[m + 1] == rest[j];
      }
    }
    var r := [s[0]] + rest;
    forall i, j | 0 <= i < j < |r|
      ensures key(r[i]) >= key(r[j])
    {
      if i > 0 {
        assert r[i] == rest[i - 1] && r[j] == rest[j - 1];
      } else {
        assert r[j] == rest[j - 1];
      }
    }
  }

  /** ORDER BY key DESC: the same rows, largest key first. Ties are resolved one
      fixed way, by insertion, and every query shares it (see SortedUnique). */
  function SortDesc<T(==)>(s: seq<T>, key: T -> int): (r: seq<T>)
    ensures SortedDesc(r, key)
    ensures multiset(r) == multiset(s)
    ensures |r| == |s|
  {
    if |s| == 0 then []
    else
      assert s == [s[0]] + s[1..];
      InsertDesc(s[0], SortDesc(s[1..], key), key)
  }

  /** Dropping the first element keeps a sequence sorted. */
  lemma TailSorted<T>(s: seq<T>, key: T -> int)
    requires |s| > 0 && SortedDesc(s, key)
    ensures SortedDesc(s[1..], key)
  {
    forall i, j | 0 <= i < j < |s[1..]|
      ensures key(s[1..][i]) >= key(s[1..][j])
    {
      assert s[1..][i] == s[i + 1] && s[1..][j] == s[j + 1];
    }
  }

  /** The head of a sorted sequence ranks at least as high as any element. */
  lemma HeadRanksFirst<T>(s: seq<T>, key: T -> int, x: T)
    requires SortedDesc(s, key) && x in s
    ensures key(s[0]) >= key(x)
  {
    var k :| 0 <= k < |s| && s[k] == x;
  }

  /** Two sorted arrangements of the same rows start with the same key. */
  lemma HeadsAgree<T>(a: seq<T>, b: seq<T>, key: T -> int)
    requires |a| > 0 && multiset(a) == multiset(b)
    requires SortedDesc(a, key) && SortedDesc(b, key)
    ensures |b| > 0 && b[0] in a && key(a[0]) == key(b[0])
  {
    assert a[0] in multiset(b);
    HeadRanksFirst(b, key, a[0]);
    assert b[0] in multiset(a);
    HeadRanksFirst(a, key, b[0]);
  }

  /** Removing the same first element from two arrangements of the same
      rows leaves arrangements of the same rows. */
  lemma TailsAgree<T>(a: seq<T>, b: seq<T>)
    requires |a| > 0 && |b| > 0 && a[0] == b[0] && multiset(a) == multiset(b)
    ensures multiset(a[1..]) == multiset(b[1..])
  {
    assert a == [a[0]] + a[1..];
    assert b == [b[0]] + b[1..];
    assert multiset(a[1..]) == multiset(a) - multiset{a[0]};
    assert multiset(b[1..]) == multiset(b) - multiset{b[0]};
  }

  /** When no two rows with the same key differ, ORDER BY key DESC leaves
      no choice: two sorted arrangements of the same rows are equal. */
  lemma {:induction false} SortedUnique<T>(a: seq<T>, b: seq<T>, key: T -> int)
    requires multiset(a) == multiset(b)
    requires SortedDesc(a, key) && SortedDesc(b, key)
    requires forall x, y :: x in a && y in a && key(x) == key(y) ==> x == y
    ensures a == b
    decreases |a|
  {
    if |a| == 0 {
      assert |multiset(b)| == 0;
    } else {
      HeadsAgree(a, b, key);
      assert a[0] == b[0];
      TailsAgree(a, b);
      TailSorted(a, key);
      TailSorted(b, key);
      forall x, y | x in a[1..] && y in a[1..] && key(x) == key(y)
        ensures x == y
      {
        assert x in a && y in a;
      }
      SortedUnique(a[1..], b[1..], key);
      assert a == [a[0]] + a[1..] && b == [b[0]] + b[1..];
    }
  }

  // --- setFirstResult / setMaxResults --------------------------------------

  /** Doctrine `setFirstResult(($page - 1) * $limit)->setMaxResults($limit)`. */
  function Page<T>(s: seq<T>, page: nat, limit: nat): (r: seq<T>)
    requires page >= 1 && limit >= 1
    ensures |r| <= limit
    ensures forall k :: 0 <= k < |r| ==> Offset(page, limit) + k < |s| && r[k] == s[Offset(page, limit) + k]
    ensures Offset(page, limit) >= |s| ==> r == []
    ensures Offset(page, limit) < |s| ==> |r| == Min(limit, |s| - Offset(page, limit))
  {
    var lo := Min(Offset(page, limit), |s|);
    var hi := Min(lo + limit, |s|);
    s[lo..hi]
  }

  /** A page of a sorted sequence is sorted. */
  lemma PageSorted<T>(s: seq<T>, key: T -> int, page: nat, limit: nat)
    requires page >= 1 && limit >= 1 && SortedDesc(s, key)
    ensures SortedDesc(Page(s, page, limit), key)
  {
    var r := Page(s, page, limit);
    var o := Offset(page, limit);
    forall i, j | 0 <= i < j < |r|
      ensures key(r[i]) >= key(r[j])
    {
      assert r[i] == s[o + i] && r[j] == s[o + j];
    }
  }

  /** The number of rows a page skips. */
  function Offset(page: nat, limit: nat): nat
    requires page >= 1
  {
    (page - 1) * limit
  }

  function Min(a: int, b: int): int {
    if a < b then a else b
  }

  /** Paging loses nothing: every row appears on page i / limit + 1, and that
      page is among the first ceil(|s| / limit) pages the list action reports. */
  lemma PagesCover<T>(s: seq<T>, limit: nat, i: nat)
    requires limit >= 1 && i < |s|
    ensures 1 <= i / limit + 1 <= Arith.CeilDiv(|s|, limit)
    ensures s[i] in Page(s, i / limit + 1, limit)
  {
    var p := i / limit + 1;
    Arith.DivBounds(i, limit);
    assert Offset(p, limit) == (i / limit) * limit;
    var k := i - Offset(p, limit);
    var r := Page(s, p, limit);
    assert 0 <= k < |r|;
    assert r[k] == s[i];
    var c := Arith.CeilDiv(|s|, limit);
    assert (p - 1) * limit < c * limit;
    Arith.MulCancel(p - 1, c, limit);
  }

  /** Every position on page p comes before every position on a later page q. */
  lemma PageIndexApart(p: nat, q: nat, limit: nat, i: nat, j: nat)
    requires 1 <= p < q && limit >= 1 && i < limit
    ensures Offset(p, limit) + i < Offset(q, limit) + j
  {
    Arith.MulMono(q - 1, p, limit);
    assert (p - 1) * limit + limit == p * limit;
  }

  /** The pages of a sorted sequence follow one another in key order. */
  lemma PagesSortedApart<T>(s: seq<T>, key: T -> int, p: nat, q: nat, limit: nat)
    requires 1 <= p < q && limit >= 1 && SortedDesc(s, key)
    ensures forall x, y :: x in Page(s, p, limit) && y in Page(s, q, limit) ==> key(x) >= key(y)
  {
    var rp := Page(s, p, limit);
    var rq := Page(s, q, limit);
    forall x, y | x in rp && y in rq
      ensures key(x) >= key(y)
    {
      var i :| 0 <= i < |rp| && rp[i] == x;
      var j :| 0 <= j < |rq| && rq[j] == y;
      PageIndexApart(p, q, limit, i, j);
      assert rp[i] == s[Offset(p, limit) + i] && rq[j] == s[Offset(q, limit) + j];
    }
  }

  /** Two different pages of a table with unique ids share no row. */
  lemma PagesDisjoint<T>(s: seq<Row<T>>, p: nat, q: nat, limit: nat)
    requires 1 <= p < q && limit >= 1 && UniqueIds(s)
    ensures forall x :: x in Page(s, p, limit) ==> x !in Page(s, q, limit)
  {
    var rp := Page(s, p, limit);
    var rq := Page(s, q, limit);
    forall i, j | 0 <= i < |rp| && 0 <= j < |rq|
      ensures rp[i] != rq[j]
    {
      PageIndexApart(p, q, limit, i, j);
      assert rp[i] == s[Offset(p, limit) + i] && rq[j] == s[Offset(q, limit) + j];
    }
  }

  /** Pages after the last one reported are empty. */
  lemma PagesBeyondEmpty<T>(s: seq<T>, limit: nat, page: nat)
    requires limit >= 1 && page > Arith.CeilDiv(|s|, limit)
    ensures Page(s, page, limit) == []
  {
    Arith.MulMono(page - 1, Arith.CeilDiv(|s|, limit), limit);
  }
}
