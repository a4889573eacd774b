/**
 * Python's `sorted(items, key=..., reverse=True)`: a stable sort on a descending
 * key, shared by the allocator's fitness ranking and the swarm's free-capacity
 * ranking.  Items are `(id, key)` pairs in their original iteration order.
 */
module StableSort {

  /** An id with the key it is ranked by. */
  type Scored = (string, real)


  /** Place `x` before the first element whose key is not larger. */
  function Insert(x: Scored, s: seq<Scored>): seq<Scored>
  {
    if s == [] then [x]
    else if s[0].1 > x.1 then [s[0]] + Insert(x, s[1..])
    else [x] + s
  }

  /** Python's stable `sorted(..., reverse=True)` on the key component. */
  function SortDesc(s: seq<Scored>): seq<Scored>
  {
    if s == [] then [] else Insert(s[0], SortDesc(s[1..]))
  }

  predicate Descending(s: seq<Scored>)
  {
    forall i, j :: 0 <= i < j < |s| ==> s[i].1 >= s[j].1
  }

  /** The elements of `s` whose key is `v`, in order. */
  function WithKey(s: seq<Scored>, v: real): seq<Scored>
  {
    if s == [] then []
    else if s[0].1 == v then [s[0]] + WithKey(s[1..], v)
    else WithKey(s[1..], v)
  }

  lemma {:induction false} InsertPermutes(x: Scored, s: seq<Scored>)
    ensures multiset(Insert(x, s)) == multiset(s) + multiset{x}
    decreases |s|
  {
    if s != [] && s[0].1 > x.1 {
      InsertPermutes(x, s[1..]);
      assert s == [s[0]] + s[1..];
    }
  }

  lemma {:induction false} InsertDescending(x: Scored, s: seq<Scored>)
    requires Descending(s)
    ensures Descending(Insert(x, s))
    decreases |s|
  {
    if s == [] {
    } else if s[0].1 > x.1 {
      InsertDescending(x, s[1..]);
      InsertPermutes(x, s[1..]);
      var t := Insert(x, s[1..]);
      forall j | 0 <= j < |t| ensures s[0].1 >= t[j].1 {
        assert t[j] in multiset(t);
        if t[j] != x {
          assert t[j] in multiset(s[1..]);
          var k :| 0 <= k < |s[1..]| && s[1..][k] == t[j];
        }
      }
      assert Insert(x, s) == [s[0]] + t;
    } else {
      assert Insert(x, s) == [x] + s;
    }
  }

  /** `WithKey` on a sequence with a known first element. */
  lemma WithKeyCons(y: Scored, t: seq<Scored>, v: real)
    ensures WithKey([y] + t, v) == if y.1 == v then [y] + WithKey(t, v) else WithKey(t, v)
  {
    assert ([y] + t)[0] == y && ([y] + t)[1..] == t;
  }

  /** One step of `InsertWithKey` past a first element with a larger key. */
  lemma InsertWithKeyStep(x: Scored, s: seq<Scored>, v: real)
    requires s != [] && s[0].1 > x.1
    requires WithKey(Insert(x, s[1..]), v) == if x.1 == v then [x] + WithKey(s[1..], v) else WithKey(s[1..], v)
    ensures WithKey(Insert(x, s), v) == if x.1 == v then [x] + WithKey(s, v) else WithKey(s, v)
  {
    var t := Insert(x, s[1..]);
    assert Insert(x, s) == [s[0]] + t;
    WithKeyCons(s[0], t, v);
    WithKeyCons(s[0], s[1..], v);
    assert [s[0]] + s[1..] == s;
  }

  lemma {:induction false} InsertWithKey(x: Scored, s: seq<Scored>, v: real)
    ensures WithKey(Insert(x, s), v) == if x.1 == v then [x] + WithKey(s, v) else WithKey(s, v)
    decreases |s|
  {
    if s == [] {
      WithKeyCons(x, [], v);
      assert [x] + [] == [x];
    } else if s[0].1 > x.1 {
      InsertWithKey(x, s[1..], v);
      InsertWithKeyStep(x, s, v);
    } else {
      assert Insert(x, s) == [x] + s;
      WithKeyCons(x, s, v);
    }
  }

  /** The sort is a permutation, descending, and stable: each key class keeps its input order. */
  lemma {:induction false} SortDescFacts(s: seq<Scored>)
    ensures multiset(SortDesc(s)) == multiset(s)
    ensures Descending(SortDesc(s))
    ensures forall v :: WithKey(SortDesc(s), v) == WithKey(s, v)
  {
    if s != [] {
      SortDescFacts(s[1..]);
      InsertPermutes(s[0], SortDesc(s[1..]));
      InsertDescending(s[0], SortDesc(s[1..]));
      assert s == [s[0]] + s[1..];
      forall v ensures WithKey(SortDesc(s), v) == WithKey(s, v) {
        InsertWithKey(s[0], SortDesc(s[1..]), v);
      }
    }
  }

  function Ids(s: seq<Scored>): (r: seq<string>)
    ensures |r| == |s| && forall i | 0 <= i < |s| :: r[i] == s[i].0
  {
    seq(|s|, i requires 0 <= i < |s| => s[i].0)
  }

  /** No id occurs twice. */
  predicate DistinctIds(s: seq<Scored>)
  {
    forall i, j | 0 <= i < j < |s| :: s[i].0 != s[j].0
  }

  lemma {:induction false} InsertDistinctIds(x: Scored, s: seq<Scored>)
    requires DistinctIds(s) && forall i | 0 <= i < |s| :: s[i].0 != x.0
    ensures DistinctIds(Insert(x, s))
    decreases |s|
  {
    InsertPermutes(x, s);
    if s != [] && s[0].1 > x.1 {
      assert forall i | 0 <= i < |s[1..]| :: s[1..][i] == s[i + 1];
      InsertDistinctIds(x, s[1..]);
      InsertPermutes(x, s[1..]);
      var t := Insert(x, s[1..]);
      forall j | 0 <= j < |t| ensures t[j].0 != s[0].0 {
        assert t[j] in multiset(t);
        if t[j] != x {
          assert t[j] in multiset(s[1..]);
        }
      }
      assert Insert(x, s) == [s[0]] + t;
    } else {
      assert Insert(x, s) == [x] + s;
    }
  }

  /** Sorting keeps the length and the elements. */
  lemma SortDescKeeps(s: seq<Scored>)
    ensures |SortDesc(s)| == |s|
    ensures forall x :: x in SortDesc(s) <==> x in s
  {
    SortDescFacts(s);
    assert |SortDesc(s)| == |multiset(SortDesc(s))| == |multiset(s)| == |s|;
    forall x ensures x in SortDesc(s) <==> x in s {
      assert x in SortDesc(s) <==> x in multiset(SortDesc(s));
    }
  }

  /** Sorting keeps the ids, once each, when they were distinct to begin with. */
  lemma {:induction false} SortDescIds(s: seq<Scored>)
    requires DistinctIds(s)
    ensures DistinctIds(SortDesc(s)) && |SortDesc(s)| == |s|
    ensures forall x :: x in SortDesc(s) <==> x in s
  {
    SortDescKeeps(s);
    if s != [] {
      assert forall i | 0 <= i < |s[1..]| :: s[1..][i] == s[i + 1];
      SortDescIds(s[1..]);
      forall i | 0 <= i < |SortDesc(s[1..])| ensures SortDesc(s[1..])[i].0 != s[0].0 {
        assert SortDesc(s[1..])[i] in s[1..];
      }
      InsertDistinctIds(s[0], SortDesc(s[1..]));
    }
  }
}
