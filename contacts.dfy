/** The contact record kept in k-buckets, and the stable sort (Python's
    sorted()) that the routing table and the DHT apply to contact lists. */
module Contacts {
  import opened Ids

  /** A peer as the routing table sees it: its id and the time it was last
      seen. The clock is an explicit argument wherever kademlia_dht/contact.py reads it. */
  datatype Contact = Contact(id: ID, lastSeen: nat)

  /** touch(): the contact as last seen now. */
  function Touch(c: Contact, now: nat): (r: Contact)
    ensures r.id == c.id && r.lastSeen == now
  {
    c.(lastSeen := now)
  }

  function IdsOf(cs: seq<Contact>): (r: seq<ID>)
    ensures |r| == |cs|
    ensures forall i :: 0 <= i < |cs| ==> r[i] == cs[i].id
  {
    seq(|cs|, i requires 0 <= i < |cs| => cs[i].id)
  }

  /** Some contact of cs has the given id. */
  predicate HasId(cs: seq<Contact>, id: ID)
  {
    exists c :: c in cs && c.id == id
  }

  /** No two contacts of cs share an id. */
  predicate DistinctIds(cs: seq<Contact>)
  {
    forall i, j :: 0 <= i < j < |cs| ==> cs[i].id != cs[j].id
  }

  /** Index of the first contact with the given id (list.index on the ids). */
  function FirstIndexOfId(cs: seq<Contact>, id: ID): (i: nat)
    requires HasId(cs, id)
    ensures i < |cs| && cs[i].id == id
    ensures forall j :: 0 <= j < i ==> cs[j].id != id
  {
    if cs[0].id == id then 0
    else
      assert HasId(cs[1..], id) by {
        var c :| c in cs && c.id == id;
        assert c in cs[1..];
      }
      1 + FirstIndexOfId(cs[1..], id)
  }

  /** Concatenation is associative (stated once, so that proofs can cite it
      instead of rediscovering it). */
  lemma ConcatAssoc<T>(a: seq<T>, b: seq<T>, c: seq<T>)
    ensures a + (b + c) == (a + b) + c
  {
  }

  /** Replacing a middle part by parts with the same elements keeps the
      elements of the whole. */
  lemma MultisetSwapMiddle<T>(a: seq<T>, x: seq<T>, y: seq<T>, m: seq<T>, c: seq<T>)
    requires multiset(x) + multiset(y) == multiset(m)
    ensures multiset(a + x + y + c) == multiset(a + m + c)
  {
  }

  /** Sequences with the same elements have the same members. */
  lemma SameMembers<T>(s: seq<T>, t: seq<T>)
    requires multiset(s) == multiset(t)
    ensures forall d :: d in s <==> d in t
  {
    forall d
      ensures d in s <==> d in t
    {
      assert d in s <==> d in multiset(s);
    }
  }

  // ------------------------------------------------------------------
  // sorted(s, key=f): a stable sort
  // ------------------------------------------------------------------

  predicate SortedOn<T>(s: seq<T>, f: T -> int)
  {
    forall i, j :: 0 <= i < j < |s| ==> f(s[i]) <= f(s[j])
  }

  /** Inserts x before the first element whose key is not below x's. */
  function InsertOn<T>(x: T, t: seq<T>, f: T -> int): (r: seq<T>)
    ensures multiset(r) == multiset(t) + multiset{x}
    ensures |r| == |t| + 1
  {
    if t == [] then [x]
    else if f(x) <= f(t[0]) then [x] + t
    else
      assert t == [t[0]] + t[1..];
      [t[0]] + InsertOn(x, t[1..], f)
  }

  /** Insertion sort from the right: each element goes before every later
      element with the same key, so equal keys keep their order. */
  function SortOn<T>(s: seq<T>, f: T -> int): (r: seq<T>)
    ensures multiset(r) == multiset(s)
    ensures |r| == |s|
  {
    if s == [] then []
    else
      assert s == [s[0]] + s[1..];
      InsertOn(s[0], SortOn(s[1..], f), f)
  }

  lemma {:induction false} InsertOnSorted<T>(x: T, t: seq<T>, f: T -> int)
    requires SortedOn(t, f)
    ensures SortedOn(InsertOn(x, t, f), f)
    decreases |t|
  {
    if t != [] && f(x) > f(t[0]) {
      InsertOnSorted(x, t[1..], f);
      var r := InsertOn(x, t[1..], f);
      forall k | 0 <= k < |r|
        ensures f(t[0]) <= f(r[k])
      {
        assert r[k] in multiset(r);
        assert r[k] in multiset(t[1..]) + multiset{x};
        if r[k] != x {
          assert r[k] in t[1..];
        }
      }
    }
  }

  /** The sort orders its input by key and is a permutation of it. */
  lemma {:induction false} SortOnSorted<T>(s: seq<T>, f: T -> int)
    ensures SortedOn(SortOn(s, f), f)
    decreases |s|
  {
    if s != [] {
      SortOnSorted(s[1..], f);
      InsertOnSorted(s[0], SortOn(s[1..], f), f);
    }
  }

  /** Index of the first element with the least key. */
  function FirstMinIndex<T>(s: seq<T>, f: T -> int): (m: nat)
    requires |s| > 0
    ensures m < |s|
    ensures forall j :: 0 <= j < |s| ==> f(s[m]) <= f(s[j])
    ensures forall j :: 0 <= j < m ==> f(s[j]) > f(s[m])
  {
    if |s| == 1 then 0
    else
      var m := FirstMinIndex(s[1..], f);
      if f(s[0]) <= f(s[1..][m]) then 0 else 1 + m
  }

  /** Index of the last element with the greatest key. */
  function LastMaxIndex<T>(s: seq<T>, f: T -> int): (m: nat)
    requires |s| > 0
    ensures m < |s|
    ensures forall j :: 0 <= j < |s| ==> f(s[j]) <= f(s[m])
    ensures forall j :: m < j < |s| ==> f(s[j]) < f(s[m])
  {
    if |s| == 1 then 0
    else
      var m := LastMaxIndex(s[1..], f);
      if f(s[0]) > f(s[1..][m]) then 0 else 1 + m
  }

  /** sorted(s, key=f)[0] is the first element with the least key. */
  lemma {:induction false} SortOnHead<T>(s: seq<T>, f: T -> int)
    requires |s| > 0
    ensures SortOn(s, f)[0] == s[FirstMinIndex(s, f)]
    decreases |s|
  {
    if |s| > 1 {
      SortOnHead(s[1..], f);
    }
  }

  lemma {:induction false} InsertOnLast<T>(x: T, t: seq<T>, f: T -> int)
    requires |t| > 0 && SortedOn(t, f)
    ensures InsertOn(x, t, f)[|t|] == if f(x) > f(t[|t| - 1]) then x else t[|t| - 1]
    decreases |t|
  {
    if f(x) > f(t[0]) && |t| > 1 {
      InsertOnLast(x, t[1..], f);
    }
  }

  /** sorted(s, key=f)[-1] is the last element with the greatest key. */
  lemma {:induction false} SortOnLast<T>(s: seq<T>, f: T -> int)
    requires |s| > 0
    ensures SortOn(s, f)[|s| - 1] == s[LastMaxIndex(s, f)]
    decreases |s|
  {
    if |s| > 1 {
      SortOnLast(s[1..], f);
      SortOnSorted(s[1..], f);
      InsertOnLast(s[0], SortOn(s[1..], f), f);
    }
  }

  /** Taking the first n of the sorted list keeps only elements no further
      than anything left out. */
  lemma SortedPrefixIsClosest<T>(s: seq<T>, f: T -> int, n: nat)
    ensures var r := SortOn(s, f)[..if n < |s| then n else |s|];
      SortedOn(r, f) &&
      multiset(r) <= multiset(s) &&
      (forall x :: x in s && x !in r ==> forall y :: y in r ==> f(y) <= f(x))
  {
    SortOnSorted(s, f);
    SortedPrefixBelowRest(s, SortOn(s, f), f, if n < |s| then n else |s|);
  }

  /** For a sorted permutation t of s, the first m elements of t are no
      further than any element of s left out. */
  lemma SortedPrefixBelowRest<T>(s: seq<T>, t: seq<T>, f: T -> int, m: nat)
    requires SortedOn(t, f) && multiset(t) == multiset(s) && m <= |t|
    ensures SortedOn(t[..m], f)
    ensures multiset(t[..m]) <= multiset(s)
    ensures forall x :: x in s && x !in t[..m] ==> forall y :: y in t[..m] ==> f(y) <= f(x)
  {
    assert t == t[..m] + t[m..];
    assert multiset(t) == multiset(t[..m]) + multiset(t[m..]);
    forall x, y | x in s && x !in t[..m] && y in t[..m]
      ensures f(y) <= f(x)
    {
      assert x in multiset(t);
      var j :| 0 <= j < |t| && t[j] == x;
      var i :| 0 <= i < m && t[..m][i] == y;
    }
  }
}
