/** The routing table as values: what one k-bucket holds, what add_contact,
    split, depth and can_split compute on it, and what BucketList.add_contact
    and get_close_contacts compute on the whole list of buckets. The classes
    KBucket and BucketList (module Buckets) are proved against these
    functions. The code is that of kademlia_dht/buckets.py, its copy
    kademlia/buckets.py, and the KBucket/BucketList of kademlia.py. */
module BucketValues {
  import opened Wrappers
  import opened Ids
  import opened Contacts
  import opened RpcErrors

  /** Package: kademlia_dht/buckets.py and kademlia/buckets.py, whose code is
      the same. Monolith: kademlia.py. */
  datatype Copy = Package | Monolith

  /** Constants.K, the capacity of a k-bucket, in every copy. */
  const K: nat := 20

  /** Constants.B, the modulus of the depth test in can_split. */
  function SplitModulus(copy: Copy): nat
  {
    match copy
    case Package => 5
    case Monolith => 160
  }

  /** The contacts and the inclusive id range of a k-bucket. */
  datatype Bucket = Bucket(contacts: seq<Contact>, low: int, high: int)

  /** is_in_range: inclusive at both ends. */
  predicate InRange(b: Bucket, id: int)
  {
    b.low <= id <= b.high
  }

  /** is_full: K or more contacts. */
  predicate Full(b: Bucket)
  {
    |b.contacts| >= K
  }

  /** What a k-bucket keeps true whenever it sits in a bucket list. */
  predicate WellFormed(b: Bucket)
  {
    && b.low <= b.high
    && |b.contacts| <= K
    && DistinctIds(b.contacts)
    && (forall c :: c in b.contacts ==> InRange(b, c.id))
  }

  // ------------------------------------------------------------------
  // KBucket operations
  // ------------------------------------------------------------------

  /** KBucket.add_contact: TooManyContactsError when full, else
      OutOfRangeError outside the range, else append; the packages skip a
      contact that is already in the list, kademlia.py does not. */
  function AddToBucket(copy: Copy, b: Bucket, c: Contact): (r: Result<Bucket>)
    ensures Full(b) <==> r == Err(TooManyContactsError)
    ensures !Full(b) && !InRange(b, c.id) <==> r == Err(OutOfRangeError)
    ensures r.Ok? ==> r.value.low == b.low && r.value.high == b.high
    ensures r.Ok? ==> |r.value.contacts| <= K && c in r.value.contacts
    ensures r.Ok? ==> r.value.contacts == b.contacts ||
                      (r.value.contacts == b.contacts + [c] && (copy == Package ==> c !in b.contacts))
  {
    if Full(b) then Err(TooManyContactsError)
    else if !InRange(b, c.id) then Err(OutOfRangeError)
    else if copy == Package && c in b.contacts then Ok(b)
    else Ok(b.(contacts := b.contacts + [c]))
  }

  /** Adding a contact whose id the bucket does not hold keeps it well formed. */
  lemma AddToBucketWellFormed(copy: Copy, b: Bucket, c: Contact)
    requires WellFormed(b) && !HasId(b.contacts, c.id)
    requires AddToBucket(copy, b, c).Ok?
    ensures WellFormed(AddToBucket(copy, b, c).value)
    ensures AddToBucket(copy, b, c).value.contacts == b.contacts + [c]
  {
    DistinctSnoc(b.contacts, c);
  }

  /** KBucket.replace_contact: the contact, touched, takes the place of the
      first contact with the same id; ValueError when there is none. */
  function ReplaceInBucket(b: Bucket, c: Contact, now: nat): (r: Result<Bucket>)
    ensures r.Err? <==> !HasId(b.contacts, c.id)
    ensures r.Err? ==> r.error == ValueError
    ensures r.Ok? ==> r.value.low == b.low && r.value.high == b.high
    ensures r.Ok? ==> |r.value.contacts| == |b.contacts|
    ensures r.Ok? ==> var i := FirstIndexOfId(b.contacts, c.id);
      r.value.contacts[i] == Touch(c, now) &&
      (forall j :: 0 <= j < |b.contacts| && j != i ==> r.value.contacts[j] == b.contacts[j])
  {
    if !HasId(b.contacts, c.id) then Err(ValueError)
    else Ok(b.(contacts := b.contacts[FirstIndexOfId(b.contacts, c.id) := Touch(c, now)]))
  }

  lemma ReplaceInBucketWellFormed(b: Bucket, c: Contact, now: nat)
    requires WellFormed(b) && HasId(b.contacts, c.id)
    ensures WellFormed(ReplaceInBucket(b, c, now).value)
  {
    var r := ReplaceInBucket(b, c, now).value;
    var i := FirstIndexOfId(b.contacts, c.id);
    forall d | d in r.contacts
      ensures InRange(r, d.id)
    {
      var j :| 0 <= j < |r.contacts| && r.contacts[j] == d;
      assert j != i ==> d == b.contacts[j];
    }
  }

  /** The index of the first element equal to c. */
  function IndexOf(cs: seq<Contact>, c: Contact): (i: nat)
    requires c in cs
    ensures i < |cs| && cs[i] == c
    ensures forall j :: 0 <= j < i ==> cs[j] != c
  {
    if cs[0] == c then 0 else 1 + IndexOf(cs[1..], c)
  }

  /** list.remove(c): the first element equal to c taken out. */
  function RemoveFirst(cs: seq<Contact>, c: Contact): (r: seq<Contact>)
    requires c in cs
    ensures multiset(r) == multiset(cs) - multiset{c}
    ensures |r| == |cs| - 1
  {
    var k := IndexOf(cs, c);
    assert cs == cs[..k] + [c] + cs[k + 1..];
    cs[..k] + cs[k + 1..]
  }

  /** KBucket.evict_contact (the packages only):
      BucketDoesNotContainContactToEvictError when no contact has the id;
      list.remove's ValueError when one has the id but none equals the
      contact; otherwise the first equal contact is removed. */
  function EvictFromBucket(b: Bucket, c: Contact): (r: Result<Bucket>)
    ensures !HasId(b.contacts, c.id) <==> r == Err(BucketDoesNotContainContactToEvictError)
    ensures HasId(b.contacts, c.id) && c !in b.contacts <==> r == Err(ValueError)
    ensures r.Ok? <==> c in b.contacts
    ensures r.Ok? ==> (r.value.low == b.low && r.value.high == b.high &&
                       multiset(r.value.contacts) == multiset(b.contacts) - multiset{c})
  {
    assert c in b.contacts ==> HasId(b.contacts, c.id);
    if !HasId(b.contacts, c.id) then Err(BucketDoesNotContainContactToEvictError)
    else if c !in b.contacts then Err(ValueError)
    else Ok(b.(contacts := RemoveFirst(b.contacts, c)))
  }

  /** Eviction keeps a bucket well formed and drops its contact with that id. */
  lemma EvictWellFormed(b: Bucket, c: Contact)
    requires WellFormed(b) && c in b.contacts
    ensures WellFormed(EvictFromBucket(b, c).value)
    ensures !HasId(EvictFromBucket(b, c).value.contacts, c.id)
  {
    DistinctRemove(b.contacts, IndexOf(b.contacts, c));
  }

  /** Taking one element out of a list with distinct ids leaves distinct ids,
      none of them the removed element's. */
  lemma DistinctRemove(cs: seq<Contact>, k: nat)
    requires DistinctIds(cs) && k < |cs|
    ensures var r := cs[..k] + cs[k + 1..];
      DistinctIds(r) && forall d :: d in r ==> d in cs && d.id != cs[k].id
  {
    var r := cs[..k] + cs[k + 1..];
    assert forall x :: 0 <= x < |r| ==> r[x] == cs[if x < k then x else x + 1];
    forall d | d in r
      ensures d in cs && d.id != cs[k].id
    {
      var x :| 0 <= x < |r| && r[x] == d;
    }
  }

  /** The contacts whose id is below mid, in their original order. */
  function Below(cs: seq<Contact>, mid: int): (r: seq<Contact>)
    ensures forall c :: c in r <==> c in cs && c.id < mid
    ensures |r| <= |cs|
  {
    if cs == [] then []
    else if cs[0].id < mid then [cs[0]] + Below(cs[1..], mid)
    else Below(cs[1..], mid)
  }

  /** The contacts whose id is mid or more, in their original order. */
  function AtOrAbove(cs: seq<Contact>, mid: int): (r: seq<Contact>)
    ensures forall c :: c in r <==> c in cs && c.id >= mid
    ensures |r| <= |cs|
  {
    if cs == [] then []
    else if cs[0].id >= mid then [cs[0]] + AtOrAbove(cs[1..], mid)
    else AtOrAbove(cs[1..], mid)
  }

  /** The two halves together are the original list. */
  lemma {:induction false} HalvesPartition(cs: seq<Contact>, mid: int)
    ensures multiset(Below(cs, mid)) + multiset(AtOrAbove(cs, mid)) == multiset(cs)
    ensures |Below(cs, mid)| + |AtOrAbove(cs, mid)| == |cs|
    decreases |cs|
  {
    if cs != [] {
      HalvesPartition(cs[1..], mid);
      assert cs == [cs[0]] + cs[1..];
    }
  }

  /** Each half of a list with distinct ids has distinct ids. */
  lemma {:induction false} HalvesDistinct(cs: seq<Contact>, mid: int)
    requires DistinctIds(cs)
    ensures DistinctIds(Below(cs, mid)) && DistinctIds(AtOrAbove(cs, mid))
    decreases |cs|
  {
    if cs != [] {
      DistinctHead(cs);
      HalvesDistinct(cs[1..], mid);
      if cs[0].id < mid {
        DistinctCons(cs[0], Below(cs[1..], mid));
      } else {
        DistinctCons(cs[0], AtOrAbove(cs[1..], mid));
      }
    }
  }

  /** (low + high) // 2. With a positive divisor Dafny's division floors,
      like Python's //. */
  function Midpoint(b: Bucket): int
  {
    (b.low + b.high) / 2
  }

  /** The loop of KBucket.split from a given point on: each remaining contact
      goes through add_contact of the first half (id < mid) or the second. */
  function SplitInto(copy: Copy, cs: seq<Contact>, mid: int, k1: Bucket, k2: Bucket): Result<(Bucket, Bucket)>
    decreases |cs|
  {
    if cs == [] then Ok((k1, k2))
    else if cs[0].id < mid then
      match AddToBucket(copy, k1, cs[0])
      case Err(e) => Err(e)
      case Ok(k1') => SplitInto(copy, cs[1..], mid, k1', k2)
    else
      match AddToBucket(copy, k2, cs[0])
      case Err(e) => Err(e)
      case Ok(k2') => SplitInto(copy, cs[1..], mid, k1, k2')
  }

  /** KBucket.split: two new buckets [low, mid] and [mid, high] sharing the
      midpoint, filled by add_contact in the original order. */
  function SplitBucket(copy: Copy, b: Bucket): Result<(Bucket, Bucket)>
  {
    var mid := Midpoint(b);
    SplitInto(copy, b.contacts, mid, Bucket([], b.low, mid), Bucket([], mid, b.high))
  }

  /** Filling two buckets with room for every contact appends the lower
      contacts to the first and the others to the second. */
  lemma {:induction false} SplitIntoAppends(copy: Copy, cs: seq<Contact>, mid: int, k1: Bucket, k2: Bucket)
    requires forall c :: c in cs && c.id < mid ==> InRange(k1, c.id)
    requires forall c :: c in cs && c.id >= mid ==> InRange(k2, c.id)
    requires |k1.contacts| + |Below(cs, mid)| <= K && |k2.contacts| + |AtOrAbove(cs, mid)| <= K
    requires forall c :: c in cs ==> !HasId(k1.contacts, c.id) && !HasId(k2.contacts, c.id)
    requires DistinctIds(cs)
    ensures SplitInto(copy, cs, mid, k1, k2) ==
      Ok((k1.(contacts := k1.contacts + Below(cs, mid)), k2.(contacts := k2.contacts + AtOrAbove(cs, mid))))
    decreases |cs|
  {
    if cs == [] {
      assert k1.contacts + [] == k1.contacts && k2.contacts + [] == k2.contacts;
    } else {
      var c, rest := cs[0], cs[1..];
      DistinctHead(cs);
      assert c in cs;
      if c.id < mid {
        var k1' := k1.(contacts := k1.contacts + [c]);
        AddFresh(copy, k1, c);
        FreshStaysFresh(k1.contacts, c, rest);
        SplitIntoAppends(copy, rest, mid, k1', k2);
        ConcatAssoc(k1.contacts, [c], Below(rest, mid));
      } else {
        var k2' := k2.(contacts := k2.contacts + [c]);
        AddFresh(copy, k2, c);
        FreshStaysFresh(k2.contacts, c, rest);
        SplitIntoAppends(copy, rest, mid, k1, k2');
        ConcatAssoc(k2.contacts, [c], AtOrAbove(rest, mid));
      }
    }
  }

  /** add_contact of a contact whose id is new to a bucket with room. */
  lemma AddFresh(copy: Copy, k: Bucket, c: Contact)
    requires !Full(k) && InRange(k, c.id) && !HasId(k.contacts, c.id)
    ensures AddToBucket(copy, k, c) == Ok(k.(contacts := k.contacts + [c]))
  {
    assert c !in k.contacts;
  }

  /** Ids new to a list stay new after appending a contact with another id. */
  lemma FreshStaysFresh(cs: seq<Contact>, c: Contact, rest: seq<Contact>)
    requires forall d :: d in rest ==> !HasId(cs, d.id) && d.id != c.id
    ensures forall d :: d in rest ==> !HasId(cs + [c], d.id)
  {
    assert forall e :: e in cs + [c] ==> e in cs || e == c;
  }

  /** The two halves of a split, as they come out of a well-formed bucket. */
  function LowerHalf(b: Bucket): Bucket
  {
    Bucket(Below(b.contacts, Midpoint(b)), b.low, Midpoint(b))
  }

  function UpperHalf(b: Bucket): Bucket
  {
    Bucket(AtOrAbove(b.contacts, Midpoint(b)), Midpoint(b), b.high)
  }

  /** Splitting a well-formed bucket cannot fail: ids below the midpoint go
      to [low, mid], the others to [mid, high], order is kept within each
      half, and together the halves hold exactly the original contacts. */
  lemma SplitPartitions(copy: Copy, b: Bucket)
    requires WellFormed(b)
    ensures SplitBucket(copy, b) == Ok((LowerHalf(b), UpperHalf(b)))
    ensures multiset(LowerHalf(b).contacts) + multiset(UpperHalf(b).contacts) == multiset(b.contacts)
    ensures WellFormed(LowerHalf(b)) && WellFormed(UpperHalf(b))
    ensures LowerHalf(b).high == UpperHalf(b).low == Midpoint(b)
  {
    var mid := Midpoint(b);
    HalvesPartition(b.contacts, mid);
    HalvesDistinct(b.contacts, mid);
    SplitIntoAppends(copy, b.contacts, mid, Bucket([], b.low, mid), Bucket([], mid, b.high));
    assert [] + Below(b.contacts, mid) == Below(b.contacts, mid);
    assert [] + AtOrAbove(b.contacts, mid) == AtOrAbove(b.contacts, mid);
  }

  // ------------------------------------------------------------------
  // Depth and can_split
  // ------------------------------------------------------------------

  /** The longest common prefix of two strings. */
  function CommonPrefix(a: string, b: string): (r: string)
    ensures r <= a && r <= b
    ensures |r| == |a| || |r| == |b| || a[|r|] != b[|r|]
  {
    if a == [] || b == [] || a[0] != b[0] then []
    else [a[0]] + CommonPrefix(a[1..], b[1..])
  }

  lemma {:induction false} CommonPrefixSymmetric(a: string, b: string)
    ensures CommonPrefix(a, b) == CommonPrefix(b, a)
    decreases |a|
  {
    if a != [] && b != [] && a[0] == b[0] {
      CommonPrefixSymmetric(a[1..], b[1..]);
    }
  }

  /** A common prefix that cannot be extended is the longest one. */
  lemma {:induction false} CommonPrefixUnique(a: string, b: string, n: nat)
    requires n <= |a| && n <= |b| && a[..n] == b[..n]
    requires n == |a| || n == |b| || a[n] != b[n]
    ensures CommonPrefix(a, b) == a[..n]
    decreases n
  {
    if n > 0 {
      assert a[0] == b[0] by {
        assert a[..n][0] == b[..n][0];
      }
      assert a[1..][..n - 1] == a[..n][1..];
      assert b[1..][..n - 1] == b[..n][1..];
      CommonPrefixUnique(a[1..], b[1..], n - 1);
      assert a[..n] == [a[0]] + a[1..][..n - 1];
    }
  }

  /** os.path.commonprefix(list): '' for an empty list, otherwise the longest
      prefix shared by every string. */
  function CommonPrefixAll(ss: seq<string>): (r: string)
    ensures forall s :: s in ss ==> r <= s
  {
    if ss == [] then ""
    else if |ss| == 1 then ss[0]
    else
      var rest := CommonPrefixAll(ss[1..]);
      var r := CommonPrefix(ss[0], rest);
      assert forall s :: s in ss[1..] ==> r <= s by {
        forall s | s in ss[1..]
          ensures r <= s
        {
          PrefixTransitive(r, rest, s);
        }
      }
      assert forall s :: s in ss ==> s == ss[0] || s in ss[1..];
      r
  }

  lemma PrefixTransitive(a: string, b: string, c: string)
    requires a <= b && b <= c
    ensures a <= c
  {
    assert a == b[..|a|];
    assert b == c[..|b|];
    assert c[..|b|][..|a|] == c[..|a|];
  }

  /** No longer string is a prefix of all of them: one of them ends there, or
      two of them differ at that position. */
  lemma {:induction false} CommonPrefixAllLongest(ss: seq<string>)
    requires ss != []
    ensures var r := CommonPrefixAll(ss);
      (exists s :: s in ss && |s| == |r|) ||
      (exists s, t :: s in ss && t in ss && |r| < |s| && |r| < |t| && s[|r|] != t[|r|])
    decreases |ss|
  {
    var r := CommonPrefixAll(ss);
    if |ss| > 1 {
      var rest := CommonPrefixAll(ss[1..]);
      CommonPrefixAllLongest(ss[1..]);
      if |r| == |ss[0]| {
        assert ss[0] in ss;
      } else if |r| == |rest| {
        assert r == rest;
        if s :| s in ss[1..] && |s| == |rest| {
          assert s in ss;
        } else {
          var s, t :| s in ss[1..] && t in ss[1..] && |rest| < |s| && |rest| < |t| && s[|rest|] != t[|rest|];
          assert s in ss && t in ss;
        }
      } else {
        assert ss[0][|r|] != rest[|r|];
        assert ss[1] in ss[1..];
        var s := ss[1];
        assert rest <= s;
        assert s[|r|] == rest[|r|];
        assert ss[0] in ss && s in ss;
      }
    }
  }

  function BinOf(c: Contact): string
  {
    Bin(c.id)
  }

  /** The packages' shared_bits(): commonprefix over the 160-character bin()
      of every contact. */
  function PackageSharedBits(cs: seq<Contact>): string
  {
    CommonPrefixAll(seq(|cs|, i requires 0 <= i < |cs| => Bin(cs[i].id)))
  }

  /** kademlia.py's shared_bits() after its first contact: the running
      prefix meets each further contact's bin()[2:]. */
  function FoldSharedBits(prefix: string, cs: seq<Contact>): string
    decreases |cs|
  {
    if cs == [] then prefix
    else FoldSharedBits(CommonPrefix(Bin(cs[0].id)[2..], prefix), cs[1..])
  }

  /** kademlia.py's shared_bits(): starts from contacts[0], so IndexError on
      an empty bucket. bin()[2:] drops the first two of the 160 padded
      digits, not a "0b" tag, so at most 158 digits are compared. */
  function MonolithSharedBits(cs: seq<Contact>): Result<string>
  {
    if cs == [] then Err(IndexError)
    else Ok(FoldSharedBits(Bin(cs[0].id)[2..], cs[1..]))
  }

  function SharedBits(copy: Copy, b: Bucket): Result<string>
  {
    match copy
    case Package => Ok(PackageSharedBits(b.contacts))
    case Monolith => MonolithSharedBits(b.contacts)
  }

  /** depth(): the length of shared_bits(). */
  function Depth(copy: Copy, b: Bucket): Result<nat>
  {
    match SharedBits(copy, b)
    case Err(e) => Err(e)
    case Ok(bits) => Ok(|bits|)
  }

  lemma {:induction false} FoldSharedBitsPrefix(prefix: string, cs: seq<Contact>)
    ensures FoldSharedBits(prefix, cs) <= prefix
    ensures forall c :: c in cs ==> FoldSharedBits(prefix, cs) <= Bin(c.id)[2..]
    decreases |cs|
  {
    if cs != [] {
      var p := CommonPrefix(Bin(cs[0].id)[2..], prefix);
      FoldSharedBitsPrefix(p, cs[1..]);
    }
  }

  /** The depth is the length of a prefix of every contact's binary id, so
      at most 160 in the packages, at most 158 in kademlia.py; an empty
      bucket has depth 0 in the packages and raises IndexError in
      kademlia.py. */
  lemma DepthBounds(copy: Copy, b: Bucket)
    ensures copy == Package ==> Depth(copy, b).Ok? && Depth(copy, b).value <= 160
    ensures copy == Package && b.contacts == [] ==> Depth(copy, b) == Ok(0)
    ensures copy == Monolith ==> (Depth(copy, b).Err? <==> b.contacts == [])
    ensures copy == Monolith && b.contacts != [] ==> Depth(copy, b).value <= 158
    ensures Depth(copy, b).Ok? ==> forall c :: c in b.contacts ==>
      (copy == Package ==> SharedBits(copy, b).value <= Bin(c.id)) &&
      (copy == Monolith ==> SharedBits(copy, b).value <= Bin(c.id)[2..])
  {
    var cs := b.contacts;
    if copy == Package {
      var bins := seq(|cs|, i requires 0 <= i < |cs| => Bin(cs[i].id));
      if cs != [] {
        assert bins[0] in bins;
        BinRoundTrip(cs[0].id);
      }
      forall c | c in cs
        ensures PackageSharedBits(cs) <= Bin(c.id)
      {
        var i :| 0 <= i < |cs| && cs[i] == c;
        assert bins[i] in bins;
      }
    } else if cs != [] {
      BinRoundTrip(cs[0].id);
      FoldSharedBitsPrefix(Bin(cs[0].id)[2..], cs[1..]);
      forall c | c in cs
        ensures FoldSharedBits(Bin(cs[0].id)[2..], cs[1..]) <= Bin(c.id)[2..]
      {
        if c != cs[0] {
          assert c in cs[1..];
        }
      }
    }
  }

  /** can_split: the bucket's range holds our id (checked first, so depth is
      then not computed), or depth % B != 0. */
  function CanSplit(copy: Copy, ourId: ID, b: Bucket): (r: Result<bool>)
    ensures r == Ok(true) <==>
      InRange(b, ourId) || (Depth(copy, b).Ok? && Depth(copy, b).value % SplitModulus(copy) != 0)
    ensures r.Err? <==> !InRange(b, ourId) && Depth(copy, b).Err?
  {
    if InRange(b, ourId) then Ok(true)
    else
      match Depth(copy, b)
      case Err(e) => Err(e)
      case Ok(d) => Ok(d % SplitModulus(copy) != 0)
  }

  /** For kademlia.py (B = 160) a bucket outside our range splits exactly
      when its contacts share a non-empty prefix of bin()[2:]. */
  lemma MonolithCanSplit(ourId: ID, b: Bucket)
    requires b.contacts != [] && !InRange(b, ourId)
    ensures CanSplit(Monolith, ourId, b) == Ok(Depth(Monolith, b).value != 0)
  {
    DepthBounds(Monolith, b);
  }

  // ------------------------------------------------------------------
  // The list of buckets
  // ------------------------------------------------------------------

  /** What the bucket list keeps true: one or more well-formed buckets whose
      inclusive ranges run from 0 to 2^160, each starting where the previous
      one ends. */
  predicate ListValid(bs: seq<Bucket>)
  {
    && |bs| >= 1
    && bs[0].low == 0
    && bs[|bs| - 1].high == TWO_160
    && (forall i :: 0 <= i < |bs| - 1 ==> bs[i].high == bs[i + 1].low)
    && (forall i :: 0 <= i < |bs| ==> WellFormed(bs[i]))
  }

  /** The bucket list a new BucketList starts with: one empty bucket over the
      whole range. */
  function InitialBuckets(): (bs: seq<Bucket>)
    ensures ListValid(bs)
  {
    [Bucket([], 0, TWO_160)]
  }

  /** _get_kbucket_index: the first bucket whose range holds the id, -1 if none. */
  function KIndex(bs: seq<Bucket>, id: int): (r: int)
    ensures -1 <= r < |bs|
    ensures r >= 0 ==> InRange(bs[r], id) && forall j :: 0 <= j < r ==> !InRange(bs[j], id)
    ensures r == -1 <==> forall j :: 0 <= j < |bs| ==> !InRange(bs[j], id)
  {
    if bs == [] then -1
    else if InRange(bs[0], id) then 0
    else
      var r := KIndex(bs[1..], id);
      if r == -1 then -1 else r + 1
  }

  /** get_kbucket: buckets[_get_kbucket_index(id)] with Python indexing, so an
      index of -1 picks the last bucket; only an empty list raises
      (IndexError, turned into OutOfRangeError). */
  function GetKBucket(bs: seq<Bucket>, id: int): (r: Result<nat>)
    ensures r.Err? <==> bs == []
    ensures r.Err? ==> r.error == OutOfRangeError
    ensures r.Ok? ==> r.value < |bs|
  {
    if bs == [] then Err(OutOfRangeError)
    else
      var i := KIndex(bs, id);
      Ok(if i == -1 then |bs| - 1 else i)
  }

  lemma {:induction false} CoveredFrom(bs: seq<Bucket>, j: nat, id: int)
    requires ListValid(bs) && j < |bs| && bs[j].low <= id < TWO_160
    ensures exists i :: j <= i < |bs| && InRange(bs[i], id)
    decreases |bs| - j
  {
    if id > bs[j].high {
      assert j < |bs| - 1;
      CoveredFrom(bs, j + 1, id);
    }
  }

  /** In a valid list every id lies in some bucket, so get_kbucket never
      falls back on the last bucket. */
  lemma KIndexFound(bs: seq<Bucket>, id: ID)
    requires ListValid(bs)
    ensures KIndex(bs, id) >= 0
    ensures GetKBucket(bs, id) == Ok(KIndex(bs, id))
  {
    CoveredFrom(bs, 0, id);
  }

  /** The index of the bucket that receives the id. */
  function Target(bs: seq<Bucket>, id: ID): (i: nat)
    requires ListValid(bs)
    ensures i < |bs| && InRange(bs[i], id)
    ensures i == KIndex(bs, id)
  {
    KIndexFound(bs, id);
    KIndex(bs, id)
  }

  function TargetWidth(bs: seq<Bucket>, id: ID): nat
    requires ListValid(bs)
  {
    var b := bs[Target(bs, id)];
    assert WellFormed(b);
    b.high - b.low
  }

  /** Buckets with the same ranges send an id to the same index. */
  lemma {:induction false} KIndexSameRanges(bs: seq<Bucket>, bs': seq<Bucket>, id: int)
    requires |bs| == |bs'|
    requires forall j :: 0 <= j < |bs| ==> bs[j].low == bs'[j].low && bs[j].high == bs'[j].high
    ensures KIndex(bs, id) == KIndex(bs', id)
    decreases |bs|
  {
    if bs != [] && !InRange(bs[0], id) {
      assert !InRange(bs'[0], id);
      KIndexSameRanges(bs[1..], bs'[1..], id);
    }
  }

  /** The list after buckets[i] = k1 and buckets.insert(i + 1, k2). */
  function SplitAt(bs: seq<Bucket>, i: nat, k1: Bucket, k2: Bucket): (r: seq<Bucket>)
    requires i < |bs|
    ensures |r| == |bs| + 1
    ensures forall j :: 0 <= j < i ==> r[j] == bs[j]
    ensures r[i] == k1 && r[i + 1] == k2
    ensures forall j :: i + 1 < j < |r| ==> r[j] == bs[j - 1]
  {
    bs[..i] + [k1, k2] + bs[i + 1..]
  }

  /** A full well-formed bucket holds K distinct ids of its range, so the
      range is at least K - 1 wide. */
  lemma FullBucketIsWide(b: Bucket)
    requires WellFormed(b) && Full(b)
    ensures b.high - b.low >= K - 1
  {
    var ids := IdSet(b.contacts);
    DistinctIdSet(b.contacts);
    forall x | x in ids
      ensures b.low <= x <= b.high
    {
      var c :| c in b.contacts && c.id == x;
    }
    IntervalCardinality(ids, b.low, b.high);
  }

  /** Splitting the full target bucket of a valid list gives a valid list in
      which the id's new target is strictly narrower. */
  lemma SplitStep(copy: Copy, bs: seq<Bucket>, id: ID)
    requires ListValid(bs) && Full(bs[Target(bs, id)])
    ensures var i := Target(bs, id);
      SplitBucket(copy, bs[i]) == Ok((LowerHalf(bs[i]), UpperHalf(bs[i])))
    ensures var i := Target(bs, id);
      var bs' := SplitAt(bs, i, LowerHalf(bs[i]), UpperHalf(bs[i]));
      ListValid(bs') && TargetWidth(bs', id) < TargetWidth(bs, id)
  {
    var i := Target(bs, id);
    var b := bs[i];
    SplitPartitions(copy, b);
    FullBucketIsWide(b);
    var k1, k2 := LowerHalf(b), UpperHalf(b);
    var bs' := SplitAt(bs, i, k1, k2);
    assert ListValid(bs') by {
      forall j | 0 <= j < |bs'| - 1
        ensures bs'[j].high == bs'[j + 1].low
      {
        if j + 1 < i {
          assert bs'[j] == bs[j] && bs'[j + 1] == bs[j + 1];
        } else if j + 1 == i {
          assert bs'[j] == bs[j];
        } else if j == i {
        } else if j == i + 1 {
          assert bs'[j + 1] == bs[i + 1];
        } else {
          assert bs'[j] == bs[j - 1] && bs'[j + 1] == bs[j];
        }
      }
      forall j | 0 <= j < |bs'|
        ensures WellFormed(bs'[j])
      {
        if j < i {
          assert bs'[j] == bs[j];
        } else if j > i + 1 {
          assert bs'[j] == bs[j - 1];
        }
      }
      if i == |bs| - 1 {
        assert bs'[|bs'| - 1] == k2;
      } else {
        assert bs'[|bs'| - 1] == bs[|bs| - 1];
      }
    }
    var t := Target(bs', id);
    if id <= Midpoint(b) {
      assert InRange(bs'[i], id);
      assert forall j :: 0 <= j < i ==> !InRange(bs'[j], id);
      assert t == i;
    } else {
      assert InRange(bs'[i + 1], id);
      assert !InRange(bs'[i], id);
      assert forall j :: 0 <= j < i ==> !InRange(bs'[j], id);
      assert t == i + 1;
    }
  }
  /** The list once the full bucket that holds id is split in two: it is
      valid again, and the bucket holding id is narrower. */
  function SplitTargetList(bs: seq<Bucket>, id: ID): (r: seq<Bucket>)
    requires ListValid(bs) && Full(bs[Target(bs, id)])
    ensures ListValid(r) && |r| == |bs| + 1
    ensures TargetWidth(r, id) < TargetWidth(bs, id)
  {
    SplitStep(Package, bs, id);
    var i := Target(bs, id);
    SplitAt(bs, i, LowerHalf(bs[i]), UpperHalf(bs[i]))
  }


  /** The request BucketList.add_contact passes on to its DHT, if it has one. */
  datatype Deferred =
    | NoDeferral
    | DelayEviction(toEvict: Contact, toReplace: Contact)
    | AddToPending(contact: Contact)

  /** The buckets after the call, and what the call returned or raised. */
  datatype AddOutcome = AddOutcome(buckets: seq<Bucket>, result: Result<Deferred>)

  function LastSeen(c: Contact): int
  {
    c.lastSeen
  }

  /** BucketList.add_contact(contact): our own id raises; otherwise the
      contact is touched and goes to get_kbucket(contact.id), where it
      replaces a contact with its id, or is appended when there is room. A
      full bucket that can split is replaced by its halves and the add is
      retried; one that cannot pings the least recently seen contact: a
      truthy answer asks the DHT to delay that contact's eviction, a falsy
      one asks it to make the new contact pending. kademlia.py's BucketList
      has no our_contact, so that branch raises AttributeError there. Ping
      answers come from the oracle `ping`. */
  function AddSpec(copy: Copy, ourId: ID, bs: seq<Bucket>, c: Contact, now: nat,
                   ping: Contact -> Option<RPCError>): (r: AddOutcome)
    requires ListValid(bs)
    decreases TargetWidth(bs, c.id)
  {
    if c.id == ourId then AddOutcome(bs, Err(OurNodeCannotBeAContactError))
    else
      var t := Touch(c, now);
      var i := Target(bs, t.id);
      var b := bs[i];
      if HasId(b.contacts, t.id) then
        match ReplaceInBucket(b, t, now)
        case Err(e) => AddOutcome(bs, Err(e))
        case Ok(b') => AddOutcome(bs[i := b'], Ok(NoDeferral))
      else if Full(b) then
        match CanSplit(copy, ourId, b)
        case Err(e) => AddOutcome(bs, Err(e))
        case Ok(true) =>
          (match SplitBucket(copy, b)
           case Err(e) => AddOutcome(bs, Err(e))
           case Ok(halves) =>
             SplitStep(copy, bs, t.id);
             AddSpec(copy, ourId, SplitAt(bs, i, halves.0, halves.1), t, now, ping))
        case Ok(false) =>
          var lru := SortOn(b.contacts, LastSeen)[0];
          if copy == Monolith then AddOutcome(bs, Err(AttributeError))
          else if ErrorIsTruthy(ping(lru)) then AddOutcome(bs, Ok(DelayEviction(lru, t)))
          else AddOutcome(bs, Ok(AddToPending(t)))
      else
        match AddToBucket(copy, b, t)
        case Err(e) => AddOutcome(bs, Err(e))
        case Ok(b') => AddOutcome(bs[i := b'], Ok(NoDeferral))
  }

  /** contacts(): every bucket's contacts, bucket by bucket. */
  function AllContacts(bs: seq<Bucket>): seq<Contact>
  {
    if bs == [] then [] else bs[0].contacts + AllContacts(bs[1..])
  }

  lemma {:induction false} AllContactsConcat(a: seq<Bucket>, b: seq<Bucket>)
    ensures AllContacts(a + b) == AllContacts(a) + AllContacts(b)
    decreases |a|
  {
    if a != [] {
      assert (a + b)[1..] == a[1..] + b;
      AllContactsConcat(a[1..], b);
    } else {
      assert a + b == b;
    }
  }

  /** The contacts around position i of the list. */
  lemma {:induction false} AllContactsAround(bs: seq<Bucket>, i: nat)
    requires i < |bs|
    ensures AllContacts(bs) == AllContacts(bs[..i]) + bs[i].contacts + AllContacts(bs[i + 1..])
    decreases i
  {
    if i == 0 {
      assert bs[..0] == [];
    } else {
      AllContactsAround(bs[1..], i - 1);
      assert bs[1..][..i - 1] == bs[..i][1..];
      assert bs[1..][i - 1..][1..] == bs[i + 1..];
      assert bs[..i][0] == bs[0];
    }
  }

  lemma AllContactsUpdate(bs: seq<Bucket>, i: nat, x: Bucket)
    requires i < |bs|
    ensures AllContacts(bs[i := x]) == AllContacts(bs[..i]) + x.contacts + AllContacts(bs[i + 1..])
  {
    AllContactsAround(bs[i := x], i);
    assert bs[i := x][..i] == bs[..i];
    assert bs[i := x][i + 1..] == bs[i + 1..];
  }

  lemma AllContactsSplitAt(bs: seq<Bucket>, i: nat, k1: Bucket, k2: Bucket)
    requires i < |bs|
    ensures AllContacts(SplitAt(bs, i, k1, k2)) ==
      AllContacts(bs[..i]) + k1.contacts + k2.contacts + AllContacts(bs[i + 1..])
  {
    var r := SplitAt(bs, i, k1, k2);
    AllContactsConcat(bs[..i] + [k1, k2], bs[i + 1..]);
    AllContactsConcat(bs[..i], [k1, k2]);
    assert AllContacts([k1, k2]) == k1.contacts + AllContacts([k2]);
    assert AllContacts([k2]) == k2.contacts + AllContacts([]);
  }

  /** The contacts of the first i + 1 buckets. */
  lemma AllContactsPrefix(bs: seq<Bucket>, i: nat)
    requires i < |bs|
    ensures AllContacts(bs[..i + 1]) == AllContacts(bs[..i]) + bs[i].contacts
  {
    assert bs[..i + 1] == bs[..i] + [bs[i]];
    AllContactsConcat(bs[..i], [bs[i]]);
    assert AllContacts([bs[i]]) == bs[i].contacts + AllContacts([]);
  }

  /** contacts() holds a contact exactly when some bucket does. */
  lemma {:induction false} AllContactsMembership(bs: seq<Bucket>, c: Contact)
    ensures c in AllContacts(bs) <==> exists i :: 0 <= i < |bs| && c in bs[i].contacts
    decreases |bs|
  {
    if bs != [] {
      AllContactsMembership(bs[1..], c);
      if c in AllContacts(bs[1..]) {
        var i :| 0 <= i < |bs[1..]| && c in bs[1..][i].contacts;
        assert c in bs[i + 1].contacts;
      }
      if i :| 0 <= i < |bs| && c in bs[i].contacts {
        if i > 0 {
          assert c in bs[1..][i - 1].contacts;
        }
      }
    }
  }

  /** The number of contacts held, bucket by bucket. */
  lemma {:induction false} AllContactsCount(bs: seq<Bucket>)
    requires forall i :: 0 <= i < |bs| ==> |bs[i].contacts| <= K
    ensures |AllContacts(bs)| <= K * |bs|
    decreases |bs|
  {
    if bs != [] {
      AllContactsCount(bs[1..]);
    }
  }

  /** What BucketList.add_contact keeps and changes, for an outcome r of
      adding c at time now to bs:
      - the list stays valid and never loses a bucket;
      - on success the touched contact is in the bucket its id maps to;
      - no stored contact with another id is lost or altered, and nothing but
        the touched contact is added;
      - when nothing is stored (a deferral or an error) the list holds the
        same contacts as before. */
  predicate AddKeeps(bs: seq<Bucket>, c: Contact, now: nat, r: AddOutcome)
  {
    && ListValid(r.buckets)
    && |r.buckets| >= |bs|
    && (r.result == Ok(NoDeferral) ==> Touch(c, now) in r.buckets[Target(r.buckets, c.id)].contacts)
    && (forall d :: d in AllContacts(bs) && d.id != c.id ==> d in AllContacts(r.buckets))
    && (forall d :: d in AllContacts(r.buckets) ==> d in AllContacts(bs) || d == Touch(c, now))
    && (r.result != Ok(NoDeferral) ==> multiset(AllContacts(r.buckets)) == multiset(AllContacts(bs)))
  }

  /** A well-formed bucket over the same range in place of bucket i keeps
      the list valid and every id's bucket where it was. */
  lemma UpdateKeepsList(bs: seq<Bucket>, i: nat, b': Bucket, id: ID)
    requires ListValid(bs) && i < |bs| && WellFormed(b')
    requires b'.low == bs[i].low && b'.high == bs[i].high
    ensures ListValid(bs[i := b'])
    ensures Target(bs[i := b'], id) == Target(bs, id)
  {
    var bs' := bs[i := b'];
    assert forall j :: 0 <= j < |bs| ==> bs[j].low == bs'[j].low && bs[j].high == bs'[j].high;
    assert ListValid(bs');
    KIndexSameRanges(bs, bs', id);
  }

  /** Putting b' in place of bucket i, where b' keeps every contact of the
      old bucket with another id than t's and brings in nothing but t,
      does the same to the whole list. */
  lemma SwapKeeps(bs: seq<Bucket>, i: nat, b': Bucket, t: Contact)
    requires i < |bs|
    requires forall d :: d in bs[i].contacts && d.id != t.id ==> d in b'.contacts
    requires forall d :: d in b'.contacts ==> d in bs[i].contacts || d == t
    ensures forall d :: d in AllContacts(bs) && d.id != t.id ==> d in AllContacts(bs[i := b'])
    ensures forall d :: d in AllContacts(bs[i := b']) ==> d in AllContacts(bs) || d == t
  {
    AllContactsAround(bs, i);
    AllContactsUpdate(bs, i, b');
  }

  /** replace_contact keeps the other contacts and brings in only the
      touched one. */
  lemma ReplaceInBucketMembers(b: Bucket, t: Contact, now: nat)
    requires HasId(b.contacts, t.id) && t.lastSeen == now
    ensures var b' := ReplaceInBucket(b, t, now).value;
      t in b'.contacts &&
      (forall d :: d in b.contacts && d.id != t.id ==> d in b'.contacts) &&
      (forall d :: d in b'.contacts ==> d in b.contacts || d == t)
  {
    var b' := ReplaceInBucket(b, t, now).value;
    var k := FirstIndexOfId(b.contacts, t.id);
    assert b'.contacts[k] == t;
    forall d | d in b.contacts && d.id != t.id
      ensures d in b'.contacts
    {
      var j :| 0 <= j < |b.contacts| && b.contacts[j] == d;
      assert b'.contacts[j] == d;
    }
    forall d | d in b'.contacts
      ensures d in b.contacts || d == t
    {
      var j :| 0 <= j < |b'.contacts| && b'.contacts[j] == d;
      assert j != k ==> d == b.contacts[j];
    }
  }

  /** The replace branch: the touched contact takes its old record's place. */
  lemma ReplaceKeeps(bs: seq<Bucket>, c: Contact, now: nat)
    requires ListValid(bs)
    requires HasId(bs[Target(bs, c.id)].contacts, c.id)
    ensures var i := Target(bs, c.id);
      var b' := ReplaceInBucket(bs[i], Touch(c, now), now).value;
      AddKeeps(bs, c, now, AddOutcome(bs[i := b'], Ok(NoDeferral)))
  {
    var t := Touch(c, now);
    var i := Target(bs, c.id);
    var b := bs[i];
    var b' := ReplaceInBucket(b, t, now).value;
    var bs' := bs[i := b'];
    ReplaceInBucketWellFormed(b, t, now);
    ReplaceInBucketMembers(b, t, now);
    SwapKeeps(bs, i, b', t);
    UpdateKeepsList(bs, i, b', t.id);
  }

  /** The plain add branch: the touched contact is appended to its bucket. */
  lemma InsertKeeps(copy: Copy, bs: seq<Bucket>, c: Contact, now: nat)
    requires ListValid(bs)
    requires var b := bs[Target(bs, c.id)];
      !HasId(b.contacts, c.id) && !Full(b)
    ensures var i := Target(bs, c.id);
      var b' := AddToBucket(copy, bs[i], Touch(c, now)).value;
      AddKeeps(bs, c, now, AddOutcome(bs[i := b'], Ok(NoDeferral)))
  {
    var t := Touch(c, now);
    var i := Target(bs, c.id);
    var b' := AddToBucket(copy, bs[i], t).value;
    AddToBucketWellFormed(copy, bs[i], t);
    SwapKeeps(bs, i, b', t);
    UpdateKeepsList(bs, i, b', t.id);
  }

  /** Splitting keeps the contacts, so what holds after adding to the split
      list holds relative to the list before the split. */
  lemma SplitKeeps(copy: Copy, bs: seq<Bucket>, c: Contact, now: nat, r: AddOutcome)
    requires ListValid(bs) && Full(bs[Target(bs, c.id)])
    requires AddKeeps(SplitTargetList(bs, c.id), Touch(c, now), now, r)
    ensures AddKeeps(bs, c, now, r)
  {
    var i := Target(bs, c.id);
    var b := bs[i];
    var bs' := SplitAt(bs, i, LowerHalf(b), UpperHalf(b));
    assert bs' == SplitTargetList(bs, c.id);
    SplitPartitions(copy, b);
    AllContactsAround(bs, i);
    AllContactsSplitAt(bs, i, LowerHalf(b), UpperHalf(b));
    MultisetSwapMiddle(AllContacts(bs[..i]), LowerHalf(b).contacts, UpperHalf(b).contacts,
                       b.contacts, AllContacts(bs[i + 1..]));
    SameMembers(AllContacts(bs'), AllContacts(bs));
    assert Touch(Touch(c, now), now) == Touch(c, now);
  }

  /** BucketList.add_contact keeps the list valid, stores nothing but the
      touched contact, loses no contact with another id, and rejects our own
      id with nothing changed. */
  lemma {:induction false} AddSpecSound(copy: Copy, ourId: ID, bs: seq<Bucket>, c: Contact, now: nat,
                                        ping: Contact -> Option<RPCError>)
    requires ListValid(bs)
    ensures AddKeeps(bs, c, now, AddSpec(copy, ourId, bs, c, now, ping))
    ensures c.id == ourId ==> AddSpec(copy, ourId, bs, c, now, ping) == AddOutcome(bs, Err(OurNodeCannotBeAContactError))
    decreases TargetWidth(bs, c.id), 1
  {
    if c.id != ourId {
      var b := bs[Target(bs, c.id)];
      if HasId(b.contacts, c.id) {
        ReplaceKeeps(bs, c, now);
      } else if Full(b) {
        FullKeeps(copy, ourId, bs, c, now, ping);
      } else {
        InsertKeeps(copy, bs, c, now);
      }
    }
  }

  /** The full-bucket branch of AddSpecSound: either the list is unchanged,
      or the bucket splits and the add is retried on the split list. */
  lemma {:induction false} FullKeeps(copy: Copy, ourId: ID, bs: seq<Bucket>, c: Contact, now: nat,
                                     ping: Contact -> Option<RPCError>)
    requires ListValid(bs) && c.id != ourId
    requires var b := bs[Target(bs, c.id)];
      !HasId(b.contacts, c.id) && Full(b)
    ensures AddKeeps(bs, c, now, AddSpec(copy, ourId, bs, c, now, ping))
    decreases TargetWidth(bs, c.id), 0
  {
    var r := AddSpec(copy, ourId, bs, c, now, ping);
    if CanSplit(copy, ourId, bs[Target(bs, c.id)]) == Ok(true) {
      AddSpecSplitUnfold(copy, ourId, bs, c, now, ping);
      AddSpecSound(copy, ourId, SplitTargetList(bs, c.id), Touch(c, now), now, ping);
      SplitKeeps(copy, bs, c, now, r);
    } else {
      AddFullUnchanged(copy, ourId, bs, c, now, ping);
      UnchangedKeeps(bs, c, now, r);
    }
  }

  /** A full bucket that cannot split leaves the list as it was and stores
      nothing. */
  lemma AddFullUnchanged(copy: Copy, ourId: ID, bs: seq<Bucket>, c: Contact, now: nat,
                         ping: Contact -> Option<RPCError>)
    requires ListValid(bs) && c.id != ourId
    requires var b := bs[Target(bs, c.id)];
      !HasId(b.contacts, c.id) && Full(b) && CanSplit(copy, ourId, b) != Ok(true)
    ensures var r := AddSpec(copy, ourId, bs, c, now, ping);
      r.buckets == bs && r.result != Ok(NoDeferral)
  {
  }

  /** An outcome that leaves the list as it was keeps everything. */
  lemma UnchangedKeeps(bs: seq<Bucket>, c: Contact, now: nat, r: AddOutcome)
    requires ListValid(bs) && r.buckets == bs && r.result != Ok(NoDeferral)
    ensures AddKeeps(bs, c, now, r)
  {
  }

  /** On a full bucket that cannot split nothing in the list changes and the
      contact is not stored: the packages hand the first least recently seen
      contact to delay_eviction when its ping answer is truthy and the new
      contact to add_to_pending otherwise; kademlia.py raises AttributeError. */
  lemma AddFullCannotSplit(copy: Copy, ourId: ID, bs: seq<Bucket>, c: Contact, now: nat,
                           ping: Contact -> Option<RPCError>)
    requires ListValid(bs) && c.id != ourId
    requires var b := bs[Target(bs, c.id)];
      !HasId(b.contacts, c.id) && Full(b) && CanSplit(copy, ourId, b) == Ok(false)
    ensures var b := bs[Target(bs, c.id)];
      var lru := b.contacts[FirstMinIndex(b.contacts, LastSeen)];
      var r := AddSpec(copy, ourId, bs, c, now, ping);
      && r.buckets == bs
      && (copy == Monolith ==> r.result == Err(AttributeError))
      && (copy == Package && ErrorIsTruthy(ping(lru)) ==> r.result == Ok(DelayEviction(lru, Touch(c, now))))
      && (copy == Package && !ErrorIsTruthy(ping(lru)) ==> r.result == Ok(AddToPending(Touch(c, now))))
  {
    var b := bs[Target(bs, c.id)];
    SortOnHead(b.contacts, LastSeen);
  }

  /** Re-adding an id the target bucket already holds keeps the number of
      buckets and every bucket's size, and changes only that one slot. */
  lemma AddExistingId(copy: Copy, ourId: ID, bs: seq<Bucket>, c: Contact, now: nat,
                      ping: Contact -> Option<RPCError>)
    requires ListValid(bs) && c.id != ourId
    requires HasId(bs[Target(bs, c.id)].contacts, c.id)
    ensures var r := AddSpec(copy, ourId, bs, c, now, ping);
      var i := Target(bs, c.id);
      var k := FirstIndexOfId(bs[i].contacts, c.id);
      && r.result == Ok(NoDeferral)
      && |r.buckets| == |bs|
      && (forall j :: 0 <= j < |bs| && j != i ==> r.buckets[j] == bs[j])
      && |r.buckets[i].contacts| == |bs[i].contacts|
      && r.buckets[i].contacts == bs[i].contacts[k := Touch(c, now)]
  {
  }

  /** The target bucket holds the id: the add is the replacement in that
      bucket, and the list stays valid. */
  lemma AddSpecReplaceUnfold(copy: Copy, ourId: ID, bs: seq<Bucket>, c: Contact, now: nat,
                             ping: Contact -> Option<RPCError>)
    requires ListValid(bs) && c.id != ourId
    requires HasId(bs[Target(bs, c.id)].contacts, c.id)
    ensures var i := Target(bs, c.id);
      var b' := ReplaceInBucket(bs[i], Touch(c, now), now);
      && b'.Ok?
      && ListValid(bs[i := b'.value])
      && AddSpec(copy, ourId, bs, c, now, ping) == AddOutcome(bs[i := b'.value], Ok(NoDeferral))
  {
    var i := Target(bs, c.id);
    ReplaceInBucketWellFormed(bs[i], Touch(c, now), now);
    UpdateKeepsList(bs, i, ReplaceInBucket(bs[i], Touch(c, now), now).value, c.id);
  }

  /** The target bucket has room and lacks the id: the add is the append to
      that bucket, and the list stays valid. */
  lemma AddSpecInsertUnfold(copy: Copy, ourId: ID, bs: seq<Bucket>, c: Contact, now: nat,
                            ping: Contact -> Option<RPCError>)
    requires ListValid(bs) && c.id != ourId
    requires var b := bs[Target(bs, c.id)]; !HasId(b.contacts, c.id) && !Full(b)
    ensures var i := Target(bs, c.id);
      var b' := AddToBucket(copy, bs[i], Touch(c, now));
      && b'.Ok?
      && ListValid(bs[i := b'.value])
      && AddSpec(copy, ourId, bs, c, now, ping) == AddOutcome(bs[i := b'.value], Ok(NoDeferral))
  {
    var i := Target(bs, c.id);
    AddToBucketWellFormed(copy, bs[i], Touch(c, now));
    UpdateKeepsList(bs, i, AddToBucket(copy, bs[i], Touch(c, now)).value, c.id);
  }

  /** A full target bucket that can split: the add is the add of the touched
      contact to the list with the bucket split in place. */
  lemma AddSpecSplitUnfold(copy: Copy, ourId: ID, bs: seq<Bucket>, c: Contact, now: nat,
                           ping: Contact -> Option<RPCError>)
    requires ListValid(bs) && c.id != ourId
    requires var b := bs[Target(bs, c.id)];
      !HasId(b.contacts, c.id) && Full(b) && CanSplit(copy, ourId, b) == Ok(true)
    ensures AddSpec(copy, ourId, bs, c, now, ping) ==
      AddSpec(copy, ourId, SplitTargetList(bs, c.id), Touch(c, now), now, ping)
  {
    SplitStep(copy, bs, c.id);
  }

  /** When the full target bucket can split, the add ends with more buckets. */
  lemma AddSplits(copy: Copy, ourId: ID, bs: seq<Bucket>, c: Contact, now: nat,
                  ping: Contact -> Option<RPCError>)
    requires ListValid(bs) && c.id != ourId
    requires var b := bs[Target(bs, c.id)];
      !HasId(b.contacts, c.id) && Full(b) && CanSplit(copy, ourId, b) == Ok(true)
    ensures |AddSpec(copy, ourId, bs, c, now, ping).buckets| > |bs|
  {
    AddSpecSplitUnfold(copy, ourId, bs, c, now, ping);
    AddSpecSound(copy, ourId, SplitTargetList(bs, c.id), Touch(c, now), now, ping);
  }

  // ------------------------------------------------------------------
  // get_close_contacts
  // ------------------------------------------------------------------

  /** The contacts of the list whose id is not `exclude`, in list order. */
  function Excluding(cs: seq<Contact>, exclude: ID): (r: seq<Contact>)
    ensures forall c :: c in r <==> c in cs && c.id != exclude
    ensures |r| <= |cs|
  {
    if cs == [] then []
    else if cs[0].id != exclude then [cs[0]] + Excluding(cs[1..], exclude)
    else Excluding(cs[1..], exclude)
  }

  /** One more contact looked at: it is kept unless it has the excluded id. */
  lemma ExcludingSnoc(prefix: seq<Contact>, cs: seq<Contact>, j: nat, exclude: ID)
    requires j < |cs|
    ensures Excluding(prefix + cs[..j + 1], exclude) ==
      Excluding(prefix + cs[..j], exclude) + (if cs[j].id != exclude then [cs[j]] else [])
  {
    assert prefix + cs[..j + 1] == (prefix + cs[..j]) + [cs[j]];
    ExcludingConcat(prefix + cs[..j], [cs[j]], exclude);
  }

  lemma {:induction false} ExcludingConcat(a: seq<Contact>, b: seq<Contact>, exclude: ID)
    ensures Excluding(a + b, exclude) == Excluding(a, exclude) + Excluding(b, exclude)
    decreases |a|
  {
    if a == [] {
      assert a + b == b;
    } else {
      assert (a + b)[1..] == a[1..] + b;
      ExcludingConcat(a[1..], b, exclude);
    }
  }

  /** The sort key of get_close_contacts: XOR distance to the key. */
  function DistanceTo(key: ID): Contact -> int
  {
    (c: Contact) => Xor(c.id, key)
  }

  /** get_close_contacts(key, exclude): every contact except those with the
      excluded id, sorted by XOR distance to the key, the first K kept. */
  function CloseContacts(bs: seq<Bucket>, key: ID, exclude: ID): seq<Contact>
  {
    var sorted := SortOn(Excluding(AllContacts(bs), exclude), DistanceTo(key));
    sorted[..if K < |sorted| then K else |sorted|]
  }

  /** At most K contacts, none with the excluded id, in ascending distance,
      none farther than a non-excluded contact left out; with K or fewer
      candidates, all of them. */
  lemma CloseContactsCorrect(bs: seq<Bucket>, key: ID, exclude: ID)
    ensures var r := CloseContacts(bs, key, exclude);
      var candidates := Excluding(AllContacts(bs), exclude);
      && |r| <= K
      && (forall c :: c in r ==> c.id != exclude && c in AllContacts(bs))
      && (forall i, j :: 0 <= i < j < |r| ==> Xor(r[i].id, key) <= Xor(r[j].id, key))
      && (forall c, d :: c in candidates && c !in r && d in r ==> Xor(d.id, key) <= Xor(c.id, key))
      && (|candidates| <= K ==> multiset(r) == multiset(candidates))
  {
    var candidates := Excluding(AllContacts(bs), exclude);
    var f := DistanceTo(key);
    var r := CloseContacts(bs, key, exclude);
    SortedPrefixIsClosest(candidates, f, K);
    assert SortedOn(r, f);
    assert forall c :: f(c) == Xor(c.id, key);
    assert multiset(r) <= multiset(candidates);
    forall c | c in r
      ensures c in candidates
    {
      assert c in multiset(r);
    }
    if |candidates| <= K {
      assert r == SortOn(candidates, f);
    }
  }

  // ------------------------------------------------------------------
  // Set helpers
  // ------------------------------------------------------------------

  function IdSet(cs: seq<Contact>): set<int>
  {
    set c | c in cs :: c.id
  }

  lemma {:induction false} DistinctIdSet(cs: seq<Contact>)
    requires DistinctIds(cs)
    ensures |IdSet(cs)| == |cs|
    decreases |cs|
  {
    if cs != [] {
      DistinctHead(cs);
      DistinctIdSet(cs[1..]);
      assert IdSet(cs) == {cs[0].id} + IdSet(cs[1..]) by {
        assert cs == [cs[0]] + cs[1..];
      }
      assert cs[0].id !in IdSet(cs[1..]);
    }
  }

  lemma {:induction false} IntervalCardinality(s: set<int>, lo: int, hi: int)
    requires forall x :: x in s ==> lo <= x <= hi
    ensures |s| <= if hi < lo then 0 else hi - lo + 1
    decreases if hi < lo then 0 else hi - lo + 1
  {
    if hi < lo {
      assert forall x :: x !in s;
      assert s == {};
    } else {
      IntervalCardinality(s - {hi}, lo, hi - 1);
    }
  }

  /** The head's id does not recur in the tail, and the tail has distinct ids. */
  lemma DistinctHead(cs: seq<Contact>)
    requires DistinctIds(cs) && cs != []
    ensures DistinctIds(cs[1..]) && !HasId(cs[1..], cs[0].id)
  {
    forall i, j | 0 <= i < j < |cs[1..]|
      ensures cs[1..][i].id != cs[1..][j].id
    {
      assert cs[1..][i] == cs[i + 1] && cs[1..][j] == cs[j + 1];
    }
    forall d | d in cs[1..]
      ensures d.id != cs[0].id
    {
      var j :| 0 <= j < |cs[1..]| && cs[1..][j] == d;
      assert cs[j + 1] == d;
    }
  }

  lemma DistinctCons(c: Contact, cs: seq<Contact>)
    requires DistinctIds(cs) && !HasId(cs, c.id)
    ensures DistinctIds([c] + cs)
  {
    var r := [c] + cs;
    forall i, j | 0 <= i < j < |r|
      ensures r[i].id != r[j].id
    {
      if i == 0 {
        assert r[j] == cs[j - 1];
        assert r[j] in cs;
      } else {
        assert r[i] == cs[i - 1] && r[j] == cs[j - 1];
      }
    }
  }

  lemma DistinctSnoc(cs: seq<Contact>, c: Contact)
    requires DistinctIds(cs) && !HasId(cs, c.id)
    ensures DistinctIds(cs + [c])
  {
    var r := cs + [c];
    forall i, j | 0 <= i < j < |r|
      ensures r[i].id != r[j].id
    {
      if j == |cs| {
        assert r[i] == cs[i];
        assert r[i] in cs;
      } else {
        assert r[i] == cs[i] && r[j] == cs[j];
      }
    }
  }
}
