/** The routing table as objects, as kademlia_dht/buckets.py keeps it: a KBucket whose
    contact list and time stamp change in place, and a BucketList whose list
    of k-buckets is replaced when a bucket splits. Every method is proved
    against the value-level functions of BucketValues. */
module Buckets {
  import opened Wrappers
  import opened Ids
  import opened Contacts
  import opened RpcErrors
  import opened BucketValues

  class KBucket {
    /** Which copy of buckets.py this k-bucket comes from. */
    const copy: Copy
    var contacts: seq<Contact>
    const low: int
    const high: int
    /** time_stamp: the clock reading of the last touch(). */
    var timeStamp: nat

    /** What the bucket holds and covers. */
    function Value(): Bucket
      reads this
    {
      Bucket(contacts, low, high)
    }

    /** KBucket(initial_contacts, low, high), stamped with the current time. */
    constructor (copy: Copy, initialContacts: seq<Contact>, low: int, high: int, now: nat)
      ensures this.copy == copy && Value() == Bucket(initialContacts, low, high)
      ensures timeStamp == now
    {
      this.copy := copy;
      contacts := initialContacts;
      this.low := low;
      this.high := high;
      timeStamp := now;
    }

    /** is_full: K or more contacts, exactly when add_contact refuses every
        contact with TooManyContactsError. */
    function IsFull(): (r: bool)
      reads this
      ensures r <==> forall c :: AddToBucket(copy, Value(), c) == Err(TooManyContactsError)
    {
      assert AddToBucket(copy, Value(), Contact(0, 0)) == Err(TooManyContactsError) ==> Full(Value());
      |contacts| >= K
    }

    /** contains: some contact has the id. */
    function Contains(id: ID): (r: bool)
      reads this
      ensures r <==> exists i :: 0 <= i < |contacts| && contacts[i].id == id
    {
      assert forall i :: 0 <= i < |contacts| ==> contacts[i] in contacts;
      HasId(contacts, id)
    }

    /** touch: the time stamp becomes now. */
    method Touch(now: nat)
      modifies this`timeStamp
      ensures timeStamp == now
    {
      timeStamp := now;
    }

    /** is_in_range: inclusive at both ends, so add_contact of any contact
        with that id passes the range check. */
    function IsInRange(id: ID): (r: bool)
      reads this
      ensures r <==> low <= id <= high
      ensures !Full(Value()) ==> (r <==> forall c: Contact :: c.id == id ==> AddToBucket(copy, Value(), c).Ok?)
    {
      assert AddToBucket(copy, Value(), Contact(id, 0)).Ok? ==> InRange(Value(), id);
      low <= id && id <= high
    }

    /** add_contact: TooManyContactsError, OutOfRangeError, or the contact
        appended (the packages skip a contact already present). */
    method AddContact(c: Contact) returns (r: Result<()>)
      modifies this`contacts
      ensures AddToBucket(copy, old(Value()), c).Ok? ==>
        r == Ok(()) && Value() == AddToBucket(copy, old(Value()), c).value
      ensures AddToBucket(copy, old(Value()), c).Err? ==>
        r == Err(AddToBucket(copy, old(Value()), c).error) && contacts == old(contacts)
    {
      if IsFull() {
        r := Err(TooManyContactsError);
      } else if !(low <= c.id <= high) {
        r := Err(OutOfRangeError);
      } else if copy == Package && c in contacts {
        r := Ok(());
      } else {
        contacts := contacts + [c];
        r := Ok(());
      }
    }

    /** shared_bits: commonprefix of the bin() strings in the packages; in
        kademlia.py a loop from the first contact's bin()[2:], raising
        IndexError on an empty bucket. */
    method SharedBits() returns (r: Result<string>)
      ensures r == BucketValues.SharedBits(copy, Value())
    {
      if copy == Package {
        // os.path.commonprefix is a library call.
        r := Ok(PackageSharedBits(contacts));
      } else if |contacts| == 0 {
        r := Err(IndexError);
      } else {
        BinRoundTrip(contacts[0].id);
        var prefix := Bin(contacts[0].id)[2..];
        ghost var whole := FoldSharedBits(prefix, contacts[1..]);
        for j := 1 to |contacts|
          invariant FoldSharedBits(prefix, contacts[j..]) == whole
        {
          BinRoundTrip(contacts[j].id);
          assert contacts[j..][1..] == contacts[j + 1..];
          prefix := LongestSharedPrefix(Bin(contacts[j].id)[2..], prefix);
        }
        r := Ok(prefix);
      }
    }

    /** depth: the length of shared_bits(). */
    method Depth() returns (r: Result<nat>)
      ensures r == BucketValues.Depth(copy, Value())
    {
      var bits := SharedBits();
      match bits
      case Err(e) => r := Err(e);
      case Ok(s) => r := Ok(|s|);
    }

    /** split: two fresh k-buckets [low, mid] and [mid, high], filled by
        add_contact in the original order; an error of add_contact
        propagates. */
    method Split(now: nat) returns (r: Result<(KBucket, KBucket)>)
      ensures r.Err? ==> SplitBucket(copy, Value()) == Err(r.error)
      ensures r.Ok? ==>
        && fresh(r.value.0) && fresh(r.value.1) && r.value.0 != r.value.1
        && r.value.0.copy == copy && r.value.1.copy == copy
        && SplitBucket(copy, Value()) == Ok((r.value.0.Value(), r.value.1.Value()))
    {
      var mid := (low + high) / 2;
      var k1 := new KBucket(copy, [], low, mid, now);
      var k2 := new KBucket(copy, [], mid, high, now);
      for j := 0 to |contacts|
        invariant fresh(k1) && fresh(k2) && k1 != k2
        invariant k1.copy == copy && k2.copy == copy
        invariant SplitInto(copy, contacts[j..], mid, k1.Value(), k2.Value()) == SplitBucket(copy, Value())
      {
        var c := contacts[j];
        assert contacts[j..][1..] == contacts[j + 1..];
        var added: Result<()>;
        if c.id < mid {
          added := k1.AddContact(c);
        } else {
          added := k2.AddContact(c);
        }
        if added.Err? {
          return Err(added.error);
        }
      }
      return Ok((k1, k2));
    }

    /** replace_contact: the first contact with the same id gives way to the
        contact, touched; ValueError from list.index when there is none. */
    method ReplaceContact(c: Contact, now: nat) returns (r: Result<()>)
      modifies this`contacts
      ensures ReplaceInBucket(old(Value()), c, now).Ok? ==>
        r == Ok(()) && Value() == ReplaceInBucket(old(Value()), c, now).value
      ensures ReplaceInBucket(old(Value()), c, now).Err? ==>
        r == Err(ValueError) && contacts == old(contacts)
    {
      if !HasId(contacts, c.id) {
        r := Err(ValueError);
      } else {
        // list.index on the ids: the first contact with the id.
        var index := FirstIndexOfId(contacts, c.id);
        contacts := contacts[index := Contacts.Touch(c, now)];
        r := Ok(());
      }
    }

    /** evict_contact (the packages only): BucketDoesNotContainContactToEvictError
        when no contact has the id, list.remove's ValueError when none equals
        the contact, otherwise the first equal contact removed. */
    method EvictContact(c: Contact) returns (r: Result<()>)
      modifies this`contacts
      ensures EvictFromBucket(old(Value()), c).Ok? ==>
        r == Ok(()) && Value() == EvictFromBucket(old(Value()), c).value
      ensures EvictFromBucket(old(Value()), c).Err? ==>
        r == Err(EvictFromBucket(old(Value()), c).error) && contacts == old(contacts)
    {
      if !Contains(c.id) {
        r := Err(BucketDoesNotContainContactToEvictError);
      } else if c !in contacts {
        r := Err(ValueError);
      } else {
        contacts := RemoveFirst(contacts, c);
        r := Ok(());
      }
    }
  }

  /** longest_shared_prefix_str, the helper inside kademlia.py's shared_bits:
      the longer string first, then the first position where they differ. */
  method LongestSharedPrefix(a: string, b: string) returns (r: string)
    ensures r == CommonPrefix(a, b)
  {
    var x, y := a, b;
    if |x| < |y| {
      x, y := y, x;
      CommonPrefixSymmetric(a, b);
    }
    assert CommonPrefix(x, y) == CommonPrefix(a, b);
    for i := 0 to |y|
      invariant x[..i] == y[..i]
    {
      if x[i] != y[i] {
        CommonPrefixUnique(x, y, i);
        return x[..i];
      }
      assert x[..i + 1] == x[..i] + [x[i]] && y[..i + 1] == y[..i] + [y[i]];
    }
    CommonPrefixUnique(x, y, |y|);
    assert y[..|y|] == y;
    return y;
  }

  /** The values of a list of k-buckets. */
  function ValuesOf(s: seq<KBucket>): (r: seq<Bucket>)
    reads s
    ensures |r| == |s|
    ensures forall i :: 0 <= i < |s| ==> r[i] == s[i].Value()
  {
    seq(|s|, i reads s requires 0 <= i < |s| => s[i].Value())
  }

  /** The values after a splice are the spliced values. */
  lemma ValuesOfSplice(s: seq<KBucket>, i: nat, a: KBucket, b: KBucket)
    requires i < |s|
    ensures ValuesOf(s[..i] + [a, b] + s[i + 1..]) == SplitAt(ValuesOf(s), i, a.Value(), b.Value())
  {
    SpliceShape(s, i, a, b);
  }

  /** No k-bucket object occurs twice. */
  predicate DistinctObjects(s: seq<KBucket>)
  {
    forall i, j :: 0 <= i < j < |s| ==> s[i] != s[j]
  }

  /** What buckets[i] = k1; buckets.insert(i + 1, k2) leaves where. */
  lemma SpliceShape(s: seq<KBucket>, i: nat, a: KBucket, b: KBucket)
    requires i < |s|
    ensures var r := s[..i] + [a, b] + s[i + 1..];
      && |r| == |s| + 1
      && (forall j :: 0 <= j < i ==> r[j] == s[j])
      && r[i] == a && r[i + 1] == b
      && (forall j :: i + 1 < j < |r| ==> r[j] == s[j - 1])
  {
  }

  /** Spliced k-buckets stay within the footprint grown by the two new ones. */
  lemma ReprSplice(s: seq<KBucket>, i: nat, a: KBucket, b: KBucket, repr: set<KBucket>)
    requires i < |s| && forall k :: k in s ==> k in repr
    ensures forall k :: k in s[..i] + [a, b] + s[i + 1..] ==> k in repr + {a, b}
  {
    forall k | k in s[..i] + [a, b] + s[i + 1..]
      ensures k in repr + {a, b}
    {
      if k in s[..i] {
        assert k in s;
      } else if k in s[i + 1..] {
        assert k in s;
      }
    }
  }

  /** kb.split() on a well-formed k-bucket: two fresh k-buckets holding
      its lower and upper halves. */
  method SplitInTwo(kb: KBucket, now: nat) returns (k1: KBucket, k2: KBucket)
    requires WellFormed(kb.Value())
    ensures fresh(k1) && fresh(k2) && k1 != k2 && k1.copy == kb.copy && k2.copy == kb.copy
    ensures k1.Value() == LowerHalf(kb.Value()) && k2.Value() == UpperHalf(kb.Value())
  {
    SplitPartitions(kb.copy, kb.Value());
    var halves := kb.Split(now);
    k1, k2 := halves.value.0, halves.value.1;
  }

  /** Every k-bucket comes from the given copy. */
  predicate AllOfCopy(s: seq<KBucket>, copy: Copy)
  {
    forall i :: 0 <= i < |s| ==> s[i].copy == copy
  }

  lemma CopySplice(s: seq<KBucket>, i: nat, a: KBucket, b: KBucket, copy: Copy)
    requires AllOfCopy(s, copy) && i < |s| && a.copy == copy && b.copy == copy
    ensures AllOfCopy(s[..i] + [a, b] + s[i + 1..], copy)
  {
    SpliceShape(s, i, a, b);
  }

  /** Two new objects spliced in keep the objects distinct. */
  lemma DistinctSplice(s: seq<KBucket>, i: nat, a: KBucket, b: KBucket)
    requires DistinctObjects(s) && i < |s| && a != b && a !in s && b !in s
    ensures DistinctObjects(s[..i] + [a, b] + s[i + 1..])
  {
    var r := s[..i] + [a, b] + s[i + 1..];
    SpliceShape(s, i, a, b);
    forall x, y | 0 <= x < y < |r|
      ensures r[x] != r[y]
    {
      if x != i && x != i + 1 && y != i && y != i + 1 {
        var x', y' := if x < i then x else x - 1, if y < i then y else y - 1;
        assert r[x] == s[x'] && r[y] == s[y'];
      } else if x == i || x == i + 1 {
        if y != i + 1 {
          assert r[y] == s[if y < i then y else y - 1];
        }
      } else {
        assert r[x] == s[if x < i then x else x - 1];
      }
    }
  }

  /** The inner loop of get_close_contacts: appends the contacts of one
      bucket whose id is not the excluded one. */
  method AppendExcluding(found: seq<Contact>, cs: seq<Contact>, exclude: ID) returns (r: seq<Contact>)
    ensures r == found + Excluding(cs, exclude)
  {
    r := found;
    for j := 0 to |cs|
      invariant r == found + Excluding(cs[..j], exclude)
    {
      assert cs[..j + 1] == cs[..j] + [cs[j]];
      ExcludingConcat(cs[..j], [cs[j]], exclude);
      if cs[j].id != exclude {
        r := r + [cs[j]];
      }
    }
    assert cs[..|cs|] == cs;
  }

  class BucketList {
    const copy: Copy
    const ourId: ID
    var buckets: seq<KBucket>
    /** The k-bucket objects this list has held, its footprint. */
    ghost var Repr: set<KBucket>

    /** The buckets as values. */
    function Values(): (r: seq<Bucket>)
      reads this, buckets
      ensures |r| == |buckets|
      ensures forall i :: 0 <= i < |buckets| ==> r[i] == buckets[i].Value()
    {
      ValuesOf(buckets)
    }

    /** Distinct k-bucket objects of this copy whose values form a valid list. */
    ghost predicate Valid()
      reads this, buckets
    {
      && DistinctObjects(buckets)
      && AllOfCopy(buckets, copy)
      && (forall k :: k in buckets ==> k in Repr)
      && ListValid(Values())
    }

    /** BucketList(our_contact): one empty k-bucket over the whole range. */
    constructor (copy: Copy, ourId: ID, now: nat)
      ensures Valid() && fresh(buckets)
      ensures this.copy == copy && this.ourId == ourId
      ensures Values() == InitialBuckets()
    {
      this.copy := copy;
      this.ourId := ourId;
      var first := new KBucket(copy, [], 0, TWO_160, now);
      buckets := [first];
      Repr := {first};
    }

    /** can_split: the range holds our id, or depth % B != 0; depth is only
        computed when the range does not hold our id. */
    method CanSplit(kb: KBucket) returns (r: Result<bool>)
      ensures r == BucketValues.CanSplit(kb.copy, ourId, kb.Value())
    {
      if kb.IsInRange(ourId) {
        r := Ok(true);
      } else {
        var d := kb.Depth();
        match d
        case Err(e) => r := Err(e);
        case Ok(depth) => r := Ok(depth % SplitModulus(kb.copy) != 0);
      }
    }

    /** _get_kbucket_index: the first bucket whose range holds the id, -1 if none. */
    method GetKBucketIndex(id: ID) returns (index: int)
      ensures index == KIndex(Values(), id)
    {
      for i := 0 to |buckets|
        invariant forall j :: 0 <= j < i ==> !InRange(Values()[j], id)
      {
        if buckets[i].IsInRange(id) {
          return i;
        }
      }
      return -1;
    }

    /** get_kbucket: buckets[_get_kbucket_index(id)], so -1 picks the last
        bucket; an empty list raises OutOfRangeError. */
    method GetKBucket(id: ID) returns (r: Result<KBucket>)
      ensures BucketValues.GetKBucket(Values(), id).Err? ==> r == Err(OutOfRangeError)
      ensures BucketValues.GetKBucket(Values(), id).Ok? ==>
        r == Ok(buckets[BucketValues.GetKBucket(Values(), id).value])
    {
      var index := GetKBucketIndex(id);
      if index == -1 {
        if |buckets| == 0 {
          r := Err(OutOfRangeError);
        } else {
          r := Ok(buckets[|buckets| - 1]);
        }
      } else {
        r := Ok(buckets[index]);
      }
    }

    /** add_contact(contact), with our contact's ping answers given by
        `ping`: the new buckets and the returned request are those of
        AddSpec. */
    method AddContact(c: Contact, now: nat, ping: Contact -> Option<RPCError>) returns (r: Result<Deferred>)
      requires Valid()
      modifies this, Repr
      ensures Valid()
      ensures Values() == AddSpec(copy, ourId, old(Values()), c, now, ping).buckets
      ensures r == AddSpec(copy, ourId, old(Values()), c, now, ping).result
      decreases TargetWidth(Values(), c.id), 2
    {
      if c.id == ourId {
        r := Err(OurNodeCannotBeAContactError);
      } else {
        var t := Touch(c, now);
        KIndexFound(Values(), t.id);
        var found := GetKBucket(t.id);
        var kb := found.value;
        assert Values() == old(Values());
        if kb.Contains(t.id) {
          r := ReplaceInList(kb, c, now, ping);
        } else if kb.IsFull() {
          r := AddToFullBucket(kb, c, now, ping);
        } else {
          r := AddToBucketInList(kb, c, now, ping);
        }
      }
    }

    /** The branch of add_contact where the bucket already holds the id. */
    method ReplaceInList(kb: KBucket, c: Contact, now: nat, ping: Contact -> Option<RPCError>)
      returns (r: Result<Deferred>)
      requires Valid() && c.id != ourId
      requires kb == buckets[Target(Values(), c.id)] && HasId(kb.contacts, c.id)
      modifies kb
      ensures Valid()
      ensures Values() == AddSpec(copy, ourId, old(Values()), c, now, ping).buckets
      ensures r == AddSpec(copy, ourId, old(Values()), c, now, ping).result
    {
      ghost var bs := Values();
      ghost var i := Target(bs, c.id);
      AddSpecReplaceUnfold(copy, ourId, bs, c, now, ping);
      var replaced := kb.ReplaceContact(Touch(c, now), now);
      assert forall j :: 0 <= j < |buckets| && j != i ==> buckets[j].Value() == bs[j];
      assert Values() == bs[i := kb.Value()];
      r := Ok(NoDeferral);
    }

    /** The branch of add_contact where the bucket has room for the id. */
    method AddToBucketInList(kb: KBucket, c: Contact, now: nat, ping: Contact -> Option<RPCError>)
      returns (r: Result<Deferred>)
      requires Valid() && c.id != ourId
      requires kb == buckets[Target(Values(), c.id)] && !HasId(kb.contacts, c.id) && !Full(kb.Value())
      modifies kb
      ensures Valid()
      ensures Values() == AddSpec(copy, ourId, old(Values()), c, now, ping).buckets
      ensures r == AddSpec(copy, ourId, old(Values()), c, now, ping).result
    {
      ghost var bs := Values();
      ghost var i := Target(bs, c.id);
      AddSpecInsertUnfold(copy, ourId, bs, c, now, ping);
      var added := kb.AddContact(Touch(c, now));
      assert forall j :: 0 <= j < |buckets| && j != i ==> buckets[j].Value() == bs[j];
      assert Values() == bs[i := kb.Value()];
      r := Ok(NoDeferral);
    }

    /** The branch of add_contact where the bucket is full: split and retry,
        or hand the request to the DHT. */
    method AddToFullBucket(kb: KBucket, c: Contact, now: nat, ping: Contact -> Option<RPCError>)
      returns (r: Result<Deferred>)
      requires Valid() && c.id != ourId
      requires kb == buckets[Target(Values(), c.id)] && !HasId(kb.contacts, c.id) && Full(kb.Value())
      modifies this, Repr
      ensures Valid()
      ensures Values() == AddSpec(copy, ourId, old(Values()), c, now, ping).buckets
      ensures r == AddSpec(copy, ourId, old(Values()), c, now, ping).result
      decreases TargetWidth(Values(), c.id), 1
    {
      var splittable := CanSplit(kb);
      assert Values() == old(Values());
      match splittable
      case Err(e) => r := Err(e);
      case Ok(true) =>
        AddSpecSplitUnfold(copy, ourId, Values(), c, now, ping);
        r := SplitAndRetry(kb, c, now, ping);
      case Ok(false) =>
        var lru := SortOn(kb.contacts, LastSeen)[0];
        if copy == Monolith {
          // kademlia.py's BucketList has no our_contact to ping with.
          r := Err(AttributeError);
        } else if ErrorIsTruthy(ping(lru)) {
          r := Ok(DelayEviction(lru, Touch(c, now)));
        } else {
          r := Ok(AddToPending(Touch(c, now)));
        }
    }

    /** The full bucket splits: its halves take its place and the add is
        retried. */
    method SplitAndRetry(kb: KBucket, c: Contact, now: nat, ping: Contact -> Option<RPCError>)
      returns (r: Result<Deferred>)
      requires Valid() && kb == buckets[Target(Values(), c.id)] && Full(kb.Value())
      modifies this, Repr
      ensures Valid()
      ensures Values() ==
        AddSpec(copy, ourId, SplitTargetList(old(Values()), c.id), Touch(c, now), now, ping).buckets
      ensures r == AddSpec(copy, ourId, SplitTargetList(old(Values()), c.id), Touch(c, now), now, ping).result
      decreases TargetWidth(Values(), c.id), 0
    {
      ghost var bs := Values();
      var t := Touch(c, now);
      ghost var k1, k2 := SplitTarget(kb, t.id, now);
      r := AddContact(t, now, ping);
    }

    /** The split step of add_contact: the full k-bucket holding the id
        gives way to its two halves. */
    method SplitTarget(kb: KBucket, id: ID, now: nat) returns (ghost k1: KBucket, ghost k2: KBucket)
      requires Valid()
      requires kb == buckets[Target(Values(), id)] && Full(kb.Value())
      modifies this
      ensures Valid()
      ensures Values() == SplitTargetList(old(Values()), id)
      ensures fresh(k1) && fresh(k2) && Repr == old(Repr) + {k1, k2}
    {
      ghost var bs := Values();
      ghost var i := Target(bs, id);
      ghost var bs' := SplitTargetList(bs, id);
      var index := GetKBucketIndex(id);
      KIndexFound(bs, id);
      assert index == i;
      ghost var full := bs[i];
      assert kb.Value() == full;
      assert bs' == SplitAt(bs, i, LowerHalf(full), UpperHalf(full));
      var h1, h2 := SplitInTwo(kb, now);
      k1, k2 := h1, h2;
      assert h1.Value() == LowerHalf(full) && h2.Value() == UpperHalf(full);
      assert Values() == bs;
      SpliceHalves(index, h1, h2);
    }

    /** buckets[index:index+1] = [k1, k2]: two new k-buckets replace one. */
    method SpliceHalves(index: nat, k1: KBucket, k2: KBucket)
      requires Valid() && index < |buckets|
      requires k1 !in buckets && k2 !in buckets && k1 != k2
      requires k1.copy == copy && k2.copy == copy
      requires ListValid(SplitAt(Values(), index, k1.Value(), k2.Value()))
      modifies this
      ensures Valid()
      ensures Values() == SplitAt(old(Values()), index, k1.Value(), k2.Value())
      ensures Repr == old(Repr) + {k1, k2}
    {
      ghost var before := buckets;
      ghost var vals := Values();
      buckets := buckets[..index] + [k1, k2] + buckets[index + 1..];
      Repr := Repr + {k1, k2};
      assert ValuesOf(before) == vals;
      ValuesOfSplice(before, index, k1, k2);
      assert Values() == SplitAt(vals, index, k1.Value(), k2.Value());
      DistinctSplice(before, index, k1, k2);
      CopySplice(before, index, k1, k2, copy);
      ReprSplice(before, index, k1, k2, old(Repr));
    }

    /** get_close_contacts(key, exclude): the loops collect every contact
        without the excluded id; then sorted by XOR distance, first K. */
    method GetCloseContacts(key: ID, exclude: ID) returns (r: seq<Contact>)
      ensures r == CloseContacts(Values(), key, exclude)
    {
      ghost var vs := Values();
      var found: seq<Contact> := [];
      for i := 0 to |buckets|
        invariant found == Excluding(AllContacts(vs[..i]), exclude)
      {
        var cs := buckets[i].contacts;
        assert cs == vs[i].contacts;
        found := AppendExcluding(found, cs, exclude);
        ExcludingConcat(AllContacts(vs[..i]), cs, exclude);
        AllContactsPrefix(vs, i);
      }
      assert vs[..|buckets|] == vs;
      var sorted := SortOn(found, DistanceTo(key));
      r := sorted[..if K < |sorted| then K else |sorted|];
    }

    /** contacts(): every bucket's contacts, bucket by bucket. */
    method Contacts() returns (r: seq<Contact>)
      ensures r == AllContacts(Values())
    {
      ghost var vs := Values();
      r := [];
      for i := 0 to |buckets|
        invariant r == AllContacts(vs[..i])
      {
        var cs := buckets[i].contacts;
        assert cs == vs[i].contacts;
        assert AllContacts(vs[..i]) + cs[..0] == AllContacts(vs[..i]);
        for j := 0 to |cs|
          invariant r == AllContacts(vs[..i]) + cs[..j]
        {
          assert cs[..j + 1] == cs[..j] + [cs[j]];
          r := r + [cs[j]];
        }
        assert cs[..|cs|] == cs;
        AllContactsPrefix(vs, i);
      }
      assert vs[..|buckets|] == vs;
    }

    /** contact_exists: the contact is in contacts(), so in some bucket. */
    method ContactExists(c: Contact) returns (b: bool)
      ensures b <==> exists i :: 0 <= i < |buckets| && c in buckets[i].contacts
    {
      var all := Contacts();
      AllContactsMembership(Values(), c);
      b := c in all;
    }
  }
}
