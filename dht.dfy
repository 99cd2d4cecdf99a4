/** The DHT's own bookkeeping (kademlia/dht.py, and the DHT of kademlia.py):
    eviction counts, contacts pending a place in a k-bucket, eviction and
    replacement, the local storage cascade of find_value, the separating-node
    count, and the purge of expired entries. The routing table is the value
    seq<Bucket> of BucketValues; RPCs are oracle arguments. */
module Dht {
  import opened Wrappers
  import opened Ids
  import opened Contacts
  import opened RpcErrors
  import opened BucketValues
  import opened Helpers
  import opened Storage
  import Routers

  /** kademlia/constants.py. kademlia.py's Constants only declares
      EVICTION_LIMIT, so reading it raises AttributeError there. */
  const EVICTION_LIMIT: nat := 5
  const EXPIRATION_TIME_SEC: nat := 86400

  /** What the DHT keeps: eviction attempts by id value, the pending
      contacts, and the routing table of its node. */
  datatype Book = Book(evictionCount: map<int, nat>, pending: seq<Contact>, buckets: seq<Bucket>)

  /** The exception a call raised, if any, and the bookkeeping after it
      (updates made before an exception stay). */
  datatype Outcome = Outcome(raised: Option<Exception>, book: Book)

  // ------------------------------------------------------------------
  // Eviction counts
  // ------------------------------------------------------------------

  /** _add_contact_to_evict(key): the count starts at 0 when absent and is
      then incremented. */
  function Bumped(counts: map<int, nat>, key: int): (r: map<int, nat>)
    ensures key in r
    ensures key !in counts ==> r[key] == 1
    ensures key in counts ==> r[key] == counts[key] + 1
    ensures forall k :: k != key ==> (k in r <==> k in counts)
    ensures forall k :: k != key && k in counts ==> r[k] == counts[k]
  {
    var start := if key in counts then counts else counts[key := 0];
    start[key := start[key] + 1]
  }

  /** Every recorded count is still below the eviction limit. */
  predicate BelowLimit(counts: map<int, nat>)
  {
    forall k :: k in counts ==> counts[k] < EVICTION_LIMIT
  }

  // ------------------------------------------------------------------
  // Eviction and replacement
  // ------------------------------------------------------------------

  /** _evict_contact(bucket, to_evict) on the bucket at index i: the count is
      dropped first, then a bucket without the id raises
      BucketDoesNotContainContactToEvictError; otherwise evict_contact
      removes the contact (list.remove, ValueError if only the id matches). */
  function EvictSpec(book: Book, i: nat, toEvict: Contact): (o: Outcome)
    requires i < |book.buckets|
    ensures o.book.evictionCount == book.evictionCount - {toEvict.id}
    ensures o.book.pending == book.pending && |o.book.buckets| == |book.buckets|
    ensures !HasId(book.buckets[i].contacts, toEvict.id) <==> o.raised == Some(BucketDoesNotContainContactToEvictError)
    ensures o.raised.None? <==> toEvict in book.buckets[i].contacts
    ensures o.raised.Some? ==> o.book.buckets == book.buckets
    ensures o.raised.None? ==>
      && multiset(o.book.buckets[i].contacts) == multiset(book.buckets[i].contacts) - multiset{toEvict}
      && o.book.buckets[i].low == book.buckets[i].low && o.book.buckets[i].high == book.buckets[i].high
      && (forall j :: 0 <= j < |book.buckets| && j != i ==> o.book.buckets[j] == book.buckets[j])
  {
    var counts := if toEvict.id in book.evictionCount then book.evictionCount - {toEvict.id}
                  else book.evictionCount;
    var dropped := book.(evictionCount := counts);
    var b := book.buckets[i];
    if !HasId(b.contacts, toEvict.id) then Outcome(Some(BucketDoesNotContainContactToEvictError), dropped)
    else
      match EvictFromBucket(b, toEvict)
      case Err(e) => Outcome(Some(e), dropped)
      case Ok(b') => Outcome(None, dropped.(buckets := book.buckets[i := b']))
  }

  /** The pending contacts whose get_kbucket is the bucket at index i (the
      same object, so the same index), in pending order. */
  function Candidates(pending: seq<Contact>, bs: seq<Bucket>, i: nat): (r: seq<Contact>)
    ensures forall c :: c in r <==> c in pending && GetKBucket(bs, c.id) == Ok(i)
  {
    if pending == [] then []
    else
      var rest := Candidates(pending[1..], bs, i);
      assert forall c :: c in pending <==> c == pending[0] || c in pending[1..];
      if GetKBucket(bs, pending[0].id) == Ok(i) then [pending[0]] + rest else rest
  }

  /** _replace_with_pending_contact(bucket): the last of the candidates
      sorted by last_seen leaves pending and goes into the bucket through
      add_contact; no candidate raises IndexError. */
  function ReplaceWithPendingSpec(book: Book, i: nat): (o: Outcome)
    requires i < |book.buckets|
    ensures o.raised == Some(IndexError) <==> Candidates(book.pending, book.buckets, i) == []
    ensures o.book.evictionCount == book.evictionCount && |o.book.buckets| == |book.buckets|
    ensures forall j :: 0 <= j < |book.buckets| && j != i ==> o.book.buckets[j] == book.buckets[j]
  {
    var cands := Candidates(book.pending, book.buckets, i);
    if cands == [] then Outcome(Some(IndexError), book)
    else
      var contact := SortOn(cands, LastSeen)[|cands| - 1];
      assert contact in multiset(cands);
      var pending := RemoveFirst(book.pending, contact);
      match AddToBucket(Package, book.buckets[i], contact)
      case Err(e) => Outcome(Some(e), book.(pending := pending))
      case Ok(b) => Outcome(None, book.(pending := pending, buckets := book.buckets[i := b]))
  }

  /** _replace_contact(to_evict): evict from get_kbucket(to_evict.id), then
      refill that bucket from pending. */
  function ReplaceContactSpec(book: Book, toEvict: Contact): (o: Outcome)
    ensures book.buckets == [] ==> o == Outcome(Some(OutOfRangeError), book)
    ensures book.buckets != [] ==> o.book.evictionCount == book.evictionCount - {toEvict.id}
    ensures |o.book.buckets| == |book.buckets|
  {
    match GetKBucket(book.buckets, toEvict.id)
    case Err(e) => Outcome(Some(e), book)
    case Ok(i) =>
      var evicted := EvictSpec(book, i, toEvict);
      if evicted.raised.Some? then evicted else ReplaceWithPendingSpec(evicted.book, i)
  }

  /** handle_error(error, contact). In kademlia/dht.py a truthy error with
      has_error() counts an attempt and replaces the contact from the limit
      on; kademlia.py counts every call, then fails reading the limit. */
  function HandleErrorSpec(copy: Copy, book: Book, error: Option<RPCError>, contact: Contact): (o: Outcome)
    ensures copy == Package && NoErrorReported(error) ==> o == Outcome(None, book)
    ensures copy == Monolith ==> o == Outcome(Some(AttributeError), book.(evictionCount := Bumped(book.evictionCount, contact.id)))
    ensures |o.book.buckets| == |book.buckets|
  {
    var counted := book.(evictionCount := Bumped(book.evictionCount, contact.id));
    match copy
    case Monolith => Outcome(Some(AttributeError), counted)
    case Package =>
      if ErrorIsTruthy(error) && HasError(error.value) then
        if counted.evictionCount[contact.id] >= EVICTION_LIMIT then ReplaceContactSpec(counted, contact)
        else Outcome(None, counted)
      else Outcome(None, book)
  }

  /** to_replace joins pending unless a pending contact has its id. */
  function Pend(pending: seq<Contact>, toReplace: Contact): (r: seq<Contact>)
    ensures HasId(r, toReplace.id)
    ensures r == pending || (r == pending + [toReplace] && !HasId(pending, toReplace.id))
  {
    if toReplace.id !in IdsOf(pending) then
      assert toReplace in pending + [toReplace];
      pending + [toReplace]
    else
      var k :| 0 <= k < |pending| && IdsOf(pending)[k] == toReplace.id;
      assert pending[k] in pending;
      pending
  }

  /** delay_eviction(to_evict, to_replace): pend to_replace, count an attempt
      on to_evict, and replace it when the count reaches the limit exactly
      (kademlia.py raises AttributeError at that comparison). */
  function DelayEvictionSpec(copy: Copy, book: Book, toEvict: Contact, toReplace: Contact): (o: Outcome)
  {
    var b := Book(Bumped(book.evictionCount, toEvict.id), Pend(book.pending, toReplace), book.buckets);
    if copy == Monolith then Outcome(Some(AttributeError), b)
    else if b.evictionCount[toEvict.id] == EVICTION_LIMIT then ReplaceContactSpec(b, toEvict)
    else Outcome(None, b)
  }

  /** What BucketList.add_contact asks of its DHT: delay_eviction, or
      add_to_pending, which kademlia/dht.py does not define. */
  function DeferredSpec(copy: Copy, book: Book, d: Deferred): (o: Outcome)
    ensures d.NoDeferral? ==> o == Outcome(None, book)
    ensures d.AddToPending? ==> o == Outcome(Some(AttributeError), book)
  {
    match d
    case NoDeferral => Outcome(None, book)
    case DelayEviction(toEvict, toReplace) => DelayEvictionSpec(copy, book, toEvict, toReplace)
    case AddToPending(_) => Outcome(Some(AttributeError), book)
  }

  // ------------------------------------------------------------------
  // Properties of eviction and replacement
  // ------------------------------------------------------------------

  /** The refill moves the pending candidate with the greatest last_seen (the
      last such one) out of pending; it lands in the bucket when the bucket has
      room and covers its id. */
  lemma ReplaceWithPendingChoice(book: Book, i: nat)
    requires i < |book.buckets|
    requires Candidates(book.pending, book.buckets, i) != []
    ensures var cands := Candidates(book.pending, book.buckets, i);
      var c := cands[LastMaxIndex(cands, LastSeen)];
      var o := ReplaceWithPendingSpec(book, i);
      && c in book.pending && GetKBucket(book.buckets, c.id) == Ok(i)
      && (forall d :: d in book.pending && GetKBucket(book.buckets, d.id) == Ok(i) ==> d.lastSeen <= c.lastSeen)
      && o.book.pending == RemoveFirst(book.pending, c)
      && (o.raised.None? ==> c in o.book.buckets[i].contacts)
      && (!Full(book.buckets[i]) && InRange(book.buckets[i], c.id) ==> o.raised.None?)
      && (Full(book.buckets[i]) ==> o.raised == Some(TooManyContactsError))
  {
    var cands := Candidates(book.pending, book.buckets, i);
    SortOnLast(cands, LastSeen);
    var m := LastMaxIndex(cands, LastSeen);
    var c := cands[m];
    assert c in cands;
    var pending := RemoveFirst(book.pending, c);
    var added := AddToBucket(Package, book.buckets[i], c);
    assert ReplaceWithPendingSpec(book, i) ==
      if added.Err? then Outcome(Some(added.error), book.(pending := pending))
      else Outcome(None, book.(pending := pending, buckets := book.buckets[i := added.value]));
    forall d | d in book.pending && GetKBucket(book.buckets, d.id) == Ok(i)
      ensures d.lastSeen <= cands[m].lastSeen
    {
      var j :| 0 <= j < |cands| && cands[j] == d;
      assert LastSeen(cands[j]) <= LastSeen(cands[m]);
    }
  }

  /** The pending list loses at most one of its own contacts in a replacement. */
  predicate ShrunkByOne(before: seq<Contact>, after: seq<Contact>)
  {
    after == before || exists c :: c in before && after == RemoveFirst(before, c)
  }

  lemma ReplaceWithPendingShrinks(book: Book, i: nat)
    requires i < |book.buckets|
    ensures ShrunkByOne(book.pending, ReplaceWithPendingSpec(book, i).book.pending)
  {
    var cands := Candidates(book.pending, book.buckets, i);
    if cands != [] {
      var c := SortOn(cands, LastSeen)[|cands| - 1];
      assert c in multiset(cands);
      assert c in book.pending;
      var o := ReplaceWithPendingSpec(book, i);
      assert o.book.pending == RemoveFirst(book.pending, c);
    }
  }

  lemma ReplaceContactShrinksPending(book: Book, toEvict: Contact)
    ensures ShrunkByOne(book.pending, ReplaceContactSpec(book, toEvict).book.pending)
  {
    if book.buckets != [] {
      var i := GetKBucket(book.buckets, toEvict.id).value;
      var evicted := EvictSpec(book, i, toEvict);
      if evicted.raised.None? {
        ReplaceWithPendingShrinks(evicted.book, i);
      }
    }
  }

  /** Taking a contact out keeps the pending ids distinct. */
  lemma ShrunkKeepsDistinct(before: seq<Contact>, after: seq<Contact>)
    requires DistinctIds(before) && ShrunkByOne(before, after)
    ensures DistinctIds(after)
  {
    if after != before {
      var c :| c in before && after == RemoveFirst(before, c);
      DistinctRemove(before, IndexOf(before, c));
    }
  }

  /** delay_eviction keeps the pending ids distinct, in both copies. */
  lemma {:induction false} DelayEvictionKeepsPendingDistinct(copy: Copy, book: Book, toEvict: Contact, toReplace: Contact)
    requires DistinctIds(book.pending)
    ensures DistinctIds(DelayEvictionSpec(copy, book, toEvict, toReplace).book.pending)
  {
    var pended := Pend(book.pending, toReplace);
    if pended != book.pending {
      DistinctSnoc(book.pending, toReplace);
    }
    var b := Book(Bumped(book.evictionCount, toEvict.id), pended, book.buckets);
    ReplaceContactShrinksPending(b, toEvict);
    ShrunkKeepsDistinct(pended, ReplaceContactSpec(b, toEvict).book.pending);
  }

  /** handle_error keeps the pending ids distinct, in both copies. */
  lemma {:induction false} HandleErrorKeepsPendingDistinct(copy: Copy, book: Book, error: Option<RPCError>, contact: Contact)
    requires DistinctIds(book.pending)
    ensures DistinctIds(HandleErrorSpec(copy, book, error, contact).book.pending)
  {
    var counted := book.(evictionCount := Bumped(book.evictionCount, contact.id));
    ReplaceContactShrinksPending(counted, contact);
    ShrunkKeepsDistinct(book.pending, ReplaceContactSpec(counted, contact).book.pending);
  }

  /** Without a replacement, delay_eviction only pends to_replace and counts
      one more attempt on to_evict; the replacement happens exactly when that
      count reaches the limit, and then the count is dropped. */
  lemma DelayEvictionAtLimit(book: Book, toEvict: Contact, toReplace: Contact)
    requires book.buckets != []
    ensures var count := Bumped(book.evictionCount, toEvict.id)[toEvict.id];
      var o := DelayEvictionSpec(Package, book, toEvict, toReplace);
      && (count != EVICTION_LIMIT ==>
            o.raised.None? && o.book.buckets == book.buckets &&
            o.book.evictionCount == Bumped(book.evictionCount, toEvict.id) &&
            HasId(o.book.pending, toReplace.id) &&
            multiset(o.book.pending) <= multiset(book.pending) + multiset{toReplace})
      && (toEvict.id in o.book.evictionCount <==> count != EVICTION_LIMIT)
  {
  }

  /** With counts below the limit and a non-empty routing table, neither
      handle_error nor delay_eviction lets a count reach the limit: the
      attempt that reaches it evicts and drops the count. */
  lemma HandleErrorKeepsBelowLimit(book: Book, error: Option<RPCError>, contact: Contact)
    requires BelowLimit(book.evictionCount) && book.buckets != []
    ensures BelowLimit(HandleErrorSpec(Package, book, error, contact).book.evictionCount)
  {
    var counts := Bumped(book.evictionCount, contact.id);
    assert forall k :: k in counts && k != contact.id ==> counts[k] < EVICTION_LIMIT;
  }

  lemma DelayEvictionKeepsBelowLimit(book: Book, toEvict: Contact, toReplace: Contact)
    requires BelowLimit(book.evictionCount) && book.buckets != []
    ensures BelowLimit(DelayEvictionSpec(Package, book, toEvict, toReplace).book.evictionCount)
  {
    var counts := Bumped(book.evictionCount, toEvict.id);
    assert forall k :: k in counts && k != toEvict.id ==> counts[k] < EVICTION_LIMIT;
  }

  /** handle_error on an error with has_error() counts one more attempt on
      the contact. Below the limit that is the only change; from the limit on
      the contact is replaced: OutOfRangeError on an empty routing table,
      otherwise its count is dropped and pending loses at most one contact. */
  lemma HandleErrorCounts(book: Book, error: Option<RPCError>, contact: Contact)
    requires !NoErrorReported(error)
    ensures var bumped := Bumped(book.evictionCount, contact.id);
      var o := HandleErrorSpec(Package, book, error, contact);
      && (bumped[contact.id] < EVICTION_LIMIT ==> o == Outcome(None, book.(evictionCount := bumped)))
      && (bumped[contact.id] >= EVICTION_LIMIT && book.buckets == [] ==>
            o == Outcome(Some(OutOfRangeError), book.(evictionCount := bumped)))
      && (bumped[contact.id] >= EVICTION_LIMIT && book.buckets != [] ==>
            && o.book.evictionCount == bumped - {contact.id}
            && ShrunkByOne(book.pending, o.book.pending)
            && |o.book.buckets| == |book.buckets|)
  {
    var counted := book.(evictionCount := Bumped(book.evictionCount, contact.id));
    ReplaceContactShrinksPending(counted, contact);
  }

  /** _replace_contact(to_evict) on a non-empty routing table, step by step:
      a bucket without to_evict raises and keeps every bucket; otherwise
      to_evict leaves its bucket, and the refill takes the pending candidate
      with the greatest last_seen out of pending (IndexError without one) and
      adds it to the bucket, which eviction left with room. */
  lemma ReplaceContactSteps(book: Book, toEvict: Contact)
    requires book.buckets != []
    ensures var i := GetKBucket(book.buckets, toEvict.id).value;
      var o := ReplaceContactSpec(book, toEvict);
      var e := EvictSpec(book, i, toEvict);
      var cands := Candidates(book.pending, e.book.buckets, i);
      && i < |book.buckets|
      && (toEvict !in book.buckets[i].contacts ==> o.raised.Some? && o.book.buckets == book.buckets)
      && (toEvict in book.buckets[i].contacts ==>
            && multiset(e.book.buckets[i].contacts) == multiset(book.buckets[i].contacts) - multiset{toEvict}
            && (|book.buckets[i].contacts| <= K ==> !Full(e.book.buckets[i]))
            && (cands == [] ==> o.raised == Some(IndexError) && o.book.buckets == e.book.buckets)
            && (cands != [] ==>
                  var c := cands[LastMaxIndex(cands, LastSeen)];
                  && o.book.pending == RemoveFirst(book.pending, c)
                  && (o.raised.None? ==> c in o.book.buckets[i].contacts)))
  {
    var i := GetKBucket(book.buckets, toEvict.id).value;
    var e := EvictSpec(book, i, toEvict);
    if toEvict in book.buckets[i].contacts {
      var before := book.buckets[i].contacts;
      var after := e.book.buckets[i].contacts;
      assert |multiset(after)| == |multiset(before)| - 1;
      if Candidates(book.pending, e.book.buckets, i) != [] {
        ReplaceWithPendingChoice(e.book, i);
      }
    }
  }

  // ------------------------------------------------------------------
  // _get_separating_nodes_count and find_value
  // ------------------------------------------------------------------

  function IdValue(c: Contact): int
  {
    c.id
  }

  /** The id values of every contact in the routing table, sorted. */
  function SortedIds(bs: seq<Bucket>): (r: seq<int>)
    ensures |r| == |AllContacts(bs)|
  {
    IdsOf(SortOn(AllContacts(bs), IdValue))
  }

  /** _get_separating_nodes_count(a, b): how far apart the positions closest
      to a's and to b's ids are in the sorted id list; IndexError for an
      empty routing table. */
  function SeparatingNodesCount(bs: seq<Bucket>, a: Contact, b: Contact): (r: Result<nat>)
  {
    var ids := SortedIds(bs);
    match ClosestIndex(ids, a.id)
    case Err(e) => Err(e)
    case Ok(ia) =>
      match ClosestIndex(ids, b.id)
      case Err(e) => Err(e)
      case Ok(ib) => Ok(Abs(ia - ib))
  }

  /** The count is symmetric, 0 for two contacts with one id, below the number
      of contacts, and fails only on an empty routing table. */
  lemma SeparatingNodesCountProperties(bs: seq<Bucket>, a: Contact, b: Contact)
    ensures SeparatingNodesCount(bs, a, b) == SeparatingNodesCount(bs, b, a)
    ensures SeparatingNodesCount(bs, a, b).Err? <==> AllContacts(bs) == []
    ensures SeparatingNodesCount(bs, a, b).Err? ==> SeparatingNodesCount(bs, a, b).error == IndexError
    ensures a.id == b.id && AllContacts(bs) != [] ==> SeparatingNodesCount(bs, a, b) == Ok(0)
    ensures SeparatingNodesCount(bs, a, b).Ok? ==> SeparatingNodesCount(bs, a, b).value < |AllContacts(bs)|
  {
  }

  /** find_value's answer: found, contacts (always None) and the value. */
  datatype FindReply = FindReply(found: bool, contacts: Option<seq<Contact>>, val: Option<string>)

  /** The answer or exception, the bookkeeping after the call, and the
      contact and expiration time of the store RPC it made, if any. */
  datatype FindOutcome = FindOutcome(result: Result<FindReply>, book: Book, storedTo: Option<(Contact, nat)>)

  /** The expiration time of a cached copy: EXPIRATION_TIME_SEC // 2 **
      separating, the full day with no separating contact. */
  function ExpirationFor(separating: nat): (r: nat)
    ensures r <= EXPIRATION_TIME_SEC
    ensures separating == 0 ==> r == EXPIRATION_TIME_SEC
  {
    DivisionBounds(EXPIRATION_TIME_SEC, Pow2(separating));
    EXPIRATION_TIME_SEC / Pow2(separating)
  }

  lemma DivisionBounds(n: nat, d: nat)
    requires d >= 1
    ensures 0 <= n / d <= n
  {
    var q := n / d;
    assert q * d + n % d == n;
    assert q < 0 ==> q * d <= 0 - d;
    assert q > n ==> q * d > n;
  }

  /** store_to.protocol.store(sender, key, val, exp_time_sec), as an oracle. */
  type StoreRpc = (Contact, ID, Option<string>, nat) -> Option<RPCError>

  /** The first contact whose id differs from found_by's; reading found_by's
      id fails when it is None. */
  function FirstOther(cs: seq<Contact>, foundBy: Option<Contact>): (r: Result<Option<Contact>>)
    ensures r.Err? <==> cs != [] && foundBy.None?
    ensures r.Err? ==> r.error == AttributeError
    ensures r.Ok? && r.value.Some? ==>
      exists k :: 0 <= k < |cs| && cs[k] == r.value.value && cs[k].id != foundBy.value.id &&
        forall j :: 0 <= j < k ==> cs[j].id == foundBy.value.id
    ensures r == Ok(None) ==> forall c :: c in cs ==> c.id == foundBy.value.id
  {
    if cs == [] then Ok(None)
    else if foundBy.None? then Err(AttributeError)
    else if cs[0].id != foundBy.value.id then Ok(Some(cs[0]))
    else
      var rest := FirstOther(cs[1..], foundBy);
      assert forall c :: c in cs ==> c == cs[0] || c in cs[1..];
      assert rest.Ok? && rest.value.Some? ==>
        exists k :: 0 <= k < |cs| && cs[k] == rest.value.value && cs[k].id != foundBy.value.id &&
          forall j :: 0 <= j < k ==> cs[j].id == foundBy.value.id
      by {
        if rest.Ok? && rest.value.Some? {
          var k :| 0 <= k < |cs[1..]| && cs[1..][k] == rest.value.value && cs[1..][k].id != foundBy.value.id &&
            forall j :: 0 <= j < k ==> cs[1..][j].id == foundBy.value.id;
          assert cs[k + 1] == rest.value.value;
          forall j | 0 <= j < k + 1
            ensures cs[j].id == foundBy.value.id
          {
            if j > 0 {
              assert cs[j] == cs[1..][j - 1];
            }
          }
        }
      }
      rest
  }

  /** The loop of find_value that picks store_to: the first contact whose id
      is not found_by's, reading found_by's id on every step. */
  method FindStoreTo(cs: seq<Contact>, foundBy: Option<Contact>) returns (r: Result<Option<Contact>>)
    ensures r == FirstOther(cs, foundBy)
  {
    var i := 0;
    while i < |cs|
      invariant 0 <= i <= |cs|
      invariant FirstOther(cs, foundBy) == FirstOther(cs[i..], foundBy)
    {
      if foundBy.None? {
        return Err(AttributeError);
      }
      if cs[i].id != foundBy.value.id {
        return Ok(Some(cs[i]));
      }
      assert cs[i..][1..] == cs[i + 1..];
      i := i + 1;
    }
    return Ok(None);
  }

  /** After a lookup that found the value: cache it on the first returned
      contact not equal to the finder, with an expiration time halved once per
      separating contact, and count a failed store against that contact. */
  function CacheFound(book: Book, ourContact: Contact, key: ID, l: Routers.FindResult, store: StoreRpc): (o: FindOutcome)
    ensures o.result.Ok? ==> o.result.value == FindReply(true, None, l.val)
    ensures o.storedTo.Some? ==>
      && o.storedTo.value.0 in l.contacts
      && l.foundBy.Some? && o.storedTo.value.0.id != l.foundBy.value.id
      && SeparatingNodesCount(book.buckets, ourContact, o.storedTo.value.0).Ok?
      && o.storedTo.value.1 == ExpirationFor(SeparatingNodesCount(book.buckets, ourContact, o.storedTo.value.0).value)
  {
    match FirstOther(l.contacts, l.foundBy)
    case Err(e) => FindOutcome(Err(e), book, None)
    case Ok(None) => FindOutcome(Ok(FindReply(true, None, l.val)), book, None)
    case Ok(Some(storeTo)) =>
      match SeparatingNodesCount(book.buckets, ourContact, storeTo)
      case Err(e) => FindOutcome(Err(e), book, None)
      case Ok(separating) =>
        var expTimeSec := ExpirationFor(separating);
        var handled := HandleErrorSpec(Package, book, store(storeTo, key, l.val, expTimeSec), storeTo);
        FindOutcome(if handled.raised.Some? then Err(handled.raised.value) else Ok(FindReply(true, None, l.val)),
                    handled.book, Some((storeTo, expTimeSec)))
  }

  /** What rpc_find_value hands back, and our DHT's bookkeeping after it. */
  datatype RpcOutcome = RpcOutcome(reply: Result<Routers.RpcReply>, book: Book)

  /** rpc_find_value(key, contact) on a router whose dht is this DHT
      (kademlia/dht.py:125): handle_error(error, contact) runs first, and an
      exception it raises leaves rpc_find_value before any reply is built. */
  function RpcFindValueSpec(book: Book, contact: Contact, others: Option<seq<Contact>>, val: Option<string>,
                            error: Option<RPCError>): (o: RpcOutcome)
    ensures NoErrorReported(error) ==> o == RpcOutcome(Routers.FindValueReply(contact, others, val, error), book)
    ensures !NoErrorReported(error) ==> o.book == HandleErrorSpec(Package, book, error, contact).book
    ensures o.reply.Ok? && !NoErrorReported(error) ==> o.reply.value == Routers.RpcReply([], None, None)
    ensures o.reply.Err? && !NoErrorReported(error) ==>
      HandleErrorSpec(Package, book, error, contact).raised == Some(o.reply.error)
  {
    var handled := HandleErrorSpec(Package, book, error, contact);
    if handled.raised.Some? then RpcOutcome(Err(handled.raised.value), handled.book)
    else RpcOutcome(Routers.FindValueReply(contact, others, val, error), handled.book)
  }

  /** The handle_error calls that the rpc_find_value calls of a lookup make,
      in order, each with the queried contact and its error record: the
      first exception ends the lookup. The counts stay below the limit and
      the pending ids stay distinct, and no bucket is lost. */
  function HandleErrors(book: Book, trace: seq<(Contact, Option<RPCError>)>): (o: Outcome)
    ensures |o.book.buckets| == |book.buckets|
    ensures (forall k :: 0 <= k < |trace| ==> NoErrorReported(trace[k].1)) ==> o == Outcome(None, book)
    ensures DistinctIds(book.pending) ==> DistinctIds(o.book.pending)
    ensures BelowLimit(book.evictionCount) && book.buckets != [] ==> BelowLimit(o.book.evictionCount)
    decreases |trace|
  {
    if trace == [] then Outcome(None, book)
    else
      var first := HandleErrorSpec(Package, book, trace[0].1, trace[0].0);
      assert DistinctIds(book.pending) ==> DistinctIds(first.book.pending) by {
        if DistinctIds(book.pending) {
          HandleErrorKeepsPendingDistinct(Package, book, trace[0].1, trace[0].0);
        }
      }
      assert BelowLimit(book.evictionCount) && book.buckets != [] ==> BelowLimit(first.book.evictionCount) by {
        if BelowLimit(book.evictionCount) && book.buckets != [] {
          HandleErrorKeepsBelowLimit(book, trace[0].1, trace[0].0);
        }
      }
      assert (forall k :: 0 <= k < |trace| ==> NoErrorReported(trace[k].1)) ==>
             forall k :: 0 <= k < |trace[1..]| ==> NoErrorReported(trace[1..][k].1) by {
        forall k | 0 <= k < |trace[1..]| ensures trace[1..][k] == trace[k + 1] { }
      }
      if first.raised.Some? then first else HandleErrors(first.book, trace[1..])
  }

  /** find_value(key) of kademlia/dht.py: touch the key's bucket, then take
      the first truthy value of the originator, republish and cache storage;
      only without one ask the router's lookup. The lookup's result and the
      handle_error calls its rpc_find_value calls made are arguments; an
      exception from those calls is find_value's. With nothing anywhere,
      found is the cache's found flag. */
  function FindValueSpec(book: Book, ourContact: Contact, key: ID, originator: Store, republish: Store,
                         cache: Store, trace: seq<(Contact, Option<RPCError>)>,
                         lookup: Result<Routers.FindResult>, store: StoreRpc): (o: FindOutcome)
    ensures o.result.Ok? ==> o.result.value.contacts.None?
    ensures |o.book.buckets| == |book.buckets|
  {
    match GetKBucket(book.buckets, key)
    case Err(e) => FindOutcome(Err(e), book, None)
    case Ok(_) =>
      var fromOriginator := TryGetValue(originator, key);
      if Truthy(fromOriginator.1) then FindOutcome(Ok(FindReply(true, None, fromOriginator.1)), book, None)
      else
        var fromRepublish := TryGetValue(republish, key);
        if Truthy(fromRepublish.1) then FindOutcome(Ok(FindReply(true, None, fromRepublish.1)), book, None)
        else
          var fromCache := TryGetValue(cache, key);
          if Truthy(fromCache.1) then FindOutcome(Ok(FindReply(true, None, fromCache.1)), book, None)
          else
            var during := HandleErrors(book, trace);
            if during.raised.Some? then FindOutcome(Err(during.raised.value), during.book, None)
            else
              match lookup
              case Err(e) => FindOutcome(Err(e), during.book, None)
              case Ok(l) =>
                if !l.found then FindOutcome(Ok(FindReply(fromCache.0, None, None)), during.book, None)
                else CacheFound(during.book, ourContact, key, l, store)
  }

  /** A value held locally is returned from the first storage holding one,
      whatever the lookup and the store RPC would do, and nothing changes. */
  lemma FindValueLocalFirst(book: Book, ourContact: Contact, key: ID, originator: Store, republish: Store,
                            cache: Store, trace: seq<(Contact, Option<RPCError>)>,
                            lookup: Result<Routers.FindResult>, store: StoreRpc,
                            trace': seq<(Contact, Option<RPCError>)>,
                            lookup': Result<Routers.FindResult>, store': StoreRpc)
    requires book.buckets != []
    requires (key in originator.entries && originator.entries[key].value != "") ||
             (key in republish.entries && republish.entries[key].value != "") ||
             (key in cache.entries && cache.entries[key].value != "")
    ensures var o := FindValueSpec(book, ourContact, key, originator, republish, cache, trace, lookup, store);
      var v := if key in originator.entries && originator.entries[key].value != "" then originator.entries[key].value
               else if key in republish.entries && republish.entries[key].value != "" then republish.entries[key].value
               else cache.entries[key].value;
      && o == FindValueSpec(book, ourContact, key, originator, republish, cache, trace', lookup', store')
      && o == FindOutcome(Ok(FindReply(true, None, Some(v))), book, None)
  {
  }

  /** Without a local value and with a lookup that finds nothing, the reply
      has no value and takes its found flag from the cache: True for a key the
      cache holds with an empty value. The bookkeeping is what the lookup's
      handle_error calls left. */
  lemma FindValueNotFound(book: Book, ourContact: Contact, key: ID, originator: Store, republish: Store,
                          cache: Store, trace: seq<(Contact, Option<RPCError>)>, l: Routers.FindResult,
                          store: StoreRpc)
    requires book.buckets != [] && !l.found
    requires !Truthy(TryGetValue(originator, key).1) && !Truthy(TryGetValue(republish, key).1)
    requires !Truthy(TryGetValue(cache, key).1)
    requires HandleErrors(book, trace).raised.None?
    ensures FindValueSpec(book, ourContact, key, originator, republish, cache, trace, Ok(l), store)
         == FindOutcome(Ok(FindReply(key in cache.entries, None, None)), HandleErrors(book, trace).book, None)
  {
  }

  /** find_value keeps the DHT's invariants: the pending ids stay distinct
      and, on a non-empty routing table, every eviction count stays below
      EVICTION_LIMIT, through the lookup's handle_error calls and the failed
      store of the caching step. */
  lemma FindValueKeepsInvariants(book: Book, ourContact: Contact, key: ID, originator: Store, republish: Store,
                                 cache: Store, trace: seq<(Contact, Option<RPCError>)>,
                                 lookup: Result<Routers.FindResult>, store: StoreRpc)
    requires DistinctIds(book.pending) && BelowLimit(book.evictionCount) && book.buckets != []
    ensures var o := FindValueSpec(book, ourContact, key, originator, republish, cache, trace, lookup, store);
      DistinctIds(o.book.pending) && BelowLimit(o.book.evictionCount)
  {
    var during := HandleErrors(book, trace);
    if during.raised.None? && lookup.Ok? && lookup.value.found {
      var l := lookup.value;
      match FirstOther(l.contacts, l.foundBy)
      case Err(_) =>
      case Ok(None) =>
      case Ok(Some(storeTo)) =>
        match SeparatingNodesCount(during.book.buckets, ourContact, storeTo)
        case Err(_) =>
        case Ok(separating) =>
          var err := store(storeTo, key, l.val, ExpirationFor(separating));
          HandleErrorKeepsPendingDistinct(Package, during.book, err, storeTo);
          HandleErrorKeepsBelowLimit(during.book, err, storeTo);
    }
  }

  // ------------------------------------------------------------------
  // Node.find_value of kademlia.py
  // ------------------------------------------------------------------

  /** Node.find_value(key, sender): the node's storage first, then its cache
      storage, else up to K close contacts excluding the sender; a query from
      our own id raises SendingQueryToSelfError. */
  function NodeFindValue(ourId: ID, bs: seq<Bucket>, storage: Store, cache: Store, key: ID, sender: Contact)
    : (r: Result<(Option<seq<Contact>>, Option<string>)>)
    requires Valid(storage) && Valid(cache)
    ensures r.Err? <==> sender.id == ourId
    ensures r.Err? ==> r.error == SendingQueryToSelfError
    ensures r.Ok? && key in storage.entries ==> r.value == (None, Some(storage.entries[key].value))
    ensures r.Ok? && key !in storage.entries && key in cache.entries ==> r.value == (None, Some(cache.entries[key].value))
    ensures r.Ok? && key !in storage.entries && key !in cache.entries ==>
      r.value == (Some(CloseContacts(bs, key, sender.id)), None)
  {
    if sender.id == ourId then Err(SendingQueryToSelfError)
    else if Contains(storage, key) then
      (match Get(storage, IdKey(key))
       case Ok(v) => Ok((None, Some(v)))
       case Err(e) => Err(e))
    else if Contains(cache, key) then
      (match Get(cache, IdKey(key))
       case Ok(v) => Ok((None, Some(v)))
       case Err(e) => Err(e))
    else Ok((Some(CloseContacts(bs, key, sender.id)), None))
  }

  /** The contacts Node.find_value returns are at most K, none of them the
      sender, in ascending distance to the key. */
  lemma NodeFindValueContacts(ourId: ID, bs: seq<Bucket>, storage: Store, cache: Store, key: ID, sender: Contact)
    requires Valid(storage) && Valid(cache)
    requires sender.id != ourId && key !in storage.entries && key !in cache.entries
    ensures var r := NodeFindValue(ourId, bs, storage, cache, key, sender);
      && r.Ok? && r.value.0.Some? && r.value.1.None?
      && |r.value.0.value| <= K
      && (forall c :: c in r.value.0.value ==> c.id != sender.id && c in AllContacts(bs))
      && (forall i, j :: 0 <= i < j < |r.value.0.value| ==> Xor(r.value.0.value[i].id, key) <= Xor(r.value.0.value[j].id, key))
  {
    CloseContactsCorrect(bs, key, sender.id);
  }

  // ------------------------------------------------------------------
  // _remove_expired_data
  // ------------------------------------------------------------------

  /** An entry is expired once its age reaches its expiration time. */
  predicate Expired(v: StoreValue, now: int)
  {
    now - v.republishTimestamp >= v.expirationTime
  }

  /** The expired keys, in get_keys() order. */
  function ExpiredKeys(keys: seq<int>, entries: map<int, StoreValue>, now: int): (r: seq<int>)
    requires forall k :: k in keys ==> k in entries
    ensures forall k :: k in r <==> k in keys && Expired(entries[k], now)
  {
    if keys == [] then []
    else
      var rest := ExpiredKeys(keys[1..], entries, now);
      assert forall k :: k in keys <==> k == keys[0] || k in keys[1..];
      if Expired(entries[keys[0]], now) then [keys[0]] + rest else rest
  }

  /** keys without those listed in gone, in order. */
  function Keep(keys: seq<int>, gone: seq<int>): (r: seq<int>)
    ensures forall k :: k in r <==> k in keys && k !in gone
  {
    if keys == [] then []
    else
      var rest := Keep(keys[1..], gone);
      assert forall k :: k in keys <==> k == keys[0] || k in keys[1..];
      if keys[0] in gone then rest else [keys[0]] + rest
  }

  lemma {:induction false} KeepSnoc(keys: seq<int>, gone: seq<int>, key: int)
    ensures Keep(keys, gone + [key]) == WithoutKey(Keep(keys, gone), key)
    decreases |keys|
  {
    if keys != [] {
      KeepSnoc(keys[1..], gone, key);
      assert keys[0] in gone + [key] <==> keys[0] in gone || keys[0] == key;
    }
  }

  lemma {:induction false} KeepNothing(keys: seq<int>)
    ensures Keep(keys, []) == keys
    decreases |keys|
  {
    if keys != [] {
      KeepNothing(keys[1..]);
    }
  }

  lemma {:induction false} WithoutAbsentKey(keys: seq<int>, key: int)
    requires key !in keys
    ensures WithoutKey(keys, key) == keys
    decreases |keys|
  {
    if keys != [] {
      WithoutAbsentKey(keys[1..], key);
    }
  }

  /** The store without the keys listed in gone. */
  function Purged(s: Store, gone: seq<int>): Store
  {
    Store(map k | k in s.entries && k !in gone :: s.entries[k], Keep(s.keys, gone))
  }

  lemma PurgedNothing(s: Store)
    requires Valid(s)
    ensures Purged(s, []) == s
  {
    KeepNothing(s.keys);
  }

  /** Purging one more key is removing it, when it is still there. */
  lemma PurgedSnoc(s: Store, gone: seq<int>, key: int)
    requires Valid(s)
    ensures var p := Purged(s, gone);
      Purged(s, gone + [key]) == if key in p.entries then Removed(p, key) else p
  {
    var p := Purged(s, gone);
    KeepSnoc(s.keys, gone, key);
    if key !in p.entries {
      WithoutAbsentKey(p.keys, key);
    }
  }

  /** The store with its expired entries gone: the purge of the keys the
      comprehension of _remove_expired_data collects. */
  function Unexpired(s: Store, now: int): (t: Store)
    requires Valid(s)
  {
    Purged(s, ExpiredKeys(s.keys, s.entries, now))
  }

  /** Purging keeps the store well formed, leaves no expired entry and keeps
      every younger one unchanged. */
  lemma UnexpiredCorrect(s: Store, now: int)
    requires Valid(s)
    ensures var t := Unexpired(s, now);
      && Valid(t)
      && (forall k :: k in t.entries ==> !Expired(t.entries[k], now))
      && (forall k :: k in s.entries && !Expired(s.entries[k], now) ==> k in t.entries && t.entries[k] == s.entries[k])
      && (forall k :: k in t.entries ==> k in s.entries)
  {
    var t := Unexpired(s, now);
    KeepDistinct(s.keys, ExpiredKeys(s.keys, s.entries, now));
  }

  lemma {:induction false} KeepDistinct(keys: seq<int>, gone: seq<int>)
    requires DistinctKeys(keys)
    ensures DistinctKeys(Keep(keys, gone))
    decreases |keys|
  {
    if keys != [] {
      assert DistinctKeys(keys[1..]) by {
        assert forall i :: 0 <= i < |keys[1..]| ==> keys[1..][i] == keys[i + 1];
      }
      KeepDistinct(keys[1..], gone);
      assert keys[0] !in keys[1..] by {
        assert forall i :: 0 <= i < |keys[1..]| ==> keys[1..][i] == keys[i + 1];
      }
      if keys[0] !in gone {
        DistinctConsKey(keys[0], Keep(keys[1..], gone));
      }
    }
  }

  /** _remove_expired_data(store) at time now: collect the expired keys, then
      remove them one by one. */
  method RemoveExpiredData(vs: VirtualStorage, now: int)
    requires Valid(vs.store)
    modifies vs
    ensures vs.store == Unexpired(old(vs.store), now)
  {
    var expired := ExpiredKeys(GetKeys(vs.store), vs.store.entries, now);
    RemoveEach(vs, expired);
  }

  /** `for key in keys: store.remove(key)`. */
  method RemoveEach(vs: VirtualStorage, keys: seq<int>)
    requires Valid(vs.store)
    modifies vs
    ensures vs.store == Purged(old(vs.store), keys)
  {
    ghost var s0 := vs.store;
    PurgedNothing(s0);
    for i := 0 to |keys|
      invariant Valid(vs.store)
      invariant vs.store == Purged(s0, keys[..i])
    {
      PurgedSnoc(s0, keys[..i], keys[i]);
      assert keys[..i + 1] == keys[..i] + [keys[i]];
      vs.Remove(keys[i]);
    }
    assert keys[..|keys|] == keys;
  }

  // ------------------------------------------------------------------
  // The DHT object
  // ------------------------------------------------------------------

  class DHT {
    /** Package: kademlia/dht.py; Monolith: the DHT of kademlia.py. */
    const copy: Copy
    const ourContact: Contact
    const originatorStorage: VirtualStorage
    const republishStorage: VirtualStorage
    const cacheStorage: VirtualStorage
    var evictionCount: map<int, nat>
    var pendingContacts: seq<Contact>
    var buckets: seq<Bucket>

    function State(): Book
      reads this
    {
      Book(evictionCount, pendingContacts, buckets)
    }

    /** A DHT over the given storages and routing table: no eviction counts
        and no pending contacts. */
    constructor (copy: Copy, ourContact: Contact, originator: VirtualStorage, republish: VirtualStorage,
                 cache: VirtualStorage, buckets: seq<Bucket>)
      ensures this.copy == copy && this.ourContact == ourContact
      ensures originatorStorage == originator && republishStorage == republish && cacheStorage == cache
      ensures State() == Book(map[], [], buckets)
    {
      this.copy := copy;
      this.ourContact := ourContact;
      originatorStorage := originator;
      republishStorage := republish;
      cacheStorage := cache;
      evictionCount := map[];
      pendingContacts := [];
      this.buckets := buckets;
    }

    /** _add_contact_to_evict(key): one more attempt, returned. */
    method AddContactToEvict(key: int) returns (count: nat)
      modifies this
      ensures evictionCount == Bumped(old(evictionCount), key) && count == evictionCount[key]
      ensures pendingContacts == old(pendingContacts) && buckets == old(buckets)
    {
      if key !in evictionCount {
        evictionCount := evictionCount[key := 0];
      }
      evictionCount := evictionCount[key := evictionCount[key] + 1];
      count := evictionCount[key];
    }

    /** _evict_contact(bucket, to_evict), the bucket given by its index. */
    method EvictContact(i: nat, toEvict: Contact) returns (raised: Option<Exception>)
      requires i < |buckets|
      modifies this
      ensures Outcome(raised, State()) == EvictSpec(old(State()), i, toEvict)
    {
      if toEvict.id in evictionCount {
        evictionCount := evictionCount - {toEvict.id};
      }
      if !HasId(buckets[i].contacts, toEvict.id) {
        return Some(BucketDoesNotContainContactToEvictError);
      }
      match EvictFromBucket(buckets[i], toEvict)
      case Err(e) => raised := Some(e);
      case Ok(b) =>
        buckets := buckets[i := b];
        raised := None;
    }

    /** _replace_with_pending_contact(bucket), the bucket given by its index. */
    method ReplaceWithPendingContact(i: nat) returns (raised: Option<Exception>)
      requires i < |buckets|
      modifies this
      ensures Outcome(raised, State()) == ReplaceWithPendingSpec(old(State()), i)
    {
      var cands := Candidates(pendingContacts, buckets, i);
      if cands == [] {
        return Some(IndexError);
      }
      var contact := SortOn(cands, LastSeen)[|cands| - 1];
      assert contact in multiset(cands);
      ghost var before := State();
      pendingContacts := RemoveFirst(pendingContacts, contact);
      var added := AddToBucket(Package, buckets[i], contact);
      if added.Err? {
        raised := Some(added.error);
      } else {
        buckets := buckets[i := added.value];
        raised := None;
      }
      assert ReplaceWithPendingSpec(before, i) ==
        if added.Err? then Outcome(Some(added.error), before.(pending := pendingContacts))
        else Outcome(None, before.(pending := pendingContacts, buckets := buckets));
    }

    /** _replace_contact(to_evict). */
    method ReplaceContact(toEvict: Contact) returns (raised: Option<Exception>)
      modifies this
      ensures Outcome(raised, State()) == ReplaceContactSpec(old(State()), toEvict)
    {
      match GetKBucket(buckets, toEvict.id)
      case Err(e) => raised := Some(e);
      case Ok(i) =>
        raised := EvictContact(i, toEvict);
        if raised.None? {
          raised := ReplaceWithPendingContact(i);
        }
    }

    /** handle_error(error, contact). */
    method HandleError(error: Option<RPCError>, contact: Contact) returns (raised: Option<Exception>)
      modifies this
      ensures Outcome(raised, State()) == HandleErrorSpec(copy, old(State()), error, contact)
    {
      if copy == Monolith {
        var _ := AddContactToEvict(contact.id);
        return Some(AttributeError);
      }
      raised := None;
      if ErrorIsTruthy(error) && HasError(error.value) {
        var count := AddContactToEvict(contact.id);
        if count >= EVICTION_LIMIT {
          raised := ReplaceContact(contact);
        }
      }
    }

    /** delay_eviction(to_evict, to_replace). */
    method DelayEviction(toEvict: Contact, toReplace: Contact) returns (raised: Option<Exception>)
      modifies this
      ensures Outcome(raised, State()) == DelayEvictionSpec(copy, old(State()), toEvict, toReplace)
    {
      if toReplace.id !in IdsOf(pendingContacts) {
        pendingContacts := pendingContacts + [toReplace];
      }
      var count := AddContactToEvict(toEvict.id);
      if copy == Monolith {
        return Some(AttributeError);
      }
      raised := None;
      if count == EVICTION_LIMIT {
        raised := ReplaceContact(toEvict);
      }
    }

    /** What BucketList.add_contact's full-bucket branch asks of the DHT. */
    method Deferred(d: Deferred) returns (raised: Option<Exception>)
      modifies this
      ensures Outcome(raised, State()) == DeferredSpec(copy, old(State()), d)
    {
      match d
      case NoDeferral => raised := None;
      case DelayEviction(toEvict, toReplace) => raised := DelayEviction(toEvict, toReplace);
      case AddToPending(_) => raised := Some(AttributeError);
    }

    /** _get_separating_nodes_count(a, b). */
    method GetSeparatingNodesCount(a: Contact, b: Contact) returns (r: Result<nat>)
      ensures r == SeparatingNodesCount(buckets, a, b)
    {
      var ids := SortedIds(buckets);
      var ia := GetClosestNumberIndex(ids, a.id);
      if ia.Err? {
        return Err(ia.error);
      }
      var ib := GetClosestNumberIndex(ids, b.id);
      r := Ok(Abs(ia.value - ib.value));
    }

    /** rpc_find_value(key, contact) from the DHT's side: handle_error first,
        then the reply the router builds. */
    method RpcFindValue(contact: Contact, others: Option<seq<Contact>>, val: Option<string>,
                        error: Option<RPCError>) returns (r: Result<Routers.RpcReply>)
      requires copy == Package
      modifies this
      ensures RpcOutcome(r, State()) == RpcFindValueSpec(old(State()), contact, others, val, error)
    {
      var raised := HandleError(error, contact);
      if raised.Some? {
        return Err(raised.value);
      }
      r := Routers.RpcFindValue(contact, others, val, error);
    }

    /** The handle_error calls of a lookup's rpc_find_value calls, in order,
        up to the first that raises. */
    method HandleLookupErrors(trace: seq<(Contact, Option<RPCError>)>) returns (raised: Option<Exception>)
      requires copy == Package
      modifies this
      ensures Outcome(raised, State()) == HandleErrors(old(State()), trace)
    {
      var i := 0;
      while i < |trace|
        invariant 0 <= i <= |trace|
        invariant HandleErrors(old(State()), trace) == HandleErrors(State(), trace[i..])
      {
        assert trace[i..][0] == trace[i] && trace[i..][1..] == trace[i + 1..];
        raised := HandleError(trace[i].1, trace[i].0);
        if raised.Some? {
          return;
        }
        i := i + 1;
      }
      raised := None;
    }

    /** find_value(key), with the router's lookup result, the handle_error
        calls its RPCs made, and the store RPC as arguments (kademlia/dht.py
        only). */
    method FindValue(key: ID, trace: seq<(Contact, Option<RPCError>)>, lookup: Result<Routers.FindResult>,
                     store: StoreRpc)
      returns (r: Result<FindReply>, storedTo: Option<(Contact, nat)>)
      requires copy == Package
      modifies this
      ensures FindOutcome(r, State(), storedTo)
           == FindValueSpec(old(State()), ourContact, key, originatorStorage.store, republishStorage.store,
                            cacheStorage.store, trace, lookup, store)
    {
      storedTo := None;
      if buckets == [] {
        return Err(OutOfRangeError), None;
      }
      var fromOriginator := TryGetValue(originatorStorage.store, key);
      if Truthy(fromOriginator.1) {
        return Ok(FindReply(true, None, fromOriginator.1)), None;
      }
      var fromRepublish := TryGetValue(republishStorage.store, key);
      if Truthy(fromRepublish.1) {
        return Ok(FindReply(true, None, fromRepublish.1)), None;
      }
      var fromCache := TryGetValue(cacheStorage.store, key);
      if Truthy(fromCache.1) {
        return Ok(FindReply(true, None, fromCache.1)), None;
      }
      var raised := HandleLookupErrors(trace);
      if raised.Some? {
        return Err(raised.value), None;
      }
      if lookup.Err? {
        return Err(lookup.error), None;
      }
      var l := lookup.value;
      if !l.found {
        return Ok(FindReply(fromCache.0, None, None)), None;
      }
      r, storedTo := CacheFoundValue(key, l, store);
    }

    /** The caching step of find_value after a lookup that found the value. */
    method CacheFoundValue(key: ID, l: Routers.FindResult, store: StoreRpc)
      returns (r: Result<FindReply>, storedTo: Option<(Contact, nat)>)
      requires copy == Package
      modifies this
      ensures FindOutcome(r, State(), storedTo) == CacheFound(old(State()), ourContact, key, l, store)
    {
      storedTo := None;
      var other := FindStoreTo(l.contacts, l.foundBy);
      if other.Err? {
        return Err(other.error), None;
      }
      r := Ok(FindReply(true, None, l.val));
      if other.value.Some? {
        var storeTo := other.value.value;
        var separating := GetSeparatingNodesCount(ourContact, storeTo);
        if separating.Err? {
          return Err(separating.error), None;
        }
        var expTimeSec := ExpirationFor(separating.value);
        var error := store(storeTo, key, l.val, expTimeSec);
        storedTo := Some((storeTo, expTimeSec));
        var raised := HandleError(error, storeTo);
        if raised.Some? {
          r := Err(raised.value);
        }
      }
    }
  }
}
