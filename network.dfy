/** The prototype routing table of kademlia/network.py: a k-bucket with a
    fixed range [0, 2^160] that appends contacts after two guards, and a
    bucket list whose add_contact does nothing yet. */
module Network {
  import opened Wrappers
  import opened Ids
  import opened NodeIds

  /** Contact(contact_ID): its id is a kademlia/node.py ID. */
  datatype Contact = Contact(id: PositiveId)

  class KBucket {
    var contacts: seq<Contact>
    var low: int
    var high: int
    var k: int

    /** KBucket(k=20): empty, over the range [0, 2^160]. */
    constructor (k: int)
      ensures contacts == [] && low == 0 && high == Pow2(160) && this.k == k
      ensures Bounded()
    {
      TwoTo160();
      contacts := [];
      low := 0;
      high := TWO_160;
      this.k := k;
    }

    /** The bucket never holds more than k contacts (none when k <= 0). */
    predicate Bounded()
      reads this
    {
      |contacts| <= (if k < 0 then 0 else k)
    }

    /** bucket_full(): len(contacts) >= k. */
    function BucketFull(): (r: bool)
      reads this
      ensures Bounded() ==> (r <==> |contacts| == (if k < 0 then 0 else k))
    {
      |contacts| >= k
    }

    /** is_in_range(contact): low <= id <= high, inclusive at both ends. */
    function IsInRange(c: Contact): bool
      reads this
    {
      low <= c.id <= high
    }

    /** add_contact(contact): TooManyContactsError when full, OutOfRangeError
        when the id is outside the range, else the contact is appended
        (without a duplicate check). A bucket with the initial range never
        raises OutOfRangeError. */
    method AddContact(c: Contact) returns (raised: Option<Exception>)
      requires Bounded()
      modifies this
      ensures Bounded()
      ensures low == old(low) && high == old(high) && k == old(k)
      ensures old(BucketFull()) ==> raised == Some(TooManyContactsError) && contacts == old(contacts)
      ensures !old(BucketFull()) && !(old(low) <= c.id <= old(high)) ==>
        raised == Some(OutOfRangeError) && contacts == old(contacts)
      ensures !old(BucketFull()) && old(low) <= c.id <= old(high) ==>
        raised == None && contacts == old(contacts) + [c]
      ensures old(low) == 0 && old(high) == Pow2(160) ==> raised != Some(OutOfRangeError)
    {
      TwoTo160();
      if BucketFull() {
        return Some(TooManyContactsError);
      } else if !IsInRange(c) {
        return Some(OutOfRangeError);
      }
      contacts := contacts + [c];
      raised := None;
    }
  }

  class BucketList {
    var buckets: seq<KBucket>
    const ourId: PositiveId

    /** BucketList(our_id): a single k-bucket with the full range and k = 20. */
    constructor (ourId: PositiveId)
      ensures this.ourId == ourId && |buckets| == 1 && fresh(buckets[0])
      ensures buckets[0].contacts == [] && buckets[0].k == 20
      ensures buckets[0].low == 0 && buckets[0].high == Pow2(160)
    {
      var first := new KBucket(20);
      buckets := [first];
      this.ourId := ourId;
    }

    /** add_contact(contact): not implemented; nothing changes. */
    method AddContact(c: Contact)
      ensures unchanged(this)
    {
    }
  }
}
