/** The prototype Bucket of kademlia/kbucket.py: a list of nodes used as a
    queue, with pop from the front, rotation, and add_contact that moves a
    known node to the tail. Two lines fail as written in Python 3 and are
    modelled by the exception they raise: isFull compares the list with an
    int (TypeError), and add unpacks a pair into three names (ValueError). */
module KBucketPrototype {
  import opened Wrappers
  import opened NodeIds

  /** The index of the first occurrence of x (list.index). */
  function IndexOf<T(==)>(s: seq<T>, x: T): (r: nat)
    requires x in s
    ensures r < |s| && s[r] == x && x !in s[..r]
  {
    if s[0] == x then 0
    else
      assert s == [s[0]] + s[1..];
      var i := IndexOf(s[1..], x);
      assert s[1..][..i] == s[1..i + 1];
      assert s[..i + 1] == [s[0]] + s[1..][..i];
      1 + i
  }

  /** The list with its element at index i taken out and appended. */
  function MovedToTail<T>(s: seq<T>, i: nat): (r: seq<T>)
    requires i < |s|
  {
    s[..i] + s[i + 1..] + [s[i]]
  }

  /** Moving an element to the tail keeps the length and the elements, puts
      that element last and keeps the others in their order. */
  lemma MovedToTailPermutes<T>(s: seq<T>, i: nat)
    requires i < |s|
    ensures var r := MovedToTail(s, i);
      && |r| == |s| && multiset(r) == multiset(s) && r[|r| - 1] == s[i]
      && r[..|r| - 1] == s[..i] + s[i + 1..]
  {
    assert s == s[..i] + [s[i]] + s[i + 1..];
    assert multiset(s) == multiset(s[..i]) + multiset{s[i]} + multiset(s[i + 1..]);
  }

  class Bucket {
    const kSize: int
    var bucket: seq<Node>

    /** The body of Bucket(k_size) once the size check has passed. */
    constructor (kSize: int)
      requires kSize >= 0
      ensures this.kSize == kSize && bucket == []
    {
      this.kSize := kSize;
      bucket := [];
    }

    /** isFull(): `self.bucket >= self.k_size` orders a list against an int,
        which raises TypeError for every bucket. */
    function IsFull(): Result<bool>
    {
      Err(TypeError)
    }

    /** isEmpty(). */
    function IsEmpty(): (r: bool)
      reads this
      ensures r <==> bucket == []
    {
      |bucket| == 0
    }

    /** add(node): appends while len <= k_size; otherwise it reads the last
        node's address as a pair and unpacks it into three names, which
        raises ValueError before any ping. */
    method Add(node: Node) returns (raised: Option<Exception>)
      modifies this
      ensures |old(bucket)| <= kSize ==> raised == None && bucket == old(bucket) + [node]
      ensures |old(bucket)| > kSize ==> raised == Some(ValueError) && bucket == old(bucket)
    {
      if |bucket| <= kSize {
        bucket := bucket + [node];
        raised := None;
      } else {
        raised := Some(ValueError);
      }
    }

    /** pop(): the front node, removed; IndexError when empty. */
    method Pop() returns (r: Result<Node>)
      modifies this
      ensures old(bucket) == [] ==> r == Err(IndexError) && bucket == old(bucket)
      ensures old(bucket) != [] ==> r == Ok(old(bucket)[0]) && bucket == old(bucket)[1..]
    {
      if IsEmpty() {
        return Err(IndexError);
      }
      r := Ok(bucket[0]);
      bucket := bucket[1..];
    }

    /** move_front_to_tail(): appends bucket[0] (IndexError when empty), then
        pops the front. */
    method MoveFrontToTail() returns (raised: Option<Exception>)
      modifies this
      ensures old(bucket) == [] ==> raised == Some(IndexError) && bucket == old(bucket)
      ensures old(bucket) != [] ==> raised == None && bucket == MovedToTail(old(bucket), 0)
    {
      if |bucket| == 0 {
        return Some(IndexError);
      }
      bucket := bucket + [bucket[0]];
      var popped := Pop();
      raised := None;
    }

    /** add_contact(node): a node already in the bucket moves to the tail;
        for any other node isFull raises TypeError. No call ever adds or
        drops a node. */
    method AddContact(node: Node) returns (raised: Option<Exception>)
      modifies this
      ensures node in old(bucket) ==>
        raised == None && bucket == MovedToTail(old(bucket), IndexOf(old(bucket), node))
      ensures node !in old(bucket) ==> raised == Some(TypeError) && bucket == old(bucket)
      ensures multiset(bucket) == multiset(old(bucket))
    {
      if node in bucket {
        var index := IndexOf(bucket, node);
        MovedToTailPermutes(bucket, index);
        var removed := bucket[index];
        bucket := bucket[..index] + bucket[index + 1..];
        bucket := bucket + [removed];
        return None;
      }
      var full := IsFull();
      if full.Err? {
        return Some(full.error);
      }
      raised := None;
    }
  }

  /** Bucket(k_size): ValueError for a negative size, else an empty bucket. */
  method NewBucket(kSize: int) returns (r: Result<Bucket>)
    ensures r.Err? <==> kSize < 0
    ensures r.Err? ==> r.error == ValueError
    ensures r.Ok? ==> fresh(r.value) && r.value.kSize == kSize && r.value.bucket == []
  {
    if kSize < 0 {
      return Err(ValueError);
    }
    var b := new Bucket(kSize);
    r := Ok(b);
  }
}
