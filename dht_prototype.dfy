/** The first k-bucket prototype, KademliaBucket of DHT.py: a FIFO list of
    [IP, UDPport, NodeID] triples that refuses a triple once it holds
    k_size of them. */
module DhtPrototype {
  import opened Wrappers

  /** An [IP, port, NodeID] entry of the early prototypes. */
  datatype Peer = Peer(ip: string, port: int, nodeId: int)

  class KademliaBucket {
    const kSize: int
    var bucket: seq<Peer>

    /** KademliaBucket(k_size): empty; the size is not checked. */
    constructor (kSize: int)
      ensures this.kSize == kSize && bucket == [] && Bounded()
    {
      this.kSize := kSize;
      bucket := [];
    }

    /** At most k_size triples (none for a size below 1). */
    predicate Bounded()
      reads this
    {
      |bucket| <= (if kSize < 0 then 0 else kSize)
    }

    /** add(IP, UDPport, NodeID): appends while len < k_size, else raises
        Exception("Bucket full.") and changes nothing. */
    method Add(ip: string, udpPort: int, nodeId: int) returns (raised: Option<Exception>)
      requires Bounded()
      modifies this
      ensures Bounded()
      ensures |old(bucket)| < kSize ==> raised == None && bucket == old(bucket) + [Peer(ip, udpPort, nodeId)]
      ensures |old(bucket)| >= kSize ==> raised == Some(BucketFullException) && bucket == old(bucket)
    {
      if |bucket| < kSize {
        bucket := bucket + [Peer(ip, udpPort, nodeId)];
        raised := None;
      } else {
        raised := Some(BucketFullException);
      }
    }

    /** pop(): the head triple, removed; IndexError on an empty bucket, which
        stays as it is. */
    method Pop() returns (r: Result<Peer>)
      requires Bounded()
      modifies this
      ensures Bounded()
      ensures old(bucket) == [] ==> r == Err(IndexError) && bucket == old(bucket)
      ensures old(bucket) != [] ==> r == Ok(old(bucket)[0]) && bucket == old(bucket)[1..]
    {
      if |bucket| == 0 {
        return Err(IndexError);
      }
      var popped := bucket[0];
      bucket := bucket[1..];
      r := Ok(popped);
    }
  }
}
