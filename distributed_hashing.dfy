/** The Bucket of distributed-hashing.py: a list of [IP, port, NodeID]
    triples that grows while its length is at most k_size, so it can reach
    k_size + 1 entries, and then replaces its last entry when a ping finds
    that entry unavailable. The ping is an argument. */
module DistributedHashing {
  import opened Wrappers
  import opened DhtPrototype

  /** kademlia_protocol.ping(IP, port): True when the peer answers. */
  type Ping = (string, int) -> bool

  class Bucket {
    const kSize: int
    var bucket: seq<Peer>

    /** The body of Bucket(k_size) once the size check has passed. */
    constructor (kSize: int)
      requires kSize >= 0
      ensures this.kSize == kSize && bucket == [] && Valid()
    {
      this.kSize := kSize;
      bucket := [];
    }

    /** The size is not negative and the bucket holds at most k_size + 1
        triples. */
    predicate Valid()
      reads this
    {
      kSize >= 0 && |bucket| <= kSize + 1
    }

    /** add(IP, port, NodeID): appended while len <= k_size; on a longer
        bucket the last triple is overwritten when its peer does not answer
        the ping, and nothing changes when it does. */
    method Add(ip: string, port: int, nodeId: int, ping: Ping) returns ()
      requires Valid()
      modifies this
      ensures Valid() && |bucket| >= |old(bucket)|
      ensures |old(bucket)| <= kSize ==> bucket == old(bucket) + [Peer(ip, port, nodeId)]
      ensures |old(bucket)| > kSize ==>
        var last := old(bucket)[|old(bucket)| - 1];
        bucket == if ping(last.ip, last.port) then old(bucket)
                  else old(bucket)[..|old(bucket)| - 1] + [Peer(ip, port, nodeId)]
      ensures |old(bucket)| == kSize ==> |bucket| == kSize + 1
    {
      if |bucket| <= kSize {
        bucket := bucket + [Peer(ip, port, nodeId)];
      } else {
        var last := bucket[|bucket| - 1];
        var isAvailable := ping(last.ip, last.port);
        if !isAvailable {
          bucket := bucket[|bucket| - 1 := Peer(ip, port, nodeId)];
        }
      }
    }

    /** pop(): the first triple, removed; IndexError when empty. */
    method Pop() returns (r: Result<Peer>)
      requires Valid()
      modifies this
      ensures Valid()
      ensures old(bucket) == [] ==> r == Err(IndexError) && bucket == old(bucket)
      ensures old(bucket) != [] ==> r == Ok(old(bucket)[0]) && bucket == old(bucket)[1..]
    {
      if |bucket| == 0 {
        return Err(IndexError);
      }
      var popped := bucket[0];
      bucket := bucket[1..];
      r := Ok(popped);
    }
  }

  /** Bucket(k_size): ValueError for a negative size, else an empty bucket. */
  method NewBucket(kSize: int) returns (r: Result<Bucket>)
    ensures r.Err? <==> kSize < 0
    ensures r.Err? ==> r.error == ValueError
    ensures r.Ok? ==> fresh(r.value) && r.value.kSize == kSize && r.value.bucket == [] && r.value.Valid()
  {
    if kSize < 0 {
      return Err(ValueError);
    }
    var b := new Bucket(kSize);
    r := Ok(b);
  }
}
