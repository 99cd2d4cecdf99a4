/** The serial Kademlia router of kademlia_dht/routers.py and
    kademlia/routers.py (the two copies agree line for line), with the
    closer/further test of kademlia.py's Router.get_closer_nodes. RPCs are
    oracles: an `Rpc` says what querying a contact for a key answers. The
    value-level functions say what each step computes; the Router class
    performs the steps on its closer_contacts and further_contacts fields,
    as the Python classes do, and each method is proved against its function. */
module Routers {
  import opened Wrappers
  import opened Ids
  import opened Contacts
  import opened RpcErrors
  import opened BucketValues

  /** What an rpc_call hands back: the contacts it learnt, the contact that
      found the value, and the value. */
  datatype RpcReply = RpcReply(contacts: seq<Contact>, foundBy: Option<Contact>, val: Option<string>)

  /** An rpc_call(key, contact): its reply, or the exception it raises. */
  type Rpc = (ID, Contact) -> Result<RpcReply>

  /** The FindResult dictionary: found, contacts, found_by, val. */
  datatype FindResult = FindResult(found: bool, contacts: seq<Contact>, foundBy: Option<Contact>, val: Option<string>)

  /** What every step of a lookup shares: the copy whose closer test
      applies, our id, the key looked up and the RPC used. */
  datatype Ctx = Ctx(copy: Copy, ourId: ID, key: ID, rpc: Rpc)

  /** The reply of querying c for the key. */
  function Ask(ctx: Ctx, c: Contact): Result<RpcReply>
  {
    ctx.rpc(ctx.key, c)
  }

  /** Querying c answers without raising and without a value. */
  predicate Silent(ctx: Ctx, c: Contact)
  {
    Ask(ctx, c).Ok? && Ask(ctx, c).value.val.None?
  }

  /** Querying c answers with a value. */
  predicate Answers(ctx: Ctx, c: Contact)
  {
    Ask(ctx, c).Ok? && Ask(ctx, c).value.val.Some?
  }

  /** s[:n] */
  function Take<T>(s: seq<T>, n: nat): (r: seq<T>)
    ensures |r| <= n && |r| <= |s|
    ensures r == s[..|r|]
    ensures n <= |s| ==> |r| == n
    ensures n >= |s| ==> r == s
  {
    if n < |s| then s[..n] else s
  }

  /** s[n:] */
  function Drop<T>(s: seq<T>, n: nat): (r: seq<T>)
    ensures n < |s| ==> r == s[n..]
    ensures n >= |s| ==> r == []
  {
    if n < |s| then s[n..] else []
  }

  // ------------------------------------------------------------------
  // rpc_find_value
  // ------------------------------------------------------------------

  /** The reply rpc_find_value(key, contact) builds once handle_error has
      returned, given what contact.protocol.find_value answered: other
      contacts (None when the peer sent a value instead), the value, and the
      error record. An error with has_error() yields nothing; otherwise the
      contacts are copied, or the value comes back with the queried contact
      as found_by, and a reply with neither raises ValueCannotBeNoneError. */
  function FindValueReply(contact: Contact, others: Option<seq<Contact>>, val: Option<string>,
                          error: Option<RPCError>): (r: Result<RpcReply>)
    ensures !NoErrorReported(error) ==> r == Ok(RpcReply([], None, None))
    ensures NoErrorReported(error) && others.Some? ==> r == Ok(RpcReply(others.value, None, None))
    ensures NoErrorReported(error) && others.None? && val.None? ==> r == Err(ValueCannotBeNoneError)
    ensures NoErrorReported(error) && others.None? && val.Some? ==>
      r == Ok(RpcReply([contact], Some(contact), val))
    ensures r.Ok? ==> (r.value.foundBy.Some? <==> r.value.val.Some?)
  {
    if !NoErrorReported(error) then Ok(RpcReply([], None, None))
    else if others.Some? then Ok(RpcReply(others.value, None, None))
    else if val.None? then Err(ValueCannotBeNoneError)
    else Ok(RpcReply([contact], Some(contact), val))
  }

  /** rpc_find_value(key, contact) after its handle_error call (the DHT side
      of that call is Dht.RpcFindValueSpec): the reply is built by a loop
      that copies the other contacts one by one. */
  method RpcFindValue(contact: Contact, others: Option<seq<Contact>>, val: Option<string>,
                      error: Option<RPCError>) returns (r: Result<RpcReply>)
    ensures r == FindValueReply(contact, others, val, error)
  {
    var nodes: seq<Contact> := [];
    var retVal: Option<string> := None;
    var foundBy: Option<Contact> := None;
    if NoErrorReported(error) {
      if others.Some? {
        var cs := others.value;
        for i := 0 to |cs|
          invariant nodes == cs[..i]
        {
          assert cs[..i + 1] == cs[..i] + [cs[i]];
          nodes := nodes + [cs[i]];
        }
        assert cs[..|cs|] == cs;
      } else if val.None? {
        return Err(ValueCannotBeNoneError);
      } else {
        nodes := nodes + [contact];
        foundBy := Some(contact);
        retVal := val;
        assert nodes == [contact];
      }
    }
    r := Ok(RpcReply(nodes, foundBy, retVal));
  }

  // ------------------------------------------------------------------
  // get_closer_nodes, as values
  // ------------------------------------------------------------------

  /** The contacts of an RPC reply that are neither us nor the queried node
      (the package's further test, `contact not in [closer_contacts,
      further_contacts]`, compares a contact with two lists and always holds). */
  function Peers(cs: seq<Contact>, ourId: ID, queriedId: ID): (r: seq<Contact>)
    ensures forall c :: c in r <==> c in cs && c.id != ourId && c.id != queriedId
  {
    if cs == [] then []
    else
      var last := cs[|cs| - 1];
      assert cs == cs[..|cs| - 1] + [last];
      Peers(cs[..|cs| - 1], ourId, queriedId) + (if last.id != ourId && last.id != queriedId then [last] else [])
  }

  /** The closer test: (p ^ queried) < (queried ^ key) in the packages,
      (p ^ key) < (queried ^ key) in kademlia.py. */
  predicate IsCloser(copy: Copy, p: Contact, queried: Contact, key: ID)
  {
    match copy
    case Package => Xor(p.id, queried.id) < Xor(queried.id, key)
    case Monolith => Xor(p.id, key) < Xor(queried.id, key)
  }

  /** The peers that pass the closer test, in order. */
  function CloserPeers(copy: Copy, ps: seq<Contact>, queried: Contact, key: ID): (r: seq<Contact>)
    ensures forall c :: c in r <==> c in ps && IsCloser(copy, c, queried, key)
  {
    if ps == [] then []
    else
      var last := ps[|ps| - 1];
      assert ps == ps[..|ps| - 1] + [last];
      CloserPeers(copy, ps[..|ps| - 1], queried, key) + (if IsCloser(copy, last, queried, key) then [last] else [])
  }

  /** The peers that fail the closer test, in order. */
  function FurtherPeers(copy: Copy, ps: seq<Contact>, queried: Contact, key: ID): (r: seq<Contact>)
    ensures forall c :: c in r <==> c in ps && !IsCloser(copy, c, queried, key)
  {
    if ps == [] then []
    else
      var last := ps[|ps| - 1];
      assert ps == ps[..|ps| - 1] + [last];
      FurtherPeers(copy, ps[..|ps| - 1], queried, key) + (if !IsCloser(copy, last, queried, key) then [last] else [])
  }

  /** for p in ps: if p.id not in [c.id for c in list]: list.append(p) */
  function AppendNewIds(list: seq<Contact>, ps: seq<Contact>): seq<Contact>
  {
    if ps == [] then list
    else
      var prev := AppendNewIds(list, ps[..|ps| - 1]);
      var p := ps[|ps| - 1];
      if p.id in IdsOf(prev) then prev else prev + [p]
  }

  /** Appending by new ids keeps the list as a prefix and brings in only
      contacts of ps whose id the list lacked. */
  lemma {:induction false} AppendNewIdsPrefix(list: seq<Contact>, ps: seq<Contact>)
    ensures var r := AppendNewIds(list, ps);
      && |list| <= |r| && r[..|list|] == list
      && (forall k :: |list| <= k < |r| ==> r[k] in ps && r[k].id !in IdsOf(list))
    decreases |ps|
  {
    if ps != [] {
      var init := ps[..|ps| - 1];
      var p := ps[|ps| - 1];
      var prev := AppendNewIds(list, init);
      AppendNewIdsPrefix(list, init);
      assert ps == init + [p];
      var r := AppendNewIds(list, ps);
      if p.id !in IdsOf(prev) {
        assert r == prev + [p];
        assert r[..|list|] == prev[..|list|];
        forall k | |list| <= k < |r|
          ensures r[k] in ps && r[k].id !in IdsOf(list)
        {
          if k < |prev| {
            assert r[k] == prev[k];
          } else {
            IdsOfPrefix(list, prev);
          }
        }
      }
    }
  }

  /** The ids of a prefix are ids of the whole. */
  lemma IdsOfPrefix(list: seq<Contact>, s: seq<Contact>)
    requires |list| <= |s| && s[..|list|] == list
    ensures forall id :: id in IdsOf(list) ==> id in IdsOf(s)
  {
    forall id | id in IdsOf(list)
      ensures id in IdsOf(s)
    {
      var j :| 0 <= j < |list| && IdsOf(list)[j] == id;
      assert s[j] == list[j];
      assert IdsOf(s)[j] == id;
    }
  }

  /** Appending by new ids never repeats an id. */
  lemma {:induction false} AppendNewIdsDistinct(list: seq<Contact>, ps: seq<Contact>)
    requires DistinctIds(list)
    ensures DistinctIds(AppendNewIds(list, ps))
    decreases |ps|
  {
    if ps != [] {
      var prev := AppendNewIds(list, ps[..|ps| - 1]);
      var p := ps[|ps| - 1];
      AppendNewIdsDistinct(list, ps[..|ps| - 1]);
      if p.id !in IdsOf(prev) {
        var r := prev + [p];
        forall i, j | 0 <= i < j < |r|
          ensures r[i].id != r[j].id
        {
          if j == |prev| {
            assert IdsOf(prev)[i] == prev[i].id;
          }
        }
      }
    }
  }

  /** After appending by new ids, every id of ps is in the list. */
  lemma {:induction false} AppendNewIdsCovers(list: seq<Contact>, ps: seq<Contact>)
    ensures forall p :: p in ps ==> p.id in IdsOf(AppendNewIds(list, ps))
    decreases |ps|
  {
    if ps != [] {
      var init := ps[..|ps| - 1];
      var p := ps[|ps| - 1];
      var prev := AppendNewIds(list, init);
      AppendNewIdsCovers(list, init);
      assert ps == init + [p];
      var r := AppendNewIds(list, ps);
      forall q | q in ps
        ensures q.id in IdsOf(r)
      {
        if q != p {
          assert q in init;
          if r != prev {
            var j :| 0 <= j < |prev| && IdsOf(prev)[j] == q.id;
            assert IdsOf(r)[j] == q.id;
          }
        } else if r != prev {
          assert IdsOf(r)[|prev|] == p.id;
        }
      }
    }
  }

  /** The two lists get_closer_nodes appends to. */
  datatype Lists = Lists(closer: seq<Contact>, further: seq<Contact>)

  /** Each list of b extends the same list of a. */
  predicate Grows(a: Lists, b: Lists)
  {
    && |a.closer| <= |b.closer| && b.closer[..|a.closer|] == a.closer
    && |a.further| <= |b.further| && b.further[..|a.further|] == a.further
  }

  lemma GrowsTrans(a: Lists, b: Lists, c: Lists)
    requires Grows(a, b) && Grows(b, c)
    ensures Grows(a, c)
  {
    assert c.closer[..|a.closer|] == c.closer[..|b.closer|][..|a.closer|];
    assert c.further[..|a.further|] == c.further[..|b.further|][..|a.further|];
  }

  /** What get_closer_nodes leaves in the two lists after a reply: the
      closer peers appended by new ids to the closer list, the others to
      the further list. */
  function CloserNodes(ctx: Ctx, queried: Contact, reply: RpcReply, l: Lists): Lists
  {
    var peers := Peers(reply.contacts, ctx.ourId, queried.id);
    Lists(AppendNewIds(l.closer, CloserPeers(ctx.copy, peers, queried, ctx.key)),
          AppendNewIds(l.further, FurtherPeers(ctx.copy, peers, queried, ctx.key)))
  }

  /** get_closer_nodes only appends; it never adds our id or the queried
      id, nor a contact of another reply; what it adds to the closer list
      passes the closer test and what it adds to the further list fails
      it, each with an id the list lacked. */
  lemma CloserNodesAppends(ctx: Ctx, queried: Contact, reply: RpcReply, l: Lists)
    ensures var n := CloserNodes(ctx, queried, reply, l);
      && Grows(l, n)
      && (forall k :: |l.closer| <= k < |n.closer| ==>
            var p := n.closer[k];
            p in reply.contacts && p.id != ctx.ourId && p.id != queried.id &&
            IsCloser(ctx.copy, p, queried, ctx.key) && p.id !in IdsOf(l.closer))
      && (forall k :: |l.further| <= k < |n.further| ==>
            var p := n.further[k];
            p in reply.contacts && p.id != ctx.ourId && p.id != queried.id &&
            !IsCloser(ctx.copy, p, queried, ctx.key) && p.id !in IdsOf(l.further))
  {
    var peers := Peers(reply.contacts, ctx.ourId, queried.id);
    AppendNewIdsPrefix(l.closer, CloserPeers(ctx.copy, peers, queried, ctx.key));
    AppendNewIdsPrefix(l.further, FurtherPeers(ctx.copy, peers, queried, ctx.key));
  }

  /** get_closer_nodes keeps ids distinct in each list, and every peer's id
      ends up in the list its closer test picks. */
  lemma CloserNodesCovers(ctx: Ctx, queried: Contact, reply: RpcReply, l: Lists)
    ensures var n := CloserNodes(ctx, queried, reply, l);
      && (DistinctIds(l.closer) ==> DistinctIds(n.closer))
      && (DistinctIds(l.further) ==> DistinctIds(n.further))
      && (forall p :: p in reply.contacts && p.id != ctx.ourId && p.id != queried.id ==>
            if IsCloser(ctx.copy, p, queried, ctx.key) then p.id in IdsOf(n.closer) else p.id in IdsOf(n.further))
  {
    var peers := Peers(reply.contacts, ctx.ourId, queried.id);
    var cp := CloserPeers(ctx.copy, peers, queried, ctx.key);
    var fp := FurtherPeers(ctx.copy, peers, queried, ctx.key);
    if DistinctIds(l.closer) {
      AppendNewIdsDistinct(l.closer, cp);
    }
    if DistinctIds(l.further) {
      AppendNewIdsDistinct(l.further, fp);
    }
    AppendNewIdsCovers(l.closer, cp);
    AppendNewIdsCovers(l.further, fp);
  }

  // ------------------------------------------------------------------
  // _query, as values
  // ------------------------------------------------------------------

  /** The router's lists after a call and what the call returned or raised. */
  datatype QueryOutcome = QueryOutcome(result: Result<FindResult>, lists: Lists)

  /** _query over the nodes still to query, carrying the found_by and val
      of the last reply (None and "" before the first): each node's reply
      goes through get_closer_nodes, the first reply with a value ends the
      loop, and an exception from the RPC ends it with the lists as they
      stand. */
  function QuerySpec(ctx: Ctx, nodes: seq<Contact>, l: Lists, foundBy: Option<Contact>, val: Option<string>): (o: QueryOutcome)
    ensures o.result.Ok? ==> o.result.value.contacts == o.lists.closer
    decreases |nodes|
  {
    if nodes == [] then QueryOutcome(Ok(FindResult(false, l.closer, foundBy, val)), l)
    else
      match Ask(ctx, nodes[0])
      case Err(e) => QueryOutcome(Err(e), l)
      case Ok(reply) =>
        var n := CloserNodes(ctx, nodes[0], reply, l);
        if reply.val.Some? then QueryOutcome(Ok(FindResult(true, n.closer, reply.foundBy, reply.val)), n)
        else QuerySpec(ctx, nodes[1..], n, reply.foundBy, reply.val)
  }

  /** _query only appends to the two lists. */
  lemma {:induction false} QueryOnlyAppends(ctx: Ctx, nodes: seq<Contact>, l: Lists, foundBy: Option<Contact>, val: Option<string>)
    ensures Grows(l, QuerySpec(ctx, nodes, l, foundBy, val).lists)
    decreases |nodes|
  {
    if nodes != [] && Ask(ctx, nodes[0]).Ok? {
      var reply := Ask(ctx, nodes[0]).value;
      var n := CloserNodes(ctx, nodes[0], reply, l);
      CloserNodesAppends(ctx, nodes[0], reply, l);
      if reply.val.None? {
        QueryOnlyAppends(ctx, nodes[1..], n, reply.foundBy, reply.val);
        GrowsTrans(l, n, QuerySpec(ctx, nodes[1..], n, reply.foundBy, reply.val).lists);
      }
    }
  }

  /** nodes[k] is the first node that answers with a value, every node
      before it answering without one. */
  predicate FirstAnswerAt(ctx: Ctx, nodes: seq<Contact>, k: nat)
  {
    k < |nodes| && Answers(ctx, nodes[k]) && forall j :: 0 <= j < k ==> Silent(ctx, nodes[j])
  }

  /** Every node answers without a value. */
  predicate AllSilent(ctx: Ctx, nodes: seq<Contact>)
  {
    forall j :: 0 <= j < |nodes| ==> Silent(ctx, nodes[j])
  }

  lemma FirstAnswerShift(ctx: Ctx, nodes: seq<Contact>, k: nat)
    requires nodes != [] && Silent(ctx, nodes[0])
    ensures FirstAnswerAt(ctx, nodes[1..], k) <==> FirstAnswerAt(ctx, nodes, k + 1)
  {
    if FirstAnswerAt(ctx, nodes[1..], k) {
      forall j | 0 <= j < k + 1
        ensures Silent(ctx, nodes[j])
      {
        if j > 0 {
          assert nodes[j] == nodes[1..][j - 1];
        }
      }
    }
    if FirstAnswerAt(ctx, nodes, k + 1) {
      forall j | 0 <= j < k
        ensures Silent(ctx, nodes[1..][j])
      {
        assert nodes[1..][j] == nodes[j + 1];
      }
    }
  }

  lemma AllSilentShift(ctx: Ctx, nodes: seq<Contact>)
    requires nodes != []
    ensures AllSilent(ctx, nodes) <==> Silent(ctx, nodes[0]) && AllSilent(ctx, nodes[1..])
  {
    if Silent(ctx, nodes[0]) && AllSilent(ctx, nodes[1..]) {
      forall j | 0 < j < |nodes|
        ensures Silent(ctx, nodes[j])
      {
        assert nodes[j] == nodes[1..][j - 1];
      }
    }
    if AllSilent(ctx, nodes) {
      forall j | 0 <= j < |nodes| - 1
        ensures Silent(ctx, nodes[1..][j])
      {
        assert nodes[1..][j] == nodes[j + 1];
      }
    }
  }

  /** When _query finds a value, it is the reply of the first node that
      answers with one: val and found_by are that node's. */
  lemma {:induction false} QueryFound(ctx: Ctx, nodes: seq<Contact>, l: Lists, foundBy: Option<Contact>, val: Option<string>)
    ensures var o := QuerySpec(ctx, nodes, l, foundBy, val);
      o.result.Ok? && o.result.value.found ==>
        exists k: nat :: FirstAnswerAt(ctx, nodes, k) &&
          o.result.value.val == Ask(ctx, nodes[k]).value.val &&
          o.result.value.foundBy == Ask(ctx, nodes[k]).value.foundBy
    decreases |nodes|
  {
    if nodes != [] && Ask(ctx, nodes[0]).Ok? {
      var reply := Ask(ctx, nodes[0]).value;
      if reply.val.Some? {
        assert FirstAnswerAt(ctx, nodes, 0);
      } else {
        var n := CloserNodes(ctx, nodes[0], reply, l);
        var o := QuerySpec(ctx, nodes[1..], n, reply.foundBy, reply.val);
        QueryFound(ctx, nodes[1..], n, reply.foundBy, reply.val);
        if o.result.Ok? && o.result.value.found {
          var k: nat :| FirstAnswerAt(ctx, nodes[1..], k) &&
            o.result.value.val == Ask(ctx, nodes[1..][k]).value.val &&
            o.result.value.foundBy == Ask(ctx, nodes[1..][k]).value.foundBy;
          FirstAnswerShift(ctx, nodes, k);
          assert nodes[1..][k] == nodes[k + 1];
          assert FirstAnswerAt(ctx, nodes, k + 1);
        }
      }
    }
  }

  /** When some node answers with a value and every node before it answers
      without one, _query finds a value. */
  lemma {:induction false} QueryFindsAnswer(ctx: Ctx, nodes: seq<Contact>, l: Lists, foundBy: Option<Contact>, val: Option<string>, k: nat)
    requires FirstAnswerAt(ctx, nodes, k)
    ensures var o := QuerySpec(ctx, nodes, l, foundBy, val);
      o.result.Ok? && o.result.value.found
    decreases k
  {
    if k > 0 {
      assert Silent(ctx, nodes[0]);
      var reply := Ask(ctx, nodes[0]).value;
      var n := CloserNodes(ctx, nodes[0], reply, l);
      FirstAnswerShift(ctx, nodes, k - 1);
      QueryFindsAnswer(ctx, nodes[1..], n, reply.foundBy, reply.val, k - 1);
    }
  }

  /** When _query returns without a value, every node answered without
      one, and val is the initial one only when there was no node. */
  lemma {:induction false} QueryNotFound(ctx: Ctx, nodes: seq<Contact>, l: Lists, foundBy: Option<Contact>, val: Option<string>)
    ensures var o := QuerySpec(ctx, nodes, l, foundBy, val);
      o.result.Ok? && !o.result.value.found ==>
        AllSilent(ctx, nodes) && o.result.value.val == (if nodes == [] then val else None)
    decreases |nodes|
  {
    if nodes != [] && Ask(ctx, nodes[0]).Ok? {
      var reply := Ask(ctx, nodes[0]).value;
      if reply.val.None? {
        var n := CloserNodes(ctx, nodes[0], reply, l);
        QueryNotFound(ctx, nodes[1..], n, reply.foundBy, reply.val);
        AllSilentShift(ctx, nodes);
      }
    }
  }

  // ------------------------------------------------------------------
  // Router.lookup, as values
  // ------------------------------------------------------------------

  /** The constants lookup reads: A, TRY_CLOSEST_BUCKET (None where the
      Constants class has no such attribute) and DEBUG. */
  datatype LookupConstants = LookupConstants(a: nat, tryClosestBucket: Option<bool>, debug: bool)

  /** kademlia_dht/constants.py: DEBUG False, so A is 20; no TRY_CLOSEST_BUCKET. */
  const DHT_CONSTANTS := LookupConstants(20, None, false)

  /** kademlia/constants.py: TRY_CLOSEST_BUCKET True, DEBUG True, so A is 3. */
  const PACKAGE_CONSTANTS := LookupConstants(3, Some(true), true)

  /** find_closest_nonempty_kbucket: AllKBucketsAreEmptyError when every
      bucket is empty; otherwise the sort key reads b.id, which a KBucket
      does not have, so it raises AttributeError. */
  function FindClosestNonemptyKBucket(bs: seq<Bucket>, key: ID): (r: Result<Bucket>)
    ensures r.Err?
    ensures r.error == AllKBucketsAreEmptyError <==> forall i :: 0 <= i < |bs| ==> bs[i].contacts == []
    ensures r.error != AllKBucketsAreEmptyError ==> r.error == AttributeError
  {
    if forall i :: 0 <= i < |bs| ==> bs[i].contacts == [] then Err(AllKBucketsAreEmptyError)
    else Err(AttributeError)
  }

  /** all_nodes in the branch without TRY_CLOSEST_BUCKET: with DEBUG the
      first K contacts of get_kbucket(key), else get_close_contacts(key,
      our id)[0:K]. */
  function AllNodes(debug: bool, bs: seq<Bucket>, key: ID, ourId: ID): Result<seq<Contact>>
  {
    if debug then
      match GetKBucket(bs, key)
      case Err(e) => Err(e)
      case Ok(i) => Ok(Take(bs[i].contacts, K))
    else Ok(Take(CloseContacts(bs, key, ourId), K))
  }

  /** for n in nodes_to_query: closer if (n ^ key) < (our id ^ key), else further. */
  function Partition(nodes: seq<Contact>, ourId: ID, key: ID, l: Lists): (r: Lists)
    ensures |r.closer| + |r.further| == |l.closer| + |l.further| + |nodes|
    ensures Grows(l, r)
  {
    if nodes == [] then l
    else
      var p := Partition(nodes[..|nodes| - 1], ourId, key, l);
      var n := nodes[|nodes| - 1];
      if Xor(n.id, key) < Xor(ourId, key) then
        assert (p.closer + [n])[..|l.closer|] == p.closer[..|l.closer|];
        Lists(p.closer + [n], p.further)
      else
        assert (p.further + [n])[..|l.further|] == p.further[..|l.further|];
        Lists(p.closer, p.further + [n])
  }

  /** The lists before the first _query: the first A of all_nodes
      partitioned, then all_nodes[A+1:] added to the further list (the
      node at index A goes nowhere). */
  function Seed(allNodes: seq<Contact>, a: nat, ourId: ID, key: ID, l: Lists): (r: Lists)
    ensures Grows(l, r)
  {
    var p := Partition(Take(allNodes, a), ourId, key, l);
    var r := Lists(p.closer, p.further + Drop(allNodes, a + 1));
    assert r.further[..|p.further|] == p.further;
    GrowsTrans(l, p, r);
    r
  }

  /** [i for i in xs if i not in contacted_nodes] */
  function Uncontacted(xs: seq<Contact>, contacted: seq<Contact>): (r: seq<Contact>)
    ensures forall c :: c in r <==> c in xs && c !in contacted
  {
    if xs == [] then []
    else
      var last := xs[|xs| - 1];
      assert xs == xs[..|xs| - 1] + [last];
      Uncontacted(xs[..|xs| - 1], contacted) + (if last !in contacted then [last] else [])
  }

  /** Some listed contact is not yet contacted. */
  predicate HasWork(contacted: seq<Contact>, l: Lists)
  {
    Uncontacted(l.closer, contacted) != [] || Uncontacted(l.further, contacted) != []
  }

  /** The nodes a round queries: the first A uncontacted closer ones, or
      if there are none, the first A uncontacted further ones. */
  function Batch(a: nat, contacted: seq<Contact>, l: Lists): seq<Contact>
  {
    var cu := Uncontacted(l.closer, contacted);
    if cu != [] then Take(cu, a) else Take(Uncontacted(l.further, contacted), a)
  }

  /** contacted_nodes after a round is chosen: a closer batch is added by
      new ids; in the further case every uncontacted further node is added,
      since the test there compares a contact with ids and always holds. */
  function MarkContacted(a: nat, contacted: seq<Contact>, l: Lists): seq<Contact>
  {
    var cu := Uncontacted(l.closer, contacted);
    if cu != [] then AppendNewIds(contacted, Take(cu, a)) else contacted + Uncontacted(l.further, contacted)
  }

  /** The result when nothing was found: ret itself with give_me_all, else
      ret sorted by XOR distance to the key and cut to K. */
  function NotFound(ret: seq<Contact>, key: ID, giveMeAll: bool): FindResult
  {
    FindResult(false, if giveMeAll then ret else Take(SortOn(ret, DistanceTo(key)), K), None, None)
  }

  /** The router's lists after lookup, and its result: None when the
      while loop ran out of fuel, else the result or the exception raised. */
  datatype LookupOutcome = LookupOutcome(result: Option<Result<FindResult>>, lists: Lists)

  /** The while loop of lookup, at most `fuel` rounds: while ret holds fewer
      than K contacts and some listed contact is uncontacted, query a batch,
      ending at the first value found or exception raised. ret is fixed
      before the loop and the loop never changes it. */
  function Rounds(fuel: nat, ctx: Ctx, a: nat, giveMeAll: bool, ret: seq<Contact>,
                  contacted: seq<Contact>, l: Lists): LookupOutcome
    decreases fuel
  {
    if |ret| >= K || !HasWork(contacted, l) then LookupOutcome(Some(Ok(NotFound(ret, ctx.key, giveMeAll))), l)
    else if fuel == 0 then LookupOutcome(None, l)
    else
      var q := QuerySpec(ctx, Batch(a, contacted, l), l, None, Some(""));
      if q.result.Err? || q.result.value.found then LookupOutcome(Some(q.result), q.lists)
      else Rounds(fuel - 1, ctx, a, giveMeAll, ret, MarkContacted(a, contacted, l), q.lists)
  }

  /** One round of the while loop when it has work and fuel. */
  lemma RoundsStep(fuel: nat, ctx: Ctx, a: nat, giveMeAll: bool, ret: seq<Contact>,
                   contacted: seq<Contact>, l: Lists)
    requires |ret| < K && HasWork(contacted, l) && fuel > 0
    ensures var q := QuerySpec(ctx, Batch(a, contacted, l), l, None, Some(""));
      Rounds(fuel, ctx, a, giveMeAll, ret, contacted, l) ==
        if q.result.Err? || q.result.value.found then LookupOutcome(Some(q.result), q.lists)
        else Rounds(fuel - 1, ctx, a, giveMeAll, ret, MarkContacted(a, contacted, l), q.lists)
  {
  }

  /** lookup from all_nodes on: seed the lists, query the first A, return
      a found result, or take ret from the closer list by new ids and run
      the while loop. */
  function FromNodes(fuel: nat, ctx: Ctx, a: nat, giveMeAll: bool, allNodes: seq<Contact>, l: Lists): LookupOutcome
  {
    var toQuery := Take(allNodes, a);
    var q := QuerySpec(ctx, toQuery, Seed(allNodes, a, ctx.ourId, ctx.key, l), None, Some(""));
    if q.result.Err? || q.result.value.found then LookupOutcome(Some(q.result), q.lists)
    else Rounds(fuel, ctx, a, giveMeAll, AppendNewIds([], q.lists.closer), AppendNewIds([], toQuery), q.lists)
  }

  /** lookup(key, rpc_call, give_me_all) with the constants c: with
      TRY_CLOSEST_BUCKET missing it raises AttributeError, with it true the
      bucket pick raises, and otherwise the lookup runs from all_nodes. */
  function LookupSpec(fuel: nat, c: LookupConstants, ctx: Ctx, bs: seq<Bucket>, giveMeAll: bool, l: Lists): LookupOutcome
  {
    if c.tryClosestBucket.None? then LookupOutcome(Some(Err(AttributeError)), l)
    else if c.tryClosestBucket.value then LookupOutcome(Some(Err(FindClosestNonemptyKBucket(bs, ctx.key).error)), l)
    else
      match AllNodes(c.debug, bs, ctx.key, ctx.ourId)
      case Err(e) => LookupOutcome(Some(Err(e)), l)
      case Ok(allNodes) => FromNodes(fuel, ctx, c.a, giveMeAll, allNodes, l)
  }

  /** The while loop only appends to the lists. */
  lemma {:induction false} RoundsOnlyAppend(fuel: nat, ctx: Ctx, a: nat, giveMeAll: bool, ret: seq<Contact>,
                                            contacted: seq<Contact>, l: Lists)
    ensures Grows(l, Rounds(fuel, ctx, a, giveMeAll, ret, contacted, l).lists)
    decreases fuel
  {
    if !(|ret| >= K || !HasWork(contacted, l)) && fuel > 0 {
      var q := QuerySpec(ctx, Batch(a, contacted, l), l, None, Some(""));
      QueryOnlyAppends(ctx, Batch(a, contacted, l), l, None, Some(""));
      RoundsStep(fuel, ctx, a, giveMeAll, ret, contacted, l);
      if !(q.result.Err? || q.result.value.found) {
        var next := MarkContacted(a, contacted, l);
        RoundsOnlyAppend(fuel - 1, ctx, a, giveMeAll, ret, next, q.lists);
        GrowsTrans(l, q.lists, Rounds(fuel - 1, ctx, a, giveMeAll, ret, next, q.lists).lists);
      }
    }
  }

  /** lookup only appends to the router's lists, which persist across
      lookups. */
  lemma LookupOnlyAppends(fuel: nat, c: LookupConstants, ctx: Ctx, bs: seq<Bucket>, giveMeAll: bool, l: Lists)
    ensures Grows(l, LookupSpec(fuel, c, ctx, bs, giveMeAll, l).lists)
  {
    if c.tryClosestBucket == Some(false) && AllNodes(c.debug, bs, ctx.key, ctx.ourId).Ok? {
      var allNodes := AllNodes(c.debug, bs, ctx.key, ctx.ourId).value;
      var toQuery := Take(allNodes, c.a);
      var s := Seed(allNodes, c.a, ctx.ourId, ctx.key, l);
      var q := QuerySpec(ctx, toQuery, s, None, Some(""));
      QueryOnlyAppends(ctx, toQuery, s, None, Some(""));
      GrowsTrans(l, s, q.lists);
      if !(q.result.Err? || q.result.value.found) {
        var ret := AppendNewIds([], q.lists.closer);
        var contacted := AppendNewIds([], toQuery);
        RoundsOnlyAppend(fuel, ctx, c.a, giveMeAll, ret, contacted, q.lists);
        GrowsTrans(l, q.lists, Rounds(fuel, ctx, c.a, giveMeAll, ret, contacted, q.lists).lists);
      } else {
        assert LookupSpec(fuel, c, ctx, bs, giveMeAll, l).lists == q.lists;
      }
    }
  }

  /** The while loop ends in an exception, no result, a found result with
      a value whose contacts are the closer list, or the not-found result
      built from ret as it stood before the loop. */
  lemma {:induction false} RoundsKeepRet(fuel: nat, ctx: Ctx, a: nat, giveMeAll: bool, ret: seq<Contact>,
                                         contacted: seq<Contact>, l: Lists)
    ensures var o := Rounds(fuel, ctx, a, giveMeAll, ret, contacted, l);
      o.result.Some? && o.result.value.Ok? ==>
        if o.result.value.value.found then
          o.result.value.value.val.Some? && o.result.value.value.contacts == o.lists.closer
        else o.result.value.value == NotFound(ret, ctx.key, giveMeAll)
    decreases fuel
  {
    if !(|ret| >= K || !HasWork(contacted, l)) && fuel > 0 {
      var nq := Batch(a, contacted, l);
      var q := QuerySpec(ctx, nq, l, None, Some(""));
      QueryFound(ctx, nq, l, None, Some(""));
      RoundsStep(fuel, ctx, a, giveMeAll, ret, contacted, l);
      if !(q.result.Err? || q.result.value.found) {
        RoundsKeepRet(fuel - 1, ctx, a, giveMeAll, ret, MarkContacted(a, contacted, l), q.lists);
      }
    }
  }

  /** ret with repeated ids dropped, sorted and cut: at most K contacts in
      ascending distance to the key, no id twice, all from the closer list. */
  lemma NotFoundShape(closer: seq<Contact>, key: ID)
    ensures var r := NotFound(AppendNewIds([], closer), key, false).contacts;
      && |r| <= K
      && SortedOn(r, DistanceTo(key))
      && DistinctIds(r)
      && (forall c :: c in r ==> c in closer)
  {
    var ret := AppendNewIds([], closer);
    AppendNewIdsPrefix([], closer);
    AppendNewIdsDistinct([], closer);
    var s := SortOn(ret, DistanceTo(key));
    SortOnSorted(ret, DistanceTo(key));
    DistinctPermutation(ret, s);
    TakeOfSorted(s, DistanceTo(key), K);
    var r := Take(s, K);
    forall c | c in r
      ensures c in closer
    {
      assert c in multiset(s);
      var k :| 0 <= k < |ret| && ret[k] == c;
    }
  }

  /** A prefix of a sorted list without repeated ids is both. */
  lemma TakeOfSorted(s: seq<Contact>, f: Contact -> int, n: nat)
    requires SortedOn(s, f) && DistinctIds(s)
    ensures SortedOn(Take(s, n), f) && DistinctIds(Take(s, n))
    ensures forall c :: c in Take(s, n) ==> c in s
  {
    var r := Take(s, n);
    forall i, j | 0 <= i < j < |r|
      ensures f(r[i]) <= f(r[j]) && r[i].id != r[j].id
    {
      assert r[i] == s[i] && r[j] == s[j];
    }
  }

  /** A permutation of a list without repeated ids has none either. */
  lemma DistinctPermutation(a: seq<Contact>, b: seq<Contact>)
    requires DistinctIds(a) && multiset(a) == multiset(b)
    ensures DistinctIds(b)
  {
    forall i, j | 0 <= i < j < |b|
      ensures b[i].id != b[j].id
    {
      if b[i].id == b[j].id {
        assert b[i] in multiset(a) && b[j] in multiset(a);
        var x :| 0 <= x < |a| && a[x] == b[i];
        var y :| 0 <= y < |a| && a[y] == b[j];
        assert x == y;
        assert multiset(b)[b[i]] >= 2 by {
          assert b == b[..i] + [b[i]] + b[i + 1..j] + [b[j]] + b[j + 1..];
        }
        OccursOnce(a, x);
      }
    }
  }

  /** In a list without repeated ids every element occurs once. */
  lemma OccursOnce(a: seq<Contact>, x: nat)
    requires DistinctIds(a) && x < |a|
    ensures multiset(a)[a[x]] == 1
  {
    assert a == a[..x] + [a[x]] + a[x + 1..];
    forall c | c in a[..x] + a[x + 1..]
      ensures c.id != a[x].id
    {
      var y :| 0 <= y < |a| && y != x && a[y] == c;
    }
    assert a[x] !in a[..x] + a[x + 1..];
    assert multiset(a) == multiset(a[..x] + a[x + 1..]) + multiset{a[x]};
  }

  /** lookup as written in the two packages raises before querying
      anything: kademlia_dht's Constants has no TRY_CLOSEST_BUCKET, and
      kademlia's is True, whose bucket pick raises. */
  lemma LookupAsWrittenRaises(fuel: nat, ctx: Ctx, bs: seq<Bucket>, giveMeAll: bool, l: Lists)
    ensures LookupSpec(fuel, DHT_CONSTANTS, ctx, bs, giveMeAll, l) == LookupOutcome(Some(Err(AttributeError)), l)
    ensures var o := LookupSpec(fuel, PACKAGE_CONSTANTS, ctx, bs, giveMeAll, l);
      && o.lists == l && o.result.Some? && o.result.value.Err?
      && (o.result.value.error == AllKBucketsAreEmptyError <==> forall i :: 0 <= i < |bs| ==> bs[i].contacts == [])
      && (o.result.value.error != AllKBucketsAreEmptyError ==> o.result.value.error == AttributeError)
  {
  }

  /** lookup returns a found result with its value and the closer list as
      contacts; when nothing is found it returns no value and no found_by,
      and contacts built from the closer list as it stood after the first
      _query: without give_me_all, at most K of them, in ascending distance
      to the key, no id twice. */
  lemma LookupResult(fuel: nat, c: LookupConstants, ctx: Ctx, bs: seq<Bucket>, giveMeAll: bool, l: Lists)
    requires c.tryClosestBucket == Some(false)
    ensures var o := LookupSpec(fuel, c, ctx, bs, giveMeAll, l);
      o.result.Some? && o.result.value.Ok? && o.result.value.value.found ==>
        o.result.value.value.val.Some? && o.result.value.value.contacts == o.lists.closer
    ensures var o := LookupSpec(fuel, c, ctx, bs, giveMeAll, l);
      o.result.Some? && o.result.value.Ok? && !o.result.value.value.found ==>
        var allNodes := AllNodes(c.debug, bs, ctx.key, ctx.ourId).value;
        var q := QuerySpec(ctx, Take(allNodes, c.a), Seed(allNodes, c.a, ctx.ourId, ctx.key, l), None, Some(""));
        var fr := o.result.value.value;
        && fr == NotFound(AppendNewIds([], q.lists.closer), ctx.key, giveMeAll)
        && fr.val.None? && fr.foundBy.None?
        && (!giveMeAll ==>
              |fr.contacts| <= K && SortedOn(fr.contacts, DistanceTo(ctx.key)) && DistinctIds(fr.contacts) &&
              forall d :: d in fr.contacts ==> d in q.lists.closer)
  {
    if AllNodes(c.debug, bs, ctx.key, ctx.ourId).Ok? {
      var allNodes := AllNodes(c.debug, bs, ctx.key, ctx.ourId).value;
      var toQuery := Take(allNodes, c.a);
      var s := Seed(allNodes, c.a, ctx.ourId, ctx.key, l);
      var q := QuerySpec(ctx, toQuery, s, None, Some(""));
      QueryFound(ctx, toQuery, s, None, Some(""));
      if !(q.result.Err? || q.result.value.found) {
        RoundsKeepRet(fuel, ctx, c.a, giveMeAll, AppendNewIds([], q.lists.closer), AppendNewIds([], toQuery), q.lists);
        NotFoundShape(q.lists.closer, ctx.key);
      }
    }
  }

  // ------------------------------------------------------------------
  // get_closest_nodes
  // ------------------------------------------------------------------

  /** get_closest_nodes(key, bucket): the bucket's contacts sorted by XOR
      distance to the key. */
  function GetClosestNodes(key: ID, b: Bucket): (r: seq<Contact>)
    ensures multiset(r) == multiset(b.contacts)
    ensures forall i, j :: 0 <= i < j < |r| ==> Xor(r[i].id, key) <= Xor(r[j].id, key)
  {
    SortOnSorted(b.contacts, DistanceTo(key));
    assert forall c :: DistanceTo(key)(c) == Xor(c.id, key);
    SortOn(b.contacts, DistanceTo(key))
  }

  // ------------------------------------------------------------------
  // The router object
  // ------------------------------------------------------------------

  /** The append-by-new-id loop of get_closer_nodes and lookup. */
  method AppendByNewIds(list: seq<Contact>, ps: seq<Contact>) returns (r: seq<Contact>)
    ensures r == AppendNewIds(list, ps)
  {
    r := list;
    for i := 0 to |ps|
      invariant r == AppendNewIds(list, ps[..i])
    {
      assert ps[..i + 1][..i] == ps[..i];
      if ps[i].id !in IdsOf(r) {
        r := r + [ps[i]];
      }
    }
    assert ps[..|ps|] == ps;
  }

  /** A router: our id, the copy whose closer test it uses, and the closer
      and further lists it keeps across lookups. */
  class Router {
    const copy: Copy
    const ourId: ID
    var closerContacts: seq<Contact>
    var furtherContacts: seq<Contact>

    /** Router(node): both lists empty. */
    constructor (copy: Copy, ourId: ID)
      ensures this.copy == copy && this.ourId == ourId
      ensures closerContacts == [] && furtherContacts == []
    {
      this.copy := copy;
      this.ourId := ourId;
      closerContacts := [];
      furtherContacts := [];
    }

    /** The two lists as a value. */
    function State(): Lists
      reads this
    {
      Lists(closerContacts, furtherContacts)
    }

    /** get_closer_nodes(key, node_to_query, rpc_call, further, closer) on
        the router's own lists (the only lists lookup passes it): an RPC
        exception propagates with the lists unchanged; otherwise the lists
        are those of CloserNodes and the call returns (val is not None,
        val, found_by). */
    method GetCloserNodes(key: ID, queried: Contact, rpc: Rpc)
      returns (r: Result<(bool, Option<string>, Option<Contact>)>)
      modifies this
      ensures rpc(key, queried).Err? ==> r == Err(rpc(key, queried).error) && State() == old(State())
      ensures rpc(key, queried).Ok? ==>
        var reply := rpc(key, queried).value;
        && r == Ok((reply.val.Some?, reply.val, reply.foundBy))
        && State() == CloserNodes(Ctx(copy, ourId, key, rpc), queried, reply, old(State()))
    {
      var answer := rpc(key, queried);
      if answer.Err? {
        return Err(answer.error);
      }
      var reply := answer.value;
      var contacts := reply.contacts;
      var peers: seq<Contact> := [];
      for i := 0 to |contacts|
        invariant peers == Peers(contacts[..i], ourId, queried.id)
      {
        assert contacts[..i + 1][..i] == contacts[..i];
        if contacts[i].id != ourId && contacts[i].id != queried.id {
          peers := peers + [contacts[i]];
        }
      }
      assert contacts[..|contacts|] == contacts;
      var closePeers := CloserPeers(copy, peers, queried, key);
      closerContacts := AppendByNewIds(closerContacts, closePeers);
      var farPeers := FurtherPeers(copy, peers, queried, key);
      furtherContacts := AppendByNewIds(furtherContacts, farPeers);
      r := Ok((reply.val.Some?, reply.val, reply.foundBy));
    }

    /** _query(key, nodes_to_query, rpc_call, closer, further) on the
        router's own lists. */
    method Query(key: ID, nodes: seq<Contact>, rpc: Rpc) returns (r: Result<FindResult>)
      modifies this
      ensures QueryOutcome(r, State()) == QuerySpec(Ctx(copy, ourId, key, rpc), nodes, old(State()), None, Some(""))
    {
      ghost var ctx := Ctx(copy, ourId, key, rpc);
      var found := false;
      var foundBy: Option<Contact> := None;
      var val: Option<string> := Some("");
      var i := 0;
      while i < |nodes| && !found
        invariant 0 <= i <= |nodes|
        invariant !found ==>
          QuerySpec(ctx, nodes[i..], State(), foundBy, val) == QuerySpec(ctx, nodes, old(State()), None, Some(""))
        invariant found ==>
          QueryOutcome(Ok(FindResult(true, closerContacts, foundBy, val)), State()) ==
          QuerySpec(ctx, nodes, old(State()), None, Some(""))
        decreases |nodes| - i
      {
        assert nodes[i..][0] == nodes[i] && nodes[i..][1..] == nodes[i + 1..];
        var step := GetCloserNodes(key, nodes[i], rpc);
        if step.Err? {
          return Err(step.error);
        }
        found, val, foundBy := step.value.0, step.value.1, step.value.2;
        i := i + 1;
      }
      r := Ok(FindResult(found, closerContacts, foundBy, val));
    }

    /** lookup(key, rpc_call, give_me_all) on the node's bucket list `bs`,
        with the constants `c` and at most `fuel` rounds of the while loop
        (None when they run out). */
    method Lookup(fuel: nat, c: LookupConstants, bs: seq<Bucket>, key: ID, rpc: Rpc, giveMeAll: bool)
      returns (r: Option<Result<FindResult>>)
      modifies this
      ensures LookupOutcome(r, State()) == LookupSpec(fuel, c, Ctx(copy, ourId, key, rpc), bs, giveMeAll, old(State()))
    {
      if c.tryClosestBucket.None? {
        return Some(Err(AttributeError));
      }
      if c.tryClosestBucket.value {
        return Some(Err(FindClosestNonemptyKBucket(bs, key).error));
      }
      var start := AllNodes(c.debug, bs, key, ourId);
      if start.Err? {
        return Some(Err(start.error));
      }
      r := LookupFrom(fuel, c.a, key, rpc, giveMeAll, start.value);
    }

    /** lookup from all_nodes on. */
    method LookupFrom(fuel: nat, a: nat, key: ID, rpc: Rpc, giveMeAll: bool, allNodes: seq<Contact>)
      returns (r: Option<Result<FindResult>>)
      modifies this
      ensures LookupOutcome(r, State()) == FromNodes(fuel, Ctx(copy, ourId, key, rpc), a, giveMeAll, allNodes, old(State()))
    {
      var toQuery := Take(allNodes, a);
      SeedLists(allNodes, a, key);
      var contacted := AppendByNewIds([], toQuery);
      var q := Query(key, toQuery, rpc);
      if q.Err? || q.value.found {
        return Some(q);
      }
      var ret := AppendByNewIds([], closerContacts);
      r := RunRounds(fuel, key, rpc, a, giveMeAll, ret, contacted);
    }

    /** The closer/further split of nodes_to_query and the rest of
        all_nodes put in the further list. */
    method SeedLists(allNodes: seq<Contact>, a: nat, key: ID)
      modifies this
      ensures State() == Seed(allNodes, a, ourId, key, old(State()))
    {
      var nodes := Take(allNodes, a);
      for i := 0 to |nodes|
        invariant State() == Partition(nodes[..i], ourId, key, old(State()))
      {
        assert nodes[..i + 1][..i] == nodes[..i];
        var n := nodes[i];
        if Xor(n.id, key) < Xor(ourId, key) {
          closerContacts := closerContacts + [n];
        } else {
          furtherContacts := furtherContacts + [n];
        }
      }
      assert nodes[..|nodes|] == nodes;
      ghost var p := State();
      var rest := Drop(allNodes, a + 1);
      for i := 0 to |rest|
        invariant State() == Lists(p.closer, p.further + rest[..i])
      {
        assert rest[..i + 1] == rest[..i] + [rest[i]];
        furtherContacts := furtherContacts + [rest[i]];
      }
      assert rest[..|rest|] == rest;
    }

    /** One round of the while loop once it has work: pick the batch, mark
        it contacted and query it. */
    method Round(key: ID, rpc: Rpc, a: nat, contacted: seq<Contact>)
      returns (q: Result<FindResult>, contacted': seq<Contact>)
      modifies this
      ensures contacted' == MarkContacted(a, contacted, old(State()))
      ensures QueryOutcome(q, State()) ==
        QuerySpec(Ctx(copy, ourId, key, rpc), Batch(a, contacted, old(State())), old(State()), None, Some(""))
    {
      var closerUncontacted := Uncontacted(closerContacts, contacted);
      var furtherUncontacted := Uncontacted(furtherContacts, contacted);
      var newNodes;
      if |closerUncontacted| > 0 {
        newNodes := Take(closerUncontacted, a);
        contacted' := AppendByNewIds(contacted, newNodes);
      } else {
        newNodes := Take(furtherUncontacted, a);
        contacted' := contacted;
        for i := 0 to |furtherUncontacted|
          invariant contacted' == contacted + furtherUncontacted[..i]
        {
          assert furtherUncontacted[..i + 1] == furtherUncontacted[..i] + [furtherUncontacted[i]];
          contacted' := contacted' + [furtherUncontacted[i]];
        }
        assert furtherUncontacted[..|furtherUncontacted|] == furtherUncontacted;
      }
      q := Query(key, newNodes, rpc);
    }

    /** The while loop of lookup, at most `fuel` rounds. */
    method RunRounds(fuel: nat, key: ID, rpc: Rpc, a: nat, giveMeAll: bool,
                     ret: seq<Contact>, contacted0: seq<Contact>) returns (r: Option<Result<FindResult>>)
      modifies this
      ensures LookupOutcome(r, State()) ==
        Rounds(fuel, Ctx(copy, ourId, key, rpc), a, giveMeAll, ret, contacted0, old(State()))
    {
      ghost var ctx := Ctx(copy, ourId, key, rpc);
      var contacted := contacted0;
      var left := fuel;
      var haveWork := true;
      while |ret| < K && haveWork
        invariant haveWork ==>
          Rounds(left, ctx, a, giveMeAll, ret, contacted, State()) ==
          Rounds(fuel, ctx, a, giveMeAll, ret, contacted0, old(State()))
        invariant !haveWork ==>
          LookupOutcome(Some(Ok(NotFound(ret, key, giveMeAll))), State()) ==
          Rounds(fuel, ctx, a, giveMeAll, ret, contacted0, old(State()))
        decreases left, if haveWork then 1 else 0
      {
        haveWork := HasWork(contacted, State());
        if haveWork {
          if left == 0 {
            return None;
          }
          RoundsStep(left, ctx, a, giveMeAll, ret, contacted, State());
          var q;
          q, contacted := Round(key, rpc, a, contacted);
          if q.Err? || q.value.found {
            return Some(q);
          }
          left := left - 1;
        }
      }
      r := Some(Ok(NotFound(ret, key, giveMeAll)));
    }
  }
}
