# Kademlia routing core, modelled in Dafny

This project models the routing core of a Python Kademlia implementation. The repository holds the same component several times:

- a monolithic `kademlia.py`;
- the `kademlia/` package;
- the later `kademlia_dht/` package;
- the early prototypes `DHT.py`, `distributed-hashing.py`, `kademlia/network.py` and `kademlia/kbucket.py`.

The model covers these parts:

- **the 160-bit identifier (`Ids`, `NodeIds`):**
  - the range check, zero-padded binary, the two byte orders, `set_bit`;
  - XOR distance, comparisons, `max`/`mid`/`min`;
  - the positive-only variant of `kademlia/node.py` with its renderings and `Node.distance`.
- **the routing table:**
  - `BucketValues` says what it computes, as values;
  - `Buckets` holds the `KBucket` and `BucketList` classes, which change their lists in place and are proved against those values;
  - scope: bounded k-buckets with inclusive `[low, high]` ranges, the midpoint split, the depth from the longest shared binary prefix, `can_split`, `add_contact` (replace, split and retry, or the ping-and-pending path), and the brute-force `get_close_contacts`.
- **the serial lookup (`Routers`):**
  - `rpc_find_value`, `get_closer_nodes`, `_query`, `find_closest_nonempty_kbucket`, `get_closest_nodes` and `Router.lookup`;
  - the `Router` class keeps its closer and further lists across calls, as `kademlia_dht/routers.py` does.
- **the DHT bookkeeping (`Dht`):**
  - eviction counts and pending contacts, eviction and replacement;
  - the local storage cascade of `find_value` and `Node.find_value`;
  - the separating-node count and the purge of expired entries.
- **the in-memory key/value store (`Storage`):** `VirtualStorage`.
- **the queues (`Queues`):** the unbounded list queue and the fixed array queue of both `my_queues.py` files, including `__str__`.
- **the RPC error record (`RpcErrors`, `Protocols`):** `RPCError`, the three `get_rpc_error` functions, and the results `VirtualProtocol` reports.
- **the helper (`Helpers`):** `get_closest_number_index`.
- **the prototypes (`Network`, `KBucketPrototype`, `DhtPrototype`, `DistributedHashing`).**

Where the copies differ, the model keeps the difference. A `Copy`-like parameter selects the behaviour:
- `ID.mid()` is 2^159 − 1 in `kademlia/id.py` and 2^159 in `kademlia.py`.
- The depth modulus B is 5 in the packages and 160 in `kademlia.py`.
- `KBucket.add_contact` de-duplicates in the packages and not in `kademlia.py`.
- The closer test of `get_closer_nodes` compares `peer ^ queried` in the packages and `peer ^ key` in `kademlia.py`.
- `RPCError.no_error()` returns an instance in `kademlia_dht` and `None` in `kademlia/`.

The model follows the code, also where comments and docstrings say otherwise:
- The `mid()` comment suggests 2^159.
- The `add_contact` docstring says no bucket can be missed.
- Where the modelled code raises as written, the model raises the same exception (one exception: `Node.find_value` of kademlia.py, see Dht.NodeFindValue under "## Left out"):
  - `Router.lookup` reads `TRY_CLOSEST_BUCKET`;
  - `find_closest_nonempty_kbucket` sorts by `b.id`;
  - `kademlia/kbucket.py` compares a list with an int and unpacks a pair into three names;
  - `kademlia.py` reads `self.our_contact` on a `BucketList`.

Python exceptions become `Result`/`Option` values carrying an `Exception` constant. Clock reads become a `now` argument. Remote calls become oracle arguments: `ping`, the lookup's `rpc_call`, the store RPC of `find_value`, and the ping of `distributed-hashing.py`.

## Model

| member | source | states |
|---|---|---|
| Ids.NewId | kademlia/id.py:15-21 | `ID(value)` succeeds exactly when 0 <= value < 2^160 and keeps the value; otherwise it raises ValueError |
| Ids.TwoTo160 | kademlia/id.py:15 | the literal 2^160 used for `MAX_ID` is 2^160, and 2^159 is half of it |
| Ids.NumeralRoundTrip | kademlia/id.py:35 | Python's digit rendering (`bin(v)[2:]`, `hex(v)[2:]`) reads back as v |
| Ids.NumeralCanonical | kademlia/id.py:35 | the rendering has a leading zero only for 0 and uses only digits below the base |
| Ids.PaddedNumeral | kademlia/id.py:35-37 | `bin(v)[2:]` has at most w digits for v < 2^w, and padding it with zeros to w gives the reference w-bit rendering |
| Ids.PaddedBinary | kademlia.py:190-199 | the zero-padded rendering is w characters of '0'/'1', reads back as v, and has bit i at character w-1-i |
| Ids.BinRoundTrip | kademlia/id.py:29-38 | `bin()` is exactly 160 characters of '0'/'1', reads back in base 2 as the value, and character 159-i is bit i |
| Ids.BinBitAt | kademlia/id.py:29-38 | character 159-i of `bin()` is bit i of the value |
| Ids.BigEndianBytes | kademlia/id.py:48-52 | `big_endian_bytes()` lists the characters of `bin()`, one per element, in order |
| Ids.Reverse | kademlia/id.py:58 | `[::-1]` has the same length, and element i is the element at the mirrored index |
| Ids.EndianBytes | kademlia/id.py:54-58 | both byte lists have 160 elements; `little_endian_bytes()` is `big_endian_bytes()` reversed; its element i is bit i of the value |
| Ids.EndianByteAt | kademlia/id.py:54-58 | the same for one index: little-endian element i is big-endian element 159-i, which is bit i |
| Ids.SetBit | kademlia/id.py:40-46 | `set_bit(bit)` raises IndexError outside -160..159; otherwise it leaves the id's value unchanged |
| Ids.XorWith | kademlia/id.py:60-64 | `ID ^ x` is the integer XOR of the two values, for an ID or an int operand; it is symmetric, non-negative, and 0 exactly for equal ids |
| Ids.XorZeroIff | kademlia.py:223-227 | the XOR of two naturals is 0 exactly when they are equal |
| Ids.XorSymmetric | kademlia/id.py:60-64 | XOR distance is symmetric |
| Ids.XorSelf | kademlia/id.py:60-64 | the XOR distance of a value to itself is 0 |
| Ids.XorAssociative | kademlia/id.py:60-64 | XOR is associative |
| Ids.XorBit | kademlia/id.py:60-64 | bit i of the XOR is set exactly when bit i of the two operands differ |
| Ids.XorBound | kademlia/id.py:60-64 | the XOR of two values below 2^n is below 2^n, so the distance of two IDs is an ID |
| Ids.XorTriangle | kademlia/id.py:60-64 | XOR distance obeys the triangle inequality |
| Ids.IntXorProperties | kademlia/id.py:64 | Python's XOR on ints is symmetric, 0 exactly on equal operands, and non-negative on non-negative operands |
| Ids.Eq | kademlia/id.py:66-70 | `==` holds exactly when the XOR distance to the operand is 0 |
| Ids.Lt | kademlia/id.py:84-88 | `<` on the values never holds together with `==`; against an ID it holds exactly when the 160-character `bin()` of self comes first in lexicographic order; against an int it is False below 0 and True from 2^160 on |
| Ids.Gt | kademlia/id.py:90-94 | `>` holds exactly when neither `<` nor `==` does; against an ID it holds exactly when the other's `bin()` comes first lexicographically; against an int it is True below 0 and False from 2^160 on |
| Ids.Le | kademlia/id.py:78-82 | `<=` is `<` or `==`, and is the negation of `>`; against an ID it holds exactly when self's `bin()` comes first lexicographically or equals the other's |
| Ids.Ge | kademlia/id.py:72-76 | `>=` is `>` or `==`, and is the negation of `<`; against an ID it holds exactly when the other's `bin()` comes first lexicographically or equals self's |
| Ids.IdOrder | kademlia/id.py:66-94 | exactly one of `<`, `==`, `>` holds; `<` between IDs is transitive; each of `<`, `==`, `>`, `<=`, `>=` gives the same answer for an ID operand and for the int of its value |
| Ids.LexLessSnoc | kademlia/id.py:29-38 | appending one character to two strings orders them by the prefixes first and by the appended characters on equal prefixes |
| Ids.BitsOrder | kademlia/id.py:29-38 | the w-bit renderings of two values below 2^w are in lexicographic order exactly when the values are, and equal exactly when the values are |
| Ids.BinOrder | kademlia/id.py:29-38 | `bin()` of two IDs is in lexicographic order exactly when their values are in numeric order, and equal exactly for equal values |
| Ids.MaxId | kademlia/id.py:103-108 | `ID.max()` is a valid ID with value 2^160 − 1 |
| Ids.MidId | kademlia/id.py:111-116 | `ID.mid()` is a valid ID: 2^159 − 1 in kademlia/id.py, 2^159 in kademlia.py |
| Ids.MinId | kademlia/id.py:119-124 | `ID.min()` is a valid ID with value 0 |
| NodeIds.NewPositiveId | kademlia/node.py:12-18 | this `ID(value)` succeeds exactly when 0 < value < 2^160, so 0 is rejected; otherwise it raises ValueError |
| NodeIds.RenderingsRoundTrip | kademlia/node.py:20-27 | `denary()` is the value; `hex()`/`bin()` carry "0x"/"0b", start with a non-zero digit (no padding), read back as the value, and `bin()` has at most 162 characters |
| NodeIds.DistanceProperties | kademlia/node.py:41-42 | `Node.distance` is 0 for the node's own id, symmetric between two nodes, below 2^160, and 0 exactly for equal ids |
| Contacts.Touch | kademlia_dht/contact.py:18-20 | touching a contact keeps its id and sets its last-seen time to now |
| Contacts.IdsOf | kademlia_dht/buckets.py:122 | `[c.id for c in contacts]` has one id per contact, in order |
| Contacts.FirstIndexOfId | kademlia_dht/buckets.py:123 | `contact_ids.index(id)` is the first index whose contact has the id |
| Contacts.InsertOn | kademlia_dht/buckets.py:274 | one step of the stable sort keeps every element and adds the inserted one |
| Contacts.SortOn | kademlia_dht/buckets.py:274 | `sorted(contacts, key=...)` is a permutation of its input |
| Contacts.InsertOnSorted | kademlia_dht/buckets.py:274 | inserting into a sorted list keeps it sorted by the key |
| Contacts.SortOnSorted | kademlia_dht/buckets.py:274 | `sorted(..., key=f)` is ascending in f |
| Contacts.FirstMinIndex | kademlia_dht/buckets.py:238-239 | the index of the first element with the least key |
| Contacts.SortOnHead | kademlia_dht/buckets.py:238-239 | `sorted(contacts, key=last_seen)[0]` is the first contact with the least last-seen time (the sort is stable) |
| Contacts.LastMaxIndex | kademlia/dht.py:537-550 | the index of the last element with the greatest key |
| Contacts.SortOnLast | kademlia/dht.py:537-550 | the last element of the stable sort is the last element with the greatest key |
| Contacts.SortedPrefixIsClosest | kademlia_dht/buckets.py:274 | the first n of the sorted list are sorted, come from the list, and no element left out has a smaller key than one kept |
| BucketValues.AddToBucket | kademlia_dht/buckets.py:66-75 | `KBucket.add_contact` raises TooManyContactsError exactly when the bucket is full, else OutOfRangeError exactly when the id is outside [low, high]; otherwise it keeps the range, holds the contact, never exceeds K, and either appends or (only in kademlia.py, or for a present contact) keeps the list |
| BucketValues.AddToBucketWellFormed | kademlia.py:695-704 | adding a contact with a new id to a well-formed bucket with room appends it and keeps the bucket well formed |
| BucketValues.ReplaceInBucket | kademlia_dht/buckets.py:120-125 | `replace_contact` writes the touched contact at the first index with its id and keeps the length, the range and every other slot; without such an id `index` raises ValueError |
| BucketValues.ReplaceInBucketWellFormed | kademlia/buckets.py:117-122 | replacing keeps a bucket well formed |
| BucketValues.IndexOf | kademlia_dht/buckets.py:129 | the first index holding an element equal to the contact |
| BucketValues.RemoveFirst | kademlia_dht/buckets.py:129 | `list.remove(c)` takes out exactly one occurrence of c |
| BucketValues.EvictFromBucket | kademlia_dht/buckets.py:127-133 | `evict_contact` raises BucketDoesNotContainContactToEvictError exactly when no contact has the id, raises ValueError when one has the id but none equals the contact, and otherwise removes one occurrence of it and keeps the range |
| BucketValues.EvictWellFormed | kademlia/buckets.py:124-131 | eviction keeps a bucket well formed and leaves no contact with that id |
| BucketValues.DistinctRemove | kademlia_dht/buckets.py:129 | removing one element keeps ids distinct and brings in no id |
| BucketValues.Below | kademlia_dht/buckets.py:112-114 | the contacts with id below the midpoint, in order |
| BucketValues.AtOrAbove | kademlia_dht/buckets.py:115-116 | the contacts with id at or above the midpoint, in order |
| BucketValues.HalvesPartition | kademlia_dht/buckets.py:112-116 | the two halves together hold exactly the original contacts |
| BucketValues.HalvesDistinct | kademlia_dht/buckets.py:112-116 | each half of a list with distinct ids has distinct ids |
| BucketValues.SplitIntoAppends | kademlia_dht/buckets.py:112-116 | the split loop appends the lower contacts to the first half and the others to the second, in order, when both have room |
| BucketValues.AddFresh | kademlia_dht/buckets.py:72-73 | adding a contact with a new id to a bucket with room and range appends it |
| BucketValues.FreshStaysFresh | kademlia_dht/buckets.py:112-116 | ids new to a list stay new after appending a contact with another id |
| BucketValues.SplitPartitions | kademlia/buckets.py:93-115 | splitting a well-formed bucket cannot fail; ids below (low+high)//2 go to [low, mid] and the rest to [mid, high]; the halves share the midpoint, are well formed, and together hold exactly the original contacts |
| BucketValues.CommonPrefix | kademlia.py:723-733 | the longest common prefix is a prefix of both strings and cannot be extended |
| BucketValues.CommonPrefixSymmetric | kademlia.py:726-727 | the longest common prefix does not depend on the order of the two strings, so the swap changes nothing |
| BucketValues.CommonPrefixUnique | kademlia.py:729-733 | a common prefix where the strings differ or one ends is the longest one |
| BucketValues.CommonPrefixAll | kademlia_dht/buckets.py:93 | `commonprefix` of a list is a prefix of every string in it |
| BucketValues.CommonPrefixAllLongest | kademlia_dht/buckets.py:93 | no longer string is a prefix of all of them |
| BucketValues.FoldSharedBitsPrefix | kademlia.py:735-743 | kademlia.py's running prefix is a prefix of its start and of every contact's `bin()[2:]` |
| BucketValues.DepthBounds | kademlia_dht/buckets.py:77-94 | the packages' depth is at most 160, 0 for an empty bucket, and a prefix of every contact's `bin()`; kademlia.py's depth raises IndexError exactly on an empty bucket and is otherwise at most 158 |
| BucketValues.CanSplit | kademlia_dht/buckets.py:151-167 | `can_split` is true exactly when the range holds our id or depth % B != 0 (B = 5, or 160 in kademlia.py); it fails only when the range lacks our id and the depth raises |
| BucketValues.MonolithCanSplit | kademlia.py:809-825 | with B = 160, a bucket outside our range splits exactly when its depth is non-zero |
| BucketValues.InitialBuckets | kademlia_dht/buckets.py:143 | the first bucket list (one empty bucket over [0, 2^160]) is valid |
| BucketValues.KIndex | kademlia_dht/buckets.py:169-179 | `_get_kbucket_index` is the first index whose range holds the id, and -1 exactly when none does |
| BucketValues.GetKBucket | kademlia_dht/buckets.py:181-195 | `get_kbucket` fails with OutOfRangeError exactly on an empty list; otherwise it gives a valid index (-1 meaning the last bucket) |
| BucketValues.KIndexFound | kademlia/buckets.py:164-190 | in a valid list every id has a bucket, so `get_kbucket` gives that bucket and never falls back to the last one |
| BucketValues.Target | kademlia_dht/buckets.py:217 | the bucket that receives an id holds it in range and is the one `_get_kbucket_index` finds |
| BucketValues.KIndexSameRanges | kademlia_dht/buckets.py:228 | lists with the same ranges send an id to the same index |
| BucketValues.SplitAt | kademlia_dht/buckets.py:231-232 | `buckets[i] = k1; buckets.insert(i + 1, k2)` puts the two halves at i and i+1 and shifts the later buckets by one |
| BucketValues.FullBucketIsWide | kademlia_dht/buckets.py:222-227 | a full well-formed bucket has a range at least K − 1 wide |
| BucketValues.SplitStep | kademlia_dht/buckets.py:224-235 | splitting the full bucket that holds an id gives a valid list in which that id's bucket is strictly narrower, so the retry terminates |
| BucketValues.SplitTargetList | kademlia/buckets.py:219-230 | the list after the split is valid, one bucket longer, and the id's bucket is narrower |
| BucketValues.AllContactsMembership | kademlia_dht/buckets.py:281-290 | `contacts()` holds a contact exactly when some bucket does |
| BucketValues.AllContactsCount | kademlia_dht/buckets.py:281-290 | `contacts()` has at most K contacts per bucket |
| BucketValues.AddSpecSound | kademlia_dht/buckets.py:197-257 | `BucketList.add_contact` keeps the list valid and never loses a bucket; on success the touched contact is in its bucket; nothing but the touched contact is stored; no contact with another id is lost; our own id raises OurNodeCannotBeAContactError and changes nothing |
| BucketValues.AddSpecReplaceUnfold | kademlia_dht/buckets.py:218-221 | when the target bucket holds the id, the add replaces that contact in place and the list stays valid |
| BucketValues.AddSpecInsertUnfold | kademlia_dht/buckets.py:255-257 | when the target bucket has room and lacks the id, the add appends the touched contact and the list stays valid |
| BucketValues.AddSpecSplitUnfold | kademlia_dht/buckets.py:224-235 | when the full target bucket can split, the add is the retry on the list with that bucket split in place |
| BucketValues.AddSplits | kademlia_dht/buckets.py:222-235 | when the full target bucket can split, the add ends with more buckets than before |
| BucketValues.AddExistingId | kademlia/buckets.py:204-216 | re-adding an id the target bucket holds keeps the number of buckets and every bucket's size, and changes only that slot, to the touched contact |
| BucketValues.AddFullUnchanged | kademlia_dht/buckets.py:236-253 | a full bucket that cannot split leaves every bucket as it was and does not store the contact |
| BucketValues.AddFullCannotSplit | kademlia_dht/buckets.py:236-253 | on a full bucket that cannot split, nothing changes; the packages hand the least recently seen contact to delay_eviction when its ping error is truthy, and the new contact to add_to_pending otherwise; kademlia.py raises AttributeError |
| BucketValues.Excluding | kademlia_dht/buckets.py:268-273 | the contacts without the excluded id, in list order |
| BucketValues.ExcludingConcat | kademlia_dht/buckets.py:269-273 | excluding over a concatenation is the concatenation of the excludings |
| BucketValues.CloseContactsCorrect | kademlia_dht/buckets.py:259-279 | `get_close_contacts` returns at most K stored contacts, none with the excluded id, ascending in XOR distance to the key; no left-out candidate is closer than a returned one; with K or fewer candidates all are returned |
| BucketValues.DistinctIdSet | kademlia_dht/buckets.py:45 | a list with distinct ids has as many ids as contacts |
| Buckets.KBucket.constructor | kademlia_dht/buckets.py:17-31 | a new bucket holds the initial contacts and the range, with its timestamp set to now |
| Buckets.KBucket.IsFull | kademlia_dht/buckets.py:40-45 | `is_full` holds exactly when `add_contact` would raise TooManyContactsError for every contact |
| Buckets.KBucket.Contains | kademlia_dht/buckets.py:47-53 | `contains(id)` holds exactly when some contact has that id |
| Buckets.KBucket.Touch | kademlia_dht/buckets.py:55-56 | `touch` sets the timestamp to now |
| Buckets.KBucket.IsInRange | kademlia_dht/buckets.py:58-64 | `is_in_range` is low <= id <= high, and for a bucket with room it holds exactly when every contact with the id can be added |
| Buckets.KBucket.AddContact | kademlia/buckets.py:62-71 | `add_contact` changes the contacts as AddToBucket says, or raises its error and changes nothing |
| Buckets.LongestSharedPrefix | kademlia.py:723-733 | `longest_shared_prefix_str(a, b)` with its swap and loop returns the longest common prefix |
| Buckets.KBucket.SharedBits | kademlia_dht/buckets.py:88-94 | `shared_bits` is the copy's shared prefix (commonprefix of `bin()`, or kademlia.py's fold over `bin()[2:]`) |
| Buckets.KBucket.Depth | kademlia/buckets.py:73-82 | `depth` is the length of the shared prefix, or the IndexError of kademlia.py's empty bucket |
| Buckets.KBucket.Split | kademlia_dht/buckets.py:96-118 | `split` returns two fresh, distinct buckets whose values are those SplitBucket computes |
| Buckets.KBucket.ReplaceContact | kademlia/buckets.py:117-122 | `replace_contact` updates the contacts as ReplaceInBucket says, or raises ValueError and changes nothing |
| Buckets.KBucket.EvictContact | kademlia/buckets.py:124-131 | `evict_contact` updates the contacts as EvictFromBucket says, or raises its error and changes nothing |
| Buckets.SplitInTwo | kademlia.py:745-767 | a split of a well-formed bucket gives two fresh buckets holding the lower and the upper half |
| Buckets.AppendExcluding | kademlia_dht/buckets.py:270-273 | the inner loop of `get_close_contacts` appends the contacts without the excluded id, in order |
| Buckets.BucketList.constructor | kademlia_dht/buckets.py:138-146 | a new list is valid and holds one empty bucket over [0, 2^160], with our id |
| Buckets.BucketList.CanSplit | kademlia/buckets.py:148-162 | the method computes BucketValues.CanSplit on the bucket's value |
| Buckets.BucketList.GetKBucketIndex | kademlia/buckets.py:164-174 | the loop returns the first index whose range holds the id, or -1 |
| Buckets.BucketList.GetKBucket | kademlia_dht/buckets.py:181-195 | returns the bucket object at the index `get_kbucket` picks, or OutOfRangeError on an empty list |
| Buckets.BucketList.AddContact | kademlia_dht/buckets.py:197-257 | after `add_contact` the list is valid, the bucket values and the result are those of AddSpec |
| Buckets.BucketList.ReplaceInList | kademlia_dht/buckets.py:218-221 | the replace branch updates the list as AddSpec says |
| Buckets.BucketList.AddToBucketInList | kademlia_dht/buckets.py:255-257 | the plain add branch updates the list as AddSpec says |
| Buckets.BucketList.AddToFullBucket | kademlia_dht/buckets.py:222-253 | the full-bucket branch updates the list as AddSpec says |
| Buckets.BucketList.SplitAndRetry | kademlia_dht/buckets.py:227-235 | splitting and retrying leaves the list AddSpec gives on the split list |
| Buckets.BucketList.SplitTarget | kademlia_dht/buckets.py:227-232 | splitting the target bucket in place leaves the list SplitTargetList computes, with two fresh buckets |
| Buckets.BucketList.SpliceHalves | kademlia_dht/buckets.py:231-232 | the assignment and insert leave the list SplitAt computes |
| Buckets.BucketList.GetCloseContacts | kademlia/buckets.py:257-283 | the nested loop, sort and cut return CloseContacts of the bucket values |
| Buckets.BucketList.Contacts | kademlia/buckets.py:285-294 | `contacts()` returns every bucket's contacts, bucket by bucket |
| Buckets.BucketList.ContactExists | kademlia_dht/buckets.py:292-293 | `contact_exists` holds exactly when some bucket holds the contact |
| Routers.Take | kademlia_dht/routers.py:229 | `s[:n]` is the first min(n, len) elements |
| Routers.Drop | kademlia_dht/routers.py:256 | `s[n:]` is the rest after n, or empty |
| Routers.FindValueReply | kademlia_dht/routers.py:76-88 | once handle_error has returned: an error with `has_error()` yields ([], None, None); otherwise contacts yield (contacts, None, None), a value alone yields ([contact], contact, val), and neither raises ValueCannotBeNoneError; found_by is set exactly with a value |
| Routers.RpcFindValue | kademlia_dht/routers.py:66-88 | the reply-building loop of `rpc_find_value` computes FindValueReply; the handle_error call before it is Dht.DHT.RpcFindValue's |
| Routers.Peers | kademlia_dht/routers.py:171-176 | the reply's contacts that are neither us nor the queried node |
| Routers.CloserPeers | kademlia_dht/routers.py:178-185 | the peers that pass the copy's closer test |
| Routers.FurtherPeers | kademlia_dht/routers.py:186-190 | the peers that fail the closer test |
| Routers.AppendNewIdsPrefix | kademlia_dht/routers.py:180-190 | appending by new id keeps the list as a prefix and adds only peers whose id it lacked |
| Routers.AppendNewIdsDistinct | kademlia_dht/routers.py:180-190 | appending by new id never repeats an id |
| Routers.AppendNewIdsCovers | kademlia_dht/routers.py:180-190 | after appending by new id, every peer's id is in the list |
| Routers.CloserNodesAppends | kademlia/routers.py:149-192 | `get_closer_nodes` only appends; each added contact comes from the reply, is neither us nor the queried node, passes (closer list) or fails (further list) the closer test, and has an id the list lacked |
| Routers.CloserNodesCovers | kademlia.py:1110-1144 | `get_closer_nodes` keeps ids distinct within each list, and every eligible peer's id ends up in the list its closer test picks |
| Routers.QuerySpec | kademlia_dht/routers.py:90-133 | `_query`'s result always carries the closer list as its contacts |
| Routers.QueryOnlyAppends | kademlia_dht/routers.py:113-133 | `_query` only appends to the two lists |
| Routers.QueryFound | kademlia_dht/routers.py:113-133 | when `_query` finds a value, val and found_by are those of the first node that answers with a value |
| Routers.QueryFindsAnswer | kademlia/routers.py:113-133 | when some node answers with a value and the nodes before it answer without one, `_query` finds the value |
| Routers.QueryNotFound | kademlia_dht/routers.py:113-133 | when `_query` finds nothing, every node answered without a value, and val is the initial one only with no node to query |
| Routers.FindClosestNonemptyKBucket | kademlia_dht/routers.py:25-40 | it always raises: AllKBucketsAreEmptyError exactly when every bucket is empty, AttributeError (the missing `b.id`) otherwise |
| Routers.Partition | kademlia/routers.py:246-250 | the first-round split adds every queried node to one of the two lists |
| Routers.Seed | kademlia/routers.py:241-254 | seeding the lists before the first `_query` only appends to them |
| Routers.Uncontacted | kademlia_dht/routers.py:284-289 | the listed contacts not yet contacted |
| Routers.RoundsOnlyAppend | kademlia_dht/routers.py:283-328 | the while loop only appends to the two lists |
| Routers.LookupOnlyAppends | kademlia_dht/routers.py:204-345 | `lookup` only appends to the router's lists, which persist across lookups |
| Routers.RoundsKeepRet | kademlia_dht/routers.py:283-345 | the while loop ends with an exception, no result, a found result with a value and the closer list as contacts, or the not-found result built from ret as it was before the loop |
| Routers.NotFoundShape | kademlia/routers.py:337-342 | the not-found contacts are at most K, ascending in XOR distance to the key, without repeated ids, all from the closer list |
| Routers.TakeOfSorted | kademlia_dht/routers.py:342 | a prefix of a sorted list with distinct ids is both, and from the list |
| Routers.LookupAsWrittenRaises | kademlia_dht/routers.py:225 | with kademlia_dht's constants (no TRY_CLOSEST_BUCKET) lookup raises AttributeError; with kademlia/'s (TRY_CLOSEST_BUCKET True) the bucket pick raises; neither queries anything or changes the lists |
| Routers.LookupResult | kademlia_dht/routers.py:266-345 | a found result has a value and the closer list as contacts; a not-found result has no value and no found_by, and its contacts are built from the closer list after the first `_query`: with `give_me_all`, de-duplicated by id; otherwise also sorted by XOR and cut to K |
| Routers.GetClosestNodes | kademlia_dht/routers.py:140-147 | `get_closest_nodes` is a permutation of the bucket's contacts, ascending in XOR distance to the key |
| Routers.AppendByNewIds | kademlia_dht/routers.py:273-275 | the append-by-new-id loop computes AppendNewIds |
| Routers.Router.constructor | kademlia_dht/routers.py:200-202 | a new router has both lists empty |
| Routers.Router.GetCloserNodes | kademlia_dht/routers.py:149-192 | an RPC exception propagates and leaves the lists unchanged; otherwise it returns (val is not None, val, found_by) and the lists become those of CloserNodes |
| Routers.Router.Query | kademlia/routers.py:90-133 | `_query` on the router's own lists has the result and the lists of QuerySpec |
| Routers.Router.Lookup | kademlia/routers.py:201-342 | `lookup` has the result and the lists of LookupSpec |
| Routers.Router.LookupFrom | kademlia_dht/routers.py:241-345 | lookup from all_nodes on has the result and the lists of FromNodes |
| Routers.Router.SeedLists | kademlia_dht/routers.py:244-257 | the first-round split leaves the lists Seed computes |
| Routers.Router.Round | kademlia_dht/routers.py:281-325 | one round marks its batch contacted as MarkContacted says and queries it as QuerySpec says |
| Routers.Router.RunRounds | kademlia_dht/routers.py:283-328 | the while loop has the result and the lists of Rounds |
| Dht.Bumped | kademlia/dht.py:469-481 | `_add_contact_to_evict(key)` makes the key's count 1 on its first call and one more on each later call, and keeps every other key's count |
| Dht.EvictSpec | kademlia/dht.py:495-514 | `_evict_contact` drops the contact's count even when it raises; it raises BucketDoesNotContainContactToEvictError exactly when the bucket lacks the id and changes no bucket when it raises; otherwise the contact leaves that bucket only |
| Dht.Candidates | kademlia/dht.py:537-550 | the pending contacts whose bucket is the given one |
| Dht.ReplaceWithPendingSpec | kademlia/dht.py:537-550 | `_replace_with_pending_contact` raises IndexError exactly when no pending contact maps to the bucket, keeps the counts, and changes no other bucket |
| Dht.ReplaceWithPendingChoice | kademlia/dht.py:537-550 | the refill takes the last pending contact with the greatest last_seen that maps to the bucket, removes it from pending, and stores it when the bucket has room |
| Dht.ReplaceWithPendingShrinks | kademlia/dht.py:547-548 | the pending list loses at most one of its own contacts |
| Dht.ReplaceContactSpec | kademlia/dht.py:483-493 | `_replace_contact` raises OutOfRangeError with nothing changed on an empty routing table; otherwise it drops the contact's count; the number of buckets is kept |
| Dht.ReplaceContactSteps | kademlia/dht.py:483-514 | on a non-empty table: a contact that is not in its bucket raises and changes no bucket; otherwise exactly one copy of it leaves the bucket, which is then not full if it held at most K, and with no pending candidate IndexError is raised with that bucket table, while with one the chosen candidate leaves pending and is in the bucket unless add_contact raised |
| Dht.ReplaceContactShrinksPending | kademlia/dht.py:483-493 | a replacement removes at most one pending contact |
| Dht.HandleErrorSpec | kademlia/dht.py:429-442 | `handle_error` changes nothing for no error or an error without `has_error()`; kademlia.py counts the attempt and then raises AttributeError; the number of buckets is kept |
| Dht.HandleErrorCounts | kademlia/dht.py:438-442 | for a reported error the attempt is counted; below EVICTION_LIMIT nothing else changes and nothing is raised; at or above it the contact is replaced: OutOfRangeError with only the count changed on an empty table, and otherwise the count is dropped, pending loses at most one contact and the number of buckets is kept |
| Dht.RpcFindValueSpec | kademlia_dht/routers.py:70-88 | without a reported error `rpc_find_value` leaves the DHT unchanged and returns FindValueReply; with one, the DHT is what handle_error left, an exception of handle_error is the result, and otherwise the reply is ([], None, None) |
| Dht.HandleErrors | kademlia_dht/routers.py:70-72 | the handle_error calls of a lookup's RPCs keep the number of buckets, the distinct pending ids and the counts below EVICTION_LIMIT, and without a reported error change nothing |
| Dht.Pend | kademlia.py:1674-1675 | `to_replace` joins pending only when no pending contact has its id |
| Dht.DelayEvictionAtLimit | kademlia/dht.py:444-467 | below the limit `delay_eviction` only pends to_replace and counts one more attempt; replacement happens exactly when the count reaches EVICTION_LIMIT, and then the count is dropped |
| Dht.DelayEvictionKeepsPendingDistinct | kademlia.py:1658-1681 | `delay_eviction` keeps the pending ids distinct, in both copies |
| Dht.HandleErrorKeepsPendingDistinct | kademlia/dht.py:429-442 | `handle_error` keeps the pending ids distinct |
| Dht.HandleErrorKeepsBelowLimit | kademlia/constants.py:18 | with counts below EVICTION_LIMIT and a non-empty table, `handle_error` keeps every count below the limit |
| Dht.DelayEvictionKeepsBelowLimit | kademlia/dht.py:444-467 | `delay_eviction` keeps every count below the limit |
| Dht.DeferredSpec | kademlia/dht.py:444-467 | no request changes nothing; `add_to_pending`, which the DHT does not define, raises AttributeError |
| Dht.SortedIds | kademlia/dht.py:415-427 | the sorted id list has one entry per contact in the table |
| Dht.SeparatingNodesCountProperties | kademlia/dht.py:415-427 | the separating-node count is symmetric, 0 for two contacts with one id, below the number of contacts, and fails (IndexError) exactly on an empty table |
| Dht.ExpirationFor | kademlia/dht.py:197 | the cached copy's expiration time is at most EXPIRATION_TIME_SEC, and exactly it with no separating contact |
| Dht.FirstOther | kademlia/dht.py:189-193 | store_to is the first contact whose id differs from found_by's; reading found_by's id raises AttributeError when it is None and there is a contact |
| Dht.FindStoreTo | kademlia/dht.py:189-193 | the loop computes FirstOther |
| Dht.CacheFound | kademlia/dht.py:182-200 | after a found lookup the reply is (True, None, val); a store goes to a returned contact other than the finder, with the expiration time ExpirationFor computes |
| Dht.FindValueSpec | kademlia/dht.py:144-202 | a reply from `find_value` never carries contacts, and the number of buckets is kept |
| Dht.FindValueLocalFirst | kademlia/dht.py:164-179 | a locally held value is returned from the first of the originator, republish and cache storage with a truthy value; nothing else changes and no lookup or store happens |
| Dht.FindValueNotFound | kademlia/dht.py:175-202 | without a local value and with a lookup that finds nothing and whose handle_error calls raise nothing, the reply has no value, its found flag is the cache's try_get_value flag, and the bookkeeping is what those calls left |
| Dht.FindValueKeepsInvariants | kademlia/dht.py:180-200 | `find_value` keeps the pending ids distinct and every count below EVICTION_LIMIT on a non-empty table, through the lookup's handle_error calls and the store's |
| Dht.NodeFindValue | kademlia.py:496-514 | `Node.find_value` raises SendingQueryToSelfError exactly for our own id (with the new-contact transfer left out), returns the storage value first, then the cache value, else close contacts without a value |
| Dht.NodeFindValueContacts | kademlia.py:509-514 | those contacts are at most K, none the sender's, ascending in XOR distance to the key |
| Dht.ExpiredKeys | kademlia/dht.py:364-375 | the keys whose age reached their expiration time |
| Dht.Keep | kademlia/dht.py:373-375 | exactly the listed keys that are not removed |
| Dht.UnexpiredCorrect | kademlia/dht.py:364-375 | after the purge the store is well formed, no entry is expired, every younger entry is kept unchanged, and nothing is added |
| Dht.RemoveExpiredData | kademlia/dht.py:364-375 | `_remove_expired_data(now)` leaves the store Unexpired computes |
| Dht.RemoveEach | kademlia/dht.py:373-375 | removing the keys one by one purges exactly those keys |
| Dht.DHT.constructor | kademlia/dht.py:112-126 | a new DHT has no eviction counts and no pending contacts |
| Dht.DHT.AddContactToEvict | kademlia.py:1683-1691 | the method bumps the key's count, returns it, and changes nothing else |
| Dht.DHT.EvictContact | kademlia/dht.py:495-514 | `_evict_contact` has the outcome of EvictSpec |
| Dht.DHT.ReplaceWithPendingContact | kademlia/dht.py:537-550 | `_replace_with_pending_contact` has the outcome of ReplaceWithPendingSpec |
| Dht.DHT.ReplaceContact | kademlia/dht.py:483-493 | `_replace_contact` has the outcome of ReplaceContactSpec |
| Dht.DHT.HandleError | kademlia/dht.py:429-442 | `handle_error` has the outcome of HandleErrorSpec |
| Dht.DHT.RpcFindValue | kademlia_dht/routers.py:70-88 | `rpc_find_value` on a router wired to this DHT has the reply and the bookkeeping of RpcFindValueSpec |
| Dht.DHT.HandleLookupErrors | kademlia_dht/routers.py:70-72 | the lookup's handle_error calls, one by one, have the outcome of HandleErrors |
| Dht.DHT.DelayEviction | kademlia/dht.py:444-467 | `delay_eviction` has the outcome of DelayEvictionSpec |
| Dht.DHT.Deferred | kademlia_dht/buckets.py:245-253 | the DHT call from the full-bucket branch has the outcome of DeferredSpec |
| Dht.DHT.GetSeparatingNodesCount | kademlia/dht.py:415-427 | the method computes SeparatingNodesCount |
| Dht.DHT.FindValue | kademlia/dht.py:144-202 | `find_value` has the reply, the bookkeeping (including the lookup's handle_error calls) and the store of FindValueSpec |
| Dht.DHT.CacheFoundValue | kademlia/dht.py:182-200 | the caching step has the outcome of CacheFound |
| Storage.Empty | kademlia/storage.py:18-19 | a new store is well formed and empty |
| Storage.WithoutKey | kademlia/storage.py:70-77 | the key list without the removed key; distinct keys stay distinct |
| Storage.GetKeys | kademlia/storage.py:79-84 | `get_keys()` lists exactly the stored keys, each once |
| Storage.Contains | kademlia/storage.py:21-25 | `contains(key)` holds exactly when the key is stored |
| Storage.Get | kademlia/storage.py:27-38 | `get` raises TypeError exactly for a key that is neither ID nor int, returns the stored value for a stored key, and raises KeyError otherwise |
| Storage.GetTimestamp | kademlia/storage.py:40-46 | `get_timestamp` returns the republish timestamp of a stored key, else KeyError |
| Storage.GetExpirationTimeSec | kademlia/storage.py:62-68 | `get_expiration_time_sec` returns the stored expiration time, else KeyError |
| Storage.TryGetValue | kademlia/storage.py:94-107 | `try_get_value` is (True, value) for a stored key and (False, None) otherwise |
| Storage.Touched | kademlia/storage.py:86-92 | `touch` raises KeyError exactly for a missing key |
| Storage.AssignedValid | kademlia/storage.py:56-60 | assignment stores the entry, keeps the store well formed, and keeps every other key and entry |
| Storage.RemovedValid | kademlia/storage.py:70-77 | removal drops only that key and keeps the store well formed |
| Storage.SetThenGet | kademlia/storage.py:48-60 | after `set(k, v, e)`: `contains(k)`, `get(k) == v` for an ID or int key, `try_get_value(k) == (True, v)`, expiration e, timestamp now, every other key unchanged |
| Storage.TouchKeepsValue | kademlia/storage.py:86-92 | `touch` changes only the key's republish timestamp, not its value, expiration time, the keys or other entries |
| Storage.VirtualStorage.constructor | kademlia/storage.py:18-19 | the store starts empty |
| Storage.VirtualStorage.Touch | kademlia/storage.py:86-92 | `touch` leaves the store Touched computes, or raises KeyError and changes nothing |
| Storage.VirtualStorage.Set | kademlia/storage.py:48-60 | `set` leaves the store with the entry assigned and touched at now |
| Storage.VirtualStorage.Remove | kademlia/storage.py:70-77 | `remove` removes a present key and does nothing otherwise |
| Queues.RunConserves | kademlia_dht/my_queues.py:21-37 | over any run of enqueues and dequeues, the items dequeued followed by those still queued are those queued before followed by those enqueued |
| Queues.FifoOrder | kademlia/my_queues.py:15-23 | from an empty queue, the dequeued items are a prefix of the enqueued ones, in order, and the queue holds the rest |
| Queues.EmptyDequeue | kademlia_dht/my_queues.py:29-37 | `dequeue` on an empty queue returns None and leaves it empty; after an enqueue it returns the item |
| Queues.InfiniteLinearQueue.constructor | kademlia_dht/my_queues.py:5-6 | a new queue is empty |
| Queues.InfiniteLinearQueue.IsEmpty | kademlia_dht/my_queues.py:14-19 | `is_empty` holds exactly when no item is held |
| Queues.InfiniteLinearQueue.Enqueue | kademlia/my_queues.py:15-17 | `enqueue` appends the item and returns True |
| Queues.InfiniteLinearQueue.Dequeue | kademlia/my_queues.py:19-23 | `dequeue` is the Take step: it pops the head, or returns None on an empty queue |
| Queues.Split | kademlia_dht/my_queues.py:94-102 | `str.split(" ")` gives at least one piece |
| Queues.JoinSplit | kademlia_dht/my_queues.py:94-102 | the `__str__` output splits back into the items' strings when none holds a space |
| Queues.Shown | kademlia/my_queues.py:60-64 | `str()` of each item, in order |
| Queues.LinearQueue.constructor | kademlia_dht/my_queues.py:42-51 | a new queue has `queue_size` empty slots (none for a negative size) and holds nothing |
| Queues.LinearQueue.IsFull | kademlia_dht/my_queues.py:80-85 | `is_full` (rear >= max_size − 1) holds exactly when every slot has been used |
| Queues.LinearQueue.IsEmpty | kademlia/my_queues.py:57-58 | `is_empty` (size == 0) holds exactly when nothing is queued |
| Queues.LinearQueue.Enqueue | kademlia_dht/my_queues.py:53-65 | `enqueue` returns False and changes nothing once every slot was used; otherwise it writes slot rear + 1, returns True, and the item joins the back; size = rear − front + 1 and lifetime enqueues never exceed max_size |
| Queues.LinearQueue.Dequeue | kademlia/my_queues.py:45-52 | `dequeue` returns None and changes nothing when size is 0; otherwise it returns the front item and the queue loses it |
| Queues.LinearQueue.ToString | kademlia_dht/my_queues.py:94-102 | `__str__` is the `str()` of the queued items, front first, separated by single spaces |
| Helpers.FirstClosestUnique | kademlia/helpers.py:37-41 | there is only one first-closest index |
| Helpers.ClosestIndex | kademlia/helpers.py:33-43 | an empty list raises IndexError; otherwise the result is a valid index that minimises the absolute difference, the earliest on ties |
| Helpers.FirstClosestFrom | kademlia_dht/helpers.py:37-41 | the recursive reference finds the first closest index |
| Helpers.GetClosestNumberIndex | kademlia_dht/helpers.py:33-43 | the loop raises IndexError exactly on an empty list; otherwise it returns the first index with the least absolute difference to the target |
| RpcErrors.NewRpcError | kademlia_dht/errors.py:55-85 | `protocol_error` is set exactly by a truthy message; a truthy peer message without `peer_error` raises ValueError; every other field is copied |
| RpcErrors.DefaultRpcError | kademlia/errors.py:43-64 | `RPCError()` is the constructor's result with no message and all flags false |
| RpcErrors.DescribeReportsFlags | kademlia_dht/errors.py:97-114 | `__str__` is "No error." exactly when `has_error()` is false; otherwise it names protocol, then peer, then timeout, then id mismatch; "Unknown error." is never produced |
| RpcErrors.NoError | kademlia/errors.py:88-90 | `no_error()` is an instance without error in kademlia_dht/errors.py and None in kademlia/errors.py |
| Protocols.PackageRpcError | kademlia_dht/protocols.py:24-38 | `id_mismatch_error` is (id != ret["random_id"]) for a non-empty response and False otherwise; the timeout flag is copied; `peer_error` is true exactly for a message other than "" and None; the message is kept exactly when it is truthy, and then copied unchanged; reading a missing entry raises KeyError or TypeError |
| Protocols.RootRpcError | protocols.py:11-22 | `resp["random_id"]` is always read; `peer_error` is (peer_error is not None); a non-empty dictionary's message is copied |
| Protocols.NoErrorResult | kademlia/protocols.py:48-63 | the error-free result is an error-free instance only in kademlia_dht; elsewhere it is None |
| Protocols.Ping | kademlia_dht/protocols.py:56-71 | a responding `ping` forwards the call and reports no error; a silent one forwards nothing and reports the timeout and protocol flags with the timeout message |
| Protocols.FindNode | kademlia_dht/protocols.py:73-82 | `find_node` forwards the call and pairs the node's contacts with no error |
| Protocols.FindValue | kademlia/protocols.py:76-84 | `find_value` forwards the call and pairs the node's contacts and value with no error |
| Protocols.Store | kademlia/protocols.py:86-101 | `store` forwards every argument unchanged and reports no error |
| Protocols.PingResultTruthiness | protocols.py:37-45 | a responding ping reports no error in every copy, but only kademlia_dht hands back an (always truthy) error object; a silent ping's error is truthy |
| Network.KBucket.constructor | kademlia/network.py:35-41 | a new bucket is empty, over [0, 2^160], with capacity k |
| Network.KBucket.BucketFull | kademlia/network.py:43-44 | `bucket_full` holds exactly when the bucket holds max(k, 0) contacts |
| Network.KBucket.AddContact | kademlia/network.py:52-59 | `add_contact` raises TooManyContactsError when full, before OutOfRangeError outside the inclusive range; otherwise it appends with no duplicate check; the size stays within k, and the initial range never raises OutOfRangeError |
| Network.BucketList.constructor | kademlia/network.py:71-78 | a new list holds one fresh empty bucket over [0, 2^160] with k = 20 |
| Network.BucketList.AddContact | kademlia/network.py:79-80 | `add_contact` changes nothing |
| KBucketPrototype.IndexOf | kademlia/kbucket.py:60 | `list.index` is the first occurrence |
| KBucketPrototype.MovedToTailPermutes | kademlia/kbucket.py:58-65 | moving an element to the tail keeps the length and the elements, puts it last, and keeps the others in order |
| KBucketPrototype.Bucket.IsEmpty | kademlia/kbucket.py:30-31 | `isEmpty` holds exactly for an empty bucket |
| KBucketPrototype.Bucket.Add | kademlia/kbucket.py:33-41 | `add` appends while len <= k_size; otherwise the unpacking raises ValueError and nothing changes |
| KBucketPrototype.Bucket.Pop | kademlia/kbucket.py:43-47 | `pop` removes and returns the front node; IndexError on an empty bucket |
| KBucketPrototype.Bucket.MoveFrontToTail | kademlia/kbucket.py:49-51 | `move_front_to_tail` rotates left by one; IndexError on an empty bucket |
| KBucketPrototype.Bucket.AddContact | kademlia/kbucket.py:53-75 | a present node moves to the tail; for an absent node `isFull` raises TypeError and nothing changes; no node is ever added or dropped |
| KBucketPrototype.NewBucket | kademlia/kbucket.py:21-25 | `Bucket(k_size)` raises ValueError exactly for a negative size, else gives an empty bucket |
| DhtPrototype.KademliaBucket.constructor | DHT.py:7-9 | a new bucket is empty |
| DhtPrototype.KademliaBucket.Add | DHT.py:11-16 | `add` appends the triple while len < k_size, else raises "Bucket full." and changes nothing; the length stays within k_size |
| DhtPrototype.KademliaBucket.Pop | DHT.py:18-24 | `pop` removes and returns the head; IndexError on an empty bucket, which stays as it is |
| DistributedHashing.Bucket.Add | distributed-hashing.py:18-26 | `add` appends while len <= k_size (so reaching k_size + 1); on a longer bucket it overwrites the last triple only when the ping reports its peer unavailable |
| DistributedHashing.Bucket.Pop | distributed-hashing.py:28-34 | `pop` removes and returns the first triple; IndexError on an empty bucket |
| DistributedHashing.NewBucket | distributed-hashing.py:12-16 | `Bucket(k_size)` raises ValueError exactly for a negative size, else gives an empty bucket |

## Left out

- Python object identity: `in`, `list.remove` and `contact not in self.contacts` compare `Contact` objects, which have no `__eq__`, by identity; the model compares contact values (id and last_seen). Likewise `node in self.bucket` and `self.bucket.index(node)` in kademlia/kbucket.py:59-62 compare kademlia/node.py `Node` objects by identity; KBucketPrototype compares the `NodeIds.Node` values.
- Clocks: `datetime.now()` in `Contact.touch`, `KBucket.touch` and the storage timestamps is a `now` argument; the clock itself is not modelled.
- Remote calls are oracle arguments. This covers `ping` in `BucketList.add_contact`, the lookup's `rpc_call`, and the store RPC of `find_value`. The peers' own state changes are not modelled.
- Routers.Router.Lookup: the while loop of `Router.lookup` runs at most `fuel` rounds. When the fuel runs out the result is None. `Router.lookup`'s loop is unbounded, and it can run forever: `ret` never changes inside it, and `contacted_nodes` is de-duplicated by id while the uncontacted lists compare by identity.
- Routers.LookupSpec: the `TRY_CLOSEST_BUCKET` branch is modelled only as the exception it raises. The constants (A, TRY_CLOSEST_BUCKET, DEBUG) are a parameter.
- kademlia.py `Router.lookup`, `Router.query` and `Router.rpc_find_value`: only its `get_closer_nodes` closer test is modelled. The package routers stand for the serial lookup.
- `kademlia.py` `VirtualStorage` and `DHT.find_value`: the model follows `kademlia/storage.py` and `kademlia/dht.py`.
- Dht.ReplaceContactSpec: on a non-empty table the contract states the dropped count and the kept number of buckets, not that no exception is raised. The refill's add_contact can itself raise. That the contact leaves its bucket and the chosen pending contact enters it is stated by Dht.ReplaceContactSteps, not by this contract.
- Dht.DHT.FindValue: the storages are those of the package DHT; of `touch_bucket_with_key` only get_kbucket's OutOfRangeError is modelled; the bucket timestamp update (kademlia/dht.py:209) is dropped.
- Dht.FindValueSpec: the lookup is an oracle, so its result and the (contact, error) pairs its rpc_find_value calls handed to handle_error are arguments; that they come from one run of the lookup is not checked.
- Dht.NodeFindValue: the call `send_key_values_if_new_contact(sender)` (kademlia.py:507, 531-549) is dropped. Its store RPCs and their handle_error are not modelled. That handle_error can raise AttributeError (kademlia.py:1655), so for another sender `Node.find_value` can raise where the model returns a reply. The storages are modelled on `kademlia/storage.py`. kademlia.py's own `VirtualStorage.get` tests `isinstance(type(key), ID)` and `isinstance(type(key), int)`, which are false for every key, so it always raises TypeError (kademlia.py:1236-1248). That class is every kademlia.py node's storage and default cache (kademlia.py:435, 1357, 1737, 1741), so as written `Node.find_value` raises TypeError for a stored key where the model returns the value.
- The DHT's routing table is the value `seq<Bucket>` of BucketValues, not the `BucketList` object.
- The storage factory and the `SecondaryJSONStorage` file storage (disk I/O), and `DHT.save`/`load`.
- Queues.InfiniteLinearQueue.Enqueue: returns kademlia/my_queues.py's True; kademlia_dht/my_queues.py returns None.
- Queues.LinearQueue.ToString: the `str()` of an item is the parameter `show`.
- `ID.hex()`/`ID.denary()` of kademlia/id.py are modelled by the renderings of kademlia/node.py's ID (NodeIds.Hex, NodeIds.Denary), which take a positive id; kademlia/id.py's `hex()` and `denary()` on 0 ("0x0" and 0) are not modelled.
- `ID.random_id`, `random_id_within_bucket_range`, the refresh timers, threads (`ParallelRouter`) and the locks.
- `__str__` and `__repr__` of ID, KBucket and BucketList; logging and printing, and the DEBUG length check of `get_close_contacts`, which cannot fire after the cut to K.
- `kademlia/network.py`: `Contact`'s protocol and last_seen fields, and the `touch`, `split` and `depth` stubs of its KBucket.
- The float `ceil(log(self.MAX_ID, 2))` of `ID.bin` is the constant 160.
