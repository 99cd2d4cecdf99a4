/** VirtualStorage of kademlia/storage.py: an in-memory dictionary from key
    values to stored entries. The dictionary is a map plus the list of its
    keys in insertion order, which is what get_keys() returns. Clock reads
    are the explicit argument `now`. */
module Storage {
  import opened Wrappers
  import opened Ids

  /** StoreValue: the value, its expiration time in seconds, and when it was
      last republished. */
  datatype StoreValue = StoreValue(value: string, expirationTime: int, republishTimestamp: int)

  /** The dictionary's contents: entries by key value, and its keys in
      insertion order. */
  datatype Store = Store(entries: map<int, StoreValue>, keys: seq<int>)

  /** A key as get() receives it: an ID, a plain int, or anything else. */
  datatype Key = IdKey(id: ID) | IntKey(n: int) | OtherKey

  predicate DistinctKeys(keys: seq<int>)
  {
    forall i, j :: 0 <= i < j < |keys| ==> keys[i] != keys[j]
  }

  /** The key list has no repeats and lists exactly the stored keys. */
  predicate Valid(s: Store)
  {
    && DistinctKeys(s.keys)
    && (forall k :: k in s.entries ==> k in s.keys)
    && (forall k :: k in s.keys ==> k in s.entries)
  }

  function Empty(): (s: Store)
    ensures Valid(s) && s.entries == map[]
  {
    Store(map[], [])
  }

  lemma DistinctConsKey(x: int, s: seq<int>)
    requires DistinctKeys(s) && x !in s
    ensures DistinctKeys([x] + s)
  {
    forall i, j | 0 <= i < j < |[x] + s|
      ensures ([x] + s)[i] != ([x] + s)[j]
    {
      if i > 0 {
        assert ([x] + s)[i] == s[i - 1];
      }
      assert ([x] + s)[j] == s[j - 1];
    }
  }

  /** keys with every occurrence of key taken out. */
  function WithoutKey(keys: seq<int>, key: int): (r: seq<int>)
    ensures forall k :: k in r <==> k in keys && k != key
    ensures DistinctKeys(keys) ==> DistinctKeys(r)
  {
    if keys == [] then []
    else if keys[0] == key then WithoutKey(keys[1..], key)
    else
      var rest := WithoutKey(keys[1..], key);
      assert DistinctKeys(keys) ==> DistinctKeys([keys[0]] + rest) by {
        if DistinctKeys(keys) {
          assert forall j :: 0 <= j < |keys[1..]| ==> keys[1..][j] == keys[j + 1];
          DistinctConsKey(keys[0], rest);
        }
      }
      [keys[0]] + rest
  }

  /** get_keys(): the stored keys, each once. */
  function GetKeys(s: Store): (r: seq<int>)
    requires Valid(s)
    ensures DistinctKeys(r)
    ensures forall k :: k in r <==> k in s.entries
  {
    s.keys
  }

  /** contains(key): key is among get_keys(). */
  function Contains(s: Store, key: ID): (r: bool)
    requires Valid(s)
    ensures r <==> key in s.entries
  {
    key in GetKeys(s)
  }

  /** get(key): the stored value for an ID or an int key; KeyError for a
      missing key, TypeError for any other kind of key. */
  function Get(s: Store, key: Key): (r: Result<string>)
    ensures key.OtherKey? <==> r == Err(TypeError)
    ensures r.Ok? <==> !key.OtherKey? && KeyValue(key) in s.entries
    ensures r.Ok? ==> r.value == s.entries[KeyValue(key)].value
    ensures r.Err? ==> r.error == TypeError || r.error == KeyError
  {
    match key
    case IdKey(id) => if id in s.entries then Ok(s.entries[id].value) else Err(KeyError)
    case IntKey(n) => if n in s.entries then Ok(s.entries[n].value) else Err(KeyError)
    case OtherKey => Err(TypeError)
  }

  /** The dictionary key a key stands for. */
  function KeyValue(key: Key): int
  {
    match key
    case IdKey(id) => id
    case IntKey(n) => n
    case OtherKey => -1
  }

  /** get_timestamp(key): when the entry was last republished. */
  function GetTimestamp(s: Store, key: int): (r: Result<int>)
    ensures r.Ok? <==> key in s.entries
    ensures r.Ok? ==> r.value == s.entries[key].republishTimestamp
    ensures r.Err? ==> r.error == KeyError
  {
    if key in s.entries then Ok(s.entries[key].republishTimestamp) else Err(KeyError)
  }

  /** get_expiration_time_sec(key). */
  function GetExpirationTimeSec(s: Store, key: int): (r: Result<int>)
    ensures r.Ok? <==> key in s.entries
    ensures r.Ok? ==> r.value == s.entries[key].expirationTime
    ensures r.Err? ==> r.error == KeyError
  {
    if key in s.entries then Ok(s.entries[key].expirationTime) else Err(KeyError)
  }

  /** try_get_value(key): (True, value) for a stored key, (False, None)
      otherwise. */
  function TryGetValue(s: Store, key: ID): (r: (bool, Option<string>))
    ensures r.0 <==> key in s.entries
    ensures r.0 ==> r.1 == Some(s.entries[key].value)
    ensures !r.0 ==> r.1 == None
  {
    if key in s.entries then (true, Some(s.entries[key].value)) else (false, None)
  }

  /** The dictionary after `_store[key] = entry`: a new key goes last, an
      existing one keeps its place. */
  function Assigned(s: Store, key: int, entry: StoreValue): Store
  {
    Store(s.entries[key := entry], if key in s.entries then s.keys else s.keys + [key])
  }

  /** touch(key): a fresh republish timestamp; KeyError for a missing key. */
  function Touched(s: Store, key: int, now: int): (r: Result<Store>)
    ensures r.Err? <==> key !in s.entries
    ensures r.Err? ==> r.error == KeyError
  {
    if key in s.entries then
      Ok(Assigned(s, key, s.entries[key].(republishTimestamp := now)))
    else Err(KeyError)
  }

  /** The dictionary after `_store.pop(key)` when the key is present. */
  function Removed(s: Store, key: int): Store
  {
    Store(s.entries - {key}, WithoutKey(s.keys, key))
  }

  /** Assignment keeps the dictionary well formed and stores the entry. */
  lemma AssignedValid(s: Store, key: int, entry: StoreValue)
    requires Valid(s)
    ensures var t := Assigned(s, key, entry);
      Valid(t) && t.entries[key] == entry &&
      (forall k :: k != key ==> (k in t.entries <==> k in s.entries)) &&
      (forall k :: k != key && k in s.entries ==> t.entries[k] == s.entries[k])
  {
    if key !in s.entries {
      assert key !in s.keys;
    }
  }

  /** Removal keeps the dictionary well formed and drops only the key. */
  lemma RemovedValid(s: Store, key: int)
    requires Valid(s)
    ensures var t := Removed(s, key);
      Valid(t) && key !in t.entries &&
      (forall k :: k != key ==> (k in t.entries <==> k in s.entries)) &&
      (forall k :: k in t.entries ==> t.entries[k] == s.entries[k])
  {
  }

  /** After set(key, value, e) at time now: contains(key) holds, get and
      try_get_value return the value, the expiration time is e, and every
      other key is as before. */
  lemma SetThenGet(s: Store, key: ID, value: string, e: int, now: int)
    requires Valid(s)
    ensures var t := Assigned(s, key, StoreValue(value, e, now));
      && Valid(t)
      && Contains(t, key)
      && Get(t, IdKey(key)) == Ok(value)
      && Get(t, IntKey(key)) == Ok(value)
      && TryGetValue(t, key) == (true, Some(value))
      && GetExpirationTimeSec(t, key) == Ok(e)
      && GetTimestamp(t, key) == Ok(now)
      && (forall k :: k != key ==> (k in t.entries <==> k in s.entries))
      && (forall k :: k != key && k in s.entries ==> t.entries[k] == s.entries[k])
  {
    AssignedValid(s, key, StoreValue(value, e, now));
  }

  /** touch changes only the timestamp of an entry. */
  lemma TouchKeepsValue(s: Store, key: int, now: int)
    requires Valid(s) && key in s.entries
    ensures var t := Touched(s, key, now).value;
      && Valid(t)
      && t.entries.Keys == s.entries.Keys
      && t.entries[key].value == s.entries[key].value
      && t.entries[key].expirationTime == s.entries[key].expirationTime
      && t.entries[key].republishTimestamp == now
      && t.keys == s.keys
      && (forall k :: k in s.entries && k != key ==> t.entries[k] == s.entries[k])
  {
    AssignedValid(s, key, s.entries[key].(republishTimestamp := now));
  }

  /** In-memory storage: the dictionary is the field `store`. */
  class VirtualStorage {
    var store: Store

    constructor ()
      ensures store == Empty()
    {
      store := Empty();
    }

    /** touch(key, now). */
    method Touch(key: int, now: int) returns (raised: Option<Exception>)
      requires Valid(store)
      modifies this
      ensures Valid(store)
      ensures match Touched(old(store), key, now)
        case Ok(t) => raised == None && store == t
        case Err(e) => raised == Some(e) && store == old(store)
    {
      if key !in store.entries {
        return Some(KeyError);
      }
      TouchKeepsValue(store, key, now);
      store := Assigned(store, key, store.entries[key].(republishTimestamp := now));
      raised := None;
    }

    /** set(key, value, expiration_time_sec): stores the entry, then touches
        it. */
    method Set(key: ID, value: string, expirationTimeSec: int, now: int)
      requires Valid(store)
      modifies this
      ensures Valid(store)
      ensures store == Assigned(old(store), key, StoreValue(value, expirationTimeSec, now))
    {
      AssignedValid(store, key, StoreValue(value, expirationTimeSec, now));
      store := Assigned(store, key, StoreValue(value, expirationTimeSec, now));
      ghost var stored := store;
      var raised := Touch(key, now);
      assert stored.entries[key].(republishTimestamp := now) == stored.entries[key];
      assert store.entries == stored.entries;
    }

    /** remove(key): pops a present key; nothing happens otherwise. */
    method Remove(key: int)
      requires Valid(store)
      modifies this
      ensures Valid(store)
      ensures store == if key in old(store.entries) then Removed(old(store), key) else old(store)
    {
      if key in store.entries {
        RemovedValid(store, key);
        store := Removed(store, key);
      }
    }
  }
}
