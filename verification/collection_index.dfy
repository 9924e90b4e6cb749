/** The hash index kept in sync with a collection: items grouped in
    buckets by the hash `computeHash(value, key)` gives them, and each
    indexed key's hash. A null hash leaves an item out of the index. */
module CollectionIndex {
  import opened Wrappers

  datatype Index<V> = Index(itemsByHash: map<string, map<string, V>>, keysToHash: map<string, string>)

  /** `itemsByHash[prev][key]` on a missing bucket: a TypeError. */
  datatype IndexError = MissingBucket(hash: string)

  /** The index's two maps agree: every indexed key sits in the bucket of
      its hash, and every bucket entry is indexed under that bucket. */
  ghost predicate Consistent<V>(ix: Index<V>) {
    && (forall k :: k in ix.keysToHash ==>
          ix.keysToHash[k] in ix.itemsByHash && k in ix.itemsByHash[ix.keysToHash[k]])
    && (forall h, k :: h in ix.itemsByHash && k in ix.itemsByHash[h] ==>
          k in ix.keysToHash && ix.keysToHash[k] == h)
  }

  /** What the index records for a key: its hash and item, found through
      `keysToHash` and then the bucket. */
  function Lookup<V>(ix: Index<V>, k: string): Option<(string, V)> {
    if k in ix.keysToHash && ix.keysToHash[k] in ix.itemsByHash && k in ix.itemsByHash[ix.keysToHash[k]]
    then Some((ix.keysToHash[k], ix.itemsByHash[ix.keysToHash[k]][k]))
    else None
  }

  function Empty<V>(): (ix: Index<V>)
    ensures Consistent(ix) && forall k :: Lookup(ix, k) == None
  {
    Index(map[], map[])
  }

  function Bucket<V>(ix: Index<V>, h: string): map<string, V> {
    if h in ix.itemsByHash then ix.itemsByHash[h] else map[]
  }

  /** `_onAdd` for one key: a non-null hash files the item in its bucket
      (created on demand) and records the key's hash. */
  function AddOne<V>(ix: Index<V>, hash: Option<string>, key: string, value: V): (r: Index<V>)
    ensures hash.None? ==> r == ix
    ensures hash.Some? ==> r.keysToHash == ix.keysToHash[key := hash.value]
    ensures hash.Some? ==> hash.value in r.itemsByHash && r.itemsByHash[hash.value] == Bucket(ix, hash.value)[key := value]
    ensures forall h :: h in ix.itemsByHash && (hash.None? || h != hash.value) ==> h in r.itemsByHash && r.itemsByHash[h] == ix.itemsByHash[h]
  {
    match hash
    case None => ix
    case Some(h) => Index(ix.itemsByHash[h := Bucket(ix, h)[key := value]], ix.keysToHash[key := h])
  }

  /** `_onUpdate` for one key: out of its previous bucket, then into the
      new hash's bucket, or out of the index for a null hash. */
  function UpdateOne<V>(ix: Index<V>, hash: Option<string>, key: string, value: V): (r: Result<Index<V>, IndexError>)
    ensures r.Err? <==> key in ix.keysToHash && ix.keysToHash[key] !in ix.itemsByHash
    ensures r.Ok? && hash.None? ==> key !in r.value.keysToHash
  {
    var cleared :- Unfile(ix, key);
    match hash
    case None => Ok(Index(cleared.itemsByHash, cleared.keysToHash - {key}))
    case Some(h) => Ok(AddOne(cleared, hash, key, value))
  }

  /** `delete itemsByHash[prev][key]` when the key has a hash. */
  function Unfile<V>(ix: Index<V>, key: string): (r: Result<Index<V>, IndexError>)
    ensures r.Err? <==> key in ix.keysToHash && ix.keysToHash[key] !in ix.itemsByHash
    ensures r.Ok? ==> r.value.keysToHash == ix.keysToHash
    ensures r.Ok? ==> r.value.itemsByHash.Keys == ix.itemsByHash.Keys
    ensures r.Ok? ==> forall h :: h in ix.itemsByHash ==>
      r.value.itemsByHash[h] == if key in ix.keysToHash && h == ix.keysToHash[key] then ix.itemsByHash[h] - {key} else ix.itemsByHash[h]
  {
    if key !in ix.keysToHash then Ok(ix)
    else
      var prev := ix.keysToHash[key];
      if prev !in ix.itemsByHash then Err(MissingBucket(prev))
      else Ok(Index(ix.itemsByHash[prev := ix.itemsByHash[prev] - {key}], ix.keysToHash))
  }

  /** `_onRemove` for one key: out of its bucket and out of the index;
      a key never indexed is ignored. */
  function RemoveOne<V>(ix: Index<V>, key: string): (r: Result<Index<V>, IndexError>)
    ensures key !in ix.keysToHash ==> r == Ok(ix)
    ensures r.Ok? ==> key !in r.value.keysToHash
  {
    if key !in ix.keysToHash then Ok(ix)
    else
      var cleared :- Unfile(ix, key);
      Ok(Index(cleared.itemsByHash, cleared.keysToHash - {key}))
  }

  /** `sweep`: drop the empty buckets. */
  function Sweep<V>(ix: Index<V>): (r: Index<V>)
    ensures r.keysToHash == ix.keysToHash
    ensures forall h :: h in r.itemsByHash <==> h in ix.itemsByHash && |ix.itemsByHash[h]| != 0
    ensures forall h :: h in r.itemsByHash ==> r.itemsByHash[h] == ix.itemsByHash[h]
  {
    Index(map h | h in ix.itemsByHash && |ix.itemsByHash[h]| != 0 :: ix.itemsByHash[h], ix.keysToHash)
  }

  /** `_detachCollection`: both maps cleared. */
  function Detach<V>(ix: Index<V>): (r: Index<V>)
    ensures r.itemsByHash == map[] && r.keysToHash == map[]
    ensures Consistent(r)
  {
    Index(map[], map[])
  }

  // -----------------------------------------------------------------
  // Batches: the `for (const key in items)` loops

  function AddAll<V>(ix: Index<V>, hashOf: (V, string) -> Option<string>, items: seq<(string, V)>): Index<V>
    decreases |items|
  {
    if |items| == 0 then ix
    else AddAll(AddOne(ix, hashOf(items[0].1, items[0].0), items[0].0, items[0].1), hashOf, items[1..])
  }

  function UpdateAll<V>(ix: Index<V>, hashOf: (V, string) -> Option<string>, items: seq<(string, V)>): Result<Index<V>, IndexError>
    decreases |items|
  {
    if |items| == 0 then Ok(ix)
    else
      var next :- UpdateOne(ix, hashOf(items[0].1, items[0].0), items[0].0, items[0].1);
      UpdateAll(next, hashOf, items[1..])
  }

  function RemoveAll<V>(ix: Index<V>, keys: seq<string>): Result<Index<V>, IndexError>
    decreases |keys|
  {
    if |keys| == 0 then Ok(ix)
    else
      var next :- RemoveOne(ix, keys[0]);
      RemoveAll(next, keys[1..])
  }

  // -----------------------------------------------------------------
  // Each operation is the expected edit of the view and keeps the maps
  // consistent

  /** Consistent except that `key` may still name a hash whose bucket no
      longer holds it: the state between the two halves of an update. */
  ghost predicate ConsistentBut<V>(ix: Index<V>, key: string) {
    && (forall k :: k in ix.keysToHash && k != key ==>
          ix.keysToHash[k] in ix.itemsByHash && k in ix.itemsByHash[ix.keysToHash[k]])
    && (forall h, k :: h in ix.itemsByHash && k in ix.itemsByHash[h] ==>
          k != key && k in ix.keysToHash && ix.keysToHash[k] == h)
  }

  /** Taking a key out of its bucket. */
  lemma UnfileLookup<V>(ix: Index<V>, key: string)
    requires Consistent(ix)
    ensures Unfile(ix, key).Ok?
    ensures ConsistentBut(Unfile(ix, key).value, key)
    ensures forall k :: Lookup(Unfile(ix, key).value, k) == if k == key then None else Lookup(ix, k)
  {
  }

  /** Forgetting the hash of a key no bucket holds. */
  lemma ForgetLookup<V>(c: Index<V>, key: string)
    requires ConsistentBut(c, key)
    ensures Consistent(Index(c.itemsByHash, c.keysToHash - {key}))
    ensures forall k :: Lookup(Index(c.itemsByHash, c.keysToHash - {key}), k) == Lookup(c, k)
  {
    var r := Index(c.itemsByHash, c.keysToHash - {key});
    forall h, k | h in r.itemsByHash && k in r.itemsByHash[h]
      ensures k in r.keysToHash && r.keysToHash[k] == h
    {
      assert k != key && k in c.keysToHash;
    }
  }

  /** Filing a key no bucket holds restores consistency. */
  lemma FileConsistent<V>(c: Index<V>, h: string, key: string, value: V)
    requires ConsistentBut(c, key)
    ensures Consistent(AddOne(c, Some(h), key, value))
  {
    var r := AddOne(c, Some(h), key, value);
    forall g, k | g in r.itemsByHash && k in r.itemsByHash[g]
      ensures k in r.keysToHash && r.keysToHash[k] == g
    {
      if g != h || k != key {
        assert k in c.itemsByHash[g];
      }
    }
  }

  /** Filing a key no bucket holds records its hash and item. */
  lemma FileLookup<V>(c: Index<V>, h: string, key: string, value: V)
    requires ConsistentBut(c, key)
    ensures Consistent(AddOne(c, Some(h), key, value))
    ensures forall k :: Lookup(AddOne(c, Some(h), key, value), k) == if k == key then Some((h, value)) else Lookup(c, k)
  {
    FileConsistent(c, h, key, value);
  }

  /** Adding a key the index does not hold records its hash and item;
      with a null hash nothing changes. */
  lemma AddOneLookup<V>(ix: Index<V>, hash: Option<string>, key: string, value: V)
    requires Consistent(ix) && key !in ix.keysToHash
    ensures Consistent(AddOne(ix, hash, key, value))
    ensures forall k :: Lookup(AddOne(ix, hash, key, value), k) ==
                        if k == key && hash.Some? then Some((hash.value, value)) else Lookup(ix, k)
  {
    if hash.Some? {
      FileLookup(ix, hash.value, key, value);
    }
  }

  /** The same add on a key already indexed under another hash leaves the
      old bucket holding it: the collection adds only new keys. */
  lemma AddIndexedKeyLeavesStale<V>(ix: Index<V>, key: string, b: string, value: V)
    requires Consistent(ix) && key in ix.keysToHash && ix.keysToHash[key] != b
    ensures !Consistent(AddOne(ix, Some(b), key, value))
  {
    var a := ix.keysToHash[key];
    var r := AddOne(ix, Some(b), key, value);
    assert a in r.itemsByHash && key in r.itemsByHash[a] && r.keysToHash[key] != a;
  }

  /** Updating records the new hash and item, or drops the key for a null
      hash; no other key changes. */
  lemma UpdateOneLookup<V>(ix: Index<V>, hash: Option<string>, key: string, value: V)
    requires Consistent(ix)
    ensures UpdateOne(ix, hash, key, value).Ok?
    ensures Consistent(UpdateOne(ix, hash, key, value).value)
    ensures forall k :: Lookup(UpdateOne(ix, hash, key, value).value, k) ==
                        if k != key then Lookup(ix, k) else if hash.None? then None else Some((hash.value, value))
  {
    UnfileLookup(ix, key);
    var c := Unfile(ix, key).value;
    if hash.None? {
      ForgetLookup(c, key);
    } else {
      FileLookup(c, hash.value, key, value);
    }
  }

  /** Removing drops the key, whether or not it was indexed. */
  lemma RemoveOneLookup<V>(ix: Index<V>, key: string)
    requires Consistent(ix)
    ensures RemoveOne(ix, key).Ok?
    ensures Consistent(RemoveOne(ix, key).value)
    ensures forall k :: Lookup(RemoveOne(ix, key).value, k) == if k == key then None else Lookup(ix, k)
  {
    UnfileLookup(ix, key);
    ForgetLookup(Unfile(ix, key).value, key);
  }

  /** Sweeping keeps every lookup and the consistency of the maps, and a
      second sweep changes nothing. */
  lemma SweepLookup<V>(ix: Index<V>)
    requires Consistent(ix)
    ensures Consistent(Sweep(ix))
    ensures forall k :: Lookup(Sweep(ix), k) == Lookup(ix, k)
    ensures Sweep(Sweep(ix)) == Sweep(ix)
  {
    var r := Sweep(ix);
    forall k | k in r.keysToHash
      ensures r.keysToHash[k] in r.itemsByHash
    {
      assert k in ix.itemsByHash[ix.keysToHash[k]];
    }
  }

  /** A batch of new keys: each key with a non-null hash is recorded, and
      every other key keeps its entry. */
  lemma {:induction false} AddAllLookup<V>(ix: Index<V>, hashOf: (V, string) -> Option<string>, items: seq<(string, V)>)
    requires Consistent(ix)
    requires forall i :: 0 <= i < |items| ==> items[i].0 !in ix.keysToHash
    requires forall i, j :: 0 <= i < j < |items| ==> items[i].0 != items[j].0
    ensures Consistent(AddAll(ix, hashOf, items))
    ensures forall k :: (forall i :: 0 <= i < |items| ==> items[i].0 != k) ==> Lookup(AddAll(ix, hashOf, items), k) == Lookup(ix, k)
    ensures forall i :: 0 <= i < |items| ==>
      Lookup(AddAll(ix, hashOf, items), items[i].0) ==
        if hashOf(items[i].1, items[i].0).Some? then Some((hashOf(items[i].1, items[i].0).value, items[i].1)) else None
    decreases |items|
  {
    if |items| > 0 {
      var (key, value) := items[0];
      var next := AddOne(ix, hashOf(value, key), key, value);
      AddOneLookup(ix, hashOf(value, key), key, value);
      assert forall i :: 0 <= i < |items[1..]| ==> items[1..][i].0 !in next.keysToHash by {
        forall i | 0 <= i < |items[1..]|
          ensures items[1..][i].0 !in next.keysToHash
        {
          assert items[1..][i] == items[i + 1];
        }
      }
      AddAllLookup(next, hashOf, items[1..]);
      forall k | forall i :: 0 <= i < |items| ==> items[i].0 != k
        ensures Lookup(AddAll(ix, hashOf, items), k) == Lookup(ix, k)
      {
        assert items[0].0 != k;
        assert forall i :: 0 <= i < |items[1..]| ==> items[1..][i].0 != k by {
          forall i | 0 <= i < |items[1..]|
            ensures items[1..][i].0 != k
          {
            assert items[1..][i] == items[i + 1];
          }
        }
      }
      forall i | 0 <= i < |items|
        ensures Lookup(AddAll(ix, hashOf, items), items[i].0) ==
          if hashOf(items[i].1, items[i].0).Some? then Some((hashOf(items[i].1, items[i].0).value, items[i].1)) else None
      {
        if i > 0 {
          assert items[1..][i - 1] == items[i];
        } else {
          assert Lookup(ix, key) == None;
          assert forall j :: 0 <= j < |items[1..]| ==> items[1..][j].0 != key by {
            forall j | 0 <= j < |items[1..]|
              ensures items[1..][j].0 != key
            {
              assert items[1..][j] == items[j + 1];
            }
          }
        }
      }
    }
  }

  /** A batch of updates on a consistent index always succeeds: each key
      ends with its new hash and item, or out of the index for a null
      hash, and every other key keeps its entry. */
  lemma {:induction false} UpdateAllLookup<V>(ix: Index<V>, hashOf: (V, string) -> Option<string>, items: seq<(string, V)>)
    requires Consistent(ix)
    requires forall i, j :: 0 <= i < j < |items| ==> items[i].0 != items[j].0
    ensures UpdateAll(ix, hashOf, items).Ok?
    ensures Consistent(UpdateAll(ix, hashOf, items).value)
    ensures forall k :: (forall i :: 0 <= i < |items| ==> items[i].0 != k) ==> Lookup(UpdateAll(ix, hashOf, items).value, k) == Lookup(ix, k)
    ensures forall i :: 0 <= i < |items| ==>
      Lookup(UpdateAll(ix, hashOf, items).value, items[i].0) ==
        if hashOf(items[i].1, items[i].0).Some? then Some((hashOf(items[i].1, items[i].0).value, items[i].1)) else None
    decreases |items|
  {
    if |items| > 0 {
      var (key, value) := items[0];
      UpdateOneLookup(ix, hashOf(value, key), key, value);
      var next := UpdateOne(ix, hashOf(value, key), key, value).value;
      UpdateAllLookup(next, hashOf, items[1..]);
      forall k | forall i :: 0 <= i < |items| ==> items[i].0 != k
        ensures Lookup(UpdateAll(ix, hashOf, items).value, k) == Lookup(ix, k)
      {
        assert items[0].0 != k;
        assert forall i :: 0 <= i < |items[1..]| ==> items[1..][i].0 != k by {
          forall i | 0 <= i < |items[1..]|
            ensures items[1..][i].0 != k
          {
            assert items[1..][i] == items[i + 1];
          }
        }
      }
      forall i | 0 <= i < |items|
        ensures Lookup(UpdateAll(ix, hashOf, items).value, items[i].0) ==
          if hashOf(items[i].1, items[i].0).Some? then Some((hashOf(items[i].1, items[i].0).value, items[i].1)) else None
      {
        if i > 0 {
          assert items[1..][i - 1] == items[i];
        } else {
          assert forall j :: 0 <= j < |items[1..]| ==> items[1..][j].0 != key by {
            forall j | 0 <= j < |items[1..]|
              ensures items[1..][j].0 != key
            {
              assert items[1..][j] == items[j + 1];
            }
          }
        }
      }
    }
  }

  /** A batch of removals on a consistent index always succeeds, keeps it
      consistent, drops every removed key and keeps every other one. */
  lemma {:induction false} RemoveAllLookup<V>(ix: Index<V>, keys: seq<string>)
    requires Consistent(ix)
    ensures RemoveAll(ix, keys).Ok?
    ensures Consistent(RemoveAll(ix, keys).value)
    ensures forall k :: Lookup(RemoveAll(ix, keys).value, k) == if k in keys then None else Lookup(ix, k)
    decreases |keys|
  {
    if |keys| > 0 {
      RemoveOneLookup(ix, keys[0]);
      var next := RemoveOne(ix, keys[0]).value;
      RemoveAllLookup(next, keys[1..]);
      assert forall k :: k in keys <==> k == keys[0] || k in keys[1..];
    }
  }
}
