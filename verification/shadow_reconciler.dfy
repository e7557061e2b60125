/** The shadow generator and the reconcile loop that keeps every shadow in the cluster apart from every other. */
module ShadowReconciler {
  import opened Options
  import opened Huffman
  import opened Shadows

  type Owner = string
  type Key = string

  // The managed shadows of a cluster: by owner, then by data key.
  type Cluster = map<Owner, map<Key, string>>

  predicate HasPrefix(s: string, p: string) {
    |s| >= SHADOW_PREFIX_LEN && RawKey(s) == p
  }

  // ---- The generator ----

  // An owner occupies a prefix.
  predicate Occupies(used: map<string, set<Owner>>, p: string, o: Owner) {
    p in used && o in used[p]
  }

  datatype Minted = Shadow(value: string) | Unsatisfiable | Exhausted

  class ShadowGenerator {
    var used: map<string, set<Owner>>

    constructor (seed: map<string, set<Owner>>)
      ensures used == seed
    {
      used := seed;
    }

    // Collides: is the shadow's prefix some other owner's? With no owner ("" is none), anybody's.
    function Collides(shadow: string, owner: Owner): (c: bool)
      reads this
      ensures c <==> |shadow| >= SHADOW_PREFIX_LEN && exists o :: o != owner && Occupies(used, RawKey(shadow), o)
    {
      if |shadow| < SHADOW_PREFIX_LEN then false else
      var p := RawKey(shadow);
      var c := p in used && exists o :: o in used[p] && o != owner;
      assert c ==> exists o :: o != owner && Occupies(used, p, o) by {
        if c {
          var o :| o in used[p] && o != owner;
          assert Occupies(used, p, o);
        }
      }
      c
    }

    // Record
    method Record(shadow: string, owner: Owner)
      modifies this
      ensures forall p, o :: Occupies(used, p, o) <==> Occupies(old(used), p, o) || (HasPrefix(shadow, p) && o == owner)
    {
      if |shadow| < SHADOW_PREFIX_LEN {
        return;
      }
      var p := RawKey(shadow);
      if p !in used {
        used := used[p := {}];
      }
      used := used[p := used[p] + {owner}];
    }

    // Generate. No owner is "", so a prefix anybody holds is refused.
    method Generate(buckets: array<string>, originalLen: int, realHuffmanBits: int, owner: Owner, maxRetries: nat) returns (r: Minted)
      requires buckets.Length == MAX_BITS + 1
      requires forall n :: MIN_BITS <= n <= MAX_BITS ==> buckets[n] == Bucket(ALPHABET, n)
      modifies this
      ensures r.Unsatisfiable? <==> maxRetries > 0 && !CanShadow(originalLen, realHuffmanBits)
      ensures r.Shadow? ==> Shadowing(r.value, originalLen, realHuffmanBits)
      ensures r.Shadow? ==> forall o :: o != "" && |r.value| >= SHADOW_PREFIX_LEN ==> !Occupies(old(used), RawKey(r.value), o)
      ensures forall p, o :: Occupies(used, p, o) <==> Occupies(old(used), p, o) || (r.Shadow? && HasPrefix(r.value, p) && o == owner)
    {
      hide Shadowing, CanShadow, Bucket;
      var attempt := 0;
      while attempt < maxRetries
        invariant 0 <= attempt <= maxRetries && used == old(used)
        invariant attempt > 0 ==> CanShadow(originalLen, realHuffmanBits)
      {
        var s := GenerateShadowValue(buckets, originalLen, realHuffmanBits);
        if s.None? {
          return Unsatisfiable;
        }
        if !Collides(s.value, "") {
          Record(s.value, owner);
          return Shadow(s.value);
        }
        attempt := attempt + 1;
      }
      return Exhausted;
    }
  }

  // ---- What holds of a cluster ----

  ghost predicate In(c: Cluster, o: Owner, k: Key, s: string) {
    o in c && k in c[o] && c[o][k] == s
  }

  // Every shadow was minted as one, is long enough for a key, and shares its raw key with no other.
  ghost predicate Distinct(c: Cluster) {
    && "" !in c
    && (forall o, k, s :: In(c, o, k, s) ==> IsShadow(s) && |s| >= SHADOW_PREFIX_LEN)
    && (forall o, k, s, o', k', s', p {:trigger In(c, o, k, s), In(c, o', k', s'), HasPrefix(s, p), HasPrefix(s', p)} ::
          In(c, o, k, s) && HasPrefix(s, p) && In(c, o', k', s') && HasPrefix(s', p) ==> (o == o' && k == k'))
  }

  // Some shadow of the owner has the prefix.
  ghost predicate Holds(c: Cluster, o: Owner, p: string) {
    exists k, s :: In(c, o, k, s) && HasPrefix(s, p)
  }

  // ---- Seeding ----

  ghost predicate Seeded(c: Cluster, used: map<string, set<Owner>>) {
    forall p, o :: Occupies(used, p, o) <==> Holds(c, o, p)
  }

  // SeedShadowGenerator: the seed holds exactly the prefixes of the cluster's shadows, with their owners.
  method SeedShadowGenerator(c: Cluster) returns (seed: map<string, set<Owner>>)
    ensures Seeded(c, seed)
  {
    seed := map[];
    var owners := c.Keys;
    while owners != {}
      invariant owners <= c.Keys
      invariant forall p, o :: Occupies(seed, p, o) <==> o !in owners && Holds(c, o, p)
      decreases |owners|
    {
      var owner :| owner in owners;
      var done := seed;
      var keys := c[owner].Keys;
      while keys != {}
        invariant keys <= c[owner].Keys
        invariant forall p, o :: o != owner ==> (Occupies(seed, p, o) <==> Occupies(done, p, o))
        invariant forall p :: Occupies(seed, p, owner) <==> exists k, s :: k !in keys && In(c, owner, k, s) && HasPrefix(s, p)
        decreases |keys|
      {
        var key :| key in keys;
        var s := c[owner][key];
        ghost var before, rest := seed, keys;
        keys := keys - {key};
        if |s| >= SHADOW_PREFIX_LEN {
          var p := RawKey(s);
          if p !in seed {
            seed := seed[p := {}];
          }
          seed := seed[p := seed[p] + {owner}];
        }
        assert In(c, owner, key, s);
        forall p ensures Occupies(seed, p, owner) <==> exists k, s :: k !in keys && In(c, owner, k, s) && HasPrefix(s, p) {
          assert Occupies(seed, p, owner) <==> Occupies(before, p, owner) || HasPrefix(s, p);
          if Occupies(before, p, owner) {
            var k0, s0 :| k0 !in rest && In(c, owner, k0, s0) && HasPrefix(s0, p);
            assert k0 !in keys;
          }
          if k0, s0 :| k0 !in keys && In(c, owner, k0, s0) && HasPrefix(s0, p) {
            assert k0 == key || k0 !in rest;
          }
        }
      }
      owners := owners - {owner};
    }
  }

  // ---- One reconcile ----

  // canShadowValue: returns no error.
  predicate CanShadowValue(value: string) {
    |value| >= SHADOW_PREFIX_LEN && CanShadow(|value|, HuffmanBits(value))
  }

  // A persisted shadow that still fits the value: same length and same bits.
  predicate StillFits(shadow: string, value: string) {
    |shadow| >= 4 && shadow[..4] == VALUE_PREFIX && |shadow| == |value| && HuffmanBits(shadow) == HuffmanBits(value)
  }

  // The shadow of key is the persisted one, which still fits value.
  predicate Reused(old': map<Key, string>, key: Key, value: string, shadow: string) {
    key in old' && old'[key] == shadow && StillFits(shadow, value)
  }

  // What is true of one shadow chosen for key: no other owner has its prefix, it fits its value, and it is
  // the persisted one or has a prefix nobody had.
  ghost predicate Chosen(c: Cluster, owner: Owner, key: Key, value: string, shadow: string) {
    && |shadow| >= SHADOW_PREFIX_LEN && |shadow| == |value| && HuffmanBits(shadow) == HuffmanBits(value)
    && (forall o :: o != owner && o != "" ==> !Holds(c, o, RawKey(shadow)))
    && (|| Reused(Get(c, owner), key, value, shadow)
        || (IsShadow(shadow) && forall o :: o != "" ==> !Holds(c, o, RawKey(shadow))))
  }

  function Get(c: Cluster, owner: Owner): (r: map<Key, string>) {
    if owner in c then c[owner] else map[]
  }

  ghost predicate Has(data: map<Key, string>, p: string) {
    exists k :: k in data && HasPrefix(data[k], p)
  }

  // Two keys of the new data never share a prefix.
  ghost predicate Apart(data: map<Key, string>) {
    forall k, k', p {:trigger HasPrefix(data[k], p), HasPrefix(data[k'], p)} ::
      k in data && k' in data && HasPrefix(data[k], p) && HasPrefix(data[k'], p) ==> k == k'
  }

  // What the loop over the data keys has made of the keys in `done`.
  ghost predicate Built(c: Cluster, owner: Owner, data: map<Key, string>, done: set<Key>, newData: map<Key, string>) {
    && done <= data.Keys
    && (forall k :: k in newData <==> k in done && CanShadowValue(data[k]))
    && (forall k :: k in newData ==> Chosen(c, owner, k, data[k], newData[k]))
    && Apart(newData)
    // A persisted shadow that still fits is kept unless its prefix is taken.
    && (Distinct(c) ==> forall k :: k in newData && k in Get(c, owner) && StillFits(Get(c, owner)[k], data[k]) ==>
          newData[k] == Get(c, owner)[k])
  }

  // isPrefixUsed
  method IsPrefixUsed(shadows: seq<string>, p: string) returns (used: bool)
    ensures used <==> BatchHas(shadows, p)
  {
    for i := 0 to |shadows|
      invariant forall j :: 0 <= j < i ==> !HasPrefix(shadows[j], p)
    {
      if |shadows[i]| >= SHADOW_PREFIX_LEN && RawKey(shadows[i]) == p {
        return true;
      }
    }
    return false;
  }

  // The generator knows the cluster's prefixes and those chosen so far; so does the batch.
  ghost predicate Known(c: Cluster, owner: Owner, newData: map<Key, string>, used: map<string, set<Owner>>) {
    forall p, o :: Occupies(used, p, o) <==> Holds(c, o, p) || (o == owner && Has(newData, p))
  }

  ghost predicate BatchHas(batch: seq<string>, p: string) {
    exists i :: 0 <= i < |batch| && HasPrefix(batch[i], p)
  }

  ghost predicate InBatch(newData: map<Key, string>, batch: seq<string>) {
    forall p :: BatchHas(batch, p) <==> Has(newData, p)
  }

  lemma HasAdded(newData: map<Key, string>, key: Key, shadow: string, p: string)
    requires key !in newData
    ensures Has(newData[key := shadow], p) <==> Has(newData, p) || HasPrefix(shadow, p)
  {
    var new' := newData[key := shadow];
    if k :| k in newData && HasPrefix(newData[k], p) {
      assert k in new' && HasPrefix(new'[k], p);
    }
    if HasPrefix(shadow, p) {
      assert key in new' && HasPrefix(new'[key], p);
    }
  }

  lemma BatchAdded(newData: map<Key, string>, batch: seq<string>, key: Key, shadow: string)
    requires InBatch(newData, batch) && key !in newData
    ensures InBatch(newData[key := shadow], batch + [shadow])
  {
    var longer := batch + [shadow];
    forall p ensures BatchHas(longer, p) <==> Has(newData[key := shadow], p) {
      HasAdded(newData, key, shadow, p);
      if i :| 0 <= i < |batch| && HasPrefix(batch[i], p) {
        assert HasPrefix(longer[i], p);
      }
      if HasPrefix(shadow, p) {
        assert HasPrefix(longer[|batch|], p);
      }
    }
  }

  lemma KnownAdded(c: Cluster, owner: Owner, newData: map<Key, string>, used: map<string, set<Owner>>, key: Key, shadow: string,
                   used': map<string, set<Owner>>)
    requires Known(c, owner, newData, used) && key !in newData
    requires forall p, o :: Occupies(used', p, o) <==> Occupies(used, p, o) || (HasPrefix(shadow, p) && o == owner)
    ensures Known(c, owner, newData[key := shadow], used')
  {
    forall p, o ensures Occupies(used', p, o) <==> Holds(c, o, p) || (o == owner && Has(newData[key := shadow], p)) {
      HasAdded(newData, key, shadow, p);
    }
  }

  // Adding a shadow that fits, whose prefix nobody else and no other key has.
  lemma BuiltAdded(c: Cluster, owner: Owner, data: map<Key, string>, done: set<Key>, newData: map<Key, string>, key: Key, shadow: string)
    requires Built(c, owner, data, done, newData) && key in data && key !in done && CanShadowValue(data[key])
    requires Chosen(c, owner, key, data[key], shadow) && !Has(newData, RawKey(shadow))
    requires Distinct(c) && key in Get(c, owner) && StillFits(Get(c, owner)[key], data[key]) ==> shadow == Get(c, owner)[key]
    ensures Built(c, owner, data, done + {key}, newData[key := shadow])
  {
    hide Chosen, Distinct, CanShadowValue, StillFits;
    var new' := newData[key := shadow];
    forall k, k', p | k in new' && k' in new' && HasPrefix(new'[k], p) && HasPrefix(new'[k'], p) ensures k == k' {
      assert k in newData && HasPrefix(newData[k], p) ==> Has(newData, p);
      assert k' in newData && HasPrefix(newData[k'], p) ==> Has(newData, p);
    }
  }

  // In a cluster of distinct shadows, nothing chosen for another key takes a persisted shadow's prefix.
  lemma PersistedIsFree(c: Cluster, owner: Owner, data: map<Key, string>, done: set<Key>, newData: map<Key, string>, key: Key)
    requires Distinct(c) && Built(c, owner, data, done, newData) && owner != ""
    requires key !in done && key in Get(c, owner) && |Get(c, owner)[key]| >= SHADOW_PREFIX_LEN
    ensures var p := RawKey(Get(c, owner)[key]); (forall o :: o != owner ==> !Holds(c, o, p)) && !Has(newData, p)
  {
    var old' := Get(c, owner)[key];
    var p := RawKey(old');
    assert In(c, owner, key, old') && HasPrefix(old', p);
    forall o | o != owner ensures !Holds(c, o, p) {
    }
    forall k | k in newData ensures !HasPrefix(newData[k], p) {
      assert Chosen(c, owner, k, data[k], newData[k]);
      if Reused(Get(c, owner), k, data[k], newData[k]) {
        assert In(c, owner, k, newData[k]);
      } else {
        assert Holds(c, owner, p);
      }
    }
  }

  lemma NothingBuilt(c: Cluster, owner: Owner, data: map<Key, string>, used: map<string, set<Owner>>)
    requires Seeded(c, used)
    ensures Built(c, owner, data, {}, map[]) && Known(c, owner, map[], used) && InBatch(map[], [])
  {
  }

  // The shadow of one key: the persisted one if it still fits and its prefix is free, else a new one.
  method ShadowOf(buckets: array<string>, gen: ShadowGenerator, ghost c: Cluster, owner: Owner, existing: map<Key, string>, key: Key,
                  value: string, batch: seq<string>, ghost newData: map<Key, string>) returns (r: Minted)
    requires buckets.Length == MAX_BITS + 1
    requires forall n :: MIN_BITS <= n <= MAX_BITS ==> buckets[n] == Bucket(ALPHABET, n)
    requires owner != "" && existing == Get(c, owner) && CanShadowValue(value)
    requires Known(c, owner, newData, gen.used) && InBatch(newData, batch)
    modifies gen
    ensures r.Shadow? ==> Chosen(c, owner, key, value, r.value) && !Has(newData, RawKey(r.value))
    ensures r.Shadow? ==> forall p, o :: Occupies(gen.used, p, o) <==> Occupies(old(gen.used), p, o) || (HasPrefix(r.value, p) && o == owner)
    ensures r.Shadow? && key in existing && StillFits(existing[key], value) ==>
              || r.value == existing[key]
              || (exists o :: o != owner && Holds(c, o, RawKey(existing[key]))) || Has(newData, RawKey(existing[key]))
  {
    if key in existing && |existing[key]| > 0 {
      var kept := existing[key];
      if StillFits(kept, value) && !gen.Collides(kept, owner) {
        var taken := IsPrefixUsed(batch, RawKey(kept));
        if !taken {
          forall o | o != owner && o != "" ensures !Holds(c, o, RawKey(kept)) {
            assert !Occupies(gen.used, RawKey(kept), o);
          }
          gen.Record(kept, owner);
          return Shadow(kept);
        }
      }
    }
    r := gen.Generate(buckets, |value|, HuffmanBits(value), owner, 3);
    if r.Shadow? {
      forall o | o != "" ensures !Holds(c, o, RawKey(r.value)) {
        assert !Occupies(old(gen.used), RawKey(r.value), o);
      }
      assert !Occupies(old(gen.used), RawKey(r.value), owner);
    }
  }

  // The new shadow data of an enabled secret, or nothing when a shadow cannot be minted.
  method ShadowData(buckets: array<string>, c: Cluster, owner: Owner, data: map<Key, string>) returns (r: Option<map<Key, string>>)
    requires buckets.Length == MAX_BITS + 1
    requires forall n :: MIN_BITS <= n <= MAX_BITS ==> buckets[n] == Bucket(ALPHABET, n)
    requires owner != ""
    ensures r.Some? ==> Built(c, owner, data, data.Keys, r.value)
  {
    hide Bucket, Chosen, Distinct, CanShadowValue, StillFits, Known, InBatch, Has;
    var seed := SeedShadowGenerator(c);
    var gen := new ShadowGenerator(seed);
    var existing := Get(c, owner);
    var newData: map<Key, string> := map[];
    var batch: seq<string> := [];
    NothingBuilt(c, owner, data, seed);
    var keys := data.Keys;
    while keys != {}
      invariant keys <= data.Keys && fresh(gen)
      invariant Built(c, owner, data, data.Keys - keys, newData)
      invariant Known(c, owner, newData, gen.used) && InBatch(newData, batch)
      decreases |keys|
    {
      var key :| key in keys;
      ghost var done := data.Keys - keys;
      keys := keys - {key};
      assert data.Keys - keys == done + {key};
      var value := data[key];
      if !CanShadowValue(value) {
        continue;
      }
      ghost var used := gen.used;
      var minted := ShadowOf(buckets, gen, c, owner, existing, key, value, batch, newData);
      if !minted.Shadow? {
        return None;
      }
      var shadow := minted.value;
      assert key !in newData;
      if Distinct(c) && key in existing && StillFits(existing[key], value) {
        FitsIsLong(existing[key], value);
        PersistedIsFree(c, owner, data, done, newData, key);
      }
      BuiltAdded(c, owner, data, done, newData, key, shadow);
      KnownAdded(c, owner, newData, used, key, shadow, gen.used);
      BatchAdded(newData, batch, key, shadow);
      batch := batch + [shadow];
      newData := newData[key := shadow];
    }
    assert data.Keys - keys == data.Keys;
    return Some(newData);
  }

  lemma FitsIsLong(shadow: string, value: string)
    requires StillFits(shadow, value) && CanShadowValue(value)
    ensures |shadow| >= SHADOW_PREFIX_LEN
  {
  }

  // ---- Runs of reconciles ----

  // What a reconcile of an owner may make of the cluster.
  ghost predicate Updated(c: Cluster, owner: Owner, data: map<Key, string>, c': Cluster) {
    exists newData :: Built(c, owner, data, data.Keys, newData) && c' == c[owner := newData]
  }

  ghost predicate OwnerStep(c: Cluster, owner: Owner, c': Cluster) {
    owner != "" && (c' == c - {owner} || exists data :: Updated(c, owner, data, c'))
  }

  ghost predicate Step(c: Cluster, c': Cluster) {
    c' == c || exists owner :: OwnerStep(c, owner, c')
  }

  // Reconcile, past the reading of the secret: a disabled secret loses its shadow, an enabled one gets new
  // shadow data, or keeps what it has when a shadow cannot be minted; a secret without any value that can be
  // shadowed gets none.
  method Reconcile(buckets: array<string>, c: Cluster, owner: Owner, enabled: bool, data: map<Key, string>) returns (c': Cluster, failed: bool)
    requires buckets.Length == MAX_BITS + 1
    requires forall n :: MIN_BITS <= n <= MAX_BITS ==> buckets[n] == Bucket(ALPHABET, n)
    requires owner != ""
    ensures Step(c, c') && forall o :: o != owner ==> (o in c' <==> o in c) && (o in c ==> c'[o] == c[o])
    ensures !enabled ==> owner !in c'
    ensures enabled && !failed && owner in c' ==> Updated(c, owner, data, c')
    ensures failed ==> enabled && c' == c
    ensures enabled && !failed && owner !in c' ==> owner !in c && forall k :: k in data ==> !CanShadowValue(data[k])
    ensures enabled && !failed ==>
              forall k :: (owner in c' && k in c'[owner]) <==> k in data && |data[k]| >= 8 && exists s :: FormOf(s, data[k])
  {
    hide Bucket, Built, Updated, FormOf;
    if !enabled {
      assert OwnerStep(c, owner, c - {owner});
      return c - {owner}, false;
    }
    var r := ShadowData(buckets, c, owner, data);
    if r.None? {
      return c, true;
    }
    BuiltKeys(c, owner, data, r.value);
    forall k ensures k in r.value <==> k in data && |data[k]| >= 8 && exists s :: FormOf(s, data[k]) {
      ShadowedKeys(c, owner, data, r.value, k);
    }
    UpdatedBy(c, owner, data, r.value);
    if |r.value| == 0 && (exists k :: k in data && !CanShadowValue(data[k])) && owner !in c {
      return c, false;
    }
    assert OwnerStep(c, owner, c[owner := r.value]);
    return c[owner := r.value], false;
  }

  lemma BuiltKeys(c: Cluster, owner: Owner, data: map<Key, string>, newData: map<Key, string>)
    requires Built(c, owner, data, data.Keys, newData)
    ensures |newData| == 0 ==> forall k :: k in data ==> !CanShadowValue(data[k])
  {
    if |newData| == 0 {
      forall k | k in data ensures !CanShadowValue(data[k]) {
        assert k !in newData;
      }
    }
  }

  lemma UpdatedBy(c: Cluster, owner: Owner, data: map<Key, string>, newData: map<Key, string>)
    requires Built(c, owner, data, data.Keys, newData)
    ensures Updated(c, owner, data, c[owner := newData])
  {
  }

  // Every new shadow has the form of one, when the persisted ones have.
  lemma BuiltIsShadow(c: Cluster, owner: Owner, data: map<Key, string>, newData: map<Key, string>, key: Key)
    requires Distinct(c) && Built(c, owner, data, data.Keys, newData) && key in newData
    ensures Shadowing(newData[key], |data[key]|, HuffmanBits(data[key])) && |newData[key]| >= SHADOW_PREFIX_LEN
    ensures forall o :: o != owner ==> !Holds(c, o, RawKey(newData[key]))
  {
    hide IsShadow, HuffmanBits, CanShadowValue;
    assert Chosen(c, owner, key, data[key], newData[key]);
    if Reused(Get(c, owner), key, data[key], newData[key]) {
      assert In(c, owner, key, newData[key]);
    }
  }

  lemma UpdateKeepsDistinct(c: Cluster, owner: Owner, data: map<Key, string>, newData: map<Key, string>)
    requires Distinct(c) && owner != "" && Built(c, owner, data, data.Keys, newData)
    ensures Distinct(c[owner := newData])
  {
    var c' := c[owner := newData];
    forall k | k in newData
      ensures IsShadow(newData[k]) && |newData[k]| >= SHADOW_PREFIX_LEN && forall o :: o != owner ==> !Holds(c, o, RawKey(newData[k]))
    {
      BuiltIsShadow(c, owner, data, newData, k);
    }
    hide IsShadow, Chosen, StillFits;
    forall o, k, s, o', k', s', p | In(c', o, k, s) && HasPrefix(s, p) && In(c', o', k', s') && HasPrefix(s', p)
      ensures o == o' && k == k'
    {
      assert o != owner ==> In(c, o, k, s) && Holds(c, o, p);
      assert o' != owner ==> In(c, o', k', s') && Holds(c, o', p);
    }
    forall o, k, s | In(c', o, k, s) ensures IsShadow(s) && |s| >= SHADOW_PREFIX_LEN {
      assert o != owner ==> In(c, o, k, s);
    }
  }

  lemma StepKeepsDistinct(c: Cluster, c': Cluster)
    requires Distinct(c) && Step(c, c')
    ensures Distinct(c')
  {
    hide IsShadow, Built;
    if c' != c {
      var owner :| OwnerStep(c, owner, c');
      if c' == c - {owner} {
        assert forall o, k, s :: In(c', o, k, s) ==> In(c, o, k, s);
      } else {
        var data :| Updated(c, owner, data, c');
        var newData :| Built(c, owner, data, data.Keys, newData) && c' == c[owner := newData];
        UpdateKeepsDistinct(c, owner, data, newData);
      }
    }
  }

  // ---- What a reconcile makes, spelled out ----

  // A shadow of a value: "kl::" and characters with codes of 5 to 8 bits, as many bytes and as many encoded bits.
  predicate FormOf(s: string, value: string) {
    && |s| == |value| && HuffmanBits(s) == HuffmanBits(value)
    && |s| >= 4 && s[0] == 'k' && s[1] == 'l' && s[2] == ':' && s[3] == ':' && forall i :: 4 <= i < |s| ==> ShortCode(s[i])
  }

  predicate ShortCode(c: char) {
    c in ALPHABET && 5 <= CodeLen(c) <= 8
  }

  // Exactly the values of at least 8 bytes that have such a form get a shadow, of that form, whose first 8 bytes are no
  // other's; the one a key had is kept if it is still of its value's length and bits.
  lemma ReconciledExactly(c: Cluster, owner: Owner, data: map<Key, string>, c': Cluster)
    requires Distinct(c) && owner != "" && Updated(c, owner, data, c')
    ensures owner in c'
    ensures forall k :: k in c'[owner] <==> k in data && |data[k]| >= 8 && exists s :: FormOf(s, data[k])
    ensures forall k :: k in c'[owner] ==> FormOf(c'[owner][k], data[k])
    ensures forall k, o, k' :: k in c'[owner] && o in c' && k' in c'[o] && (o != owner || k' != k) ==>
              |c'[o][k']| >= 8 && |c'[owner][k]| >= 8 && c'[o][k'][..8] != c'[owner][k][..8]
    ensures forall k :: k in c'[owner] && owner in c && k in c[owner]
                        && |c[owner][k]| == |data[k]| && HuffmanBits(c[owner][k]) == HuffmanBits(data[k]) ==>
              c'[owner][k] == c[owner][k]
  {
    hide Distinct, Built;
    var newData :| Built(c, owner, data, data.Keys, newData) && c' == c[owner := newData];
    UpdateKeepsDistinct(c, owner, data, newData);
    forall k ensures k in newData <==> k in data && |data[k]| >= 8 && exists s :: FormOf(s, data[k]) {
      ShadowedKeys(c, owner, data, newData, k);
    }
    forall k | k in newData ensures FormOf(newData[k], data[k]) {
      ShadowedKeys(c, owner, data, newData, k);
      BuiltIsShadow(c, owner, data, newData, k);
      FormIsShadowing(newData[k], data[k]);
    }
    forall k, o, k' | k in newData && o in c' && k' in c'[o] && (o != owner || k' != k)
      ensures |c'[o][k']| >= 8 && |newData[k]| >= 8 && c'[o][k'][..8] != newData[k][..8]
    {
      ShadowsApart(c', owner, k, o, k');
    }
    forall k | k in newData && owner in c && k in c[owner] && |c[owner][k]| == |data[k]| && HuffmanBits(c[owner][k]) == HuffmanBits(data[k])
      ensures newData[k] == c[owner][k]
    {
      KeptShadow(c, owner, data, newData, k);
    }
  }

  lemma FormIsShadowing(s: string, value: string)
    ensures FormOf(s, value) <==> Shadowing(s, |value|, HuffmanBits(value))
  {
    hide HuffmanBits, InBucket, ShortCode, VALUE_PREFIX;
    if |s| >= 4 {
      StartsWithPrefix(s);
    }
    forall i | 0 <= i < |s| ensures InBucket(s[i]) <==> ShortCode(s[i]) {
      ShortCodeIs(s[i]);
    }
  }

  lemma StartsWithPrefix(s: string)
    requires |s| >= 4
    ensures s[..4] == VALUE_PREFIX <==> s[0] == 'k' && s[1] == 'l' && s[2] == ':' && s[3] == ':'
  {
    var p := s[..4];
    assert p[0] == s[0] && p[1] == s[1] && p[2] == s[2] && p[3] == s[3];
  }

  lemma ShortCodeIs(c: char)
    ensures ShortCode(c) <==> InBucket(c)
  {
    hide CodeLen;
  }

  lemma ShadowedKeys(c: Cluster, owner: Owner, data: map<Key, string>, newData: map<Key, string>, k: Key)
    requires Built(c, owner, data, data.Keys, newData)
    ensures k in newData <==> k in data && |data[k]| >= 8 && exists s :: FormOf(s, data[k])
  {
    hide Chosen, StillFits, FormOf, CanShadow, IsShadow, HuffmanBits;
    if k in data {
      CanShadowExactly(|data[k]|, HuffmanBits(data[k]));
      forall s ensures FormOf(s, data[k]) <==> Shadowing(s, |data[k]|, HuffmanBits(data[k])) {
        FormIsShadowing(s, data[k]);
      }
      if s: string :| |s| == |data[k]| && HuffmanBits(s) == HuffmanBits(data[k]) && IsShadow(s) {
        assert FormOf(s, data[k]);
      }
    }
  }

  lemma ShadowsApart(c: Cluster, o: Owner, k: Key, o': Owner, k': Key)
    requires Distinct(c) && o in c && k in c[o] && o' in c && k' in c[o'] && (o != o' || k != k')
    ensures |c[o][k]| >= 8 && |c[o'][k']| >= 8 && c[o'][k'][..8] != c[o][k][..8]
  {
    hide IsShadow;
    var s, s' := c[o][k], c[o'][k'];
    assert In(c, o, k, s) && In(c, o', k', s');
    var p := s[..8];
    assert HasPrefix(s, p);
    assert s'[..8] == p ==> HasPrefix(s', p);
  }

  lemma KeptShadow(c: Cluster, owner: Owner, data: map<Key, string>, newData: map<Key, string>, k: Key)
    requires Distinct(c) && Built(c, owner, data, data.Keys, newData) && k in newData && owner in c && k in c[owner]
    requires |c[owner][k]| == |data[k]| && HuffmanBits(c[owner][k]) == HuffmanBits(data[k])
    ensures newData[k] == c[owner][k]
  {
    hide Chosen, CanShadowValue, HuffmanBits;
    assert In(c, owner, k, c[owner][k]);
    assert StillFits(Get(c, owner)[k], data[k]);
  }

  // From an empty cluster, every run of reconciles keeps all shadows apart.
  lemma {:induction false} RunKeepsDistinct(run: seq<Cluster>)
    requires |run| > 0 && run[0] == map[]
    requires forall i :: 0 <= i < |run| - 1 ==> Step(run[i], run[i + 1])
    ensures Distinct(run[|run| - 1])
  {
    var n := |run| - 1;
    if n > 0 {
      RunKeepsDistinct(run[..n]);
      assert Step(run[n - 1], run[n - 1 + 1]);
      StepKeepsDistinct(run[n - 1], run[n]);
    }
  }

  // In such a cluster no two shadows share any key, raw or Huffman, and no shadow's two keys are equal:
  // a key leads to one secret.
  lemma KeysLeadToOneSecret(c: Cluster, o: Owner, k: Key, s: string, o': Owner, k': Key, s': string, i: nat, i': nat)
    requires Distinct(c) && In(c, o, k, s) && In(c, o', k', s')
    requires i < |PlaceholderKeys(s)| && i' < |PlaceholderKeys(s')| && PlaceholderKeys(s)[i] == PlaceholderKeys(s')[i']
    ensures o == o' && k == k' && i == i'
  {
    hide HuffmanPlaceholderKey;
    assert IsShadow(s) && IsShadow(s');
    if i != i' {
      if i == 0 {
        NoRawIsHuffman(s, s');
      } else {
        NoRawIsHuffman(s', s);
      }
    } else if i == 1 {
      SameHuffmanSameRaw(s, s');
    }
    hide IsShadow;
    assert HasPrefix(s, RawKey(s));
    assert RawKey(s) == RawKey(s') ==> HasPrefix(s', RawKey(s));
  }

  // Reconciling again changes nothing: every shadow that was chosen still fits its value.
  lemma ReconcileAgain(c: Cluster, owner: Owner, data: map<Key, string>, newData: map<Key, string>, again: map<Key, string>)
    requires Distinct(c) && owner != "" && Built(c, owner, data, data.Keys, newData)
    requires Built(c[owner := newData], owner, data, data.Keys, again)
    ensures again == newData
  {
    UpdateKeepsDistinct(c, owner, data, newData);
    assert Get(c[owner := newData], owner) == newData;
    forall k | k in newData ensures StillFits(newData[k], data[k]) {
      BuiltIsShadow(c, owner, data, newData, k);
    }
    hide Distinct, Chosen, StillFits, CanShadowValue;
    forall k | k in newData ensures k in again && again[k] == newData[k] {
    }
    assert again.Keys == newData.Keys;
  }
}
