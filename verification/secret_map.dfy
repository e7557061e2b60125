/** secret_map: what a snapshot of the secrets puts in it. */
module SecretMap {
  import opened Options
  import opened Wire
  import opened Huffman
  import opened Shadows
  import opened ShadowReconciler
  import opened VipUpstream
  import SocketSecrets

  const MAX_VALUE := 128
  const FULL_PREFIX := 42

  // A secret of a snapshot.
  datatype Secret = Secret(owner: Owner, key: Key, real': string, shadow: string, host: string, ip: Option<IP>, port: nat, protocol: nat)

  // A secret_map entry: the bytes written over the placeholder, the placeholder's first bytes, and where it may go.
  datatype SecretValue = SecretValue(bytes: string, fullPrefix: string, limits: SocketSecrets.Secret, protocol: nat)

  function Upto(s: string, n: nat): (t: string)
    ensures |t| <= n && (|s| <= n ==> t == s)
  {
    if |s| <= n then s else s[..n]
  }

  // The secrets that are synced.
  predicate Synced(s: Secret) {
    |s.host| < MAX_HOST_LEN && |s.shadow| >= SHADOW_PREFIX_LEN
  }

  function Limits(s: Secret): (r: SocketSecrets.Secret) {
    if s.host != "" then SocketSecrets.Secret(|s.host|, s.host, 0, V4(0), s.port)
    else if s.ip.Some? then SocketSecrets.Secret(0, "", 16, s.ip.value, s.port)
    else SocketSecrets.Secret(0, "", 0, V4(0), s.port)
  }

  // What the raw placeholder is replaced with.
  function RawValue(s: Secret): (r: SecretValue) {
    SecretValue(Upto(s.real', MAX_VALUE), Upto(s.shadow, FULL_PREFIX), Limits(s), s.protocol)
  }

  function Stretch(s: string, n: nat): (t: string)
    ensures |s| <= n ==> |t| == n
    ensures |s| >= n ==> t == s
    decreases n - |s|
  {
    if |s| >= n then s else Stretch(s + "\U{FF}", n)
  }

  // What its Huffman form is replaced with: the value's encoding, filled up to the placeholder's.
  function HuffmanValue(s: Secret): (r: SecretValue) {
    var slot := AppendHuffmanString(s.shadow);
    SecretValue(Upto(Stretch(AppendHuffmanString(s.real'), |slot|), MAX_VALUE), Upto(slot, FULL_PREFIX), Limits(s), s.protocol)
  }

  // A secret whose shadow was minted for its value has a Huffman entry exactly when its shadow has a Huffman
  // key, and the entry is the value's encoding, no byte more or less; for values up to 128 bytes nothing is cut.
  predicate HasHuffmanEntry(s: Secret) {
    HuffmanPlaceholderKey(s.shadow).Some? && 0 < |AppendHuffmanString(s.real')| <= |AppendHuffmanString(s.shadow)|
  }

  lemma SlotIsExact(s: Secret)
    requires Shadowing(s.shadow, |s.real'|, HuffmanBits(s.real'))
    ensures HasHuffmanEntry(s) <==> HuffmanPlaceholderKey(s.shadow).Some?
    ensures |s.real'| <= MAX_VALUE ==> HuffmanValue(s).bytes == AppendHuffmanString(s.real')
    ensures |s.real'| <= MAX_VALUE ==> |RawValue(s).bytes| == |s.shadow| && RawValue(s).bytes == s.real'
  {
    SlotFits(s.shadow, s.real');
    hide HuffmanBits;
  }

  // ---- The keys ----

  // The i-th secret of the snapshot has key k: raw, or Huffman.
  predicate RawAt(snapshot: seq<Secret>, i: int, k: string) {
    0 <= i < |snapshot| && Synced(snapshot[i]) && RawKey(snapshot[i].shadow) == k
  }

  predicate HuffmanAt(snapshot: seq<Secret>, i: int, k: string) {
    0 <= i < |snapshot| && Synced(snapshot[i]) && HasHuffmanEntry(snapshot[i]) && HuffmanPlaceholderKey(snapshot[i].shadow) == Some(k)
  }

  ghost predicate KeyOf(snapshot: seq<Secret>, n: int, k: string) {
    exists i :: 0 <= i < n && (RawAt(snapshot, i, k) || HuffmanAt(snapshot, i, k))
  }

  // No key belongs to two secrets, nor twice to one.
  ghost predicate OneSecretPerKey(snapshot: seq<Secret>) {
    && (forall i, j, k :: RawAt(snapshot, i, k) && RawAt(snapshot, j, k) ==> i == j)
    && (forall i, j, k :: HuffmanAt(snapshot, i, k) && HuffmanAt(snapshot, j, k) ==> i == j)
    && (forall i, j, k :: RawAt(snapshot, i, k) ==> !HuffmanAt(snapshot, j, k))
  }

  // A snapshot of a cluster of distinct shadows has one secret per key.
  lemma SnapshotOfDistinct(c: Cluster, snapshot: seq<Secret>)
    requires Distinct(c)
    requires forall i :: 0 <= i < |snapshot| ==> In(c, snapshot[i].owner, snapshot[i].key, snapshot[i].shadow)
    requires forall i, j :: 0 <= i < j < |snapshot| ==> snapshot[i].owner != snapshot[j].owner || snapshot[i].key != snapshot[j].key
    ensures OneSecretPerKey(snapshot)
  {
    hide Distinct, In, HasHuffmanEntry;
    forall i, j, k | RawAt(snapshot, i, k) && RawAt(snapshot, j, k) ensures i == j {
      OneKey(c, snapshot, i, j, 0, 0);
    }
    forall i, j, k | HuffmanAt(snapshot, i, k) && HuffmanAt(snapshot, j, k) ensures i == j {
      OneKey(c, snapshot, i, j, 1, 1);
    }
    forall i, j, k | RawAt(snapshot, i, k) ensures !HuffmanAt(snapshot, j, k) {
      if 0 <= j < |snapshot| && Synced(snapshot[j]) && HuffmanPlaceholderKey(snapshot[j].shadow) == Some(k) {
        NotBoth(c, snapshot, i, j);
      }
    }
  }

  lemma OneKey(c: Cluster, snapshot: seq<Secret>, i: int, j: int, a: nat, b: nat)
    requires Distinct(c) && 0 <= i < |snapshot| && 0 <= j < |snapshot|
    requires forall i :: 0 <= i < |snapshot| ==> In(c, snapshot[i].owner, snapshot[i].key, snapshot[i].shadow)
    requires forall i, j :: 0 <= i < j < |snapshot| ==> snapshot[i].owner != snapshot[j].owner || snapshot[i].key != snapshot[j].key
    requires var ki, kj := PlaceholderKeys(snapshot[i].shadow), PlaceholderKeys(snapshot[j].shadow);
             a < |ki| && b < |kj| && ki[a] == kj[b]
    ensures i == j && a == b
  {
    hide Distinct, PlaceholderKeys;
    var s, t := snapshot[i], snapshot[j];
    KeysLeadToOneSecret(c, s.owner, s.key, s.shadow, t.owner, t.key, t.shadow, a, b);
  }

  lemma NotBoth(c: Cluster, snapshot: seq<Secret>, i: int, j: int)
    requires Distinct(c) && 0 <= i < |snapshot| && 0 <= j < |snapshot| && Synced(snapshot[i])
    requires forall i :: 0 <= i < |snapshot| ==> In(c, snapshot[i].owner, snapshot[i].key, snapshot[i].shadow)
    requires HuffmanPlaceholderKey(snapshot[j].shadow).Some?
    ensures RawKey(snapshot[i].shadow) != HuffmanPlaceholderKey(snapshot[j].shadow).value
  {
    hide HuffmanPlaceholderKey;
    NoRawIsHuffman(snapshot[i].shadow, snapshot[j].shadow);
  }

  // ---- The sync ----

  // What the first n secrets must have put in the map.
  ghost predicate Entered(m: map<string, SecretValue>, snapshot: seq<Secret>, n: int) {
    && (forall i, k :: 0 <= i < n && RawAt(snapshot, i, k) ==> k in m && m[k] == RawValue(snapshot[i]))
    && (forall i, k :: 0 <= i < n && HuffmanAt(snapshot, i, k) ==> k in m && m[k] == HuffmanValue(snapshot[i]))
  }

  // ---- What is stored, in the secrets' own terms ----

  // The restrictions stored for a secret: its host, or without one its address, and its port.
  predicate RestrictedTo(l: SocketSecrets.Secret, s: Secret) {
    && l.hostLen == |s.host| && l.port == s.port
    && (s.host != "" ==> l.allowedHost == s.host && l.ipLen == 0)
    && (s.host == "" && s.ip.Some? ==> l.ipLen == 16 && l.allowedIp == s.ip.value)
    && (s.host == "" && s.ip.None? ==> l.ipLen == 0)
  }

  // Under the first 8 bytes of its shadow: the value's first 128 bytes, and the shadow's first 42.
  predicate StoresRaw(m: map<string, SecretValue>, s: Secret)
    requires |s.shadow| >= 8
  {
    var k := s.shadow[..8];
    && k in m && RestrictedTo(m[k].limits, s) && m[k].protocol == s.protocol
    && m[k].bytes == (if |s.real'| <= 128 then s.real' else s.real'[..128])
    && m[k].fullPrefix == (if |s.shadow| <= 42 then s.shadow else s.shadow[..42])
  }

  // Whether a secret's Huffman form can be rewritten: its shadow's encoding has 8 bytes and room for its value's.
  predicate FitsHuffman(s: Secret) {
    |AppendHuffmanString(s.shadow)| >= 8 && 0 < |AppendHuffmanString(s.real')| <= |AppendHuffmanString(s.shadow)|
  }

  // Under the first 8 bytes of its shadow's encoding: the first 128 bytes of the value's, filled with 0xff to the length
  // of the shadow's.
  predicate StoresHuffman(m: map<string, SecretValue>, s: Secret)
    requires FitsHuffman(s)
  {
    var slot, value := AppendHuffmanString(s.shadow), AppendHuffmanString(s.real');
    var k := slot[..8];
    && k in m && RestrictedTo(m[k].limits, s) && m[k].protocol == s.protocol
    && |m[k].bytes| == (if |slot| <= 128 then |slot| else 128)
    && (forall j :: 0 <= j < |m[k].bytes| ==> m[k].bytes[j] == if j < |value| then value[j] else 255 as char)
    && m[k].fullPrefix == (if |slot| <= 42 then slot else slot[..42])
  }

  // The secrets that are stored: the host has fewer than 64 bytes, the shadow at least 8.
  predicate Stored(s: Secret) {
    |s.host| < 64 && |s.shadow| >= 8
  }

  ghost predicate HasKey(snapshot: seq<Secret>, i: int, k: string) {
    && 0 <= i < |snapshot| && Stored(snapshot[i])
    && var s := snapshot[i];
       k == s.shadow[..8] || (FitsHuffman(s) && k == AppendHuffmanString(s.shadow)[..8])
  }

  ghost predicate StoresAll(m: map<string, SecretValue>, snapshot: seq<Secret>) {
    forall i :: 0 <= i < |snapshot| && Stored(snapshot[i]) ==>
      StoresRaw(m, snapshot[i]) && (FitsHuffman(snapshot[i]) ==> StoresHuffman(m, snapshot[i]))
  }

  lemma HasKeyMeans(snapshot: seq<Secret>, i: int, k: string)
    ensures HasKey(snapshot, i, k) <==> RawAt(snapshot, i, k) || HuffmanAt(snapshot, i, k)
  {
    hide AppendHuffmanString;
  }

  lemma KeysMean(snapshot: seq<Secret>, k: string)
    ensures KeyOf(snapshot, |snapshot|, k) <==> exists i :: HasKey(snapshot, i, k)
  {
    hide RawAt, HuffmanAt, HasKey;
    forall i ensures HasKey(snapshot, i, k) <==> RawAt(snapshot, i, k) || HuffmanAt(snapshot, i, k) {
      HasKeyMeans(snapshot, i, k);
    }
    forall i | HasKey(snapshot, i, k) ensures 0 <= i < |snapshot| {
      InSnapshot(snapshot, i, k);
    }
  }

  lemma InSnapshot(snapshot: seq<Secret>, i: int, k: string)
    requires HasKey(snapshot, i, k)
    ensures 0 <= i < |snapshot|
  {
  }

  lemma WatchedMeans(snapshot: seq<Secret>, h: string)
    ensures Watched(snapshot, |snapshot|, h) <==> h != "" && exists i :: 0 <= i < |snapshot| && Stored(snapshot[i]) && snapshot[i].host == h
  {
  }

  lemma EnteredMeans(m: map<string, SecretValue>, snapshot: seq<Secret>)
    requires Entered(m, snapshot, |snapshot|)
    ensures StoresAll(m, snapshot)
  {
    hide StoresRaw, StoresHuffman, AppendHuffmanString, RawValue, HuffmanValue;
    forall i | 0 <= i < |snapshot| && Stored(snapshot[i])
      ensures StoresRaw(m, snapshot[i]) && (FitsHuffman(snapshot[i]) ==> StoresHuffman(m, snapshot[i]))
    {
      var s := snapshot[i];
      assert RawAt(snapshot, i, s.shadow[..8]);
      RawIsStored(m, s);
      if FitsHuffman(s) {
        assert HuffmanAt(snapshot, i, AppendHuffmanString(s.shadow)[..8]);
        HuffmanIsStored(m, s);
      }
    }
  }

  lemma RawIsStored(m: map<string, SecretValue>, s: Secret)
    requires Stored(s) && s.shadow[..8] in m && m[s.shadow[..8]] == RawValue(s)
    ensures StoresRaw(m, s)
  {
  }

  lemma HuffmanIsStored(m: map<string, SecretValue>, s: Secret)
    requires Stored(s) && FitsHuffman(s) && AppendHuffmanString(s.shadow)[..8] in m && m[AppendHuffmanString(s.shadow)[..8]] == HuffmanValue(s)
    ensures StoresHuffman(m, s)
  {
    hide AppendHuffmanString;
    StretchFills(AppendHuffmanString(s.real'), |AppendHuffmanString(s.shadow)|);
  }

  lemma {:induction false} StretchFills(s: string, n: nat)
    requires |s| <= n
    ensures forall j :: 0 <= j < n ==> Stretch(s, n)[j] == if j < |s| then s[j] else 255 as char
    decreases n - |s|
  {
    if |s| < n {
      StretchFills(s + "\U{FF}", n);
    }
  }

  class BpfSecretMap {
    var entries: map<string, SecretValue>

    // One secret: its raw entry, and its Huffman entry unless this sync already wrote that key.
    method Upsert(s: Secret, newKeys: set<string>) returns (keys: set<string>)
      requires Synced(s) && newKeys <= entries.Keys
      modifies this
      ensures keys == KeysAdded(s, newKeys) && keys <= entries.Keys
      ensures (HasHuffmanEntry(s) && HuffmanPlaceholderKey(s.shadow).value in newKeys + {RawKey(s.shadow)})
              || entries == EntriesAdded(s, old(entries))
    {
      var k := RawKey(s.shadow);
      keys := newKeys + {k};
      entries := entries[k := RawValue(s)];
      hide RawValue, HuffmanValue, HuffmanPlaceholderKey;
      if HasHuffmanEntry(s) {
        var huff := HuffmanPlaceholderKey(s.shadow).value;
        if huff !in keys {
          keys := keys + {huff};
          entries := entries[huff := HuffmanValue(s)];
        }
      }
    }

    // The entries no upsert named go.
    method Prune(newKeys: set<string>)
      requires newKeys <= entries.Keys
      modifies this
      ensures entries.Keys == newKeys && forall k :: k in newKeys ==> entries[k] == old(entries)[k]
    {
      var stale := entries.Keys - newKeys;
      while stale != {}
        invariant stale !! newKeys && entries.Keys == newKeys + stale
        invariant forall k :: k in newKeys ==> entries[k] == old(entries)[k]
        decreases |stale|
      {
        var k :| k in stale;
        stale := stale - {k};
        entries := entries - {k};
      }
    }

    // applySecrets, when every map operation succeeds: afterwards the map has the snapshot's keys and no
    // other, and with one secret per key each holds its secret's value. The result is the watched hosts.
    method ApplySecrets(snapshot: seq<Secret>) returns (hosts: set<string>)
      modifies this
      ensures forall k :: k in entries <==> KeyOf(snapshot, |snapshot|, k)
      ensures OneSecretPerKey(snapshot) ==> Entered(entries, snapshot, |snapshot|)
      ensures forall h :: h in hosts <==> Watched(snapshot, |snapshot|, h)
      ensures forall k :: k in entries <==> exists i :: HasKey(snapshot, i, k)
      ensures OneSecretPerKey(snapshot) ==> StoresAll(entries, snapshot)
      ensures forall h :: h in hosts <==> h != "" && exists i :: 0 <= i < |snapshot| && Stored(snapshot[i]) && snapshot[i].host == h
    {
      hide HasHuffmanEntry, RawValue, HuffmanValue, HuffmanPlaceholderKey, OneSecretPerKey, Entered, KeyOf, Watched, Synced, HasKey, Stored, StoresAll;
      NothingEntered(entries, snapshot);
      var newKeys: set<string> := {};
      hosts := {};
      var i := 0;
      while i < |snapshot|
        invariant 0 <= i <= |snapshot|
        invariant forall k :: k in newKeys <==> KeyOf(snapshot, i, k)
        invariant newKeys <= entries.Keys
        invariant OneSecretPerKey(snapshot) ==> Entered(entries, snapshot, i)
        invariant forall h :: h in hosts <==> Watched(snapshot, i, h)
      {
        var s := snapshot[i];
        ghost var before, had := newKeys, entries;
        if Synced(s) {
          if s.host != "" {
            hosts := hosts + {s.host};
          }
          newKeys := Upsert(s, newKeys);
        }
        WatchedGrow(snapshot, i);
        KeysGrow(snapshot, i, before, newKeys);
        if OneSecretPerKey(snapshot) {
          EntriesGrow(snapshot, i, had);
          if Synced(s) && HasHuffmanEntry(s) {
            HuffmanKeyIsNew(snapshot, i, before);
          }
        }
        i := i + 1;
      }
      ghost var full := entries;
      Prune(newKeys);
      if OneSecretPerKey(snapshot) {
        PruneKeeps(snapshot, newKeys, full, entries);
        EnteredMeans(entries, snapshot);
      }
      forall k ensures KeyOf(snapshot, |snapshot|, k) <==> exists i :: HasKey(snapshot, i, k) {
        KeysMean(snapshot, k);
      }
      forall h ensures Watched(snapshot, |snapshot|, h) <==> h != "" && exists i :: 0 <= i < |snapshot| && Stored(snapshot[i]) && snapshot[i].host == h {
        WatchedMeans(snapshot, h);
      }
    }
  }

  // h is the host of one of the first n synced secrets.
  ghost predicate Watched(snapshot: seq<Secret>, n: int, h: string) {
    h != "" && exists i :: 0 <= i < n <= |snapshot| && Synced(snapshot[i]) && snapshot[i].host == h
  }

  lemma WatchedGrow(snapshot: seq<Secret>, i: nat)
    requires i < |snapshot|
    ensures forall h :: Watched(snapshot, i + 1, h) <==>
              Watched(snapshot, i, h) || (Synced(snapshot[i]) && snapshot[i].host == h != "")
  {
    hide Synced;
    forall h | Watched(snapshot, i + 1, h) && !(Synced(snapshot[i]) && snapshot[i].host == h != "")
      ensures Watched(snapshot, i, h)
    {
      var j :| 0 <= j < i + 1 <= |snapshot| && Synced(snapshot[j]) && snapshot[j].host == h;
    }
    forall h | Watched(snapshot, i, h) ensures Watched(snapshot, i + 1, h) {
      var j :| 0 <= j < i <= |snapshot| && Synced(snapshot[j]) && snapshot[j].host == h;
    }
    var h := snapshot[i].host;
    if Synced(snapshot[i]) && h != "" {
      assert 0 <= i < i + 1 <= |snapshot| && Synced(snapshot[i]);
      assert Watched(snapshot, i + 1, h);
    }
  }

  function KeysAdded(s: Secret, had: set<string>): (r: set<string>) {
    if !Synced(s) then had else
    var raw := had + {RawKey(s.shadow)};
    if HasHuffmanEntry(s) then raw + {HuffmanPlaceholderKey(s.shadow).value} else raw
  }

  lemma KeysGrow(snapshot: seq<Secret>, i: nat, before: set<string>, after: set<string>)
    requires i < |snapshot|
    requires forall k :: k in before <==> KeyOf(snapshot, i, k)
    requires after == KeysAdded(snapshot[i], before)
    ensures forall k :: k in after <==> KeyOf(snapshot, i + 1, k)
  {
    hide Synced, HuffmanPlaceholderKey;
    forall k ensures k in after <==> KeyOf(snapshot, i + 1, k) {
      assert k in after <==> k in before || RawAt(snapshot, i, k) || HuffmanAt(snapshot, i, k);
      if KeyOf(snapshot, i + 1, k) {
        var j :| 0 <= j < i + 1 && (RawAt(snapshot, j, k) || HuffmanAt(snapshot, j, k));
        assert j < i ==> KeyOf(snapshot, i, k);
      }
    }
  }

  function EntriesAdded(s: Secret, had: map<string, SecretValue>): (r: map<string, SecretValue>) {
    if !Synced(s) then had else
    var raw := had[RawKey(s.shadow) := RawValue(s)];
    if HasHuffmanEntry(s) then raw[HuffmanPlaceholderKey(s.shadow).value := HuffmanValue(s)] else raw
  }

  // With one secret per key, the i-th secret's keys are new ...
  lemma HuffmanKeyIsNew(snapshot: seq<Secret>, i: nat, before: set<string>)
    requires i < |snapshot| && OneSecretPerKey(snapshot) && Synced(snapshot[i]) && HasHuffmanEntry(snapshot[i])
    requires forall k :: k in before <==> KeyOf(snapshot, i, k)
    ensures HuffmanPlaceholderKey(snapshot[i].shadow).value !in before + {RawKey(snapshot[i].shadow)}
  {
    hide HuffmanPlaceholderKey;
    var huff := HuffmanPlaceholderKey(snapshot[i].shadow).value;
    assert HuffmanAt(snapshot, i, huff) && RawAt(snapshot, i, RawKey(snapshot[i].shadow));
    forall j | 0 <= j < i ensures !RawAt(snapshot, j, huff) && !HuffmanAt(snapshot, j, huff) {
    }
    hide OneSecretPerKey, RawAt, HuffmanAt;
  }

  // ... and do not touch the others'.
  lemma OldEntryStays(snapshot: seq<Secret>, i: nat, j: nat, k: string, had: map<string, SecretValue>)
    requires j < i < |snapshot| && OneSecretPerKey(snapshot) && k in had
    requires RawAt(snapshot, j, k) || HuffmanAt(snapshot, j, k)
    ensures var has := EntriesAdded(snapshot[i], had); k in has && has[k] == had[k]
  {
    hide HuffmanPlaceholderKey, RawValue, HuffmanValue;
    var s := snapshot[i];
    if Synced(s) {
      assert RawAt(snapshot, i, RawKey(s.shadow));
      assert HasHuffmanEntry(s) ==> HuffmanAt(snapshot, i, HuffmanPlaceholderKey(s.shadow).value);
    }
  }

  lemma NewEntry(snapshot: seq<Secret>, i: nat, k: string, had: map<string, SecretValue>)
    requires i < |snapshot| && OneSecretPerKey(snapshot)
    ensures RawAt(snapshot, i, k) ==> var has := EntriesAdded(snapshot[i], had); k in has && has[k] == RawValue(snapshot[i])
    ensures HuffmanAt(snapshot, i, k) ==> var has := EntriesAdded(snapshot[i], had); k in has && has[k] == HuffmanValue(snapshot[i])
  {
    hide Synced, HuffmanPlaceholderKey, RawValue, HuffmanValue;
    var s := snapshot[i];
    if Synced(s) && HasHuffmanEntry(s) {
      assert HuffmanAt(snapshot, i, HuffmanPlaceholderKey(s.shadow).value);
    }
  }

  lemma EntriesGrow(snapshot: seq<Secret>, i: nat, had: map<string, SecretValue>)
    requires i < |snapshot| && OneSecretPerKey(snapshot) && Entered(had, snapshot, i)
    ensures Entered(EntriesAdded(snapshot[i], had), snapshot, i + 1)
  {
    var has := EntriesAdded(snapshot[i], had);
    hide OneSecretPerKey, RawAt, HuffmanAt, EntriesAdded, RawValue, HuffmanValue;
    forall j, k | 0 <= j < i + 1 && (RawAt(snapshot, j, k) || HuffmanAt(snapshot, j, k))
      ensures k in has
      ensures RawAt(snapshot, j, k) ==> has[k] == RawValue(snapshot[j])
      ensures HuffmanAt(snapshot, j, k) ==> has[k] == HuffmanValue(snapshot[j])
    {
      EntryAfter(snapshot, i, j, k, had);
    }
  }

  lemma EntryAfter(snapshot: seq<Secret>, i: nat, j: nat, k: string, had: map<string, SecretValue>)
    requires j <= i < |snapshot| && OneSecretPerKey(snapshot) && Entered(had, snapshot, i)
    requires RawAt(snapshot, j, k) || HuffmanAt(snapshot, j, k)
    ensures var has := EntriesAdded(snapshot[i], had);
            && k in has
            && (RawAt(snapshot, j, k) ==> has[k] == RawValue(snapshot[j]))
            && (HuffmanAt(snapshot, j, k) ==> has[k] == HuffmanValue(snapshot[j]))
  {
    hide OneSecretPerKey, RawAt, HuffmanAt, EntriesAdded, RawValue, HuffmanValue;
    if j < i {
      OldEntryStays(snapshot, i, j, k, had);
    } else {
      NewEntry(snapshot, i, k, had);
    }
  }

  lemma NothingEntered(m: map<string, SecretValue>, snapshot: seq<Secret>)
    ensures Entered(m, snapshot, 0) && (forall k :: !KeyOf(snapshot, 0, k)) && (forall h :: !Watched(snapshot, 0, h))
  {
  }

  lemma PruneKeeps(snapshot: seq<Secret>, keys: set<string>, full: map<string, SecretValue>, pruned: map<string, SecretValue>)
    requires Entered(full, snapshot, |snapshot|) && pruned.Keys == keys
    requires forall k :: k in keys <==> KeyOf(snapshot, |snapshot|, k)
    requires forall k :: k in keys ==> k in full && pruned[k] == full[k]
    ensures Entered(pruned, snapshot, |snapshot|)
  {
  }

  // Then every key the access list is given for a synced, minted secret leads to that secret: the raw key to its value,
  // the Huffman key to the value's encoding.
  lemma PlaceholderKeysLeadToValue(m: map<string, SecretValue>, snapshot: seq<Secret>, i: nat, k: string)
    requires i < |snapshot| && OneSecretPerKey(snapshot) && Entered(m, snapshot, |snapshot|) && Synced(snapshot[i])
    requires Shadowing(snapshot[i].shadow, |snapshot[i].real'|, HuffmanBits(snapshot[i].real'))
    requires k in PlaceholderKeys(snapshot[i].shadow)
    ensures k in m
    ensures if k == RawKey(snapshot[i].shadow) then m[k] == RawValue(snapshot[i])
            else HuffmanPlaceholderKey(snapshot[i].shadow) == Some(k) && m[k] == HuffmanValue(snapshot[i])
  {
    SlotIsExact(snapshot[i]);
    hide Shadowing, HasHuffmanEntry, RawValue, HuffmanValue;
    if k == RawKey(snapshot[i].shadow) {
      assert RawAt(snapshot, i, k);
    } else {
      assert HuffmanAt(snapshot, i, k);
    }
  }
}
