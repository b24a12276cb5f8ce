/** The id allocator and the key minter of the rotation engine: the next key
    id is derived from the snapshot and the persisted high-water mark, every
    key of a batch gets the next consecutive id, and the extended key list is
    committed in one upload. */
module Minting {
  import opened Common
  import opened Keys

  /** A timing policy in seconds: `activates = created + activatesIn`,
      `expires = activates + expiresAfter`. */
  datatype Policy = Policy(activatesInSeconds: int, expiresAfterSeconds: int)

  /** The secret generator, indexed by position in the batch
      (`generateRandomKey(32)` is called once per minted key). */
  type SecretSource = nat -> seq<bv8>

  datatype MintError = AllocationExhausted

  /** A mint batch: the new keys in input order and the upload committing them. */
  datatype MintResult = MintResult(added: seq<Key>, upload: Upload)

  /** The largest id in the snapshot, or 0 for an empty snapshot: the id of
      the last key once the snapshot is sorted by id. */
  function SnapshotMaxId(keys: seq<Key>): (m: Int32)
    ensures |keys| == 0 ==> m == 0
    ensures forall k :: k in keys ==> k.id <= m
    ensures |keys| > 0 ==> exists k :: k in keys && k.id == m
  {
    if |keys| == 0 then 0
    else
      var sorted := SortById(keys);
      SortKeepsKeys(keys, ById);
      assert forall k :: k in keys ==> k.id <= sorted[|sorted| - 1].id by {
        forall k | k in keys
          ensures k.id <= sorted[|sorted| - 1].id
        {
          var i :| 0 <= i < |sorted| && sorted[i] == k;
          if i < |sorted| - 1 {
            assert sorted[i].id <= sorted[|sorted| - 1].id;
          }
        }
      }
      assert sorted[|sorted| - 1] in sorted;
      sorted[|sorted| - 1].id
  }

  /** `getMaxKeyId`: the larger of the snapshot's largest id and the persisted
      `max_key_id`; fails when no further id can be issued. */
  function GetMaxKeyId(store: KeyStore): (r: Result<Int32, MintError>)
    ensures r.Err? <==> (exists k :: k in store.keys && k.id == IntMax) || store.maxKeyId == Some(IntMax)
    ensures r.Ok? ==> r.value < IntMax
    ensures r.Ok? ==> forall k :: k in store.keys ==> k.id <= r.value
    ensures r.Ok? ==> SnapshotMaxId(store.keys) <= r.value
    ensures r.Ok? && store.maxKeyId.Some? ==> store.maxKeyId.value <= r.value
    ensures r.Ok? ==> || (|store.keys| == 0 && r.value == 0)
                      || (exists k :: k in store.keys && k.id == r.value)
                      || store.maxKeyId == Some(r.value)
  {
    var fromKeys := SnapshotMaxId(store.keys);
    var m: Int32 := match store.maxKeyId
      case Some(persisted) => if persisted > fromKeys then persisted else fromKeys
      case None => fromKeys;
    if m == IntMax then Err(AllocationExhausted) else Ok(m)
  }

  /** A persisted mark at or above every id of the snapshot is the allocation
      base itself. */
  lemma PersistedMarkDominates(store: KeyStore)
    requires store.maxKeyId.Some? && 0 <= store.maxKeyId.value < IntMax
    requires forall k :: k in store.keys ==> k.id <= store.maxKeyId.value
    ensures GetMaxKeyId(store) == Ok(store.maxKeyId.value)
  {
    var r := GetMaxKeyId(store);
    assert r.Ok?;
  }

  /** The key minted at position `i` of a batch whose allocation base is `base`. */
  function NewKey(base: int, i: nat, siteId: Int32, p: Policy, now: int, gen: SecretSource): Key
    requires IntMin <= base + i + 1 <= IntMax
  {
    var activates := PlusSeconds(now, p.activatesInSeconds);
    Key(base + i + 1, gen(i), now, activates, PlusSeconds(activates, p.expiresAfterSeconds), siteId)
  }

  /** `addSiteKeys`: mints one key per site id, in input order, and commits
      the snapshot sorted by id followed by the new keys. The batch is refused
      when its last id would not fit in an `int` (see `MintAsWritten` for the
      source's narrower guard). */
  function Mint(store: KeyStore, siteIds: seq<Int32>, p: Policy, now: int, gen: SecretSource): (r: Result<MintResult, MintError>)
    ensures r.Ok? <==> GetMaxKeyId(store).Ok? && GetMaxKeyId(store).value + |siteIds| <= IntMax
    ensures r.Ok? ==>
      var base := GetMaxKeyId(store).value;
      && |r.value.added| == |siteIds|
      && (forall i :: 0 <= i < |siteIds| ==>
            && r.value.added[i].id == base + i + 1
            && r.value.added[i].siteId == siteIds[i]
            && r.value.added[i].secret == gen(i)
            && r.value.added[i].created == now
            && r.value.added[i].activates == now + p.activatesInSeconds * MillisPerSecond
            && r.value.added[i].expires == r.value.added[i].activates + p.expiresAfterSeconds * MillisPerSecond)
      && r.value.upload.keys == SortById(store.keys) + r.value.added
      && r.value.upload.maxKeyId == base + |siteIds|
    // every minted id is fresh: above every visible id and the persisted mark
    ensures r.Ok? ==> forall a, k :: a in r.value.added && k in store.keys ==> k.id < a.id
    ensures r.Ok? && store.maxKeyId.Some? ==> forall a :: a in r.value.added ==> store.maxKeyId.value < a.id
    ensures r.Ok? ==> forall i, j :: 0 <= i < j < |r.value.added| ==> r.value.added[i].id < r.value.added[j].id
  {
    var base :- GetMaxKeyId(store);
    if base + |siteIds| > IntMax then Err(AllocationExhausted)
    else
      var added := seq(|siteIds|, i requires 0 <= i < |siteIds| => NewKey(base, i, siteIds[i], p, now, gen));
      Ok(MintResult(added, Upload(SortById(store.keys) + added, base + |siteIds|)))
  }

  /** `addSiteKeys` exactly as the source computes it: `++maxKeyId` wraps
      around past `Integer.MAX_VALUE`, since `getMaxKeyId` only refuses a base
      that is already `Integer.MAX_VALUE`. It agrees with `Mint` wherever
      `Mint` succeeds. */
  function MintAsWritten(store: KeyStore, siteIds: seq<Int32>, p: Policy, now: int, gen: SecretSource): (r: Result<MintResult, MintError>)
    ensures r.Ok? <==> GetMaxKeyId(store).Ok?
    ensures Mint(store, siteIds, p, now, gen).Ok? ==> r == Mint(store, siteIds, p, now, gen)
  {
    var base :- GetMaxKeyId(store);
    var activates := PlusSeconds(now, p.activatesInSeconds);
    var added := seq(|siteIds|, i requires 0 <= i < |siteIds| =>
                   Key(Wrap32(base + i + 1), gen(i), now, activates, PlusSeconds(activates, p.expiresAfterSeconds), siteIds[i]));
    assert Mint(store, siteIds, p, now, gen).Ok? ==> added == Mint(store, siteIds, p, now, gen).value.added by {
      if Mint(store, siteIds, p, now, gen).Ok? {
        var expected := Mint(store, siteIds, p, now, gen).value.added;
        assert forall i :: 0 <= i < |siteIds| ==> added[i] == expected[i];
      }
    }
    Ok(MintResult(added, Upload(SortById(store.keys) + added, Wrap32(base + |siteIds|))))
  }

  /** A batch of two from an allocation base of `Integer.MAX_VALUE - 1`: the
      source gives the second key the id `Integer.MIN_VALUE` and records that
      as the high-water mark, while `Mint` refuses the batch. */
  lemma BatchOverflowsKeyId(gen: SecretSource)
    ensures var store := KeyStore([], Some(IntMax - 1));
            var asWritten := MintAsWritten(store, [5, 6], Policy(36000, 72000), 0, gen);
            && asWritten.Ok?
            && asWritten.value.added[0].id == IntMax
            && asWritten.value.added[1].id == IntMin
            && asWritten.value.added[1].id < asWritten.value.added[0].id
            && asWritten.value.upload.maxKeyId == IntMin
            && Mint(store, [5, 6], Policy(36000, 72000), 0, gen) == Err(AllocationExhausted)
  {
    var store := KeyStore([], Some(IntMax - 1));
    assert GetMaxKeyId(store) == Ok(IntMax - 1);
    assert Wrap32(IntMax + 1) == IntMin;
    var asWritten := MintAsWritten(store, [5, 6], Policy(36000, 72000), 0, gen).value;
    assert asWritten.added[1].id == Wrap32(IntMax - 1 + 1 + 1);
    assert asWritten.upload.maxKeyId == Wrap32(IntMax - 1 + 2);
  }

  /** The upload is additive: it holds every key of the snapshot plus the new
      keys, and nothing else. */
  lemma MintIsAdditive(store: KeyStore, siteIds: seq<Int32>, p: Policy, now: int, gen: SecretSource)
    requires Mint(store, siteIds, p, now, gen).Ok?
    ensures var m := Mint(store, siteIds, p, now, gen).value;
            && multiset(m.upload.keys) == multiset(store.keys) + multiset(m.added)
            && |m.upload.keys| == |store.keys| + |siteIds|
            && m.upload.keys[..|store.keys|] == SortById(store.keys)
  {
    var m := Mint(store, siteIds, p, now, gen).value;
    assert m.upload.keys[..|store.keys|] == SortById(store.keys);
  }

  /** After a successful mint, the persisted high-water mark is at least
      every key id the store holds. */
  lemma MintRaisesHighWaterMark(store: KeyStore, siteIds: seq<Int32>, p: Policy, now: int, gen: SecretSource)
    requires Mint(store, siteIds, p, now, gen).Ok?
    ensures var u := Mint(store, siteIds, p, now, gen).value.upload;
            forall k :: k in u.keys ==> k.id <= u.maxKeyId
  {
    var m := Mint(store, siteIds, p, now, gen).value;
    var base := GetMaxKeyId(store).value;
    SortKeepsKeys(store.keys, ById);
    forall k | k in m.upload.keys
      ensures k.id <= m.upload.maxKeyId
    {
      if k in SortById(store.keys) {
        assert k.id <= base;
      } else {
        assert k in m.added;
      }
    }
  }

  /** Ids are never reused across batches: a second batch, minted from any
      later snapshot that carries the first batch's high-water mark (keys may
      have been deleted in between), gets ids above every id of the first
      snapshot and of the first batch. */
  lemma {:induction false} SequentialMintsNeverReuseIds(
    store: KeyStore, first: seq<Int32>, later: KeyStore, second: seq<Int32>,
    p: Policy, q: Policy, now: int, now': int, gen: SecretSource, gen': SecretSource)
    requires Mint(store, first, p, now, gen).Ok?
    requires later.maxKeyId == Some(Mint(store, first, p, now, gen).value.upload.maxKeyId)
    requires Mint(later, second, q, now', gen').Ok?
    ensures forall a, b :: a in Mint(store, first, p, now, gen).value.added && b in Mint(later, second, q, now', gen').value.added ==> a.id < b.id
    ensures forall k, b :: k in store.keys && b in Mint(later, second, q, now', gen').value.added ==> k.id < b.id
  {
    var m1 := Mint(store, first, p, now, gen).value;
    var m2 := Mint(later, second, q, now', gen').value;
    var base1 := GetMaxKeyId(store).value;
    forall a | a in m1.added
      ensures a.id <= m1.upload.maxKeyId
    {
      var i :| 0 <= i < |m1.added| && m1.added[i] == a;
    }
    forall k | k in store.keys
      ensures k.id <= m1.upload.maxKeyId
    {
      assert k.id <= base1;
    }
  }
}
