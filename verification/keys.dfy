/** Encryption keys, the key store snapshot the rotation engine works on, and
    the two orders the service sorts keys by: by id before extending the key
    list, and by site then activation time for the listing. */
module Keys {
  import opened Common

  /** Milliseconds per second: instants are modelled as epoch milliseconds,
      durations as whole seconds. */
  const MillisPerSecond: int := 1000

  /** `Instant.plusSeconds`. */
  function PlusSeconds(t: int, seconds: int): int {
    t + seconds * MillisPerSecond
  }

  /** An encryption key; timestamps are epoch milliseconds. */
  datatype Key = Key(id: Int32, secret: seq<bv8>, created: int, activates: int, expires: int, siteId: Int32)

  /** A freshly loaded snapshot: the active key set and the persisted
      `max_key_id` metadata entry, when present. */
  datatype KeyStore = KeyStore(keys: seq<Key>, maxKeyId: Option<Int32>)

  /** The arguments of `uploadEncryptionKeys`: the full key list and the
      highest key id issued so far. */
  datatype Upload = Upload(keys: seq<Key>, maxKeyId: Int32)

  /** The snapshot a reload sees after an upload. */
  function Apply(upload: Upload): (s: KeyStore)
    ensures s.keys == upload.keys && s.maxKeyId == Some(upload.maxKeyId)
  {
    KeyStore(upload.keys, Some(upload.maxKeyId))
  }

  /** The comparators the service sorts keys with. */
  datatype KeyOrder =
    | ById                  // Comparator.comparingInt(getId)
    | BySiteThenActivation  // comparingInt(getSiteId).thenComparing(getActivates)

  predicate Le(o: KeyOrder, a: Key, b: Key) {
    match o
    case ById => a.id <= b.id
    case BySiteThenActivation => a.siteId < b.siteId || (a.siteId == b.siteId && a.activates <= b.activates)
  }

  predicate Sorted(s: seq<Key>, o: KeyOrder) {
    forall i, j :: 0 <= i < j < |s| ==> Le(o, s[i], s[j])
  }

  /** Inserts `x` before the first element it does not exceed. */
  function Insert(x: Key, s: seq<Key>, o: KeyOrder): (r: seq<Key>)
    ensures |r| == |s| + 1
    ensures multiset(r) == multiset(s) + multiset{x}
    ensures Sorted(s, o) ==> Sorted(r, o)
    decreases |s|
  {
    if |s| == 0 then [x]
    else if Le(o, x, s[0]) then [x] + s
    else
      var tail := Insert(x, s[1..], o);
      assert s == [s[0]] + s[1..];
      if Sorted(s, o) then
        InsertBehindHead(x, s, tail, o);
        [s[0]] + tail
      else
        [s[0]] + tail
  }

  /** The step of `Insert` that keeps the result sorted: the head of `s`
      stays in front of the tail `x` was inserted into. */
  lemma InsertBehindHead(x: Key, s: seq<Key>, tail: seq<Key>, o: KeyOrder)
    requires |s| > 0 && Sorted(s, o) && !Le(o, x, s[0])
    requires multiset(tail) == multiset(s[1..]) + multiset{x}
    requires Sorted(tail, o)
    ensures Sorted([s[0]] + tail, o)
  {
    forall j | 0 <= j < |tail|
      ensures Le(o, s[0], tail[j])
    {
      assert tail[j] in multiset(tail);
      if tail[j] != x {
        assert tail[j] in multiset(s[1..]);
        var k :| 0 <= k < |s[1..]| && s[1..][k] == tail[j];
        assert Le(o, s[0], s[k + 1]);
      }
    }
  }

  /** The sorted permutation of `s` (a stable sort in the source). */
  function Sort(s: seq<Key>, o: KeyOrder): (r: seq<Key>)
    ensures |r| == |s|
    ensures multiset(r) == multiset(s)
    ensures Sorted(r, o)
    decreases |s|
  {
    if |s| == 0 then []
    else
      assert s == [s[0]] + s[1..];
      Insert(s[0], Sort(s[1..], o), o)
  }

  /** Every key of the snapshot is in its sorted copy and vice versa. */
  lemma SortKeepsKeys(s: seq<Key>, o: KeyOrder)
    ensures forall k :: k in Sort(s, o) <==> k in s
  {
    var r := Sort(s, o);
    forall k
      ensures k in r <==> k in s
    {
      assert k in r <==> k in multiset(r);
      assert k in s <==> k in multiset(s);
    }
  }

  /** The key list the minter extends: the snapshot sorted by id. */
  function SortById(keys: seq<Key>): (r: seq<Key>)
    ensures |r| == |keys| && multiset(r) == multiset(keys)
    ensures forall i, j :: 0 <= i < j < |r| ==> r[i].id <= r[j].id
  {
    Sort(keys, ById)
  }

  /** What the key listing shows of a key: never its secret. */
  datatype KeyJson = KeyJson(id: Int32, siteId: Int32, created: int, activates: int, expires: int)

  function ToJson(k: Key): KeyJson {
    KeyJson(k.id, k.siteId, k.created, k.activates, k.expires)
  }

  /** Two keys that differ only in their secret are listed identically. */
  lemma ToJsonHidesSecret(k: Key, secret: seq<bv8>)
    ensures ToJson(k.(secret := secret)) == ToJson(k)
  {
  }
}
