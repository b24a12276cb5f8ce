/** The rotation planner (`rotateKeys`): among the keys whose site matches a
    selector, it finds each site's latest-activating key and rotates the sites
    whose key activated before `now - minAge`, or every matched site when
    forced. */
module Rotation {
  import opened Common
  import opened Keys
  import opened Minting

  /** Reserved site ids of the master and refresh keys (the values the
      service's tests use). */
  const MasterKeySiteId: Int32 := -1
  const RefreshKeySiteId: Int32 := -2

  /** The parts of the site id rules whose definitions are outside this model:
      the shared advertising-token site id and `SiteUtil.isValidSiteId`. */
  datatype SiteRules = SiteRules(advertisingSiteId: Int32, isValidSiteId: Int32 -> bool)

  /** The three site predicates the handlers pass to `rotateKeys`. */
  datatype Selector =
    | MasterAndRefresh        // rotate_master
    | SingleSite(site: Int32) // rotate_site
    | AllSites                // rotate_all_sites

  predicate Matches(sel: Selector, rules: SiteRules, site: Int32) {
    match sel
    case MasterAndRefresh => site == MasterKeySiteId || site == RefreshKeySiteId
    case SingleSite(s) => site == s
    case AllSites => rules.isValidSiteId(site) || site == rules.advertisingSiteId
  }

  predicate HasKeyFor(keys: seq<Key>, site: Int32) {
    exists k :: k in keys && k.siteId == site
  }

  /** `RotationResult`: the sites considered, the keys minted, and the upload
      that committed them (none when nothing was due). */
  datatype RotationResult = RotationResult(siteIds: set<Int32>, rotatedKeys: seq<Key>, upload: Option<Upload>)

  /** The site ids of the snapshot's keys that satisfy the selector. */
  function ConsideredSites(keys: seq<Key>, sel: Selector, rules: SiteRules): (r: set<Int32>)
    ensures forall s :: s in r <==> HasKeyFor(keys, s) && Matches(sel, rules, s)
  {
    set k | k in keys && Matches(sel, rules, k.siteId) :: k.siteId
  }

  /** The latest activation time among a site's keys: the key `maxBy`
      keeps for the site's group. */
  function LatestActivation(keys: seq<Key>, site: Int32): (t: int)
    requires HasKeyFor(keys, site)
    ensures forall k :: k in keys && k.siteId == site ==> k.activates <= t
    ensures exists k :: k in keys && k.siteId == site && k.activates == t
    decreases |keys|
  {
    var last := keys[|keys| - 1];
    var rest := keys[..|keys| - 1];
    assert keys == rest + [last];
    if last.siteId != site then
      LatestActivation(rest, site)
    else if HasKeyFor(rest, site) then
      var t := LatestActivation(rest, site);
      if t < last.activates then last.activates else t
    else
      last.activates
  }

  /** The matched sites, each once, in order of first appearance (the source
      collects them into a hash map, whose iteration order is unspecified). */
  function MatchingSites(keys: seq<Key>, sel: Selector, rules: SiteRules): (r: seq<Int32>)
    ensures forall s :: s in r <==> s in ConsideredSites(keys, sel, rules)
    ensures NoDuplicates(r)
    decreases |keys|
  {
    if |keys| == 0 then []
    else
      var rest := keys[..|keys| - 1];
      var site := keys[|keys| - 1].siteId;
      assert keys == rest + [keys[|keys| - 1]];
      var prev := MatchingSites(rest, sel, rules);
      if Matches(sel, rules, site) && site !in prev then prev + [site] else prev
  }

  /** A site is due when rotation is forced or its latest key activated
      strictly before the threshold. */
  predicate Due(keys: seq<Key>, site: Int32, threshold: int, force: bool)
    requires HasKeyFor(keys, site)
  {
    force || LatestActivation(keys, site) < threshold
  }

  /** The candidates that are due, in candidate order. */
  function DueSites(keys: seq<Key>, candidates: seq<Int32>, threshold: int, force: bool): (r: seq<Int32>)
    requires forall s :: s in candidates ==> HasKeyFor(keys, s)
    ensures forall s :: s in r <==> s in candidates && Due(keys, s, threshold, force)
    ensures NoDuplicates(candidates) ==> NoDuplicates(r)
    decreases |candidates|
  {
    if |candidates| == 0 then []
    else
      var rest := DueSites(keys, candidates[1..], threshold, force);
      assert candidates == [candidates[0]] + candidates[1..];
      if Due(keys, candidates[0], threshold, force) then [candidates[0]] + rest else rest
  }

  /** `Instant.minusSeconds(minAge)` applied to now. */
  function Threshold(now: int, minAgeSeconds: int): int {
    now - minAgeSeconds * MillisPerSecond
  }

  /** The site ids handed to the minter. */
  function SitesToRotate(keys: seq<Key>, sel: Selector, rules: SiteRules, now: int, minAgeSeconds: int, force: bool): (r: seq<Int32>)
    ensures NoDuplicates(r)
    ensures forall s :: s in r <==>
      && s in ConsideredSites(keys, sel, rules)
      && (force || LatestActivation(keys, s) < Threshold(now, minAgeSeconds))
  {
    DueSites(keys, MatchingSites(keys, sel, rules), Threshold(now, minAgeSeconds), force)
  }

  /** The site ids of a list of keys, in order. */
  function SitesOf(keys: seq<Key>): (r: seq<Int32>)
    ensures |r| == |keys| && forall i :: 0 <= i < |keys| ==> r[i] == keys[i].siteId
  {
    seq(|keys|, i requires 0 <= i < |keys| => keys[i].siteId)
  }

  /** `rotateKeys(siteSelector, minAge, activatesIn, expiresAfter, force)`,
      run on a freshly loaded snapshot. */
  function RotateKeys(store: KeyStore, sel: Selector, rules: SiteRules, minAgeSeconds: int, p: Policy,
                      force: bool, now: int, gen: SecretSource): (r: Result<RotationResult, MintError>)
    // the considered sites are reported whatever happens next
    ensures r.Ok? ==> forall s :: s in r.value.siteIds <==> HasKeyFor(store.keys, s) && Matches(sel, rules, s)
    // a site is rotated, at most once, iff it is considered and due
    ensures r.Ok? ==> NoDuplicates(SitesOf(r.value.rotatedKeys))
    ensures r.Ok? ==> forall s :: s in SitesOf(r.value.rotatedKeys) <==>
      && s in r.value.siteIds
      && (force || LatestActivation(store.keys, s) < Threshold(now, minAgeSeconds))
    // nothing due: no key, no upload, no id consumed
    ensures r.Ok? ==> (r.value.upload.None? <==> |r.value.rotatedKeys| == 0)
    ensures |SitesToRotate(store.keys, sel, rules, now, minAgeSeconds, force)| == 0 ==>
      r == Ok(RotationResult(ConsideredSites(store.keys, sel, rules), [], None))
    // otherwise the batch is minted and committed as one upload
    ensures r.Ok? && r.value.upload.Some? ==>
      var m := Mint(store, SitesToRotate(store.keys, sel, rules, now, minAgeSeconds, force), p, now, gen);
      m.Ok? && r.value.rotatedKeys == m.value.added && r.value.upload.value == m.value.upload
    ensures r.Err? ==> Mint(store, SitesToRotate(store.keys, sel, rules, now, minAgeSeconds, force), p, now, gen).Err?
  {
    var siteIds := ConsideredSites(store.keys, sel, rules);
    var due := SitesToRotate(store.keys, sel, rules, now, minAgeSeconds, force);
    if |due| == 0 then
      Ok(RotationResult(siteIds, [], None))
    else
      var m :- Mint(store, due, p, now, gen);
      assert SitesOf(m.added) == due;
      Ok(RotationResult(siteIds, m.added, Some(m.upload)))
  }

  /** A site that no key matches is never rotated, forced or not: the
      planner never mints a first key for a site. */
  lemma KeylessSiteNeverRotated(store: KeyStore, sel: Selector, rules: SiteRules, minAgeSeconds: int, p: Policy,
                                force: bool, now: int, gen: SecretSource, site: Int32)
    requires !HasKeyFor(store.keys, site)
    requires RotateKeys(store, sel, rules, minAgeSeconds, p, force, now, gen).Ok?
    ensures forall k :: k in RotateKeys(store, sel, rules, minAgeSeconds, p, force, now, gen).value.rotatedKeys ==> k.siteId != site
  {
    var r := RotateKeys(store, sel, rules, minAgeSeconds, p, force, now, gen).value;
    forall k | k in r.rotatedKeys
      ensures k.siteId != site
    {
      var i :| 0 <= i < |r.rotatedKeys| && r.rotatedKeys[i] == k;
      assert SitesOf(r.rotatedKeys)[i] == k.siteId;
    }
  }

  /** Every rotated key belongs to a considered site, hence satisfies the
      selector. */
  lemma RotatedKeysMatchSelector(store: KeyStore, sel: Selector, rules: SiteRules, minAgeSeconds: int, p: Policy,
                                 force: bool, now: int, gen: SecretSource)
    requires RotateKeys(store, sel, rules, minAgeSeconds, p, force, now, gen).Ok?
    ensures var r := RotateKeys(store, sel, rules, minAgeSeconds, p, force, now, gen).value;
            forall k :: k in r.rotatedKeys ==> k.siteId in r.siteIds && Matches(sel, rules, k.siteId)
  {
    var r := RotateKeys(store, sel, rules, minAgeSeconds, p, force, now, gen).value;
    forall k | k in r.rotatedKeys
      ensures k.siteId in r.siteIds && Matches(sel, rules, k.siteId)
    {
      var i :| 0 <= i < |r.rotatedKeys| && r.rotatedKeys[i] == k;
      assert SitesOf(r.rotatedKeys)[i] in SitesOf(r.rotatedKeys);
    }
  }

  /** When no key satisfies the selector the rotation considers no site,
      rotates nothing and uploads nothing. */
  lemma UnmatchedSelectorIsNoOp(store: KeyStore, sel: Selector, rules: SiteRules, minAgeSeconds: int, p: Policy,
                                force: bool, now: int, gen: SecretSource)
    requires forall k :: k in store.keys ==> !Matches(sel, rules, k.siteId)
    ensures RotateKeys(store, sel, rules, minAgeSeconds, p, force, now, gen) == Ok(RotationResult({}, [], None))
  {
    var considered := ConsideredSites(store.keys, sel, rules);
    var due := SitesToRotate(store.keys, sel, rules, now, minAgeSeconds, force);
    assert considered == {} by {
      forall t | t in considered
        ensures false
      {
      }
    }
  }

  /** The store a reload sees after a rotation. */
  function After(store: KeyStore, r: RotationResult): KeyStore {
    match r.upload
    case Some(u) => Apply(u)
    case None => store
  }

  /** Rotation is idempotent: repeating an unforced rotation at the same
      instant rotates nothing and uploads nothing, as long as a new key does
      not activate before the age threshold (activation delay plus minimum
      age non-negative). */
  lemma {:induction false} RotationIsIdempotent(store: KeyStore, sel: Selector, rules: SiteRules, minAgeSeconds: int,
                                                 p: Policy, now: int, gen: SecretSource, gen': SecretSource)
    requires p.activatesInSeconds + minAgeSeconds >= 0
    requires RotateKeys(store, sel, rules, minAgeSeconds, p, false, now, gen).Ok?
    ensures var next := After(store, RotateKeys(store, sel, rules, minAgeSeconds, p, false, now, gen).value);
            var again := RotateKeys(next, sel, rules, minAgeSeconds, p, false, now, gen');
            again.Ok? && again.value.rotatedKeys == [] && again.value.upload.None?
  {
    var r := RotateKeys(store, sel, rules, minAgeSeconds, p, false, now, gen).value;
    var next := After(store, r);
    var due' := SitesToRotate(next.keys, sel, rules, now, minAgeSeconds, false);
    if |due'| > 0 {
      var s := due'[0];
      assert s in due';
      var w := FreshKeyWitness(store, sel, rules, minAgeSeconds, p, now, gen, s);
      assert false;
    }
  }

  /** The store after a rotation holds exactly the keys it held before plus
      the rotated keys. */
  lemma RotationIsAdditive(store: KeyStore, sel: Selector, rules: SiteRules, minAgeSeconds: int, p: Policy,
                           force: bool, now: int, gen: SecretSource)
    requires RotateKeys(store, sel, rules, minAgeSeconds, p, force, now, gen).Ok?
    ensures var r := RotateKeys(store, sel, rules, minAgeSeconds, p, force, now, gen).value;
            multiset(After(store, r).keys) == multiset(store.keys) + multiset(r.rotatedKeys)
  {
    var r := RotateKeys(store, sel, rules, minAgeSeconds, p, force, now, gen).value;
    if r.upload.Some? {
      var due := SitesToRotate(store.keys, sel, rules, now, minAgeSeconds, force);
      MintIsAdditive(store, due, p, now, gen);
    }
  }

  /** Membership form of `RotationIsAdditive`. */
  lemma KeysAfterRotation(store: KeyStore, sel: Selector, rules: SiteRules, minAgeSeconds: int, p: Policy,
                          force: bool, now: int, gen: SecretSource)
    requires RotateKeys(store, sel, rules, minAgeSeconds, p, force, now, gen).Ok?
    ensures var r := RotateKeys(store, sel, rules, minAgeSeconds, p, force, now, gen).value;
            forall k :: k in After(store, r).keys <==> k in store.keys || k in r.rotatedKeys
  {
    var r := RotateKeys(store, sel, rules, minAgeSeconds, p, force, now, gen).value;
    RotationIsAdditive(store, sel, rules, minAgeSeconds, p, force, now, gen);
    forall k
      ensures k in After(store, r).keys <==> k in store.keys || k in r.rotatedKeys
    {
      assert k in After(store, r).keys <==> k in multiset(After(store, r).keys);
    }
  }

  /** Every rotated key activates `activatesIn` after the rotation instant. */
  lemma RotatedKeysActivateAfterDelay(store: KeyStore, sel: Selector, rules: SiteRules, minAgeSeconds: int, p: Policy,
                                      force: bool, now: int, gen: SecretSource)
    requires RotateKeys(store, sel, rules, minAgeSeconds, p, force, now, gen).Ok?
    ensures forall k :: k in RotateKeys(store, sel, rules, minAgeSeconds, p, force, now, gen).value.rotatedKeys ==>
              k.created == now && k.activates == PlusSeconds(now, p.activatesInSeconds)
  {
    var r := RotateKeys(store, sel, rules, minAgeSeconds, p, force, now, gen).value;
    if r.upload.Some? {
      var due := SitesToRotate(store.keys, sel, rules, now, minAgeSeconds, force);
      var m := Mint(store, due, p, now, gen).value;
      forall k | k in r.rotatedKeys
        ensures k.created == now && k.activates == PlusSeconds(now, p.activatesInSeconds)
      {
        var i :| 0 <= i < |m.added| && m.added[i] == k;
      }
    }
  }

  /** Helper for `RotationIsIdempotent`: after an unforced rotation, every
      considered site holds a key that activates no earlier than the
      threshold. */
  lemma FreshKeyWitness(store: KeyStore, sel: Selector, rules: SiteRules, minAgeSeconds: int,
                        p: Policy, now: int, gen: SecretSource, s: Int32) returns (w: Key)
    requires p.activatesInSeconds + minAgeSeconds >= 0
    requires RotateKeys(store, sel, rules, minAgeSeconds, p, false, now, gen).Ok?
    requires s in ConsideredSites(After(store, RotateKeys(store, sel, rules, minAgeSeconds, p, false, now, gen).value).keys, sel, rules)
    ensures w in After(store, RotateKeys(store, sel, rules, minAgeSeconds, p, false, now, gen).value).keys
    ensures w.siteId == s && Threshold(now, minAgeSeconds) <= w.activates
  {
    var r := RotateKeys(store, sel, rules, minAgeSeconds, p, false, now, gen).value;
    KeysAfterRotation(store, sel, rules, minAgeSeconds, p, false, now, gen);
    RotatedKeysActivateAfterDelay(store, sel, rules, minAgeSeconds, p, false, now, gen);
    w := WitnessIn(store.keys, After(store, r).keys, r.rotatedKeys, sel, rules, Threshold(now, minAgeSeconds), PlusSeconds(now, p.activatesInSeconds), s);
  }

  /** The set-level argument behind `FreshKeyWitness`. */
  lemma WitnessIn(before: seq<Key>, next: seq<Key>, rotated: seq<Key>, sel: Selector, rules: SiteRules,
                  threshold: int, activates: int, s: Int32) returns (w: Key)
    requires threshold <= activates
    requires forall k :: k in next <==> k in before || k in rotated
    requires forall k :: k in rotated ==> k.activates == activates
    requires forall t :: t in SitesOf(rotated) <==> t in ConsideredSites(before, sel, rules) && LatestActivation(before, t) < threshold
    requires s in ConsideredSites(next, sel, rules)
    ensures w in next && w.siteId == s && threshold <= w.activates
  {
    var k0 :| k0 in next && k0.siteId == s;
    if k0 in rotated {
      var i :| 0 <= i < |rotated| && rotated[i] == k0;
      assert SitesOf(rotated)[i] == s;
      assert s in SitesOf(rotated);
    } else {
      assert k0 in before;
    }
    assert HasKeyFor(before, s);
    if s in SitesOf(rotated) {
      var i :| 0 <= i < |rotated| && SitesOf(rotated)[i] == s;
      w := rotated[i];
    } else {
      w :| w in before && w.siteId == s && w.activates == LatestActivation(before, s);
    }
  }

  /** The snapshot of the master rotation scenario in the service's tests:
      a master key, a site key and a refresh key, all activated long ago,
      with a persisted high-water mark of 777. */
  function MasterScenario(): KeyStore {
    KeyStore([Key(11, [], 10011, 20011, 30011, -1),
              Key(12, [], 10012, 20012, 30012, 5),
              Key(13, [], 10013, 20012, 30012, -2)], Some(777))
  }

  /** In that scenario both reserved sites match, in snapshot order. */
  lemma MasterScenarioMatches(rules: SiteRules)
    ensures MatchingSites(MasterScenario().keys, MasterAndRefresh, rules) == [-1, -2]
  {
    var keys := MasterScenario().keys;
    assert keys[..2] == keys[..2][..1] + [keys[1]] && keys[..2][..1] == [keys[0]];
    assert MatchingSites([keys[0]], MasterAndRefresh, rules) == [-1] by {
      assert [keys[0]][..0] == [];
    }
    assert MatchingSites(keys[..2], MasterAndRefresh, rules) == [-1];
    assert keys[..|keys| - 1] == keys[..2];
  }

  /** Both reserved sites' latest keys activated before 900 000 ms. */
  lemma MasterScenarioLatest()
    ensures LatestActivation(MasterScenario().keys, -1) < 900_000
    ensures LatestActivation(MasterScenario().keys, -2) < 900_000
  {
    var keys := MasterScenario().keys;
    assert keys[..2] == [keys[0], keys[1]];
    assert keys[..2][..1] == [keys[0]];
  }

  /** With a minimum age of 100 s at instant 1 000 000 ms both reserved
      sites are due. */
  lemma MasterScenarioDue(rules: SiteRules)
    ensures SitesToRotate(MasterScenario().keys, MasterAndRefresh, rules, 1_000_000, 100, false) == [-1, -2]
  {
    var keys := MasterScenario().keys;
    MasterScenarioMatches(rules);
    MasterScenarioLatest();
    assert Threshold(1_000_000, 100) == 900_000;
    var tail := DueSites(keys, [-2], 900_000, false);
    assert tail == [-2] by {
      assert [-2][1..] == [];
    }
    assert [-1, -2][1..] == [-2];
  }

  /** The allocation base is the persisted mark 777. */
  lemma MasterScenarioBase()
    ensures GetMaxKeyId(MasterScenario()) == Ok(777)
  {
    var store := MasterScenario();
    assert forall k :: k in store.keys ==> k.id <= 777;
    PersistedMarkDominates(store);
  }

  /** Minting for both reserved sites from base 777 gives ids 778 and 779
      and uploads all five keys with mark 779. */
  lemma MasterScenarioMint(p: Policy, gen: SecretSource)
    ensures var m := Mint(MasterScenario(), [-1, -2], p, 1_000_000, gen);
            && m.Ok?
            && SitesOf(m.value.added) == [-1, -2]
            && m.value.added[0].id == 778 && m.value.added[1].id == 779
            && |m.value.upload.keys| == 5
            && m.value.upload.maxKeyId == 779
  {
    MasterScenarioBase();
    var m := Mint(MasterScenario(), [-1, -2], p, 1_000_000, gen);
    assert m.Ok?;
    assert SitesOf(m.value.added) == [-1, -2];
  }

  /** The master rotation of the service's tests: both reserved sites are
      rotated, the new keys get ids 778 and 779, and all five keys are
      uploaded with mark 779. */
  lemma MasterRotationExample(rules: SiteRules, p: Policy, gen: SecretSource)
    ensures var r := RotateKeys(MasterScenario(), MasterAndRefresh, rules, 100, p, false, 1_000_000, gen);
            && r.Ok?
            && SitesOf(r.value.rotatedKeys) == [-1, -2]
            && r.value.rotatedKeys[0].id == 778 && r.value.rotatedKeys[1].id == 779
            && r.value.upload.Some?
            && |r.value.upload.value.keys| == 5
            && r.value.upload.value.maxKeyId == 779
  {
    MasterScenarioDue(rules);
    MasterScenarioMint(p, gen);
    var store := MasterScenario();
    var m := Mint(store, [-1, -2], p, 1_000_000, gen).value;
    assert RotateKeys(store, MasterAndRefresh, rules, 100, p, false, 1_000_000, gen)
        == Ok(RotationResult(ConsideredSites(store.keys, MasterAndRefresh, rules), m.added, Some(m.upload)));
  }
}
