/** `EncryptionKeyService`: the constructor's policy check, the single-site
    key creation, the three rotation routes and the key listing. Request
    parsing is outside the model; its results arrive as optional values. */
module KeyService {
  import opened Common
  import opened Keys
  import opened Minting
  import opened Rotation

  /** The master/refresh policy and the site policy. */
  datatype KeyServiceConfig = KeyServiceConfig(master: Policy, site: Policy)

  datatype ConfigError = MasterPolicyInvalid | SitePolicyInvalid

  /** The constructor: each activation delay must be strictly shorter than
      its expiry delay; the master policy is checked first. */
  function NewKeyService(masterActivatesIn: Int32, masterExpiresAfter: Int32,
                         siteActivatesIn: Int32, siteExpiresAfter: Int32): (r: Result<KeyServiceConfig, ConfigError>)
    ensures r.Ok? <==> masterActivatesIn < masterExpiresAfter && siteActivatesIn < siteExpiresAfter
    ensures masterActivatesIn >= masterExpiresAfter ==> r == Err(MasterPolicyInvalid)
    ensures masterActivatesIn < masterExpiresAfter && siteActivatesIn >= siteExpiresAfter ==> r == Err(SitePolicyInvalid)
    ensures r.Ok? ==> r.value.master == Policy(masterActivatesIn, masterExpiresAfter)
    ensures r.Ok? ==> r.value.site == Policy(siteActivatesIn, siteExpiresAfter)
  {
    if masterActivatesIn >= masterExpiresAfter then Err(MasterPolicyInvalid)
    else if siteActivatesIn >= siteExpiresAfter then Err(SitePolicyInvalid)
    else Ok(KeyServiceConfig(Policy(masterActivatesIn, masterExpiresAfter), Policy(siteActivatesIn, siteExpiresAfter)))
  }

  predicate ValidPolicy(p: Policy) {
    p.activatesInSeconds < p.expiresAfterSeconds
  }

  /** Under a policy the constructor accepts, with a non-negative activation
      delay, every minted key satisfies `created <= activates < expires`. */
  lemma MintedKeysHaveValidityWindow(store: KeyStore, siteIds: seq<Int32>, p: Policy, now: int, gen: SecretSource)
    requires ValidPolicy(p) && 0 <= p.activatesInSeconds
    requires Mint(store, siteIds, p, now, gen).Ok?
    ensures forall k :: k in Mint(store, siteIds, p, now, gen).value.added ==> k.created <= k.activates < k.expires
  {
    var m := Mint(store, siteIds, p, now, gen).value;
    forall k | k in m.added
      ensures k.created <= k.activates < k.expires
    {
      var i :| 0 <= i < |m.added| && m.added[i] == k;
    }
  }

  /** `addSiteKey`: always mints exactly one site key, after a reload. */
  datatype AddedKey = AddedKey(key: Key, upload: Upload)

  function AddSiteKey(store: KeyStore, cfg: KeyServiceConfig, siteId: Int32, now: int, gen: SecretSource): (r: Result<AddedKey, MintError>)
    // for a single key the source's guard and the corrected one coincide
    ensures r.Ok? <==> GetMaxKeyId(store).Ok?
    ensures r.Ok? ==>
      && r.value.key.id == GetMaxKeyId(store).value + 1
      && r.value.key.siteId == siteId
      && r.value.key.created == now
      && r.value.key.activates == PlusSeconds(now, cfg.site.activatesInSeconds)
      && r.value.key.expires == PlusSeconds(r.value.key.activates, cfg.site.expiresAfterSeconds)
      && r.value.upload.keys == SortById(store.keys) + [r.value.key]
      && r.value.upload.maxKeyId == r.value.key.id
  {
    var m :- Mint(store, [siteId], cfg.site, now, gen);
    Ok(AddedKey(m.added[0], m.upload))
  }

  /** Failures of a rotation route: an HTTP status, or a request parameter
      that `RequestUtil` already rejected (the handler then returns without
      touching the store). */
  datatype RouteError = Status(code: int) | ParamRejected

  /** The request-level `rotateKeys(rc, ...)`: a missing or malformed
      `min_age_seconds` or `force` yields no result (`null`); an absent
      `force` has already been defaulted to false by the parser. */
  function RotateFromRequest(store: KeyStore, sel: Selector, rules: SiteRules, p: Policy,
                             minAgeSeconds: Option<int>, force: Option<bool>, now: int, gen: SecretSource): (r: Result<Option<RotationResult>, MintError>)
    ensures (minAgeSeconds.None? || force.None?) ==> r == Ok(None)
    ensures minAgeSeconds.Some? && force.Some? ==>
      r == (match RotateKeys(store, sel, rules, minAgeSeconds.value, p, force.value, now, gen)
            case Ok(v) => Ok(Some(v))
            case Err(e) => Err(e))
  {
    match (minAgeSeconds, force)
    case (Some(minAge), Some(f)) =>
      var res :- RotateKeys(store, sel, rules, minAge, p, f, now, gen);
      Ok(Some(res))
    case _ => Ok(None)
  }

  /** `handleRotateMasterKey`: the master and refresh keys, under the master
      policy. A rejected parameter has already been answered by `RequestUtil`;
      a failed rotation answers 500. */
  function HandleRotateMasterKey(store: KeyStore, cfg: KeyServiceConfig, rules: SiteRules,
                                 minAgeSeconds: Option<int>, force: Option<bool>, now: int, gen: SecretSource): (r: Result<RotationResult, RouteError>)
    ensures r.Ok? ==> forall k :: k in r.value.rotatedKeys ==> k.siteId == MasterKeySiteId || k.siteId == RefreshKeySiteId
    ensures r.Ok? ==> forall k :: k in r.value.rotatedKeys ==> k.activates == PlusSeconds(k.created, cfg.master.activatesInSeconds)
    ensures (minAgeSeconds.None? || force.None?) ==> r == Err(ParamRejected)
    ensures r.Err? && minAgeSeconds.Some? && force.Some? ==> r.error == Status(InternalError)
    // with both parameters present the route answers exactly what the planner returns
    ensures minAgeSeconds.Some? && force.Some? ==>
      var rotated := RotateKeys(store, MasterAndRefresh, rules, minAgeSeconds.value, cfg.master, force.value, now, gen);
      (r.Ok? <==> rotated.Ok?) && (r.Ok? ==> rotated == Ok(r.value))
  {
    var out := RotateFromRequest(store, MasterAndRefresh, rules, cfg.master, minAgeSeconds, force, now, gen);
    if out.Err? then Err(Status(InternalError))
    else if out.value.None? then Err(ParamRejected)
    else
      RotatedKeysMatchSelector(store, MasterAndRefresh, rules, minAgeSeconds.value, cfg.master, force.value, now, gen);
      RotatedKeysActivateAfterDelay(store, MasterAndRefresh, rules, minAgeSeconds.value, cfg.master, force.value, now, gen);
      Ok(out.value.value)
  }

  /** `handleRotateSiteKey`: the site id must be the advertising site or a
      valid site (400), and must have at least one key (404). */
  function HandleRotateSiteKey(store: KeyStore, cfg: KeyServiceConfig, rules: SiteRules, siteId: Option<Int32>,
                               minAgeSeconds: Option<int>, force: Option<bool>, now: int, gen: SecretSource): (r: Result<RotationResult, RouteError>)
    ensures siteId.None? ==> r == Err(ParamRejected)
    ensures siteId.Some? ==>
      (r == Err(Status(BadRequest)) <==> siteId.value != rules.advertisingSiteId && !rules.isValidSiteId(siteId.value))
    ensures siteId.Some? && r != Err(Status(BadRequest)) && (minAgeSeconds.None? || force.None?) ==> r == Err(ParamRejected)
    // a site without keys is reported as not found, and a site with keys never is
    ensures siteId.Some? && minAgeSeconds.Some? && force.Some? && r != Err(Status(BadRequest)) ==>
      (r == Err(Status(NotFound)) <==> !HasKeyFor(store.keys, siteId.value))
    ensures r.Ok? ==> HasKeyFor(store.keys, siteId.value) && r.value.siteIds == {siteId.value}
    ensures r.Ok? ==> forall k :: k in r.value.rotatedKeys ==> k.siteId == siteId.value
    // past the checks, the route answers exactly what the planner returns for the site
    ensures siteId.Some? && minAgeSeconds.Some? && force.Some? && r != Err(Status(BadRequest)) && HasKeyFor(store.keys, siteId.value) ==>
      var rotated := RotateKeys(store, SingleSite(siteId.value), rules, minAgeSeconds.value, cfg.site, force.value, now, gen);
      && (r.Ok? <==> rotated.Ok?)
      && (r.Ok? ==> rotated == Ok(r.value))
      && (r.Err? ==> r.error == Status(InternalError))
  {
    if siteId.None? then Err(ParamRejected)
    else
      var site := siteId.value;
      if site != rules.advertisingSiteId && !rules.isValidSiteId(site) then Err(Status(BadRequest))
      else
        var out := RotateFromRequest(store, SingleSite(site), rules, cfg.site, minAgeSeconds, force, now, gen);
        if out.Err? then
          assert HasKeyFor(store.keys, site) by {
            if !HasKeyFor(store.keys, site) {
              UnmatchedSelectorIsNoOp(store, SingleSite(site), rules, minAgeSeconds.value, cfg.site, force.value, now, gen);
            }
          }
          Err(Status(InternalError))
        else if out.value.None? then Err(ParamRejected)
        else if site !in out.value.value.siteIds then Err(Status(NotFound))
        else
          RotatedKeysMatchSelector(store, SingleSite(site), rules, minAgeSeconds.value, cfg.site, force.value, now, gen);
          assert out.value.value.siteIds == {site};
          Ok(out.value.value)
  }

  /** The 404 of `handleRotateSiteKey` never follows an upload: a site that
      was not considered has nothing rotated. */
  lemma RotateSiteNotFoundUploadsNothing(store: KeyStore, cfg: KeyServiceConfig, rules: SiteRules, site: Int32,
                                         minAgeSeconds: int, force: bool, now: int, gen: SecretSource)
    requires HandleRotateSiteKey(store, cfg, rules, Some(site), Some(minAgeSeconds), Some(force), now, gen) == Err(Status(NotFound))
    ensures RotateKeys(store, SingleSite(site), rules, minAgeSeconds, cfg.site, force, now, gen)
            == Ok(RotationResult({}, [], None))
  {
    UnmatchedSelectorIsNoOp(store, SingleSite(site), rules, minAgeSeconds, cfg.site, force, now, gen);
  }

  /** `handleRotateAllSiteKeys`: every valid or advertising site. */
  function HandleRotateAllSiteKeys(store: KeyStore, cfg: KeyServiceConfig, rules: SiteRules,
                                   minAgeSeconds: Option<int>, force: Option<bool>, now: int, gen: SecretSource): (r: Result<RotationResult, RouteError>)
    ensures (minAgeSeconds.None? || force.None?) ==> r == Err(ParamRejected)
    ensures r.Ok? ==> forall k :: k in r.value.rotatedKeys ==> rules.isValidSiteId(k.siteId) || k.siteId == rules.advertisingSiteId
    ensures r.Ok? ==> forall s :: s in r.value.siteIds <==> HasKeyFor(store.keys, s) && (rules.isValidSiteId(s) || s == rules.advertisingSiteId)
    ensures r.Err? && minAgeSeconds.Some? && force.Some? ==> r.error == Status(InternalError)
    // with both parameters present the route answers exactly what the planner returns
    ensures minAgeSeconds.Some? && force.Some? ==>
      var rotated := RotateKeys(store, AllSites, rules, minAgeSeconds.value, cfg.site, force.value, now, gen);
      (r.Ok? <==> rotated.Ok?) && (r.Ok? ==> rotated == Ok(r.value))
  {
    var out := RotateFromRequest(store, AllSites, rules, cfg.site, minAgeSeconds, force, now, gen);
    if out.Err? then Err(Status(InternalError))
    else if out.value.None? then Err(ParamRejected)
    else
      RotatedKeysMatchSelector(store, AllSites, rules, minAgeSeconds.value, cfg.site, force.value, now, gen);
      Ok(out.value.value)
  }

  /** `handleKeyList`: every key of the snapshot, secret withheld, ordered by
      site id and then activation time. */
  function HandleKeyList(store: KeyStore): (r: seq<KeyJson>)
    ensures |r| == |store.keys|
    ensures forall i, j :: 0 <= i < j < |r| ==>
      r[i].siteId < r[j].siteId || (r[i].siteId == r[j].siteId && r[i].activates <= r[j].activates)
    ensures multiset(r) == multiset(JsonOf(store.keys))
  {
    var sorted := Sort(store.keys, BySiteThenActivation);
    MapPreservesMultiset(sorted, store.keys);
    JsonOf(sorted)
  }

  /** Listing the keys after a rotation shows the previous keys plus the
      rotated ones, each exactly as the rotation returned it. */
  lemma ListingAfterRotation(store: KeyStore, sel: Selector, rules: SiteRules, minAgeSeconds: int, p: Policy,
                             force: bool, now: int, gen: SecretSource)
    requires RotateKeys(store, sel, rules, minAgeSeconds, p, force, now, gen).Ok?
    ensures var r := RotateKeys(store, sel, rules, minAgeSeconds, p, force, now, gen).value;
            multiset(HandleKeyList(After(store, r))) == multiset(JsonOf(store.keys)) + multiset(JsonOf(r.rotatedKeys))
  {
    var r := RotateKeys(store, sel, rules, minAgeSeconds, p, force, now, gen).value;
    RotationIsAdditive(store, sel, rules, minAgeSeconds, p, force, now, gen);
    ListingOfUnion(After(store, r), store.keys, r.rotatedKeys);
  }

  lemma ListingOfUnion(store: KeyStore, a: seq<Key>, b: seq<Key>)
    requires multiset(store.keys) == multiset(a) + multiset(b)
    ensures multiset(HandleKeyList(store)) == multiset(JsonOf(a)) + multiset(JsonOf(b))
  {
    assert multiset(store.keys) == multiset(a + b);
    MapPreservesMultiset(store.keys, a + b);
    JsonOfAppend(a, b);
  }

  /** The listing entries of a list of keys, in the same order. */
  function JsonOf(keys: seq<Key>): (r: seq<KeyJson>)
    ensures |r| == |keys| && forall i :: 0 <= i < |keys| ==> r[i] == ToJson(keys[i])
    decreases |keys|
  {
    if |keys| == 0 then [] else [ToJson(keys[0])] + JsonOf(keys[1..])
  }

  lemma {:induction false} JsonOfAppend(a: seq<Key>, b: seq<Key>)
    ensures JsonOf(a + b) == JsonOf(a) + JsonOf(b)
    decreases |a|
  {
    if |a| == 0 {
      assert a + b == b;
    } else {
      assert (a + b)[1..] == a[1..] + b;
      JsonOfAppend(a[1..], b);
    }
  }

  /** Listing permuted keys gives permuted listings. */
  lemma {:induction false} MapPreservesMultiset(a: seq<Key>, b: seq<Key>)
    requires multiset(a) == multiset(b)
    ensures multiset(JsonOf(a)) == multiset(JsonOf(b))
    decreases |a|
  {
    if |a| > 0 {
      assert a[0] in multiset(b) by {
        assert a[0] in multiset(a);
      }
      var j := IndexOf(b, a[0]);
      MultisetWithout(a, b, j);
      MapPreservesMultiset(a[1..], b[..j] + b[j + 1..]);
      JsonOfSplit(b, j);
      JsonOfCons(a);
    }
  }

  /** Taking the head off `a` and the same element off its permutation `b`
      leaves permutations. */
  lemma MultisetWithout(a: seq<Key>, b: seq<Key>, j: nat)
    requires |a| > 0 && j < |b| && b[j] == a[0] && multiset(a) == multiset(b)
    ensures multiset(a[1..]) == multiset(b[..j] + b[j + 1..])
  {
    SplitAt(b, j);
    assert a == [a[0]] + a[1..];
    assert multiset(a[1..]) == multiset(a) - multiset{a[0]};
  }

  /** The listing of a non-empty list is its head's entry plus the listing
      of its tail. */
  lemma JsonOfCons(a: seq<Key>)
    requires |a| > 0
    ensures multiset(JsonOf(a)) == multiset(JsonOf(a[1..])) + multiset{ToJson(a[0])}
  {
    assert JsonOf(a) == [ToJson(a[0])] + JsonOf(a[1..]);
  }

  /** The listing of `b` is the listing of `b` without position `j` plus
      the entry for position `j`. */
  lemma JsonOfSplit(b: seq<Key>, j: nat)
    requires j < |b|
    ensures multiset(JsonOf(b)) == multiset(JsonOf(b[..j] + b[j + 1..])) + multiset{ToJson(b[j])}
  {
    var pre, post := b[..j], b[j + 1..];
    SplitAt(b, j);
    JsonOfAppend(pre, [b[j]] + post);
    JsonOfAppend(pre, post);
    assert JsonOf([b[j]] + post) == [ToJson(b[j])] + JsonOf(post);
  }

  /** A position at which `x` occurs in `b`. */
  lemma IndexOf(b: seq<Key>, x: Key) returns (j: nat)
    requires x in multiset(b)
    ensures j < |b| && b[j] == x
  {
    j :| 0 <= j < |b| && b[j] == x;
  }

  /** Cutting `b` around position `j`. */
  lemma SplitAt(b: seq<Key>, j: nat)
    requires j < |b|
    ensures b == b[..j] + ([b[j]] + b[j + 1..])
    ensures multiset(b) == multiset(b[..j] + b[j + 1..]) + multiset{b[j]}
  {
    assert b == b[..j] + ([b[j]] + b[j + 1..]);
  }
}
