/** `AdminKeyService`: the admin-user registry. Each mutating route reloads
    the admin list, looks the admin up by name and either rejects the request
    with an HTTP code (no upload) or uploads the changed list. */
module AdminKeys {
  import opened Common

  type RoleName = string

  datatype AdminUser = AdminUser(key: string, name: string, contact: string, created: int,
                                 roles: set<RoleName>, disabled: bool)

  /** `adminToJson`: everything but the key. */
  datatype AdminJson = AdminJson(name: string, contact: string, roles: set<RoleName>, created: int, disabled: bool)

  /** `RequestUtil.getRoles`: a roles specification, or `null` when it does
      not parse. */
  type RolesParser = string -> Option<set<RoleName>>

  /** No two admins share a name: the registry invariant `add` maintains. */
  ghost predicate UniqueNames(admins: seq<AdminUser>) {
    forall i, j :: 0 <= i < j < |admins| ==> admins[i].name != admins[j].name
  }

  /** The position of the first admin with the given name. */
  function IndexOfName(admins: seq<AdminUser>, name: string): (r: Option<nat>)
    ensures r.Some? ==> r.value < |admins| && admins[r.value].name == name
    ensures r.Some? ==> forall j :: 0 <= j < r.value ==> admins[j].name != name
    ensures r.None? <==> forall a :: a in admins ==> a.name != name
  {
    FirstIndex(admins, (a: AdminUser) => a.name == name)
  }

  /** `getAdminUser`: no admin for an empty name list, otherwise the first
      admin named like the first element, if any. */
  function GetAdminUser(admins: seq<AdminUser>, names: seq<string>): (r: Option<AdminUser>)
    ensures |names| == 0 ==> r.None?
    ensures |names| > 0 ==> (r.None? <==> forall a :: a in admins ==> a.name != names[0])
    ensures r.Some? ==> r.value in admins && r.value.name == names[0]
  {
    if |names| == 0 then None
    else
      match IndexOfName(admins, names[0])
      case None => None
      case Some(i) => Some(admins[i])
  }

  function AdminToJson(a: AdminUser): AdminJson {
    AdminJson(a.name, a.contact, a.roles, a.created, a.disabled)
  }

  /** Two admins that differ only in their key have the same JSON view. */
  lemma AdminToJsonHidesKey(a: AdminUser, key: string)
    ensures AdminToJson(a.(key := key)) == AdminToJson(a)
  {
  }

  /** A new admin key: the configured prefix, if any, then the generated string. */
  function PrefixedKey(prefix: Option<string>, generated: string): (k: string)
    ensures prefix.None? ==> k == generated
    ensures prefix.Some? ==> |k| == |prefix.value| + |generated|
    ensures prefix.Some? ==> k[..|prefix.value|] == prefix.value && k[|prefix.value|..] == generated
  {
    match prefix
    case None => generated
    case Some(p) => p + generated
  }

  /** `handleAdminAdd`. A missing `name` or `roles` parameter throws and
      answers 500. */
  function HandleAdminAdd(admins: seq<AdminUser>, names: seq<string>, rolesParam: seq<string>, parseRoles: RolesParser,
                          prefix: Option<string>, generated: string, now: int): (r: Reply<seq<AdminUser>, AdminUser>)
    ensures |names| == 0 ==> r == Reject(InternalError)
    ensures |names| > 0 && (exists a :: a in admins && a.name == names[0]) ==> r == Reject(BadRequest)
    ensures |names| > 0 && (forall a :: a in admins ==> a.name != names[0]) && |rolesParam| == 0 ==>
      r == Reject(InternalError)
    ensures (&& |names| > 0 && (forall a :: a in admins ==> a.name != names[0])
             && |rolesParam| > 0 && parseRoles(rolesParam[0]).None?)
            ==> r == Reject(BadRequest)
    ensures r.Commit? <==>
      && |names| > 0 && (forall a :: a in admins ==> a.name != names[0])
      && |rolesParam| > 0 && parseRoles(rolesParam[0]).Some?
    ensures r.Commit? ==>
      && r.state == admins + [r.body]
      && r.body.name == names[0] && r.body.contact == names[0]
      && r.body.key == PrefixedKey(prefix, generated)
      && r.body.roles == parseRoles(rolesParam[0]).value
      && r.body.created == now
      && !r.body.disabled
    ensures r.Commit? && UniqueNames(admins) ==> UniqueNames(r.state)
  {
    if |names| == 0 then Reject(InternalError)
    else
      var name := names[0];
      if IndexOfName(admins, name).Some? then Reject(BadRequest)
      else if |rolesParam| == 0 then Reject(InternalError)
      else
        match parseRoles(rolesParam[0])
        case None => Reject(BadRequest)
        case Some(roles) =>
          var admin := AdminUser(PrefixedKey(prefix, generated), name, name, now, roles, false);
          Commit(admins + [admin], admin)
  }

  /** `handleAdminDel`. */
  function HandleAdminDel(admins: seq<AdminUser>, names: seq<string>): (r: Reply<seq<AdminUser>, AdminUser>)
    ensures r.Reject? <==> GetAdminUser(admins, names).None?
    ensures r.Reject? ==> r.code == NotFound
    ensures r.Commit? ==>
      && r.body == GetAdminUser(admins, names).value
      && |r.state| == |admins| - 1
      && multiset(r.state) + multiset{r.body} == multiset(admins)
    ensures r.Commit? && UniqueNames(admins) ==>
      UniqueNames(r.state) && forall a :: a in r.state ==> a.name != names[0]
  {
    if |names| == 0 then Reject(NotFound)
    else
      match IndexOfName(admins, names[0])
      case None => Reject(NotFound)
      case Some(i) =>
        var rest := RemoveAt(admins, i);
        assert UniqueNames(admins) ==> forall a :: a in rest ==> a.name != names[0] by {
          if UniqueNames(admins) {
            forall a | a in rest
              ensures a.name != names[0]
            {
              var j :| 0 <= j < |rest| && rest[j] == a;
              if j < i {
                assert admins[j] == a;
              } else {
                assert admins[j + 1] == a;
              }
            }
          }
        }
        Commit(rest, admins[i])
  }

  /** The admin at `i` replaced by `a`, everything else untouched. */
  function Replace(admins: seq<AdminUser>, i: nat, a: AdminUser): (r: seq<AdminUser>)
    requires i < |admins| && a.name == admins[i].name
    ensures |r| == |admins| && r[i] == a
    ensures forall j :: 0 <= j < |admins| && j != i ==> r[j] == admins[j]
    ensures UniqueNames(admins) ==> UniqueNames(r)
  {
    admins[i := a]
  }

  /** `handleAdminDisable(rc, disableFlag)`, for both `disable` and
      `enable`: a request that would not change the flag is refused. */
  function HandleAdminDisable(admins: seq<AdminUser>, names: seq<string>, disableFlag: bool): (r: Reply<seq<AdminUser>, AdminJson>)
    ensures GetAdminUser(admins, names).None? ==> r == Reject(NotFound)
    ensures GetAdminUser(admins, names).Some? ==>
      (r == Reject(BadRequest) <==> GetAdminUser(admins, names).value.disabled == disableFlag)
    ensures r.Commit? <==> GetAdminUser(admins, names).Some? && GetAdminUser(admins, names).value.disabled != disableFlag
    ensures r.Commit? ==> |names| > 0 && IndexOfName(admins, names[0]).Some? && |r.state| == |admins|
    ensures r.Commit? ==>
      var i := IndexOfName(admins, names[0]).value;
      && r.state[i] == admins[i].(disabled := disableFlag)
      && r.state[i].disabled != admins[i].disabled
      && (forall j :: 0 <= j < |admins| && j != i ==> r.state[j] == admins[j])
      && r.body == AdminToJson(r.state[i])
    ensures r.Commit? && UniqueNames(admins) ==> UniqueNames(r.state)
  {
    if |names| == 0 then Reject(NotFound)
    else
      match IndexOfName(admins, names[0])
      case None => Reject(NotFound)
      case Some(i) =>
        if admins[i].disabled == disableFlag then Reject(BadRequest)
        else
          var updated := admins[i].(disabled := disableFlag);
          Commit(Replace(admins, i, updated), AdminToJson(updated))
  }

  /** `handleAdminRekey`: only the named admin's key changes. */
  function HandleAdminRekey(admins: seq<AdminUser>, names: seq<string>, prefix: Option<string>, generated: string): (r: Reply<seq<AdminUser>, AdminUser>)
    ensures r.Reject? <==> GetAdminUser(admins, names).None?
    ensures r.Reject? ==> r.code == NotFound
    ensures r.Commit? ==> |names| > 0 && IndexOfName(admins, names[0]).Some? && |r.state| == |admins|
    ensures r.Commit? ==>
      var i := IndexOfName(admins, names[0]).value;
      && r.body == admins[i].(key := PrefixedKey(prefix, generated))
      && r.state[i] == r.body
      && (forall j :: 0 <= j < |admins| && j != i ==> r.state[j] == admins[j])
    ensures r.Commit? && UniqueNames(admins) ==> UniqueNames(r.state)
  {
    if |names| == 0 then Reject(NotFound)
    else
      match IndexOfName(admins, names[0])
      case None => Reject(NotFound)
      case Some(i) =>
        var updated := admins[i].(key := PrefixedKey(prefix, generated));
        Commit(Replace(admins, i, updated), updated)
  }

  /** `handleAdminRoles`: only the named admin's role set changes. A missing
      `roles` parameter throws and answers 500. */
  function HandleAdminRoles(admins: seq<AdminUser>, names: seq<string>, rolesParam: seq<string>, parseRoles: RolesParser): (r: Reply<seq<AdminUser>, AdminUser>)
    ensures GetAdminUser(admins, names).None? ==> r == Reject(NotFound)
    ensures GetAdminUser(admins, names).Some? && |rolesParam| == 0 ==> r == Reject(InternalError)
    ensures GetAdminUser(admins, names).Some? && |rolesParam| > 0 && parseRoles(rolesParam[0]).None? ==> r == Reject(BadRequest)
    ensures r.Commit? <==> GetAdminUser(admins, names).Some? && |rolesParam| > 0 && parseRoles(rolesParam[0]).Some?
    ensures r.Commit? ==> |names| > 0 && IndexOfName(admins, names[0]).Some? && |r.state| == |admins|
    ensures r.Commit? ==>
      var i := IndexOfName(admins, names[0]).value;
      && r.body == admins[i].(roles := parseRoles(rolesParam[0]).value)
      && r.state[i] == r.body
      && (forall j :: 0 <= j < |admins| && j != i ==> r.state[j] == admins[j])
    ensures r.Commit? && UniqueNames(admins) ==> UniqueNames(r.state)
  {
    if |names| == 0 then Reject(NotFound)
    else
      match IndexOfName(admins, names[0])
      case None => Reject(NotFound)
      case Some(i) =>
        if |rolesParam| == 0 then Reject(InternalError)
        else
          match parseRoles(rolesParam[0])
          case None => Reject(BadRequest)
          case Some(roles) =>
            var updated := admins[i].(roles := roles);
            Commit(Replace(admins, i, updated), updated)
  }

  /** Deleting an admin right after adding it restores the registry. */
  lemma {:induction false} DeleteUndoesAdd(admins: seq<AdminUser>, name: string, rolesParam: seq<string>, parseRoles: RolesParser,
                                           prefix: Option<string>, generated: string, now: int)
    requires HandleAdminAdd(admins, [name], rolesParam, parseRoles, prefix, generated, now).Commit?
    ensures var added := HandleAdminAdd(admins, [name], rolesParam, parseRoles, prefix, generated, now);
            HandleAdminDel(added.state, [name]) == Commit(admins, added.body)
  {
    var added := HandleAdminAdd(admins, [name], rolesParam, parseRoles, prefix, generated, now);
    var i := IndexOfName(added.state, name);
    assert added.state[|admins|].name == name;
    assert i == Some(|admins|) by {
      assert forall j :: 0 <= j < |admins| ==> added.state[j] == admins[j];
      assert forall j :: 0 <= j < |admins| ==> admins[j] in admins;
    }
    assert RemoveAt(added.state, |admins|) == admins;
  }

  /** Enabling an admin right after disabling it restores the registry, and
      so does the converse. */
  lemma {:induction false} EnableUndoesDisable(admins: seq<AdminUser>, name: string, flag: bool)
    requires HandleAdminDisable(admins, [name], flag).Commit?
    ensures HandleAdminDisable(HandleAdminDisable(admins, [name], flag).state, [name], !flag).Commit?
    ensures HandleAdminDisable(HandleAdminDisable(admins, [name], flag).state, [name], !flag).state == admins
  {
    var once := HandleAdminDisable(admins, [name], flag).state;
    var i := IndexOfName(admins, name).value;
    assert IndexOfName(once, name) == Some(i) by {
      assert forall j :: 0 <= j < i ==> once[j] == admins[j];
    }
    assert once[i := admins[i]] == admins;
  }

  /** A second identical disable (or enable) is refused with 400 and
      changes nothing. */
  lemma {:induction false} RepeatedDisableIsRefused(admins: seq<AdminUser>, name: string, flag: bool)
    requires HandleAdminDisable(admins, [name], flag).Commit?
    ensures HandleAdminDisable(HandleAdminDisable(admins, [name], flag).state, [name], flag) == Reject(BadRequest)
  {
    var once := HandleAdminDisable(admins, [name], flag).state;
    var i := IndexOfName(admins, name).value;
    assert IndexOfName(once, name) == Some(i) by {
      assert forall j :: 0 <= j < i ==> once[j] == admins[j];
    }
  }
}
