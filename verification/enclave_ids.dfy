/** `EnclaveIdService`: the registry of enclave identifiers operators may
    attest with. A change is uploaded only once the audit callback has
    accepted the operation it describes. */
module EnclaveIds {
  import opened Common

  /** `created` is in epoch seconds. */
  datatype EnclaveIdentifier = EnclaveIdentifier(name: string, protocol: string, identifier: string, created: int)

  /** `RequestUtil.validateOperatorProtocol`: the canonical protocol name, or
      `null` for an unsupported one. */
  type ProtocolValidator = string -> Option<string>

  /** No two enclave identifiers share a name: the invariant `add` maintains. */
  ghost predicate UniqueNames(enclaves: seq<EnclaveIdentifier>) {
    forall i, j :: 0 <= i < j < |enclaves| ==> enclaves[i].name != enclaves[j].name
  }

  /** The position of the first enclave identifier with the given name. */
  function IndexOfName(enclaves: seq<EnclaveIdentifier>, name: string): (r: Option<nat>)
    ensures r.Some? ==> r.value < |enclaves| && enclaves[r.value].name == name
    ensures r.Some? ==> forall j :: 0 <= j < r.value ==> enclaves[j].name != name
    ensures r.None? <==> forall e :: e in enclaves ==> e.name != name
  {
    FirstIndex(enclaves, (e: EnclaveIdentifier) => e.name == name)
  }

  /** `handleEnclaveAdd`. A missing `name`, `protocol` or `enclave_id`
      parameter throws and answers 500; a present but unsupported protocol or
      a null `enclave_id` answers 400; a refusal from the audit callback
      answers 500. Only then is the extended list uploaded. */
  function HandleEnclaveAdd(enclaves: seq<EnclaveIdentifier>, names: seq<string>, protocols: seq<string>,
                            validateProtocol: ProtocolValidator, enclaveIds: seq<Option<string>>,
                            now: int, auditAccepts: bool): (r: Reply<seq<EnclaveIdentifier>, EnclaveIdentifier>)
    ensures |names| == 0 ==> r == Reject(InternalError)
    ensures |names| > 0 && (exists e :: e in enclaves && e.name == names[0]) ==> r == Reject(BadRequest)
    ensures |names| > 0 && (forall e :: e in enclaves ==> e.name != names[0]) && |protocols| == 0 ==>
      r == Reject(InternalError)
    ensures (&& |names| > 0 && (forall e :: e in enclaves ==> e.name != names[0])
             && |protocols| > 0 && validateProtocol(protocols[0]).None?)
            ==> r == Reject(BadRequest)
    ensures (&& |names| > 0 && (forall e :: e in enclaves ==> e.name != names[0])
             && |protocols| > 0 && validateProtocol(protocols[0]).Some? && |enclaveIds| == 0)
            ==> r == Reject(InternalError)
    ensures (&& |names| > 0 && (forall e :: e in enclaves ==> e.name != names[0])
             && |protocols| > 0 && validateProtocol(protocols[0]).Some?
             && |enclaveIds| > 0 && enclaveIds[0].None?)
            ==> r == Reject(BadRequest)
    ensures r.Commit? <==>
      && |names| > 0 && (forall e :: e in enclaves ==> e.name != names[0])
      && |protocols| > 0 && validateProtocol(protocols[0]).Some?
      && |enclaveIds| > 0 && enclaveIds[0].Some?
      && auditAccepts
    // a request that passes every check but the audit callback answers 500
    ensures (&& |names| > 0 && (forall e :: e in enclaves ==> e.name != names[0])
             && |protocols| > 0 && validateProtocol(protocols[0]).Some?
             && |enclaveIds| > 0 && enclaveIds[0].Some? && !auditAccepts)
            ==> r == Reject(InternalError)
    ensures r.Commit? ==>
      && r.state == enclaves + [r.body]
      && r.body == EnclaveIdentifier(names[0], validateProtocol(protocols[0]).value, enclaveIds[0].value, now)
    ensures r.Commit? && UniqueNames(enclaves) ==> UniqueNames(r.state)
  {
    if |names| == 0 then Reject(InternalError)
    else
      var name := names[0];
      if IndexOfName(enclaves, name).Some? then Reject(BadRequest)
      else if |protocols| == 0 then Reject(InternalError)
      else
        match validateProtocol(protocols[0])
        case None => Reject(BadRequest)
        case Some(protocol) =>
          if |enclaveIds| == 0 then Reject(InternalError)
          else
            match enclaveIds[0]
            case None => Reject(BadRequest)
            case Some(identifier) =>
              var created := EnclaveIdentifier(name, protocol, identifier, now);
              if !auditAccepts then Reject(InternalError)
              else Commit(enclaves + [created], created)
  }

  /** `handleEnclaveDel`. A missing `name` parameter throws and answers 500;
      an unknown name answers 404; a refusal from the audit callback answers
      500. Only then is the shortened list uploaded. */
  function HandleEnclaveDel(enclaves: seq<EnclaveIdentifier>, names: seq<string>, auditAccepts: bool): (r: Reply<seq<EnclaveIdentifier>, EnclaveIdentifier>)
    ensures |names| == 0 ==> r == Reject(InternalError)
    ensures |names| > 0 && (forall e :: e in enclaves ==> e.name != names[0]) ==> r == Reject(NotFound)
    ensures r.Commit? <==> |names| > 0 && (exists e :: e in enclaves && e.name == names[0]) && auditAccepts
    ensures |names| > 0 && (exists e :: e in enclaves && e.name == names[0]) && !auditAccepts ==> r == Reject(InternalError)
    ensures r.Commit? ==>
      && r.body in enclaves && r.body.name == names[0]
      && |r.state| == |enclaves| - 1
      && multiset(r.state) + multiset{r.body} == multiset(enclaves)
    ensures r.Commit? && UniqueNames(enclaves) ==>
      UniqueNames(r.state) && forall e :: e in r.state ==> e.name != names[0]
  {
    if |names| == 0 then Reject(InternalError)
    else
      match IndexOfName(enclaves, names[0])
      case None => Reject(NotFound)
      case Some(i) =>
        var rest := RemoveAt(enclaves, i);
        assert UniqueNames(enclaves) ==> forall e :: e in rest ==> e.name != names[0] by {
          if UniqueNames(enclaves) {
            forall e | e in rest
              ensures e.name != names[0]
            {
              var j :| 0 <= j < |rest| && rest[j] == e;
              if j < i {
                assert enclaves[j] == e;
              } else {
                assert enclaves[j + 1] == e;
              }
            }
          }
        }
        if !auditAccepts then Reject(InternalError)
        else Commit(rest, enclaves[i])
  }

  /** Deleting an enclave identifier right after adding it restores the
      registry and answers with the identifier that was added. */
  lemma {:induction false} DeleteUndoesAdd(enclaves: seq<EnclaveIdentifier>, name: string, protocols: seq<string>,
                                           validateProtocol: ProtocolValidator, enclaveIds: seq<Option<string>>, now: int)
    requires HandleEnclaveAdd(enclaves, [name], protocols, validateProtocol, enclaveIds, now, true).Commit?
    ensures var added := HandleEnclaveAdd(enclaves, [name], protocols, validateProtocol, enclaveIds, now, true);
            HandleEnclaveDel(added.state, [name], true) == Commit(enclaves, added.body)
  {
    var added := HandleEnclaveAdd(enclaves, [name], protocols, validateProtocol, enclaveIds, now, true);
    assert added.state[|enclaves|].name == name;
    assert IndexOfName(added.state, name) == Some(|enclaves|) by {
      assert forall j :: 0 <= j < |enclaves| ==> added.state[j] == enclaves[j];
      assert forall j :: 0 <= j < |enclaves| ==> enclaves[j] in enclaves;
    }
    assert RemoveAt(added.state, |enclaves|) == enclaves;
  }
}
