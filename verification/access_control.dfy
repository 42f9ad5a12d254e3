/** Deployment and issuer management: the single admin and the set of authorized issuers. */
module AccessControl {
  import opened RegistryState

  /** Deploying the contract makes the deployer the admin and its first authorized issuer. */
  function Deploy(deployer: Addr): (s: Registry)
    ensures s.admin == deployer
    ensures IsAuthorizedIssuer(s, deployer)
    ensures forall a :: IsAuthorizedIssuer(s, a) ==> a == deployer
    ensures s.certs == map[] && s.nextId == 1
    ensures forall r :: Index(s, r) == []
    ensures Valid(s)
  {
    Registry(deployer, {deployer}, map[], map[], 1)
  }

  /** Whether `a` may currently issue certificates. */
  function IsAuthorizedIssuer(s: Registry, a: Addr): bool {
    a in s.issuers
  }

  /** Only the admin may authorize an issuer; re-authorizing an issuer succeeds and changes nothing. */
  function AuthorizeIssuer(s: Registry, caller: Addr, target: Addr, now: Timestamp): (r: Result<(Registry, Event)>)
    ensures r.Ok? <==> caller == s.admin
    ensures r.Err? ==> r.error == OnlyAdmin
    ensures r.Ok? ==>
      var (t, e) := r.value;
      && (forall a :: IsAuthorizedIssuer(t, a) <==> a == target || IsAuthorizedIssuer(s, a))
      && t.admin == s.admin && t.certs == s.certs
      && t.recipientIndex == s.recipientIndex && t.nextId == s.nextId
      && e == IssuerAuthorized(target, now)
  {
    if caller != s.admin then Err(OnlyAdmin)
    else Ok((s.(issuers := s.issuers + {target}), IssuerAuthorized(target, now)))
  }

  /** Only the admin may revoke an issuer, and never the admin itself. */
  function RevokeIssuer(s: Registry, caller: Addr, target: Addr, now: Timestamp): (r: Result<(Registry, Event)>)
    ensures r.Ok? <==> caller == s.admin && target != s.admin
    ensures caller != s.admin ==> r == Err(OnlyAdmin)
    ensures caller == s.admin && target == s.admin ==> r == Err(CannotRevokeAdmin)
    ensures r.Ok? ==>
      var (t, e) := r.value;
      && (forall a :: IsAuthorizedIssuer(t, a) <==> a != target && IsAuthorizedIssuer(s, a))
      && t.admin == s.admin && t.certs == s.certs
      && t.recipientIndex == s.recipientIndex && t.nextId == s.nextId
      && e == IssuerRevoked(target, now)
  {
    if caller != s.admin then Err(OnlyAdmin)
    else if target == s.admin then Err(CannotRevokeAdmin)
    else Ok((s.(issuers := s.issuers - {target}), IssuerRevoked(target, now)))
  }

  /** Authorizing an issuer keeps the registry invariant. */
  lemma AuthorizeIssuerPreservesValid(s: Registry, caller: Addr, target: Addr, now: Timestamp)
    requires Valid(s)
    ensures AuthorizeIssuer(s, caller, target, now).Ok? ==> Valid(AuthorizeIssuer(s, caller, target, now).value.0)
  {
    if caller == s.admin {
      var t := AuthorizeIssuer(s, caller, target, now).value.0;
      forall a
        ensures Index(t, a) == IssuedTo(t.certs, a, t.nextId - 1)
      {
        assert Index(t, a) == Index(s, a);
      }
    }
  }

  /** Revoking an issuer keeps the registry invariant; in particular the admin stays an issuer. */
  lemma RevokeIssuerPreservesValid(s: Registry, caller: Addr, target: Addr, now: Timestamp)
    requires Valid(s)
    ensures RevokeIssuer(s, caller, target, now).Ok? ==> Valid(RevokeIssuer(s, caller, target, now).value.0)
  {
    if caller == s.admin && target != s.admin {
      var t := RevokeIssuer(s, caller, target, now).value.0;
      forall a
        ensures Index(t, a) == IssuedTo(t.certs, a, t.nextId - 1)
      {
        assert Index(t, a) == Index(s, a);
      }
    }
  }

  /** Whoever calls, an attempt to revoke the admin's issuer status fails: the admin is told
      "Cannot revoke admin", anyone else is stopped earlier by the admin-only check. */
  lemma RevokingAdminAlwaysFails(s: Registry, caller: Addr, now: Timestamp)
    ensures RevokeIssuer(s, caller, s.admin, now).Err?
    ensures caller == s.admin ==> RevokeIssuer(s, caller, s.admin, now).error == CannotRevokeAdmin
    ensures caller != s.admin ==> RevokeIssuer(s, caller, s.admin, now).error == OnlyAdmin
  {
  }
}
