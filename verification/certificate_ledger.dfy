/** Issuance, lookup, verification and revocation of certificates, and the per-recipient index. */
module CertificateLedger {
  import opened RegistryState

  /** An authorized issuer stores a new certificate under the next id and appends that id
      to the recipient's list. Authorization is checked before the hash. */
  function IssueCertificate(s: Registry, caller: Addr, recipient: Addr, ipfsHash: string, now: Timestamp)
    : (r: Result<(Registry, Event)>)
    ensures r.Ok? <==> caller in s.issuers && ipfsHash != ""
    ensures caller !in s.issuers ==> r == Err(OnlyAuthorizedIssuers)
    ensures caller in s.issuers && ipfsHash == "" ==> r == Err(EmptyIpfsHash)
    ensures r.Ok? ==>
      var (t, e) := r.value;
      var id := s.nextId;
      && t.certs.Keys == s.certs.Keys + {id}
      && t.certs[id] == Certificate(id, caller, recipient, ipfsHash, now, false, "")
      && (forall k :: k in s.certs && k != id ==> t.certs[k] == s.certs[k])
      && t.nextId == id + 1
      && Index(t, recipient) == Index(s, recipient) + [id]
      && (forall a :: a != recipient ==> Index(t, a) == Index(s, a))
      && t.admin == s.admin && t.issuers == s.issuers
      && e == CertificateIssued(id, caller, recipient, ipfsHash, now)
  {
    if caller !in s.issuers then Err(OnlyAuthorizedIssuers)
    else if ipfsHash == "" then Err(EmptyIpfsHash)
    else
      var id := s.nextId;
      var c := Certificate(id, caller, recipient, ipfsHash, now, false, "");
      var t := s.(certs := s.certs[id := c],
                  recipientIndex := s.recipientIndex[recipient := Index(s, recipient) + [id]],
                  nextId := id + 1);
      Ok((t, CertificateIssued(id, caller, recipient, ipfsHash, now)))
  }

  /** Whoever calls, an empty hash is never issued: an authorized issuer is told the hash is
      empty, anyone else is stopped earlier by the issuer check. Nothing is stored either way. */
  lemma EmptyHashNeverIssues(s: Registry, caller: Addr, recipient: Addr, now: Timestamp)
    ensures IssueCertificate(s, caller, recipient, "", now).Err?
    ensures caller in s.issuers ==> IssueCertificate(s, caller, recipient, "", now).error == EmptyIpfsHash
    ensures caller !in s.issuers ==> IssueCertificate(s, caller, recipient, "", now).error == OnlyAuthorizedIssuers
  {
  }

  /** Looks a certificate up by id. */
  function GetCertificate(s: Registry, id: nat): (r: Result<Certificate>)
    ensures r.Ok? <==> id in s.certs
    ensures r.Err? ==> r.error == CertificateNotFound
    ensures r.Ok? ==> r.value == s.certs[id]
  {
    if id in s.certs then Ok(s.certs[id]) else Err(CertificateNotFound)
  }

  /** Looks a certificate up and reports whether it is still valid. */
  function VerifyCertificate(s: Registry, id: nat): (r: Result<(bool, Certificate)>)
    ensures r.Ok? <==> id in s.certs
    ensures r.Err? ==> r.error == CertificateNotFound
    ensures r.Ok? ==> r.value.1 == s.certs[id] && (r.value.0 <==> !s.certs[id].isRevoked)
  {
    match GetCertificate(s, id)
    case Err(e) => Err(e)
    case Ok(c) => Ok((!c.isRevoked, c))
  }

  /** The certificate's own issuer or the admin marks it revoked with a reason, once. */
  function RevokeCertificate(s: Registry, caller: Addr, id: nat, reason: string, now: Timestamp)
    : (r: Result<(Registry, Event)>)
    ensures id !in s.certs ==> r == Err(CertificateNotFound)
    ensures id in s.certs && caller != s.certs[id].issuer && caller != s.admin ==> r == Err(OnlyIssuerOrAdmin)
    ensures id in s.certs && (caller == s.certs[id].issuer || caller == s.admin) && s.certs[id].isRevoked
      ==> r == Err(AlreadyRevoked)
    ensures r.Ok? <==> id in s.certs && (caller == s.certs[id].issuer || caller == s.admin) && !s.certs[id].isRevoked
    ensures r.Ok? ==>
      var (t, e) := r.value;
      var c := s.certs[id];
      && t.certs.Keys == s.certs.Keys
      && t.certs[id] == c.(isRevoked := true, revokeReason := reason)
      && (forall k :: k in s.certs && k != id ==> t.certs[k] == s.certs[k])
      && t.admin == s.admin && t.issuers == s.issuers
      && t.recipientIndex == s.recipientIndex && t.nextId == s.nextId
      && e == CertificateRevoked(id, caller, reason, now)
  {
    if id !in s.certs then Err(CertificateNotFound)
    else
      var c := s.certs[id];
      if caller != c.issuer && caller != s.admin then Err(OnlyIssuerOrAdmin)
      else if c.isRevoked then Err(AlreadyRevoked)
      else
        var t := s.(certs := s.certs[id := c.(isRevoked := true, revokeReason := reason)]);
        Ok((t, CertificateRevoked(id, caller, reason, now)))
  }

  /** The ids issued to a recipient, empty when there are none. */
  function GetRecipientCertificates(s: Registry, recipient: Addr): seq<nat> {
    Index(s, recipient)
  }

  /** Issuance keeps the registry invariant, including the exactness of the recipient index. */
  lemma IssuePreservesValid(s: Registry, caller: Addr, recipient: Addr, ipfsHash: string, now: Timestamp)
    requires Valid(s)
    ensures IssueCertificate(s, caller, recipient, ipfsHash, now).Ok? ==>
      Valid(IssueCertificate(s, caller, recipient, ipfsHash, now).value.0)
  {
    var r := IssueCertificate(s, caller, recipient, ipfsHash, now);
    if r.Ok? {
      var t := r.value.0;
      var id := s.nextId;
      assert forall k :: k in t.certs <==> 1 <= k < t.nextId;
      forall a
        ensures Index(t, a) == IssuedTo(t.certs, a, t.nextId - 1)
      {
        IssuedToFrame(s.certs, t.certs, a, id - 1);
      }
    }
  }

  /** Revocation keeps the registry invariant: it changes no key and no recipient. */
  lemma RevokePreservesValid(s: Registry, caller: Addr, id: nat, reason: string, now: Timestamp)
    requires Valid(s)
    ensures RevokeCertificate(s, caller, id, reason, now).Ok? ==>
      Valid(RevokeCertificate(s, caller, id, reason, now).value.0)
  {
    var r := RevokeCertificate(s, caller, id, reason, now);
    if r.Ok? {
      var t := r.value.0;
      forall a
        ensures Index(t, a) == IssuedTo(t.certs, a, t.nextId - 1)
      {
        assert Index(t, a) == Index(s, a);
        assert t.certs[id].recipient == s.certs[id].recipient;
        IssuedToFrame(s.certs, t.certs, a, s.nextId - 1);
      }
    }
  }

  /** In every valid state a recipient's list holds exactly the ids of the certificates
      issued to it, each once, in the order they were issued (ids are allocated in increasing order). */
  lemma RecipientCertificatesExact(s: Registry, recipient: Addr)
    requires Valid(s)
    ensures forall id :: id in GetRecipientCertificates(s, recipient) <==> id in s.certs && s.certs[id].recipient == recipient
    ensures Increasing(GetRecipientCertificates(s, recipient))
  {
    var n := s.nextId - 1;
    assert GetRecipientCertificates(s, recipient) == IssuedTo(s.certs, recipient, n);
    IssuedToMembers(s.certs, recipient, n);
    IssuedToIncreasing(s.certs, recipient, n);
    forall id
      ensures id in IssuedTo(s.certs, recipient, n) <==> id in s.certs && s.certs[id].recipient == recipient
    {
      assert id in s.certs ==> id <= n;
    }
  }

  /** A certificate just issued is returned by the lookup, valid, with the caller as issuer. */
  lemma IssuedCertificateVerifies(s: Registry, caller: Addr, recipient: Addr, ipfsHash: string, now: Timestamp)
    requires IssueCertificate(s, caller, recipient, ipfsHash, now).Ok?
    ensures var t := IssueCertificate(s, caller, recipient, ipfsHash, now).value.0;
      && GetCertificate(t, s.nextId) == Ok(Certificate(s.nextId, caller, recipient, ipfsHash, now, false, ""))
      && VerifyCertificate(t, s.nextId).Ok? && VerifyCertificate(t, s.nextId).value.0
  {
  }

  /** After a successful revocation the certificate no longer verifies, and a second
      revocation by anyone allowed fails and keeps the first reason. */
  lemma RevokedCertificateStaysRevoked(s: Registry, caller: Addr, id: nat, reason: string, now: Timestamp,
                                        caller2: Addr, reason2: string, now2: Timestamp)
    requires RevokeCertificate(s, caller, id, reason, now).Ok?
    ensures var t := RevokeCertificate(s, caller, id, reason, now).value.0;
      && VerifyCertificate(t, id).Ok? && !VerifyCertificate(t, id).value.0
      && t.certs[id].revokeReason == reason
      && RevokeCertificate(t, caller2, id, reason2, now2).Err?
  {
  }

  /** The right to revoke a certificate is bound to its recorded issuer, not to the current
      issuer set: changing the issuer set changes no revocation outcome. */
  lemma RevocationIgnoresIssuerSet(s: Registry, issuers: set<Addr>, caller: Addr, id: nat, reason: string, now: Timestamp)
    ensures var r1 := RevokeCertificate(s, caller, id, reason, now);
      var r2 := RevokeCertificate(s.(issuers := issuers), caller, id, reason, now);
      && r1.Ok? == r2.Ok?
      && (r1.Err? ==> r1.error == r2.error)
      && (r1.Ok? ==> r2.value.0 == r1.value.0.(issuers := issuers) && r2.value.1 == r1.value.1)
  {
  }
}
