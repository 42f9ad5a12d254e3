/** The registry test suite's scenarios, replayed on the model. Four accounts play the parts
    of the suite's signers: the deployer (admin), an issuer, a recipient and an outsider. */
module RegistryScenarios {
  import opened RegistryState
  import opened AccessControl
  import opened CertificateLedger
  import opened RegistryTransactions

  const Admin: Addr := 1
  const Issuer: Addr := 2
  const Recipient: Addr := 3
  const Outsider: Addr := 4

  /** The fixture shared by the issuance, verification and revocation tests: the admin
      deploys and authorizes the issuer. */
  function WithIssuer(): (s: Registry)
    ensures Valid(s) && IsAuthorizedIssuer(s, Issuer) && s.nextId == 1
  {
    var s0 := Deploy(Admin);
    AuthorizeIssuerPreservesValid(s0, Admin, Issuer, 10);
    AuthorizeIssuer(s0, Admin, Issuer, 10).value.0
  }

  /** Issuer management: only the admin authorizes and revokes issuers, and the admin's own
      issuer status cannot be revoked. */
  lemma IssuerManagementScenario()
    ensures AuthorizeIssuer(Deploy(Admin), Admin, Issuer, 10) == Ok((WithIssuer(), IssuerAuthorized(Issuer, 10)))
    ensures AuthorizeIssuer(Deploy(Admin), Outsider, Issuer, 10) == Err(OnlyAdmin)
    ensures var r := RevokeIssuer(WithIssuer(), Admin, Issuer, 11);
      r.Ok? && r.value.1 == IssuerRevoked(Issuer, 11) && !IsAuthorizedIssuer(r.value.0, Issuer)
    ensures RevokeIssuer(Deploy(Admin), Admin, Admin, 11) == Err(CannotRevokeAdmin)
    ensures Message(AuthorizeIssuer(Deploy(Admin), Outsider, Issuer, 10).error) == "Only admin can perform this action"
    ensures Message(RevokeIssuer(Deploy(Admin), Admin, Admin, 11).error) == "Cannot revoke admin"
  {
  }

  /** Issuance: the first certificate gets id 1 and is stored as issued; outsiders and empty
      hashes are refused; two issues to one recipient are listed as [1, 2]. */
  lemma IssuanceScenario()
    ensures var r := IssueCertificate(WithIssuer(), Issuer, Recipient, "QmTest123", 20);
      && r.Ok?
      && r.value.1 == CertificateIssued(1, Issuer, Recipient, "QmTest123", 20)
      && GetCertificate(r.value.0, 1) == Ok(Certificate(1, Issuer, Recipient, "QmTest123", 20, false, ""))
    ensures IssueCertificate(WithIssuer(), Outsider, Recipient, "QmTest", 20) == Err(OnlyAuthorizedIssuers)
    ensures IssueCertificate(WithIssuer(), Issuer, Recipient, "", 20) == Err(EmptyIpfsHash)
    ensures var s1 := IssueCertificate(WithIssuer(), Issuer, Recipient, "QmTest1", 20).value.0;
      var s2 := IssueCertificate(s1, Issuer, Recipient, "QmTest2", 21).value.0;
      GetRecipientCertificates(s2, Recipient) == [1, 2]
    ensures Message(IssueCertificate(WithIssuer(), Outsider, Recipient, "QmTest", 20).error)
      == "Only authorized issuers can perform this action"
    ensures Message(IssueCertificate(WithIssuer(), Issuer, Recipient, "", 20).error) == "IPFS hash cannot be empty"
  {
    var s1 := IssueCertificate(WithIssuer(), Issuer, Recipient, "QmTest1", 20).value.0;
    assert GetRecipientCertificates(s1, Recipient) == [1];
  }

  /** Verification and revocation of the fixture's certificate 1. */
  lemma RevocationScenario()
    ensures var s1 := IssueCertificate(WithIssuer(), Issuer, Recipient, "QmTest", 20).value.0;
      && VerifyCertificate(s1, 1).Ok? && VerifyCertificate(s1, 1).value.0
      && VerifyCertificate(s1, 1).value.1.id == 1
      && var r := RevokeCertificate(s1, Issuer, 1, "No longer valid", 30);
      && r.Ok?
      && r.value.1 == CertificateRevoked(1, Issuer, "No longer valid", 30)
      && GetCertificate(r.value.0, 1).value.isRevoked
      && GetCertificate(r.value.0, 1).value.revokeReason == "No longer valid"
      && !VerifyCertificate(r.value.0, 1).value.0
      && RevokeCertificate(r.value.0, Issuer, 1, "Second revoke", 31) == Err(AlreadyRevoked)
    ensures var s1 := IssueCertificate(WithIssuer(), Issuer, Recipient, "QmTest", 20).value.0;
      && RevokeCertificate(s1, Admin, 1, "Admin revoke", 30).Ok?
      && RevokeCertificate(s1, Outsider, 1, "Unauthorized", 30) == Err(OnlyIssuerOrAdmin)
      && Message(RevokeCertificate(s1, Outsider, 1, "Unauthorized", 30).error)
        == "Only issuer or admin can revoke certificate"
    ensures var s1 := IssueCertificate(WithIssuer(), Issuer, Recipient, "QmTest", 20).value.0;
      var s2 := RevokeCertificate(s1, Issuer, 1, "First revoke", 30).value.0;
      Message(RevokeCertificate(s2, Issuer, 1, "Second revoke", 31).error) == "Certificate already revoked"
  {
  }

  /** An issuer whose status the admin has revoked may still revoke the certificates it issued. */
  lemma FormerIssuerMayRevokeScenario()
    ensures var s1 := IssueCertificate(WithIssuer(), Issuer, Recipient, "Qm1", 20).value.0;
      var s2 := RevokeIssuer(s1, Admin, Issuer, 25).value.0;
      && !IsAuthorizedIssuer(s2, Issuer)
      && VerifyCertificate(s2, 1).value.0
      && RevokeCertificate(s2, Issuer, 1, "expired", 30).Ok?
  {
  }
}
