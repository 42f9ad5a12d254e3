/** The state of the certificate registry contract: the records it stores, the events
    it emits, the reasons it reverts with, and the invariant every reachable state keeps. */
module RegistryState {

  /** An account address; the contract only compares addresses for equality. */
  type Addr = nat

  /** A block timestamp, supplied to each transition by the hosting chain. */
  type Timestamp = nat

  /** One issued certificate. Everything but the two revocation fields is fixed at issuance. */
  datatype Certificate = Certificate(
    id: nat,
    issuer: Addr,
    recipient: Addr,
    ipfsHash: string,
    issuedAt: Timestamp,
    isRevoked: bool,
    revokeReason: string)

  /** The whole contract storage. A recipient missing from `recipientIndex` has no certificates. */
  datatype Registry = Registry(
    admin: Addr,
    issuers: set<Addr>,
    certs: map<nat, Certificate>,
    recipientIndex: map<Addr, seq<nat>>,
    nextId: nat)

  /** The events emitted by successful transitions. */
  datatype Event =
    | IssuerAuthorized(issuer: Addr, timestamp: Timestamp)
    | IssuerRevoked(issuer: Addr, timestamp: Timestamp)
    | CertificateIssued(certificateId: nat, issuer: Addr, recipient: Addr, ipfsHash: string, timestamp: Timestamp)
    | CertificateRevoked(certificateId: nat, revoker: Addr, reason: string, timestamp: Timestamp)

  /** The reasons a call reverts. */
  datatype Error =
    | OnlyAdmin
    | CannotRevokeAdmin
    | OnlyAuthorizedIssuers
    | EmptyIpfsHash
    | CertificateNotFound
    | OnlyIssuerOrAdmin
    | AlreadyRevoked

  /** The revert strings the contract reports. The text for a missing certificate is not
      pinned down by the test suite, so `CertificateNotFound` has no string here. */
  function Message(e: Error): string
    requires !e.CertificateNotFound?
  {
    match e
    case OnlyAdmin => "Only admin can perform this action"
    case CannotRevokeAdmin => "Cannot revoke admin"
    case OnlyAuthorizedIssuers => "Only authorized issuers can perform this action"
    case EmptyIpfsHash => "IPFS hash cannot be empty"
    case OnlyIssuerOrAdmin => "Only issuer or admin can revoke certificate"
    case AlreadyRevoked => "Certificate already revoked"
  }

  /** A call either reverts with an error or succeeds with a value. */
  datatype Result<T> = Ok(value: T) | Err(error: Error)

  /** The ids stored for `r` in the recipient index (empty when `r` has none). */
  function Index(s: Registry, r: Addr): seq<nat> {
    if r in s.recipientIndex then s.recipientIndex[r] else []
  }

  /** Reference definition of a recipient's certificate list: the ids among 1..n whose
      certificate names `r` as recipient, in ascending order. */
  function IssuedTo(certs: map<nat, Certificate>, r: Addr, n: nat): seq<nat> {
    if n == 0 then []
    else IssuedTo(certs, r, n - 1) + (if n in certs && certs[n].recipient == r then [n] else [])
  }

  ghost predicate Increasing(xs: seq<nat>) {
    forall i, j :: 0 <= i < j < |xs| ==> xs[i] < xs[j]
  }

  /** A stored certificate is well formed: it carries its own key, a non-empty hash,
      and no revocation reason while it is still valid. */
  ghost predicate WellFormed(id: nat, c: Certificate) {
    && c.id == id
    && |c.ipfsHash| > 0
    && (!c.isRevoked ==> c.revokeReason == "")
  }

  /** The invariant of every reachable registry state. */
  ghost predicate Valid(s: Registry) {
    && s.admin in s.issuers
    && s.nextId >= 1
    && (forall id :: id in s.certs <==> 1 <= id < s.nextId)
    && (forall id :: id in s.certs ==> WellFormed(id, s.certs[id]))
    && (forall r :: Index(s, r) == IssuedTo(s.certs, r, s.nextId - 1))
  }

  /** The reference list holds exactly the ids in 1..n issued to `r`. */
  lemma {:induction false} IssuedToMembers(certs: map<nat, Certificate>, r: Addr, n: nat)
    ensures forall x :: x in IssuedTo(certs, r, n) <==> 1 <= x <= n && x in certs && certs[x].recipient == r
  {
    if n > 0 {
      IssuedToMembers(certs, r, n - 1);
    }
  }

  /** The reference list is in ascending id order, hence free of repetitions. */
  lemma {:induction false} IssuedToIncreasing(certs: map<nat, Certificate>, r: Addr, n: nat)
    ensures Increasing(IssuedTo(certs, r, n))
  {
    if n > 0 {
      IssuedToIncreasing(certs, r, n - 1);
      IssuedToMembers(certs, r, n - 1);
      var prev := IssuedTo(certs, r, n - 1);
      assert forall i :: 0 <= i < |prev| ==> prev[i] in prev;
    }
  }

  /** The reference list only looks at the keys 1..n and the recipients stored there. */
  lemma {:induction false} IssuedToFrame(c1: map<nat, Certificate>, c2: map<nat, Certificate>, r: Addr, n: nat)
    requires forall k :: 1 <= k <= n ==> (k in c1 <==> k in c2)
    requires forall k :: 1 <= k <= n && k in c1 ==> c1[k].recipient == c2[k].recipient
    ensures IssuedTo(c1, r, n) == IssuedTo(c2, r, n)
  {
    if n > 0 {
      IssuedToFrame(c1, c2, r, n - 1);
    }
  }
}
