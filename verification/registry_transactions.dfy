/** The registry as a transaction-processing state machine: calls are applied one at a time,
    a reverted call leaves the state as it was, and a successful one emits exactly one event. */
module RegistryTransactions {
  import opened RegistryState
  import opened AccessControl
  import opened CertificateLedger

  /** The state-changing entry points of the contract. */
  datatype Call =
    | Authorize(target: Addr)
    | RevokeIssuerStatus(target: Addr)
    | Issue(recipient: Addr, ipfsHash: string)
    | Revoke(certificateId: nat, reason: string)

  /** A call as mined: who sent it, the block timestamp, and the call itself. */
  datatype Tx = Tx(caller: Addr, now: Timestamp, call: Call)

  function Apply(s: Registry, tx: Tx): Result<(Registry, Event)> {
    match tx.call
    case Authorize(target) => AuthorizeIssuer(s, tx.caller, target, tx.now)
    case RevokeIssuerStatus(target) => RevokeIssuer(s, tx.caller, target, tx.now)
    case Issue(recipient, ipfsHash) => IssueCertificate(s, tx.caller, recipient, ipfsHash, tx.now)
    case Revoke(id, reason) => RevokeCertificate(s, tx.caller, id, reason, tx.now)
  }

  /** One transaction: the new state and the events it emitted. */
  function Step(s: Registry, tx: Tx): (Registry, seq<Event>) {
    match Apply(s, tx)
    case Ok((t, e)) => (t, [e])
    case Err(_) => (s, [])
  }

  /** A sequence of transactions applied in order: the final state and all emitted events. */
  function Run(s: Registry, txs: seq<Tx>): (Registry, seq<Event>)
    decreases |txs|
  {
    if txs == [] then (s, [])
    else
      var (s1, es1) := Step(s, txs[0]);
      var (t, es) := Run(s1, txs[1..]);
      (t, es1 + es)
  }

  /** The ids carried by the `CertificateIssued` events of a log, in log order. */
  function IssuedIds(es: seq<Event>): seq<nat> {
    if es == [] then []
    else (if es[0].CertificateIssued? then [es[0].certificateId] else []) + IssuedIds(es[1..])
  }

  /** A later certificate record is the same issuance, and once revoked it never changes again. */
  ghost predicate Successor(c: Certificate, d: Certificate) {
    && d.id == c.id && d.issuer == c.issuer && d.recipient == c.recipient
    && d.ipfsHash == c.ipfsHash && d.issuedAt == c.issuedAt
    && (c.isRevoked ==> d == c)
  }

  /** `t` is a possible future of `s`: same admin, no id handed out again, no certificate
      deleted or altered except by its one revocation. */
  ghost predicate Extends(s: Registry, t: Registry) {
    && t.admin == s.admin
    && s.nextId <= t.nextId
    && forall id :: id in s.certs ==> id in t.certs && Successor(s.certs[id], t.certs[id])
  }

  lemma ApplyPreservesValid(s: Registry, tx: Tx)
    requires Valid(s)
    ensures Valid(Step(s, tx).0)
  {
    match tx.call
    case Authorize(target) => AuthorizeIssuerPreservesValid(s, tx.caller, target, tx.now);
    case RevokeIssuerStatus(target) => RevokeIssuerPreservesValid(s, tx.caller, target, tx.now);
    case Issue(recipient, ipfsHash) => IssuePreservesValid(s, tx.caller, recipient, ipfsHash, tx.now);
    case Revoke(id, reason) => RevokePreservesValid(s, tx.caller, id, reason, tx.now);
  }

  /** Every sequence of calls keeps the registry invariant; in particular the admin stays an
      authorized issuer and the recipient index stays exact. */
  lemma {:induction false} RunPreservesValid(s: Registry, txs: seq<Tx>)
    requires Valid(s)
    ensures Valid(Run(s, txs).0)
    decreases |txs|
  {
    if txs != [] {
      ApplyPreservesValid(s, txs[0]);
      RunPreservesValid(Step(s, txs[0]).0, txs[1..]);
    }
  }

  lemma StepExtends(s: Registry, tx: Tx)
    requires Valid(s)
    ensures Extends(s, Step(s, tx).0)
  {
  }

  lemma ExtendsTransitive(s: Registry, t: Registry, u: Registry)
    requires Extends(s, t) && Extends(t, u)
    ensures Extends(s, u)
  {
  }

  /** Along any sequence of calls the admin never changes, the id counter never goes back,
      no certificate disappears, its issuance data never changes, and a revoked certificate
      stays revoked with its first reason. */
  lemma {:induction false} RunExtends(s: Registry, txs: seq<Tx>)
    requires Valid(s)
    ensures Extends(s, Run(s, txs).0)
    decreases |txs|
  {
    if txs != [] {
      var s1 := Step(s, txs[0]).0;
      StepExtends(s, txs[0]);
      ApplyPreservesValid(s, txs[0]);
      RunExtends(s1, txs[1..]);
      ExtendsTransitive(s, s1, Run(s1, txs[1..]).0);
    }
  }

  lemma {:induction false} IssuedIdsAppend(a: seq<Event>, b: seq<Event>)
    ensures IssuedIds(a + b) == IssuedIds(a) + IssuedIds(b)
    decreases |a|
  {
    if a != [] {
      var head := if a[0].CertificateIssued? then [a[0].certificateId] else [];
      assert (a + b)[0] == a[0];
      assert (a + b)[1..] == a[1..] + b;
      IssuedIdsAppend(a[1..], b);
      calc {
        IssuedIds(a + b);
        head + IssuedIds(a[1..] + b);
        head + (IssuedIds(a[1..]) + IssuedIds(b));
        (head + IssuedIds(a[1..])) + IssuedIds(b);
        IssuedIds(a) + IssuedIds(b);
      }
    } else {
      assert a + b == b;
    }
  }

  /** A transaction either issues nothing and keeps the counter, or issues exactly the
      current counter value and advances it by one. */
  lemma StepIssuedIds(s: Registry, tx: Tx)
    ensures var (t, es) := Step(s, tx);
      || (IssuedIds(es) == [] && t.nextId == s.nextId)
      || (IssuedIds(es) == [s.nextId] && t.nextId == s.nextId + 1)
  {
    var (t, es) := Step(s, tx);
    if es != [] {
      assert es[1..] == [];
    }
  }

  /** Ids are handed out consecutively from the counter: the certificates issued by any
      sequence of calls carry exactly the ids s.nextId, s.nextId + 1, ..., so none is reused. */
  lemma {:induction false} RunIssuesConsecutiveIds(s: Registry, txs: seq<Tx>)
    ensures var (t, es) := Run(s, txs);
      && s.nextId <= t.nextId
      && |IssuedIds(es)| == t.nextId - s.nextId
      && forall i :: 0 <= i < |IssuedIds(es)| ==> IssuedIds(es)[i] == s.nextId + i
    decreases |txs|
  {
    if txs != [] {
      var (s1, es1) := Step(s, txs[0]);
      var (t, es) := Run(s1, txs[1..]);
      StepIssuedIds(s, txs[0]);
      RunIssuesConsecutiveIds(s1, txs[1..]);
      IssuedIdsAppend(es1, es);
    }
  }

  /** From deployment on, whatever calls are made: the deployer stays the admin and an
      authorized issuer, the invariant holds, and certificates are numbered 1, 2, 3, ... */
  lemma DeployedRegistry(deployer: Addr, txs: seq<Tx>)
    ensures var (t, es) := Run(Deploy(deployer), txs);
      && t.admin == deployer
      && IsAuthorizedIssuer(t, deployer)
      && Valid(t)
      && forall i :: 0 <= i < |IssuedIds(es)| ==> IssuedIds(es)[i] == i + 1
  {
    RunPreservesValid(Deploy(deployer), txs);
    RunExtends(Deploy(deployer), txs);
    RunIssuesConsecutiveIds(Deploy(deployer), txs);
  }
}
