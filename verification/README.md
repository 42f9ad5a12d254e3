# Certificate registry: a Dafny model

This project models the `CertificateRegistry` smart contract of a certificate dApp. The
contract keeps the admin and the set of authorized issuers. It stores the issued certificates
(issuer, recipient, IPFS hash, issue time, revocation flag and reason) and a per-recipient list
of certificate ids. It lets the certificate's issuer or the admin revoke a certificate once.
The contract's Solidity source is not part of this model. Its behaviour is taken from its Hardhat test
suite (`smart_contract/test/CertificateRegistry.test.js`): the revert strings it asserts, the
events and their arguments, the id numbering, and the recipient lists. A second, small part
is the client's `formatAddress` display helper (`client/src/utils/web3.js`).

The model is functional. A `Registry` value is the whole contract storage. Every
state-changing entry point (`authorizeIssuer`, `revokeIssuer`, `issueCertificate`,
`revokeCertificate`) is a pure function that takes the storage, the sending account (`caller`)
and the block timestamp (`now`). It returns either `Ok((newStorage, event))` or `Err(error)`.
A reverted call therefore cannot change the storage. The four queries (`isAuthorizedIssuer`,
`getCertificate`, `verifyCertificate`, `getRecipientCertificates`) take only the storage and
their argument, and change nothing. `RegistryTransactions.Run` applies a sequence of
transactions one at a time.

Modules:

- `RegistryState` (`registry_state.dfy`) defines the records, the events and the error kinds.
  `Message` gives the revert strings the tests assert. The module also holds the invariant
  `Valid` and a reference definition `IssuedTo` of a recipient's certificate list: the ids whose
  certificate names that recipient, in ascending order. The invariant requires four things.
  - The admin is an issuer.
  - The stored ids are exactly `1 .. nextId-1`.
  - Every stored certificate carries its own id and a non-empty hash. It has no reason while
    it is unrevoked.
  - Every recipient's list equals the reference list.
- `AccessControl` (`access_control.dfy`) holds deployment, `authorizeIssuer`, `revokeIssuer`
  and `isAuthorizedIssuer`.
- `CertificateLedger` (`certificate_ledger.dfy`) holds `issueCertificate`, `getCertificate`,
  `verifyCertificate`, `revokeCertificate` and `getRecipientCertificates`.
- `RegistryTransactions` (`registry_transactions.dfy`) holds the transaction-level state
  machine and the properties of every call sequence.
- `RegistryScenarios` (`registry_scenarios.dfy`) replays the test suite's cases on the model.
- `AddressFormat` (`address_format.dfy`) holds `formatAddress`. JavaScript's
  `String.prototype.slice` position rules (negative positions, clamping) are written out,
  with positions counted in characters.

Order of checks. The tests show which error each failing case reports, but not which check
runs first when two fail. The model checks in this order:
- `authorizeIssuer` and `revokeIssuer` check for the admin before anything else. This is the
  usual `onlyAdmin` modifier.
- `revokeIssuer` then refuses the admin as target.
- `issueCertificate` checks issuer authorization, then the empty hash.
- `revokeCertificate` checks existence, then issuer-or-admin, then already-revoked.

Another possible reading runs the target and hash checks before the role checks. Under that
reading, revoking the admin would fail with "Cannot revoke admin" whatever the caller. An empty
hash would also be reported to any caller. The model follows the contract's usual modifier-first
order instead. A non-admin caller gets "Only admin can perform this action". A non-issuer gets
"Only authorized issuers can perform this action". Two facts hold under either order, and both
are proved, each with the exact error every caller receives. Revoking the admin always fails
(`AccessControl.RevokingAdminAlwaysFails`). An empty hash never issues anything
(`CertificateLedger.EmptyHashNeverIssues`).

`RegistryTransactions.Step` applies one transaction. It keeps the storage and emits no event
when the call reverts, by construction. `formatAddress` reads no module state. `FormatAddress` is a pure
function of its argument, so that property holds by construction.

## Model

| member | source | states |
|---|---|---|
| AccessControl.Deploy | smart_contract/test/CertificateRegistry.test.js:19-26 | after deployment the deployer is the admin and the only authorized issuer; nothing is issued, the first id will be 1, and the invariant holds |
| AccessControl.AuthorizeIssuer | smart_contract/test/CertificateRegistry.test.js:30-43 | succeeds exactly when the caller is the admin. On success the issuers are the old ones plus the target, the rest of the storage is unchanged and `IssuerAuthorized(target, now)` is emitted. Otherwise it fails with "Only admin can perform this action" |
| AccessControl.RevokeIssuer | smart_contract/test/CertificateRegistry.test.js:45-60 | succeeds exactly when the caller is the admin and the target is not. On success the target is no longer authorized, every other account keeps its status and `IssuerRevoked(target, now)` is emitted. A non-admin caller gets "Only admin…"; the admin revoking itself gets "Cannot revoke admin" |
| AccessControl.IsAuthorizedIssuer | smart_contract/test/CertificateRegistry.test.js:24-26 | the issuer-membership query. Its meaning comes from the contracts that use it: `Deploy` (the deployer is the only issuer), `AuthorizeIssuer` (adds exactly the target), `RevokeIssuer` (removes exactly the target) and `DeployedRegistry` (the admin stays an issuer after any calls) |
| AccessControl.RevokingAdminAlwaysFails | smart_contract/test/CertificateRegistry.test.js:56-60 | whoever the caller, revoking the admin's issuer status fails: the admin gets "Cannot revoke admin", any other caller gets "Only admin can perform this action" |
| AccessControl.AuthorizeIssuerPreservesValid | smart_contract/test/CertificateRegistry.test.js:30-37 | authorizing an issuer keeps the registry invariant |
| AccessControl.RevokeIssuerPreservesValid | smart_contract/test/CertificateRegistry.test.js:45-60 | revoking an issuer keeps the registry invariant, so the admin stays an issuer |
| CertificateLedger.IssueCertificate | smart_contract/test/CertificateRegistry.test.js:68-94 | succeeds exactly when the caller is an authorized issuer and the hash is non-empty. On success it stores `{id: nextId, issuer: caller, recipient, hash, issuedAt: now, isRevoked: false}` under the key `nextId` (a fresh key in every valid state), leaves every other certificate alone, advances the counter by one, appends the id to that recipient's list only, and emits `CertificateIssued`. A non-issuer gets "Only authorized issuers…"; an issuer with an empty hash gets "IPFS hash cannot be empty" |
| CertificateLedger.EmptyHashNeverIssues | smart_contract/test/CertificateRegistry.test.js:90-94 | whoever the caller, an empty hash is never issued: an authorized issuer gets "IPFS hash cannot be empty", anyone else gets "Only authorized issuers can perform this action" |
| CertificateLedger.GetRecipientCertificates | smart_contract/test/CertificateRegistry.test.js:96-104 | the recipient-list query, empty for an unknown recipient. Its meaning comes from `RecipientCertificatesExact`: in every valid state it lists exactly the recipient's certificate ids, each once, in issuance order |
| CertificateLedger.GetCertificate | smart_contract/test/CertificateRegistry.test.js:76-81 | returns the stored certificate exactly when the id exists; otherwise not-found |
| CertificateLedger.VerifyCertificate | smart_contract/test/CertificateRegistry.test.js:113-124 | for an existing id returns the stored certificate and a flag that is true exactly when it is not revoked; otherwise not-found |
| CertificateLedger.RevokeCertificate | smart_contract/test/CertificateRegistry.test.js:133-165 | not-found for a missing id; "Only issuer or admin can revoke certificate" for any other caller; "Certificate already revoked" for a revoked one. Otherwise it marks exactly that certificate revoked with the reason, changes nothing else and emits `CertificateRevoked(id, caller, reason, now)` |
| CertificateLedger.IssuePreservesValid | smart_contract/test/CertificateRegistry.test.js:96-104 | issuance keeps the invariant, including the exactness of every recipient list |
| CertificateLedger.RevokePreservesValid | smart_contract/test/CertificateRegistry.test.js:133-151 | revocation keeps the invariant |
| CertificateLedger.RecipientCertificatesExact | smart_contract/test/CertificateRegistry.test.js:96-104 | in every valid state a recipient's list contains an id exactly when that certificate exists and names the recipient, and it is strictly increasing: each id appears once, in issuance order |
| CertificateLedger.IssuedCertificateVerifies | smart_contract/test/CertificateRegistry.test.js:68-82 | a certificate just issued is returned by `getCertificate` with the issuance data and is valid under `verifyCertificate` |
| CertificateLedger.RevokedCertificateStaysRevoked | smart_contract/test/CertificateRegistry.test.js:119-165 | after a successful revocation the certificate no longer verifies and keeps the reason, and any second revocation fails |
| CertificateLedger.RevocationIgnoresIssuerSet | smart_contract/test/CertificateRegistry.test.js:133-157 | the right to revoke depends on the certificate's recorded issuer and the admin, not on the current issuer set: changing that set changes no revocation outcome |
| RegistryState.IssuedToMembers | smart_contract/test/CertificateRegistry.test.js:96-104 | the reference recipient list up to n holds exactly the ids 1..n whose certificate names the recipient |
| RegistryState.IssuedToIncreasing | smart_contract/test/CertificateRegistry.test.js:96-104 | the reference recipient list is strictly increasing |
| RegistryState.IssuedToFrame | smart_contract/test/CertificateRegistry.test.js:96-104 | the reference recipient list depends only on which ids 1..n exist and their recipients, so revocation and later issues leave earlier entries alone |
| RegistryTransactions.RunPreservesValid | smart_contract/test/CertificateRegistry.test.js:19-166 | every sequence of calls from a valid state ends in a valid state |
| RegistryTransactions.StepIssuedIds | smart_contract/test/CertificateRegistry.test.js:68-82 | a single call either issues nothing and keeps the counter, or issues exactly the counter's value and advances it by one |
| RegistryTransactions.RunExtends | smart_contract/test/CertificateRegistry.test.js:159-165 | along any sequence of calls the admin never changes, the counter never decreases, and no certificate is removed or has its issuance data changed. A revoked certificate stays revoked with its first reason |
| RegistryTransactions.RunIssuesConsecutiveIds | smart_contract/test/CertificateRegistry.test.js:96-104 | the certificates issued by any sequence of calls carry the consecutive ids nextId, nextId+1, …, so no id is ever reused |
| RegistryTransactions.DeployedRegistry | smart_contract/test/CertificateRegistry.test.js:20-26 | after deployment and any calls, the deployer is still the admin and an authorized issuer, the invariant holds, and the issued ids are 1, 2, 3, … |
| RegistryScenarios.WithIssuer | smart_contract/test/CertificateRegistry.test.js:63-66 | the shared fixture, in which the admin deploys and authorizes the issuer, is a valid state with the issuer authorized and nothing issued yet |
| RegistryScenarios.IssuerManagementScenario | smart_contract/test/CertificateRegistry.test.js:29-61 | the issuer-management cases: the admin authorizes and revokes with the expected events, an outsider gets "Only admin…", and revoking the admin gets "Cannot revoke admin" |
| RegistryScenarios.IssuanceScenario | smart_contract/test/CertificateRegistry.test.js:63-105 | the issuance cases: the first certificate is id 1 with the expected event and record, an outsider and an empty hash are refused, and two issues list `[1, 2]` |
| RegistryScenarios.RevocationScenario | smart_contract/test/CertificateRegistry.test.js:107-166 | the verification and revocation cases: valid before, revoked with the reason after, a second revoke refused, the admin allowed, an outsider refused |
| RegistryScenarios.FormerIssuerMayRevokeScenario | smart_contract/test/CertificateRegistry.test.js:133-144 | an issuer whose status was revoked can still revoke the certificate it issued, and that certificate stays valid until then |
| AddressFormat.FormatAddress | client/src/utils/web3.js:85-88 | a missing or empty address gives "". Otherwise the output is the first min(6, n) characters, then "...", then the last min(4, n) characters, with length min(6, n) + 3 + min(4, n) |
| AddressFormat.LongAddressFormat | client/src/utils/web3.js:87 | an address of ten or more characters, such as a 42-character hex address, formats to exactly 13 characters: its first six, "...", and its last four |
| AddressFormat.ShortAddressFormat | client/src/utils/web3.js:87 | an address of one to four characters appears whole on both sides of the "..." |

## Left out

- The Solidity contract itself is not part of this model. Its behaviour comes from the test suite. Checks the tests do not exercise are not modelled, for example any zero-address check in `authorizeIssuer` or `issueCertificate`.
- The order of checks when two fail at once is not observed by the tests. The order chosen is described above.
- AccessControl.RevokingAdminAlwaysFails: a non-admin caller who targets the admin gets "Only admin can perform this action", not "Cannot revoke admin". The admin-only check runs first, as an `onlyAdmin` modifier does.
- AccessControl.RevokeIssuer: the same holds here. For a non-admin caller the admin-only check decides the error before the target is looked at.
- CertificateLedger.IssueCertificate: a caller who is not an authorized issuer and sends an empty hash gets "Only authorized issuers can perform this action", not "IPFS hash cannot be empty". The issuer check runs first, as a modifier does.
- AddressFormat.FormatAddress: lengths and slice positions are counted in Unicode characters, while JavaScript counts UTF-16 code units. The two agree on every ASCII string, and so on every hex account address the wallet passes. They differ only for characters outside the Basic Multilingual Plane, which are not modelled.
- Re-authorizing an existing issuer succeeds and emits the event again. The tests do not exercise this case.
- The revert string for a missing certificate is not asserted by the tests. It is kept as the error kind `CertificateNotFound` with no message.
- Ids and the counter are unbounded naturals. The contract's `uint256` overflow cannot be reached in practice and is not modelled.
- Addresses are naturals compared for equality. Checksum casing and `web3.utils.isAddress` validation belong to the client and are not modelled.
- Block timestamps come in as the opaque `now` parameter. Event emission is modelled as a returned value. Gas, EVM atomicity, consensus and transaction ordering are left out; calls are applied one at a time.
- `formatAddress`'s input is a string or missing. Other falsy JavaScript values, such as `0`, `false` and `NaN`, are not modelled. The caller only passes account strings or `null`.
- The rest of `client/src/utils/web3.js` is left out: `initWeb3`, `getWeb3`, `getAccount`, `getContract`, `isMetaMaskInstalled`, `getNetworkId` and the account listeners. They are MetaMask/RPC I/O and global mutable state.
- The React components, the Express server with its routes and controllers, the IPFS client and the deployment script are left out. They are user interface, HTTP, network and filesystem I/O.
