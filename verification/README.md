# Boulder: authorizations, OCSP, nonces, indexes and CAA

A Dafny model of the parts of Boulder, an ACME certificate authority, in which several processes or
several representations have to agree:

- **Authorizations.** The Registration and Storage Authorities as a state machine in which requests,
  reads, stale answers, background validations, deactivation and batch revocation interleave freely
  (`AuthzStore`, `AuthzUpdate`, `AuthzLifecycle`), what holds over whole runs (`AuthzRuns`,
  `AuthzProgress`, `AuthzWithdrawal`), and the step-by-step code proved against it (`StorageAuthority`,
  `RegistrationAuthority`, `PolicyAuthority`, `ValidAuthorizations`).
- **OCSP.** Revocation against the updater (`Ocsp`), the backlog of revoked certificates
  (`OcspUpdater`), the semaphore around the workers (`OcspSemaphore`).
- **Nonces.** The bounded window against the set of everything ever accepted, and the sealed form
  (`Nonce`).
- **Indexes and normal forms.** base64url (`Base64Url`), byte order and the /48 range query
  (`BigEndian`, `IpRange`), names of a request and their hash (`CsrNames`), reversed names and LIKE
  (`ReversedNames`), the tables beside the certificates (`IssuedNames`).
- **CAA.** The parallel lookup against the climb of section 4 of RFC 6844 (`Caa`), the multipath quorum
  (`Quorum`, `QuorumAgreement`).
- **Expiration mail.** Nag windows and runs of the mailer (`ExpirationMailer`).

Transactions are atomic steps, except that a revocation, whose select does not lock the row and whose
update is guarded by an optimistic lock, is one step for each. A row that was read stays with its reader,
however stale, until the reader lets go of it. Times are integers. Clocks, random bytes, permutations, the
answers of other services and the outcome of queries and mails are parameters. SHA-256 is an injective
function, AES-GCM a pair of functions in which opening undoes sealing, `sort.Sort` any function that returns a
sorted permutation, DNS packing any self-delimiting function and its length estimate any function that ignores
the time to live.

`dafny verify dfyconfig.toml` checks the whole project.

## Where the code does not do what one would expect

The members named here say for all inputs when the expectation holds, or give an instance where it fails.

- A deactivated or revoked authorization that is still in the pending table can still become valid, namely
  while a challenge request, an answer, a validation or a successful verdict on it is held
  (`AuthzWithdrawal.WithdrawalHoldsUnlessUnderWay`, `AuthzWithdrawal.DeactivatedCanBecomeValid`): finalizing
  looks only for a pending row, and storing an answer writes back the status that was read. When nothing is held
  the deactivation is final (`AuthzWithdrawal.DeactivationAtRestHolds`). Terminal statuses are claimed for the
  final table only.
- A certificate that holds a revoked response can lose it again to a second revocation that selected its row
  before the response was stored and writes it back afterwards, because storing a response leaves the row's
  lock version alone (`Ocsp.ResponseLostIffOverwriteWaits`, `Ocsp.SecondRevocationUndoes`). With no such
  revocation open nothing is lost (`Ocsp.AnsweredStays`), and a certificate that has lost its response is in the
  backlog again (`OcspUpdater.RevokedIsAnsweredOrWaiting`).
- The resolver is documented as an M of N quorum, but a tolerated failure is compared, as an empty set, with
  an earlier non-empty answer: failures are tolerated in every order of arrival only when no answer holds a
  record (`QuorumAgreement.OrderOfArrivalMatters`, `QuorumAgreement.LateFailureIsRefused`). When all queries
  fail and that many failures are allowed, it succeeds with no records.
- Answers are sorted by value alone: the stable sort takes two answers with the same records for different
  ones in some order exactly when two different records share a value (`QuorumAgreement.RecognisedIffNoTies`,
  `QuorumAgreement.TieIsMissed`).
- The count of certificates under a domain is documented to fail above 10000; the variable it compares is
  never assigned, and the count is silently of at most 10001 rows, which is right whatever rows come back only
  when no certificate can be crowded out (`IssuedNames.CountsExactlyIff`). A domain with a character that means
  something to LIKE selects other names as well (`ReversedNames.SelectsExactlyIffWildcardFree`).
- The topmost /48 leaves out its last address, because the upper bound saturates and is exclusive
  (`IpRange.V6SelectsNet`, `IpRange.LastAddressIsMissed`).
- A refusal by CAA records is reported like a failed lookup, so the distributed resolver is asked after
  either (`Caa.CheckCAA`).

## Model

| member | source | states |
|---|---|---|
| AuthzLifecycle.StepKeeps | sa/sa.go:575-748 | Every step of the lifecycle, from whatever stale value it starts, keeps the invariant on both tables and on everything held by a caller, a validation or a batch |
| AuthzLifecycle.AnswerIsUndecided | ra/ra.go:956-1020 | An answer that passes the checks leaves an undecided authorization undecided |
| AuthzLifecycle.JudgedIsDecided | ra/ra.go:1031-1062 | One validation decides exactly the challenge it was started for; the authorization becomes valid if and only if there was no problem and the records are sane, and only then gets a new expiry, the configured lifetime from now |
| AuthzLifecycle.CreateKeeps | ra/ra.go:473-495 | Creating an authorization with a fresh ID and offered challenges keeps the invariant |
| AuthzLifecycle.StoreKeeps | sa/sa.go:627-668 | Storing a stale answer keeps the invariant |
| AuthzLifecycle.FinalizeKeeps | sa/sa.go:671-712 | Finalizing any verdict in flight keeps the invariant |
| AuthzLifecycle.DeactivateKeeps | sa/sa.go:997-1020 | Deactivating keeps the invariant |
| AuthzLifecycle.RevokeKeeps | sa/authz.go:47-73 | Revoking a batch selected at any earlier moment keeps the invariant |
| AuthzRuns.ReachableIsSafe | sa/sa.go:575-748 | In every reachable state no ID is in both tables, no final row has a pending-class status, all challenges of a pending row are pending, and exactly one challenge of a final row is decided, with sane records unless the row is invalid |
| AuthzRuns.NeverValidAgain | sa/sa.go:671-748 | Between any two moments of any run a final row stays, keeps its evidence and expiry, and does not become valid again once it is not |
| AuthzRuns.SweptStaysRevoked | sa/sa.go:716-748 | Under any interference, from the moment at which revocation by domain finds no final row left, the rows for the name that were there are never valid again |
| AuthzRuns.FinalizedAtMostOnce | sa/sa.go:671-712 | In every run an authorization enters the final table at most once, however many validations are in flight |
| AuthzRuns.FirstVerdictWins | sa/sa.go:671-712 | In every reachable state a verdict is accepted if and only if its authorization is still pending |
| AuthzRuns.FailedIsInvalid | ra/ra.go:1144-1183 | A created authorization is invalid exactly when one of its challenges failed, and then it expires as it was created to |
| AuthzRuns.LimitCountsFailures | ra/ra.go:365-401 | In every reachable state the rows counted by expiry and status are as many as the authorizations of that account and name created in the window and failed |
| AuthzWithdrawal.WithdrawalHoldsUnlessUnderWay | sa/sa.go:627-712 | A withdrawn authorization in the pending table can become valid if and only if a challenge request holds an unexpired copy with a pending challenge, or an answer, a validation or a successful verdict on it is held, at this moment |
| AuthzWithdrawal.DeactivationAtRestHolds | sa/sa.go:997-1020 | Deactivating a pending authorization on which nothing is held is final in every run |
| AuthzWithdrawal.LettingGoEndsIt | sa/sa.go:627-712 | Once everyone has let go of what they held, a withdrawn authorization never becomes valid |
| AuthzProgress.UndisturbedValidation | ra/ra.go:956-1062 | In every reachable state a right answer to a challenge of a pending, unexpired authorization, with nothing in between, moves it to the final table for the same account and name: valid for the configured time from now if the validation succeeds, otherwise invalid with the expiry it had; no other row changes |
| AuthzProgress.JudgedChanges | ra/ra.go:1144-1183 | A verdict keeps everything but the one challenge, the status and, when valid, the expiry |
| AuthzProgress.EntitledWasValidated | sa/sa.go:216-260 | In every reachable state an account is entitled to a name only by an authorization it asked for, for that name, one of whose challenges is valid with sane records |
| AuthzProgress.ValidationEntitles | sa/sa.go:216-260 | A successful validation entitles the account to the name until the configured lifetime has passed |
| AuthzWithdrawal.AnswerableIff | ra/ra.go:956-1020 | Some answer to a copy that is not valid is accepted if and only if it is unexpired and has a pending challenge with a token |
| AuthzWithdrawal.DeactivatedCanBecomeValid | sa/sa.go:627-712 | A reachable state in which an authorization deactivated during a challenge request can still become valid |
| AuthzWithdrawal.StoreSucceeds | sa/sa.go:627-668 | Storing an answer puts back the status that was read |
| AuthzStore.FreshIsFresh | sa/sa.go:582-586 | The ID drawn for a new authorization is the first candidate in neither table, if there is one |
| AuthzStore.NewIsRead | sa/sa.go:575-624 | What a creation stores is what is read, and no other authorization is touched |
| AuthzStore.UpdateIsRead | sa/sa.go:627-668 | An update is accepted if and only if it leaves a pending authorization unknown, pending or processing, with as many challenges, and is then read back; no other authorization is touched |
| AuthzStore.FinalizeIsRead | sa/sa.go:671-712 | A finalization is accepted if and only if it decides a pending authorization, with as many challenges; its row moves to the final table, and no other authorization is touched |
| AuthzStore.DeactivateChanges | sa/sa.go:997-1020 | Row by row: only a pending row of the pending table or a valid row of the final table changes, and only its status |
| AuthzStore.CountPendingRow | sa/sa.go:841-853 | A row adds one to the count if and only if it is of the account, pending and unexpired |
| StorageAuthority.OverwriteReplaces | sa/sa.go:87-112 | Overwriting the challenge rows of one authorization in order replaces its challenges, keeps their IDs, and touches no other authorization |
| StorageAuthority.SQLStorageAuthority.NewPendingAuthorization | sa/sa.go:575-624 | The first token in neither table becomes the ID, and the new view is that of the creating transaction |
| StorageAuthority.SQLStorageAuthority.InsertChallenges | sa/sa.go:596-618 | The challenges are stored in order under the next row numbers; those of other authorizations stay |
| StorageAuthority.SQLStorageAuthority.UpdateChallenges | sa/sa.go:87-112 | Succeeds if and only if the number of challenges is the stored one; then replaces exactly those |
| StorageAuthority.SQLStorageAuthority.UpdatePendingAuthorization | sa/sa.go:627-668 | Equals the updating transaction, and a rollback leaves the tables as they were |
| StorageAuthority.SQLStorageAuthority.FinalizeAuthorization | sa/sa.go:671-712 | Equals the finalizing transaction, and a rollback leaves the tables as they were |
| StorageAuthority.SQLStorageAuthority.DeactivateAuthorization | sa/sa.go:997-1020 | A pending row of status pending, or else a final row of status valid, becomes deactivated; nothing else changes |
| StorageAuthority.SQLStorageAuthority.ReadAuthorization | sa/sa.go:161-213 | The row from whichever table has it, with its challenges in order |
| StorageAuthority.SQLStorageAuthority.RevokeAuthorizationsByDomain | sa/sa.go:716-748 | Without interference terminates; row by row and in both tables, exactly the unexpired rows of the name that are neither invalid nor revoked become revoked and nothing else changes; returns the numbers of rows changed |
| StorageAuthority.GetAuthorizationIDsByDomain | sa/authz.go:20-45 | Only IDs of unexpired rows of the name that are neither invalid nor revoked, and all of them when fewer than 1000 come back |
| StorageAuthority.RevokeAuthorizations | sa/authz.go:47-73 | Marks exactly the rows of the batch and counts those it changed |
| StorageAuthority.RevokeTable | sa/sa.go:722-745 | Batches until nothing matches amount to revoking exactly the unexpired rows of the name that are neither invalid nor revoked, and the total is their number |
| StorageAuthority.RevokeAllLeavesNone | sa/sa.go:716-748 | Row by row and in both tables, exactly the unexpired rows of the name that are neither invalid nor revoked become revoked, and no such row is left |
| PolicyAuthority.ChallengesFor | policy/pa.go:278-313 | For every permutation: one challenge of each enabled kind, all sane to offer, and exactly the singleton combinations |
| PolicyAuthority.EnabledChallenges | policy/pa.go:279-295 | The kinds offered are exactly the enabled ones, each once, with fresh sane challenges |
| AuthzUpdate.AnswerAcceptedIff | ra/ra.go:956-1020 | For all inputs, an answer goes through if and only if the authorization has not expired and is not a valid one to be reused, the challenge is pending with a token, and the answer is that token, a dot and the thumbprint of the key; what is stored then differs in that key authorization alone |
| AuthzUpdate.ExpectedIsKeyAuthorization | core/objects.go:187-252 | The expected key authorization always has the required form |
| Acme.KeyAuthorizationIff | core/objects.go:187-199 | Key authorizations are exactly the pairs of tokens joined by a dot |
| Acme.SaneStages | core/objects.go:311-334 | A challenge is sane to offer if and only if it is pending with a token and no key authorization, and adding its token, a dot and a thumbprint makes it sane to validate |
| Acme.CheckRecords | core/objects.go:252-293 | The loop over the records decides whether they are sane |
| RegistrationAuthority.NewIsStep | ra/ra.go:473-508 | What creating an authorization does to the database is the creating step of the lifecycle |
| RegistrationAuthority.UpdateIsSteps | ra/ra.go:956-1027 | What updating an authorization does to the database is checking and then storing an answer |
| RegistrationAuthority.RecordIsSteps | ra/ra.go:1031-1062 | What the background goroutine does to the database is judging and then finalizing |
| RegistrationAuthority.RevokeIsSteps | sa/sa.go:716-748 | What revocation by domain does to the database is selecting and revoking a batch of each table |
| RegistrationAuthority.RegistrationAuthorityImpl.AlwaysSafe | sa/sa.go:575-748 | Whatever methods have been called, no ID is in both tables, no final row has a pending-class status, and pending and final rows have the evidence they should |
| RegistrationAuthority.RegistrationAuthorityImpl.CheckLimits | ra/ra.go:345-401 | Passes if and only if the account has fewer unexpired pending authorizations than allowed and fewer failures among those it created for the name within the window |
| RegistrationAuthority.RegistrationAuthorityImpl.NewAuthorization | ra/ra.go:405-508 | If the policy is willing and the limits are kept, returns a valid authorization of the account for the lowercased name that lasts beyond a day, writing nothing, if and only if reuse is on and there is one; otherwise creates a pending one; keeps the database reachable |
| RegistrationAuthority.RegistrationAuthorityImpl.FindReusable | ra/ra.go:439-470 | Finds an authorization to reuse if and only if some valid one of the account for the name lasts beyond a day |
| RegistrationAuthority.RegistrationAuthorityImpl.CreateAuthorization | ra/ra.go:473-508 | Fails only when no fresh ID is found; otherwise returns what is now in the database, and its challenges pass the sanity check that follows |
| RegistrationAuthority.RegistrationAuthorityImpl.ReadToAnswer | sa/sa.go:161-213 | The authorization in the database, now also held by the challenge request |
| RegistrationAuthority.RegistrationAuthorityImpl.DeactivateAuthorization | ra/ra.go:1198-1207 | Refuses what the caller has not read as valid or pending; otherwise deactivates what the tables hold, and keeps the database reachable |
| RegistrationAuthority.RegistrationAuthorityImpl.UpdateAuthorization | ra/ra.go:956-1027 | Dispatches to validation exactly the answers that pass the checks and are stored, and keeps the database reachable |
| RegistrationAuthority.RegistrationAuthorityImpl.StoreAnswer | ra/ra.go:956-1027 | Writes the key authorization into the caller's slice whenever it is the expected one, also when the answer is then not sane or not stored |
| RegistrationAuthority.RegistrationAuthorityImpl.Decide | ra/ra.go:1147-1173 | The nested loops compute whether some combination is fulfilled, and the status and expiry that follow |
| RegistrationAuthority.RegistrationAuthorityImpl.OnValidationUpdate | ra/ra.go:1144-1183 | The verdict is finalized in one transaction or nothing changes |
| RegistrationAuthority.RegistrationAuthorityImpl.RecordValidation | ra/ra.go:1031-1062 | The verdict on the one challenge is finalized if and only if the authorization is still pending, and the database stays reachable |
| RegistrationAuthority.RegistrationAuthorityImpl.JudgeAndFinalize | ra/ra.go:1031-1062 | Records and problem become the status of the one challenge, in the slice shared with the caller too |
| ValidAuthorizations.GetValidAuthorizations | sa/sa.go:216-260 | A requested name has an entry if and only if the account holds a valid unexpired authorization for it, and the entry is one of latest expiry |
| ValidAuthorizations.IndexByName | sa/sa.go:243-259 | The loop keeps, for each name, a row that no other outlasts |
| ValidAuthorizations.CheckAuthorizations | ra/ra.go:583-611 | Succeeds if and only if every lowercased name has a valid unexpired authorization of the account |
| ValidAuthorizations.EntitledIff | sa/sa.go:216-241 | Entitled to a name means a row of the account for that name that is valid and expires after now |
| Ocsp.StepKeeps | cmd/ocsp-updater/main.go:314-388 | Every step of updater and revocation keeps stored responses about their own certificate, not from the future, and good only if signed no later than the revocation |
| Ocsp.RevokedForever | sa/sa.go:480-526 | In every run a revoked certificate stays revoked |
| Ocsp.RevocationRevokesIff | sa/sa.go:497-526 | In every reachable state a revocation about to write revokes its certificate, with the time it noted and the rest of the row as it read it, if and only if the row still has the lock version it read, and changes nothing otherwise; at one lock version status and date are as read |
| Ocsp.UndisturbedRevocation | sa/sa.go:480-526 | A revocation that nothing comes between ends in status revoked, dated now, whatever the row was |
| Ocsp.UndisturbedAnswer | cmd/ocsp-updater/main.go:314-388 | A worker that nothing comes between leaves a response that says the status of the row, signed now |
| Ocsp.WhoWrites | sa/sa.go:480-526 | In one step a row changes only by a response stored for its status, a revocation of it, or being marked as expired |
| Ocsp.IssuedIsGood | sa/sa.go:752-820 | A certificate is issued once, good, with a good response if one was signed early |
| Ocsp.FreshResponseSaysRevoked | cmd/ocsp-updater/main.go:314-388 | In every reachable state a revoked row updated after its revocation date holds a revoked response |
| Ocsp.StoredMatchesStatus | cmd/ocsp-updater/main.go:372-388 | However stale the worker, a response that is stored says the status the row has at that moment |
| Ocsp.ResponseLostIffOverwriteWaits | sa/sa.go:497-526 | A stored revoked response can be lost if and only if an open revocation has selected the row at the same lock version without it |
| Ocsp.AnsweredStays | sa/sa.go:497-526 | With no other revocation of the certificate open, a stored revoked response is never lost, whatever the updater and later revocations do |
| Ocsp.LettingGoSettles | sa/sa.go:497-526 | Once every open revocation has ended, a stored revoked response is never lost |
| Ocsp.SecondRevocationUndoes | sa/sa.go:480-526 | A reachable state, after a second revocation selected the row and the updater then answered the first, in which the stored revoked response can be lost |
| OcspUpdater.FindRevokedCertificatesToUpdate | cmd/ocsp-updater/main.go:416-425 | Distinct rows of the backlog, as many as the batch allows |
| OcspUpdater.Updater.RevokedCertificatesTick | cmd/ocsp-updater/main.go:427-450 | Answers rows of the backlog and no others; without failures exactly the smaller of batch and backlog, which after the revocations is an error-free tick |
| OcspUpdater.Updater.RevokedCertificatesTicks | cmd/ocsp-updater/main.go:416-450 | That many error-free ticks in a row clear the backlog if and only if they are at least its size / batch size, rounded up |
| OcspUpdater.AnsweredLeaves | cmd/ocsp-updater/main.go:416-450 | Rows answered strictly after their revocation leave the backlog |
| OcspUpdater.TicksClearBacklog | cmd/ocsp-updater/main.go:416-450 | Over tables related by error-free ticks, a backlog of n is empty after k of them if and only if k is at least n / batch size, rounded up |
| OcspUpdater.RevokedIsAnsweredOrWaiting | cmd/ocsp-updater/main.go:416-425 | In every reachable state a revoked certificate holds a revoked response or is in the backlog, also after a response was lost |
| OcspSemaphore.BoundedAndComplete | cmd/ocsp-updater/main.go:452-495 | Under every schedule at most the capacity of workers is outstanding, and on return every status has had a worker and all have finished |
| OcspSemaphore.NeverStuckIff | cmd/ocsp-updater/main.go:452-495 | Under every schedule something can move until it returns, if and only if the channel has capacity or there is no status |
| OcspSemaphore.EveryScheduleEnds | cmd/ocsp-updater/main.go:452-495 | No schedule goes on for ever |
| Nonce.RedeemRefines | nonce/nonce.go:136-169 | The window step keeps holding exactly the accepted counters above the bound |
| Nonce.WindowIsExact | nonce/nonce.go:111-169 | In every run no counter is accepted twice and the memory holds the largest accepted counters, as many as fit |
| Nonce.RefusedIffForgotten | nonce/nonce.go:136-169 | An issued unused nonce is refused if and only if more than the maximum of higher ones were accepted |
| Nonce.NeverAcceptedAgain | nonce/nonce.go:136-169 | What is accepted was issued, and is refused at every later moment |
| Nonce.LatestCountsIssued | nonce/nonce.go:111-119 | In every run the latest counter is the number of nonces issued |
| Nonce.IssuedIsNew | nonce/nonce.go:111-119 | In every run a counter that is issued is larger than every one issued or accepted before |
| Nonce.IssuedIsRedeemable | nonce/nonce.go:111-169 | In every run a counter that is issued may be redeemed at once, and then not again |
| Nonce.DecryptEncrypt | nonce/nonce.go:61-108 | A counter comes back from its sealed form if and only if it is not negative or is the least int64; any other loses its sign |
| Nonce.NonceService.constructor | nonce/nonce.go:35-59 | A new service is the empty window |
| Nonce.NonceService.Nonce | nonce/nonce.go:111-119 | Issues the next counter, sealed: without wrap-around the nonce opens to one more than the last counter and may be redeemed now; after the largest int64 comes the least, and then nothing is accepted |
| Nonce.NonceService.MinUsed | nonce/nonce.go:122-133 | The scan finds the least of the used counters and the latest one |
| Nonce.NonceService.Redeemed | nonce/nonce.go:136-169 | Accepts exactly what the window accepts and leaves the window that results, also after a wrap-around |
| Nonce.NonceService.IssueAndRedeem | nonce/nonce_test.go:11-27 | A nonce just issued is accepted, and refused the second time |
| Base64Url.RawRoundTrip | core/util.go:105-113 | Unpadded encoding is undone by decoding, for all byte strings |
| Base64Url.UrlEncodeIsRaw | core/objects.go:390-394 | Encoding with padding and trimming it gives the unpadded encoding |
| Names.TrimmedRight | core/objects.go:390-394 | What is trimmed on the right is the last run of the character, whole |
| Base64Url.UrlRoundTrip | core/objects.go:390-400 | Decoding with restored padding undoes encoding, for all byte strings |
| Base64Url.NewTokenLooksLikeAToken | core/util.go:115-127 | Every token that can be drawn looks like one, and different draws give different tokens |
| Base64Url.Alphabet | core/util.go:105-113 | The symbols are those of the URL-safe alphabet, in its order, and they are exactly the characters of tokens |
| Base64Url.TestVectors | core/util.go:105-113 | Test vectors of RFC 4648 |
| BigEndian.LessIsNumeric | sa/sa.go:317-321 | Byte order on strings of one length is numeric order |
| BigEndian.MinimalLength | sa/sa.go:276-278 | A number needs more than n bytes exactly when it is at least 256^n |
| IpRange.SaturatedValue | sa/sa.go:268-284 | The incremented address is the sum, or the largest address when that does not fit |
| IpRange.V4SelectsItself | sa/sa.go:290-334 | For an IPv4 address, in either form, the query selects that address alone |
| IpRange.V4Mapped | sa/sa.go:290-334 | IPv4 addresses are those with ten bytes of zero and two of 255 before them |
| IpRange.V6SelectsNet | sa/sa.go:290-334 | For an IPv6 address it selects exactly its /48, except the all-ones address |
| IpRange.LastAddressIsMissed | sa/sa.go:276-278 | The all-ones address is not in the range made from itself |
| CsrNames.UniqueLowerNames | core/util.go:253-265 | For every order of map iteration, the strictly sorted list of the lowercased names |
| CsrNames.UniqueLowerDepends | core/util.go:250-265 | Two lists give the same result if and only if their lowercase sets agree |
| Names.LowerLetters | core/util.go:253-265 | Lowering adds 32 to the codes 65 to 90 and changes nothing else |
| Names.LessIff | core/util.go:253-265 | The order of the names is decided at the first difference, and a proper prefix comes first |
| CsrNames.CertificateRequest.NormalizeCSR | csr/csr.go:94-104 | Leaves the request in its normal form |
| CsrNames.CertificateRequest.HostNames | ra/ra.go:521-526 | The names expected of the certificate |
| CsrNames.CertificateRequest.NamesMatch | ra/ra.go:537-544 | Accepts a certificate's names if and only if they are not nil and are those names, each once, in any order |
| CsrNames.CertificateRequest.MatchesCSR | ra/ra.go:519-544 | Accepts the names and the common name of a certificate exactly when both are as expected, the common name only where hoisting is off and one was asked for |
| CsrNames.AcceptsIff | ra/ra.go:519-544 | Name by name: every name of the request is in the certificate, lowered and once, no other name is, and the common name is the lowered one where it is compared |
| CsrNames.NamesAreNormal | csr/csr.go:94-104 | The names of the normal form are the sorted distinct lowercase names and common name, however often and with whatever flags the request is normalised |
| CsrNames.NormalizeIdempotent | csr/csr.go:94-104 | Normalising twice is normalising once |
| CsrNames.HoistedIsFirst | csr/csr.go:94-104 | Without a common name the first alternative name is hoisted, where that is asked for; a common name stays; either is among the names |
| CsrNames.RaAcceptsCaNames | ra/ra.go:519-544 | RA and CA, each normalising the request as sent with its own flag, derive the same names, and the RA accepts names and common name of the CA's certificate if and only if the request has a name |
| CsrNames.HashesAgreeIffAlike | sa/sa.go:922-926 | Any two lists hash alike if and only if, sorted in lower case and cut at commas, they have the same pieces |
| CsrNames.HashesAgree | sa/sa.go:922-926 | Comma-free lists hash alike if and only if their lowercase sets agree, the empty name alone counting as no name |
| CsrNames.CommasCollide | sa/sa.go:922-926 | With a comma two different sets hash alike |
| ReversedNames.ReverseInPlace | sa/sa.go:365-367 | The swapping loop reverses the labels |
| ReversedNames.ReversedName | sa/sa.go:363-369 | The labels in reverse order, joined |
| ReversedNames.ReverseNameInvolutive | sa/sa.go:363-369 | Reversing twice gives the name back |
| ReversedNames.UnderIsReversedPrefix | sa/sa.go:363-394 | A name is the domain or ends in a dot and the domain if and only if its reversal is, or begins with, that of the domain at a dot |
| ReversedNames.WildcardSelectsMore | sa/sa.go:385-394 | A domain with a wildcard selects a name that is not under it |
| ReversedNames.SelectsExactlyIffWildcardFree | sa/sa.go:385-394 | The query selects exactly the names under the domain if and only if the domain has no LIKE character |
| IssuedNames.IssuedNameValues | sa/sa.go:941-954 | One row for every name |
| IssuedNames.IssuanceTables.AddCertificate | sa/sa.go:752-820 | Adds to all tables or to none, fails exactly on a repeated serial or without names, and keeps the indexes exact |
| IssuedNames.IssuanceTables.CountCertificatesByName | sa/sa.go:377-409 | Whatever rows the limit lets through: for a wildcard-free domain the number of certificates in the window with a name under it when none can be crowded out, in particular when at most 10001 rows match; never more; and with at most m names to a certificate never less than the rows let through divided by m |
| IssuedNames.CountsExactlyIff | sa/sa.go:377-409 | For a wildcard-free domain the count is right whatever rows come back if and only if for each certificate under it fewer than 10001 selected rows belong to others |
| IssuedNames.RunKeeps | sa/sa.go:752-820 | After any calls the indexes hold exactly the names and name sets of the certificates |
| IssuedNames.StoredWereCalled | sa/sa.go:752-820 | What is stored was added, and every certificate with names has its serial stored |
| IssuedNames.SelectionAgrees | sa/sa.go:377-409 | The serials selected on the index are those of a scan of the certificates |
| IssuedNames.WindowsAddUp | sa/sa.go:377-409 | Adjacent windows count every certificate with a name equal to the domain or ending in a dot and the domain exactly once |
| IssuedNames.SetCountIsScan | sa/sa.go:956-970 | The count by hash is the count of certificates whose names have the same comma-separated pieces |
| IssuedNames.SameNamesCounted | sa/sa.go:956-970 | The certificates counted are those issued later whose lowercase names are the same set |
| IssuedNames.AlikeCountsSameNames | sa/sa.go:956-970 | For names without commas that is the count of certificates for the same names |
| IssuedNames.IndexesAgree | sa/sa.go:752-820 | After any calls both counts on the indexes equal counts of certificates |
| Caa.FirstAnswerIsClimb | va/va.go:765-807 | The first answer among all parents is the answer of the climb from the name upwards |
| Caa.ClimbEnds | va/va.go:765-807 | The answer is that of the nearest name, from the name itself upwards, for which the query fails or finds records, or else of the last label |
| Caa.ParallelCAALookup | va/va.go:778-794 | For every order of completion, each slot holds the answer for its suffix |
| Caa.ParseResults | va/va.go:765-776 | The first error or non-empty answer |
| Caa.NewCAASet | va/va.go:741-758 | The records by tag, in order, unknown tags apart |
| Caa.CriticalUnknown | va/va.go:722-738 | Whether an unknown record carries the critical flag or its alias |
| Caa.ExtractedIsIssuer | va/va.go:872-884 | Trimming before cutting changes nothing: the issuer is what stands before the first semicolon, trimmed |
| Caa.IssuerIs | va/va.go:872-884 | The issuer is the text before the first semicolon without the spaces and tabs around it |
| Caa.ValidateCAASet | va/va.go:821-867 | Valid if and only if there are no records, or no unknown critical one and either no issue record or one that names the CA |
| Caa.PermitsIff | va/va.go:821-867 | The decision on flags, tags and values: every record with the highest or lowest flag bit has a known tag, and either no record has the tag issue or one does that names the CA |
| Caa.CriticalBits | va/va.go:722-738 | Critical means that the highest or the lowest bit of the flags is set |
| Caa.CheckCAA | va/va.go:578-623 | Passes if and only if the local climb, or when there is one the distributed climb, ends without error in records that permit issuance |
| Quorum.MarshalCanonicalCAASet | cdr/resolver.go:165-184 | Returns the buffer of the estimated size with the wire forms of the sorted records and zeros after them, and leaves the slice sorted with its times to live restored; fails exactly when a record cannot be packed or does not fit, and then that record keeps a zero time to live |
| Quorum.PackedOne | cdr/resolver.go:165-184 | One record is packed as its wire form with time to live zero, in a buffer of its estimated length |
| Quorum.PackedAppend | cdr/resolver.go:165-184 | Several records are packed one after the other, in a buffer of the sum of their lengths |
| Quorum.CollectReplies | cdr/resolver.go:214-243 | The loop and its early returns compute the fold of one reply after the other |
| Quorum.FailuresCounted | cdr/resolver.go:214-243 | The failures counted are the positions of failed replies |
| Quorum.CollectedIffAccepted | cdr/resolver.go:214-247 | The fold gets through if and only if the replies are acceptable as a whole, and ends with the first answer |
| Quorum.LookupCAA | cdr/resolver.go:187-247 | For every order of arrival succeeds if and only if no more than the allowed queries failed, all answers pack and are the same set, and no failure follows a non-empty first answer; returns that set, sorted |
| QuorumAgreement.OrderOfArrivalMatters | cdr/resolver.go:215-247 | Replies are accepted in every order if and only if they form a quorum and either none failed or no answer holds a record |
| QuorumAgreement.LateFailureIsRefused | cdr/resolver.go:220-243 | With one failure allowed, a failure before the only non-empty answer is tolerated and one after it is not |
| QuorumAgreement.QuorateInAnyOrder | cdr/resolver.go:94-96 | Being a quorum does not depend on the order |
| QuorumAgreement.SameSetIsSound | cdr/resolver.go:165-247 | Answers taken to be the same have equal multisets of owner and property, times to live aside |
| QuorumAgreement.CanonicalIgnoresTtl | cdr/resolver.go:165-184 | Answers that sort to the same owners and properties, position by position, have the same canonical form whatever their times to live |
| QuorumAgreement.RecognisedIffNoTies | cdr/resolver.go:159-184 | Every answer with the same owners and properties, whatever its order and times to live, is taken to be the same by the stable sort, and by all sorts, if and only if records with the same value have the same owner and property |
| QuorumAgreement.TieIsMissed | cdr/resolver.go:159-184 | Exchanging two different records with one value makes an answer that the stable sort takes for another set |
| ExpirationMailer.WindowsDisjoint | cmd/expiration-mailer/main.go:250-261 | No expiry is in two windows |
| ExpirationMailer.WindowsCover | cmd/expiration-mailer/main.go:250-261 | The windows cover exactly the interval up to the last nag time |
| ExpirationMailer.StepKeeps | cmd/expiration-mailer/main.go:145-150 | Mailing, noting, issuing and revoking keep every stored nag recorded and later mails in narrower windows |
| ExpirationMailer.MailedOncePerWindow | cmd/expiration-mailer/main.go:250-343 | In every run a certificate whose nags are stored is mailed about at most once per window, in ever narrower ones, and at most as often as there are nag times |
| ExpirationMailer.BoundIsReachedIff | cmd/expiration-mailer/main.go:250-343 | Some run mails about a certificate not yet nagged once for every nag time if and only if the nag times are positive and all different |
| ExpirationMailer.UnstoredNagRepeats | cmd/expiration-mailer/main.go:237-245 | A nag that is not stored is sent again in the same window |
| ExpirationMailer.NaggedIsNotDue | cmd/expiration-mailer/main.go:145-150 | Once the time of a nag is stored the certificate is not due again in its window or a wider one, whenever a later run begins |
| ExpirationMailer.DueAgainIff | cmd/expiration-mailer/main.go:268-285 | A certificate nagged before is due in a window if and only if the window holds its expiry now and had not been reached when it was nagged |
| ExpirationMailer.DueFirstIff | cmd/expiration-mailer/main.go:268-285 | A certificate never nagged is due if and only if the window holds its expiry |
| ExpirationMailer.NarrowerIsDueAgain | cmd/expiration-mailer/main.go:250-285 | A certificate mailed about in one window is due again in every narrower one as soon as a run begins in it |
| ExpirationMailer.StoredNag | cmd/expiration-mailer/main.go:145-150 | A stored nag sets the time of the last nag of its certificate and changes nothing else |
| ExpirationMailer.MailedAboutIff | cmd/expiration-mailer/main.go:169-285 | Below the limit, a certificate is mailed about in a window if and only if it is not revoked, expires in it, was not nagged that close to expiry, parses, is not renewed, and its account can be mailed to |
| ExpirationMailer.Mailer.ParseCerts | cmd/expiration-mailer/main.go:197-221 | Keeps exactly the certificates that parse and are not renewed; those renewed are noted |
| ExpirationMailer.Mailer.RecordNags | cmd/expiration-mailer/main.go:232-245 | Every certificate of a mail is logged and its nag recorded where the update works |
| ExpirationMailer.Mailer.GroupByAccount | cmd/expiration-mailer/main.go:172-178 | Every certificate once, with its account |
| ExpirationMailer.Mailer.ProcessCerts | cmd/expiration-mailer/main.go:169-248 | For every order of accounts, mails exactly about the certificates that can be mailed about, by steps of the model |
| ExpirationMailer.Mailer.SelectSerials | cmd/expiration-mailer/main.go:268-285 | Rows that are not revoked, expire in the window and were not nagged that close to expiry: all of them below the limit, otherwise as many as it allows, none of them later to expire than one left out |
| ExpirationMailer.Mailer.FindExpiringCertificates | cmd/expiration-mailer/main.go:250-343 | A run makes only steps of the model and so keeps the invariant; it mails about exactly the certificates that were in the batch of some window when it began and for which nothing failed; it ends early exactly when a query fails |

## Left out

- Nonce.WindowIsExact: is for runs in which the counter does not wrap around; Nonce and Redeemed say what they do in any state.
- IssuedNames.IssuanceTables.CountCertificatesByName: where certificates can be crowded out only bounds are stated, because which rows come back is open.
- Ocsp.StoredMatchesStatus: speaks of the status in a response; the reason for revocation is not modelled, since the query for stale responses does not read it.
- StorageAuthority.SQLStorageAuthority.RevokeAuthorizationsByDomain: is for a run without interference; interleaved batches are covered by AuthzLifecycle.RevokeKeeps and AuthzRuns.SweptStaysRevoked, and with interference the loop need not end.
- RegistrationAuthority.RegistrationAuthorityImpl.NewAuthorization: the hostname policy and the safe-domain service are one parameter, and the clock is read once.
- ExpirationMailer.MailedOncePerWindow: a mail counts as sent when the mail server has taken it; a partial delivery that ends in an error counts as not sent.
- Strings are lowercased in ASCII only, and LIKE and equality compare exactly; database collations are not modelled.
- Database details: isolation levels, rounding of times, deadlocks, retries, and the mapping library's lock column except on certificate status.
- HTTP, TLS, DNS and SMTP transport, challenge validation itself, cryptography, X.509, JOSE and gRPC.
- Certificate issuance, registrations, other rate limits, SCT receipts, the akamai purge and the purger of expired authorizations: they would add easy members only.
- The hostname policy (`WillingToIssue`) and the remaining checks of `VerifyCSR` and `MatchesCSR`.
