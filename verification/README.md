# Sovereign Windows Auth: a verified model

Sovereign Windows Auth signs a user in to Windows with the touch of a hardware key. An enrolled
key releases a secret, the secret opens a sealed copy of the user's PIN or password, and a
credential provider hands that to LogonUI. A companion filter can hide the ordinary sign-in
options, and a recovery tool on a paired USB drive takes that filter away again.

This project models the parts of the program whose correctness is decided by its own code, and
proves them for every input, every interleaving and every pattern of failing calls:

- **The sign-in credential** (`Credential`, `CredentialRuns`, `Provider`, `ProviderRuns`). The
  mutex-protected sections are the steps of a labelled transition system; callbacks, detached
  workers, any number of concurrent serialization calls, the clock and COM reference counting
  interleave freely; `begin` is two steps, because references change while it holds the mutex. The same section functions specify the methods of the `Credential` class.
- **The profile format** (`Wide`, `Wire`, `Profile`, `ProfileCodec`). The encoder and decoder as
  they run (buffer, cursor, loops) are proved equal to functions, and those to be inverse to
  each other.
- **Enrollment and unlocking** (`Enrollment`, `Touch`), from the key files and the touch of a key
  to the plaintext that the sign-in worker accepts.
- **Recovery** (`RecoveryUsb`, `Recovery`, `RecoveryScreen`): the offline transaction, pairing, and
  the screen that drives it. `Recovery` replays the events of a run through an automaton that
  rejects every history out of order.
- **The filter and its server** (`FilterPolicy`, `ServerLock`).

What the program gets from outside is a parameter, a label or a nondeterministic choice: the
clock, the devices and their answers, Windows' verdict on a SID (`valid`), AES-GCM (`Aead`), the
hardware secret (`hmac`), SHA-256 (`sha`), random bytes, and the failure of any call. The two
assumptions about cryptography are stated where they are used: a box opens under at most one
associated data (`OpensUnderOneBinding`), and the secret of a key depends only on the key
(`hmac`). That sealing can be undone is not assumed, because enrollment checks it.

Main theorems: `CredentialRuns.ReleaseProvenance`, `ReleasedAtMostOnce`, `CompletionDecides`,
`RefreshIsUnobservable`, `ReferencesConserved`; `ProviderRuns.TeardownIsFinal`;
`Profile.RoundTrip`, `PrefixFree`, `EncodeAccepts`, `RecordsAreCanonical`; `Enrollment.Enroll`,
`EnrolledKeySignsIn`, `OnlyEnrolledTextIsReleased`, `WrapIsBoundToItsRecord`;
`Touch.TouchAnyKey`; `Recovery.Machine.Recover`, `DeletionHistory`, `Machine.PairUsb`;
`RecoveryScreen.RestorationWasChecked`, `BusyExactly`; `ServerLock.LocksConserved`;
`FilterPolicy.DesktopRefinesLab`.

Three expected properties are false of the code as it stands. Each is kept, with a concrete
counterexample and the exact condition under which it holds:

- The lock count of the server can go below zero: a 32-bit counter overflows after 2^31 locks
  (`ServerLock.CounterOverflows`); it equals locks minus unlocks exactly while that fits
  (`ServerLock.LocksConserved`).
- An unlock can report an error without having observed zero: with 2^31 locks held it observes a
  negative count (`ServerLock.UnlockFailsWhileHeld`). It observed zero exactly if the locks held at
  that moment, modulo 2^32, were below 2^31 (`ServerLock.ErrorsWereObserved`).
- The desktop policy does not always restrict at least as much as the lab policy. It leaves open
  what an armed lab policy with Sovereign available closes if the array has more than 256 entries
  (`FilterPolicy.OversizeArrayIsLeftOpen`), and in every mode but the one that requires the key
  (`FilterPolicy.ObservingLeavesOpen`). `FilterPolicy.DesktopRefinesLab` says, for every mode and
  every array, exactly when it allows no more and exactly when the two agree.

The project verifies with `dafny verify dfyconfig.toml`.

## Model

| member | source | states |
|---|---|---|
| `Credential.Checked` | src/provider.cpp:116-127 | only a password of 4 to 8192 bytes, of even size, whose one terminator ends it can become a proof |
| `Credential.ElapsedIsUnsigned` | src/provider.cpp:166 | the age of a proof is the difference of the two readings modulo 2^64 |
| `Credential.Credential.AddRef` | src/provider.cpp:177 | one reference more, nothing else changes |
| `Credential.Credential.Release` | src/provider.cpp:178 | one reference less, nothing else changes |
| `Credential.Credential.SetProviderEvents` | src/provider.cpp:160-163 | records whether LogonUI can be notified, nothing else changes |
| `Credential.Credential.Begin` | src/provider.cpp:85-154 | which of the six exits is taken, exactly, and what each leaves: busy changes nothing; every other exit drops the ready proof; only an attempt takes a new generation; only a started one sets the working flag and keeps a reference |
| `Credential.Credential.Finish` | src/provider.cpp:129-143 | clears the working flag; stores the proof and the time only for the current generation |
| `Credential.Credential.Ready` | src/provider.cpp:164-168 | reports an unexpired proof and drops an expired one |
| `Credential.Credential.SetDeselected` | src/provider.cpp:194-200 | moves to a new generation without a proof; a running worker keeps running |
| `Credential.Credential.Take` | src/provider.cpp:239-244 | moves an unexpired proof out, together with the generation it is valid for, and leaves none behind |
| `Credential.Credential.Complete` | src/provider.cpp:257-269 | produces a credential exactly if the generation is the one the proof was taken at and memory is available; is superseded exactly if the generation changed |
| `CredentialRuns.BeginIsItsSteps` | src/provider.cpp:85-154 | begin as one call leaves exactly the fields of its two steps, with the matching last event |
| `CredentialRuns.StepsAreSections` | src/provider.cpp:160-268 | every other critical section is one step of a run, and the remaining steps change nothing but the reference count |
| `CredentialRuns.CallersAreNotBlocked` | src/provider.cpp:85-274 | whoever holds a reference can call in, and every worker and call in progress can go on, except while a begin holds the mutex, which can always finish |
| `CredentialRuns.StepKeepsInv` | src/provider.cpp:85-274 | every step of every thread keeps the invariant: one worker at most, a ready proof is the untaken report of the current attempt's worker, every taken and released secret has its justification in the history, references are conserved |
| `CredentialRuns.RunKeepsInv` | src/provider.cpp:85-274 | the invariant holds after every run, histories only grow, and the generation grows by at most one per step |
| `CredentialRuns.GenerationBounded` | src/provider.cpp:81-98 | the generation never exceeds the number of steps, so the 64-bit counter does not wrap in fewer than 2^64 steps |
| `CredentialRuns.WorkersNeverOverlap` | src/provider.cpp:86-143 | the working flag is set exactly while one worker has not run its finish section; a ready proof excludes a worker and is well-formed |
| `CredentialRuns.ReleaseProvenance` | src/provider.cpp:85-268 | in every interleaving a released secret was reported by the worker of one attempt, taken at most 30000 ms later, and nothing was deselected or begun from the start of that attempt through the completion section |
| `CredentialRuns.ReleasedAtMostOnce` | src/provider.cpp:239-268 | two releases belong to different attempts and to different serialization calls |
| `CredentialRuns.DeselectionIsFinal` | src/provider.cpp:194-200 | whatever is released after a deselection belongs to an attempt begun after it, and to none begun before |
| `CredentialRuns.CompletionDecides` | src/provider.cpp:239-268 | a call that took a fresh proof releases exactly that proof if and only if nothing was deselected or begun between its two sections; otherwise it is superseded |
| `CredentialRuns.GenerationTellsBumps` | src/provider.cpp:98-200 | over any stretch of a run the generation is unchanged if and only if nothing was begun, with or without a thread in the end, and nothing was deselected |
| `CredentialRuns.RefreshIsUnobservable` | src/provider.cpp:164-193 | erasing every credential Advise, UnAdvise, SetSelected and ready step from any run gives a run with the same remaining history, although ready drops expired proofs |
| `CredentialRuns.SimilarStep` | src/provider.cpp:85-274 | two states that differ only in an expired proof take every step alike, with the same observable event |
| `CredentialRuns.ReferencesConserved` | src/provider.cpp:101-178 | the count is the outside references plus one for a begin that is starting its thread or for each worker that has not released its own, on the path where the thread fails too; the destructor runs exactly once, when both are gone, and nothing but the clock can move afterwards |
| `CredentialRuns.ReportIsTaken` | src/provider.cpp:129-168 | after a worker has reported and nothing was taken, begun or deselected since, the next call takes exactly its checked outcome if the attempt was current and at most 30000 ms have passed, and nothing otherwise |
| `CredentialRuns.SignInCompletes` | src/provider.cpp:231-274 | an undisturbed sign-in, with any delays, releases the unlocked password if and only if it is well-formed and taken within 30000 ms |
| `CredentialRuns.ReleaseWasReported` | src/provider.cpp:116-135 | every released secret is what some worker step of the run reported, unchanged |
| `Provider.Provider.DeselectAll` | src/provider.cpp:332 | every listed credential is deselected exactly once |
| `Provider.Provider.SetUsageScenario` | src/provider.cpp:330-337 | deselects and drops every listed credential; supports logon and unlock on the local session only |
| `Provider.Provider.Advise` | src/provider.cpp:339-345 | refuses null; otherwise passes the events to every listed credential and changes nothing else |
| `Provider.Provider.UnAdvise` | src/provider.cpp:346-350 | deselects and drops every listed credential and forgets the events |
| `Provider.Provider.SetUserArray` | src/provider.cpp:351-356 | refuses null without a change; otherwise deselects and drops every listed credential |
| `Provider.LoadedCounts` | src/provider.cpp:300-315 | the credentials listed are as many as there are positions of users whose profile loads |
| `Provider.Provider.Enumerate` | src/provider.cpp:293-316 | lists new, idle credentials once per configuration, one per user with a profile, at most 256 users, and never touches an existing list; running out of memory keeps those listed so far |
| `Provider.Provider.Poll` | src/provider.cpp:381 | finds the least index with a fresh proof, drops the expired proofs before it and changes nothing after it |
| `Provider.Provider.GetCredentialCount` | src/provider.cpp:374-385 | refuses null pointers without a change and answers nothing if enumeration throws; otherwise automatic exactly if some listed credential holds a fresh proof, and then the least such index; otherwise a default only for a single credential |
| `ProviderRuns.WorldRunIsSound` | src/provider.cpp:284-356 | in every run of a provider each credential ever created follows the credential protocol, and no history is rewritten |
| `ProviderRuns.TeardownCuts` | src/provider.cpp:330-356 | whatever runs in between, a teardown deselects every credential that was listed when it began |
| `ProviderRuns.TeardownIsFinal` | src/provider.cpp:330-356 | after a teardown no attempt begun on a listed credential before it, or while it ran but before its own deselection of that credential, ever yields a released credential, whenever its worker finishes |
| `ProviderRuns.TeardownProceeds` | src/provider.cpp:330-356 | a teardown in progress can take its next step, or waits only for a begin that holds the mutex and can go on; it is never stuck on a destroyed credential |
| `Wide.FromToBytes` | src/profile.cpp:19-42 | text survives the byte representation |
| `Wide.ToFromBytes` | src/profile.cpp:36-42 | bytes of even length survive being read as text |
| `Wide.UnitBytes` | src/profile.cpp:22 | a text unit is stored as its low byte and then its high byte |
| `Wide.Length` | src/enroll.cpp:75 | the bounded length is the position of the first terminator, or the whole length |
| `Wide.PasswordShape` | src/provider.cpp:117-122 | the worker accepts exactly a text of 1 to 4095 units without a zero, followed by one terminator |
| `Wire.Equal` | src/core.cpp:86-91 | the OR-accumulating comparison decides equality of the two byte strings |
| `Wire.XorIsZero` | src/core.cpp:89 | the exclusive or of two bytes is zero exactly if they are equal |
| `Wire.NumberOfU32` | src/profile.cpp:12-35 | a 32-bit length reads back as written |
| `Wire.U32Bytes` | src/profile.cpp:14 | the four bytes of a length by position, lowest first |
| `Wire.DigitsOfNumber` | src/profile.cpp:31-35 | little-endian bytes are the only spelling of the number they give |
| `Wire.StringWritten` | src/profile.cpp:19-42 | an identity string written anywhere in a buffer reads back at that position |
| `Wire.StringRead` | src/profile.cpp:36-42 | the bytes read as an identity string are exactly those written for it |
| `Wire.StringAtExactly` | src/profile.cpp:36-42 | a string is read at a position if and only if it has 1 to 512 units without a terminator and its length and units stand there |
| `Wire.Buffer.Put32` | src/profile.cpp:12-15 | appends four little-endian bytes, or nothing above 65536 |
| `Wire.Buffer.PutBytes` | src/profile.cpp:16-18 | appends exactly the bytes |
| `Wire.Buffer.PutString` | src/profile.cpp:19-23 | accepts exactly strings of 1 to 512 units without a terminator and appends length and units |
| `Wire.Reader.Take` | src/profile.cpp:27-30 | succeeds exactly if enough bytes are left, and advances past them |
| `Wire.Reader.ReadNumber` | src/profile.cpp:31-35 | the loop computes the little-endian number at the cursor and advances by four |
| `Wire.Reader.ReadString` | src/profile.cpp:36-42 | reads an identity string at the cursor, refusing lengths outside 1 to 512 and terminators |
| `Profile.BindingBytes` | src/profile.cpp:90-94 | the exact size of a binding |
| `Profile.Spelling` | src/profile.cpp:87-121 | the magic bytes and the account prefix spell SWA, SWM with version 2, and MicrosoftAccount with its backslash |
| `Profile.BindingLayout` | src/profile.cpp:90-94 | every field of a binding stands at its own position, after its length where it has one |
| `Profile.ParseOfBinding` | src/profile.cpp:145-154 | a binding reads back as the record it was made for |
| `Profile.BindingInjective` | src/profile.cpp:85-95 | equal bindings have equal kind, SID, account, credential, public key and salt |
| `Profile.ParseIsCanonical` | src/profile.cpp:144-154 | the fields of a binding have one spelling: whatever parses is what would be written for it, before any comparison |
| `Profile.BindingComparison` | src/profile.cpp:155 | of the bindings that parse, exactly those with a valid SID and a Microsoft account are accepted; the comparison itself refuses none |
| `Profile.RecordsAreCanonical` | src/profile.cpp:126-138 | encoding the records that were read gives the bytes they were read from, unless a credential occurs twice |
| `Profile.ContainerComparison` | src/profile.cpp:137-138 | a container whose records were all read to the end is accepted exactly if their credentials are distinct |
| `Profile.DistinctContainersDecode` | src/profile.cpp:120-139 | a container within the limits whose records all parse decodes to them if and only if no credential occurs twice |
| `Profile.DecodeBinding` | src/profile.cpp:144-155 | an accepted binding is what would be written for what it yields |
| `Profile.EncodeSingle` | src/profile.cpp:112-118 | every encoded record is longer than four bytes and within the decoder's 16384 |
| `Profile.RecordLayout` | src/profile.cpp:114-117 | every part of a record stands at its own position |
| `Profile.SingleRoundTrip` | src/profile.cpp:112-161 | on single records decoding and encoding are inverse to each other, in both directions |
| `Profile.SingleIsNotMulti` | src/profile.cpp:96-121 | the leading length of a single record cannot spell the multi-key magic |
| `Profile.ProfileForKey` | src/profile.cpp:163-170 | succeeds exactly for an enrolled index, with a single-key record |
| `Profile.MultiRoundTrip` | src/profile.cpp:97-139 | every container the encoder writes passes all limits of the decoder and reads back as the same profile |
| `Profile.ContainerLayout` | src/profile.cpp:97-110 | a container starts with its magic and the number of keys, and every record follows the sizes of those before it, after its own length |
| `Profile.EncodeAccepts` | src/profile.cpp:85-119 | a profile can be encoded if and only if every record is within the stated limits and, for several keys, there are at most eight, with distinct credentials, in at most 60000 bytes |
| `Profile.RoundTrip` | src/profile.cpp:96-162 | a byte string decodes to a profile if and only if that profile encodes to that byte string |
| `Profile.PrefixFree` | src/profile.cpp:120-162 | no accepted byte string is a proper prefix of another accepted one, in either shape |
| `Profile.KeysDistinct` | src/profile.cpp:97-138 | an accepted container holds two to eight keys with pairwise distinct credentials, each valid under the one identity and kind |
| `ProfileCodec.ProfileBinding` | src/profile.cpp:85-95 | the buffer holds the binding, for exactly the records that can be bound |
| `ProfileCodec.EncodeRecordBytes` | src/profile.cpp:112-118 | computes the single-record encoding |
| `ProfileCodec.IsNew` | src/profile.cpp:104 | the scan finds out whether a credential occurred before |
| `ProfileCodec.PutRecords` | src/profile.cpp:101-108 | the loop appends every framed record, and fails exactly if one fails or repeats a credential |
| `ProfileCodec.EncodeProfile` | src/profile.cpp:96-119 | computes the encoding of both shapes, with its size limits |
| `ProfileCodec.ReadBindingFields` | src/profile.cpp:144-154 | the cursor reads a binding field by field and refuses what is left over |
| `ProfileCodec.ReadBinding` | src/profile.cpp:144-155 | reads a binding and refuses one that is not canonical |
| `ProfileCodec.ReadKeyFields` | src/profile.cpp:150-154 | reads credential, public key and salt up to the end |
| `ProfileCodec.ReadPasswordFields` | src/profile.cpp:156-160 | reads nonce, tag and ciphertext up to the end |
| `ProfileCodec.DecodeRecord` | src/profile.cpp:141-161 | decodes one record with all its limits |
| `ProfileCodec.NextRecord` | src/profile.cpp:127-135 | one round of the container loop: frame, nesting check, record, identity check |
| `ProfileCodec.ReadRecords` | src/profile.cpp:125-136 | the loop reads every record and leaves the cursor behind the last |
| `ProfileCodec.CheckCanonical` | src/profile.cpp:137-139 | accepts what was read exactly if nothing is left over and the encoder writes the same bytes |
| `ProfileCodec.DecodeRecords` | src/profile.cpp:121-139 | decodes a container with its limits |
| `ProfileCodec.DecodeProfile` | src/profile.cpp:120-162 | computes the decoding of both shapes, with the canonicality check |
| `Enrollment.Seal` | src/core.cpp:115-133 | what is sealed comes from the cipher under the given nonce, for plaintexts of 1 to 32768 bytes, and keeps the length |
| `Enrollment.Unseal` | src/core.cpp:134-151 | what opens comes from the cipher, is as long as the ciphertext, and is not empty |
| `Enrollment.WrapIsBoundToItsRecord` | src/profile.cpp:85-177 | a wrap that opens for one record opens for another if and only if they agree on kind, SID, account, credential, public key and salt |
| `Enrollment.Keys` | src/profile.cpp:172-173 | the keys that may answer are those of the records, at the same positions |
| `Enrollment.UnlockAccount` | src/profile.cpp:171-177 | fails unless a key released its secret in this call; then it opens the wrap of exactly the key whose fresh touch was verified |
| `Enrollment.ParseTestProfile` | src/core.cpp:102-114 | reads a public key file |
| `Enrollment.TestKeyRoundTrip` | src/core.cpp:102-114 | a key file is accepted exactly if it is the magic followed by the key it yields, with nothing left over |
| `Enrollment.PlaintextIsWellFormed` | src/enroll.cpp:73-84 | what enrollment seals is the entered text up to its terminator, and always passes the length, parity and terminator check of the sign-in worker |
| `Enrollment.SealFor` | src/enroll.cpp:83-87 | yields a box exactly if the record can be bound and the box opens again to the plaintext |
| `Enrollment.BuildProfile` | src/enroll.cpp:38-100 | succeeds exactly for touched, valid, distinct keys; the profile has kind 2 for a PIN and 1 for a password, the user of the request and exactly the keys of the files, and every wrap of it opens with its own key |
| `Enrollment.EnrolledEncodes` | src/enroll.cpp:102-104 | a built profile can be stored exactly if the credential is within 8192 bytes |
| `Enrollment.Enroll` | src/enroll.cpp:37-106 | completes exactly under the stated conditions, each named; then the stored bytes load with kind 2 for a PIN and 1 for a password, for the same user and keys, and any enrolled key recovers exactly the entered text, in the form the worker accepts |
| `Enrollment.EnrolledKeySignsIn` | src/provider.cpp:113-122 | a justified touch of any enrolled key, answered with that key's secret, unlocks exactly the entered text; the worker keeps it, and an undisturbed sign-in releases it if and only if it is taken within 30000 ms |
| `Enrollment.OnlyEnrolledTextIsReleased` | src/provider.cpp:113-268 | in every interleaving in which the workers report nothing or what an enrolled key's own secret unlocks, every released secret is exactly the entered text |
| `Touch.IndexOf` | src/core.cpp:187 | the first enrolled credential that equals the reported one |
| `Touch.Discover` | src/core.cpp:175-193 | one request without touch and without salt, for all enrolled credentials; the device is skipped only if that answer names none of them, selected only if it names one, and it throws only for an error or a wrong number of answers |
| `Touch.AskDevice` | src/core.cpp:172-193 | a device that cannot be used is skipped; any other is asked, with a timeout of at most a second and within the time left |
| `Touch.ProbeDevice` | src/core.cpp:167-194 | devices of vendor 0x1050 and no others are asked; one is skipped only if a call on record rules it out, times out only at the deadline, throws only for a failed call or a wrong answer, and stays open only if selected |
| `Touch.Scan` | src/core.cpp:165-194 | one enumeration finds an enrolled key on an open device, or leaves every device closed, and then every listed device of vendor 0x1050 was ruled out or the deadline passed |
| `Touch.Pause` | src/core.cpp:195-197 | after a fruitless scan the search sleeps for at most 250 ms if there is time left, and looks at the clock again |
| `Touch.ScanAndPause` | src/core.cpp:164-198 | one round of the search keeps every earlier scan complete and moves the clock on |
| `Touch.Select` | src/core.cpp:161-199 | the search starts with an enumeration if there is time, and a new one follows every sleep that ends in time; every scan but the last ruled out all its devices; it selects only a key that answered, gives up only once the clock has passed the deadline, and throws only for a failed call or a wrong answer |
| `Touch.AskTouch` | src/core.cpp:200-214 | one request for a touch, with the key's own salt, a challenge never used before, and a timeout within the time left |
| `Touch.CheckAnswer` | src/core.cpp:215-217 | an answer passes exactly if it is one assertion, with presence and without verification, of the selected credential |
| `Touch.VerifyTouch` | src/core.cpp:218-224 | a proof exactly if the signature verified and the secret has 32 bytes |
| `Touch.FlagTest` | src/core.cpp:216 | the mask test holds exactly if user presence is set and user verification is clear |
| `Touch.TouchSelected` | src/core.cpp:200-224 | a proof is returned exactly if a 32-byte secret came with a verified assertion, and rests on the last fresh challenge; none only after the deadline or for a failed call or an unacceptable answer |
| `Touch.TouchAnyKey` | src/core.cpp:152-225 | a proof comes only from a fresh, verified, touch-only assertion of the enrolled key it names; for acceptable arguments it is missing only for a failed call or a wrong answer, or if the clock passed the deadline although every scan but the last was worked through; every timeout is within 1 to 45000 and ends by the deadline; the device is closed on every exit |
| `RecoveryUsb.RecordMatches` | src/recovery_usb.cpp:61-100 | a pairing record accepts exactly the well-formed credentials with the recorded digest |
| `RecoveryUsb.MatchesExactly` | src/recovery_usb.cpp:61-99 | a credential is accepted if and only if it has 56 bytes and the magic, and the pairing value is the magic followed by its digest |
| `RecoveryUsb.HalfPairedPermitsNothing` | src/recovery_usb.cpp:61-100 | a pairing key without its record permits no recovery and no check |
| `Recovery.ReplayOrdered` | src/filter_recovery.cpp:151-190 | in every accepted history deletion implies permission on the hive, that implies the backup, and that implies permission on the copy |
| `Recovery.DeletionHistory` | src/filter_recovery.cpp:151-190 | before a deletion come, in this order, permission on the copy, the completed backup, and permission on the loaded hive |
| `Recovery.LoadedAfterBackup` | src/filter_recovery.cpp:165-171 | the installation's own hive is loaded only after permission on the copy and the completed backup |
| `Recovery.LoadedIsUnloadedOnce` | src/filter_recovery.cpp:128-186 | every hive a finished run loaded got exactly one unload attempt |
| `Recovery.ClosedBeforeUnload` | src/filter_recovery.cpp:130-186 | before every unload attempt each handle opened earlier was closed |
| `Recovery.PairedNeedsCredential` | src/filter_recovery.cpp:119-122 | permission on a paired hive is given only directly after the named file was read, and for a content of 56 bytes whose digest is the recorded one |
| `Recovery.Machine.ReadKey` | src/recovery_usb.cpp:48-60 | yields only the complete content of a file of 56 bytes, and puts the read on record |
| `Recovery.Machine.Authorize` | src/filter_recovery.cpp:119-122 | permits a paired hive only with its credential, as just read from the named file, an unpaired one only for a plain removal without a credential |
| `Recovery.Machine.RemoveRegistration` | src/filter_recovery.cpp:43-51 | removes the one exact key or nothing, and nothing if it has children; may fail whether or not the key exists; success means that the removal is on disk |
| `Recovery.Machine.OpenAndAuthorize` | src/filter_recovery.cpp:174-178 | opens the loaded hive, and authorizes only with the expected Windows structure, whatever fails |
| `Recovery.Machine.TryInspect` | src/filter_recovery.cpp:130-144 | the handle on the copy is closed on every path |
| `Recovery.Machine.InspectLoaded` | src/filter_recovery.cpp:130-145 | the loaded copy gets exactly one unload attempt, whatever the inspection gave |
| `Recovery.Machine.InspectCopy` | src/filter_recovery.cpp:123-150 | never changes the installation; succeeds only with permission on the copy and the copy unloaded; leaves nothing mounted but what failed to unload |
| `Recovery.Machine.TryRemove` | src/filter_recovery.cpp:173-185 | deletes only after permission on the loaded hive; the handle is closed on every path |
| `Recovery.Machine.LoadAndRemove` | src/filter_recovery.cpp:171-186 | the installation's hive is loaded only after the backup and gets exactly one unload attempt |
| `Recovery.Machine.Recover` | src/filter_recovery.cpp:151-190 | for every pattern of failures the hive changes at most by losing the one filter key, with a backup of the old hive, the expected Windows structure, and permission on the copy and on the hive, which on a paired hive means the matching 56-byte credential read from the named file both times; a normal return means the key is gone and the rest unchanged; an unpaired hive accepts only the plain removal without a credential file; without faults it succeeds exactly if the structure is right, the credential is right or none is demanded and none given, and the key has no children |
| `Recovery.Machine.RecoverTwice` | src/filter_recovery.cpp:43-51 | repeating a completed recovery changes nothing, whatever becomes of the second run |
| `Recovery.Machine.WriteCredential` | src/recovery_usb.cpp:118-125 | creates a new file or leaves the existing one as it is; on a bad drive a reported success may have stored anything |
| `Recovery.Machine.SavePairing` | src/recovery_usb.cpp:133-143 | creates the pairing only where none exists; success means that the file on the drive, whatever it holds, authorizes |
| `Recovery.Machine.PairUsb` | src/recovery_usb.cpp:101-146 | never alters an existing pairing or file, even against a concurrent pairing; records a pairing only after the new file reads back as a credential with the right digest; success means that this file authorizes, even if the write was bad; without faults it succeeds exactly if neither existed |
| `RecoveryScreen.Window.SelectionChanged` | src/recovery_screen.cpp:137 | another selection forgets the check |
| `RecoveryScreen.Window.StartHelper` | src/recovery_screen.cpp:84-101 | ignores a click exactly while busy; launches a check exactly if a drive, a key file and a thread are there; asks to restore exactly the pair that was checked; is busy afterwards only if it ignored, launched or asked |
| `RecoveryScreen.Window.Answer` | src/recovery_screen.cpp:92-102 | launches only on consent; otherwise the screen is free again |
| `RecoveryScreen.Window.HelperFinished` | src/recovery_screen.cpp:143-149 | the screen is free after every report; only a successful check is remembered, everything else forgets it |
| `RecoveryScreen.RunKeepsInv` | src/recovery_screen.cpp:84-149 | over every message sequence: at most one helper or open question, and a remembered pair was the last to be checked successfully |
| `RecoveryScreen.OneHelperAtATime` | src/recovery_screen.cpp:84-103 | at most one helper runs, and the screen is busy while it does |
| `RecoveryScreen.ClicksForget` | src/recovery_screen.cpp:137-139 | another selection and every click on the check forget what was checked, even while busy; a busy screen starts nothing |
| `RecoveryScreen.ReportFrees` | src/recovery_screen.cpp:143-144 | whatever a helper reports, in whatever state, the screen is free afterwards |
| `RecoveryScreen.BusyExactly` | src/recovery_screen.cpp:84-149 | over every message sequence the screen is busy exactly while a helper runs, a question is open, or a report was lost |
| `RecoveryScreen.RestorationWasChecked` | src/recovery_screen.cpp:91-149 | a restoration starts only if the last helper that reported back was a successful check of the same pair |
| `RecoveryScreen.ChecksAreNotReused` | src/recovery_screen.cpp:91-149 | between any launch and a later restoration lies a successful check of its pair |
| `RecoveryScreen.RestoreAfterCheck` | src/recovery_screen.cpp:84-149 | after any run that leaves the screen free, followed by a check, the question to restore is asked exactly if the check succeeded and the same installation and credential file are selected |
| `ServerLock.StepKeepsInv` | src/desktop_filter.cpp:80-88 | every step of every thread keeps the counter equal to the 32-bit difference of locks and unlocks, which is never negative |
| `ServerLock.ExchangeDecides` | src/desktop_filter.cpp:84 | a round of the unlock loop succeeds exactly if the counter is still what the thread read and nothing spurious happens; otherwise the thread has read it anew |
| `ServerLock.LockThenUnlock` | src/desktop_filter.cpp:80-88 | after any run below the largest count, a lock and an undisturbed unlock restore the counter |
| `ServerLock.LocksConserved` | src/desktop_filter.cpp:80-88 | the counter is locks minus unlocks as a 32-bit number; it is negative exactly while the difference modulo 2^32 is 2^31 or more, and equal to the difference exactly below 2^31 |
| `ServerLock.ErrorsWereObserved` | src/desktop_filter.cpp:83-86 | an unlock reports an error only for a count that it read and that was not positive; that count was zero exactly if the locks held at the reading, modulo 2^32, were below 2^31 |
| `ServerLock.UnlockFailsWhileHeld` | src/desktop_filter.cpp:83-86 | with 2^31 locks held an unlock observes a negative count and reports an error |
| `ServerLock.CounterOverflows` | src/desktop_filter.cpp:81 | 2^31 locks without an unlock drive the counter below zero |
| `FilterPolicy.ConvenienceName` | src/filter_lab.h:31-35 | a name exactly for the six known identifiers, each its own, and never for Sovereign |
| `FilterPolicy.Apply` | src/desktop_filter_policy.h:8-25 | decides exactly in the two modes, the two scenarios and within 256 entries; then the counts are those of the known, known and excluded, and other positions, and entries change only as the policy says |
| `FilterPolicy.Decide` | src/desktop_filter_policy.h:14-24 | the loop excludes the known entries if the key is required, preserves all others, and counts |
| `FilterPolicy.Filter` | src/filter_lab.h:58-73 | restricts only if armed and Sovereign is present and allowed; otherwise changes nothing |
| `FilterPolicy.CountsPartition` | src/desktop_filter_policy.h:14-23 | known, other and Sovereign entries add up to the whole array, and the excluded are among the known |
| `FilterPolicy.RequiredExcludesAllKnown` | src/desktop_filter_policy.h:15-20 | with the key required every known entry is excluded; observing changes nothing |
| `FilterPolicy.SignInAndUnlockAreRestricted` | src/desktop_filter_policy.h:11-20 | with the key required, at sign-in and at unlock, within 256 entries every known entry is excluded and no other changes |
| `FilterPolicy.OtherwiseUntouched` | src/desktop_filter_policy.h:11-12 | in every other mode, scenario, with flags or above 256 entries the array is left alone |
| `FilterPolicy.LabDecides` | src/filter_lab.h:62-71 | the lab policy excludes the known entries exactly in its restricting mode, with all three preconditions, at sign-in or unlock without flags, with Sovereign listed and allowed |
| `FilterPolicy.OnlyClearsKnown` | src/desktop_filter_policy.h:15-22 | an entry changes only by being excluded, and only if its identifier is known; Sovereign is never touched |
| `FilterPolicy.DesktopIdempotent` | src/desktop_filter_policy.h:8-25 | applying the policy again changes nothing |
| `FilterPolicy.DesktopCommutes` | src/desktop_filter_policy.h:22 | exclusions by another filter give the same result before or after |
| `FilterPolicy.PoliciesCommute` | src/desktop_filter_policy.h:8-25 | the desktop and the lab policy give the same result in either order |
| `FilterPolicy.DesktopRefinesLab` | src/desktop_filter_policy.h:8-25 | exactly when the desktop policy decides like the lab policy, and exactly when it allows no more, in every mode and for arrays of every size |
| `FilterPolicy.ObservingLeavesOpen` | src/desktop_filter_policy.h:19 | with two entries and the mode that only observes, the desktop policy leaves a provider open that the lab policy excludes |
| `FilterPolicy.OversizeArrayIsLeftOpen` | src/desktop_filter_policy.h:11 | with 257 entries the desktop policy leaves a provider open that the lab policy excludes |

## Left out

- Status texts, icons, tracing, field descriptors, bitmaps, QueryInterface and class creation: no logic that decides anything.
- `pinBridge_`, WindowsPin and the packing of credentials: serialization may succeed or fail, at any time between the two sections.
- `Credential.Credential.Begin`: the generation is an unbounded number; `CredentialRuns.GenerationBounded` says for which runs the 64-bit counter cannot tell the difference.
- The number of live objects in the provider module: plain increments and decrements.
- FIDO2, BCrypt, DPAPI, LSA and SSPI: foreign code; what it may answer is a parameter or a free choice.
- `Enrollment.WrapIsBoundToItsRecord`: authenticity is assumed of the box in question only; no cipher with a 16-byte tag can have it for all boxes at once.
- `Enrollment.Enroll`: access control lists, DPAPI and the atomic installation of the profile file are one condition (`storable`); console prompts and retries, the size limit on key files and the order in which failures are reported are not modelled.
- `validateSid`: any predicate on strings; every theorem about the codec holds for all of them.
- `ProfileCodec.NextRecord`: calls the single-record decoder where the source calls the whole decoder again, because a nested container has been refused on the line before.
- `Touch.Select`: that the search ends rests on the clock advancing across a sleep; the duration of library calls is free.
- `Wire.Equal`: its result, not its timing; `digestEqual` is the same loop on 32 bytes.
- Memory wiping and the ownership of `Secret`: values are copied freely here.
- `absoluteWindowsRoot`, `usbPath`, reparse points, privileges and the WinPE test: one preparation step that may fail.
- `Recovery.Machine.Recover`: the three files of a hive are copied as one, and the temporary directory is not tracked; a hive whose unload failed stays mounted, as in the source.
- `Recovery.Machine.RemoveRegistration`: a deletion whose flush fails may or may not reach the disk.
- Window creation, message boxes, pipes and processes of the recovery screen: only the transitions of its three globals.
- `DllCanUnloadNow` and the object counters: plain increments and decrements.
- The registry diagnostics of the desktop filter and its remote-session test: no decision depends on them beyond leaving the array alone.
- Fairness, timing and thread scheduling: every interleaving is covered, none is promised to happen.
