# Verified model of the document signing service

A server keeps a table of users and, per user, a key pair whose private half is wrapped under a key derived
from the user's password. A client logs in over an encrypted channel and asks the server to create keys, sign
documents, hand out public keys and delete keys. An offline tool registers accounts and revives deleted ones.
This project models the three programs and their common code in Dafny and proves what they keep and promise.
Check everything with `dafny verify dfyconfig.toml`.

## How it is built

Each operation appears twice: as a function on values that says what it does, and, where the program works
step by step, as a method or class with the same branches, loops and buffers that is proved to compute that
function. The theorems are about the functions. Failures are parameters: every operation takes a record of the
system and library calls that fail and the random values it draws, and theorems quantify over all of them
unless they say which calls succeed. `FileSystem` remembers every intermediate state in a ghost history, so
that contracts can speak about crashes.

- `Octets`, `Crypto`, `Disk`: bytes, C strings and integers; the cryptographic library; the files.
- `TableText`, `TableFile`, `Bootstrap`, `Auth`, `Provision`: the user table as text, its atomic replacement, its
  seed, the server's copy in memory, and the registration tool.
- `PrivateBlob`, `Keystore`: the wrapped private key and the key operations.
- `Requests`, `Server`, `Service`: request plaintexts, the session and the dispatch, the request loop.
- `Runs`: whole runs of starts, requests, stops and registrations. `Agreement`, `Tombstones`, `Coherence`,
  `Faults`, `Lockout` and `Outcomes` prove what runs keep and what answers mean; `Answers` says which requests are
  refused and how, and exactly when the others succeed. `Service.TurnsAreRun` and
  `Client.PerformAllIsRun` say that frames on the wire and commands typed are such runs.
- `Replay`, `Net`, `Packet`, `Handshake`, `Channel`: the replay ring, partial transfers, frames, the handshake and
  encrypted requests and responses.
- `Client`, `Commands`: the command line, its record of the session, and what each command sends and achieves.

## Assumptions

- The cryptographic library is a datatype of functions. `Crypto.Ideal` states what is assumed of it: what was
  sealed opens again, signatures of a generated key verify under its public half, and passwords with one hash
  under some salt have one hash under every salt. `Handshake.Ideal` adds that both sides of a key agreement
  compute one secret, `Handshake.Separates` that key derivation keeps labels and salts apart. A theorem that
  needs such a property requires it.
- A user's current password is any password whose salted hash is the stored one.
- The provisioning tool runs only while the server is down, and no file changes behind the programs' backs.

## Where the code and its description differ

The model follows the code in each case.

- The repository's `README.md` says that replay protection binds each frame to a unique nonce. The loop closes the
  connection only on a negative answer of the cache (`server/main.c:296`), so a frame with a known nonce is
  served; `Service.ServeRequest` shows it. The replay theorems are about the cache.
- `common/dsspacket.c:26` says the associated data is in network order. On a little-endian host its length bytes
  are reversed; `Packet.AadByteOrder` says exactly when the two agree.
- An existing user table is deleted when the bootstrap cannot allocate its rename path
  (`Bootstrap.ExistingTableUntouched`). The run theorems about tombstones and keys assume that this allocation
  succeeds.
- A table the server accepts but that has no records refuses every registration (`Provision.EmptyTableRefuses`),
  so the registration theorem is about nonempty tables.
- The tool accepts names that the format cannot hold and still reports success; `Provision.RegisterExact` says
  exactly which names work, and `Provision.LongNameBreaksTable` that a long one makes the table unreadable.
- A deletion whose unlink fails leaves the private key file behind. After a re-registration that file blocks the
  required password change, for good: `Lockout.FailedUnlinkSticks` and `Lockout.LockedOutForGood`. This does not
  contradict the coherence theorems, whose runs meet no failing call in a request.
- A password change whose table write fails after the key file was re-wrapped loses the key at the next restart;
  `Faults` states exactly which failures are harmless.

## Model

| member | source | states |
|---|---|---|
| `TableText.HexRoundTrip` | server/auth.c:70-132 | Every byte string decodes back from the lower-case hexadecimal text it is written as. |
| `TableText.HexEncodeInto` | server/auth.c:70-89 | Encoding succeeds exactly when text and terminator fit the buffer, and otherwise leaves the buffer alone. |
| `TableText.HexDecodeInto` | server/auth.c:91-132 | Decoding succeeds exactly for text of twice the buffer's length made of hexadecimal digits of either case. |
| `TableText.NibbleExactly` | server/auth.c:91-106 | A hexadecimal digit of either case has the value of its place in the digits, and is written in lower case. |
| `TableText.HexDecodesExactly` | server/auth.c:108-132 | Text decodes to some bytes if and only if the two halves of each byte are written in turn, high half first. |
| `TableText.StrTok` | server/auth.c:208-218 | One `strtok` call yields the next nonempty run between colons and a rest that holds all later runs. |
| `TableText.FlagRoundTrip` | server/auth.c:48-68 | A flag written as 0 or 1 is read back as the same flag. |
| `TableText.ParseFlagExactly` | server/auth.c:48-68 | A flag is read exactly from white space, an optional sign and decimal digits whose value is 0 or 1, and never from -1. |
| `TableText.ParseRecord` | server/auth.c:199-240 | The five tokens, the refused sixth and the four field checks accept exactly the lines of the record format and return that record. |
| `TableText.LineBodyParses` | server/auth.c:264-287 | The line written for a record with a usable name parses back to that record. |
| `TableText.FieldsInOrder` | server/auth.c:276-281 | A record is written as name, must-change flag, deleted flag, salt and hash between colons, each flag as "1" or "0". |
| `TableText.ParsedNameOk` | server/auth.c:199-240 | A name that was parsed from a line can always be written again: nonempty, free of colon, newline and zero byte, at most 921 bytes. |
| `TableText.NameLimits` | server/auth.c:199-240 | The names the format holds: 1 to 921 bytes, no colon, newline or zero byte. |
| `TableText.ChunkExactly` | server/auth.c:508-508 | One `fgets` call reads through the first newline, 1023 bytes, or to the end of the file, whichever comes first. |
| `TableText.LineExactly` | server/auth.c:512-519 | The line it yields is what precedes the newline or a zero byte. |
| `TableText.LinesOfBody` | server/auth.c:508-519 | A written record is read back as one line even when it fills the 1024-byte `fgets` buffer and its newline arrives as a blank line of its own. |
| `TableText.LinesStep` | server/auth.c:508-519 | What one `fgets` call and one skipped or parsed line contribute to the reading of the whole file. |
| `TableText.RecordsOfPrint` | server/auth.c:242-310 | Any table of writable names is read back record by record in the same order. |
| `TableText.LoadOfPrint` | server/auth.c:488-560 | Writing and loading give the table back if and only if its names are distinct and writable. |
| `TableText.LongLineUnreadable` | server/auth.c:508-525 | A record whose name is longer than 921 bytes makes the whole file unreadable: the part of it that the 1024-byte buffer holds is no record. |
| `TableText.LoadsExactly` | server/auth.c:488-560 | A written table of names without colon, newline or zero byte loads at all if and only if they are distinct and at most 921 bytes. |
| `TableText.TableIdempotence` | server/auth.c:242-310 | For every file the server accepts, writing the loaded table and loading again gives the same table. |
| `Octets.NetworkOrder32` | common/handshake.c:32-35 | 32-bit lengths are written most significant byte first. |
| `Octets.NetworkOrder16` | server/main.c:125-126 | So are 16-bit statuses. |
| `TableFile.PrintRecords` | server/auth.c:264-287 | The print loop produces the whole table unless some `fprintf` fails. |
| `TableFile.FillTemporary` | server/auth.c:254-294 | Until the temporary file is complete nothing but the temporary file has changed, in any state a crash could leave. |
| `TableFile.ReplaceTable` | server/auth.c:242-310 | Both programs' table write: the new table is in place or the old one is intact, in the end and in every intermediate state. |
| `TableFile.FailedWriteKeepsTable` | tools/account_provision.c:198-257 | A failed write leaves the table and every file but the temporary one as they were. |
| `TableFile.TableWrittenExactly` | server/auth.c:254-309 | The table file changes if and only if open, every print, flush, close and rename all succeed. |
| `Bootstrap.ConvertSeed` | server/auth.c:379-436 | The line-by-line conversion produces exactly the table text of the parsed seed. |
| `Bootstrap.SeedLineExactly` | server/auth.c:400-419 | A seed line is an account if and only if it has four fields: name, password, and readable must-change and deleted flags, in this order. |
| `Bootstrap.SeedTextParses` | server/auth.c:379-436 | The accounts written into a seed, a line each, are the accounts read from it. |
| `Bootstrap.BootstrapSucceedsExactly` | server/auth.c:351-458 | The bootstrap succeeds if and only if its path is allocated and there is nothing to do, or every seed line parses and no call fails. |
| `Bootstrap.BootstrapFromSeed` | server/auth.c:338-472 | Final files and result of the bootstrap for every failure of its calls. |
| `Bootstrap.ExistingTableUntouched` | server/auth.c:355-362 | An existing table survives a bootstrap if and only if the rename path could be allocated or the clean-up unlink fails. |
| `Bootstrap.FailureLeavesSeed` | server/auth.c:458-472 | A failed first start whose unlink succeeds leaves no table and the seed in place. |
| `Bootstrap.SuccessYieldsTable` | server/auth.c:369-458 | A successful first start consumes the seed and writes every seed name, password hash and flag; the table loads, and to exactly these records, if and only if the names are distinct and at most 921 bytes. |
| `Bootstrap.SecondRunIsIdle` | server/auth.c:359-367 | A second bootstrap after a success changes nothing. |
| `Auth.UserDb.FindUser` | server/auth.c:156-171 | The scan returns the first record of that name, or nothing if there is none. |
| `Auth.UserDb.WriteDb` | server/auth.c:242-310 | The table file becomes the printed memory table or stays as it was. |
| `Auth.UserDb.VerifyPassword` | server/auth.c:584-614 | A record is returned exactly when the salted hash of the password is the stored one. |
| `Auth.UserDb.ChangePasswordAuthenticated` | server/auth.c:647-669 | A failed write leaves the new password in memory; nothing changes if the user is unknown or hashing fails. |
| `Auth.UserDb.MarkDeleted` | server/auth.c:688-715 | A failed tombstone write is rolled back in memory, and no state on the way has a torn table. |
| `Auth.UserDb.GetDeleted` | server/auth.c:671-686 | The tombstone flag of the first record of that name. |
| `Auth.UserDb.ReadTable` | server/auth.c:506-552 | The reading loop accepts exactly the files whose lines all parse to distinct names, and leaves no table behind otherwise. |
| `Auth.UserDb.LoadDb` | server/auth.c:488-560 | Bootstrap and load together, for every failure of opening or reading. |
| `Auth.SeedUsersVerify` | server/auth.c:584-614 | After a first start from good names exactly the seed passwords verify, up to hash collisions, each with its seed flags. |
| `Provision.LoadRecords` | tools/account_provision.c:125-196 | The tool's reader accepts exactly the files whose lines all parse, and gives a null table when there are none. |
| `Provision.UpdateRecord` | tools/account_provision.c:259-294 | The first record of the name is revived in place when it is a tombstone and left alone when it is active; a null table is refused. |
| `Provision.AppendUser` | tools/account_provision.c:296-334 | One fresh account is added after the records there were. |
| `Provision.RegisterAccount` | tools/account_provision.c:336-389 | Final files and result of `register` for every table, name and failure. |
| `Provision.ReadersAgree` | tools/account_provision.c:125-196 | The server accepts exactly the tables the tool reads whose names are distinct, and both read the same records. |
| `Provision.RefusalKeepsTable` | tools/account_provision.c:353-389 | An active account is refused without any change, and any failed registration leaves the table as it was. |
| `Provision.RegisterExact` | tools/account_provision.c:336-389 | On a nonempty table the server accepts, registering an inactive name yields exactly the table with one record revived or appended, if and only if the name fits the format. |
| `Provision.RegisterSucceedsExactly` | tools/account_provision.c:336-389 | The tool reports success if and only if the name is proper and not active, the table readable and not empty, and no call fails. |
| `Provision.BadNameRefused` | tools/account_provision.c:353-361 | An empty name or one with a colon, and a missing or unreadable table, are refused without any change. |
| `Provision.AppendKeepsRecord` | tools/account_provision.c:296-334 | An appended account, however it is named, hides or alters no earlier record from a later reader. |
| `Provision.RegisterKeepsRecord` | tools/account_provision.c:336-389 | For any name and any failure, no record but the re-registered tombstone changes. |
| `Provision.EmptyTableRefuses` | tools/account_provision.c:259-270 | A table file without records refuses every registration. |
| `Provision.LongNameBreaksTable` | tools/account_provision.c:336-389 | Registering a name longer than 921 bytes reports success and leaves a file the server refuses. |
| `Crypto.TransparentIsIdeal` | server/storage.c:158-178 | The ideal properties assumed of the cryptographic library have a model, so they do not contradict each other. |
| `PrivateBlob.SealInto` | server/storage.c:306-372 | The buffer filled at fixed offsets is the 53-byte header and the ciphertext; too long a plaintext fails. |
| `PrivateBlob.BlobRoundTrip` | server/storage.c:237-372 | Every plaintext up to INT_MAX bytes that was wrapped under a key is unwrapped under it again. |
| `PrivateBlob.BlobFormat` | server/storage.c:306-372 | The file is "DSS1", version 2, salt, IV, tag, the length in network order and the ciphertext, for every plaintext up to INT_MAX bytes. |
| `PrivateBlob.OpensExactlyLayouts` | server/storage.c:237-304 | A file opens if and only if it is laid out as magic, version, salt, IV, tag, exact length and a ciphertext that opens. |
| `Keystore.DeriveSessionKey` | server/storage.c:374-408 | The key buffer and result for every name, stored blob and failure, including the separate derivation of version-1 blobs. |
| `Keystore.SealPem` | server/storage.c:306-372 | A private key is wrapped in a fresh blob, or nothing is returned. |
| `Keystore.CreateKeysSession` | server/storage.c:410-520 | Files and result of key creation: an existing pair is kept, a tombstone refuses, a failure cleans up. |
| `Keystore.SignDocSession` | server/storage.c:541-659 | A signature is made exactly with the key unwrapped from the stored blob, and not for a tombstone. |
| `Keystore.MarkTombstone` | server/storage.c:713-720 | Success puts the tombstone on disk, and no state on the way has lost a key file before it is. |
| `Keystore.UnlinkKeyFiles` | server/storage.c:722-731 | Public key first, then private key; the table file is untouched throughout. |
| `Keystore.DeleteKeyFiles` | server/storage.c:699-738 | In every state a crash could leave, key files are missing only if the tombstone is already on disk. |
| `Keystore.ReencryptPrivate` | server/storage.c:740-791 | The stored key is re-wrapped under the new key; an absent or unreadable file counts as success. |
| `Requests.AuthParsesExactly` | server/main.c:343-369 | AUTH reaches password verification if and only if the plaintext encodes two strings of 1 to 255 bytes, and with those strings cut at their first zero byte. |
| `Requests.BuiltRequestsParse` | client/main.c:499-503 | The server recovers exactly the user names and passwords the client's builders encode. |
| `Requests.OthersParseExactly` | server/main.c:404-499 | Password-change and key-lookup requests are accepted if and only if they are encodings of one such string. |
| `Requests.FillAuthPayload` | client/main.c:470-517 | The client's stack buffer holds the encoding of user name and password, and the length passed on is its length. |
| `Server.StartServer` | server/main.c:193-197 | The server comes up exactly when bootstrap and load succeed, with that table in memory and an all-zero session. |
| `Server.Connection.ClearSession` | server/main.c:70-77 | The session is all zero. |
| `Server.Connection.HandleAuth` | server/main.c:343-396 | State, status and data of AUTH: a failure keeps the session, a success replaces all of it; no index lies outside the plaintext. |
| `Server.Connection.HandleChange` | server/main.c:404-439 | State and status of CHANGE_PASSWORD for every failure of its three steps. |
| `Server.Connection.HandleCreate` | server/main.c:440-463 | State and status of CREATE_KEYS: a tombstone found in the table is copied into the session. |
| `Server.Connection.HandleSign` | server/main.c:464-487 | Status and signature of SIGN_DOC; nothing changes. |
| `Server.Connection.HandleLookup` | server/main.c:488-519 | Status and PEM of GET_PUBLIC_KEY for a named user or the session's own; nothing changes. |
| `Server.Connection.HandleDelete` | server/main.c:520-535 | State and status of DELETE_KEYS; the session follows a deletion that reports success. |
| `Server.Connection.HandleRequest` | server/main.c:337-544 | State, status and data of every decrypted plaintext, for every failure below. |
| `Answers.RefusedWithoutLogin` | server/main.c:337-339 | Without a login everything but AUTH and lookups of a named user is an authentication error and changes nothing. |
| `Answers.RefusedWhenDeleted` | server/main.c:339-342 | A deleted session is refused with the tombstone status. |
| `Answers.RefusedUntilChanged` | server/main.c:397-401 | A session with a pending change may change its password, log in or log out, and nothing else. |
| `Answers.RefusedWithoutKey` | server/main.c:408-411 | A session whose key could not be derived can use no key operation. |
| `Answers.BadRequests` | server/main.c:343-544 | Malformed requests, documents over 65535 bytes and unknown opcodes are bad requests and change nothing. |
| `Answers.OtherRefusals` | server/main.c:371-544 | A failed login, a lookup without result and a logout answer with their own statuses. |
| `Answers.InternalErrors` | server/main.c:428-534 | In a session that may, what else goes wrong is an internal error; a tombstone found in the table is reported and copied into the session. |
| `Answers.LoginAnswer` | server/main.c:371-394 | A granted login answers two bytes, nonzero exactly when the record must change its password and is deleted, and the session holds the same flags. |
| `Answers.LoginKeyExactly` | server/storage.c:210-235 | The session has its key if and only if the derivation works and the name has 1 to 243 bytes and no slash; the key is hashed with "dss-session:" and the name. |
| `Answers.CreateSucceedsExactly` | server/storage.c:410-520 | CREATE_KEYS succeeds if and only if the session may, the record lives, the name is proper, and the pair exists or no call fails. |
| `Answers.CreateStoresPair` | server/storage.c:458-507 | A new pair is the two halves of one generated key, the private half wrapped under the session's key. |
| `Answers.SignSucceedsExactly` | server/main.c:464-487 | SIGN_DOC succeeds if and only if the session may, the document has at most 65535 bytes and the stored key opens and signs; the answer is that signature of the document. |
| `Answers.DeleteSucceedsExactly` | server/storage.c:699-738 | DELETE_KEYS succeeds if and only if the session may, the tombstone is written and no unlink fails. |
| `Answers.DeleteRemoves` | server/storage.c:722-737 | After a success both key files are gone and the session is deleted. |
| `Answers.ChangeSucceedsExactlyWith` | server/main.c:404-439 | CHANGE_PASSWORD succeeds if and only if the session has its key, the request is well formed, the new key is derived, a readable stored key opens and is re-wrapped, and the record is hashed and written. |
| `Answers.BootWithTable` | server/main.c:193-197 | A server with a table comes up if and only if the table can be read and is accepted; no file changes. |
| `Answers.FirstBoot` | server/auth.c:338-472 | A server without a table comes up if and only if there is a seed that parses to good names. |
| `Answers.CreationGranted` | server/main.c:440-463 | In every run without failing calls, a session with its key and neither a pending change nor a tombstone gets OK from CREATE_KEYS, and then has a coherent pair. |
| `Answers.DeletionGranted` | server/main.c:520-535 | In the same sessions DELETE_KEYS answers OK and leaves the tombstone and no key file. |
| `Answers.ChangeGranted` | server/main.c:404-439 | In every such run a live session with its key can change its password, which lifts a pending change. |
| `Service.ServeRequest` | server/main.c:269-563 | One turn of the loop from frame to frame; a nonce already in the replay window is served like any other, and a response over 65535 bytes closes the connection. |
| `Service.ServeConnection` | server/main.c:269-563 | On an unbroken socket the loop's effect is that of the decoded frames in order, however the bytes were split. |
| `Service.TurnAnswers` | server/main.c:302-554 | A request is answered under the outgoing key with its own nonce and the status and data of its handling, unless these exceed 65535 bytes. |
| `Service.TurnsAreRun` | server/main.c:269-563 | Serving a byte stream is the run of the requests its frames open to, so the theorems about runs hold for frames on the wire. |
| `Outcomes.LoginExactly` | server/main.c:343-396 | AUTH succeeds if and only if a well-formed request names a record that accepts its password; a failure changes nothing. |
| `Outcomes.ChangeGovernsLogins` | server/main.c:404-439 | After a successful password change exactly the new password logs in, up to hash collisions, in this process and in any started later on its files. |
| `Outcomes.CreateIsIdempotent` | server/storage.c:448-450 | A successful CREATE_KEYS can be repeated under any failures: it succeeds and changes nothing. |
| `Outcomes.FailedCreateLeavesNothing` | server/storage.c:458-520 | A failed CREATE_KEYS that can clean up leaves no half of a pair. |
| `Outcomes.LookupExactly` | server/main.c:488-519 | GET_PUBLIC_KEY returns bytes if and only if they are the stored public key of the named user, or of the session's user; a session with a pending password change is refused. |
| `Outcomes.CreatedKeysAreFound` | client/main.c:657-703 | Keys just created are what anybody's `getpub` for that user returns. |
| `Agreement.HandleSession` | server/main.c:337-544 | Only a successful AUTH or LOGOUT changes whom the session belongs to. |
| `Agreement.HandleStep` | server/main.c:337-544 | A request leaves the table alone, stores a patched table, or is a password change whose write failed. |
| `Agreement.HandleKeeps` | server/main.c:337-544 | Every request keeps table well-formedness, the agreement of disk and memory and the session invariant, and breaks full agreement only by a failed password write. |
| `Agreement.BootKeeps` | server/main.c:193-197 | A server that comes up agrees with its table file in every field. |
| `Agreement.RunKeeps` | server/main.c:193-563 | The invariants hold after every run. |
| `Agreement.MemoryMatchesDisk` | server/auth.c:562-715 | In every reachable state memory and disk agree on names and tombstones, and in everything unless a password change failed to write and no request has written the table since. |
| `Agreement.SessionIsLastLogin` | server/main.c:337-544 | The session's user is the last one to log in, judged from requests and replies alone. |
| `Agreement.GrantedMeansAllowed` | server/main.c:337-487 | CREATE_KEYS and SIGN_DOC succeed only for an authenticated user whose record has no pending change and no tombstone. |
| `Agreement.AuthorisationHistory` | server/main.c:337-544 | Every success of CREATE_KEYS or SIGN_DOC in any run follows a successful AUTH of the same user with no later login, logout or disconnection, and the record allows it at that moment. |
| `Tombstones.HandleKeepsTombstone` | server/main.c:337-544 | No request removes a tombstone from memory or from disk. |
| `Tombstones.TombstoneRefuses` | server/storage.c:434-442 | CREATE_KEYS and SIGN_DOC fail for a tombstoned user whatever the session says. |
| `Tombstones.RunKeepsTombstone` | server/main.c:193-563 | A tombstone lasts through every run without a re-registration of that user. |
| `Tombstones.TombstonePermanence` | server/storage.c:571-580 | From a tombstone on disk, no CREATE_KEYS or SIGN_DOC of that user succeeds in any session or after any restart until the tool re-registers the user, whatever fails. |
| `Tombstones.DeletionTombstones` | server/storage.c:713-738 | Once the tombstone is written it is in memory and on disk, even if unlinking a key file then fails. |
| `Tombstones.DeletionNeedsTombstone` | server/storage.c:699-738 | A deletion that reports success, or merely changes a key file, has written its tombstone. |
| `Tombstones.DeletionIsPermanent` | server/main.c:520-535 | In any run, after a DELETE_KEYS that wrote its tombstone, whatever it answered, no CREATE_KEYS or SIGN_DOC of that user succeeds in any session or after any restart without a re-registration in between. |
| `Coherence.ChangeCoherent` | server/main.c:404-439 | A password change without failing calls keeps blobs, records and session key coherent, and the pair the same pair. |
| `Coherence.CreateCoherent` | server/storage.c:410-520 | Key creation keeps coherence and does not touch an existing pair. |
| `Coherence.DeleteCoherent` | server/storage.c:699-738 | Deletion keeps coherence and removes both files exactly when it reports success. |
| `Coherence.RegisterCoherent` | tools/account_provision.c:336-389 | A registration, failing or not, keeps every stored key coherent with its record. |
| `Coherence.RunCoherent` | server/main.c:193-563 | Coherence holds after every run whose requests meet no failing call. |
| `Coherence.WrapKeyCoherence` | server/storage.c:374-408 | From no private keys, in every such run each stored blob opens under the key of every password its owner's record accepts, and a logged-in user's session key is that key. |
| `Coherence.SignaturesVerify` | server/storage.c:541-659 | Every signature handed out anywhere in such a run verifies, for the document sent, under the public key then stored for the session's user. |
| `Coherence.SignaturesStayValid` | server/storage.c:620-658 | It keeps verifying under the stored public key for the rest of the run, until that user deletes the pair. |
| `Coherence.SigningAlwaysSucceeds` | server/main.c:464-487 | In every such run a user with keys and no pending change can log in and have any document of at most 65535 bytes signed, and the signature verifies. |
| `Coherence.OpenSessionSigns` | server/main.c:464-487 | In every such run a session already open, with keys and no pending change, has any document of at most 65535 bytes signed, and the signature verifies. |
| `Coherence.KeyPairStability` | server/storage.c:448-507 | A pair stays the same pair through key creation, password changes, restarts and registrations until its user deletes it. |
| `Faults.ChangeSucceedsExactly` | server/storage.c:740-791 | Without failing calls a password change succeeds if and only if there is no private key file or it opens under the session key. |
| `Faults.StaleBlobLocksAccount` | server/main.c:397-439 | In a session with a pending change whose stored private key does not open under its key, every request but AUTH and LOGOUT fails and changes nothing while that file can be read. |
| `Faults.ChangeKeepsKeyExactly` | server/main.c:428-435 | With any failures of derivation, re-wrapping, hashing and writing, a password change keeps the stored key coherent with the record in memory if and only if they are of the listed harmless kinds. |
| `Faults.ChangeKeepsKeyOnDiskExactly` | server/auth.c:647-669 | The same for the record on disk: a table write that fails after the re-wrapping loses the key at the next restart. |
| `Faults.KeyCanBeLost` | server/main.c:428-435 | A concrete coherent state and request in which one failing table write leaves the record on disk without the key it had. |
| `Lockout.FailedUnlinkSticks` | server/storage.c:722-731 | From every coherent state, a deletion whose tombstone is written but whose unlinks fail, followed by a re-registration under a password the old file does not open for, leaves a stuck account. |
| `Lockout.LockedOutForGood` | server/main.c:397-439 | A stuck account stays so in every run that can read the old file: no request of its user but AUTH and LOGOUT ever succeeds or changes anything. |
| `Lockout.StuckLogin` | server/main.c:364-390 | The stuck user can still log in and is told to change the password. |
| `Lockout.ExampleLockedOut` | server/storage.c:699-738 | A concrete run of deletion, re-registration, restart and login that ends there. |
| `Replay.ReplayCache.Init` | common/replay.c:7-35 | The default of 1024 slots, the overflow check, and an empty window on success. |
| `Replay.ReplayCache.Scan` | common/replay.c:60-66 | The loop over the used slots finds exactly the nonces of the window. |
| `Replay.ReplayCache.CheckAndAdd` | common/replay.c:50-78 | 0 for a nonce in the window, with nothing changed; 1 otherwise, with the nonce appended and only the oldest dropped when full. |
| `Replay.RingAdvances` | common/replay.c:68-75 | Overwriting one slot and moving the head pushes the nonce into the window in order. |
| `Replay.WindowIsLatestAccepted` | common/replay.c:50-78 | The ring always represents the last accepted nonces in order, as many as fit. |
| `Replay.AcceptedDistinctInWindow` | common/replay.c:50-78 | Any capacity + 1 consecutively accepted nonces are pairwise distinct. |
| `Replay.ExactUntilFull` | common/replay.c:50-78 | Until more nonces than fit were accepted, a nonce is refused if and only if it was offered before. |
| `Replay.OldNonceForgotten` | common/replay.c:68-75 | Beyond that an old nonce is accepted again: a concrete run. |
| `Net.UnbrokenMovesAll` | common/net.c:11-79 | Without failed calls the outcome of a transfer depends on byte counts alone, whatever the short transfers and interruptions. |
| `Net.TransferSucceedsExactly` | common/net.c:11-79 | A transfer succeeds if and only if there is enough to move and none of the calls it used failed or moved nothing; interruptions are retried. |
| `Net.Socket.SendAll` | common/net.c:11-44 | Success has appended the whole buffer in order, failure a proper prefix, for every schedule of partial sends. |
| `Net.Socket.RecvAll` | common/net.c:46-79 | Success has taken exactly the wanted bytes in order, for every schedule of partial receives. |
| `Packet.BuildAad` | common/dsspacket.c:20-37 | The associated data is the nonce and the stored length field from its most significant byte. |
| `Packet.AadInjective` | common/dsspacket.c:20-37 | Different headers never share associated data. |
| `Packet.AadByteOrder` | common/dsspacket.c:26-33 | The length in the associated data is in network order, and two hosts agree on it, if and only if the host is big-endian, or the hosts alike, or the length reads the same backwards. |
| `Packet.DecodeExactly` | common/dsspacket.c:81-137 | A frame is received from a byte stream if and only if its encoding begins the stream, and nothing more is consumed. |
| `Packet.FrameLayout` | common/dsspacket.c:39-79 | A frame is the length of header and payload, the nonce, the length of the payload and the payload, lengths in network order, for payloads up to 10 MiB. |
| `Packet.StreamRoundTrip` | common/dsspacket.c:39-137 | Any list of frames with payloads up to 10 MiB is received as sent, with nothing left over. |
| `Packet.StreamOnto` | common/dsspacket.c:81-137 | A stream received as frames is exactly the encoding of those frames. |
| `Packet.Send` | common/dsspacket.c:39-79 | Success has sent the encoding, failure a prefix, too long a payload nothing; splits do not matter. |
| `Packet.Recv` | common/dsspacket.c:81-137 | On an unbroken socket the frame or the return code is that of decoding the stream, whatever the splits. |
| `Packet.RefusalsExactly` | common/dsspacket.c:94-131 | Exactly which streams are refused as too long, as inconsistent, and as ending early. |
| `Handshake.DecodeExactly` | common/handshake.c:46-87 | A handshake frame is accepted if and only if its encoding begins the stream. |
| `Handshake.SendFrame` | common/handshake.c:23-44 | Success has sent the encoding of a payload of at most 32-bit length. |
| `Handshake.RecvFrame` | common/handshake.c:46-87 | The result is the payload of a frame of the expected type at the head of the stream. |
| `Handshake.ShloExactly` | common/handshake.c:225-298 | A server hello is accepted if and only if it encodes a public key and a signature, and as that pair. |
| `Handshake.ShloRoundTrip` | common/handshake.c:181-298 | What `hs_send_shlo` sends is what `hs_recv_shlo` returns, whenever the total fits 32 bits. |
| `Handshake.FillShlo` | common/handshake.c:199-218 | The buffer filled behind a moving offset is the encoding of the pair. |
| `Handshake.SendShlo` | common/handshake.c:181-223 | Success has sent the encoded pair; it fails on an unbroken socket exactly when the total exceeds 32 bits. |
| `Handshake.RecvShlo` | common/handshake.c:225-298 | The pair is returned exactly when the stream holds a well-formed server hello. |
| `Handshake.ServerHandshake` | server/main.c:219-256 | The server's keys and hello follow from the client's bytes. |
| `Handshake.ClientFinish` | client/main.c:359-421 | The client derives keys exactly when the server's signature over both public keys verifies. |
| `Handshake.HonestHandshake` | common/handshake.c:300-341 | An honest handshake completes on both sides with the same two directional keys. |
| `Handshake.ClientSideExactly` | client/main.c:387-411 | The client ends with keys if and only if the stream begins with a hello of a nonempty key whose signature over both public keys verifies and whose agreement succeeds; an unsigned hello gives none. |
| `Handshake.ServerSideExactly` | server/main.c:219-256 | The server ends with keys if and only if a usable client key heads the stream; its hello signs the client's key followed by its own. |
| `Handshake.KeysSeparated` | common/handshake.c:300-341 | The two directions never share a key, and both keys change with the hash of the transcript. |
| `Handshake.WireLayout` | common/handshake.c:32-44 | Type, length in network order and payload; a server hello is two length-prefixed strings. |
| `Handshake.SimpleIsIdeal` | common/handshake.c:415-588 | The properties assumed of key agreement, signature and key derivation have a model. |
| `Channel.FrameOpens` | client/main.c:230-282 | A sealed frame opens under its key, header and all, to the plaintext. |
| `Channel.SealedLayout` | client/main.c:264-272 | A payload is IV, tag and ciphertext of the plaintext sealed with the header as associated data. |
| `Channel.StatusCodesDistinct` | client/main.c:24-44 | No two statuses share a code. |
| `Channel.ResponseParses` | server/main.c:98-132 | The client reads back status and data of every response the server builds. |
| `Channel.ResponseLayout` | server/main.c:125-132 | A response is opcode, 16-bit status, 32-bit length and data in network order, with the status codes of the protocol. |
| `Channel.ResponseExactly` | client/main.c:324-342 | A decrypted response is accepted if and only if it is well formed for the opcode that was sent. |
| `Channel.SendSealed` | server/main.c:79-150 | The buffer assembled from IV, tag and ciphertext is the sealed frame, and it is refused before sending exactly when too long. |
| `Channel.SendRequest` | client/main.c:230-281 | Success has sent the sealed request; a request that does not fit a frame is refused before anything is sent. |
| `Channel.RecvSealed` | client/main.c:283-322 | A plaintext is returned exactly for an authentic frame at the head of the stream. |
| `Channel.OpenPayload` | server/main.c:302-326 | Slicing a payload at fixed offsets opens it exactly as the frame it came in. |
| `Channel.Exchange` | client/main.c:188-357 | One request and its response: the result is the status and data of a frame that echoes the opcode, whatever its nonce. |
| `Channel.EndToEnd` | client/main.c:188-357 | For every request that fits a frame and every response of at most 65535 bytes, each side decodes exactly what the other encoded, leaving the rest of the stream. |
| `Client.CommandLine.Prepare` | client/main.c:466-756 | Which commands are refused locally, and the exact plaintext of the others. |
| `Client.CommandLine.Accept` | client/main.c:521-755 | What the client records from each response. |
| `Commands.CommandBytes` | client/main.c:466-756 | The request of every command, byte by byte, opcode included. |
| `Commands.RefusedLocally` | client/main.c:479-669 | Exactly which commands the client refuses without sending anything. |
| `Commands.LoginCommand` | client/main.c:470-536 | A login with an accepted password leaves the client with exactly the record's flags and name; any other changes nothing. |
| `Commands.ChangeCommand` | client/main.c:537-586 | In a live session `changepw` lifts the pending change on both sides and the record accepts the new password. |
| `Commands.CreateCommand` | client/main.c:587-611 | `createkeys` in a session that may leaves a coherent pair. |
| `Commands.SignCommand` | client/main.c:612-656 | `signdoc` answers a signature of that document which verifies under the stored public key. |
| `Commands.GetPublicCommand` | client/main.c:657-703 | `getpub` answers the stored public key of the user asked for, or of the user logged in, and says when there is none. |
| `Commands.DeleteCommand` | client/main.c:704-729 | `deletekeys` leaves the tombstone and no key file, and the client knows. |
| `Commands.LogoutCommand` | client/main.c:730-756 | `logout` forgets everything on both sides. |
| `Commands.RegisterThenLogin` | tools/account_provision.c:336-389 | After a registration the next server accepts exactly the registered password, up to hash collisions, and demands its change. |
| `Client.SessionEffect` | server/main.c:337-544 | What a request does to the session follows from its opcode and status, and on AUTH from the data returned. |
| `Client.PerformIsDirect` | client/main.c:188-357 | Carrying a command through framing, encryption and decoding both ways is handling it directly. |
| `Client.MirrorFollowsSession` | client/main.c:521-755 | In every lock-step run the client's login state, user name and pending-change flag are the session's, and a client that believes the keys deleted is right. |
| `Client.PerformAllIsRun` | client/main.c:466-756 | Commands carried out over the channel are the run of the requests they send, so the theorems about runs hold for them. |

## Left out

- The OpenSSL calls themselves, key generation, PEM and DER parsing, SHA-256 and HKDF: functions with ideal properties; GCM inputs over INT_MAX fail as in the wrapper.
- Memory exhaustion, freeing and wiping of buffers, null checks: allocation succeeds, except the one in the bootstrap that can delete a table.
- `auth_change_password`, `ks_create_keys` and `ks_sign_doc`, the variants that take a password and that the server does not call.
- Failures of the random generator and of encryption in the channel code: drawing nonces and IVs and sealing a frame succeed.
- `replay_free`, logging, prompts, terminal echo, command splitting and status texts.
- Connecting, listening and accepting: one connection per server process, as in the program.
- Path limits and the names `.` and `..`: key files are addressed by user name, and names with a slash are refused.
- The growable user arrays are sequences, so capacity doubling is not modelled; `fgets`, `strtok` and `strtol` are functions proved against the loops that call them.
- An empty directory left behind by a deletion is not a file of the model, so only the result of its removal is.
- The tool and the server running at the same time: the programs have no coordination to reason about.
- Version-1 private blobs: nothing in the repository writes them; `Keystore.DeriveSessionKey` keeps the branch that reads them.
- A response over 65535 bytes stops the server: `Service` and `Client` model it, while `Runs` lets the run go on or stop, so its theorems cover both.
- A claim that no request is processed twice, and matching of responses by nonce: the programs do not do this.
- Coherence.WrapKeyCoherence: assumes that no call fails inside a request, because a failing one can lose a key; Faults states which failures do.
- Provision.RegisterExact: assumes that no call of the tool fails; Provision.RefusalKeepsTable covers the other case.
- Lockout.LockedOutForGood: assumes that the old key file can be read whenever it is re-wrapped, because the program takes an unreadable file for an absent one.
- Faults.ChangeKeepsKeyExactly: assumes that the new key does not open the old file, nor the old key the new or a torn file, which authenticated encryption gives only with overwhelming probability.
- Faults.ChangeKeepsKeyOnDiskExactly: assumes the same.
- Agreement.MemoryMatchesDisk: starts from a stopped server, since a table is only in memory after a start.
