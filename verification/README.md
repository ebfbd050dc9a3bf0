# SNMP Monitor: a verified model

SNMP Monitor watches switches, routers, printers and LAN clients. This project models the parts of its
backend that keep state whose correctness no single branch shows, and proves what those parts promise.

- **User administration** (`Users`, `UserAdministration`, `AdminProtocol`, `AdminSafety`, `AdminRaces`,
  `AdminLocks`, `AdminAudit`, `AdminCommits`). Concurrent role and status requests are small steps under
  PostgreSQL's Read Committed isolation (section 13.2.1 of the PostgreSQL manual): a stale snapshot of the active
  administrators, one row lock at a time in id order, a re-test after each lock, a locking re-read of the
  target, the write with its audit row, and locks that last until the request ends. The routes themselves
  are methods over the table and the log they update.
- **Network-client identity** (`ClientTable`, `ClientSession`, `ClientBatch`, `ClientFlush`, `ClientMoves`,
  `ClientStore`). Two layers:
  the flushed table, and a session with pending changes that lookups do not see, because production
  sessions are created with autoflush off.
- **The switch snapshot** (`Walks`, `SwitchPorts`, `SwitchSnapshot`, `MacFormat`). The hash join over the
  interface, bridge-port, FDB, ARP and PVID tables (dot1dBasePortIfIndex and dot1dTpFdbPort of the
  Definitions section of RFC 4188, dot1qPvid of RFC 4363) against a relational definition, and the MAC
  spellings it rests on.
- **Polling, history and port labels** (`PortLabels`, `DeviceHistory`, `PollPass`).
- **Sign-in and addresses** (`LoginLimiter`, `SignIn`, `Bits`, `Cidr`). The pruned limiter against the
  whole history, tokens bound to a password hash, and CIDR membership by mask against range.

## Where the code falls short of its promise

The repository's README says that the system keeps the last active administrator (lines 112-113). The two
PUT routes do, in every interleaving. PATCH skips the check when its first statement kept no row
(`backend/app/routes/admin.py:113`), and a request whose snapshot was demoted while it waited gets such an
empty list: `AdminRaces.UncheckedPatchLeavesNoAdmin` gives the run for every such PATCH, and
`AdminSafety.FinishKeepsAdminIff` the exact condition under which a commit keeps an administrator.

The client table is meant to be one-to-one. With autoflush off that holds only for batches whose items do
not meet: `ClientBatch.SwapLosesAClient` (two known clients that swapped addresses) and
`ClientBatch.NewMacTwiceIsDuplicated` (one unknown MAC at two addresses) are batches that commit something
else than the flushed table. `ClientMoves.ExactForDistinctItems` is the exact condition for batches in which
no two items share an address or a MAC, `ClientBatch.ExactForUnknownClients` for clients the table does not
know.

The README also says that a password change revokes earlier tokens at once (lines 113-114). It does for every
token already issued (`SignIn.WriteRejectsForGood`), but a login that is past its password check when the
change commits gets a token for the new hash, or writes its rehash of the old password over the change
(`SignIn.LateTokenOutlivesReset`, `SignIn.RehashUndoesReset`). `SignIn.IssuedForVerifiedExactly` and
`SignIn.PasswordIsLastWrite` are the exact conditions.

Allowing every address of a network does not allow the network: `Cidr.HalvesRefuseTheWhole` shows it for
every network with more than one address, `Cidr.GapExactly` says exactly when it happens.

## Model

| member | source | states |
|---|---|---|
| `Users.ActiveAdmins` | backend/app/routes/admin.py:22-29 | the active administrators in strictly ascending id order, all of them and nobody else |
| `Users.KeptBound` | backend/app/routes/admin.py:22-29 | a list of distinct active administrators is never longer than the full list, so a partial list can only make the check stricter |
| `Users.RefusedExactlyForSoleAdmin` | backend/app/routes/admin.py:40-58 | run alone, a request is refused as "last administrator" if and only if it takes that status from the one active administrator, who is not the actor |
| `Users.AloneKeepsAdmin` | backend/app/routes/admin.py:94-211 | run alone, no PATCH or PUT removes the last active administrator, PATCH without locks included |
| `Users.HarmlessWrite` | backend/app/routes/admin.py:133-150 | a write that does not remove administrator status leaves an active administrator, however few rows the first statement kept |
| `Users.RoleAnswer` | backend/app/routes/admin.py:171-184 | PUT role: not found, own account and last administrator exactly when; a granted request sets the role, leaves every other field, and records old and new role |
| `Users.StatusAnswer` | backend/app/routes/admin.py:187-211 | PUT status: the same for the status; only a deactivation is refused on the own account |
| `Users.PatchAnswer` | backend/app/routes/admin.py:94-160 | PATCH: each answer exactly when, in the order of the checks; a granted request sets every field of the body, leaves the others, and records the role and status transitions |
| `Users.WriteKeepsNames` | backend/app/routes/admin.py:120-131 | no route writes a username, or an email that is not null, of another user |
| `Users.UnlockedWritesNoStatus` | backend/app/routes/admin.py:101-106 | a request that takes no lock can write neither a role nor a status |
| `UserAdministration.UserTable.constructor` | backend/app/bootstrap_admin.py:28-40 | the first account is made an active administrator, whatever name, email and hash it is given |
| `UserAdministration.UserTable.LockUserManagementRows` | backend/app/routes/admin.py:20-37 | the target row if there is one, and exactly the active administrators, ascending |
| `UserAdministration.ActiveAdminRemains` | backend/app/routes/admin.py:40-58 | refuses exactly when the target is an active administrator, would stop being one, and the list has at most one row |
| `UserAdministration.UserTable.CreateUser` | backend/app/routes/admin.py:66-91 | refused, with nothing changed, exactly on a taken name or email; otherwise one new id, every other row and administrator kept, one audit row; names stay unique |
| `UserAdministration.UserTable.UpdateUserRole` | backend/app/routes/admin.py:171-184 | each answer exactly when, without reference to the decision function; a granted request changes the target's role and nothing else; an active administrator remains |
| `UserAdministration.UserTable.UpdateUserStatus` | backend/app/routes/admin.py:187-211 | the same for activation and deactivation: a granted request leaves the requested status |
| `UserAdministration.UserTable.UpdateUser` | backend/app/routes/admin.py:94-168 | the same for PATCH, field by field, with and without locks; names stay unique |
| `UserAdministration.DecidePatch` | backend/app/routes/admin.py:109-160 | the order of PATCH's answers: own account, last administrator (only with a non-empty list), duplicate, nothing changed, granted |
| `UserAdministration.SetChangedFields` | backend/app/routes/admin.py:133-150 | the row takes every field of the body, a change is noticed exactly when the row differs or a password is set, and the recorded transitions are those of the row |
| `AdminProtocol.LockNextInv` | backend/app/routes/admin.py:22-29 | locking and re-testing one row keeps the invariant: every kept row is locked by the request, still an active administrator, and in id order; a row that fails the re-test stays locked |
| `AdminProtocol.LockTargetInv` | backend/app/routes/admin.py:30-37 | locking the target keeps the invariant: the request then holds its whole snapshot and the target, and nothing else |
| `AdminProtocol.FinishInv` | backend/app/routes/admin.py:178-184 | a commit keeps the invariant: the administrators other requests have kept are still active, and the request holds nothing any more |
| `AdminProtocol.RunInv` | backend/app/routes/admin.py:20-37 | the protocol invariant holds after every run of any number of requests, insertions, rehashes and aborts |
| `AdminSafety.CommitIsSerial` | backend/app/routes/admin.py:20-58 | what a concurrent request commits is what it would commit alone at that moment, unless it is a PATCH that skipped the check |
| `AdminSafety.FinishKeepsAdminIff` | backend/app/routes/admin.py:107-131 | a commit loses the last active administrator if and only if a PATCH whose first statement kept no row removes the sole one, who is not the actor, without a duplicate name or email |
| `AdminSafety.UncheckedVerdict` | backend/app/routes/admin.py:107-131 | such a PATCH is granted exactly when it is for another account and meets no duplicate |
| `AdminSafety.AlwaysAnActiveAdmin` | backend/app/routes/admin.py:20-58 | in every interleaving an active administrator remains after every commit, as long as no PATCH removes one with an empty list |
| `AdminSafety.TableKeepsAdmin` | backend/app/routes/admin.py:20-58 | the same from any table with nothing under way |
| `AdminSafety.PutRoutesAreGuarded` | backend/app/routes/admin.py:171-211 | runs whose role and status changes go through the PUT routes meet that condition without any further hypothesis |
| `AdminSafety.QuietKeepsAll` | backend/app/routes/admin.py:20-37 | while no committed row changes, the first statement keeps every active administrator and the second finds the target exactly when it exists |
| `AdminSafety.QuietLockingIsSerial` | backend/app/routes/admin.py:101-119 | a lock step with no commit in between leaves PATCH a non-empty list, and the verdict, a missing target included, is that of the request run alone |
| `AdminRaces.RunAlone` | backend/app/routes/admin.py:171-211 | with no row locked a role or status request can run to its end, and ends with the serial verdict, row, audit row and no lock |
| `AdminRaces.UncheckedPatchLeavesNoAdmin` | backend/app/routes/admin.py:113 | for every PATCH that removes administrator status and meets no duplicate name or email there is a run from one active administrator to none |
| `AdminRaces.DeadlockReachable` | backend/app/routes/admin.py:30-36 | the target is locked out of id order: with differing snapshots two requests can wait for each other |
| `AdminLocks.OneHolder` | backend/app/routes/admin.py:22-29 | when all requests in flight took the same non-empty snapshot, at most one of them holds any lock |
| `AdminLocks.SameSnapshotNoCycle` | backend/app/routes/admin.py:20-37 | and then no list of requests waits in a circle, whatever the targets are |
| `AdminLocks.SameSnapshotProgress` | backend/app/routes/admin.py:20-37 | and some request in flight can take its next step |
| `AdminLocks.OrderedTargetsNoCycle` | backend/app/routes/admin.py:20-37 | with any snapshots nobody waits in a circle when each target is in its own snapshot or above it |
| `AdminAudit.StepTold` | backend/app/routes/admin.py:15-17 | every step, commit or not, leaves each user's audit trail in agreement with the row |
| `AdminAudit.AuditTellsHistory` | backend/app/routes/admin.py:140-160 | over every interleaving the committed role transitions of each user chain from the role at creation to the present role, likewise the status transitions |
| `AdminAudit.TableTellsHistory` | backend/app/routes/admin.py:140-160 | from any table with nothing under way, each of its users' audit trail chains from the role and status there to the present ones |
| `Chains.ChainExactly` | backend/app/routes/admin.py:140-147 | what a chain is: it starts and ends where it should and each entry begins where the one before it ended |
| `AdminAudit.NoSilentChange` | backend/app/routes/admin.py:179-182 | a step that changes a role or a status commits exactly one row, with the old and the new value |
| `AdminAudit.RefusedLeavesNoTrace` | backend/app/routes/admin.py:107-119 | a refused, unchanged or aborted request leaves users and log as they were, its locks released and nobody else's touched |
| `AdminCommits.CommitWritesRequest` | backend/app/routes/admin.py:133-211 | a granted commit, in any interleaving, writes the target alone: the requested values and no other field, with the matching audit row |
| `AdminCommits.NamesStayUnique` | backend/app/models.py:35-36 | over every run no two users share a username, or an email that is not null |
| `AdminCommits.OnlyAdminsAct` | backend/app/routes/admin.py:98 | over every run, whoever the log records as having changed a user was an active administrator at some moment of the run |
| `ClientTable.IdByIp` | backend/app/routes/clients.py:30 | the row with the address, or proof that there is none |
| `ClientTable.IdByMac` | backend/app/routes/clients.py:31 | the row with the MAC; none for an observation without one |
| `ClientTable.ObserveResolves` | backend/app/routes/clients.py:28-51 | the observed address ends on a row with the observed MAC; a row found by MAC keeps its id; only the stale holder of the address disappears; a merge leaves the earlier first_seen; addresses and MACs stay unique |
| `ClientTable.ObserveAllValid` | backend/app/models.py:82-83 | over every batch no two rows share an address or a MAC, although the database enforces only the former |
| `ClientTable.FirstSeenNeverIncreases` | backend/app/routes/clients.py:38-42 | a surviving row's first_seen never increases, over any batch |
| `ClientTable.GoneForGood` | backend/app/routes/clients.py:43-45 | the id of a merged-away row never comes back |
| `ClientTable.ClosedForm` | backend/app/routes/clients.py:66-74 | with all MACs present, a batch turns the address relation into the old pairs it does not touch and the observed pairs not displaced later |
| `ClientTable.Idempotent` | backend/app/routes/clients.py:66-74 | so applying a batch twice changes no address the second time |
| `ClientTable.NotIdempotentWithoutMacs` | backend/app/routes/clients.py:31 | an observation without a MAC breaks the law, for any two addresses |
| `ClientSession.FlushReaches` | backend/app/routes/clients.py:43-44 | a session whose pending changes cross no other row's address flushes to its own view of the table, in any mix of statements, less the merged row |
| `ClientSession.ResolveFollows` | backend/app/routes/clients.py:28-51 | when the lookups are not misled, one item does to the session what it does to the flushed table |
| `ClientSession.AutoflushRefines` | backend/tests/test_backend_integrity.py:18-21 | with a session that flushes before each query, as the tests use, every batch commits the flushed result |
| `ClientFlush.UpdatesExactly` | backend/app/models.py:82 | the updates of a flush go through exactly when each changed row finds its new address free at that moment |
| `ClientFlush.InsertsExactly` | backend/app/models.py:82 | the insertions go through exactly when no address is taken, by a row or by another addition |
| `ClientFlush.FlushExactly` | backend/app/routes/clients.py:43-44 | a flush is accepted exactly when both hold |
| `ClientFlush.FlushHolds` | backend/app/routes/clients.py:43-44 | and then holds each remaining row as the session has it and the additions under the next ids |
| `ClientFlush.BatchKeepsAddresses` | backend/app/models.py:82 | every committed batch, of any items and with or without autoflush, leaves no address on two rows |
| `ClientFlush.UnknownAcceptedExactly` | backend/app/routes/clients.py:66-75 | for clients the table does not know a production batch is accepted if and only if no address comes twice |
| `ClientFlush.TwoClientsOneAddressRejected` | backend/app/routes/clients.py:66-75 | two known clients seen at one new address: the production batch is rejected |
| `ClientStore.ClientDatabase.EmitUpdates` | backend/app/routes/clients.py:43-44 | the updates in id order; fails exactly when a changed row's new address is taken at that moment |
| `ClientStore.ClientDatabase.EmitInserts` | backend/app/routes/clients.py:43-44 | the insertions in the order of the additions; fails exactly when an address is taken, by a row or by another addition |
| `ClientBatch.DisjointBatchRefines` | backend/app/database.py:8 | with production sessions a batch of pairwise disjoint footprints commits exactly the table of the flushed run, ids included |
| `ClientBatch.ExactForUnknownClients` | backend/app/routes/clients.py:66-74 | for clients the table does not know, a production batch commits the flushed result if and only if no two items share an address or a MAC |
| `ClientMoves.ExactForDistinctItems` | backend/app/routes/clients.py:28-51 | for every table and every batch in which no two items share an address or a MAC, the production commit is the flushed result if and only if no item asks for an address or a MAC that a known client gave up earlier in the batch and that no merge has flushed since |
| `ClientMoves.MisledDiffers` | backend/app/routes/clients.py:30-31 | an item that asks for such a key takes or deletes the client's row, and nothing later in the batch brings it back to its new address |
| `ClientMoves.FormerAddressIsMisread` | backend/app/routes/clients.py:48-50 | whenever a known client moves and the next item is for its former address, the commit is not the flushed result |
| `ClientBatch.SwapLosesAClient` | backend/app/routes/clients.py:28-51 | any two known clients that swapped addresses: the production batch keeps one row, the flushed table two |
| `ClientBatch.NewMacTwiceIsDuplicated` | backend/app/models.py:83 | any unknown MAC at any two addresses: the production commit leaves two rows with it |
| `ClientStore.ClientDatabase.FlushPending` | backend/app/routes/clients.py:43-44 | emits updates in id order, then insertions, then the deletion; fails exactly when an update or an insertion finds its address taken, and then changes nothing |
| `ClientStore.ClientDatabase.ResolveItem` | backend/app/routes/clients.py:28-51 | the session after one item, with the explicit flush of a merge |
| `ClientStore.ClientDatabase.AgentSync` | backend/app/routes/clients.py:66-75 | all or nothing; unique addresses stay unique whatever the items; the flushed result whenever the session flushes or the footprints are disjoint, and for distinct items exactly when nothing given up is asked for |
| `MacFormat.HexSpelling` | backend/app/snmp_client.py:70-73 | every rendering without dots whose hex digits are those of six octets formats to one string, in both functions |
| `MacFormat.DottedSpelling` | backend/app/snmp_client.py:66-69 | the dotted decimal index of the same octets, leading zeros allowed, formats to that string too |
| `MacFormat.CanonicalInjective` | backend/app/snmp_client.py:66-72 | different octets give different strings |
| `MacFormat.CanonicalReads` | backend/app/snmp_client.py:69-72 | the canonical form has 17 characters: six pairs of lower-case hex digits worth the octets in order, and colons in between |
| `MacFormat.AnyRendering` | backend/app/snmp_client.py:70-72 | twelve hex digits of either case worth the octets, with colons, dashes and spaces anywhere or nowhere, get the canonical form from both functions |
| `MacFormat.PaddingIgnored` | backend/app/snmp_client.py:65 | blanks around a value change nothing, and nothing but blanks is an absent MAC |
| `MacFormat.OthersLowered` | backend/app/snmp_client.py:73 | a value that is neither six octets nor twelve hex digits is stripped and put in lower case |
| `MacFormat.NormalizeExactly` | backend/app/schemas.py:14-20 | a submitted MAC is absent exactly when missing or blank, and otherwise invalid exactly without twelve hex digits |
| `MacFormat.FormatIdempotent` | backend/app/snmp_client.py:63-73 | formatting is idempotent on every ASCII string |
| `MacFormat.FormatAgreesWithNormalize` | backend/app/schemas.py:14-20 | both functions agree on every string that is not a dotted decimal index and has twelve hex digits |
| `MacFormat.DottedIndexAgreesExactly` | backend/app/schemas.py:14-20 | on a dotted index of six two-digit octets the two functions agree if and only if every octet is below ten: normalize_mac reads the digits as hexadecimal |
| `Walks.FirstSeen` | backend/app/snmp_client.py:113-115 | the keys of a dictionary filled from a walk: each key of the walk once |
| `Walks.LastValueExactly` | backend/app/snmp_client.py:162-165 | a dictionary filled from a walk holds a value for a key if and only if the key's last row carries it |
| `Walks.FirstSeenInOrder` | backend/app/snmp_client.py:139 | the keys come in the order of their first rows |
| `SwitchPorts.ReadIndexes` | backend/app/snmp_client.py:113-115 | the index dictionary in order of first appearance, the last ifIndex of each row index, or failure when a row is unreadable |
| `SwitchPorts.FillColumns` | backend/app/snmp_client.py:117-135 | each column fills its own field of the listed rows with its last value, and adds no row |
| `SwitchPorts.GetSwitchPorts` | backend/app/snmp_client.py:105-151 | the dictionaries compute the joined table, or nothing when any row of any column is unreadable |
| `SwitchPorts.PortShows` | backend/app/snmp_client.py:137-148 | what a listed port shows, read off the last row of each column: description, up, down or unknown, Trunk exactly when the alias mentions it in any case, whole megabits of a positive speed |
| `SwitchPorts.DecimalReads` | backend/app/snmp_client.py:135 | the numeral of the speed reads back as the number, without a leading zero |
| `SwitchPorts.PortsAreDistinct` | backend/app/snmp_client.py:137-148 | ports have distinct numbers when no two row indexes carry the same ifIndex, however often a row was read |
| `SwitchSnapshot.GetMacTable` | backend/app/snmp_client.py:154-178 | one entry per FDB row with its formatted MAC and the interface its bridge port maps to last; nothing if a row of either walk is unreadable |
| `SwitchSnapshot.ArpIndexIsAddress` | backend/app/snmp_client.py:76-80 | whatever comes before them, four decimal octets at the end of an index are the address |
| `SwitchSnapshot.OtherIndexUnchanged` | backend/app/snmp_client.py:79-81 | any other index is taken as it is |
| `SwitchSnapshot.GetArpTable` | backend/app/snmp_client.py:181-200 | each address once, with the MAC of its last row |
| `SwitchSnapshot.PvidByIfIndex` | backend/app/snmp_client.py:227-239 | the last PVID row mapped to each interface, among the rows before the first failure |
| `SwitchSnapshot.IpsByMac` | backend/app/snmp_client.py:218-220 | the addresses listed for a MAC are those the ARP entries give it |
| `SwitchSnapshot.MacsByPort` | backend/app/snmp_client.py:222-225 | the MACs listed for an interface are those of the entries mapped to it |
| `SwitchSnapshot.SortedSet` | backend/app/snmp_client.py:242-245 | strictly ascending, with exactly the given strings |
| `SwitchSnapshot.LessExactly` | backend/app/snmp_client.py:242-245 | the order is that of code points: at the first difference, or the shorter string first |
| `SwitchSnapshot.AscendingUnique` | backend/app/snmp_client.py:242-245 | a strictly ascending list of a set is unique, so the relational definition determines `macs` and `ips` |
| `SwitchSnapshot.Enriched` | backend/app/snmp_client.py:241-249 | the hash join agrees with the relational definition for one port |
| `SwitchSnapshot.GetSwitchPortSnapshot` | backend/app/snmp_client.py:203-250 | every listed port, in order: macs the ascending list of formatted FDB MACs of its interface, ips the ascending list of their ARP addresses, mac_count the size of that set, pvid its last PVID row or none |
| `SwitchSnapshot.MacsRead` | backend/app/snmp_client.py:222-225 | a MAC is on a port if and only if an FDB row with it has a bridge port whose last row maps to the port's interface |
| `SwitchSnapshot.IpsRead` | backend/app/snmp_client.py:218-245 | an address is on a port if and only if the last ARP row for it has one of the port's MACs |
| `SwitchSnapshot.PvidRead` | backend/app/snmp_client.py:227-239 | a port's PVID is that of the last row, before a failure, whose bridge port maps to its interface |
| `SwitchSnapshot.FailedWalksShowNothing` | backend/app/snmp_client.py:176-239 | a failed walk contributes nothing: no MACs without bridge ports or FDB, no addresses without the ARP table, no PVID without its bridge ports |
| `SwitchSnapshot.Conservation` | backend/app/snmp_client.py:222-249 | with distinct interfaces and FDB MACs, no MAC and no address is on two ports, and the counts add up to the FDB rows that map to a listed interface |
| `SwitchSnapshot.SnapshotConserves` | backend/app/snmp_client.py:203-250 | the same for a whole snapshot, from the tables a switch answers with |
| `SwitchSnapshot.OctetIndexesAreDistinct` | backend/app/snmp_client.py:171 | distinct six-octet FDB indexes format to distinct MACs |
| `PortLabels.Device.UpdateDevicePorts` | backend/app/crud.py:20-37 | each polled port under the overrides the stored list has for its number |
| `PortLabels.Device.Refresh` | backend/app/routes/devices.py:140-145 | an empty answer changes nothing; another replaces the telemetry under the labels |
| `PortLabels.Device.UpdatePort` | backend/app/routes/devices.py:160-173 | edits the first port with the number and no other; refused exactly when there is none |
| `PortLabels.PollShows` | backend/app/crud.py:24-33 | a non-empty poll keeps the stored list equal to the last poll under the labels of the history |
| `PortLabels.EditShows` | backend/app/routes/devices.py:162-173 | so does an edit, found or not |
| `PortLabels.Play` | backend/app/scheduler.py:75-81 | over any history of polls, empty polls and edits the stored list is the last non-empty poll under the labels |
| `PortLabels.LabelSurvives` | backend/app/crud.py:27-32 | the stored port still shows an edited description, and an edited mode, after any number of polls that list it, empty polls and other edits |
| `PortLabels.OmissionDropsLabel` | backend/app/crud.py:24-33 | after one non-empty poll that omits a port, a later poll that lists it again stores it without overrides and shows the telemetry, whatever labels it had |
| `PortLabels.OverrideIsShown` | backend/app/routes/devices.py:164-169 | a non-null override is what the port shows, over telemetry from the last poll |
| `PortLabels.DuplicateNumberLosesLabel` | backend/app/crud.py:24 | without distinct numbers a label is lost: the edit goes to the first port, the next poll reads the last |
| `DeviceHistory.AgreesAfter` | backend/app/crud.py:42-51 | one more logged status with its event on a change, or nothing logged, keeps a device's history consistent |
| `DeviceHistory.StatusesRead` | backend/app/crud.py:45 | the logged statuses of a device are those of its rows, in order |
| `DeviceHistory.CreateKeepsHistory` | backend/app/crud.py:13-18 | a row inserted with any status starts a consistent history and disturbs none |
| `DeviceHistory.AddExactly` | backend/app/routes/admin.py:214-227 | a device is refused for an address some device has, and otherwise inserted with status unknown |
| `DeviceHistory.DiscoveryKeepsHistory` | backend/app/routes/discovery.py:46-60 | so do the online devices a discovery scan adds in one commit |
| `DeviceHistory.DiscoveryAddsOnline` | backend/app/routes/discovery.py:46-60 | a scan's commit leaves the old devices as they were and adds an online device without ports for each new answer, and nothing else |
| `DeviceHistory.EditKeepsHistory` | backend/app/routes/devices.py:54-82 | an edit of address or kind touches no history |
| `DeviceHistory.EditSets` | backend/app/routes/devices.py:54-82 | an edit sets the given address and kind of one device and nothing else; another device's address is refused |
| `DeviceHistory.StatusKeepsHistory` | backend/app/crud.py:39-56 | a status commit keeps events, availability and status in agreement |
| `DeviceHistory.DeletedLogs` | backend/app/routes/devices.py:95-100 | deletion leaves no log row of the device and every other device's logs as they were |
| `DeviceHistory.DeleteKeepsHistory` | backend/app/routes/devices.py:95-102 | so every other history stays consistent and no log row is left without its device |
| `DeviceHistory.EventsChain` | backend/app/crud.py:46-51 | the events chain from the status the device was created with to the present one, and none is a standstill |
| `DeviceHistory.HistoryHolds` | backend/app/crud.py:39-56 | after any sequence of additions, discovery scans, status commits, edits and deletions the events are exactly the adjacent unequal pairs of creation status and logged statuses, the status is the last one, and no log row is about a missing device |
| `DeviceHistory.UnloggedIsConsistent` | backend/app/routes/discovery.py:57 | tables without log rows are consistent whatever statuses the devices have |
| `PollPass.DeviceSession.CreateDevice` | backend/app/crud.py:13-18 | one new row with status unknown under a new id; every history stays consistent |
| `PollPass.DeviceSession.Discover` | backend/app/routes/discovery.py:46-60 | exactly the answering addresses unknown before the scan become online devices, in one commit, and no log row |
| `PollPass.DeviceSession.DeleteDevice` | backend/app/routes/devices.py:91-102 | the row and both logs go in one commit; a missing device changes nothing; every other history stays consistent |
| `PollPass.DeviceSession.UpdateDeviceStatus` | backend/app/crud.py:39-56 | one availability row and, on a change, one event, committed with the status; a failing commit commits nothing |
| `PollPass.DeviceSession.PollSingleDevice` | backend/app/scheduler.py:54-87 | with an allowed address and no earlier failure the stored status and the one new availability row are "online" exactly when the ping succeeded, otherwise "offline"; a refused address or an earlier failure changes nothing; ports and toner change exactly when telemetry arrived and nothing raised |
| `PollPass.DeviceSession.PollDevices` | backend/app/scheduler.py:90-110 | after a pass each polled device shows and has logged the outcome of its own ping, or nothing new when it was refused or raised before; every device has exactly its own effect, every other device none, and nothing is left uncommitted |
| `PollPass.AllPassed` | backend/app/scheduler.py:96-106 | the devices one after the other amount to their independent effects |
| `PollPass.PassKeepsHistory` | backend/app/scheduler.py:96-106 | a pass keeps every device's logs in step with its status |
| `PollPass.OrderDoesNotMatter` | backend/app/scheduler.py:96-106 | polling the same devices in any two orders leaves the same rows and, device by device, the same logs |
| `PollPass.Isolation` | backend/app/scheduler.py:97-106 | changing the outcome of one device, failures included, changes nothing for another |
| `PollPass.LaterFailureKeepsStatus` | backend/app/scheduler.py:65-87 | a failure after the status commit undoes neither status nor logs and leaves ports and toner as they were |
| `LoginLimiter.LoginAttempts.LoginAllowed` | backend/app/auth.py:30-34 | prunes the user's list, and allows the login exactly when fewer than five entries are less than 300 seconds old |
| `LoginLimiter.LoginAttempts.RecordFailedLogin` | backend/app/auth.py:36-37 | appends the failure to that user's list only |
| `LoginLimiter.LoginAttempts.ClearLoginAttempts` | backend/app/auth.py:39-40 | forgets that user and nobody else |
| `LoginLimiter.PrunedAgrees` | backend/app/auth.py:30-40 | with a clock that does not run backwards the pruned list and the unpruned history have the same window |
| `LoginLimiter.AllowedExactly` | backend/app/auth.py:30-34 | so login_allowed holds if and only if fewer than five failures since the last success are younger than 300 seconds |
| `LoginLimiter.FailuresCounted` | backend/app/auth.py:36-40 | the failures of the unpruned history are as many as the user's since the last success |
| `LoginLimiter.Play` | backend/app/auth.py:30-40 | the dictionary after any history of checks, failures and successes |
| `LoginLimiter.ClockSetBack` | backend/app/auth.py:31 | with a clock set back the agreement fails: a concrete history |
| `LoginLimiter.SixFailuresSpanTheWindow` | backend/app/routes/auth.py:50-57 | in serial runs any six consecutive failures without a success span at least 300 seconds |
| `LoginLimiter.FiveFailuresCloseTheWindow` | backend/app/auth.py:34 | the limit is reached: for every user and time there are serial logins that fail five times within 300 seconds; after four the next check still admits, after five it does not |
| `LoginLimiter.WindowAndFlight` | backend/app/routes/auth.py:50-57 | the window and the logins in flight never exceed 4 + c together |
| `LoginLimiter.WindowBound` | backend/app/routes/auth.py:50-57 | in every interleaving of all users' logins, with at most c of one user's logins in flight at a time, neither the dictionary's window nor that of the unpruned history exceeds 4 + c |
| `SignIn.AuthService.SignIn` | backend/app/routes/auth.py:47-71 | 429 exactly from five failures younger than 300 seconds on, otherwise a token exactly for an active account with the right password, otherwise 401; the state is that of the login's statements run without interruption; the token is accepted for that account; only that user's attempts change |
| `SignIn.AcceptedTokenIsBound` | backend/app/auth.py:70-100 | over every interleaving of login statements, creations, renames, resets and status changes an accepted token was issued to the same user id under the hash that user still has, and the user is active |
| `SignIn.AcceptedExactly` | backend/app/auth.py:90-100 | an issued token is accepted if and only if its account is active with the name and hash of then |
| `SignIn.AdmittedExactly` | backend/app/routes/auth.py:52-53 | a login is admitted for an account if and only if it has the username, is active, and its hash was made from the password |
| `SignIn.WriteRejectsForGood` | backend/app/routes/admin.py:148-150 | after a password reset, or a rehash, every token issued to the account before is rejected, whatever follows |
| `SignIn.RetiredForGood` | backend/app/auth.py:49-51 | a hash no account has any more is never an account's hash again |
| `SignIn.PasswordIsLastWrite` | backend/app/routes/auth.py:58-61 | over every run an account's password is the one written last, by a reset or by a login's rehash |
| `SignIn.IssuedForVerifiedExactly` | backend/app/routes/auth.py:57-68 | the hash in a login's token is one whose password the login verified if and only if the password last written for the account since its check or rehash is none or the same |
| `SignIn.OwnStepVerifies` | backend/app/routes/auth.py:53-61 | a successful check without rehash, and every rehash, leave the account with the verified password |
| `SignIn.RehashUndoesReset` | backend/app/routes/auth.py:58-61 | from every state, a reset that commits between a login's check and its rehash is undone by the rehash |
| `SignIn.LateTokenOutlivesReset` | backend/app/routes/auth.py:63-68 | from every state, a reset that commits between check and token leaves the login with a token bound to the new password's hash, and accepted |
| `SignIn.StatementsRun` | backend/app/routes/auth.py:52-71 | the login's statements run without interruption write the rehash and issue one token for what is then stored |
| `SignIn.FreshTokenIsAccepted` | backend/app/routes/auth.py:58-71 | the token a login returns is accepted at once, also after a rehash |
| `Bits.Halves` | backend/app/config.py:40-41 | bitwise operators act on the bits above and below any position independently |
| `Cidr.AddressSpaces` | backend/app/config.py:40 | IPv4 addresses are the numbers below 2 to the 32nd, IPv6 addresses those below 2 to the 128th |
| `Cidr.Masked` | backend/app/config.py:41 | masking an address clears exactly the bits below the prefix |
| `Cidr.MembershipIsRange` | backend/app/config.py:41 | membership by mask is membership by range, in prefix notation (section 3.1 of RFC 4632), for IPv4 and IPv6 |
| `Cidr.SubnetIsInclusion` | backend/app/config.py:49 | the subnet test by first and last address holds if and only if every address of the one is in the other |
| `Cidr.SubnetByFirstAddress` | backend/app/config.py:49 | and if and only if the first address is inside and the prefix is at least as long |
| `Cidr.AddressAllowedExactly` | backend/app/config.py:35-41 | with a list configured, an address is allowed if and only if it lies in the range of a configured network of its version; a text that does not parse is an error |
| `Cidr.NothingConfigured` | backend/app/config.py:36-38 | without a list everything is allowed outside production and nothing in production |
| `Cidr.NetworkAllowedExactly` | backend/app/config.py:43-51 | with a list configured, a network is allowed if and only if one configured network holds every address of it |
| `Cidr.AllowedNetworkIsSound` | backend/app/config.py:35-51 | every address of an allowed network is allowed |
| `Cidr.SingleAddress` | backend/app/config.py:35-51 | a network of one address is allowed exactly when the address is |
| `Cidr.GapExactly` | backend/app/config.py:48-51 | when all addresses are allowed, the network is still refused if and only if every configured network with its first address is smaller than it |
| `Cidr.HalvesRefuseTheWhole` | backend/app/config.py:48-51 | any network listed as its two halves is refused although all its addresses are allowed |
| `Cidr.Hosts` | backend/app/client_discovery.py:19 | the hosts of a network in ascending order, without repetition: no network address, for IPv4 no broadcast address, except in the two smallest networks |
| `Cidr.HostsExactly` | backend/app/client_discovery.py:19 | the hosts are the network's addresses without the lowest and, for IPv4, without the highest; networks of one or two addresses lose neither |
| `Cidr.LargestScan` | backend/app/routes/clients.py:123 | at most 1024 addresses means an IPv4 prefix of at least 22 or an IPv6 prefix of at least 118 |
| `Cidr.ScanTargets` | backend/app/routes/clients.py:122-126 | the scan's answers by prefix length and allow-list, and on success exactly the hosts, at least one and at most 1024, each of them in the network and allowed |

## Left out

- The username in a login's success row of the audit log is read before its token and can differ from the token's after a rename in between; only the uninterrupted login states its audit row.
- A PATCH that sets neither role nor status reads its row when it commits; in the code it reads it a little earlier, without a lock. The duplicate query of PATCH and the unique index behind it are one check at the commit.
- The actors of account creation and registration are not checked in the protocol: any such insertion that meets no duplicate is allowed, which covers more runs than the code has.
- A deadlock victim, a lock timeout, a lost connection: each is the step `Abort`, which any request may take at any time.
- Password hashing, JWT encoding, signature and expiry: a new hash is one that was never stored before, the digest of a hash is a free constructor, and the tokens considered are those whose signature and expiry are in order.
- `first_seen` and `last_seen` are instants; the null branch of `_client_for_observation` cannot be reached because the columns are not nullable. That `first_seen` comes before `last_seen` is not claimed: one is the database's clock, the other the application's.
- A lookup without an ORDER BY returns the row with the least id.
- DisjointBatchRefines: sufficient for every batch, not necessary: items about one known client can also commit the flushed result, as `ExactForDistinctItems` says for distinct items. There is no exact condition for batches that name a known client or its address twice.
- ClosedForm: for batches in which every MAC is present; `NotIdempotentWithoutMacs` shows that the law fails without that.
- The checks before the client batch (the agent's token, the allow-list test of every item, the scan's busy lock) and the answer after it.
- SNMP sessions, ICMP, reverse DNS, `/proc/net/arp` and the LAN agent: their answers are inputs. A `Bad` row of a walk is a row whose reading raised, from the network or from a number that does not parse.
- Text beyond ASCII in `strip`, `lower`, `isdigit` and in address parsing; `allowed_networks` is a list of parsed networks, and a text that does not parse is the absent option.
- The check of the production configuration that refuses 0.0.0.0/0 and ::/0.
- Status notifications, `last_seen` of devices, device credentials and the details text of audit rows. Audit rows that record no change of a user (devices, scans, logins) appear only in `SignIn`.
- A device deleted while a polling pass is under way.
- A device whose kind was cleared by an edit is polled like a router and is one here; the host names and models of devices are not kept.
- The walk over the scanned addresses and the device type read from the model text: what a discovery scan found is an input.
- Overlapping calls inside one limiter function: each is one atomic step.
- The process-wide lock of the scan, the scan's worker pool, dashboard counts, CSV export, lab profiles, migrations, settings clamps, the frontend and deployment.
