# NetWatcher: a verified model

NetWatcher watches a UniFi network: it scans the clients, keeps a device inventory, alerts on
unknown devices, and lets an operator trust, ignore or block them. These Dafny modules model its
stateful cores and prove what has to hold over every run.

| area | modules |
|---|---|
| tables, text and MAC addresses | `Base`, `Tables`, `Text`, `Mac` |
| scan, alerts, cooldown, retention | `Scanner`, `ScanRows`, `Alerts`, `Retention`, `Cooldown`, `CooldownSteps` |
| device actions, audit log, import and export, vendor table | `Devices`, `AuditReplay`, `Operations`, `ActionRace`, `ImportExport`, `ImportRows`, `Export`, `RoundTrip`, `Oui` |
| notification secrets and key rotation | `Secrets`, `KeyStore`, `CryptoMigrate`, `Rekey`, `Startup` |
| security settings, allowlists, middleware, failure limiter | `Allowlist`, `Cidr`, `Hosts`, `Security`, `Middleware`, `Access`, `Limiter`, `LimiterRace` |

Code that assigns fields or loops over tables is modelled by classes and methods with loops
(`Session`, `DeviceService`, `Machine`, `SecurityService`, `FailureLimiter`), each proved against a
specification function; the lemmas then say what that function means. Concurrency and crashes are
modelled in three ways: `Cooldown`, `LimiterRace`, `ActionRace` and `Middleware.Serve` take the
atomic stretches of the program as steps, in any order; `KeyStore.Machine` collects in `seen` every pair of
key files and committed rows a crash could leave behind, half-written files included; and `Faults`
records decide which operations raise.

The outside world is passed in as arguments: the clients a controller reports, what each
notification channel did, times, salts, a generated key, the text form of IP addresses. Encryption
is symbolic: a token opens under the key that sealed it and under no other, and passwords verify
against their own hash only.

## Results that differ from what the program promises

Some promises hold only under a condition. The code is modelled as it is; each lemma gives the
exact condition.

- Alerts of a device are more than the cooldown apart in every run if and only if every event
  retention setting in use is 0 or at least the cooldown (`Cooldown.CooldownExactly`). The settings
  allow less (app/config.py:80-83).
- During `rekey --generate-file` every row stays openable in every state if and only if no row
  depended on the staging file at the start (`Rekey.RecoverableThroughout`); a retry after a failed
  activation loses the only key (`Rekey.RetryLosesStagedKey`).
- The rekey command and the server take an environment secret for the same key if and only if it
  is not the text of another Fernet key (`Secrets.EnvSecretAgreement`, `Rekey.OldEnvSecretWorks`, `Secrets.KeyTextDisagrees`).
- The placeholder list for secrets never decides anything: every entry is shorter than the minimum
  length (`Secrets.UsableMeansLong`).
- An exported name comes back on import if and only if it has no comma and no line break before
  its last visible character (`Export.LineRoundTrip`); an export restores all devices if and only
  if this holds of every name (`RoundTrip.ExportThenImport`). A second line that is an address is
  imported as a device of its own (`RoundTrip.SecondLineIsImported`).
- The audit log determines every status if requests on one device do not overlap
  (`ActionRace.WithoutOverlapReplayHolds`), and in general exactly while each commit finds what it
  had read (`ActionRace.ReplayHoldsExactly`); `ActionRace.OverlapLosesStatus` and
  `ActionRace.OverlapMisquotesDeletion` are runs that go wrong.
- Printing and parsing the host list is a fixed point if and only if no accepted line has a zone id
  ending in white space (`Hosts.HostFixedPoint`, `Hosts.ZoneSpaceIsLost`).
- A saved password logs in if and only if it has at most 256 characters; the update sets no upper
  limit (`Middleware.SavedPasswordLogsIn`, `Middleware.LongPasswordLocksOut`).
- A bucket of the failure limiter can hold `AUTH_FAIL_LIMIT - 1` failures plus the number of
  requests verifying at once, and this bound is reached (`LimiterRace.OvershootIsReached`).

## Model

| member | source | states |
|---|---|---|
| Cooldown.CooldownSafety | app/scanner.py:225-239 | in every interleaving of scans, retention batches, imports, deletions and time, two alert_sent events in one device row's lifetime are strictly more than the cooldown apart, if no setting prunes younger events |
| Cooldown.CooldownExactly | app/config.py:80-83 | the same for all runs if and only if every retention setting in use is 0 or covers the cooldown |
| Cooldown.StepKeepsInv | app/scanner.py:364-388 | every single step keeps the invariant: a sent alert is still on record, or already too old to matter; only the lock holder has intents, and they stay ripe |
| Cooldown.ScanLockIsExact | app/scanner.py:225-239 | in every run the scan lock is held exactly by the one thread that is inside a scan, and free when there is none |
| Cooldown.EventsKeepDevices | app/models.py:127-129 | in every run of the system each event that names a device names one that exists, so a verdict on a device deleted meanwhile is not stored |
| Cooldown.DeleteBatchKeepsInv | app/retention.py:55-76 | deleting any batch of expired events at any moment, also during a scan, keeps that invariant |
| Cooldown.PrunedTooSoon | app/retention.py:55-76 | a run with two alerts too close exists for every retention setting between 0 and the cooldown |
| CooldownSteps.DeliveryIsSteps | app/scanner.py:141-222 | whatever the providers do, the events that a delivery leaves are those of the steps of one thread in the transition system, ended by its commit |
| CooldownSteps.DeliveryIsSafe | app/scanner.py:364-388 | so a delivery that continues a run of the system leaves the events of a longer run, in which alerts are more than the cooldown apart |
| CooldownSteps.CheckIsStep | app/scanner.py:113-128 | the devices a scan selects are those of the Check step of the system, and these are the devices due for an alert, although the scan has already added events of its own |
| CooldownSteps.ScanCommitIsStep | app/scanner.py:301-382 | the commit of a scan is the step that adds exactly the devices it has discovered |
| CooldownSteps.DeletionIsSteps | app/services/devices.py:148-174 | a deletion leaves the events and devices that its two steps in the system leave |
| CooldownSteps.PruneAsSteps | app/retention.py:55-76 | the batches that retention deletes are delete steps of one retention run, and leave the events the loop leaves |
| Scanner.UpsertClients | app/scanner.py:266-362 | the loop over the MAC dictionary leaves the same tables and candidates as looking up every client by a query of its own, repeated MACs included |
| Scanner.PassPreserves | app/scanner.py:283-362 | MACs stay unique, every reported MAC has a row, new rows are unknown, no row changes its MAC, status, given name, notes or first sighting |
| Scanner.PassCounts | app/scanner.py:337-359 | one observation per report, one discovered event per new row and for each new row |
| Scanner.TelemetryIsLastReport | app/scanner.py:86-90 | each telemetry field ends as its last reported value in this scan, or its old one |
| ScanRows.ColumnIsLastReport | app/scanner.py:285-334 | host name, address, site, network name, access point and vendor of every row end as the last non-empty value reported for its MAC, the vendor table going before the controller's vendor name; without one a known device keeps its value and a new one has its first report's |
| ScanRows.SightingIsReport | app/scanner.py:311-322 | the scan time is the last sighting of exactly the reported rows; every other row stays as it was |
| ScanRows.NewRowsAreBare | app/scanner.py:305-317 | a new row is unknown, first seen at the scan time, without given name or notes |
| ScanRows.EachReportIsObserved | app/scanner.py:337-349 | report i leaves observation i with its own address, host name, site and network, linked to the row of its MAC |
| Scanner.CandidatesAreUnknown | app/scanner.py:361-362 | the alert candidates are exactly the reported devices whose status is unknown |
| Scanner.ScanInventory | app/scanner.py:242-382 | the tables after the inventory phase, the error path included; no device twice among the intents, and an intent exactly for each unknown reported device without an alert_sent event within the cooldown |
| Scanner.InventoryPreserves | app/scanner.py:242-382 | the inventory phase touches no audit row, status or operator column |
| Tables.BatchLoadDevices | app/scanner.py:99-103 | the dictionary answers every query by MAC of the batch |
| Alerts.BuildIntents | app/scanner.py:364-378 | first occurrences of the candidates that are not cooling down, none twice |
| Alerts.InCooldown | app/scanner.py:113-128 | the devices asked about that have an alert_sent event no older than the cooldown |
| Alerts.DeliverQueuedAlerts | app/scanner.py:141-222 | which event and delivery rows are appended, in which order, whatever the providers do; nothing without channels |
| Alerts.AlertTotals | app/scanner.py:141-222 | n intents over c channels add 2n events and n*c deliveries, all old rows kept |
| Alerts.AlertVerdict | app/scanner.py:150-220 | each intent has exactly one alert_queued and one verdict event, which is alert_sent exactly when one of its deliveries succeeded, else alert_failed |
| Alerts.VerdictIsAnswer | app/scanner.py:184-220 | the verdict is alert_sent exactly when some provider answered with success; a missing provider, an exception and a failure do not count |
| Alerts.DeliveryIsAnswer | app/scanner.py:160-203 | channel j's delivery for alert i names that channel and that queued event, and is a success exactly if the provider answered with success |
| Retention.PruneObservations | app/retention.py:35-53 | for any batch size of at least 1 the loop ends, keeps exactly the rows since the cutoff and counts the others |
| Retention.PruneEvents | app/retention.py:55-76 | the same for events with exactly their deliveries, exact counts, and no delivery without an event |
| Retention.OneBatch | app/retention.py:67-76 | neither after the first nor after the second DELETE of a batch does a delivery point at a missing event |
| Retention.RunRetention | app/retention.py:20-95 | the run equals one filter per table, 0 days disabling it, and one retention_run event |
| Retention.RetainedMeaning | app/retention.py:35-76 | on the rows: observations go by their own setting, events by theirs, deliveries with their events, 0 days keeps a table whole, nothing else changes |
| Devices.DeviceService.SetDeviceStatus | app/services/devices.py:88-122 | a missing device changes nothing; otherwise the status is the action's, and the audit row quotes the previous one |
| Devices.SetStatusMeaning | app/services/devices.py:88-122 | on the rows: trust, ignore, reset, block and unblock set their status and nothing else, add one audit row, which quotes the previous status for the first three, and one event |
| Devices.EditMeaning | app/services/devices.py:124-146 | a rename or a note changes one row, adds one audit row and one event, and no status |
| Devices.DeviceService.BlockOrUnblock | app/services/devices.py:176-206 | nothing changes unless the device exists and the controller executed the action |
| Devices.DeletedMeaning | app/services/devices.py:148-174 | after a deletion no observation, event or delivery of the device is left, every other row of the four tables is unchanged, one event is added, and no delivery points at a missing event if none did before |
| Devices.DeviceService.BulkSetStatus | app/services/devices.py:208-244 | bulk trust and bulk ignore are the single action, once per existing id in order, and count these ids |
| Devices.SetAllMeaning | app/services/devices.py:208-244 | exactly the listed devices get the status, one audit row per listed id |
| AuditReplay.AuditLogDeterminesStatus | app/services/devices.py:44-122 | after any serial history of scans, imports, actions, deletions and retention each device's status is the fold of its audit rows since its last delete row from unknown, and each quoted status is the fold of the rows before |
| AuditReplay.ReplayIsFold | app/services/devices.py:148-174 | replaying the whole log with delete as a fresh start equals folding the rows after the last delete |
| AuditReplay.PerformKeeps | app/api/routes_import_export.py:258-276 | every single request or job keeps status and log consistent |
| AuditReplay.ScanKeeps | app/scanner.py:301-320 | a scan keeps them consistent: reused ids start as unknown after their delete row |
| Operations.Execute | app/services/devices.py:88-244 | each request or job, executed by its own service, is one step of a history |
| Operations.ExecuteAll | app/services/devices.py:44-122 | any sequence of them, executed from empty tables, ends with a log that determines each status and each quoted status |
| ActionRace.ReplayHoldsExactly | app/services/devices.py:88-122 | in any interleaving of actions, imports and deletions that read devices and commit later, log and status agree in every state if and only if every commit is safe: an action's status is still the one read, or is overwritten without being quoted; a deletion quotes the status that still holds; an import always is |
| ActionRace.WithoutOverlapReplayHolds | app/services/devices.py:208-244 | they agree in every state when no two requests overlap on one device |
| ActionRace.OverlapLosesStatus | app/services/devices.py:88-114 | a trust of a trusted device around another request's ignore leaves the device ignored and the log ending in trust |
| ActionRace.OverlapMisquotesDeletion | app/services/devices.py:148-174 | a deletion around another request's ignore quotes a status the device no longer had |
| ActionRace.FreshCommitIsWhole | app/services/devices.py:88-122 | a commit that finds what it had read is the action, or the deletion, in one step |
| ActionRace.AloneIsWhole | app/services/devices.py:88-174 | reading and committing at once is the action, or the deletion, of a serial history |
| ActionRace.RollbackForgets | app/services/devices.py:82-86 | what a request has only read leaves no trace when it is rolled back |
| ActionRace.SerialRunIsHistory | app/services/devices.py:88-244 | a run in which nothing overlaps is a serial history |
| ActionRace.FreshImportIsWhole | app/api/routes_import_export.py:240-276 | an import that reads and commits a record at once is the import of that record, the name it may fill in for a known device aside |
| ImportExport.ParseImport | app/api/routes_import_export.py:204-248 | phase 1 changes nothing and rejects exactly the files over a limit or not in UTF-8 |
| ImportExport.ApplyRecords | app/api/routes_import_export.py:250-276 | the dictionary pass equals looking up every record by a query, repeated MACs included |
| ImportExport.ImportTrusted | app/api/routes_import_export.py:200-284 | a rejected file changes nothing at all; an accepted one is applied completely |
| ImportExport.ImportIsIdempotent | app/api/routes_import_export.py:258-276 | a second import of an accepted file counts 0 and changes no device and no audit row |
| ImportRows.CsvLine | app/api/routes_import_export.py:228-231 | with a comma the address stands before the first one and the note after it, both stripped; a table header or an unreadable address is skipped |
| ImportRows.HashLine | app/api/routes_import_export.py:232-235 | without a comma the same around the first hash |
| ImportRows.BareLine | app/api/routes_import_export.py:232-243 | with neither the whole line is the address and the note is empty |
| ImportRows.SkippedLine | app/api/routes_import_export.py:222-225 | blank lines and comments are skipped |
| ImportRows.RecordsInOrder | app/api/routes_import_export.py:222-248 | a readable line adds its record at the end, any other adds none |
| ImportRows.ImportedRows | app/api/routes_import_export.py:258-276 | exactly the listed addresses change or get a row: trusted, named by the first non-empty note where there was no name, otherwise as they were or empty |
| ImportRows.CountIsNewlyTrusted | app/api/routes_import_export.py:258-276 | the count is the number of devices that became trusted, and each has an audit row |
| Export.ExportTrusted | app/api/routes_import_export.py:287-294 | the text is the header and one line per trusted device, each once |
| Export.ExportNameIsFirstGiven | app/api/routes_import_export.py:292 | the exported name is the first of display name, host name and notes that is not empty, else "Unknown" |
| Export.ExportLineText | app/api/routes_import_export.py:287-294 | the exact text of the header and of a line |
| Export.LineRoundTrip | app/api/routes_import_export.py:222-243 | an exported line, split and parsed as the importer does, comes back as its address and stripped name if and only if the name has no comma and no line break before its last visible character |
| RoundTrip.ExportParses | app/api/routes_import_export.py:287-294 | the whole file parses back to exactly the exported addresses and stripped names, in order, if and only if every trusted device has such a name |
| RoundTrip.ExportThenImport | app/api/routes_import_export.py:258-276 | importing any text the export can produce into an empty table restores every trusted device with its address and stripped name if and only if all these names are such; then there is one row for each and no other |
| RoundTrip.CommaIsLost | app/api/routes_import_export.py:228-231 | the name "a,b" does not come back |
| RoundTrip.LineBreakIsLost | app/api/routes_import_export.py:222-243 | the name "a", line break, "b" does not come back |
| RoundTrip.SecondLineIsImported | app/api/routes_import_export.py:222-243 | a name whose second line is an address comes back as two devices |
| Mac.NormalizeIsCanonical | app/mac.py:4-19 | two texts normalise to the same address exactly when they have the same hex digits in either case |
| Mac.NormalizeIdempotent | app/mac.py:4-19 | the canonical addresses are exactly the fixed points |
| Mac.PrefixOfMac | app/scanner.py:93-96 | the vendor prefix of a normalised address is its first six digits with colons |
| Oui.ParseOuiData | app/oui.py:27-48 | the nested loops end on every text and return what the recursive reading of the lines returns |
| Oui.ParsesRecords | app/oui.py:27-48 | on any preamble and any list of well-formed records the result is exactly their map, the last duplicate winning |
| Oui.StartMeaning | app/oui.py:19-24 | a record starts exactly at a line of white space before a line that has three hyphenated pairs of capital hex digits somewhere |
| Oui.OwnerMeaning | app/oui.py:35-42 | the owner on a hex line is what follows the mark, its words with single spaces between them |
| Oui.KeyIsScanPrefix | app/oui.py:43-45 | a record's key is the prefix a scan looks up exactly for the addresses that start with its digits |
| Oui.RecordNamesVendor | app/oui.py:35-45 | a base-16 line with six hex digits gives its owner to exactly the addresses that start with them |
| Oui.ShortAssignmentIsDropped | app/oui.py:35-45 | a base-16 line with fewer than six characters, or with white space at either end of the first six, gives no entry |
| Oui.UpsertOuiEntries | app/oui.py:51-61 | batches of any size of at least 1 override the old table with the new entries |
| Secrets.UsableMeansLong | app/security/secrets.py:47-53 | a secret is usable exactly when its stripped form has 16 characters |
| Secrets.EnvSecretAgreement | app/cli.py:30-37 | command and server agree on an environment secret if and only if it is not the text of another key |
| Secrets.KeyTextDisagrees | app/security/secrets.py:120-121 | a generated key given as environment secret is one key to the command and another to the server |
| Secrets.FileSecretAgreement | app/security/secrets.py:123-129 | the content of a single-line key file, given as a secret, is the key the server takes from the file |
| Secrets.KeyFileRoundTrip | app/security/secrets.py:62-68 | a generated key written to a file reads back as itself; an emptied file holds no key |
| Secrets.KeyFileLines | app/security/secrets.py:99-129 | of a key file with several lines the first is the key if it is the text of one, else the whole file is a secret to hash |
| Secrets.EnvSecretFirst | app/security/secrets.py:106-140 | an environment secret of 16 characters hides the key file; otherwise there is a key exactly if the file is there and not blank |
| CryptoMigrate.MigrateNotificationSecrets | app/security/crypto_migrate.py:31-75 | succeeds exactly when every row is readable (and the commit works), then all rows are migrated and the counts add up to the total; otherwise the table is unchanged |
| CryptoMigrate.MigrationSettles | app/security/crypto_migrate.py:31-75 | afterwards every row is encrypted with its plaintext unchanged, and a second run finds nothing to migrate |
| CryptoMigrate.MigratedForms | app/security/crypto_migrate.py:43-65 | migration can succeed exactly when every row is a dictionary, the text of a JSON object, or an object sealed under the key, and leaves each of these objects sealed under the key |
| CryptoMigrate.VerifyChannelsWithFernet | app/security/crypto_migrate.py:78-93 | succeeds exactly when every configuration can be read with this key |
| CryptoMigrate.RekeyNotificationSecrets | app/security/crypto_migrate.py:96-110 | one transaction: every row moves to the new key, or none changes |
| CryptoMigrate.RekeyingMoves | app/security/crypto_migrate.py:96-110 | rekeyed rows keep their plaintexts and are readable under the new key and, unless there are none, under no other |
| CryptoMigrate.RekeyedForms | app/security/crypto_migrate.py:96-110 | rekeying seals the object of each row that the old key reads under the new key |
| CryptoMigrate.ReadErrors | app/security/secrets.py:187-210 | a wrong or damaged token is a key error; every other unreadable row is a value error |
| CryptoMigrate.SamePlaintextsMeansSameForms | app/security/crypto_migrate.py:96-110 | equal readings under two keys mean the same JSON object in every row |
| Rekey.CmdRekey | app/cli.py:54-160 | every durable state of a run is one of a few phases; what each exit status means for rows and files; without faults it exits with 0 exactly for acceptable inputs |
| Rekey.ActivateStagedKey | app/cli.py:40-51 | an OSError leaves the active file unchanged and the new key staged; otherwise the new key is active and the old file is the backup |
| Rekey.CrashSafety | app/cli.py:78-129 | in every state of a generating run all rows and the other key files are as before, or all rows have their plaintexts under the new key, which is staged or active |
| Rekey.CrashSafetyWithoutFile | app/cli.py:75-117 | a run without key generation never touches a key file and moves all rows or none |
| Rekey.KeyAfterwards | app/cli.py:131-146 | the final verification accepts exactly when the key then in force reads the moved rows, and then all plaintexts are kept |
| Rekey.GeneratingRun | app/cli.py:54-105 | from the arguments: a fault-free run that generates a key exits with 0 exactly when the old secret given, the option before the variable, reads every row; then every object is sealed under the generated key, which is in the key file |
| Rekey.SecretRun | app/cli.py:67-105 | the same with a given new secret of 16 characters, which goes before a generated key; no file changes |
| Rekey.NewKeyIsGiven | app/cli.py:67-94 | which key is the new one, from option, variable, flag and key file |
| Rekey.RecoverableThroughout | app/cli.py:78-82 | once the staging file can be opened, every row stays openable in every state if and only if at the start no row needed that file |
| Rekey.RecoverableWithoutStaging | app/cli.py:78-82 | a run that starts without a staging file keeps every row openable in every state exactly if it was openable at the start |
| Rekey.RetryLosesStagedKey | app/cli.py:118-129 | after a failed activation a second generating run with the same old secret reaches a state in which no file has the key of the rows |
| Rekey.OldEnvSecretWorks | app/cli.py:30-37 | given a server's environment secret as old secret, the command reads the server's rows if and only if the secret is not the text of another key |
| Startup.WriteKeyFileAtomic | app/security/secrets.py:71-88 | at every moment the key file holds its old content or the complete new one |
| Startup.Start | app/main.py:96-115 | when it comes up every row was readable under the key in force and is now encrypted under it; otherwise no row changes; without faults the former happens exactly when every row is readable; every state on the way is one of the two |
| Startup.BackupOutlivesDoubt | app/security/secrets.py:223-238 | the backup disappears only when every row is encrypted and readable under the key in force |
| Startup.RestartAfterCrash | app/main.py:96-115 | a start after a rekeying interrupted anywhere comes up with every original plaintext, or changes no row, no staged key and no backup |
| Startup.SuccessStarts | app/cli.py:131-160 | after exit status 0 the key a start then resolves reads every row to its old plaintext |
| Allowlist.NormalizedMeaning | app/security/service.py:191-218 | no duplicates, at most the limit, exactly the accepted forms of the lines considered; no error exactly when all lines are accepted and within the limit |
| Allowlist.ParsePrintParse | app/security/service.py:567-578 | if accepted forms are stable, parsing the printed list gives the list again without errors, whatever the text |
| Cidr.ParseAndNormalizeCidrs | app/security/service.py:191-218 | the loop returns the specified list and error lines, stopping at the limit |
| Cidr.ClearingKeepsAddresses | app/security/service.py:208-212 | clearing host bits by the mask keeps the address set, which is the prefix of section 3.1 of RFC 4632 and a range, for both widths |
| Cidr.MaskFloors | app/security/service.py:208-212 | the bitwise AND with the netmask clears exactly the host bits |
| Cidr.ClientIpAllowed | app/security/service.py:315-327 | true exactly when some readable entry covers a readable address |
| Cidr.AllowedMeansCovered | app/security/service.py:315-327 | on the normalised list it holds exactly when one of the first hundred lines is valid and has the address in its prefix |
| Cidr.CidrFixedPoint | app/security/service.py:191-218 | parsing the printed list gives the same networks, without duplicates or errors |
| Hosts.NormalFormsAreFixed | app/security/service.py:221-237 | which texts host normalisation leaves unchanged |
| Hosts.ParseAndNormalizeHosts | app/security/service.py:240-282 | the loop returns the specified list and error lines, stopping at the limit |
| Hosts.AcceptMeaning | app/security/service.py:252-276 | a line is accepted exactly if it has no slash and no space and names an address or a DNS name without asterisk and outer dots |
| Hosts.DnsNameMeaning | app/security/service.py:266-276 | a DNS name is labels of 1 to 63 small letters, digits and inner hyphens with dots between them |
| Hosts.HeaderMeaning | app/security/service.py:221-237 | a header names what stands between its brackets, else before its only colon, else all of it, stripped and in small letters |
| Hosts.AcceptedShape | app/security/service.py:240-282 | an accepted host is in lower case, not bracketed, and a fixed point of normalisation unless its zone id ends in white space |
| Hosts.HostFixedPoint | app/security/service.py:567-578 | printing the list as loaded from the settings and parsing it again gives the saved list without errors if and only if no accepted line has such a zone id; no duplicates, at most fifty |
| Hosts.ZoneSpaceIsLost | app/security/service.py:240-282 | the line "[fe80::1%e", tab, "]" is accepted and does not survive printing and parsing |
| Hosts.TwiceNormalized | app/security/service.py:293-312 | after the caller's and the check's normalisation white space can remain only in a name without colon |
| Hosts.PortIsIgnored | app/security/service.py:221-237 | a normal host is found in its header with a port, bracketed or not |
| Hosts.ListedHostIsServed | app/security/service.py:293-312 | every listed host passes the check with and without port |
| Hosts.LoadingKeepsAccess | app/security/service.py:181-188 | who passes the check against the list being saved passes it against the list as loaded again |
| Security.SecurityService.EnsureSecuritySettings | app/security/service.py:124-155 | an existing row is never replaced; a missing one is created with the defaults, or taken from a rival worker |
| Security.SecurityService.GetSecurityPolicy | app/security/service.py:162-168 | with or without cache the answer is the policy of the stored row |
| Security.SecurityService.UpdateAuthentication | app/security/service.py:392-444 | succeeds exactly when name, current password, confirmations and length allow it; which errors a refusal lists; the whole new row, or no change |
| Security.SecurityService.UpdateCidr | app/security/service.py:447-500 | succeeds exactly when all lines are valid and, if enabled, the list is not empty and covers the client or the override is confirmed; the whole new row, or no change |
| Security.SecurityService.UpdateHosts | app/security/service.py:503-559 | succeeds exactly when all lines are valid and, if enabled, the request's host passes or the override is confirmed; the whole new row, or no change |
| Security.ChangesAreAuthorised | app/security/service.py:402-436 | on the rows before and after: another name or password hash, or authentication off, only with the current password; a new password is confirmed and has 12 characters; the network settings stay |
| Security.AuthorisedChangesPass | app/security/service.py:402-429 | a valid name with the current password and the confirmations is never refused |
| Security.UnchangedNeedsNoPassword | app/security/service.py:402-417 | saving the same name without a new password and without turning authentication off needs no password |
| Security.FirstRow | app/security/service.py:134-144 | a new installation asks for a login with the default credentials and restricts hosts only |
| Security.NetworkUpdates | app/security/service.py:447-559 | a network update writes its own two columns, of at most 100 and 50 entries; only the exact phrase overrides |
| Security.RunCalls | app/security/service.py:562-564 | over any sequence of calls and restarts every policy read is that of the row stored at that moment |
| Security.RunsKeepSound | app/security/service.py:111-168 | in every reachable state there is at most one row, a CIDR restriction has a non-empty allowlist, and the default-credentials flag is set exactly while the default password verifies |
| Middleware.Serve | app/security/middleware.py:160-210 | in any interleaving of requests, password verifications and settings changes each verdict is decided by the row stored and all failures in the window when the request arrives, the password by that same row, and failures and successes enter the history when verified |
| Middleware.Dispatch | app/security/middleware.py:160-210 | the same for one request without others in between: the verdict in the order of the checks, and what it leaves in the failure history |
| Access.ServedExactly | app/security/middleware.py:160-210 | on the stored row and the raw request: served exactly when the path is open, or host, origin and address pass and, if the row or the path asks for a login, the header holds the stored name and its password and the address has fewer than ten failures in sixty seconds |
| Access.ServedInAnyOrder | app/security/middleware.py:160-210 | the same in any interleaving: decided by the row stored on arrival, the login when it is verified |
| Middleware.NoCidrSelfLockout | app/security/service.py:470-486 | after a permitted update an address is let in exactly when a valid line covers it, and the author's own is, unless the override was confirmed |
| Middleware.NoHostSelfLockout | app/security/service.py:523-545 | the author's raw Host header passes the middleware's check through the stored list |
| Middleware.AccessLasts | app/security/middleware.py:174-189 | that access lasts through any later calls and restarts until the same settings are saved again |
| Middleware.SavedPasswordLogsIn | app/security/middleware.py:131-145 | a saved new password logs in if and only if it has at most 256 characters |
| Middleware.LongPasswordLocksOut | app/security/service.py:422-436 | an accepted update to a password of 257 characters after which no credentials log in |
| Limiter.FailureLimiter.PruneFailures | app/security/middleware.py:95-103 | the returned deque is the one in the map, also after pop and recreation, and holds exactly the failures in the window |
| Limiter.FailureLimiter.AuthFailuresExceeded | app/security/middleware.py:106-111 | refuses exactly when the full history has that many failures in the window |
| Limiter.FailureLimiter.RecordAuthFailure | app/security/middleware.py:114-119 | appends to the history of this IP and of no other |
| Limiter.FailureLimiter.ClearAuthFailures | app/security/middleware.py:122-123 | forgets exactly the history of this IP |
| Limiter.Replay | app/security/middleware.py:95-123 | for any sequence of calls on a monotonic clock every decision is the one from counting all failures since the last clear |
| LimiterRace.OvershootIsBounded | app/security/middleware.py:192-207 | stored failures plus requests in flight never exceed AUTH_FAIL_LIMIT - 1 plus the width of concurrency |
| LimiterRace.StretchIsBounded | app/security/middleware.py:95-119 | in every stretch of the window's length, wherever it begins, at most AUTH_FAIL_LIMIT - 1 plus the width attempts of one IP fail since its last success |
| LimiterRace.SequentialClientIsExact | app/security/middleware.py:106-119 | a sequential client never stores more than AUTH_FAIL_LIMIT failures |
| LimiterRace.RunOnLimiter | app/security/middleware.py:95-123 | performed on the limiter, any interleaving leaves its deque equal to the bucket of the transition system, so the bound holds of the deque |
| LimiterRace.OvershootIsReached | app/security/middleware.py:192-207 | the bound is reached for every width |

## Left out

- HTTP, FastAPI routing, templates, CSP, CSV export, pagination, dashboards, migrations and job scheduling: plumbing or short tables.
- The UniFi client, webhook and Pushover sending, DNS: they are arguments; an exception of the UniFi client after the scan_started event is not a separate outcome of ScanInventory (in Cooldown it is a release of the lock).
- Fernet, SHA-256, Argon2, base64 and the length limit on the authorization header, which never binds within the limits on name and password.
- The parsing and printing of IP addresses: an address is a family and a number, texts are read by functions that are arguments; zone ids of CIDR lines are not represented.
- Unicode case mapping: lower and upper case are those of ASCII. Key files are treated as text, not bytes.
- Telemetry coercion of single client fields, messages and metadata of events and audit rows, actors, request ids, the bulk flag, updated_at columns.
- Timestamps of events other than alerts in Cooldown; ids of event rows beyond being fresh.
- The clock of Cooldown never goes back, while the code reads wall-clock time.
- The process lock is modelled in Cooldown only; the methods of Scanner are one lock holder's work, and CooldownSteps ties the delivery and retention loops to its steps.
- DeliverQueuedAlerts: deletion of a device while its alert is being delivered is modelled in Cooldown only, as the end of that row's lifetime.
- Dispatch: no other request runs between its check and its record; Serve and LimiterRace have the interleavings.
- AuditLogDeterminesStatus: every request is one step of a serial history; ActionRace splits status actions into a read and a commit.
- ActionRace: scans, renames, notes and retention, which write no status of an existing row, remain whole steps; a session acts on a device once, and of an import only the statuses and new rows are kept.
- SecurityService: each call is one atomic step; two policy updates overlapping between commit and cache binding are not modelled, nor are caches of other worker processes.
- CmdRekey: the channel table does not change between verification and rekeying; a commit either raises or takes effect.
- Previews of allowlist updates, which repeat the conditions of the updates.
- ParseOuiData: starts from the lines of the text; the download and the entry-count limits around it are not modelled.
