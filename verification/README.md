# Verification model of the monitoring portal

This project models the stateful core of the monitoring portal in Dafny and proves what its parts promise over whole
runs: the incident lifecycle, SNMP interface traffic, formula metrics and their requests, numeric metric history,
two-party chat, site entry points, and backup with restore.

Stored rows are values in sequences or maps; the objects whose methods change them are classes, and every such method is
proved to leave exactly the state a function of the old state describes. Runs are sequences of steps of those functions,
and the main results are about every state a run can reach. Instants are microseconds on one clock. A check outcome, an
SNMP reply, a nonce and the order in which concurrent checks finish are arbitrary inputs. Each save is one atomic step;
what interleaves between two saves (an administrator's edit, a discovery, another poll in flight) is a step of its own.

| file | contents |
|---|---|
| `Basics.dfy`, `Oids.dfy` | optional values, decimal text, canonical object identifiers |
| `Incidents.dfy`, `UnstableLinks.dfy`, `Monitoring.dfy` | the incident service, the unstable-link marker, saving results |
| `IncidentRuns.dfy`, `IncidentAnnouncements.dfy` | uniqueness and order of events over runs, and exactly which incidents announce what |
| `AvailabilityStream.dfy`, `MarkerStream.dfy` | the availability incident and the unstable-link marker as functions of a target's results |
| `ResultRetention.dfy` | what deleting old results does to incidents |
| `CheckVersions.dfy`, `CheckEndpoints.dfy` | results against configuration edits, and against edits of the target's address |
| `Thresholds.dfy`, `ThresholdRuns.dfy` | threshold levels and the incidents that mirror them |
| `CounterRates.dfy`, `InterfaceTraffic.dfy`, `TrafficRates.dfy` | counter arithmetic, polling and inventory of interfaces, and the exact rates a poll saves |
| `TrafficRuns.dfy`, `TrafficBreaks.dfy` | baselines and sample logs over runs, and what breaks them |
| `Formulas.dfy`, `FormulaGrammar.dfy` | the formula compiler and evaluator, and exactly what compiles |
| `FormulaAgreement.dfy`, `FormulaLaws.dfy` | what compiler and evaluator promise each other, and the laws of the numbers that come out |
| `PollRequests.dfy` | the requests of a poll |
| `MetricSamples.dfy`, `MetricRuns.dfy` | numeric metric history and its cap |
| `Chat.dfy`, `ChatViews.dfy`, `ChatPaging.dfy`, `ChatRuns.dfy` | conversations, visibility, paging, unread counts |
| `SiteGates.dfy`, `SiteBatches.dfy`, `BatchSaves.dfy`, `SiteRules.dfy` | entry points, two-phase batches and what they store, the health view |
| `BackupSchema.dfy`, `Backups.dfy`, `Integrity.dfy`, `PrimaryChecks.dfy` | tables and references, archives, the closing integrity check, the primary check of every target |
| `RestoreSteps.dfy` | restoring step by step |
| `BackupRules.dfy`, `BackupRoundTrips.dfy`, `RestoreAcceptance.dfy` | round trips, and exactly which archives are accepted |

## What the code does differently from what one would expect

- An availability or service-check incident opens on a window of 1 to 10 results, but its `failure_count` starts at the
  raw setting, so the count is the number of failures seen exactly when the setting is in 1..10
  (`AvailabilityStream.CountIsTrueExactly`). The editor refuses any other number
  (src/monitoring/services/settings.py:19), so one can only come from a restored archive or from outside the portal;
  with a stored 0 the first DOWN opens an incident of no failures (`AvailabilityStream.UnlistedSettingMiscounts`).
- An SNMP or certificate incident announces its recovery exactly when it was opened in a step free to announce and
  resolved in one; opened while suppressed it can still announce its escalation to critical
  (`IncidentAnnouncements.AnnouncedExactly`, `IncidentAnnouncements.EscalatedWithoutRecovery`).
- Deleting an open incident leaves the outage or the threshold level it stood for: until the next reading of the
  threshold its level has nothing open (`ThresholdRuns.DeletionStrandsLevel`), and an outage opens a new incident only
  when k DOWNs in a row have completed since (`AvailabilityStream.DeletionsApart`).
- A cleanup deletes results by age alone, also those a confirmation would still have asked about. It changes an incident
  or an event exactly when a DOWN completes k in a row of which cleanups have left too few
  (`ResultRetention.RetentionChangesExactly`); a target checked less often than results are kept for meets that
  (`ResultRetention.RetentionDelaysOpening`).
- A check without an address of its own asks its target's address, and editing that address makes no new version of the
  check. Results with one stamp come from one endpoint exactly when the check has its own address or the target had the
  same one at both launches (`CheckEndpoints.OneEndpointExactly`); an incident can open over two addresses
  (`CheckEndpoints.OpensOverTwoAddresses`).
- Rates and deltas can join readings of an interface under two names: exactly when a save gives rates with a logged
  baseline read under another name than its poll was prepared for (`TrafficRuns.RunJoinsDevicesExactly`). Behind each
  such save there is one of two things (`TrafficRuns.JoinsComeFrom`): a poll prepared before the interface was renamed
  and saved after monitoring was switched on again (`TrafficRuns.UnsettledSaveJoinsTwoDevices`), or a rename by way of a
  discovery that found no name, which the portal does not notice because it compares with the name found last, if any
  (`TrafficRuns.SilentRenameJoinsTwoDevices`). After either, one more discovery and poll join two devices as long as a
  sample is left (`TrafficRuns.UnsettledStepCanJoin`).
- A protocol without Counter64 is not asked for the wide counters, but a reply that volunteers them is believed unless
  the narrow mode is already chosen (`InterfaceTraffic.SnapshotReadsOnlyPolled`).
- Pages of a conversation are cut by id but ordered by time; they add up to the conversation at every page size exactly
  when ids grow along it (`ChatPaging.PagingIsComplete`). While the clock never steps back they always do
  (`ChatRuns.PagesShowConversation`).
- The header counts unread messages of a sender who was switched off but not deleted, although no contact is listed for
  them (`ChatRuns.HeaderIsSumOfBadges`, and `ChatRuns.HeaderWithoutBadges` for a run that does it).
- A target that is a second entry of a blocked site is checked by the scheduler while the health view calls it
  unreachable (`SiteRules.HealthAgreesUnless`, `SiteRules.SecondEntryDisagrees`). The editor never makes two entries of
  one site (`SiteRules.EditingKeepsOneEntry`); they can come from a restored archive or from two edits saved at once,
  since no unique index of the table forbids them.
- A restore makes missing primary checks before it resets the id sequences, so beside missing tables and dangling
  references it fails, and is undone, when one of the ids the sequence gives next belongs to a restored check
  (`BackupRoundTrips.FreshSequenceCollides`). It fails too when the archive has no active administrator, or not the
  built-in schedule as it comes with the portal (`RestoreAcceptance.ArchiveWithoutAdministrator`). Within the model
  nothing else makes it fail (`RestoreAcceptance.RestoreSucceedsExactly`), so a backup of a consistent database with its
  primary checks is accepted by any installation exactly when it keeps an active administrator and the built-in schedule
  intact (`RestoreAcceptance.OwnBackupRestores`).

## Model

| member | source | states |
|---|---|---|
| UnstableLinks.UnstableLink.RecordRecoveredUp | src/monitoring/services/unstable_link.py:31-43 | an UP that ends an unconfirmed outage sets the deadline an hour after it; a pending DOWN is always dropped |
| UnstableLinks.UnstableLink.RecordConfirmedDown | src/monitoring/services/unstable_link.py:26-28 | a confirmed outage clears both parts of the marker |
| Incidents.ConfirmedIsTail | src/monitoring/services/incidents.py:451-479 | a failure is confirmed exactly when the last k results exist and all are DOWN, k being the clamped setting |
| Incidents.NewestIsTail | src/monitoring/services/incidents.py:469-479 | the newest-first query with a limit reads the tail of the history |
| Incidents.IncidentService.ProcessResult | src/monitoring/services/incidents.py:56-119 | one stored primary result changes incidents, marker and events exactly as the step function of the availability slot |
| Incidents.IncidentService.ProcessTargetCheckResult | src/monitoring/services/incidents.py:121-189 | the same for a secondary check, confirmed over results of its present version only; a primary check does nothing; a directory check keeps no marker |
| Incidents.IncidentService.RecordFailure | src/monitoring/services/incidents.py:56-119 | the DOWN branch: counts on the open incident, or opens one when confirmed, announcing through the gate |
| Incidents.IncidentService.RecordRecovery | src/monitoring/services/incidents.py:56-119 | the UP branch: resolves the open incident and announces the recovery of an announced one |
| Incidents.IncidentService.OpeningNotification | src/monitoring/services/incidents.py:482-531 | an opening is announced once and never while suppressed, and the attempt is stamped |
| Incidents.IncidentService.RecoveryNotification | src/monitoring/services/incidents.py:558-570 | a recovery is announced once, only after an announced opening and never while suppressed |
| Incidents.IncidentService.ApplyCheckTlsHealth | src/monitoring/services/incidents.py:244-312 | certificate health opens, escalates or resolves the certificate incident of the check |
| Incidents.IncidentService.SetSourceState | src/monitoring/services/incidents.py:323-398 | an SNMP source's severity opens, updates, escalates or resolves its one incident |
| Incidents.IncidentService.ResolveSourceSilently | src/monitoring/services/incidents.py:400-420 | resolves a source's incident without an event |
| Incidents.IncidentService.ResolveCheckSilently | src/monitoring/services/incidents.py:191-242 | resolves the incidents of a check, or only its certificate incidents, without an event |
| Monitoring.MonitoringService.SaveResult | src/monitoring/services/monitoring.py:226-248 | a result is stored and processed exactly when target, site and schedule admit it; otherwise nothing changes |
| Monitoring.MonitoringService.DeleteIncident | src/monitoring/web/admin_routes.py:2292-2322 | deletes the incident, open or not, as the deletion step of the runs, and reports one that is not there |
| Monitoring.MonitoringService.SaveTargetCheckResult | src/monitoring/services/monitoring.py:250-324 | a secondary result is stored under the check's present version only if the caller expected that version, then drives both kinds of incident of the check; for a secondary check it is exactly the landing of its flight in the runs of CheckVersions |
| Monitoring.MonitoringService.EditCheck | src/monitoring/web/target_check_routes.py:424-465 | an edit that changes what is measured makes a new version and resets the marker, as the edit step of those runs |
| Monitoring.MonitoringService.ToggleCheck | src/monitoring/web/target_check_routes.py:536-552 | switching a check makes a new version; switching it off resolves its incidents silently, as the toggle step of those runs |
| IncidentRuns.AtMostOneOpen | src/monitoring/services/incidents.py:56-119 | in every reachable table each availability, check, certificate or SNMP slot has at most one open incident |
| IncidentRuns.EventProtocol | src/monitoring/services/incidents.py:482-570 | however suppression toggles: at most one RECOVERED, after the incident's OPENED and as its last event; one OPENED at most for availability and checks |
| IncidentRuns.CertificateDecides | src/monitoring/services/incidents.py:244-312 | whatever came before, a certificate reading leaves a warning incident open exactly when its health is a warning, a critical one exactly when it is critical, and none exactly when it is good |
| IncidentRuns.SourceDecides | src/monitoring/services/incidents.py:323-398 | so does a reading of an SNMP source with its severity, whether or not it may announce anything |
| IncidentAnnouncements.AnnouncedExactly | src/monitoring/services/incidents.py:482-570 | over any run, with suppression, silent steps, edits and deletions anywhere: RECOVERED is announced exactly for an incident whose opening was attempted and which a free step resolved; for SNMP and certificate incidents, where the attempt is made at the opening or never, OPENED exactly once if the opening step was free plus once per free rise to critical |
| IncidentAnnouncements.OutageAnnouncedExactly | src/monitoring/services/incidents.py:56-189 | for availability and check incidents, told by the run alone: OPENED once exactly when some DOWN of the slot was processed free of suppression while the incident was open, otherwise never; RECOVERED exactly when such a DOWN came and a free step resolved it |
| IncidentAnnouncements.NormalReadingRecovers | src/monitoring/services/incidents.py:290-398 | a free reading back to normal announces the recovery exactly when the incident was opened in a free step, for SNMP sources and certificates alike |
| IncidentAnnouncements.LoudSourceAnnouncesAll | src/monitoring/services/incidents.py:244-398 | a slot none of whose own steps is quiet, whatever happens elsewhere in the run: each incident announces its opening and every rise, and exactly one recovery once resolved, unless its own check was resolved silently |
| IncidentAnnouncements.UnsuppressedRunAnnouncesAll | src/monitoring/services/incidents.py:244-398 | with nothing quiet anywhere that is every incident of the run |
| IncidentAnnouncements.RecoveryDecidedAtOpening | src/monitoring/services/incidents.py:380-398 | however a run goes on, an SNMP or certificate incident announces its recovery exactly when its opening was announced at once and a free step resolves it |
| IncidentAnnouncements.EscalatedWithoutRecovery | src/monitoring/services/incidents.py:380-398 | a run that opens while suppressed, then announces an escalation and no recovery |
| IncidentRuns.OtherSlotsUntouched | src/monitoring/services/incidents.py:323-420 | a step changes no incident of another slot and emits nothing for one |
| IncidentRuns.StepWrites | src/monitoring/services/incidents.py:56-398 | what any result or reading writes: a row begun at its own time with the configured count or 1, one more failure counted at that time, or a row closed at that time, stamps being of the moment of processing; no other field of any row changes |
| IncidentRuns.SilentResolveKeepsOthers | src/monitoring/services/incidents.py:191-242 | an administrator's change of a check touches neither availability nor SNMP incidents |
| IncidentRuns.SilentResolveResolves | src/monitoring/services/incidents.py:191-242 | row by row: what is open of the check's certificate, and of the check itself if asked to, is resolved at that moment and detached if asked to, every other row stays, and nothing of the two is open afterwards |
| IncidentRuns.EraseKeepsOthers | src/monitoring/web/admin_routes.py:2292-2320 | deleting an incident touches the open incident of no slot but its own |
| AvailabilityStream.IncidentFollowsResults | src/monitoring/services/incidents.py:56-119 | over any run, deletions of incidents included, an availability incident is open exactly when the results since the last UP complete k consecutive DOWNs after its last deletion; its failure count is the raw setting plus the DOWNs since |
| AvailabilityStream.DeletionsApart | src/monitoring/web/admin_routes.py:2292-2350 | the deletions set aside: open exactly when the results since the last UP contain k consecutive DOWNs, except exactly when the incident was deleted after the last such k were complete |
| AvailabilityStream.CountIsTrueExactly | src/monitoring/services/incidents.py:80-160 | the count of an open incident is the number of DOWNs from the confirming k on exactly when the setting is in 1..10 |
| AvailabilityStream.UnlistedSettingMiscounts | src/monitoring/services/incidents.py:80-90 | with a stored setting of 0 the first DOWN opens an incident counting no failure |
| AvailabilityStream.ConfirmedIsRun | src/monitoring/services/incidents.py:469-479 | the window of the last k results is a run of DOWNs exactly when the results since the last UP end in one |
| ResultRetention.RetentionChangesExactly | src/monitoring/services/maintenance.py:35-47 | with cleanups of any age anywhere in a run, incidents and events are at every moment those of the run without cleanups exactly when no DOWN comes to a target without open incident whose last k - 1 results were DOWN while fewer than k - 1 of its results are left |
| ResultRetention.SparingRetentionChangesNothing | src/monitoring/services/maintenance.py:35-47 | cleanups that leave each target its k - 1 newest results, or all it had, change no incident and no event |
| ResultRetention.RetentionDelaysOpening | src/monitoring/services/maintenance.py:35-47 | a run whose second DOWN opens nothing because a cleanup deleted the first |
| ResultRetention.CleanupCheckHistory | src/monitoring/services/maintenance.py:20-47 | deletes primary and secondary results older than the retention, 90 days unless set and held between 7 and 3650, and counts them, as the cleanup step of those runs |
| MarkerStream.MarkerFollowsResults | src/monitoring/services/unstable_link.py:16-43 | over every run, with resets by target edits and toggles and with deleted incidents, a DOWN is pending exactly when one came since the last UP, reset and deletion and no incident is open; the deadline is that of the last UP ending an unconfirmed outage since the reset unless a confirmed one followed |
| MarkerStream.ShowsExactly | src/monitoring/services/unstable_link.py:16-23 | the marker shows, as `UnstableLink.Active` answers, exactly while an hour has not passed since an UP that ended an unconfirmed outage and that nothing has overruled |
| MarkerStream.ImmediateConfirmationNeverUnstable | src/monitoring/services/incidents.py:96-117 | when one failure confirms, the marker never shows |
| MarkerStream.LastDecider | src/monitoring/services/unstable_link.py:16-43 | either nothing ever decided the deadline or some result was the last to |
| CheckVersions.StampsAreTrue | src/monitoring/services/scheduler.py:585-603 | whatever edits interleave with checks in flight, a stored result carries the version it was measured under, and one version means one execution signature; the target's address is not part of it, see the two rows of CheckEndpoints |
| CheckVersions.MovesDecide | src/monitoring/web/target_check_routes.py:424-605 | field by field: an edit of the signature makes the next version and touches no incident; a toggle makes the next version, and switching off resolves what is open of the check and its certificate; a removal takes the check away, resolves that and detaches it; other checks, results and flights stay |
| CheckVersions.CheckIncidentOpensExactly | src/monitoring/services/incidents.py:143-160 | a check incident opens exactly when a result is stored and the last k results of the check are DOWN and all measured under its present version and signature |
| CheckVersions.StoredConfirms | src/monitoring/services/incidents.py:451-466 | the confirmation query, which filters by version, asks about the last k results of the check |
| CheckEndpoints.OneEndpointExactly | src/monitoring/services/target_checks.py:216-242 | over any run of edits, launches, landings and new addresses of targets: two results of a check with one stamp were measured at one endpoint exactly when the check has its own address or the target had the same address at both launches; always when it was not readdressed in between, never when it was once |
| CheckEndpoints.OpensOverTwoAddresses | src/monitoring/models/target_check.py:132-136 | a run that opens an incident over two DOWNs with one stamp measured at two addresses |
| Thresholds.ValidLimitsNest | src/monitoring/services/snmp_thresholds.py:90-106 | with both limits given, the editor accepts exactly the pairs for which critical implies warning |
| Thresholds.OneLimitNeeded | src/monitoring/services/snmp_thresholds.py:90-106 | one limit alone is always accepted, none at all never |
| Thresholds.LevelCountsLimits | src/monitoring/services/snmp_thresholds.py:67-106 | with both limits given and accepted, the level is the number of limits the value is past |
| Thresholds.LevelMonotone | src/monitoring/services/snmp_thresholds.py:67-87 | moving further past the limits never lowers the level |
| Thresholds.KeysDistinct | src/monitoring/services/snmp_thresholds.py:162-163 | thresholds never share a source key with each other or with the power supply's own incidents |
| Thresholds.SnmpThresholdService.EvaluateTarget | src/monitoring/services/snmp_thresholds.py:520-602 | each enabled threshold with a fresh value gets its level, and its incident follows; the others stay |
| Thresholds.SnmpThresholdService.Reset | src/monitoring/services/snmp_thresholds.py:604-670 | the selected thresholds return to rest and their incidents resolve silently |
| ThresholdRuns.SlotAfterSource | src/monitoring/services/incidents.py:323-398 | after a reading, the source's incident is open exactly when the reading was not normal, with its severity |
| ThresholdRuns.EvaluationFrame | src/monitoring/services/snmp_thresholds.py:520-602 | an evaluation touches only incidents of thresholds it has a fresh value for: no other threshold's, not the power supply's |
| ThresholdRuns.EvaluationRows | src/monitoring/services/snmp_thresholds.py:520-602 | missing or stale values change no threshold |
| ThresholdRuns.ResetFrame | src/monitoring/services/snmp_thresholds.py:604-670 | a reset touches only incidents of the thresholds it selects |
| ThresholdRuns.ResetAllRows | src/monitoring/services/snmp_thresholds.py:604-670 | a reset returns exactly the selected thresholds to rest |
| ThresholdRuns.ResetReaches | src/monitoring/services/snmp_thresholds.py:604-670 | a reset of one threshold, of a target or of a source brings exactly the thresholds of that id, target or source to rest and disables them if asked to |
| ThresholdRuns.EditsTakeEffect | src/monitoring/web/snmp_routes.py:1321-1480 | a new threshold is appended at rest under the next id, a change replaces everything but id and target and starts at rest, switching on enables at rest, a removal takes one row away |
| ThresholdRuns.LevelsMatchIncidents | src/monitoring/services/snmp_thresholds.py:520-633 | across any run of evaluations, resets, edits, deletions of incidents and other incident work: level normal exactly when no incident with the key is open, warning exactly when a warning one is, critical exactly when a critical one is, if and only if the threshold's incident has not been deleted since its last evaluation or reset |
| ThresholdRuns.EvaluationDecides | src/monitoring/services/snmp_thresholds.py:67-602 | in every reachable state, evaluating an enabled threshold with a fresh reading leaves a critical incident open exactly when the reading is past the critical limit, a warning one exactly when it is past the warning limit only, none exactly when it is past neither, a limit that is not set never being passed |
| ThresholdRuns.DeletionStrandsLevel | src/monitoring/web/admin_routes.py:2292-2350 | deleting the open incident of a threshold leaves its level above normal with nothing open, from any reachable state |
| CounterRates.DeltaIsTrue | src/monitoring/services/snmp_interfaces.py:156-180 | the octets read off a pair of readings are those that passed, or none are given |
| CounterRates.RateIsExact | src/monitoring/services/snmp_interfaces.py:156-180 | for a true increase below 2^32 a rate is exactly floor(8d/elapsed), and is given exactly when time passed, a wrap is inside the watermarks and the speed allows it; an accepted wrap is at most 858993459 octets |
| CounterRates.WholeTurnInvisible | src/monitoring/services/snmp_interfaces.py:156-180 | an increase of one whole Counter32 turn reads as none |
| CounterRates.RateWithinSpeed | src/monitoring/services/snmp_interfaces.py:156-180 | with a known speed a rate is between 0 and floor(1.25 speed) |
| InterfaceTraffic.SnapshotReadsOnlyPolled | src/monitoring/services/snmp_interfaces.py:121-235 | what is read off a reply depends only on variables the poll asked for exactly when the protocol knows Counter64 or the narrow mode is already chosen |
| InterfaceTraffic.TrafficPollAsks | src/monitoring/services/snmp_interfaces.py:121-153 | a poll asks for errors and discards always, for the wide counters unless the protocol has none or the narrow mode is chosen, and for the narrow ones unless the wide mode is chosen and the protocol has them |
| InterfaceTraffic.SnapshotExactly | src/monitoring/services/snmp_interfaces.py:207-259 | the octets read are those of the columns of the mode that is read, received and sent each from their own, and none when one of the two is missing |
| InterfaceTraffic.PolledFromReply | src/monitoring/services/snmp.py:995-1075 | a logged sample and its baseline come from this reply's own columns in the mode asked for, or the wide one when both wide counters answered; a poll without counters keeps no baseline |
| InterfaceTraffic.StatusDecides | src/monitoring/services/snmp.py:968-987 | a reply that lacks one of the two status variables, or has an error in one, changes nothing of the traffic |
| TrafficRates.SavedRates | src/monitoring/services/snmp.py:1008-1063 | what a poll saves and logs, over any baseline: without a whole one no rates; with one, rates exactly when mode, time, wraps and speed allow them, and then those of the octets between the two readings |
| TrafficRates.SavedRatesAreTrue | src/monitoring/services/snmp.py:1008-1063 | for the octets that really passed, less than a turn: rates are floor(8000000 d / microseconds) when a poll did not read the device's clock and floor(800 d / ticks) when both did, given exactly when time went forward, a turn ran from the last tenth into the first and both rates keep within five quarters of the speed |
| TrafficRates.ReadingAfterPoll | src/monitoring/services/snmp_thresholds.py:376-469 | right after a poll a threshold reads the saved rate of its own direction in megabits, or the growth of errors or discards of both directions together since the sample before |
| InterfaceTraffic.InterfaceTable.SavePoll | src/monitoring/services/snmp.py:967-1075 | the interface loop of a poll updates each requested interface once, from the row as it is now |
| InterfaceTraffic.InterfaceTable.SaveInventory | src/monitoring/services/snmp.py:597-653 | a discovery updates found interfaces, clears changed identities with their samples, and marks the rest missing |
| InterfaceTraffic.InterfaceTable.ClearData | src/monitoring/services/snmp.py:1092-1143 | deletes the samples, then loops over the interfaces and clears each one's runtime, leaving every interface cleared |
| InterfaceTraffic.ClearedForgets | src/monitoring/services/snmp.py:1092-1143 | after clearing nothing of the past is left: interfaces alike in identity, speed and choice become equal, and neither they nor their first poll give a threshold any value |
| InterfaceTraffic.RequestedPolledOnce | src/monitoring/services/snmp.py:967-1075 | interface by interface, a poll saves the one request it has for it |
| InterfaceTraffic.DiscoveredPointwise | src/monitoring/services/snmp.py:597-653 | interface by interface, a discovery applies its own row once or marks it missing |
| InterfaceTraffic.InventoryDecides | src/monitoring/services/snmp.py:597-653 | field by field: a found interface has what was found and is there, one that is new or was known under another name starts blank, unmonitored and without samples, another keeps its traffic; one not found is blank, not there, and keeps samples, name and choice |
| InterfaceTraffic.SelectionDecides | src/monitoring/web/snmp_routes.py:1045-1075 | choosing an interface anew blanks its traffic and leaves samples, name and presence; the same choice changes nothing |
| TrafficRuns.RunSound | src/monitoring/services/snmp.py:990-1075 | in every reachable state baselines are whole, the log ascends and is linked reading to reading, and the newest sample is the baseline's |
| TrafficRuns.NewestSampleIsBaseline | src/monitoring/services/snmp.py:995-1075 | a held baseline has an empty log or a newest sample taken at it; mode, counters and time are present together, and so are both rates |
| TrafficRuns.RatesComeFromPredecessor | src/monitoring/services/snmp.py:990-1063 | a sample with rates got them from exactly its predecessor's reading, in the same mode, forward in time, with no detected reboot between, and they are the octets between the two readings, in bits, over the time between them, rounded down |
| TrafficRuns.ModeSwitchesOnlyWhenCleared | src/monitoring/services/snmp.py:655-671 | a counter mode changes only through a cleared baseline |
| TrafficRuns.DeltaSpansNoBreak | src/monitoring/services/snmp_thresholds.py:426-469 | an error or discard delta never spans a reboot, counter error, mode change, clearing or reselection |
| TrafficBreaks.EpochCountsBreaks | src/monitoring/services/snmp.py:1003-1063 | the epochs of the runs count the breaks, each written out: a saved poll whose counters fail, change their mode or come with an uptime that fell, a missed or renamed interface, a new choice, clearing |
| TrafficBreaks.RatesCrossNoBreak | src/monitoring/services/snmp.py:1003-1063 | whatever breaks the traffic anywhere in a run, no sample since has rates reaching back to a sample before |
| TrafficBreaks.DeltasCrossNoBreak | src/monitoring/services/snmp_thresholds.py:426-469 | ... and no later poll gives a threshold an error or discard delta until two samples were taken since |
| TrafficRuns.SettledRunsJoinOneDevice | src/monitoring/services/snmp.py:608-653 | while no poll prepared under an earlier name is saved for a monitored interface, and no new name is found that goes unnoticed while a baseline is held, no rate or delta joins readings under two names |
| TrafficRuns.StepJoinsDevicesExactly | src/monitoring/services/snmp.py:990-1063 | a name being the last the interface was found under: from any sound state of one device a step joins two exactly when it saves counters that give rates with a logged baseline read under another name than its poll was prepared for |
| TrafficRuns.RunJoinsDevicesExactly | src/monitoring/services/snmp.py:990-1063 | no state of a run has rates or deltas over two names exactly when no step of it is such a save |
| TrafficRuns.JoinsComeFrom | src/monitoring/services/snmp.py:608-653 | behind every such save there is a save of a poll prepared under an earlier name, that one or an earlier one, or a rename through a nameless discovery that kept the baseline |
| TrafficRuns.UnsettledStepCanJoin | src/monitoring/services/snmp.py:608-653 | each of those two steps keeps a baseline of another name, and one more discovery and poll with unmoved counters join two devices if any sample is left, which after such a save there always is |
| TrafficRuns.UnsettledSaveJoinsTwoDevices | src/monitoring/services/snmp.py:995-1075 | a run with a late save whose delta joins two devices |
| TrafficRuns.SilentRenameJoinsTwoDevices | src/monitoring/services/snmp.py:617-634 | a run with no late save whose interface is found without a name and then under a new one: the next sample's rate is counted from the old device's reading |
| Formulas.SourceCollector.Add | src/monitoring/services/snmp_formula.py:135-139 | collects a source once and refuses a seventeenth |
| Formulas.SourceCollector.Walk | src/monitoring/services/snmp_formula.py:141-205 | the validator that grows one list of sources computes what the recursive specification says, fault for fault |
| Formulas.Least | src/monitoring/services/snmp_formula.py:112-113 | min gives a member no greater than any other |
| Formulas.Greatest | src/monitoring/services/snmp_formula.py:114-115 | max gives a member no smaller than any other |
| FormulaAgreement.ValidateCollects | src/monitoring/services/snmp_formula.py:141-205 | an accepted expression adds exactly the sources it mentions, each once, at most sixteen in all |
| FormulaGrammar.ValidateExactly | src/monitoring/services/snmp_formula.py:141-205 | an expression is accepted after others exactly when it is of the written-out grammar and all of them together mention at most sixteen different sources |
| FormulaGrammar.CompilesExactly | src/monitoring/services/snmp_formula.py:125-208 | a formula compiles exactly when its stripped text has 1 to 2000 characters, it parses, what it parses to is of the grammar and mentions at most sixteen different sources |
| Oids.StripExactly | src/monitoring/services/snmp_formula.py:126 | stripping takes blanks off both ends and nothing else, and leaves none at either end |
| FormulaAgreement.EvaluateFits | src/monitoring/services/snmp_formula.py:61-122 | evaluating an accepted expression needs all it mentions and asks for nothing else; no other failure than a missing source or arithmetic is reachable |
| FormulaAgreement.EvaluateAgrees | src/monitoring/services/snmp_formula.py:61-122 | an accepted expression depends on nothing but the sources it mentions |
| FormulaAgreement.CompiledSources | src/monitoring/services/snmp_formula.py:125-208 | a compiled formula's sources are duplicate-free, at most sixteen, and what it mentions |
| FormulaAgreement.CompiledSourcesCanonical | src/monitoring/services/snmp_formula.py:135-205 | every source is spelled as replies are keyed, so it can be found in one |
| FormulaAgreement.CompiledFormulaRuns | src/monitoring/services/snmp_formula.py:61-122 | a compiled formula succeeds only with all sources present, and otherwise fails on one of its sources that is missing, a zero divisor or a zero storage total |
| FormulaAgreement.CompiledFormulaReadsItsSources | src/monitoring/services/snmp_formula.py:61-122 | readings of anything but its sources never change its value |
| FormulaAgreement.StorageFiguresAddUp | src/monitoring/services/snmp_formula.py:94-108 | used plus free is total, and the percentage is the free share of it |
| FormulaAgreement.RoundingIsNearest | src/monitoring/services/snmp_formula.py:118-120 | round moves a number at most half a unit of the last place, to a whole number of units, ties away from zero |
| FormulaLaws.OperandFaults | src/monitoring/services/snmp_formula.py:74-88 | the first operand that fails decides the outcome; with both numbers the only failure is a division by zero |
| FormulaLaws.NumbersAreThemselves | src/monitoring/services/snmp_formula.py:18-21 | a literal evaluates to itself; KiB is 1024, MiB is KiB times KiB, GiB is KiB times MiB |
| FormulaLaws.LiteralsCompute | src/monitoring/services/snmp_formula.py:70-88 | sums, differences, products and negatives of whole literals are those of the whole numbers |
| FormulaLaws.Sums | src/monitoring/services/snmp_formula.py:80-81 | sums in any order and grouping, 0 neutral |
| FormulaLaws.Products | src/monitoring/services/snmp_formula.py:84-85 | products in any order and grouping, 1 neutral |
| FormulaLaws.ProductOfSum | src/monitoring/services/snmp_formula.py:80-85 | the product distributes over the sum |
| FormulaLaws.Differences | src/monitoring/services/snmp_formula.py:82-83 | (a - b) + b is a, and a - b is a + (-b) |
| FormulaLaws.Negatives | src/monitoring/services/snmp_formula.py:74-76 | a + (-a) is 0, -(-a) is a, +a is a |
| FormulaLaws.Quotients | src/monitoring/services/snmp_formula.py:86-88 | (a / b) b is a for b other than 0 |
| FormulaLaws.ExtremesOfArguments | src/monitoring/services/snmp_formula.py:111-115 | min and max are among the values of their arguments and bound all of them |
| FormulaLaws.AbsoluteValue | src/monitoring/services/snmp_formula.py:116-117 | abs is not negative and the argument or its negative |
| FormulaLaws.RoundsToWhole | src/monitoring/services/snmp_formula.py:118-120 | round without places, or with 0, is a whole number at most half away, ties away from zero |
| FormulaLaws.OnePlaceMore | src/monitoring/services/snmp_formula.py:118-120 | ten times a rounding to n + 1 places is the rounding of ten times the number to n |
| FormulaLaws.OidReads | src/monitoring/services/snmp_formula.py:63-67 | oid gives the reading under the canonical spelling of its text, or names it as missing |
| FormulaLaws.StorageFigures | src/monitoring/services/snmp_formula.py:94-108 | total is column 5 times column 4 of the storage row, used is column 6 times column 4, free their difference, the percentage 100 times free over total, or a failure for a total of zero |
| PollRequests.DedupKeepsEachOnce | src/monitoring/services/snmp.py:707-718 | the request lists every variable once |
| PollRequests.RequestedAre | src/monitoring/services/snmp.py:686-718 | a variable is requested exactly when a system field, metric, formula, interface, supply or the power supply needs it |
| PollRequests.GetValues | src/monitoring/services/snmp.py:673-683 | the variables are sent in order, each exactly once, in requests of one to sixteen, stopping at the first failure |
| PollRequests.MergeAnswers | src/monitoring/services/snmp.py:682-683 | answers are kept under their canonical identifier, the last one winning |
| PollRequests.FormulaMetricOutcomes | src/monitoring/services/snmp.py:862-884 | a formula metric gives a number, or fails on its arithmetic, or on a requested source that came back without a number |
| PollRequests.FormulasReadNumbers | src/monitoring/services/snmp.py:862-866 | formulas see exactly the whole numbers of numeric variables without an error, as they came |
| PollRequests.PlainMetricOutcome | src/monitoring/services/snmp.py:885-902 | a metric without formula gives the number of its own variable if that is numeric and whole, and otherwise tells no variable, no data, an error and a text apart |
| PollRequests.MetricReadsOnlyRequested | src/monitoring/services/snmp.py:862-902 | what a poll saves about a metric depends only on variables it asked for |
| PollRequests.InterfaceReadsOnlyRequested | src/monitoring/services/snmp.py:967-1075 | for an interface this is so exactly when the protocol knows Counter64, the narrow mode is chosen, or the request asks for both wide counters elsewhere |
| PollRequests.AnsweredPollsMissNothing | src/monitoring/services/snmp.py:673-718 | when every request is answered in full, no formula lacks a source |
| PollRequests.RequestedCanonical | src/monitoring/services/snmp.py:686-718 | everything requested is in the spelling replies are keyed by |
| PollRequests.EchoingPollsMissNothing | src/monitoring/services/snmp.py:673-718 | so a device that answers just what it is asked, with numbers, leaves no formula without a source |
| MetricSamples.SampleLimit | src/monitoring/services/snmp.py:159-168 | the cap is the setting when it is a number from 100 to 100000 and stays in that range whatever is stored |
| MetricSamples.MetricTable.SavePoll | src/monitoring/services/snmp.py:868-902 | the metric loop updates each polled metric that still exists, appends a sample for each number, then applies the cap |
| MetricSamples.TrimDropsOnlyOlder | src/monitoring/services/snmp.py:171-184 | whatever the order of rows, a dropped row is older than every kept one |
| MetricSamples.TrimKeepsNewest | src/monitoring/services/snmp.py:171-184 | with rows in order of time, exactly the newest N are kept |
| MetricRuns.RunSound | src/monitoring/services/snmp.py:277-284 | in every reachable state the history is ordered, within its cap, of existing metrics, and a target has at most 32 metrics |
| MetricRuns.CapSparesCurrentPoll | src/monitoring/services/snmp.py:1076-1083 | trimming never drops a row of the poll being saved, only the oldest part of the history before it |
| MetricRuns.SavedFields | src/monitoring/services/snmp.py:866-905 | what a saved poll leaves of each metric: a number with its time, no number but a time when the variable answered with something else, otherwise the error beside what was there; a metric not asked about is untouched |
| MetricRuns.DropsExactly | src/monitoring/services/maintenance.py:75-91 | deleting a metric drops its rows and retention those before its threshold, and neither another |
| MetricRuns.ThresholdSeesThisPoll | src/monitoring/services/snmp_thresholds.py:362-374 | right after a poll a metric threshold gets a value exactly when the metric exists, is enabled and this poll produced a number, and the value is that number |
| MetricRuns.ThresholdSeesThisPollInRuns | src/monitoring/services/snmp_thresholds.py:362-374 | the same in every reachable state, decided by the metric's own outcome |
| Chat.ChatStore.ConversationPage | src/monitoring/services/communication.py:256-279 | a page is the newest visible messages below before_id in order, and has_more says whether any are left |
| Chat.ChatStore.CreateMessage | src/monitoring/services/communication.py:320-334 | sends stripped text to another active user, or refuses |
| Chat.ChatStore.EditMessage | src/monitoring/services/communication.py:337-361 | changes the text of the sender's own message in the conversation, stamping it only if the text differs and touching nothing else, or refuses |
| Chat.ChatStore.RequestDeletion | src/monitoring/services/communication.py:364-390 | hides the history up to now from the requester and reads it |
| Chat.ChatStore.ResolveDeletion | src/monitoring/services/communication.py:424-439 | only the peer resolves a pending request; confirming deletes the pair's messages up to the cutoff |
| Chat.ChatStore.RestoreHistory | src/monitoring/services/communication.py:173-183 | loops over the user's hiding requests towards the peer and marks each restored, no other request changing |
| Chat.ChatStore.CleanupDeletedUser | src/monitoring/services/communication.py:106-146 | drops the requests of a deleted account in both directions, and loops over its already deleted partners removing those conversations, so that exactly the messages shared with deleted accounts go |
| ChatViews.ConfirmationViews | src/monitoring/services/communication.py:424-439 | confirming leaves the requester's view unchanged whatever other requests exist, cuts the peer's at the cutoff, and changes no other view |
| ChatViews.ConfirmationRemovesExactly | src/monitoring/services/communication.py:430-438 | the messages removed are the pair's up to the cutoff |
| ChatViews.RejectionViews | src/monitoring/services/communication.py:424-428 | rejecting changes nobody's view |
| ChatViews.RestorationViews | src/monitoring/services/communication.py:173-183 | restoring shows the user every surviving message of the pair and changes no other view |
| ChatViews.EverythingVisible | src/monitoring/services/communication.py:149-157 | without a cutoff a user sees exactly the messages of the pair |
| ChatViews.RequestViews | src/monitoring/services/communication.py:364-390 | a request empties the requester's view of the conversation and no other |
| ChatViews.ReadingViews | src/monitoring/services/communication.py:286-296 | reading changes no view and leaves nothing visible unread |
| ChatViews.MarkedExactly | src/monitoring/services/communication.py:286-296 | message by message: reading stamps exactly what that peer sent this user, unread and within the bounds, and changes nothing else |
| ChatViews.SendingViews | src/monitoring/services/communication.py:320-334 | a new message is seen by both sides whatever they have hidden, and by nobody else |
| ChatViews.ImmediateDeletionViews | src/monitoring/services/communication.py:78-103 | deleting outright empties the conversation for both sides and touches no other |
| ChatViews.UserDeletionViews | src/monitoring/services/communication.py:106-146 | deleting an account empties its conversations with accounts deleted earlier, shows live partners the whole of theirs, and changes no other view |
| ChatViews.RefusedRequestRestores | src/monitoring/services/communication.py:364-439 | asking, being refused and restoring gives everybody the view from before the request |
| ChatPaging.ChronologicalOrders | src/monitoring/services/communication.py:271-276 | messages are ordered by time and then id, none lost or added |
| ChatPaging.FollowedIsBelow | src/monitoring/services/communication.py:256-279 | with ids in order, following before_id terminates with exactly the messages below the start |
| ChatPaging.PagingIsComplete | src/monitoring/services/communication.py:256-279 | the pages add up to the conversation at every page size exactly when ids grow along it |
| ChatRuns.RunSound | src/monitoring/services/communication.py:106-401 | in every reachable state, deletions of accounts included, whatever is hidden from its recipient has been read, and ids follow time |
| ChatRuns.Perform | src/monitoring/services/communication.py:78-439 | every step of the runs is what the service's own methods do to the stored tables: sending, editing, reading, asking, resolving, restoring, deleting, and an account's deletion with its cleanup |
| ChatRuns.BadgeIgnoresCutoff | src/monitoring/services/communication.py:210-217 | a contact's unread count is the same with and without the cutoff |
| ChatRuns.HeaderIsSumOfBadges | src/monitoring/services/communication.py:523-526 | in every reachable state the header's message count is at least the sum of the contacts' badges, and equals it exactly when every unread message comes from someone else who is active or deleted |
| ChatRuns.HeaderWithoutBadges | src/monitoring/services/communication.py:187-217 | a run that switches a sender off leaves one message in the header and none in the badges |
| ChatRuns.PagesShowConversation | src/monitoring/services/communication.py:256-279 | in every reachable state following the pages shows the whole visible conversation in order, at every page size |
| SiteGates.TargetRegistry.SetSiteEntry | src/monitoring/services/site_entry.py:117-144 | marks a network or server target as entry, clears the entry it replaces and names it; other kinds are refused |
| SiteGates.TargetRegistry.NormalizeForKind | src/monitoring/services/site_entry.py:147-151 | an entry of another kind loses its mark |
| SiteGates.TargetRegistry.EditTarget | src/monitoring/web/admin_routes.py:1470-1515 | saving the editor moves the target, then sets or clears its entry mark |
| SiteGates.TargetRegistry.LoadGates | src/monitoring/services/site_entry.py:42-99 | each site's gate is that of its entry with the smallest id, with the newest stored status |
| SiteGates.TargetRegistry.BlockedSites | src/monitoring/services/site_entry.py:102-107 | a site is blocked exactly when its entry is enabled, on schedule and last stored DOWN |
| SiteGates.TargetRegistry.IsManualSuppressed | src/monitoring/services/site_entry.py:110-114 | a manual check is refused exactly for a non-entry of a blocked site |
| SiteBatches.Scheduler.CheckAndSave | src/monitoring/services/scheduler.py:558-577 | a check is made, its result stored if admissible, and the target completed |
| SiteBatches.Scheduler.CheckTogether | src/monitoring/services/scheduler.py:476-477 | checks run together store and complete each item once, in whatever order they finish |
| SiteBatches.Scheduler.Admit | src/monitoring/services/scheduler.py:484-490 | targets of blocked sites are completed unchecked, the rest go on |
| SiteBatches.Scheduler.RunBatch | src/monitoring/services/scheduler.py:469-492 | entries are checked first; gates are read after their results; skipped, checked and completed are exactly as the two phases say |
| SiteRules.SettingKeepsOneEntry | src/monitoring/services/site_entry.py:117-144 | setting or clearing an entry leaves every site with at most one |
| SiteRules.EditingKeepsOneEntry | src/monitoring/web/admin_routes.py:1470-1515 | so does saving the editor of any target, even into another site; entries stay network devices or servers |
| SiteRules.GateIsTheEntrys | src/monitoring/services/site_entry.py:42-99 | with one entry per site the gate is that of the entry |
| SiteRules.HealthAgreesUnless | src/monitoring/services/target_health.py:508-534 | for an enabled target on schedule the health view and the manual check agree exactly unless it is a second entry of a blocked site |
| SiteRules.HealthExactly | src/monitoring/services/target_health.py:508-582 | what the view says: off or out of hours, of such targets; unreachable, behind another entry that is enabled, on schedule and down; else its own availability, and when that is up the worst of its problems |
| SiteRules.SecondEntryDisagrees | src/monitoring/services/target_health.py:508-534 | two entries of one site, the first down: the second is called unreachable and its manual check allowed |
| SiteRules.HealthAgreesWithScheduler | src/monitoring/services/target_health.py:508-534 | with one entry per site they always agree |
| SiteRules.BatchPartitions | src/monitoring/services/scheduler.py:469-492 | every scheduled target is completed exactly as often as scheduled, either checked or skipped, and no entry is skipped |
| SiteRules.LatestStored | src/monitoring/services/site_entry.py:53-63 | whatever the order in which checks finish, the newest result of a target is this batch's if it was stored |
| SiteRules.StorableExactly | src/monitoring/services/monitoring.py:226-241 | a checked id is stored exactly when a target of that id exists and is enabled, its site is enabled and it is on schedule at the save |
| SiteRules.BatchStoresExactly | src/monitoring/services/scheduler.py:558-577 | of a target so admitted a batch stores the outcome once for every time it was checked, stamped with the moment of saving, and of any other nothing |
| BatchSaves.SaveOutcome | src/monitoring/services/monitoring.py:226-248 | saving an outcome through the monitoring service stores what the batch is said to store, as the primary step of the incident runs, and otherwise changes nothing |
| SiteRules.FreshDownHoldsSiblings | src/monitoring/services/scheduler.py:469-492 | a site with an entry and a server, nothing stored before, the entry answering DOWN: the DOWN is stored and the server skipped in the same batch |
| SiteRules.SkippedExactly | src/monitoring/services/scheduler.py:480-489 | a site holds its targets back exactly when its entry is enabled, on schedule and last seen DOWN, counting a result stored earlier in the batch |
| SiteRules.BatchSkipsExactly | src/monitoring/services/scheduler.py:469-492 | of one whole batch: an ordinary target is skipped exactly when its site's entry is enabled, on schedule at the gate and down, by a DOWN this batch stored (entry scheduled and enabled, site enabled, on schedule at the save) or, if it stored nothing of the entry, by the last one before; and checked exactly when it is not skipped |
| SiteRules.NoEntryNoBlock | src/monitoring/services/site_entry.py:102-107 | a site without an entry never holds its targets back |
| BackupSchema.ClearsChildrenFirst | src/monitoring/services/backups.py:74-104 | every reference is cleared child first, except from chat presence, which the users take along |
| BackupSchema.InsertsParentsFirst | src/monitoring/services/backups.py:105-132 | every table is inserted after the tables it refers to |
| BackupSchema.BackedUpIsInserted | src/monitoring/services/backups.py:56-132 | what a full backup holds is exactly what a restore inserts |
| BackupSchema.ConfigurationIsClosed | alembic/versions/0036_baseline_0_8_5.py:117-606 | a configuration refers to nothing outside itself and never to a user |
| Backups.CreateBackup | src/monitoring/services/backups.py:347-476 | the loop over tables and rows writes the archive the specification describes, or fails on a secret it cannot read |
| Backups.ExportTable | src/monitoring/services/backups.py:369-476 | each row is written with its secret in the clear and, in a configuration, its runtime columns reset |
| BackupRules.ExportedColumns | src/monitoring/services/backups.py:369-476 | an archived row has the reset value in each runtime column of a configuration, its secret opened, and every other column as it was |
| BackupRules.ConfigurationForgets | src/monitoring/services/backups.py:388-476 | table by table and column by column, what a configuration archive says in place of runtime state, every other plain column being kept; a full archive keeps all |
| BackupRules.LiveUsersExactly | src/monitoring/services/backups.py:238-250 | a configuration keeps exactly the users that are not deleted |
| BackupRules.BackupSucceedsExactly | src/monitoring/services/backups.py:347-476 | a backup of either kind is written exactly when the key opens the mail password, if there is one, and every directory password and community that is set |
| RestoreSteps.ClearStep | src/monitoring/services/backups.py:643-645 | clearing the next table is never refused and takes along nothing but chat presence |
| BackupSchema.DeleteExactly | src/monitoring/services/backups.py:643-645 | deleting a table's rows empties it and leaves, of every other table, only rows that refer to none of them, all those among them that did not before; it is refused only for a row that restricts it |
| RestoreSteps.ClearedConsistent | src/monitoring/services/backups.py:643-645 | wherever the clearing stops, no reference dangles |
| RestoreSteps.LoadedConsistent | src/monitoring/services/backups.py:647-660 | wherever the loading stops, between batches or inside a table, no reference dangles, exactly when the references of what is loaded so far resolve within the archive |
| RestoreSteps.RestoreSession.ClearAll | src/monitoring/services/backups.py:643-645 | clears the tables in order through consistent states only |
| RestoreSteps.RestoreSession.InsertTable | src/monitoring/services/backups.py:653-660 | inserts the rows of one table in batches of a thousand through consistent states only, and succeeds exactly when all their references resolve |
| RestoreSteps.RestoreSession.InsertAll | src/monitoring/services/backups.py:647-660 | inserts the archived tables in order, and succeeds exactly when every reference in them resolves |
| RestoreSteps.RestoreSession.Finish | src/monitoring/services/backups.py:661-673 | brings primary checks into line, taking new ids from the sequence and failing on a taken one, adds missing settings, and resets the sequence, through consistent states only; every target ends with a primary check that follows it column by column, and among the checks nothing else changes |
| RestoreSteps.RestoreSession.Restore | src/monitoring/services/backups.py:620-680 | replaces the database by the archive, or leaves it as it was: refused untouched when a table is missing, undone when an insert is rejected, an id is taken or the closing integrity check objects; every intermediate state is consistent |
| RestoreSteps.EnsuredConsistent | src/monitoring/services/target_checks.py:140-165 | ensuring primary checks leaves no reference dangling |
| Integrity.CheckDatabaseIntegrity | src/monitoring/services/backups.py:755-874 | the loops that count administrators, missing settings and rows without a parent report nothing exactly when the database is intact, and name administrators, the built-in schedule and the settings exactly when each is at fault |
| Integrity.AdministratorsExist | src/monitoring/services/backups.py:755-763 | an administrator is counted exactly when some user is active and has that role |
| Integrity.ScheduleIntactExactly | src/monitoring/services/backups.py:765-768 | the built-in schedule is intact exactly when the schedule with id 0 is there, built in and round the clock |
| Integrity.IntactExactly | src/monitoring/services/backups.py:723-874 | the closing check passes exactly when an active administrator exists, the built-in schedule is in place, every default setting is there and every reference of the tables whose orphans are counted leads to a row |
| Integrity.ConsistentHasNoOrphans | src/monitoring/services/backups.py:778-872 | where the foreign keys hold there is no row without a parent to count |
| BackupRules.FullRow | src/monitoring/services/backups.py:216-236 | a fully backed-up row returns with every column as it was and its secret under the new key with the same text |
| BackupRules.ConfigurationRow | src/monitoring/services/backups.py:369-476 | a configuration row saved, restored and saved again is the same archived row |
| BackupRules.ReopenedRow | src/monitoring/services/secrets.py:14-27 | an archived row whose secret is encrypted again and decrypted is the archived row |
| BackupRules.ArchiveIsConsistent | src/monitoring/services/backups.py:347-476 | what is restored of an archive of a consistent database refers to nothing missing |
| BackupRoundTrips.FullRestoreReproduces | src/monitoring/services/backups.py:620-680 | restoring a full backup over any database reproduces every row of every backed-up table, re-encrypted secrets having the same text |
| BackupRoundTrips.ConfigurationReturns | src/monitoring/services/backups.py:369-490 | backup, restore over any database and backup again is the identity on a configuration archive |
| RestoreAcceptance.OwnBackupRestores | src/monitoring/services/backups.py:620-680 | a backup of a consistent database with its primary checks in place is accepted by any installation exactly when the users it keeps include an active administrator and the built-in schedule is intact |
| PrimaryChecks.EnsuredAllSynced | src/monitoring/services/target_checks.py:140-178 | whatever checks an archive had, when no id collides every target has a primary check whose name, type, address, port, path, timeout, retries, switch and order are the stated values or the target's own |
| PrimaryChecks.EnsuredAllOnly | src/monitoring/services/target_checks.py:140-178 | of the checks before, only the first primary check of a target changes, and only in those columns; the rows made are the primary checks of targets that had none |
| BackupRoundTrips.EnsuredAllExactly | src/monitoring/services/backups.py:661-662 | the missing primary checks can all be made exactly when as many of the next ids are free; the ids afterwards are the old ones and that run of new ones, and stay unique |
| BackupRoundTrips.FreshSequenceCollides | src/monitoring/services/backups.py:661-673 | an archive with one check and a target lacking one fails over a sequence that stands at that check's id |
| BackupRoundTrips.NextFreeExactly | src/monitoring/services/backups.py:603-617 | after the reset the sequence gives exactly the ids from 1 on that lie above every check's |
| RestoreAcceptance.RestoreSucceedsExactly | src/monitoring/services/backups.py:620-680 | a restore succeeds exactly when every table is there, every reference resolves, the next ids are free for the primary checks the archive lacks, an administrator is active, and the built-in schedule is intact |
| RestoreAcceptance.RestoredIntact | src/monitoring/services/backups.py:675-679 | of all the closing check looks at, a loaded and finished database can fail it only on administrators and the built-in schedule: nothing is orphaned and no setting missing |
| RestoreAcceptance.ArchiveWithoutAdministrator | src/monitoring/services/backups.py:755-763 | a full archive without users loads and finishes without a fault, and is still refused |
| BackupRoundTrips.DefaultsComplete | src/monitoring/services/backups.py:663-672 | whatever settings an archive had, none is missing afterwards |
| BackupRoundTrips.DefaultsSay | src/monitoring/services/backups.py:663-672 | the archive's settings stay in place and keep their rows; one it did not have gets its default value; no other key appears |
| BackupRoundTrips.RestoreSyncs | src/monitoring/services/backups.py:661-673 | a restore that succeeds leaves unique check ids, a sequence clear of them, and a database that a further backup gives back whole |
| PrimaryChecks.SyncedStays | src/monitoring/services/target_checks.py:140-178 | a database whose primary checks all follow their targets in every one of those columns is left as it is |

## Left out

- Checkers, PySNMP, SMTP, Web Push, TLS management and Caddy: foreign calls; their outcomes are arbitrary inputs.
- Database sessions, transactions and locks: a save is one atomic step; of rollbacks only that of a restore is modelled.
- Message texts, labels, audit records, notification rows and the deletion-request part of the unread numbers.
- Routes, templates, exports and client scripts, except the edits and toggles named in the table.
- Retry loops of secondary checks, the due scan and scheduler metrics: easy members beside the batch.
- Details of the health view: service labels and the choice of the reported problem; problems enter only by severity.
- Time zones and schedules: whether a site is on schedule is an arbitrary input at each use.
- Decimal context precision, Numeric column rounding, floats and non-finite numbers; numbers are integers or reals.
- A target deleted while its batch runs, and checkers that raise, which abort the batch; scheduled targets exist
  throughout.
- AvailabilityStream.IncidentFollowsResults: its run has no cleanups; ResultRetention says exactly what they change.
- CheckVersions.CheckIncidentOpensExactly: its run has no cleanups either, so of results deleted by age only primary
  ones are followed.
- Results are stored in the order of their time: where a clock steps back, newest by time and newest by id differ.
- FormulaAgreement.CompiledFormulaRuns: arithmetic is exact, so overflow and non-finite results of the decimal context
  are not among the failures.
- SNMP supplies and power supplies: their variables enter a request as given lists; their rows and thresholds are other
  sources of incidents.
- Interface rows beyond traffic: administrative and operational status, names and speeds of a poll, and transport errors
  that save nothing.
- Power supply samples, printer percentages, CSV import, ordering moves, charts and the discovery cache: only easier
  members.
- Archive files: checksums, manifest texts, staging and, of the closing integrity check, the looks at missing tables,
  columns and the schema revision; cell encodings of dates and decimals; sequences of tables other than the checks.
- RestoreAcceptance.RestoreSucceedsExactly: of constraints it knows references, mandatory ones included, and the ids of
  new primary checks; archived targets have distinct ids, and an archive that breaks a unique index or check constraint,
  which the database refuses, is not modelled.
- Authentication, sessions and CSRF.
