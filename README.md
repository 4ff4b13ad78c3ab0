# Disk health monitor, modelled in Dafny

`disk_health_monitor.py` is a one-shot maintenance script for a Linux host. It:

1. lists the whole disks with `lsblk`;
2. asks `smartctl -H` for each disk's SMART self-assessment;
3. scans the kernel log for failure keywords;
4. mails an alert when a disk did not report `PASSED` or the log holds a matching line;
5. then walks the partitions of every failed disk and asks the operator, per partition, whether to run `fsck` on it (unmounting it first when it is mounted).

This project models that pipeline:

- The host is an oracle `Tool = Command -> Proc`. Every external command (`lsblk`, `smartctl`, `mountpoint`, `umount`, `fsck`) maps to "exited with a code and standard output" or "could not be launched".
- The log lines and the operator's answers are inputs.
- A repair session yields a trace of events: commands with their results, answers read, and repair attempts with their return values.

The properties proved include:

- Classification: `UNKNOWN` when the self-assessment line is missing, `ERROR` when `smartctl` cannot be launched, otherwise the reported token, which is unique.
- Listings: a rendered listing parses back to exactly its devices of the requested type.
- Log scan: a line is kept if and only if it mentions a keyword in any letter case, and order is kept.
- Alerting: the alert fires exactly when a disk failed or a log line matched. The mail body splits back into its lines.
- Repair: `fsck` never runs on a partition last seen mounted and not unmounted. There is exactly one repair attempt per "yes" answer, and an unrecognised answer only leads to another prompt.

Modules, one file each: `Text` (the Python string built-ins the script uses), `Host`, `Wrappers`, `Inventory` (`get_disks`, `get_partitions`), `Smart` (`check_smart_status`), `LogScan` (the keyword loop of `parse_log_for_errors`), `Repair` (`is_mounted`, `repair_filesystem`, `prompt_repair`) and `Alert` (`main`).

The loops of the script are methods whose postconditions tie them to the reference functions: the listing loop, the classification loop, the log loop, the body-building loops and the two nested loops of `prompt_repair` with the inner `while True`. The properties are lemmas about those reference functions.

## Model

| member | source | states |
|---|---|---|
| Text.Lower | disk_health_monitor.py:66 | `lower()` keeps the length and maps each character: ASCII capitals to small letters, everything else unchanged |
| Text.TrimStartSpec | disk_health_monitor.py:67 | `lstrip()` removes a whitespace prefix and nothing more: the result is a suffix, everything dropped is whitespace, and the result does not start with whitespace |
| Text.TrimEndSpec | disk_health_monitor.py:67 | `rstrip()` removes a whitespace suffix and nothing more: the result is a prefix, everything dropped is whitespace, and the result does not end with whitespace |
| Text.StripKeeps | disk_health_monitor.py:67 | `strip()` only removes characters: a character absent from a line is absent from its strip |
| Text.StripTrailingNewline | disk_health_monitor.py:18 | stripping a text that ends in one line break and has no whitespace at either end removes exactly that break |
| Text.WordLength | disk_health_monitor.py:19 | the leading non-whitespace run is bounded by the string and is followed by whitespace or the end |
| Text.Fields | disk_health_monitor.py:19 | every field of `split()` is non-empty and holds no whitespace (which fields it returns is stated by `FieldsSpaced`) |
| Text.FieldsSkipSpace | disk_health_monitor.py:19 | `split()` ignores leading whitespace |
| Text.FieldsSpaced | disk_health_monitor.py:19 | `split()` of non-empty words separated by non-empty runs of whitespace, with optional whitespace before and after, gives back exactly those words in order |
| Text.FieldsOfPair | disk_health_monitor.py:19 | `split()` of a name, a run of padding, a type and trailing whitespace gives back exactly `[name, type]` |
| Text.StripLineEnd | disk_health_monitor.py:67 | stripping a line that ends in one line break removes that break, so the stripped line holds none when the rest held none |
| Text.SplitOnPieces | disk_health_monitor.py:18 | no piece of `split('\n')` contains a line break |
| Text.JoinSplitOn | disk_health_monitor.py:18 | joining the pieces of `split(sep)` with `sep` gives the original string |
| Text.SplitOnJoin | disk_health_monitor.py:18 | splitting a join of separator-free pieces gives the pieces back |
| Inventory.Select | disk_health_monitor.py:18-21 | a row's `/dev/` path is kept for every row of the requested type, and every kept path comes from such a row |
| Inventory.SelectAppend | disk_health_monitor.py:18-21 | selection distributes over concatenated rows, so listing order is kept |
| Inventory.DeviceList | disk_health_monitor.py:14-39 | no devices when `lsblk` cannot be launched, when any row does not have exactly two fields, or when the output is blank; otherwise the devices are the selection of the rows; every result is a `/dev/` path without whitespace |
| Inventory.ListDevices | disk_health_monitor.py:15-25 | the row loop, which stops with the empty list at the first malformed row, computes `DeviceList` |
| Inventory.GetDisks | disk_health_monitor.py:14-25 | `get_disks` returns the `disk` rows of `lsblk -dn -o NAME,TYPE` as `/dev/` paths |
| Inventory.GetPartitions | disk_health_monitor.py:27-39 | `get_partitions` returns the `part` rows of the listing for that disk as `/dev/` paths |
| Inventory.ListingRoundTrip | disk_health_monitor.py:16-22 | parsing a rendered listing of single-word names and types, with the type column padded by any run of whitespace, gives exactly the devices of the requested type, in order; an empty listing gives none |
| Smart.FirstMatch | disk_health_monitor.py:45 | `re.search` finds the leftmost index where the prefix is followed by a word character; if it finds none, there is no such index |
| Smart.WordRun | disk_health_monitor.py:45 | the greedy `\w+` group is a run of word characters taken from the output and followed by a non-word character or the end |
| Smart.CheckSmartStatus | disk_health_monitor.py:41-52 | a launch failure gives `ERROR`; output without a match gives `UNKNOWN`; otherwise the status is a non-empty run of word characters |
| Smart.NoPrefixIsUnknown | disk_health_monitor.py:45-49 | output that never contains the self-assessment prefix gives `UNKNOWN` |
| Smart.StatusIsReport | disk_health_monitor.py:45-47 | when the pattern matches, the status is group 1 of the leftmost match |
| Smart.ReportIsUnique | disk_health_monitor.py:45-47 | any output reports at most one leftmost match and one token |
| Smart.StatusOfReport | disk_health_monitor.py:43-47 | output that opens with the prefix and a token, followed by a non-word character or the end, reports exactly that token |
| LogScan.MentionsAnyIff | disk_health_monitor.py:66 | the `any(...)` test holds exactly when some lower-cased keyword is a substring of the text |
| LogScan.FlaggedIff | disk_health_monitor.py:64-66 | a line is flagged exactly when its lower-cased text contains one of the seven lower-cased keywords |
| LogScan.AnomaliesMembers | disk_health_monitor.py:64-67 | every flagged line is kept stripped; every kept line is the strip of a flagged line; a log with no flagged line gives no errors |
| LogScan.AnomaliesAppend | disk_health_monitor.py:65-67 | the scan distributes over concatenated logs, so log order is kept |
| LogScan.AnomaliesSnoc | disk_health_monitor.py:65-67 | one more line adds its strip exactly when it is flagged |
| LogScan.AnomaliesAvoid | disk_health_monitor.py:67 | a character that no stripped log line holds is in no kept line |
| LogScan.ReadLineStripped | disk_health_monitor.py:58-67 | a line as `readlines()` or `splitlines()` yields it, with at most one line break and that at its end, holds no line break once stripped |
| LogScan.ParseLogForErrors | disk_health_monitor.py:64-67 | the loop over the log lines computes the reference scan |
| LogScan.UpperCaseErrorFlagged | disk_health_monitor.py:64-66 | "ATA bus ERROR detected" is flagged: matching ignores letter case |
| LogScan.SubstringFlagged | disk_health_monitor.py:64-66 | "errorless" is flagged: matching is by substring, not by word |
| LogScan.NominalLineNotFlagged | disk_health_monitor.py:64-66 | "disk nominal" is not flagged |
| Repair.MountProbeReading | disk_health_monitor.py:88-95 | `is_mounted` answers true exactly when `mountpoint -q` exited 0; any other code, or a probe that cannot be launched, counts as not mounted |
| Repair.RepairSteps | disk_health_monitor.py:97-126 | `repair_filesystem` first probes the mount state, once. It issues `umount` exactly when the device is mounted, and `fsck` exactly when the device was not mounted or `umount` exited 0, so it issues three commands when it unmounted successfully and two otherwise. It issues only commands on that device, in a guarded order |
| Repair.RepairOk | disk_health_monitor.py:103-126 | the return value is true exactly when `fsck` was issued and exited 0; a failed unmount returns false |
| Repair.RepairFilesystem | disk_health_monitor.py:97-126 | the method issues `RepairSteps` and returns `RepairOk` |
| Repair.GuardedAppend | disk_health_monitor.py:137-145 | two guarded traces concatenate to a guarded trace when the second does not open with an `umount` or `fsck` |
| Repair.InterpretExamples | disk_health_monitor.py:143-147 | the answer is stripped and lower-cased before it is compared: " Y\n" is a yes and "No" a no; only `yes`, `y`, `no` and `n` count, so "yep" is unrecognised |
| Repair.ConfirmReads | disk_health_monitor.py:142-151 | the prompt loop reads a prefix of the answers, at least one if any exist, records each for that partition, and leaves the rest unread |
| Repair.ConfirmDecides | disk_health_monitor.py:142-151 | every answer before the last one read is unrecognised; the decision is the last answer's; there is no decision exactly when no answer is recognised, and then every answer was read |
| Repair.RepliesIndex | disk_health_monitor.py:143-147 | the reading of each answer sits at that answer's position |
| Repair.ConfirmDecidesReplies | disk_health_monitor.py:142-151 | the prompt loop's decision stated over the readings of the answers: every reading before the last one read is unrecognised, and the decision is the last reading's, or none exactly when all readings are unrecognised |
| Repair.ConfirmStep | disk_health_monitor.py:142-151 | one turn of the prompt loop records the answer and either decides yes or no, or leaves the loop running on the rest |
| Repair.AskUntilRecognised | disk_health_monitor.py:142-151 | the `while True` loop computes `Confirm`: the answers read, the unread rest and the decision, with none when the input runs out |
| Repair.VisitPartitionStep | disk_health_monitor.py:137-151 | one partition adds its mount probe, its answers and, on yes, the repair steps and result, and computes `VisitPartition` |
| Repair.PromptRepair | disk_health_monitor.py:128-151 | the nested loops over disks and partitions compute `PromptSession`, stopping when the input runs out |
| Repair.EofStops | disk_health_monitor.py:143 | once the input has run out no further event happens |
| Repair.AskedYesCount | disk_health_monitor.py:142-149 | the answers one prompt loop reads hold exactly one yes when it decides yes, and none otherwise |
| Repair.PartitionEventsSound | disk_health_monitor.py:137-151 | what one partition adds is guarded and holds as many repair attempts as yes answers |
| Repair.FirstYesIff | disk_health_monitor.py:142-149 | the first recognised reading is a yes exactly when some reading is a yes and every reading before it is unrecognised |
| Repair.FirstRecognisedIsYesIff | disk_health_monitor.py:142-149 | the same, read on the answers themselves |
| Repair.DecidesYes | disk_health_monitor.py:142-149 | the prompt loop decides yes exactly when the first recognised answer is a yes |
| Repair.PartitionAttempts | disk_health_monitor.py:142-149 | `repair_filesystem` runs once on a partition if the first recognised answer is yes, and not at all otherwise |
| Repair.PromptSessionSound | disk_health_monitor.py:128-151 | over a whole session every `umount` and `fsck` is guarded, and repair attempts equal yes answers |
| Alert.FailedAmongMembers | disk_health_monitor.py:159-164 | a disk is collected exactly when some position holds it with a status other than `passed` in any letter case |
| Alert.FailedAmongSnoc | disk_health_monitor.py:160-164 | classifying one more disk appends it exactly when it failed |
| Alert.FailedMembers | disk_health_monitor.py:159-164 | a disk is in the failed list exactly when it was listed and its SMART status does not lower-case to `passed` |
| Alert.StatusesIndex | disk_health_monitor.py:160-162 | each listed disk gets exactly one status, in listing order |
| Alert.StatusExamples | disk_health_monitor.py:163 | `PASSED`, `passed` and `Passed` are healthy; `FAILED`, `UNKNOWN` and `ERROR` are failures |
| Alert.SilentDiskFails | disk_health_monitor.py:41-52 | a disk whose `smartctl` cannot be launched, or whose report lacks the self-assessment line, counts as failed |
| Alert.ClassifyStep | disk_health_monitor.py:160-164 | one more disk extends the statuses by its status and the failed list by the disk exactly when it failed |
| Alert.ClassifyDisks | disk_health_monitor.py:159-164 | the classification loop computes the statuses and the failed list |
| Alert.ItemsAppend | disk_health_monitor.py:177-178 | the bullet lines of concatenated lists are the concatenated bullet lines |
| Alert.AppendItems | disk_health_monitor.py:177-178 | the `for` loop that appends one bullet per entry appends exactly `Items` |
| Alert.ComposeBody | disk_health_monitor.py:174-183 | the `+=` code builds exactly the reference body |
| Alert.BodyReadsBack | disk_health_monitor.py:174-183 | when no failed disk and no kept line holds a line break, the body splits into the header, a blank line, and then the SMART title, one bullet per failed disk and a blank line (only when a disk failed), then the log title and one bullet per kept line (only when a line was kept), and a final empty piece |
| Alert.Monitor | disk_health_monitor.py:153-187 | `main` computes `MainOutcome` |
| Alert.NoDisksStops | disk_health_monitor.py:154-157 | `main` stops before any check exactly when no disk is listed; otherwise it reports one status per disk |
| Alert.AlertIff | disk_health_monitor.py:172 | with disks listed, the alert fires exactly when some listed disk's status is not `passed`, or some log line is flagged |
| Alert.AlertContents | disk_health_monitor.py:172-183 | when no stripped log line holds a line break, an alert has the fixed subject and a body that reads back as the failed disks and kept lines |
| Alert.ReadLinesQualify | disk_health_monitor.py:58-67 | lines as `readlines()` or `splitlines()` yields them meet that condition |
| Alert.AlertRepairs | disk_health_monitor.py:184-187 | after any alert the repair prompt runs over exactly the failed disks, its trace is guarded, and it holds one repair attempt per yes |
| Alert.DevicePathLine | disk_health_monitor.py:21 | a `/dev/` path holds no line break |

## Left out

- Sending mail (`send_email`, lines 72-86) is out: SMTP, TLS and credentials are I/O. The model stops at the subject and body handed to it. A delivery failure is caught there and does not stop the repair prompt, so leaving it out changes no modelled outcome.
- Choosing and reading the log source is out (`parse_log_for_errors`, lines 55-63 and 68-70): the configured log file or `journalctl -k --since '1 hour ago'`. The lines arrive as the `logs` input, and a failure to read them is the same as an empty log.
- Importing the configuration and exiting when it is missing (lines 8-12) is out.
- Console output is out: every `print` in the script, including the per-disk status line and the error list. The statuses are kept in the outcome instead.
- The host is deterministic within a run: the same command gets the same result each time. `is_mounted` is called twice per confirmed partition, once for the status line and once inside `repair_filesystem`, and both calls see the same answer.
- Answers are a finite sequence. Running out of input stops the session, as the uncaught `EOFError` of `input()` ends the script. Text typed at the prompt otherwise has no effect on the host.
- `Text.Lower` lowers ASCII letters only; Python's `str.lower` also lowers other alphabets. `Smart.IsWordChar` is `\w` restricted to ASCII letters, digits and `_`. Whitespace for `strip()` and `split()` is Python's full `str.isspace` set.
- Inventory.ListingRoundTrip: the rendered rows have padding only between the name and the type, not before the name or after the type; `split()` itself is shown to ignore both (`Text.FieldsSpaced`).
- Exit codes are unbounded integers: the model does not restrict them to the host's exit-status range.
- A listing row that does not split into exactly two fields makes `get_disks` and `get_partitions` return no devices at all: the `ValueError` leaves the loop and the handler returns `[]`. Rows are not skipped one by one.
- An end of input at the repair prompt is not caught and ends the script, unlike the other errors, which are caught and let the run go on.
