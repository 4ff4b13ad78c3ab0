/** The decision part of `main`: classify every disk by its SMART status,
    decide whether to alert, compose the alert mail and, when it fires,
    run the repair prompt over the failed disks. */
module Alert {
  import opened Text
  import opened Host
  import opened Inventory
  import opened Smart
  import opened LogScan
  import opened Repair

  const Passed: string := "passed"
  const Subject: string := "Disk Health Alert on Red Hat System"
  const HeaderLine: string := "The following disk issues were detected:"
  const SmartTitle: string := "Failed or failing disks (SMART):"
  const LogTitle: string := "Disk-related errors from system logs:"
  /** The opening of every alert body: the header line and a blank line. */
  const Header: string := HeaderLine + "\n" + "\n"
  const SmartHeading: string := SmartTitle + "\n"
  const LogHeading: string := LogTitle + "\n"

  // ----- classification -----

  /** The status `check_smart_status` reports for `disk`. */
  function StatusOf(tool: Tool, disk: string): string
  {
    CheckSmartStatus(tool(SmartHealth(disk)))
  }

  /** A disk has failed unless its status, lower-cased, is `passed`. */
  predicate IsFailedStatus(status: string)
  {
    Lower(status) != Passed
  }

  /** `failed_disks` for the given statuses: the disks, in enumeration
      order, whose status is not `passed`. */
  function FailedAmong(disks: seq<string>, statuses: seq<string>): (failed: seq<string>)
    requires |statuses| == |disks|
    ensures |failed| <= |disks|
    decreases |disks|
  {
    if disks == [] then []
    else (if IsFailedStatus(statuses[0]) then [disks[0]] else []) + FailedAmong(disks[1..], statuses[1..])
  }

  lemma {:induction false} FailedAmongMembers(disks: seq<string>, statuses: seq<string>)
    requires |statuses| == |disks|
    ensures forall d :: d in FailedAmong(disks, statuses) <==>
      exists i | 0 <= i < |disks| :: disks[i] == d && IsFailedStatus(statuses[i])
    decreases |disks|
  {
    if disks != [] {
      FailedAmongMembers(disks[1..], statuses[1..]);
      forall d | d in FailedAmong(disks, statuses)
        ensures exists i | 0 <= i < |disks| :: disks[i] == d && IsFailedStatus(statuses[i])
      {
        if !(d == disks[0] && IsFailedStatus(statuses[0])) {
          var j :| 0 <= j < |disks| - 1 && disks[1..][j] == d && IsFailedStatus(statuses[1..][j]);
          assert disks[j + 1] == d && IsFailedStatus(statuses[j + 1]);
        }
      }
      forall d | exists i | 0 <= i < |disks| :: disks[i] == d && IsFailedStatus(statuses[i])
        ensures d in FailedAmong(disks, statuses)
      {
        var i :| 0 <= i < |disks| && disks[i] == d && IsFailedStatus(statuses[i]);
        if i > 0 {
          assert disks[1..][i - 1] == d && IsFailedStatus(statuses[1..][i - 1]);
        }
      }
    }
  }

  /** Classifying one more disk appends it exactly when it failed. */
  lemma {:induction false} FailedAmongSnoc(disks: seq<string>, statuses: seq<string>, d: string, status: string)
    requires |statuses| == |disks|
    ensures FailedAmong(disks + [d], statuses + [status]) ==
            FailedAmong(disks, statuses) + (if IsFailedStatus(status) then [d] else [])
    decreases |disks|
  {
    if disks == [] {
      assert disks + [d] == [d] && statuses + [status] == [status];
    } else {
      assert (disks + [d])[1..] == disks[1..] + [d];
      assert (statuses + [status])[1..] == statuses[1..] + [status];
      FailedAmongSnoc(disks[1..], statuses[1..], d, status);
    }
  }

  /** Reference definition of `failed_disks` on the host `tool`. */
  function Failed(disks: seq<string>, tool: Tool): seq<string>
  {
    FailedAmong(disks, Statuses(disks, tool))
  }

  /** A disk is in the failed list exactly when it was enumerated and its
      status is not `passed`. */
  lemma FailedMembers(disks: seq<string>, tool: Tool)
    ensures forall d :: d in Failed(disks, tool) <==> d in disks && IsFailedStatus(StatusOf(tool, d))
  {
    FailedAmongMembers(disks, Statuses(disks, tool));
    StatusesIndex(disks, tool);
  }

  /** The statuses `main` prints, one per disk, in order. */
  function Statuses(disks: seq<string>, tool: Tool): (statuses: seq<string>)
    ensures |statuses| == |disks|
    decreases |disks|
  {
    if disks == [] then [] else [StatusOf(tool, disks[0])] + Statuses(disks[1..], tool)
  }

  /** Every disk is classified exactly once, in enumeration order. */
  lemma {:induction false} StatusesIndex(disks: seq<string>, tool: Tool)
    ensures forall i | 0 <= i < |disks| :: Statuses(disks, tool)[i] == StatusOf(tool, disks[i])
    decreases |disks|
  {
    if disks != [] {
      StatusesIndex(disks[1..], tool);
    }
  }

  lemma {:induction false} StatusesAppend(a: seq<string>, b: seq<string>, tool: Tool)
    ensures Statuses(a + b, tool) == Statuses(a, tool) + Statuses(b, tool)
    decreases |a|
  {
    if a != [] {
      assert (a + b)[1..] == a[1..] + b;
      StatusesAppend(a[1..], b, tool);
    } else {
      assert a + b == b;
    }
  }

  lemma StatusesSnoc(disks: seq<string>, i: nat, tool: Tool)
    requires i < |disks|
    ensures Statuses(disks[..i + 1], tool) == Statuses(disks[..i], tool) + [StatusOf(tool, disks[i])]
  {
    assert disks[..i + 1] == disks[..i] + [disks[i]];
    StatusesAppend(disks[..i], [disks[i]], tool);
    assert [disks[i]][1..] == [];
  }

  /** Only `PASSED`, in any letter case, counts as healthy: `FAILED`, the
      `UNKNOWN` of a missing report and the `ERROR` of a failed launch are
      all failures. */
  lemma StatusExamples()
    ensures !IsFailedStatus("PASSED") && !IsFailedStatus("passed") && !IsFailedStatus("Passed")
    ensures IsFailedStatus("FAILED") && IsFailedStatus(UnknownStatus) && IsFailedStatus(ErrorStatus)
  {
    assert Lower("PASSED") == Passed;
    assert Lower("Passed") == Passed;
    assert Lower("FAILED")[0] == 'f';
    assert Lower(UnknownStatus)[0] == 'u';
    assert Lower(ErrorStatus)[0] == 'e';
  }

  /** A disk whose `smartctl` cannot be launched, or whose report lacks the
      self-assessment line, is in the failed list. */
  lemma SilentDiskFails(disks: seq<string>, tool: Tool, disk: string)
    requires disk in disks
    requires tool(SmartHealth(disk)).LaunchFailed? ||
             !HasMatch(tool(SmartHealth(disk)).out)
    ensures disk in Failed(disks, tool)
  {
    StatusExamples();
    FailedMembers(disks, tool);
  }

  /** One more disk extends both the statuses and the failed list. */
  lemma ClassifyStep(disks: seq<string>, i: nat, tool: Tool)
    requires i < |disks|
    ensures Statuses(disks[..i + 1], tool) == Statuses(disks[..i], tool) + [StatusOf(tool, disks[i])]
    ensures FailedAmong(disks[..i + 1], Statuses(disks[..i + 1], tool)) ==
            FailedAmong(disks[..i], Statuses(disks[..i], tool)) +
            (if IsFailedStatus(StatusOf(tool, disks[i])) then [disks[i]] else [])
  {
    StatusesSnoc(disks, i, tool);
    FailedAmongSnoc(disks[..i], Statuses(disks[..i], tool), disks[i], StatusOf(tool, disks[i]));
    assert disks[..i + 1] == disks[..i] + [disks[i]];
  }

  /** The classification loop of `main`: one `check_smart_status` per disk,
      in order, collecting the failed ones. */
  method ClassifyDisks(disks: seq<string>, tool: Tool) returns (statuses: seq<string>, failed: seq<string>)
    ensures statuses == Statuses(disks, tool)
    ensures failed == Failed(disks, tool)
  {
    statuses := [];
    failed := [];
    for i := 0 to |disks|
      invariant statuses == Statuses(disks[..i], tool)
      invariant failed == FailedAmong(disks[..i], statuses)
    {
      var status := StatusOf(tool, disks[i]);
      ClassifyStep(disks, i, tool);
      statuses := statuses + [status];
      failed := failed + if IsFailedStatus(status) then [disks[i]] else [];
    }
    assert disks[..|disks|] == disks;
  }

  // ----- the alert body -----

  /** A bullet line without its line break. */
  function Bullet(x: string): string
  {
    " - " + x
  }

  /** One bullet line of the body. */
  function Item(x: string): string
  {
    Bullet(x) + "\n"
  }

  /** The bullet lines for `xs`, in order. */
  function Items(xs: seq<string>): string
    decreases |xs|
  {
    if xs == [] then "" else Item(xs[0]) + Items(xs[1..])
  }

  lemma {:induction false} ItemsAppend(a: seq<string>, b: seq<string>)
    ensures Items(a + b) == Items(a) + Items(b)
    decreases |a|
  {
    if a != [] {
      assert (a + b)[1..] == a[1..] + b;
      ItemsAppend(a[1..], b);
    } else {
      assert a + b == b;
    }
  }

  /** The alert fires when a disk failed or the logs hold an error. */
  predicate AlertFires(failed: seq<string>, errors: seq<string>)
  {
    failed != [] || errors != []
  }

  /** The mail body: the header, the SMART section when a disk failed, the
      log section when the logs hold an error. */
  function AlertBody(failed: seq<string>, errors: seq<string>): string
  {
    Header + (SmartSection(failed) + LogSection(errors))
  }

  /** The SMART section: its heading, a bullet per failed disk and a blank
      line; nothing when no disk failed. */
  function SmartSection(failed: seq<string>): string
  {
    if failed == [] then "" else SmartHeading + (Items(failed) + "\n")
  }

  /** The log section: its heading and a bullet per error; nothing when
      the logs hold no error. */
  function LogSection(errors: seq<string>): string
  {
    if errors == [] then "" else LogHeading + Items(errors)
  }

  /** Concatenation regroups: a stated step that keeps the solver from
      searching for the grouping itself. */
  lemma Regroup(a: string, b: string, c: string)
    ensures a + b + c == a + (b + c)
  {
  }

  /** The body-building code of `main`, which grows the body with `+=`. */
  method ComposeBody(failed: seq<string>, errors: seq<string>) returns (body: string)
    ensures body == AlertBody(failed, errors)
  {
    body := Header;
    if failed != [] {
      body := body + SmartHeading;
      body := AppendItems(body, failed);
      Regroup(Header + SmartHeading, Items(failed), "\n");
      Regroup(Header, SmartHeading, Items(failed) + "\n");
      body := body + "\n";
    }
    assert body == Header + SmartSection(failed);
    ghost var opening := body;
    if errors != [] {
      body := body + LogHeading;
      body := AppendItems(body, errors);
      Regroup(opening, LogHeading, Items(errors));
    }
    assert body == opening + LogSection(errors);
    Regroup(Header, SmartSection(failed), LogSection(errors));
  }

  /** One `for` loop of `main` that appends a bullet line per entry. */
  method AppendItems(start: string, xs: seq<string>) returns (body: string)
    ensures body == start + Items(xs)
  {
    body := start;
    for i := 0 to |xs|
      invariant body == start + Items(xs[..i])
    {
      ItemsSnoc(xs, i);
      body := body + Item(xs[i]);
    }
    assert xs[..|xs|] == xs;
  }

  lemma ItemsSnoc(xs: seq<string>, i: nat)
    requires i < |xs|
    ensures Items(xs[..i + 1]) == Items(xs[..i]) + Item(xs[i])
  {
    assert xs[..i + 1] == xs[..i] + [xs[i]];
    ItemsAppend(xs[..i], [xs[i]]);
    assert Items([xs[i]]) == Item(xs[i]) + Items([]);
  }

  // ----- reading the body back, line by line -----

  /** The bullet lines of `xs`, without their line breaks. */
  function Bullets(xs: seq<string>): (lines: seq<string>)
    ensures |lines| == |xs|
    decreases |xs|
  {
    if xs == [] then [] else [Bullet(xs[0])] + Bullets(xs[1..])
  }

  /** One bullet per entry, in order. */
  lemma {:induction false} BulletsIndex(xs: seq<string>)
    ensures forall k | 0 <= k < |xs| :: Bullets(xs)[k] == Bullet(xs[k])
    decreases |xs|
  {
    if xs != [] {
      BulletsIndex(xs[1..]);
    }
  }

  /** A bullet of a break-free entry is break-free. */
  lemma BulletLine(x: string)
    requires '\n' !in x
    ensures '\n' !in Bullet(x)
  {
  }

  /** The lines a reader of the mail sees: the header, a blank line, the
      SMART heading with one bullet per failed disk and a blank line, the
      log heading with one bullet per error, and the empty remainder after
      the final line break. */
  function BodyLines(failed: seq<string>, errors: seq<string>): seq<string>
  {
    [HeaderLine, ""] + SectionLines(failed, errors)
  }

  /** The lines after the header and its blank line. */
  function SectionLines(failed: seq<string>, errors: seq<string>): seq<string>
  {
    SmartLines(failed) + LogLines(errors)
  }

  /** The lines of the SMART section. */
  function SmartLines(failed: seq<string>): seq<string>
  {
    if failed == [] then [] else [SmartTitle] + Bullets(failed) + [""]
  }

  /** The lines of the log section, and the empty remainder after the
      final line break. */
  function LogLines(errors: seq<string>): seq<string>
  {
    (if errors == [] then [] else [LogTitle] + Bullets(errors)) + [""]
  }

  /** No entry holds a line break. */
  predicate SingleLines(xs: seq<string>)
  {
    forall k | 0 <= k < |xs| :: '\n' !in xs[k]
  }

  /** Splitting at a line break that follows a break-free line. */
  lemma SplitLine(a: string, b: string)
    requires '\n' !in a
    ensures SplitOn(a + "\n" + b, '\n') == [a] + SplitOn(b, '\n')
  {
    SplitOnFree(a, "\n" + b, '\n');
    assert a + "\n" + b == a + ("\n" + b);
    assert ("\n" + b)[1..] == b;
    assert SplitOn("\n" + b, '\n') == [[]] + SplitOn(b, '\n');
    assert a + [] == a;
  }

  /** A line break at the front splits off an empty line. */
  lemma SplitLeadingBreak(rest: string)
    ensures SplitOn("\n" + rest, '\n') == [""] + SplitOn(rest, '\n')
  {
    assert ("\n" + rest)[1..] == rest;
  }

  /** Splitting the bullet lines yields one bullet per entry. */
  lemma {:induction false} SplitItems(xs: seq<string>, rest: string)
    requires SingleLines(xs)
    ensures SplitOn(Items(xs) + rest, '\n') == Bullets(xs) + SplitOn(rest, '\n')
    decreases |xs|
  {
    if xs != [] {
      assert '\n' !in xs[0];
      BulletLine(xs[0]);
      assert Items(xs) + rest == Bullet(xs[0]) + "\n" + (Items(xs[1..]) + rest);
      SplitLine(Bullet(xs[0]), Items(xs[1..]) + rest);
      assert SingleLines(xs[1..]) by {
        assert forall k | 0 <= k < |xs[1..]| :: xs[1..][k] == xs[k + 1];
      }
      SplitItems(xs[1..], rest);
    } else {
      assert Items(xs) + rest == rest;
    }
  }

  /** Splitting the log section. */
  lemma SplitLogSection(errors: seq<string>)
    requires SingleLines(errors)
    ensures SplitOn(LogSection(errors), '\n') == LogLines(errors)
  {
    if errors != [] {
      SplitLine(LogTitle, Items(errors));
      SplitItems(errors, "");
      assert Items(errors) + "" == Items(errors);
    }
  }

  /** Splitting the SMART section in front of the rest of the body. */
  lemma SplitSmartSection(failed: seq<string>, rest: string)
    requires failed != [] && SingleLines(failed)
    ensures SplitOn(SmartSection(failed) + rest, '\n') ==
            [SmartTitle] + Bullets(failed) + [""] + SplitOn(rest, '\n')
  {
    Regroup(SmartTitle, "\n", Items(failed) + "\n");
    Regroup(SmartTitle + "\n", Items(failed) + "\n", rest);
    Regroup(Items(failed), "\n", rest);
    assert SmartSection(failed) + rest == SmartTitle + "\n" + (Items(failed) + ("\n" + rest));
    SplitLine(SmartTitle, Items(failed) + ("\n" + rest));
    SplitItems(failed, "\n" + rest);
    SplitLeadingBreak(rest);
  }

  /** Splitting the sections after the header. */
  lemma SplitSections(failed: seq<string>, errors: seq<string>)
    requires SingleLines(failed) && SingleLines(errors)
    ensures SplitOn(SmartSection(failed) + LogSection(errors), '\n') == SectionLines(failed, errors)
  {
    SplitLogSection(errors);
    if failed != [] {
      SplitSmartSection(failed, LogSection(errors));
    } else {
      assert SmartSection(failed) + LogSection(errors) == LogSection(errors);
      assert SectionLines(failed, errors) == LogLines(errors);
    }
  }

  /** The body reads back, line by line, as its sections: the header, each
      failed disk as a bullet of the SMART section in order, each error as
      a bullet of the log section in order. */
  lemma BodyReadsBack(failed: seq<string>, errors: seq<string>)
    requires SingleLines(failed) && SingleLines(errors)
    ensures SplitOn(AlertBody(failed, errors), '\n') == BodyLines(failed, errors)
  {
    SplitHeader(SmartSection(failed) + LogSection(errors));
    SplitSections(failed, errors);
  }

  /** Splitting the header in front of the sections. */
  lemma SplitHeader(rest: string)
    ensures SplitOn(Header + rest, '\n') == [HeaderLine, ""] + SplitOn(rest, '\n')
  {
    Regroup(HeaderLine + "\n", "\n", rest);
    SplitLine(HeaderLine, "\n" + rest);
    SplitLeadingBreak(rest);
  }

  // ----- main -----

  /** The mail `send_email` is handed. */
  datatype Mail = Mail(subject: string, body: string)

  /** How a run of `main` ends: no disks found; every check clean; or an
      alert mailed and the repair prompt run over the failed disks. The
      statuses are the ones printed, one per disk. */
  datatype Outcome =
    | NoDisks
    | AllClear(statuses: seq<string>)
    | Alerted(statuses: seq<string>, mail: Mail, session: Session)

  /** Reference definition of a run of `main` on the host `tool`, the log
      lines `logs` and the operator's answers. */
  function MainOutcome(tool: Tool, logs: seq<string>, answers: seq<string>): Outcome
  {
    var disks := DeviceList(tool(ListDisks), DiskKind);
    if disks == [] then NoDisks
    else
      var failed := Failed(disks, tool);
      var errors := Anomalies(logs);
      if AlertFires(failed, errors)
      then Alerted(Statuses(disks, tool), Mail(Subject, AlertBody(failed, errors)),
                   PromptSession(failed, tool, answers))
      else AllClear(Statuses(disks, tool))
  }

  /** `main`, from the disk listing to the end of the repair prompt. */
  method Monitor(tool: Tool, logs: seq<string>, answers: seq<string>) returns (outcome: Outcome)
    ensures outcome == MainOutcome(tool, logs, answers)
  {
    var disks := GetDisks(tool);
    if disks == [] {
      return NoDisks;
    }
    var statuses, failed := ClassifyDisks(disks, tool);
    var errors := ParseLogForErrors(logs);
    if failed != [] || errors != [] {
      var body := ComposeBody(failed, errors);
      var session := PromptRepair(failed, tool, answers);
      outcome := Alerted(statuses, Mail(Subject, body), session);
    } else {
      outcome := AllClear(statuses);
    }
  }

  /** When the listing yields no disk, `main` stops before any SMART check
      or log scan; otherwise it reports one status per disk. */
  lemma NoDisksStops(tool: Tool, logs: seq<string>, answers: seq<string>)
    ensures MainOutcome(tool, logs, answers).NoDisks? <==>
            DeviceList(tool(ListDisks), DiskKind) == []
    ensures !MainOutcome(tool, logs, answers).NoDisks? ==>
            MainOutcome(tool, logs, answers).statuses ==
            Statuses(DeviceList(tool(ListDisks), DiskKind), tool)
  {
  }

  /** The alert fires exactly when some listed disk has a status other than
      `passed` or some log line mentions a keyword. */
  lemma {:induction false} AlertIff(tool: Tool, logs: seq<string>, answers: seq<string>)
    requires DeviceList(tool(ListDisks), DiskKind) != []
    ensures MainOutcome(tool, logs, answers).Alerted? <==>
            (exists d :: d in DeviceList(tool(ListDisks), DiskKind) && IsFailedStatus(StatusOf(tool, d))) ||
            (exists i | 0 <= i < |logs| :: Flagged(logs[i]))
  {
    var disks := DeviceList(tool(ListDisks), DiskKind);
    var failed := Failed(disks, tool);
    FailedMembers(disks, tool);
    AnomaliesMembers(logs);
    if exists d :: d in disks && IsFailedStatus(StatusOf(tool, d)) {
      var d :| d in disks && IsFailedStatus(StatusOf(tool, d));
      assert d in failed;
    }
    if exists i | 0 <= i < |logs| :: Flagged(logs[i]) {
      var i :| 0 <= i < |logs| && Flagged(logs[i]);
      assert Strip(logs[i]) in Anomalies(logs);
    }
    if failed != [] {
      assert failed[0] in failed;
    }
    if Anomalies(logs) != [] {
      assert Anomalies(logs)[0] in Anomalies(logs);
    }
  }

  /** An alert mails the fixed subject and a body whose lines are the
      failed disks and the kept log lines. Log lines read with `readlines()`
      end in a line break, which `strip()` removes before a line is kept;
      only a break inside a line would split a bullet. */
  lemma AlertContents(tool: Tool, logs: seq<string>, answers: seq<string>)
    requires MainOutcome(tool, logs, answers).Alerted?
    requires forall i | 0 <= i < |logs| :: '\n' !in Strip(logs[i])
    ensures MainOutcome(tool, logs, answers).mail.subject == Subject
    ensures SplitOn(MainOutcome(tool, logs, answers).mail.body, '\n') ==
            BodyLines(Failed(DeviceList(tool(ListDisks), DiskKind), tool), Anomalies(logs))
  {
    var disks := DeviceList(tool(ListDisks), DiskKind);
    var failed := Failed(disks, tool);
    FailedMembers(disks, tool);
    forall k | 0 <= k < |failed| ensures '\n' !in failed[k] {
      assert failed[k] in disks;
      DevicePathLine(failed[k]);
    }
    AnomaliesAvoid(logs, '\n');
    BodyReadsBack(failed, Anomalies(logs));
  }

  /** After an alert the repair prompt runs over exactly the failed disks,
      never runs `fsck` on a partition seen mounted and not unmounted, and
      attempts one repair per yes. */
  lemma AlertRepairs(tool: Tool, logs: seq<string>, answers: seq<string>)
    requires MainOutcome(tool, logs, answers).Alerted?
    ensures MainOutcome(tool, logs, answers).session ==
            PromptSession(Failed(DeviceList(tool(ListDisks), DiskKind), tool), tool, answers)
    ensures Guarded(MainOutcome(tool, logs, answers).session.events)
    ensures Count(MainOutcome(tool, logs, answers).session.events, IsAttempt) ==
            Count(MainOutcome(tool, logs, answers).session.events, IsYes)
  {
    PromptSessionSound(Failed(DeviceList(tool(ListDisks), DiskKind), tool), tool, answers);
  }

  /** A log read with `readlines()` meets the condition of
      `AlertContents`. */
  lemma ReadLinesQualify(logs: seq<string>)
    requires forall i | 0 <= i < |logs| :: IsReadLine(logs[i])
    ensures forall i | 0 <= i < |logs| :: '\n' !in Strip(logs[i])
  {
    forall i | 0 <= i < |logs| ensures '\n' !in Strip(logs[i]) {
      ReadLineStripped(logs[i]);
    }
  }

  /** A device path holds no line break. */
  lemma DevicePathLine(d: string)
    requires IsDevicePath(d)
    ensures '\n' !in d
  {
    assert d == DevPrefix + d[|DevPrefix|..];
    assert IsSpace('\n');
  }
}
