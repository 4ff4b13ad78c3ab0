/** The repair workflow (`repair_filesystem`, `prompt_repair`): for each
    partition of each failed disk, ask the operator until a yes or a no comes
    back, and on yes unmount the partition if it is mounted and run `fsck`
    on it. Every command issued and every answer read is recorded in a
    trace. */
module Repair {
  import opened Wrappers
  import opened Text
  import opened Host
  import opened Inventory

  // ----- repair_filesystem -----

  /** `is_mounted`: `mountpoint -q` exited 0. A probe that could not be
      launched reads as "not mounted". */
  predicate IsMounted(probe: Proc)
  {
    Succeeded(probe)
  }

  /** `mountpoint -q` reads as mounted only when it ran and exited 0: a
      non-zero exit or a failed launch reads as not mounted. */
  lemma MountProbeReading(code: int, out: string)
    ensures !IsMounted(LaunchFailed)
    ensures IsMounted(Exited(code, out)) <==> code == 0
  {
  }

  /** The event is a `mountpoint` probe of `d` that reported it mounted
      (`mounted`) or not mounted (`!mounted`). */
  predicate Probed(e: Event, d: string, mounted: bool)
  {
    e.Ran? && e.cmd == MountPoint(d) && IsMounted(e.result) == mounted
  }

  /** Step `i` of a trace respects the ordering rules: an `umount` comes
      right after a probe that saw the device mounted, and an `fsck` comes
      right after a probe that saw it not mounted or right after an
      `umount` of it that exited 0. */
  predicate SafeAt(events: seq<Event>, i: nat)
    requires i < |events|
  {
    match events[i]
    case Ran(Unmount(d), _) =>
      i >= 1 && Probed(events[i - 1], d, true)
    case Ran(Fsck(d), _) =>
      i >= 1 && (Probed(events[i - 1], d, false) ||
                 (events[i - 1].Ran? && events[i - 1].cmd == Unmount(d) && Succeeded(events[i - 1].result)))
    case _ => true
  }

  /** Every step of the trace is safe: `fsck` never runs on a partition last
      observed mounted and not successfully unmounted since. */
  predicate Guarded(events: seq<Event>)
  {
    forall i | 0 <= i < |events| :: SafeAt(events, i)
  }

  /** An event whose safety depends on the event before it. */
  predicate Dependent(e: Event)
  {
    e.Ran? && (e.cmd.Unmount? || e.cmd.Fsck?)
  }

  /** The command was issued somewhere in the trace. */
  predicate Issued(events: seq<Event>, cmd: Command)
  {
    exists i | 0 <= i < |events| :: events[i].Ran? && events[i].cmd == cmd
  }

  /** The commands `repair_filesystem(device)` issues, in order, with what
      each returned. */
  function RepairSteps(device: string, tool: Tool): (steps: seq<Event>)
    ensures 2 <= |steps| <= 3 && Probed(steps[0], device, IsMounted(tool(MountPoint(device))))
    ensures |steps| == if IsMounted(tool(MountPoint(device))) && Succeeded(tool(Unmount(device))) then 3 else 2
    ensures forall i | 1 <= i < |steps| :: steps[i].Ran? && steps[i].cmd != MountPoint(device)
    ensures Guarded(steps)
    ensures Issued(steps, Unmount(device)) <==> IsMounted(tool(MountPoint(device)))
    ensures Issued(steps, Fsck(device)) <==>
      !IsMounted(tool(MountPoint(device))) || Succeeded(tool(Unmount(device)))
    ensures forall i | 0 <= i < |steps| ::
      steps[i].Ran? && steps[i].cmd in {MountPoint(device), Unmount(device), Fsck(device)}
    ensures forall i | 0 <= i < |steps| :: steps[i].Ran? && steps[i].result == tool(steps[i].cmd)
  {
    var probe := Ran(MountPoint(device), tool(MountPoint(device)));
    var check := Ran(Fsck(device), tool(Fsck(device)));
    if IsMounted(tool(MountPoint(device))) then
      var unmount := Ran(Unmount(device), tool(Unmount(device)));
      if Succeeded(tool(Unmount(device))) then
        var steps := [probe, unmount, check];
        assert SafeAt(steps, 2);
        assert steps[1].cmd == Unmount(device) && steps[2].cmd == Fsck(device);
        steps
      else
        var steps := [probe, unmount];
        assert steps[1].cmd == Unmount(device);
        assert !Issued(steps, Fsck(device)) by {
          assert forall i | 0 <= i < 2 :: steps[i].cmd != Fsck(device);
        }
        steps
    else
      var steps := [probe, check];
      assert steps[1].cmd == Fsck(device);
      assert !Issued(steps, Unmount(device)) by {
        assert forall i | 0 <= i < 2 :: steps[i].cmd != Unmount(device);
      }
      steps
  }

  /** The value `repair_filesystem(device)` returns: `True` exactly when
      `fsck` was issued and exited 0. */
  function RepairOk(device: string, tool: Tool): (ok: bool)
    ensures ok <==> Issued(RepairSteps(device, tool), Fsck(device)) && Succeeded(tool(Fsck(device)))
    ensures IsMounted(tool(MountPoint(device))) && !Succeeded(tool(Unmount(device))) ==> !ok
  {
    (!IsMounted(tool(MountPoint(device))) || Succeeded(tool(Unmount(device)))) &&
    Succeeded(tool(Fsck(device)))
  }

  /** `repair_filesystem`: probe the mount state; if mounted, unmount and give
      up (returning `False`, issuing no `fsck`) when that fails or cannot be
      launched; then run `fsck` and report whether it exited 0. */
  method RepairFilesystem(device: string, tool: Tool) returns (ok: bool, steps: seq<Event>)
    ensures steps == RepairSteps(device, tool)
    ensures ok == RepairOk(device, tool)
  {
    var probe := tool(MountPoint(device));
    steps := [Ran(MountPoint(device), probe)];
    if IsMounted(probe) {
      var unmounted := tool(Unmount(device));
      steps := steps + [Ran(Unmount(device), unmounted)];
      if !Succeeded(unmounted) {
        return false, steps;
      }
    }
    var checked := tool(Fsck(device));
    steps := steps + [Ran(Fsck(device), checked)];
    ok := Succeeded(checked);
  }

  /** Two guarded traces make a guarded trace, unless the second one opens
      with a step that depends on what came before it. */
  lemma GuardedAppend(a: seq<Event>, b: seq<Event>)
    requires Guarded(a) && Guarded(b)
    requires b == [] || !Dependent(b[0])
    ensures Guarded(a + b)
  {
    var ab := a + b;
    forall i | 0 <= i < |ab| ensures SafeAt(ab, i) {
      if i < |a| {
        assert ab[i] == a[i];
        assert i >= 1 ==> ab[i - 1] == a[i - 1];
        assert SafeAt(a, i);
      } else {
        assert ab[i] == b[i - |a|];
        assert i - |a| >= 1 ==> ab[i - 1] == b[i - |a| - 1];
        assert SafeAt(b, i - |a|);
      }
    }
  }

  // ----- prompt_repair -----

  /** How an answer reads after `.strip().lower()`. */
  datatype Reply = Yes | No | Unrecognised

  function Interpret(answer: string): Reply
  {
    var a := Lower(Strip(answer));
    if a == "yes" || a == "y" then Yes
    else if a == "no" || a == "n" then No
    else Unrecognised
  }

  /** Answers are read after `.strip().lower()`: padding and letter case
      do not matter, only the exact words `yes`, `y`, `no` and `n` count. */
  lemma InterpretExamples()
    ensures Interpret(" Y\n") == Yes
    ensures Interpret("No") == No
    ensures Interpret("yep") == Unrecognised
  {
    assert Lower(Strip(" Y\n")) == "y" by {
      assert TrimStart(" Y\n") == "Y\n";
      assert TrimEnd("Y\n") == "Y";
    }
    assert Lower(Strip("No")) == "no" by {
      assert Strip("No") == "No";
    }
    assert Strip("yep") == "yep";
    assert Lower("yep")[2] == 'p';
  }

  /** The answers read for one partition, what is left of the input, and the
      decision (`None` when the input ran out: `input()` raises `EOFError`,
      which nothing catches). */
  datatype Confirmation = Confirmation(asked: seq<Event>, rest: seq<string>, decision: Option<bool>)

  /** The `while True` prompt loop for `part`. */
  function Confirm(part: string, answers: seq<string>): Confirmation
    decreases |answers|
  {
    if answers == [] then Confirmation([], [], None)
    else
      var ask := Asked(part, answers[0]);
      match Interpret(answers[0])
      case Yes => Confirmation([ask], answers[1..], Some(true))
      case No => Confirmation([ask], answers[1..], Some(false))
      case Unrecognised => Prepend([ask], Confirm(part, answers[1..]))
  }

  /** The prompt loop reads a prefix of the answers, at least one when there
      is one, records each as asked for `part`, and leaves the rest unread. */
  lemma {:induction false} ConfirmReads(part: string, answers: seq<string>)
    ensures var c := Confirm(part, answers);
      && (1 <= |c.asked| || answers == [])
      && |c.asked| <= |answers| && c.rest == answers[|c.asked|..]
      && (forall j | 0 <= j < |c.asked| :: c.asked[j] == Asked(part, answers[j]))
    decreases |answers|
  {
    if answers != [] && Interpret(answers[0]) == Unrecognised {
      ConfirmReads(part, answers[1..]);
      var c := Confirm(part, answers[1..]);
      assert answers[1..][|c.asked|..] == answers[|c.asked| + 1..];
      assert forall j | 1 <= j < |c.asked| + 1 :: answers[j] == answers[1..][j - 1];
    }
  }

  /** Every answer read before the last one is unrecognised; the decision is
      the last answer's; there is no decision exactly when no answer is
      recognised, and then all answers have been read. */
  lemma ConfirmDecides(part: string, answers: seq<string>)
    ensures var c := Confirm(part, answers);
      && (forall j | 0 <= j < |c.asked| - 1 && j < |answers| :: Interpret(answers[j]) == Unrecognised)
      && (c.decision.None? <==> forall j | 0 <= j < |answers| :: Interpret(answers[j]) == Unrecognised)
      && (c.decision.None? ==> |c.asked| == |answers|)
      && (c.decision.Some? ==> 1 <= |c.asked| <= |answers|)
      && (c.decision.Some? ==> Interpret(answers[|c.asked| - 1]) == (if c.decision.value then Yes else No))
  {
    RepliesIndex(answers);
    ConfirmDecidesReplies(part, answers);
  }

  /** `ConfirmDecides`, read on the replies. */
  lemma {:induction false} ConfirmDecidesReplies(part: string, answers: seq<string>)
    ensures var c := Confirm(part, answers);
      var rs := Replies(answers);
      && (forall j | 0 <= j < |c.asked| - 1 && j < |rs| :: rs[j] == Unrecognised)
      && (c.decision.None? <==> forall j | 0 <= j < |rs| :: rs[j] == Unrecognised)
      && (c.decision.None? ==> |c.asked| == |rs|)
      && (c.decision.Some? ==> 1 <= |c.asked| <= |rs|)
      && (c.decision.Some? ==> rs[|c.asked| - 1] == (if c.decision.value then Yes else No))
    decreases |answers|
  {
    if answers != [] {
      var r := Interpret(answers[0]);
      var rs := Replies(answers);
      var tail := Replies(answers[1..]);
      var c := Confirm(part, answers);
      assert rs == [r] + tail;
      assert rs[0] == r;
      if r == Unrecognised {
        var c1 := Confirm(part, answers[1..]);
        assert c == Prepend([Asked(part, answers[0])], c1);
        assert |c.asked| == 1 + |c1.asked| && c.decision == c1.decision;
        ConfirmDecidesReplies(part, answers[1..]);
        assert forall j | 1 <= j < |rs| :: rs[j] == tail[j - 1];
        assert (forall j | 0 <= j < |rs| :: rs[j] == Unrecognised) <==>
               (forall j | 0 <= j < |tail| :: tail[j] == Unrecognised) by {
          if forall j | 0 <= j < |tail| :: tail[j] == Unrecognised {
            forall j | 0 <= j < |rs| ensures rs[j] == Unrecognised {
              if j > 0 { assert rs[j] == tail[j - 1]; }
            }
          }
          if forall j | 0 <= j < |rs| :: rs[j] == Unrecognised {
            forall j | 0 <= j < |tail| ensures tail[j] == Unrecognised {
              assert tail[j] == rs[j + 1];
            }
          }
        }
      } else {
        assert c == Confirmation([Asked(part, answers[0])], answers[1..], Some(r == Yes));
      }
    }
  }

  /** The state of a repair session: the trace so far, the answers not yet
      read, and whether the input ran out. */
  datatype Session = Session(events: seq<Event>, answers: seq<string>, eof: bool)

  /** What one partition adds to the trace: the mount probe for the status
      line, the answers read and, on yes, one call of `repair_filesystem`
      followed by its return value. */
  function PartitionEvents(part: string, tool: Tool, answers: seq<string>): seq<Event>
  {
    var c := Confirm(part, answers);
    [Ran(MountPoint(part), tool(MountPoint(part)))] + c.asked +
    (if c.decision == Some(true)
     then RepairSteps(part, tool) + [Attempted(part, RepairOk(part, tool))]
     else [])
  }

  /** One partition, in a session whose input has not run out. */
  function VisitPartition(s: Session, part: string, tool: Tool): Session
    requires !s.eof
  {
    var c := Confirm(part, s.answers);
    Session(s.events + PartitionEvents(part, tool, s.answers), c.rest, c.decision.None?)
  }

  /** The partitions of one disk, in order, until the input runs out. */
  function VisitPartitions(s: Session, parts: seq<string>, tool: Tool): Session
    decreases |parts|
  {
    if s.eof || parts == [] then s
    else VisitPartitions(VisitPartition(s, parts[0], tool), parts[1..], tool)
  }

  /** One disk: list its partitions, then visit each. A disk without
      partitions adds only its listing. */
  function VisitDisk(s: Session, disk: string, tool: Tool): Session
    requires !s.eof
  {
    var listing := tool(ListPartitions(disk));
    VisitPartitions(Session(s.events + [Ran(ListPartitions(disk), listing)], s.answers, false),
                    DeviceList(listing, PartKind), tool)
  }

  /** The disks, in order, until the input runs out. */
  function VisitDisks(s: Session, disks: seq<string>, tool: Tool): Session
    decreases |disks|
  {
    if s.eof || disks == [] then s
    else VisitDisks(VisitDisk(s, disks[0], tool), disks[1..], tool)
  }

  /** The whole of `prompt_repair(disks)` given the host and the operator's
      answers. */
  function PromptSession(disks: seq<string>, tool: Tool, answers: seq<string>): Session
  {
    VisitDisks(Session([], answers, false), disks, tool)
  }

  // ----- the loops of prompt_repair -----

  /** The `while True` loop of `prompt_repair` for one partition: read
      answers until one is recognised. Returns the answers read, the index
      of the next unread answer and the decision (`None` when the input ran
      out). */
  method AskUntilRecognised(part: string, answers: seq<string>, pos: nat)
    returns (asked: seq<Event>, next: nat, decision: Option<bool>)
    requires pos <= |answers|
    ensures next <= |answers|
    ensures Confirm(part, answers[pos..]) == Confirmation(asked, answers[next..], decision)
  {
    asked, next, decision := [], pos, None;
    ghost var whole := Confirm(part, answers[pos..]);
    while decision.None? && next < |answers|
      invariant pos <= next <= |answers|
      invariant whole == if decision.None? then Prepend(asked, Confirm(part, answers[next..]))
                         else Confirmation(asked, answers[next..], decision)
      decreases |answers| - next
    {
      var ans := answers[next];
      var reply := Interpret(ans);
      ConfirmStep(part, answers, next, asked);
      asked := asked + [Asked(part, ans)];
      next := next + 1;
      if reply != Unrecognised {
        decision := Some(reply == Yes);
      }
    }
    if decision.None? {
      assert answers[next..] == [];
      assert asked + [] == asked;
    }
  }

  /** The body of the inner `for part in partitions` loop: the mount probe for
      the status line, the prompt loop, and on yes one call of
      `repair_filesystem`. Returns the extended trace, the index of the next
      unread answer and whether the input ran out. */
  method VisitPartitionStep(events: seq<Event>, part: string, tool: Tool, answers: seq<string>, pos: nat)
    returns (events': seq<Event>, next: nat, eof: bool)
    requires pos <= |answers|
    ensures next <= |answers|
    ensures Session(events', answers[next..], eof) ==
      VisitPartition(Session(events, answers[pos..], false), part, tool)
  {
    var probe := tool(MountPoint(part));
    var asked, decision;
    asked, next, decision := AskUntilRecognised(part, answers, pos);
    events' := events + [Ran(MountPoint(part), probe)] + asked;
    if decision == Some(true) {
      var ok, steps := RepairFilesystem(part, tool);
      events' := events' + (steps + [Attempted(part, ok)]);
    } else {
      assert events' == events' + [];
    }
    eof := decision.None?;
    VisitPartitionIs(Session(events, answers[pos..], false), part, tool, asked, answers[next..], decision);
  }

  /** One turn of the prompt loop, read off the definition: the answer at
      `pos` is recorded and either decides or leaves the loop running. */
  lemma ConfirmStep(part: string, answers: seq<string>, pos: nat, asked: seq<Event>)
    requires pos < |answers|
    ensures var asked' := asked + [Asked(part, answers[pos])];
      var reply := Interpret(answers[pos]);
      Prepend(asked, Confirm(part, answers[pos..])) ==
        if reply == Unrecognised then Prepend(asked', Confirm(part, answers[pos + 1..]))
        else Confirmation(asked', answers[pos + 1..], Some(reply == Yes))
  {
    assert answers[pos..][0] == answers[pos] && answers[pos..][1..] == answers[pos + 1..];
    PrependAssoc(asked, [Asked(part, answers[pos])], Confirm(part, answers[pos + 1..]));
  }

  /** `VisitPartition` for a known outcome of the prompt loop. */
  lemma VisitPartitionIs(s: Session, part: string, tool: Tool,
                         asked: seq<Event>, rest: seq<string>, decision: Option<bool>)
    requires !s.eof && Confirm(part, s.answers) == Confirmation(asked, rest, decision)
    ensures VisitPartition(s, part, tool) ==
      Session(s.events + [Ran(MountPoint(part), tool(MountPoint(part)))] + asked +
                (if decision == Some(true)
                 then RepairSteps(part, tool) + [Attempted(part, RepairOk(part, tool))] else []),
              rest, decision.None?)
  {
    var probe := [Ran(MountPoint(part), tool(MountPoint(part)))];
    var repair := if decision == Some(true)
      then RepairSteps(part, tool) + [Attempted(part, RepairOk(part, tool))] else [];
    assert s.events + (probe + asked + repair) == s.events + probe + asked + repair;
  }

  /** Forms `Confirmation` values for the loop invariant: answers already read
      in front of what the loop will still read. */
  function Prepend(asked: seq<Event>, c: Confirmation): Confirmation
  {
    Confirmation(asked + c.asked, c.rest, c.decision)
  }

  lemma PrependAssoc(a: seq<Event>, b: seq<Event>, c: Confirmation)
    ensures Prepend(a, Prepend(b, c)) == Prepend(a + b, c)
  {
    assert a + (b + c.asked) == (a + b) + c.asked;
  }

  /** `prompt_repair`: for each disk, list its partitions; for each
      partition, run the prompt loop. The method returns early when the
      input runs out, as the uncaught `EOFError` does. */
  method PromptRepair(disks: seq<string>, tool: Tool, answers: seq<string>) returns (session: Session)
    ensures session == PromptSession(disks, tool, answers)
  {
    var events: seq<Event> := [];
    var pos: nat := 0;
    ghost var final := PromptSession(disks, tool, answers);
    for i := 0 to |disks|
      invariant pos <= |answers|
      invariant VisitDisks(Session(events, answers[pos..], false), disks[i..], tool) == final
    {
      var disk := disks[i];
      assert disks[i..][0] == disk && disks[i..][1..] == disks[i + 1..];
      var parts := GetPartitions(tool, disk);
      events := events + [Ran(ListPartitions(disk), tool(ListPartitions(disk)))];
      for j := 0 to |parts|
        invariant pos <= |answers|
        invariant VisitDisks(VisitPartitions(Session(events, answers[pos..], false), parts[j..], tool),
                             disks[i + 1..], tool) == final
      {
        assert parts[j..][0] == parts[j] && parts[j..][1..] == parts[j + 1..];
        var eof;
        events, pos, eof := VisitPartitionStep(events, parts[j], tool, answers, pos);
        if eof {
          EofStops(Session(events, answers[pos..], true), parts[j + 1..], disks[i + 1..], tool);
          return Session(events, answers[pos..], true);
        }
      }
    }
    session := Session(events, answers[pos..], false);
  }

  /** Once the input has run out nothing more happens. */
  lemma EofStops(s: Session, parts: seq<string>, disks: seq<string>, tool: Tool)
    requires s.eof
    ensures VisitDisks(VisitPartitions(s, parts, tool), disks, tool) == s
  {
  }

  // ----- what a session guarantees -----

  /** Number of events of the trace that satisfy `p`. */
  function Count(events: seq<Event>, p: Event -> bool): nat
  {
    if events == [] then 0 else (if p(events[0]) then 1 else 0) + Count(events[1..], p)
  }

  lemma {:induction false} CountAppend(a: seq<Event>, b: seq<Event>, p: Event -> bool)
    ensures Count(a + b, p) == Count(a, p) + Count(b, p)
    decreases |a|
  {
    if a == [] {
      assert a + b == b;
    } else {
      assert (a + b)[1..] == a[1..] + b;
      CountAppend(a[1..], b, p);
    }
  }

  /** A repair attempt (one call of `repair_filesystem`). */
  predicate IsAttempt(e: Event)
  {
    e.Attempted?
  }

  /** An answer that reads as yes. */
  predicate IsYes(e: Event)
  {
    e.Asked? && Interpret(e.answer) == Yes
  }

  /** How each answer reads, in order. */
  function Replies(answers: seq<string>): (replies: seq<Reply>)
    ensures |replies| == |answers|
  {
    if answers == [] then [] else [Interpret(answers[0])] + Replies(answers[1..])
  }

  /** Each answer's reply sits at its own position. */
  lemma {:induction false} RepliesIndex(answers: seq<string>)
    ensures forall j | 0 <= j < |answers| :: Replies(answers)[j] == Interpret(answers[j])
    decreases |answers|
  {
    if answers != [] {
      RepliesIndex(answers[1..]);
    }
  }

  /** The first reply that is not unrecognised is a yes. */
  predicate FirstYes(replies: seq<Reply>)
    decreases |replies|
  {
    replies != [] &&
    (replies[0] == Yes || (replies[0] == Unrecognised && FirstYes(replies[1..])))
  }

  /** The first recognised answer is a yes. */
  predicate FirstRecognisedIsYes(answers: seq<string>)
  {
    FirstYes(Replies(answers))
  }

  /** A first yes is a yes preceded only by unrecognised replies. */
  lemma {:induction false} FirstYesIff(rs: seq<Reply>)
    ensures FirstYes(rs) <==>
      exists j | 0 <= j < |rs| :: rs[j] == Yes && forall i | 0 <= i < j :: rs[i] == Unrecognised
    decreases |rs|
  {
    if rs != [] {
      var tail := rs[1..];
      FirstYesIff(tail);
      if rs[0] == Unrecognised && FirstYes(tail) {
        var j :| 0 <= j < |tail| && tail[j] == Yes && forall i | 0 <= i < j :: tail[i] == Unrecognised;
        assert rs[j + 1] == tail[j];
        assert forall i | 1 <= i < j + 1 :: rs[i] == tail[i - 1];
      }
      if exists j | 0 <= j < |rs| :: rs[j] == Yes && forall i | 0 <= i < j :: rs[i] == Unrecognised {
        var j :| 0 <= j < |rs| && rs[j] == Yes && forall i | 0 <= i < j :: rs[i] == Unrecognised;
        if j > 0 {
          assert rs[0] == Unrecognised;
          assert tail[j - 1] == rs[j];
          assert forall i | 0 <= i < j - 1 :: tail[i] == rs[i + 1];
        }
      }
    }
  }

  /** Read on the answers themselves: some answer is a yes and every
      answer before it is unrecognised. */
  lemma FirstRecognisedIsYesIff(answers: seq<string>)
    ensures FirstRecognisedIsYes(answers) <==>
      exists j | 0 <= j < |answers| ::
        Interpret(answers[j]) == Yes && forall i | 0 <= i < j :: Interpret(answers[i]) == Unrecognised
  {
    RepliesIndex(answers);
    FirstYesIff(Replies(answers));
  }

  /** The trace invariant of a session: every `umount` and every `fsck` is
      guarded, and there are as many repair attempts as yes answers. */
  predicate Sound(events: seq<Event>)
  {
    Guarded(events) && Count(events, IsAttempt) == Count(events, IsYes)
  }

  lemma SoundAppend(a: seq<Event>, b: seq<Event>)
    requires Sound(a) && Sound(b)
    requires b == [] || !Dependent(b[0])
    ensures Sound(a + b)
  {
    GuardedAppend(a, b);
    CountAppend(a, b, IsAttempt);
    CountAppend(a, b, IsYes);
  }

  /** The answers one prompt loop reads hold a yes exactly when it decides
      yes, and then only one. */
  lemma {:induction false} AskedYesCount(part: string, answers: seq<string>)
    ensures var c := Confirm(part, answers);
      Count(c.asked, IsYes) == (if c.decision == Some(true) then 1 else 0)
    decreases |answers|
  {
    if answers != [] {
      var ask := Asked(part, answers[0]);
      var c := Confirm(part, answers);
      if Interpret(answers[0]) == Unrecognised {
        AskedYesCount(part, answers[1..]);
        var c1 := Confirm(part, answers[1..]);
        CountAppend([ask], c1.asked, IsYes);
        assert Count([ask], IsYes) == 0;
      } else {
        assert c.asked == [ask];
        assert Count([ask], IsYes) == (if Interpret(answers[0]) == Yes then 1 else 0) + Count([], IsYes);
      }
    }
  }

  /** What one partition adds keeps the trace invariant and does not open
      with a step that depends on what came before. */
  lemma PartitionEventsSound(part: string, tool: Tool, answers: seq<string>)
    ensures var block := PartitionEvents(part, tool, answers);
      block != [] && !Dependent(block[0]) && Sound(block)
  {
    var c := Confirm(part, answers);
    ConfirmReads(part, answers);
    AskedYesCount(part, answers);
    var probe := Ran(MountPoint(part), tool(MountPoint(part)));
    var repair := if c.decision == Some(true)
      then RepairSteps(part, tool) + [Attempted(part, RepairOk(part, tool))]
      else [];
    var pa := [probe] + c.asked;
    assert Guarded(pa) by {
      forall i | 0 <= i < |pa| ensures SafeAt(pa, i) {
        if i > 0 { assert pa[i] == c.asked[i - 1]; }
      }
    }
    if c.decision == Some(true) {
      var steps := RepairSteps(part, tool);
      var done := [Attempted(part, RepairOk(part, tool))];
      assert Guarded(done);
      GuardedAppend(steps, done);
      CountAppend(steps, done, IsAttempt);
      CountAppend(steps, done, IsYes);
      NoAttemptsInSteps(steps);
      assert Count(done, IsAttempt) == 1 + Count([], IsAttempt);
      assert Count(done, IsYes) == 0 + Count([], IsYes);
    }
    assert Guarded(repair) && Count(repair, IsYes) == 0;
    assert Count(repair, IsAttempt) == Count(c.asked, IsYes);
    CountAppend([probe], c.asked, IsAttempt);
    CountAppend([probe], c.asked, IsYes);
    NoAttemptsInAsked(c.asked);
    assert Count([probe], IsAttempt) == 0 + Count([], IsAttempt);
    assert Count([probe], IsYes) == 0 + Count([], IsYes);
    assert Count(pa, IsAttempt) == 0;
    assert Count(pa, IsYes) == Count(repair, IsAttempt);
    GuardedAppend(pa, repair);
    CountAppend(pa, repair, IsAttempt);
    CountAppend(pa, repair, IsYes);
  }

  /** The prompt loop decides yes exactly when the first recognised answer
      is a yes. */
  lemma {:induction false} DecidesYes(part: string, answers: seq<string>)
    ensures Confirm(part, answers).decision == Some(true) <==> FirstRecognisedIsYes(answers)
    decreases |answers|
  {
    if answers != [] {
      var r := Interpret(answers[0]);
      var rs := Replies(answers);
      assert rs[0] == r && rs[1..] == Replies(answers[1..]);
      if r == Unrecognised {
        DecidesYes(part, answers[1..]);
      }
    }
  }

  /** `prompt_repair` calls `repair_filesystem` at most once per partition,
      and exactly once when the first recognised answer is yes;
      unrecognised answers only lead to another prompt. */
  lemma PartitionAttempts(part: string, tool: Tool, answers: seq<string>)
    ensures Count(PartitionEvents(part, tool, answers), IsAttempt) ==
      if FirstRecognisedIsYes(answers) then 1 else 0
  {
    var c := Confirm(part, answers);
    ConfirmReads(part, answers);
    DecidesYes(part, answers);
    var probe := Ran(MountPoint(part), tool(MountPoint(part)));
    var repair := if c.decision == Some(true)
      then RepairSteps(part, tool) + [Attempted(part, RepairOk(part, tool))]
      else [];
    var pa := [probe] + c.asked;
    CountAppend([probe], c.asked, IsAttempt);
    NoAttemptsInAsked(c.asked);
    assert Count([probe], IsAttempt) == 0 + Count([], IsAttempt);
    assert PartitionEvents(part, tool, answers) == pa + repair;
    CountAppend(pa, repair, IsAttempt);
    if c.decision == Some(true) {
      var steps := RepairSteps(part, tool);
      var done := [Attempted(part, RepairOk(part, tool))];
      CountAppend(steps, done, IsAttempt);
      NoAttemptsInSteps(steps);
      assert Count(done, IsAttempt) == 1 + Count([], IsAttempt);
    } else {
      assert repair == [];
    }
  }

  lemma {:induction false} NoAttemptsInSteps(steps: seq<Event>)
    requires forall i | 0 <= i < |steps| :: steps[i].Ran?
    ensures Count(steps, IsAttempt) == 0 && Count(steps, IsYes) == 0
    decreases |steps|
  {
    if steps != [] {
      NoAttemptsInSteps(steps[1..]);
    }
  }

  lemma {:induction false} NoAttemptsInAsked(asked: seq<Event>)
    requires forall i | 0 <= i < |asked| :: asked[i].Asked?
    ensures Count(asked, IsAttempt) == 0
    decreases |asked|
  {
    if asked != [] {
      NoAttemptsInAsked(asked[1..]);
    }
  }

  lemma {:induction false} PartitionsSound(s: Session, parts: seq<string>, tool: Tool)
    requires Sound(s.events)
    ensures Sound(VisitPartitions(s, parts, tool).events)
    decreases |parts|
  {
    if !s.eof && parts != [] {
      PartitionEventsSound(parts[0], tool, s.answers);
      SoundAppend(s.events, PartitionEvents(parts[0], tool, s.answers));
      PartitionsSound(VisitPartition(s, parts[0], tool), parts[1..], tool);
    }
  }

  lemma {:induction false} DisksSound(s: Session, disks: seq<string>, tool: Tool)
    requires Sound(s.events)
    ensures Sound(VisitDisks(s, disks, tool).events)
    decreases |disks|
  {
    if !s.eof && disks != [] {
      var listing := Ran(ListPartitions(disks[0]), tool(ListPartitions(disks[0])));
      assert Sound([listing]) by {
        assert Count([listing], IsAttempt) == 0 + Count([], IsAttempt);
        assert Count([listing], IsYes) == 0 + Count([], IsYes);
      }
      SoundAppend(s.events, [listing]);
      var s1 := Session(s.events + [listing], s.answers, false);
      PartitionsSound(s1, DeviceList(tool(ListPartitions(disks[0])), PartKind), tool);
      DisksSound(VisitDisk(s, disks[0], tool), disks[1..], tool);
    }
  }

  /** Over a whole session, every `umount` follows a probe that saw the
      partition mounted, every `fsck` follows a probe that saw it unmounted
      or an `umount` that exited 0, and there is exactly one repair attempt
      per yes answer. */
  lemma PromptSessionSound(disks: seq<string>, tool: Tool, answers: seq<string>)
    ensures Guarded(PromptSession(disks, tool, answers).events)
    ensures Count(PromptSession(disks, tool, answers).events, IsAttempt) ==
            Count(PromptSession(disks, tool, answers).events, IsYes)
  {
    assert Sound([]);
    DisksSound(Session([], answers, false), disks, tool);
  }
}
