/** Log anomaly scan (the keyword loop of `parse_log_for_errors`): keep,
    stripped and in order, the log lines that mention a failure keyword in
    any letter case. */
module LogScan {
  import opened Text

  const Keywords: seq<string> :=
    ["I/O error", "ata_error", "fail", "error", "unresponsive", "offline", "faulty"]

  /** `any(keyword.lower() in text for keyword in keywords)`. */
  predicate MentionsAny(text: string, keywords: seq<string>)
    decreases |keywords|
  {
    keywords != [] && (Contains(text, Lower(keywords[0])) || MentionsAny(text, keywords[1..]))
  }

  /** The test applied to each log line, on its lower-cased text. */
  predicate Flagged(line: string)
  {
    MentionsAny(Lower(line), Keywords)
  }

  /** The `any` loop finds a keyword exactly when one is contained. */
  lemma {:induction false} MentionsAnyIff(text: string, keywords: seq<string>)
    ensures MentionsAny(text, keywords) <==>
      exists j | 0 <= j < |keywords| :: Contains(text, Lower(keywords[j]))
    decreases |keywords|
  {
    if keywords != [] {
      MentionsAnyIff(text, keywords[1..]);
      assert forall j | 1 <= j < |keywords| :: keywords[j] == keywords[1..][j - 1];
      if exists j | 0 <= j < |keywords| :: Contains(text, Lower(keywords[j])) {
        var j :| 0 <= j < |keywords| && Contains(text, Lower(keywords[j]));
        if j > 0 {
          assert Contains(text, Lower(keywords[1..][j - 1]));
        }
      }
    }
  }

  /** A line is flagged if and only if its lower-cased text contains one of
      the lower-cased keywords. */
  lemma FlaggedIff(line: string)
    ensures Flagged(line) <==> exists j | 0 <= j < |Keywords| :: Contains(Lower(line), Lower(Keywords[j]))
  {
    MentionsAnyIff(Lower(line), Keywords);
  }

  /** The kept lines for a keyword list: the lines mentioning one of
      `keywords`, stripped, in order. */
  function Scan(logs: seq<string>, keywords: seq<string>): (errors: seq<string>)
    ensures |errors| <= |logs|
  {
    if logs == [] then []
    else (if MentionsAny(Lower(logs[0]), keywords) then [Strip(logs[0])] else []) + Scan(logs[1..], keywords)
  }

  /** The kept lines: reference definition of the scan. */
  function Anomalies(logs: seq<string>): seq<string>
  {
    Scan(logs, Keywords)
  }

  lemma {:induction false} ScanMembers(logs: seq<string>, keywords: seq<string>)
    ensures forall i | 0 <= i < |logs| && MentionsAny(Lower(logs[i]), keywords) ::
      Strip(logs[i]) in Scan(logs, keywords)
    ensures forall e | e in Scan(logs, keywords) ::
      exists i | 0 <= i < |logs| :: MentionsAny(Lower(logs[i]), keywords) && e == Strip(logs[i])
    decreases |logs|
  {
    if logs != [] {
      ScanMembers(logs[1..], keywords);
      assert forall i | 1 <= i < |logs| :: logs[i] == logs[1..][i - 1];
      var head := if MentionsAny(Lower(logs[0]), keywords) then [Strip(logs[0])] else [];
      assert Scan(logs, keywords) == head + Scan(logs[1..], keywords);
      forall e | e in Scan(logs, keywords)
        ensures exists i | 0 <= i < |logs| :: MentionsAny(Lower(logs[i]), keywords) && e == Strip(logs[i])
      {
        if e !in head {
          var j :| 0 <= j < |logs[1..]| && MentionsAny(Lower(logs[1..][j]), keywords) &&
                   e == Strip(logs[1..][j]);
          assert MentionsAny(Lower(logs[j + 1]), keywords) && e == Strip(logs[j + 1]);
        }
      }
    }
  }

  /** Every flagged line is kept, stripped; every kept line is the strip of
      a flagged line; nothing flagged means nothing kept. */
  lemma AnomaliesMembers(logs: seq<string>)
    ensures forall i | 0 <= i < |logs| && Flagged(logs[i]) :: Strip(logs[i]) in Anomalies(logs)
    ensures forall e | e in Anomalies(logs) ::
      exists i | 0 <= i < |logs| :: Flagged(logs[i]) && e == Strip(logs[i])
    ensures (forall i | 0 <= i < |logs| :: !Flagged(logs[i])) ==> Anomalies(logs) == []
  {
    ScanMembers(logs, Keywords);
    if Anomalies(logs) != [] {
      assert Anomalies(logs)[0] in Anomalies(logs);
    }
  }

  lemma {:induction false} ScanAppend(a: seq<string>, b: seq<string>, keywords: seq<string>)
    ensures Scan(a + b, keywords) == Scan(a, keywords) + Scan(b, keywords)
    decreases |a|
  {
    if a == [] {
      assert a + b == b;
    } else {
      var head := if MentionsAny(Lower(a[0]), keywords) then [Strip(a[0])] else [];
      assert (a + b)[0] == a[0];
      assert (a + b)[1..] == a[1..] + b;
      assert Scan(a + b, keywords) == head + Scan(a[1..] + b, keywords);
      ScanAppend(a[1..], b, keywords);
      assert head + (Scan(a[1..], keywords) + Scan(b, keywords)) ==
             (head + Scan(a[1..], keywords)) + Scan(b, keywords);
    }
  }

  /** The scan keeps log order: it distributes over concatenation. */
  lemma AnomaliesAppend(a: seq<string>, b: seq<string>)
    ensures Anomalies(a + b) == Anomalies(a) + Anomalies(b)
  {
    ScanAppend(a, b, Keywords);
  }

  lemma AnomaliesSnoc(logs: seq<string>, i: nat)
    requires i < |logs|
    ensures Anomalies(logs[..i + 1]) ==
      Anomalies(logs[..i]) + if Flagged(logs[i]) then [Strip(logs[i])] else []
  {
    assert logs[..i + 1] == logs[..i] + [logs[i]];
    ScanAppend(logs[..i], [logs[i]], Keywords);
    assert [logs[i]][1..] == [];
  }

  lemma {:induction false} ScanAvoid(logs: seq<string>, keywords: seq<string>, c: char)
    requires forall i | 0 <= i < |logs| :: c !in Strip(logs[i])
    ensures forall k | 0 <= k < |Scan(logs, keywords)| :: c !in Scan(logs, keywords)[k]
    decreases |logs|
  {
    if logs != [] {
      assert forall i | 0 <= i < |logs[1..]| :: logs[1..][i] == logs[i + 1];
      ScanAvoid(logs[1..], keywords, c);
      var head := if MentionsAny(Lower(logs[0]), keywords) then [Strip(logs[0])] else [];
      assert Scan(logs, keywords) == head + Scan(logs[1..], keywords);
    }
  }

  /** A character that no stripped log line holds is in no kept line. */
  lemma AnomaliesAvoid(logs: seq<string>, c: char)
    requires forall i | 0 <= i < |logs| :: c !in Strip(logs[i])
    ensures forall k | 0 <= k < |Anomalies(logs)| :: c !in Anomalies(logs)[k]
  {
    ScanAvoid(logs, Keywords, c);
  }

  /** A line as `readlines()` or `splitlines()` yields it: no line break,
      or a single one at its end. */
  predicate IsReadLine(line: string)
  {
    '\n' !in line || (line != [] && line[|line| - 1] == '\n' && '\n' !in line[..|line| - 1])
  }

  /** Such a line holds no line break once stripped. */
  lemma ReadLineStripped(line: string)
    requires IsReadLine(line)
    ensures '\n' !in Strip(line)
  {
    if '\n' in line {
      var x := line[..|line| - 1];
      assert line == x + "\n";
      StripLineEnd(x);
    } else {
      StripKeeps(line, '\n');
    }
  }

  /** The loop of `parse_log_for_errors` over a given sequence of lines. */
  method ParseLogForErrors(logs: seq<string>) returns (errors: seq<string>)
    ensures errors == Anomalies(logs)
  {
    errors := [];
    for i := 0 to |logs|
      invariant errors == Anomalies(logs[..i])
    {
      AnomaliesSnoc(logs, i);
      if Flagged(logs[i]) {
        errors := errors + [Strip(logs[i])];
      }
    }
    assert logs[..|logs|] == logs;
  }

  /** Matching ignores letter case: an upper-case `ERROR` is flagged. */
  lemma UpperCaseErrorFlagged()
    ensures Flagged("ATA bus ERROR detected")
  {
    var l := Lower("ATA bus ERROR detected");
    assert Lower("error") == "error";
    assert LowerChar('E') == 'e' && LowerChar('R') == 'r' && LowerChar('O') == 'o';
    assert l[8..13] == [l[8], l[9], l[10], l[11], l[12]];
    assert l[8..13] == "error";
    assert OccursAt(l, Lower(Keywords[3]), 8);
    FlaggedIff("ATA bus ERROR detected");
  }

  /** Matching is by substring, not by word: `errorless` is flagged. */
  lemma SubstringFlagged()
    ensures Flagged("errorless")
  {
    assert Lower("errorless")[0..5] == "error";
    assert Lower("error") == "error";
    assert OccursAt(Lower("errorless"), Lower(Keywords[3]), 0);
    FlaggedIff("errorless");
  }

  /** A line without any keyword is not flagged. */
  lemma NominalLineNotFlagged()
    ensures !Flagged("disk nominal")
  {
    var l := Lower("disk nominal");
    assert l == "disk nominal";
    var probe := ['e', 'e', 'f', 'e', 'e', 'e', 'f'];
    assert Lower(Keywords[0])[4] == 'e';
    assert Lower(Keywords[1])[4] == 'e';
    assert Lower(Keywords[2])[0] == 'f';
    assert Lower(Keywords[3])[0] == 'e';
    assert Lower(Keywords[4])[3] == 'e';
    assert Lower(Keywords[5])[6] == 'e';
    assert Lower(Keywords[6])[0] == 'f';
    forall j | 0 <= j < |Keywords| ensures !Contains(l, Lower(Keywords[j])) {
      assert probe[j] in Lower(Keywords[j]) && probe[j] !in l;
    }
    FlaggedIff("disk nominal");
  }
}
