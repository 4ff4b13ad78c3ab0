/** Health classification (`check_smart_status`): the token that follows the
    fixed self-assessment prefix in `smartctl -H` output. */
module Smart {
  import opened Wrappers
  import opened Text
  import opened Host

  const Prefix: string := "SMART overall-health self-assessment test result: "
  const UnknownStatus: string := "UNKNOWN"
  const ErrorStatus: string := "ERROR"

  /** The regex class `\w`, restricted to ASCII: letters, digits and `_`. */
  predicate IsWordChar(c: char)
  {
    ('a' <= c <= 'z') || ('A' <= c <= 'Z') || ('0' <= c <= '9') || c == '_'
  }

  /** The pattern `<Prefix>(\w+)` matches at index `p`. */
  predicate MatchesAt(out: string, p: nat)
  {
    p + |Prefix| < |out| && OccursAt(out, Prefix, p) && IsWordChar(out[p + |Prefix|])
  }

  /** The pattern matches somewhere in `out`. */
  predicate HasMatch(out: string)
  {
    exists p: nat | p < |out| :: MatchesAt(out, p)
  }

  /** `re.search`: the leftmost index at or after `from` where the pattern
      matches. */
  function FirstMatch(out: string, from: nat): (r: Option<nat>)
    ensures r.Some? ==> from <= r.value && MatchesAt(out, r.value)
    ensures r.Some? ==> forall q: nat | from <= q < r.value :: !MatchesAt(out, q)
    ensures r.None? ==> forall q: nat | from <= q :: !MatchesAt(out, q)
    decreases |out| - from
  {
    if |out| <= from + |Prefix| then None
    else if MatchesAt(out, from) then Some(from)
    else FirstMatch(out, from + 1)
  }

  /** The greedy `\w+` run starting at index `i`. */
  function WordRun(s: string, i: nat): (w: string)
    requires i <= |s|
    ensures i + |w| <= |s| && w == s[i..i + |w|]
    ensures forall k | 0 <= k < |w| :: IsWordChar(w[k])
    ensures i + |w| == |s| || !IsWordChar(s[i + |w|])
    decreases |s| - i
  {
    if i < |s| && IsWordChar(s[i]) then
      var rest := WordRun(s, i + 1);
      assert s[i..i + 1 + |rest|] == [s[i]] + s[i + 1..i + 1 + |rest|];
      [s[i]] + rest
    else []
  }

  /** `token` is group 1 of the leftmost match, found at index `p`: a
      non-empty maximal run of word characters right after the prefix. */
  predicate ReportsAt(out: string, p: nat, token: string)
  {
    MatchesAt(out, p) && (forall q: nat | q < p :: !MatchesAt(out, q)) &&
    token != [] && (forall k | 0 <= k < |token| :: IsWordChar(token[k])) &&
    OccursAt(out, token, p + |Prefix|) &&
    (p + |Prefix| + |token| == |out| || !IsWordChar(out[p + |Prefix| + |token|]))
  }

  /** The status string of one disk: the reported token, `UNKNOWN` when the
      pattern is absent, `ERROR` when `smartctl` could not be launched. */
  function CheckSmartStatus(run: Proc): (status: string)
    ensures run.LaunchFailed? ==> status == ErrorStatus
    ensures run.Exited? && !HasMatch(run.out) ==> status == UnknownStatus
    ensures status == ErrorStatus || status == UnknownStatus ||
      (status != [] && forall k | 0 <= k < |status| :: IsWordChar(status[k]))
  {
    match run
    case LaunchFailed => ErrorStatus
    case Exited(_, out) =>
      match FirstMatch(out, 0)
      case None => UnknownStatus
      case Some(p) => WordRun(out, p + |Prefix|)
  }

  /** Output that never contains the prefix reports `UNKNOWN`. */
  lemma NoPrefixIsUnknown(out: string, code: int)
    requires !Contains(out, Prefix)
    ensures CheckSmartStatus(Exited(code, out)) == UnknownStatus
  {
    forall p: nat | p < |out| ensures !MatchesAt(out, p) {
      assert !OccursAt(out, Prefix, p);
    }
  }

  /** When some line reports a result, the status is the token of the first
      report. */
  lemma StatusIsReport(out: string, code: int)
    requires HasMatch(out)
    ensures exists p: nat :: ReportsAt(out, p, CheckSmartStatus(Exited(code, out)))
  {
    match FirstMatch(out, 0)
    case None =>
      assert false;
    case Some(p) =>
      FirstMatchReports(out, p);
      var token := WordRun(out, p + |Prefix|);
      assert CheckSmartStatus(Exited(code, out)) == token;
      assert ReportsAt(out, p, CheckSmartStatus(Exited(code, out)));
  }

  lemma FirstMatchReports(out: string, p: nat)
    requires FirstMatch(out, 0) == Some(p)
    ensures ReportsAt(out, p, WordRun(out, p + |Prefix|))
  {
    var i := p + |Prefix|;
    var token := WordRun(out, i);
    assert MatchesAt(out, p) && i < |out| && IsWordChar(out[i]);
    assert OccursAt(out, token, i);
    assert token != [];
  }

  /** The token after the first matching prefix is determined: at most one
      string is reported by any output. */
  lemma ReportIsUnique(out: string, p1: nat, t1: string, p2: nat, t2: string)
    requires ReportsAt(out, p1, t1) && ReportsAt(out, p2, t2)
    ensures p1 == p2 && t1 == t2
  {
    assert p1 < p2 ==> !MatchesAt(out, p1);
    assert p2 < p1 ==> !MatchesAt(out, p2);
    assert p1 == p2;
    var i := p1 + |Prefix|;
    forall k | 0 <= k < |t1| ensures t1[k] == out[i + k] {
      assert t1[k] == out[i..i + |t1|][k];
    }
    forall k | 0 <= k < |t2| ensures t2[k] == out[i + k] {
      assert t2[k] == out[i..i + |t2|][k];
    }
    assert |t1| == |t2|;
  }

  /** An output that opens with the prefix and a token reports that token. */
  lemma StatusOfReport(token: string, rest: string, code: int)
    requires token != [] && forall k | 0 <= k < |token| :: IsWordChar(token[k])
    requires rest == [] || !IsWordChar(rest[0])
    ensures CheckSmartStatus(Exited(code, Prefix + token + rest)) == token
  {
    var out := Prefix + token + rest;
    assert out[..|Prefix|] == Prefix;
    assert OccursAt(out, token, |Prefix|) by {
      assert out[|Prefix|..|Prefix| + |token|] == token;
    }
    assert ReportsAt(out, 0, token) by {
      if |Prefix| + |token| < |out| {
        assert out[|Prefix| + |token|] == rest[0];
      }
    }
    StatusIsReport(out, code);
    var p: nat :| ReportsAt(out, p, CheckSmartStatus(Exited(code, out)));
    ReportIsUnique(out, 0, token, p, CheckSmartStatus(Exited(code, out)));
  }
}
