/** The Python string built-ins the monitor relies on: `str.isspace`,
    `str.strip()`, `str.split()`, `str.split('\n')`, `str.lower()` and the
    substring test `sub in s`. Strings are sequences of code points. */
module Text {

  /** Python's `str.isspace` (the full list of code points Python 3 treats
      as whitespace). */
  predicate IsSpace(c: char)
  {
    var n := c as int;
    n == 0x20 || (0x09 <= n <= 0x0D) || (0x1C <= n <= 0x1F) || n == 0x85 || n == 0xA0 ||
    n == 0x1680 || (0x2000 <= n <= 0x200A) || n == 0x2028 || n == 0x2029 ||
    n == 0x202F || n == 0x205F || n == 0x3000
  }

  /** No whitespace anywhere in `s`. */
  predicate NoSpace(s: string)
  {
    forall k | 0 <= k < |s| :: !IsSpace(s[k])
  }

  /** Lower-casing of one character, ASCII letters only. */
  function LowerChar(c: char): (d: char)
    ensures 'A' <= c <= 'Z' ==> d as int == c as int + 32
    ensures !('A' <= c <= 'Z') ==> d == c
  {
    if 'A' <= c <= 'Z' then (c as int + 32) as char else c
  }

  /** `s.lower()`, restricted to ASCII letters. */
  function Lower(s: string): (r: string)
    ensures |r| == |s|
    ensures forall k | 0 <= k < |s| :: r[k] == LowerChar(s[k])
  {
    seq(|s|, k requires 0 <= k < |s| => LowerChar(s[k]))
  }

  /** `s.lstrip()`: drop the leading whitespace. */
  function TrimStart(s: string): string
  {
    if s != [] && IsSpace(s[0]) then TrimStart(s[1..]) else s
  }

  /** `s.rstrip()`: drop the trailing whitespace. */
  function TrimEnd(s: string): string
  {
    if s != [] && IsSpace(s[|s| - 1]) then TrimEnd(s[..|s| - 1]) else s
  }

  /** `s.strip()`. */
  function Strip(s: string): (r: string)
  {
    TrimEnd(TrimStart(s))
  }

  /** `lstrip()` removes exactly the leading whitespace. */
  lemma {:induction false} TrimStartSpec(s: string)
    ensures |TrimStart(s)| <= |s| && TrimStart(s) == s[|s| - |TrimStart(s)|..]
    ensures forall k | 0 <= k < |s| - |TrimStart(s)| :: IsSpace(s[k])
    ensures TrimStart(s) == [] || !IsSpace(TrimStart(s)[0])
    decreases |s|
  {
    if s != [] && IsSpace(s[0]) {
      TrimStartSpec(s[1..]);
    }
  }

  /** `rstrip()` removes exactly the trailing whitespace. */
  lemma {:induction false} TrimEndSpec(s: string)
    ensures |TrimEnd(s)| <= |s| && TrimEnd(s) == s[..|TrimEnd(s)|]
    ensures forall k | |TrimEnd(s)| <= k < |s| :: IsSpace(s[k])
    ensures TrimEnd(s) == [] || !IsSpace(TrimEnd(s)[|TrimEnd(s)| - 1])
    decreases |s|
  {
    if s != [] && IsSpace(s[|s| - 1]) {
      TrimEndSpec(s[..|s| - 1]);
    }
  }

  /** `strip()` only removes characters: one absent from `s` is absent
      from its strip. */
  lemma StripKeeps(s: string, c: char)
    requires c !in s
    ensures c !in Strip(s)
  {
    TrimStartSpec(s);
    TrimEndSpec(TrimStart(s));
  }

  /** Stripping a line that ends in its only line break removes that
      break. */
  lemma StripLineEnd(x: string)
    requires '\n' !in x
    ensures '\n' !in Strip(x + "\n")
  {
    var s := x + "\n";
    var t := TrimStart(s);
    TrimStartSpec(s);
    if t != [] {
      assert t[|t| - 1] == s[|s| - 1] == '\n';
      assert IsSpace('\n');
      var u := t[..|t| - 1];
      assert TrimEnd(t) == TrimEnd(u);
      assert u == x[|s| - |t|..];
      assert '\n' !in u;
      TrimEndSpec(u);
      assert '\n' !in TrimEnd(u);
    }
  }

  /** A string that neither starts nor ends with whitespace is its own
      `strip()`, also when a trailing line break is added (the shape of a
      tool's output). */
  lemma StripTrailingNewline(x: string)
    requires x != [] && !IsSpace(x[0]) && !IsSpace(x[|x| - 1])
    ensures Strip(x + "\n") == x
  {
    var s := x + "\n";
    assert TrimStart(s) == s;
    assert s[..|s| - 1] == x;
    assert TrimEnd(x) == x;
  }

  /** Length of the run of non-whitespace characters `s` starts with. */
  function WordLength(s: string): (n: nat)
    ensures n <= |s|
    ensures forall k | 0 <= k < n :: !IsSpace(s[k])
    ensures n < |s| ==> IsSpace(s[n])
  {
    if s == [] || IsSpace(s[0]) then 0 else 1 + WordLength(s[1..])
  }

  /** `s.split()` with no argument: the maximal runs of non-whitespace. */
  function Fields(s: string): (r: seq<string>)
    ensures forall k | 0 <= k < |r| :: r[k] != [] && NoSpace(r[k])
    decreases |s|
  {
    if s == [] then []
    else if IsSpace(s[0]) then Fields(s[1..])
    else
      var n := WordLength(s);
      [s[..n]] + Fields(s[n..])
  }

  /** Fields of a word followed by whitespace and more text. */
  lemma {:induction false} FieldsPrefix(a: string, b: string)
    requires a != [] && NoSpace(a)
    requires b == [] || IsSpace(b[0])
    ensures Fields(a + b) == [a] + Fields(b)
  {
    var s := a + b;
    WordLengthOf(a, b);
    assert s[..|a|] == a;
    assert s[|a|..] == b;
  }

  lemma {:induction false} WordLengthOf(a: string, b: string)
    requires NoSpace(a)
    requires b == [] || IsSpace(b[0])
    ensures WordLength(a + b) == |a|
    decreases |a|
  {
    if a != [] {
      assert (a + b)[1..] == a[1..] + b;
      WordLengthOf(a[1..], b);
    }
  }

  /** Whitespace only. */
  predicate AllSpace(s: string)
  {
    forall k | 0 <= k < |s| :: IsSpace(s[k])
  }

  /** Leading whitespace does not change the fields. */
  lemma {:induction false} FieldsSkipSpace(sp: string, x: string)
    requires AllSpace(sp)
    ensures Fields(sp + x) == Fields(x)
    decreases |sp|
  {
    if sp != [] {
      assert IsSpace(sp[0]);
      assert (sp + x)[1..] == sp[1..] + x;
      FieldsSkipSpace(sp[1..], x);
    } else {
      assert sp + x == x;
    }
  }

  /** The words, each followed by its gap: `words[0] + gaps[0] + words[1] + ...`. */
  function Spaced(words: seq<string>, gaps: seq<string>): string
    requires |gaps| == |words|
  {
    if words == [] then [] else words[0] + gaps[0] + Spaced(words[1..], gaps[1..])
  }

  /** `split()` recovers the words of any text made of non-empty words
      separated by non-empty runs of whitespace, with whitespace allowed
      before the first word and after the last. */
  lemma {:induction false} FieldsSpaced(lead: string, words: seq<string>, gaps: seq<string>)
    requires AllSpace(lead) && |gaps| == |words|
    requires forall k | 0 <= k < |words| :: words[k] != [] && NoSpace(words[k])
    requires forall k | 0 <= k < |gaps| :: AllSpace(gaps[k])
    requires forall k | 0 <= k < |gaps| - 1 :: gaps[k] != []
    ensures Fields(lead + Spaced(words, gaps)) == words
    decreases |words|
  {
    var rest := Spaced(words, gaps);
    FieldsSkipSpace(lead, rest);
    if words != [] {
      var tail := Spaced(words[1..], gaps[1..]);
      assert rest == words[0] + (gaps[0] + tail);
      if gaps[0] == [] {
        assert |words| == 1 && tail == [];
      } else {
        assert IsSpace(gaps[0][0]);
      }
      FieldsPrefix(words[0], gaps[0] + tail);
      FieldsSpaced(gaps[0], words[1..], gaps[1..]);
      assert words == [words[0]] + words[1..];
    } else {
      assert lead + rest == lead + [];
      assert Fields([]) == [];
    }
  }

  /** `split()` of "name", a run of whitespace, "type" and trailing
      whitespace recovers the two words: the partner of printing a
      column-aligned two-column row. */
  lemma FieldsOfPair(a: string, sp: string, b: string, trail: string)
    requires a != [] && NoSpace(a) && b != [] && NoSpace(b)
    requires sp != [] && AllSpace(sp) && AllSpace(trail)
    ensures Fields(a + sp + b + trail) == [a, b]
  {
    var bt := b + trail;
    assert Fields(trail) == [] by {
      FieldsSkipSpace(trail, []);
      assert trail + [] == trail;
    }
    assert Fields(bt) == [b] by {
      FieldsPrefix(b, trail);
    }
    assert Fields(sp + bt) == [b] by {
      FieldsSkipSpace(sp, bt);
    }
    assert IsSpace((sp + bt)[0]);
    FieldsPrefix(a, sp + bt);
    assert a + sp + b + trail == a + (sp + bt);
  }

  /** `s.split(sep)`: the pieces between the occurrences of `sep`; there is
      always at least one piece. */
  function SplitOn(s: string, sep: char): (r: seq<string>)
    ensures |r| >= 1
    decreases |s|
  {
    if s == [] then [[]]
    else
      var rest := SplitOn(s[1..], sep);
      if s[0] == sep then [[]] + rest
      else [[s[0]] + rest[0]] + rest[1..]
  }

  /** `sep.join(pieces)`. */
  function Join(pieces: seq<string>, sep: char): string
    requires |pieces| >= 1
  {
    if |pieces| == 1 then pieces[0] else pieces[0] + [sep] + Join(pieces[1..], sep)
  }

  /** No piece of `split(sep)` contains the separator. */
  lemma {:induction false} SplitOnPieces(s: string, sep: char)
    ensures forall k | 0 <= k < |SplitOn(s, sep)| :: sep !in SplitOn(s, sep)[k]
    decreases |s|
  {
    if s != [] {
      SplitOnPieces(s[1..], sep);
    }
  }

  /** Joining the pieces of `split(sep)` with `sep` gives back the string. */
  lemma {:induction false} JoinSplitOn(s: string, sep: char)
    ensures Join(SplitOn(s, sep), sep) == s
    decreases |s|
  {
    if s != [] {
      var rest := SplitOn(s[1..], sep);
      var r := SplitOn(s, sep);
      JoinSplitOn(s[1..], sep);
      assert Join(rest, sep) == s[1..];
      assert s == [s[0]] + s[1..];
      if s[0] == sep {
        assert r == [[]] + rest && |r| >= 2 && r[1..] == rest;
        assert Join(r, sep) == [] + [sep] + Join(rest, sep);
      } else if |rest| == 1 {
        assert r == [[s[0]] + rest[0]];
        assert Join(r, sep) == [s[0]] + Join(rest, sep);
      } else {
        assert r == [[s[0]] + rest[0]] + rest[1..] && |r| >= 2 && r[1..] == rest[1..];
        assert Join(rest, sep) == rest[0] + [sep] + Join(rest[1..], sep);
        assert Join(r, sep) == ([s[0]] + rest[0]) + [sep] + Join(rest[1..], sep);
        assert Join(r, sep) == [s[0]] + Join(rest, sep);
      }
    }
  }

  /** Splitting a join of separator-free pieces gives the pieces back. */
  lemma {:induction false} SplitOnJoin(pieces: seq<string>, sep: char)
    requires |pieces| >= 1
    requires forall k | 0 <= k < |pieces| :: sep !in pieces[k]
    ensures SplitOn(Join(pieces, sep), sep) == pieces
    decreases |pieces|
  {
    if |pieces| == 1 {
      SplitOnFree(pieces[0], [], sep);
      assert SplitOn([], sep) == [[]];
      assert pieces[0] + [] == pieces[0];
      assert Join(pieces, sep) == pieces[0] + [];
      assert [pieces[0]] == pieces;
    } else {
      var tail := Join(pieces[1..], sep);
      SplitOnJoin(pieces[1..], sep);
      SplitOnFree(pieces[0], [sep] + tail, sep);
      assert pieces[0] + [sep] + tail == pieces[0] + ([sep] + tail);
      assert ([sep] + tail)[1..] == tail;
      assert SplitOn([sep] + tail, sep) == [[]] + SplitOn(tail, sep);
      assert pieces[0] + [] == pieces[0];
      assert [pieces[0]] + pieces[1..] == pieces;
    }
  }

  /** Splitting `a + b` where `a` has no separator glues `a` to the first
      piece of `b`. */
  lemma {:induction false} SplitOnFree(a: string, b: string, sep: char)
    requires sep !in a
    ensures SplitOn(a + b, sep) == [a + SplitOn(b, sep)[0]] + SplitOn(b, sep)[1..]
    decreases |a|
  {
    if a != [] {
      assert (a + b)[1..] == a[1..] + b;
      SplitOnFree(a[1..], b, sep);
      assert [a[0]] + (a[1..] + SplitOn(b, sep)[0]) == a + SplitOn(b, sep)[0];
    } else {
      assert a + b == b;
      assert a + SplitOn(b, sep)[0] == SplitOn(b, sep)[0];
      assert SplitOn(b, sep) == [SplitOn(b, sep)[0]] + SplitOn(b, sep)[1..];
    }
  }

  /** `sub` occurs in `s` starting at index `i`. */
  predicate OccursAt(s: string, sub: string, i: nat)
  {
    i + |sub| <= |s| && s[i..i + |sub|] == sub
  }

  /** Python's `sub in s`. */
  predicate Contains(s: string, sub: string)
  {
    exists i: nat | i <= |s| - |sub| :: OccursAt(s, sub, i)
  }
}
