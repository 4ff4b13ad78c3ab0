/** Device inventory: turning the two-column `lsblk` listing into device
    paths (`get_disks`, `get_partitions`). */
module Inventory {
  import opened Text
  import opened Host

  const DevPrefix: string := "/dev/"
  const DiskKind: string := "disk"
  const PartKind: string := "part"

  /** A path under `/dev/`. */
  predicate IsDevicePath(p: string)
  {
    |DevPrefix| < |p| && p[..|DevPrefix|] == DevPrefix && NoSpace(p[|DevPrefix|..])
  }

  /** The rows of a listing: `stdout.strip().split('\n')`. */
  function Rows(out: string): (rows: seq<string>)
    ensures |rows| >= 1
  {
    SplitOn(Strip(out), '\n')
  }

  /** Every row unpacks into exactly two fields (`name, typ = line.split()`
      raises otherwise). */
  predicate WellFormed(rows: seq<string>)
  {
    forall k | 0 <= k < |rows| :: |Fields(rows[k])| == 2
  }

  /** The path a well-formed row contributes when its type is `kind`. */
  function Entry(row: string, kind: string): seq<string>
    requires |Fields(row)| == 2
  {
    if Fields(row)[1] == kind then [DevPrefix + Fields(row)[0]] else []
  }

  /** The paths of the rows of type `kind`, in row order. */
  function Select(rows: seq<string>, kind: string): (paths: seq<string>)
    requires WellFormed(rows)
    ensures |paths| <= |rows|
    ensures forall k | 0 <= k < |rows| && Fields(rows[k])[1] == kind ::
      DevPrefix + Fields(rows[k])[0] in paths
    ensures forall p | p in paths :: exists k | 0 <= k < |rows| ::
      Fields(rows[k])[1] == kind && p == DevPrefix + Fields(rows[k])[0]
  {
    if rows == [] then []
    else
      var rest := Select(rows[1..], kind);
      assert forall k | 1 <= k < |rows| :: rows[k] == rows[1..][k - 1];
      Entry(rows[0], kind) + rest
  }

  /** Selection distributes over concatenation of row lists: the result
      keeps row order. */
  lemma {:induction false} SelectAppend(a: seq<string>, b: seq<string>, kind: string)
    requires WellFormed(a) && WellFormed(b)
    ensures WellFormed(a + b)
    ensures Select(a + b, kind) == Select(a, kind) + Select(b, kind)
    decreases |a|
  {
    assert forall k | 0 <= k < |a + b| :: (a + b)[k] == if k < |a| then a[k] else b[k - |a|];
    if a != [] {
      assert (a + b)[1..] == a[1..] + b;
      SelectAppend(a[1..], b, kind);
    } else {
      assert a + b == b;
    }
  }

  /** What a listing yields for `kind`: nothing if the tool could not be
      launched or if any row is malformed (the exception aborts the loop and
      the handler returns `[]`), else the matching rows' paths. */
  function DeviceList(run: Proc, kind: string): (paths: seq<string>)
    ensures run.LaunchFailed? ==> paths == []
    ensures run.Exited? && !WellFormed(Rows(run.out)) ==> paths == []
    ensures run.Exited? && Strip(run.out) == [] ==> paths == []
    ensures run.Exited? && WellFormed(Rows(run.out)) ==> paths == Select(Rows(run.out), kind)
    ensures forall k | 0 <= k < |paths| :: IsDevicePath(paths[k])
  {
    match run
    case LaunchFailed => []
    case Exited(_, out) =>
      var rows := Rows(out);
      if WellFormed(rows) then
        var paths := Select(rows, kind);
        assert forall p | p in paths :: IsDevicePath(p);
        paths
      else []
  }

  /** The loop of `get_disks` / `get_partitions`: walk the rows, stop with
      `[]` at the first row that does not have two fields, keep the rows
      whose type is `kind`. */
  method ListDevices(run: Proc, kind: string) returns (paths: seq<string>)
    ensures paths == DeviceList(run, kind)
  {
    if run.LaunchFailed? {
      return [];
    }
    var lines := Rows(run.out);
    paths := [];
    for i := 0 to |lines|
      invariant WellFormed(lines[..i])
      invariant paths == Select(lines[..i], kind)
    {
      var fields := Fields(lines[i]);
      if |fields| != 2 {
        return [];
      }
      SelectSnoc(lines, i, kind);
      if fields[1] == kind {
        paths := paths + [DevPrefix + fields[0]];
      }
    }
    assert lines[..|lines|] == lines;
  }

  lemma SelectSnoc(rows: seq<string>, i: nat, kind: string)
    requires i < |rows| && WellFormed(rows[..i]) && |Fields(rows[i])| == 2
    ensures WellFormed(rows[..i + 1])
    ensures Select(rows[..i + 1], kind) == Select(rows[..i], kind) + Entry(rows[i], kind)
  {
    assert rows[..i + 1] == rows[..i] + [rows[i]];
    SelectAppend(rows[..i], [rows[i]], kind);
    assert Select([rows[i]], kind) == Entry(rows[i], kind) + Select([], kind);
  }

  /** `get_disks`: the whole disks the device listing reports. */
  method GetDisks(tool: Tool) returns (disks: seq<string>)
    ensures disks == DeviceList(tool(ListDisks), DiskKind)
  {
    disks := ListDevices(tool(ListDisks), DiskKind);
  }

  /** `get_partitions`: the partitions the listing for `disk` reports (its own
      `disk` row is dropped like any other row that is not a partition). */
  method GetPartitions(tool: Tool, disk: string) returns (parts: seq<string>)
    ensures parts == DeviceList(tool(ListPartitions(disk)), PartKind)
  {
    parts := ListDevices(tool(ListPartitions(disk)), PartKind);
  }

  // ----- The listing as the tool prints it, and the round trip -----

  /** One row of a listing: the name, the padding that aligns the type
      column, and the type. */
  datatype Row = Row(name: string, gap: string, kind: string)

  /** Names and types are single words, and the padding is a non-empty run
      of whitespace within the line. */
  predicate Printable(rows: seq<Row>)
  {
    forall k | 0 <= k < |rows| ::
      rows[k].name != [] && NoSpace(rows[k].name) && rows[k].kind != [] && NoSpace(rows[k].kind) &&
      rows[k].gap != [] && AllSpace(rows[k].gap) && '\n' !in rows[k].gap
  }

  function Line(r: Row): string
  {
    r.name + r.gap + r.kind
  }

  function Lines(rows: seq<Row>): (lines: seq<string>)
    ensures |lines| == |rows|
    ensures forall k | 0 <= k < |rows| :: lines[k] == Line(rows[k])
  {
    if rows == [] then [] else [Line(rows[0])] + Lines(rows[1..])
  }

  /** The listing's text: one padded "name type" line per row, each ending in a
      line break. */
  function Render(rows: seq<Row>): string
  {
    if rows == [] then "" else Join(Lines(rows), '\n') + "\n"
  }

  /** The paths of the rows of type `kind`, in order: the reference
      definition the parse is measured against. */
  function PathsOfKind(rows: seq<Row>, kind: string): (paths: seq<string>)
  {
    if rows == [] then []
    else (if rows[0].kind == kind then [DevPrefix + rows[0].name] else []) + PathsOfKind(rows[1..], kind)
  }

  /** Parsing a rendered listing recovers exactly the devices of the
      requested type, in order; an empty listing gives no devices. */
  lemma ListingRoundTrip(rows: seq<Row>, kind: string, code: int)
    requires Printable(rows)
    ensures DeviceList(Exited(code, Render(rows)), kind) == PathsOfKind(rows, kind)
  {
    if rows == [] {
      assert Strip("") == "";
      assert Rows("") == [""];
      assert Fields(Rows("")[0]) == [];
    } else {
      var lines := Lines(rows);
      var body := Join(lines, '\n');
      forall k | 0 <= k < |lines|
        ensures '\n' !in lines[k] && Fields(lines[k]) == [rows[k].name, rows[k].kind]
      {
        var r := rows[k];
        var l := lines[k];
        FieldsOfPair(r.name, r.gap, r.kind, []);
        assert l + [] == l;
        assert IsSpace('\n');
        forall i | 0 <= i < |l| ensures l[i] != '\n' {
          if i < |r.name| {
            assert l[i] == r.name[i];
          } else if i < |r.name| + |r.gap| {
            assert l[i] == r.gap[i - |r.name|];
          } else {
            assert l[i] == r.kind[i - |r.name| - |r.gap|];
          }
        }
      }
      JoinEnds(lines, rows);
      StripTrailingNewline(body);
      SplitOnJoin(lines, '\n');
      assert Rows(Render(rows)) == lines;
      SelectLines(rows, kind);
    }
  }

  /** A join of rendered lines starts with the first name's first character
      and ends with the last type's last character. */
  lemma {:induction false} JoinEnds(lines: seq<string>, rows: seq<Row>)
    requires Printable(rows) && rows != [] && lines == Lines(rows)
    ensures var j := Join(lines, '\n'); j != [] && !IsSpace(j[0]) && !IsSpace(j[|j| - 1])
    decreases |rows|
  {
    var j := Join(lines, '\n');
    assert Line(rows[0])[0] == rows[0].name[0];
    if |rows| == 1 {
      var l := Line(rows[0]);
      assert l[|l| - 1] == rows[0].kind[|rows[0].kind| - 1];
    } else {
      assert Lines(rows[1..]) == lines[1..];
      JoinEnds(lines[1..], rows[1..]);
      var t := Join(lines[1..], '\n');
      assert j == lines[0] + ['\n'] + t;
      assert j[|j| - 1] == t[|t| - 1];
    }
  }

  lemma {:induction false} SelectLines(rows: seq<Row>, kind: string)
    requires Printable(rows)
    requires forall k | 0 <= k < |rows| :: Fields(Lines(rows)[k]) == [rows[k].name, rows[k].kind]
    ensures WellFormed(Lines(rows)) && Select(Lines(rows), kind) == PathsOfKind(rows, kind)
    decreases |rows|
  {
    if rows != [] {
      assert Lines(rows)[1..] == Lines(rows[1..]);
      assert forall k | 0 <= k < |rows| - 1 :: rows[1..][k] == rows[k + 1];
      SelectLines(rows[1..], kind);
    }
  }
}
