/** The workload table (src/xpk/core/workload.py) and the deletion that reads the names back from it
    (src/xpk/commands/workload.py). */
module WorkloadTable {
  import opened Text
  import opened Decimal

  datatype Status = Admitted | Evicted | QuotaReserved | Finished | UnknownStatus
  datatype StatusFilter = Everything | RunningOnly | QueuedOnly | FinishedOnly | FailedOnly | SuccessfulOnly

  datatype Row = Row(
    jobsetName: Option<string>, createdTime: Option<string>, priority: Option<string>,
    needed: Option<int>, runningRan: Option<int>, done: Option<int>,
    status: Option<Status>, statusMessage: Option<string>, statusTime: Option<string>)

  const HEADERS := ["Jobset Name", "Created Time", "Priority", "TPU/GPU VMs Needed", "TPU/GPU VMs Running/Ran",
                    "TPU/GPU VMs Done", "Status", "Status Message", "Status Time"]

  // ----- the filter -----

  predicate StatusIn(s: Option<Status>, among: seq<Status>) {
    s.Some? && s.value in among
  }

  /** _filter_workload; an empty job filter filters nothing. */
  predicate Passes(row: Row, filter: StatusFilter, job: Option<string>) {
    var name := if row.jobsetName.Some? then row.jobsetName.value else "";
    var message := Lower(if row.statusMessage.Some? then row.statusMessage.value else "");
    var running := if row.runningRan.Some? then row.runningRan.value else 0;
    && (job.Some? && job.value != "" ==> Contains(name, job.value))
    && match filter
       case Everything => true
       case RunningOnly => StatusIn(row.status, [Admitted, Evicted]) && running > 0
       case QueuedOnly => StatusIn(row.status, [Admitted, Evicted, QuotaReserved]) && running == 0
       case FinishedOnly => row.status == Some(Finished)
       case FailedOnly => row.status == Some(Finished) && Contains(message, "failed")
       case SuccessfulOnly => row.status == Some(Finished) && Contains(message, "finished")
  }

  /** How the filters relate, for one row and one job filter: everything else keeps a part of what EVERYTHING
      keeps; the row is under RUNNING or QUEUED by its VMs and never under both; finished rows are under neither,
      and the message tells whether they failed or were successful. */
  lemma FiltersRelate(row: Row, job: Option<string>)
    ensures Passes(row, Everything, job) <==>
      job.None? || job.value == "" || Contains(if row.jobsetName.Some? then row.jobsetName.value else "", job.value)
    ensures Passes(row, RunningOnly, job) ==> Passes(row, Everything, job) && !Passes(row, QueuedOnly, job)
    ensures Passes(row, QueuedOnly, job) ==> Passes(row, Everything, job)
    ensures Passes(row, FinishedOnly, job) ==>
      Passes(row, Everything, job) && !Passes(row, RunningOnly, job) && !Passes(row, QueuedOnly, job)
    ensures Passes(row, FailedOnly, job) || Passes(row, SuccessfulOnly, job) ==> Passes(row, FinishedOnly, job)
    // admitted and evicted rows, by the number of VMs that run or ran
    ensures Passes(row, Everything, job) && (row.status == Some(Admitted) || row.status == Some(Evicted)) ==>
      && (Passes(row, RunningOnly, job) <==> row.runningRan.Some? && row.runningRan.value > 0)
      && (Passes(row, QueuedOnly, job) <==> row.runningRan.None? || row.runningRan.value == 0)
    // rows with a reserved quota only wait; other rows are neither running nor queued
    ensures row.status == Some(QuotaReserved) ==>
      !Passes(row, RunningOnly, job)
      && (Passes(row, Everything, job) && (row.runningRan.None? || row.runningRan.value == 0) <==> Passes(row, QueuedOnly, job))
    ensures row.status.None? || row.status == Some(UnknownStatus) || row.status == Some(Finished) ==>
      !Passes(row, RunningOnly, job) && !Passes(row, QueuedOnly, job)
    // finished rows, by their message in lower case
    ensures row.status == Some(Finished) && Passes(row, Everything, job) ==>
      Passes(row, FinishedOnly, job)
      && (forall message | row.statusMessage == Some(message) ::
            (Passes(row, FailedOnly, job) <==> Contains(Lower(message), "failed"))
            && (Passes(row, SuccessfulOnly, job) <==> Contains(Lower(message), "finished")))
      && (row.statusMessage.None? ==> !Passes(row, FailedOnly, job) && !Passes(row, SuccessfulOnly, job))
    ensures row.status != Some(Finished) ==> !Passes(row, FinishedOnly, job)
  {
    hide Contains; hide Lower;
    NothingInEmpty();
  }

  lemma NothingInEmpty()
    ensures !Contains(Lower(""), "failed") && !Contains(Lower(""), "finished")
  {
  }

  function FilterWorkloads(rows: seq<Row>, filter: StatusFilter, job: Option<string>): seq<Row> {
    if rows == [] then []
    else (if Passes(rows[0], filter, job) then [rows[0]] else []) + FilterWorkloads(rows[1..], filter, job)
  }

  // ----- the table -----

  function OrNone(s: Option<string>): string {
    if s.Some? then s.value else "<none>"
  }

  function NumberOrNone(n: Option<int>): string {
    if n.Some? then StrInt(n.value) else "<none>"
  }

  function StatusText(s: Option<Status>): string {
    match s
    case None => "<none>"
    case Some(Admitted) => "Admitted"
    case Some(Evicted) => "Evicted"
    case Some(QuotaReserved) => "QuotaReserved"
    case Some(Finished) => "Finished"
    case Some(UnknownStatus) => "Unknown"
  }

  function RowCells(row: Row): (r: seq<string>)
    ensures |r| == 9 && r[0] == OrNone(row.jobsetName)
  {
    [OrNone(row.jobsetName), OrNone(row.createdTime), OrNone(row.priority), NumberOrNone(row.needed),
     NumberOrNone(row.runningRan), NumberOrNone(row.done), StatusText(row.status), OrNone(row.statusMessage),
     OrNone(row.statusTime)]
  }

  function Spaces(n: nat): (s: string)
    ensures |s| == n && forall i | 0 <= i < n :: s[i] == ' '
  {
    seq(n, i => ' ')
  }

  /** '{:<w}' */
  function Pad(s: string, width: nat): string {
    if |s| >= width then s else s + Spaces(width - |s|)
  }

  /** One formatted line: the padded cells with three spaces between them. */
  function Line(cells: seq<string>, widths: seq<nat>): string
    requires |cells| == |widths|
  {
    if cells == [] then ""
    else if |cells| == 1 then Pad(cells[0], widths[0])
    else Pad(cells[0], widths[0]) + "   " + Line(cells[1..], widths[1..])
  }

  function Lines(table: seq<seq<string>>, widths: seq<nat>): (r: seq<string>)
    requires forall cells | cells in table :: |cells| == |widths|
    ensures |r| == |table| && forall i | 0 <= i < |table| :: r[i] == Line(table[i], widths)
  {
    if table == [] then []
    else [Line(table[0], widths)] + Lines(table[1..], widths)
  }

  ghost predicate Rectangular(table: seq<seq<string>>, n: nat) {
    forall i | 0 <= i < |table| :: |table[i]| == n
  }

  /** Every cell fits its column, and some cell fills it. */
  ghost predicate FitsColumns(table: seq<seq<string>>, widths: seq<nat>) {
    && Rectangular(table, |widths|)
    && (forall i, j | 0 <= i < |table| && 0 <= j < |widths| :: |table[i][j]| <= widths[j])
    && (forall j | 0 <= j < |widths| :: exists i | 0 <= i < |table| :: |table[i][j]| == widths[j])
  }

  /** The loop over rows and cells that computes the column widths. */
  method ColumnWidths(header: seq<string>, rows: seq<seq<string>>) returns (widths: seq<nat>)
    requires Rectangular(rows, |header|)
    ensures FitsColumns([header] + rows, widths) && |widths| == |header|
  {
    widths := seq(|header|, i requires 0 <= i < |header| => |header[i]|);
    ghost var seen := [header];
    assert forall j | 0 <= j < |widths| :: |seen[0][j]| == widths[j];
    for i := 0 to |rows|
      invariant seen == [header] + rows[..i] && |widths| == |header| && FitsColumns(seen, widths)
    {
      var row := rows[i];
      ghost var before := widths;
      for j := 0 to |row|
        invariant |widths| == |header|
        invariant forall k | 0 <= k < |header| :: widths[k] == if k < j && |row[k]| > before[k] then |row[k]| else before[k]
      {
        if |row[j]| > widths[j] {
          widths := widths[j := |row[j]|];
        }
      }
      WidenFits(seen, before, row, widths);
      seen := seen + [row];
      assert rows[..i + 1] == rows[..i] + [row];
    }
    assert rows[..|rows|] == rows;
  }

  lemma WidenFits(table: seq<seq<string>>, before: seq<nat>, row: seq<string>, widths: seq<nat>)
    requires FitsColumns(table, before) && |row| == |before| == |widths|
    requires forall k | 0 <= k < |row| :: widths[k] == if |row[k]| > before[k] then |row[k]| else before[k]
    ensures FitsColumns(table + [row], widths)
  {
    var now := table + [row];
    assert now[|table|] == row;
    forall j | 0 <= j < |widths| ensures exists i | 0 <= i < |now| :: |now[i][j]| == widths[j] {
      if |row[j]| > before[j] {
        assert |now[|table|][j]| == widths[j];
      } else {
        var i :| 0 <= i < |table| && |table[i][j]| == before[j];
        assert |now[i][j]| == widths[j];
      }
    }
  }

  function TableCells(rows: seq<Row>): (r: seq<seq<string>>)
    ensures |r| == |rows| && forall i | 0 <= i < |rows| :: r[i] == RowCells(rows[i])
  {
    seq(|rows|, i requires 0 <= i < |rows| => RowCells(rows[i]))
  }

  ghost predicate Rendered(rows: seq<Row>, text: string) {
    exists widths: seq<nat> :: |widths| == 9
      && FitsColumns([HEADERS] + TableCells(rows), widths)
      && text == Join(Lines([HEADERS] + TableCells(rows), widths), '\n')
  }

  /** _render_workloads */
  method RenderWorkloads(rows: seq<Row>) returns (text: string)
    ensures Rendered(rows, text)
  {
    var cells := TableCells(rows);
    var widths := ColumnWidths(HEADERS, cells);
    var table := [HEADERS] + cells;
    text := Join(Lines(table, widths), '\n');
  }

  // ----- the deletion -----

  /** x.split(' ')[0] for each line, without the header line. */
  function NamesFromTable(text: string): seq<string> {
    var lines := SplitLines(text);
    var names := seq(|lines|, i requires 0 <= i < |lines| => Split(lines[i], ' ')[0]);
    if names == [] then [] else names[1..]
  }

  function DeleteCommand(workload: string): string {
    "kubectl delete jobset " + workload + " -n default"
  }

  /** delete_workloads: one command and one task name for each workload, in order, unless a PathwaysJob was
      there and deleted instead.  "answers" are the return codes; a single command reports its own code, a
      batch the first positive one. */
  method DeleteWorkloads(workloads: seq<string>, pathwaysDeleted: bool, answers: seq<int>)
    returns (commands: seq<string>, taskNames: seq<string>, code: int)
    requires |answers| == |workloads|
    ensures |commands| == |taskNames| == if pathwaysDeleted then 0 else |workloads|
    ensures forall i | 0 <= i < |commands| :: commands[i] == DeleteCommand(workloads[i])
    ensures forall i | 0 <= i < |taskNames| :: taskNames[i] == "WorkloadDelete-" + workloads[i]
    ensures pathwaysDeleted ==> code == 0
    ensures !pathwaysDeleted && |workloads| == 1 ==> code == answers[0]
    ensures !pathwaysDeleted && |workloads| != 1 ==>
      if forall i | 0 <= i < |answers| :: answers[i] <= 0 then code == 0
      else exists i | 0 <= i < |answers| :: code == answers[i] > 0 && forall k | 0 <= k < i :: answers[k] <= 0
  {
    commands, taskNames, code := [], [], 0;
    if pathwaysDeleted {
      return;
    }
    for i := 0 to |workloads|
      invariant |commands| == |taskNames| == i
      invariant forall k | 0 <= k < i :: commands[k] == DeleteCommand(workloads[k])
      invariant forall k | 0 <= k < i :: taskNames[k] == "WorkloadDelete-" + workloads[k]
    {
      commands := commands + [DeleteCommand(workloads[i])];
      taskNames := taskNames + ["WorkloadDelete-" + workloads[i]];
    }
    if |workloads| == 1 {
      return commands, taskNames, answers[0];
    }
    for i := 0 to |answers|
      invariant code == 0 && forall k | 0 <= k < i :: answers[k] <= 0
    {
      if answers[i] > 0 {
        return commands, taskNames, answers[i];
      }
    }
  }

  // ----- the table parses back -----

  function TotalWidth(widths: seq<nat>): nat {
    if widths == [] then 0
    else if |widths| == 1 then widths[0]
    else widths[0] + 3 + TotalWidth(widths[1..])
  }

  lemma {:induction false} LineLengths(cells: seq<string>, widths: seq<nat>)
    requires |cells| == |widths| && forall j | 0 <= j < |cells| :: |cells[j]| <= widths[j]
    ensures |Line(cells, widths)| == TotalWidth(widths)
  {
    if |cells| > 1 {
      LineLengths(cells[1..], widths[1..]);
    }
  }

  /** All lines of a rendered table have the same length. */
  lemma TableIsAligned(table: seq<seq<string>>, widths: seq<nat>)
    requires FitsColumns(table, widths)
    ensures forall i | 0 <= i < |table| :: |table[i]| == |widths| && |Line(table[i], widths)| == TotalWidth(widths)
  {
    forall i | 0 <= i < |table| ensures |table[i]| == |widths| && |Line(table[i], widths)| == TotalWidth(widths) {
      LineLengths(table[i], widths);
    }
  }

  /** Where a column begins in a line. */
  function ColumnStart(widths: seq<nat>, j: nat): nat
    requires j < |widths|
  {
    if j == 0 then 0 else widths[0] + 3 + ColumnStart(widths[1..], j - 1)
  }

  /** The text holds the cell from a position on, filled up with spaces to the width. */
  predicate Holds(line: string, start: nat, cell: string, width: nat) {
    && |cell| <= width && start + width <= |line|
    && line[start..start + |cell|] == cell
    && forall i | start + |cell| <= i < start + width :: line[i] == ' '
  }

  lemma PadHolds(cell: string, width: nat, rest: string)
    requires |cell| <= width
    ensures Holds(Pad(cell, width) + rest, 0, cell, width) && |Pad(cell, width)| == width
  {
    assert (Pad(cell, width) + rest)[..|cell|] == cell;
  }

  lemma HoldsBehind(front: string, rest: string, start: nat, cell: string, width: nat)
    requires Holds(rest, start, cell, width)
    ensures Holds(front + rest, |front| + start, cell, width)
  {
    var line := front + rest;
    assert line[|front| + start..|front| + start + |cell|] == rest[start..start + |cell|];
    assert forall i | start <= i < |rest| :: line[|front| + i] == rest[i];
    forall i | |front| + start + |cell| <= i < |front| + start + width ensures line[i] == ' ' {
      assert rest[i - |front|] == ' ';
    }
  }

  /** Each line holds each cell at the beginning of its column, filled up with spaces. */
  lemma {:induction false} LineHoldsCells(cells: seq<string>, widths: seq<nat>, j: nat)
    requires |cells| == |widths| && j < |cells| && forall k | 0 <= k < |cells| :: |cells[k]| <= widths[k]
    ensures Holds(Line(cells, widths), ColumnStart(widths, j), cells[j], widths[j])
  {
    hide Pad; hide Holds;
    if |cells| == 1 {
      PadHolds(cells[0], widths[0], "");
      assert Pad(cells[0], widths[0]) + "" == Pad(cells[0], widths[0]);
    } else {
      var rest := Line(cells[1..], widths[1..]);
      PadHolds(cells[0], widths[0], "   " + rest);
      assert Line(cells, widths) == Pad(cells[0], widths[0]) + ("   " + rest);
      if j > 0 {
        LineHoldsCells(cells[1..], widths[1..], j - 1);
        HoldsBehind(Pad(cells[0], widths[0]) + "   ", rest, ColumnStart(widths[1..], j - 1), cells[j], widths[j]);
      }
    }
  }

  lemma LinesAligned(table: seq<seq<string>>, widths: seq<nat>)
    requires FitsColumns(table, widths)
    ensures forall line | line in Lines(table, widths) :: |line| == TotalWidth(widths)
  {
    hide Line; hide TotalWidth;
    TableIsAligned(table, widths);
  }

  lemma {:induction false} LineHasNoBreak(cells: seq<string>, widths: seq<nat>)
    requires |cells| == |widths| && forall j | 0 <= j < |cells| :: NoLineBreak(cells[j])
    ensures NoLineBreak(Line(cells, widths))
  {
    if |cells| > 1 {
      LineHasNoBreak(cells[1..], widths[1..]);
    }
  }

  /** The text in front of the first space of a line is the first cell up to its own first space. */
  lemma FirstWordOfLine(cells: seq<string>, widths: seq<nat>)
    requires |cells| == |widths| && |cells| >= 2
    ensures Split(Line(cells, widths), ' ')[0] == Split(cells[0], ' ')[0]
  {
    var n := |cells[0]|;
    var line := Line(cells, widths);
    assert line[..n] == cells[0] && |line| > n && line[n] == ' ';
    FirstPiece(cells[0], line[n + 1..]);
    assert line == cells[0] + " " + line[n + 1..];
  }

  lemma FirstPiece(a: string, rest: string)
    ensures Split(a + " " + rest, ' ')[0] == Split(a, ' ')[0]
  {
    if a == "" {
      assert a + " " + rest == " " + rest;
    } else {
      assert (a + " " + rest)[1..] == a[1..] + " " + rest;
      FirstPiece(a[1..], rest);
    }
  }

  /** A name is its own first word exactly when it has no space. */
  lemma FirstWordIsWhole(name: string)
    ensures Split(name, ' ')[0] == name <==> ' ' !in name
  {
    if ' ' !in name {
      SplitNoSeparator(name, ' ');
    } else {
      assert Split(name, ' ')[0] in Split(name, ' ');
    }
  }

  ghost predicate NoBreaks(rows: seq<Row>) {
    forall i, j | 0 <= i < |rows| && 0 <= j < 9 :: NoLineBreak(RowCells(rows[i])[j])
  }

  function Names(rows: seq<Row>): (r: seq<string>)
    ensures |r| == |rows| && forall i | 0 <= i < |rows| :: r[i] == OrNone(rows[i].jobsetName)
  {
    seq(|rows|, i requires 0 <= i < |rows| => OrNone(rows[i].jobsetName))
  }

  lemma HeadersFit()
    ensures |HEADERS| == 9 && forall j | 0 <= j < 9 :: HEADERS[j] != "" && NoLineBreak(HEADERS[j])
  {
  }

  /** The lines of the rendered text are the lines that were rendered. */
  lemma RenderedLines(rows: seq<Row>, widths: seq<nat>)
    requires NoBreaks(rows) && |widths| == 9 && FitsColumns([HEADERS] + TableCells(rows), widths)
    ensures SplitLines(Join(Lines([HEADERS] + TableCells(rows), widths), '\n')) == Lines([HEADERS] + TableCells(rows), widths)
  {
    hide HEADERS; hide SplitLines; hide Join; hide RowCells; hide Line; hide NoLineBreak; hide TotalWidth;
    var table := [HEADERS] + TableCells(rows);
    var lines := Lines(table, widths);
    HeadersFit();
    TableIsAligned(table, widths);
    forall i | 0 <= i < |lines| ensures NoLineBreak(lines[i]) && lines[i] != "" {
      assert i > 0 ==> table[i] == RowCells(rows[i - 1]);
      LineHasNoBreak(table[i], widths);
      WideTable(widths);
    }
    SplitLinesOfJoin(lines);
  }

  lemma WideTable(widths: seq<nat>)
    requires |widths| == 9
    ensures TotalWidth(widths) > 0
  {
  }

  /** For rows without line breaks: reading the rendered table back gives, in order, exactly the names of the
      rows, if and only if no name contains a space; and all lines have equal length. */
  lemma TableParsesBack(rows: seq<Row>, text: string)
    requires NoBreaks(rows) && Rendered(rows, text)
    ensures NamesFromTable(text) == Names(rows) <==> forall i | 0 <= i < |rows| :: ' ' !in Names(rows)[i]
    ensures |NamesFromTable(text)| == |rows| && |SplitLines(text)| == |rows| + 1
    ensures forall i, j | 0 <= i < j < |SplitLines(text)| :: |SplitLines(text)[i]| == |SplitLines(text)[j]|
  {
    hide SplitLines; hide Split; hide NoBreaks; hide Rendered; hide NamesFromTable;
    var width := RenderedShape(rows, text);
    assert forall i | 0 <= i < |SplitLines(text)| :: SplitLines(text)[i] in SplitLines(text);
    var found := NamesFromTable(text);
    forall i | 0 <= i < |rows| ensures found[i] == Names(rows)[i] <==> ' ' !in Names(rows)[i] {
      FirstWordIsWhole(Names(rows)[i]);
    }
    if found == Names(rows) {
      assert forall i | 0 <= i < |rows| :: found[i] == Names(rows)[i];
    }
  }

  /** The lines of a rendered table, and the names read back from it. */
  lemma RenderedShape(rows: seq<Row>, text: string) returns (width: nat)
    requires NoBreaks(rows) && Rendered(rows, text)
    ensures |SplitLines(text)| == |rows| + 1 && forall line | line in SplitLines(text) :: |line| == width
    ensures |NamesFromTable(text)| == |rows|
    ensures forall i | 0 <= i < |rows| :: NamesFromTable(text)[i] == Split(Names(rows)[i], ' ')[0]
  {
    hide HEADERS; hide SplitLines; hide Join; hide Split; hide NoBreaks; hide NamesFromTable;
    hide Lines;
    var widths: seq<nat> :| |widths| == 9
      && FitsColumns([HEADERS] + TableCells(rows), widths)
      && text == Join(Lines([HEADERS] + TableCells(rows), widths), '\n');
    hide Rendered; hide FitsColumns;
    width := TotalWidth(widths);
    hide TotalWidth;
    RenderedLines(rows, widths);
    LinesAligned([HEADERS] + TableCells(rows), widths);
    FoundNames(rows, text, widths);
  }

  lemma FoundNames(rows: seq<Row>, text: string, widths: seq<nat>)
    requires |widths| == 9 && FitsColumns([HEADERS] + TableCells(rows), widths)
    requires SplitLines(text) == Lines([HEADERS] + TableCells(rows), widths)
    ensures |NamesFromTable(text)| == |rows|
    ensures forall i | 0 <= i < |rows| :: NamesFromTable(text)[i] == Split(Names(rows)[i], ' ')[0]
  {
    hide HEADERS; hide SplitLines; hide Line; hide Split;
    var table := [HEADERS] + TableCells(rows);
    TableIsAligned(table, widths);
    forall i | 0 <= i < |rows| ensures NamesFromTable(text)[i] == Split(Names(rows)[i], ' ')[0] {
      assert table[i + 1] == RowCells(rows[i]);
      FirstWordOfLine(table[i + 1], widths);
    }
  }

  /** "at" lists, in order, the positions below "n" of the rows that pass. */
  ghost predicate PassingPositions(at: seq<nat>, all: seq<Row>, n: nat, filter: StatusFilter, job: Option<string>)
    requires n <= |all|
  {
    && (forall i, j | 0 <= i < j < |at| :: at[i] < at[j])
    && (forall i: nat :: i in at <==> i < n && Passes(all[i], filter, job))
  }

  /** The filter keeps exactly the rows that pass, in their order. */
  lemma FilterInOrder(all: seq<Row>, filter: StatusFilter, job: Option<string>) returns (at: seq<nat>)
    ensures PassingPositions(at, all, |all|, filter, job)
    ensures |at| == |FilterWorkloads(all, filter, job)|
    ensures forall k | 0 <= k < |at| :: at[k] < |all| && FilterWorkloads(all, filter, job)[k] == all[at[k]]
  {
    hide Passes;
    at := FilterOfPrefix(all, |all|, filter, job);
    assert all[..|all|] == all;
    assert forall k | 0 <= k < |at| :: at[k] in at;
  }

  lemma {:induction false} FilterOfPrefix(all: seq<Row>, n: nat, filter: StatusFilter, job: Option<string>) returns (at: seq<nat>)
    requires n <= |all|
    ensures PassingPositions(at, all, n, filter, job)
    ensures |at| == |FilterWorkloads(all[..n], filter, job)|
    ensures forall k | 0 <= k < |at| :: at[k] < n && FilterWorkloads(all[..n], filter, job)[k] == all[at[k]]
  {
    hide Passes; hide FilterWorkloads;
    FilterNothing(filter, job);
    at := [];
    if n > 0 {
      at := FilterOfPrefix(all, n - 1, filter, job);
      assert all[..n] == all[..n - 1] + [all[n - 1]];
      FilterAppend(all[..n - 1], all[n - 1], filter, job);
      MorePasses(at, all, n - 1, filter, job);
      if Passes(all[n - 1], filter, job) {
        at := at + [n - 1];
      }
    }
  }

  lemma FilterNothing(filter: StatusFilter, job: Option<string>)
    ensures FilterWorkloads([], filter, job) == []
  {
  }

  lemma {:induction false} FilterAppend(rows: seq<Row>, row: Row, filter: StatusFilter, job: Option<string>)
    ensures FilterWorkloads(rows + [row], filter, job)
         == FilterWorkloads(rows, filter, job) + if Passes(row, filter, job) then [row] else []
  {
    hide Passes;
    if rows == [] {
      assert [row][1..] == [];
      assert rows + [row] == [row];
    } else {
      FilterAppend(rows[1..], row, filter, job);
      assert (rows + [row])[1..] == rows[1..] + [row];
    }
  }

  lemma MorePasses(at: seq<nat>, all: seq<Row>, n: nat, filter: StatusFilter, job: Option<string>)
    requires n < |all| && PassingPositions(at, all, n, filter, job)
    ensures PassingPositions(if Passes(all[n], filter, job) then at + [n] else at, all, n + 1, filter, job)
  {
    hide Passes;
    var passes := Passes(all[n], filter, job);
    OnePosition(at, n);
    var now := if passes then at + [n] else at;
    forall i: nat ensures i in now <==> i < n + 1 && Passes(all[i], filter, job) {
      assert i in now <==> i in at || (passes && i == n);
    }
  }

  lemma OnePosition(at: seq<nat>, n: nat)
    requires (forall i, j | 0 <= i < j < |at| :: at[i] < at[j]) && forall i | i in at :: i < n
    ensures forall i, j | 0 <= i < j < |at + [n]| :: (at + [n])[i] < (at + [n])[j]
  {
    assert forall k | 0 <= k < |at| :: at[k] in at;
  }

  /** So a deletion without a named workload targets exactly the rows that pass the filter, in order, if and
      only if none of their names contains a space: "at" lists their positions. */
  lemma DeletionTargetsFiltered(all: seq<Row>, filter: StatusFilter, job: Option<string>, text: string) returns (at: seq<nat>)
    requires NoBreaks(FilterWorkloads(all, filter, job)) && Rendered(FilterWorkloads(all, filter, job), text)
    ensures PassingPositions(at, all, |all|, filter, job) && |NamesFromTable(text)| == |at|
    ensures forall k | 0 <= k < |at| :: at[k] < |all|
    ensures (forall k | 0 <= k < |at| :: NamesFromTable(text)[k] == OrNone(all[at[k]].jobsetName))
       <==> (forall k | 0 <= k < |at| :: ' ' !in OrNone(all[at[k]].jobsetName))
  {
    hide Passes; hide Rendered; hide NoBreaks; hide NamesFromTable; hide FilterWorkloads;
    var passing := FilterWorkloads(all, filter, job);
    at := FilterInOrder(all, filter, job);
    TableParsesBack(passing, text);
    var names := Names(passing);
    assert forall k | 0 <= k < |at| :: names[k] == OrNone(all[at[k]].jobsetName);
    if forall k | 0 <= k < |at| :: NamesFromTable(text)[k] == OrNone(all[at[k]].jobsetName) {
      assert NamesFromTable(text) == names;
    }
    if forall k | 0 <= k < |at| :: ' ' !in OrNone(all[at[k]].jobsetName) {
      assert forall k | 0 <= k < |names| :: ' ' !in names[k];
    }
  }
}
