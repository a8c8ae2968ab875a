/** The rows, runs, answers and summaries of an energy data request (energyrequest/summary.go).

    Times are milliseconds. A stored message is given in decoded form: `Other` also stands for a message that does
    not decode. The local calendar is a parameter: it numbers the days, so the day after day `d` is `d + 1`. */
module EnergyTypes {
  import opened Wrappers

  const HOUR: int := 3_600_000
  /** After this time a run is summarised even if answers are missing. */
  const DEADLINE: int := 24 * HOUR
  /** How long a requested metering point is not requested again for an overlapping period. */
  const LOCK_WINDOW: int := HOUR
  /** How long after a run its requests and answers can belong to it in the Messages list. */
  const COLLAPSE_WINDOW: int := DEADLINE + HOUR
  /** How far back every evaluation reads runs and summaries. */
  const LOOK_BACK: int := 2 * DEADLINE + HOUR
  /** math.MaxInt64, the mark for "no such row"; row ids are below it. */
  const MAX_ID: int := 0x7FFF_FFFF_FFFF_FFFF

  type Calendar = int -> int

  /** A later time is never on an earlier day. */
  ghost predicate Monotone(cal: Calendar) {
    forall a, b :: a <= b ==> cal(a) <= cal(b)
  }

  function UpperChar(c: char): char {
    if 'a' <= c <= 'z' then (c as int - 32) as char else c
  }

  /** strings.ToUpper on the ASCII letters of tenants and community ids. */
  function ToUpper(s: string): (r: string)
    ensures |r| == |s|
  {
    seq(|s|, i requires 0 <= i < |s| => UpperChar(s[i]))
  }

  predicate EqualFold(a: string, b: string) {
    ToUpper(a) == ToUpper(b)
  }

  /** The letter `c` in small is `d`, or the same. */
  predicate IsCaseOf(c: char, d: char) {
    c == d || ('A' <= c <= 'Z' && d as int == c as int + 32)
  }

  /** Two spellings are equal if and only if they differ in the case of ASCII letters at most. */
  lemma FoldIgnoresCase(a: string, b: string)
    ensures EqualFold(a, b) <==> |a| == |b| && forall i :: 0 <= i < |a| ==> IsCaseOf(a[i], b[i]) || IsCaseOf(b[i], a[i])
  {
    if EqualFold(a, b) {
      forall i | 0 <= i < |a|
        ensures IsCaseOf(a[i], b[i]) || IsCaseOf(b[i], a[i])
      {
        assert ToUpper(a)[i] == ToUpper(b)[i];
      }
    }
  }

  datatype Reason =
    | Complete | AlreadyRequested | NotRegistered | NoActivePeriod | NotActiveInPeriod | NotAssigned | NotFound
    | OtherReason(text: string)

  datatype MeterRange = MeterRange(meter: string, from: int, to: int)

  datatype Skipped = Skipped(meter: string, reason: Reason, until: int)

  /** The content of a RUN row. */
  datatype RunData = RunData(runId: string, ecId: string, from: int, to: int, createdAt: int,
                             meters: seq<MeterRange>, skipped: seq<Skipped>, noSummary: bool)

  /** The content of ANTWORT_PT (accepted) and ABLEHNUNG_PT. */
  datatype Answer = Answer(accepted: bool, meters: seq<string>, codes: seq<string>)

  datatype Rejection = Rejection(meter: string, codes: seq<string>)

  datatype Summary = Summary(runId: string, from: int, to: int, requested: int, accepted: seq<MeterRange>,
                             rejected: seq<Rejection>, noAnswer: seq<string>, skipped: seq<Skipped>,
                             superseded: seq<string>, live: bool)

  /** Whether a metering point is still the member's. */
  datatype Flag = Moved | Assigned | Archived

  datatype Status = S_INIT | S_ACTIVE | S_INACTIVE

  datatype Process = EnergyRequest | EdaProcess | OtherProcess

  datatype RowType = RunRow | MessageRow | OtherRow

  /** `Echo` is the request echo ANFORDERUNG_PT. */
  datatype Content =
    | Run(run: RunData)
    | Reply(answer: Answer)
    | Echo(echoMeters: seq<string>)
    | Closing(summary: Summary)
    | Other

  datatype Row = Row(id: int, tenant: string, process: Process, rowType: RowType, content: Content) {
    predicate IsRun() {
      rowType == RunRow && content.Run?
    }

    predicate IsAnswer() {
      rowType == MessageRow && content.Reply?
    }

    predicate IsSummary() {
      rowType == MessageRow && content.Closing?
    }

    predicate IsRunOf(ecId: string, tenants: set<string>) {
      IsRun() && tenant in tenants && EqualFold(content.run.ecId, ecId)
    }

    predicate IsAnswerOf(tenants: set<string>) {
      IsAnswer() && tenant in tenants
    }
  }

  /** A row of the notification table with the time it was inserted. */
  datatype DbRow = DbRow(row: Row, date: int)

  function RowsOf(log: seq<DbRow>): (r: seq<Row>)
    ensures |r| == |log| && forall i :: 0 <= i < |log| ==> r[i] == log[i].row
  {
    seq(|log|, i requires 0 <= i < |log| => log[i].row)
  }

  /** A run names each metering point once (Run.Add merges). */
  predicate DistinctMeters(meters: seq<MeterRange>) {
    forall i, j :: 0 <= i < j < |meters| ==> meters[i].meter != meters[j].meter
  }

  predicate AscendingIds(rows: seq<Row>) {
    forall i, j :: 0 <= i < j < |rows| ==> rows[i].id < rows[j].id
  }

  /** Rows as the database returns them: strictly ascending ids; every run names a metering point once. */
  predicate ValidRows(rows: seq<Row>) {
    && AscendingIds(rows)
    && (forall i :: 0 <= i < |rows| ==> 0 < rows[i].id < MAX_ID)
    && (forall i :: 0 <= i < |rows| && rows[i].IsRun() ==> DistinctMeters(rows[i].content.run.meters))
  }

  lemma ValidPrefix(rows: seq<Row>, n: nat)
    requires ValidRows(rows) && n <= |rows|
    ensures ValidRows(rows[..n])
  {
  }

  /** The entry of `meter` in a run. */
  function EntryOf(meters: seq<MeterRange>, meter: string): (r: Option<MeterRange>)
    ensures r.Some? ==> r.value in meters && r.value.meter == meter
    ensures r.None? ==> forall e <- meters :: e.meter != meter
  {
    if meters == [] then None
    else if meters[0].meter == meter then Some(meters[0])
    else EntryOf(meters[1..], meter)
  }

  lemma {:induction false} EntryOfAt(meters: seq<MeterRange>, i: nat)
    requires i < |meters| && DistinctMeters(meters)
    ensures EntryOf(meters, meters[i].meter) == Some(meters[i])
  {
    if i > 0 {
      assert DistinctMeters(meters[1..]);
      EntryOfAt(meters[1..], i - 1);
    }
  }

  /** How often `x` occurs in `s`. */
  function Count<T(==)>(s: seq<T>, x: T): nat {
    if s == [] then 0 else Count(s[..|s| - 1], x) + if s[|s| - 1] == x then 1 else 0
  }
}
