/** The statistics panel of the map, `calculate_statistics`
    (geocode.py:60-83). The clock is read twice in the source, once for the
    thirty-day cut-off and once for the current year, so both readings are
    parameters here. The exceptions the code raises on a loaded table
    become an `Err`, except the AttributeError of the `.str` accessor on a
    status column that holds no string at all. */
module Statistics {
  import opened Frame
  import opened Status
  import Audits

  /** The primary audit columns: those of audit slot 1. */
  const DateColumn := Audits.BaseName(Audits.Date)
  const StatusColumn := Audits.BaseName(Audits.Status)

  /** `timedelta(days=30)` in seconds. */
  const MonthSeconds := 30 * 24 * 60 * 60

  /** The positional scan of geocode.py:76 starts at index 7 and steps by 3. */
  const FirstScanned := 7
  const Stride := 3

  /** How the computation aborts. */
  datatype StatsError =
    | MissingColumn(name: string)        // KeyError from df[name]
    | NotComparable                      // TypeError comparing a non-date with a datetime
    | ZeroDivision                       // ZeroDivisionError in the goal percentage
    | NoYear(row: nat, position: nat)    // AttributeError: `.year` of a value that is not a date

  /** The six numbers the function returns, in its order; the goal is the
      exact quotient, before rounding. */
  datatype Snapshot = Snapshot(golden: nat, green: nat, red: nat, stale: nat, goal: real, without: nat)

  /** `df[name]` for the column at position k: the cell of every row there. */
  function ColumnAt(rows: seq<seq<Cell>>, k: nat): (col: seq<Cell>)
    requires forall r :: r in rows ==> k < |r|
    ensures |col| == |rows| && forall i :: 0 <= i < |rows| ==> col[i] == rows[i][k]
  {
    seq(|rows|, i requires 0 <= i < |rows| => rows[i][k])
  }

  // ---------------------------------------------------------------------
  // Status counts (geocode.py:63-65)

  /** The colour a status cell counts for. Only strings reach the comparison:
      the `.str` accessor turns every other value into NaN, which equals no
      word, so it counts for no colour. */
  function StatusOf(c: Cell): Color {
    if c.Text? then GetColor(c.text) else Gray
  }

  /** `mask.shape[0]` of a selection: the number of rows the mask keeps. */
  function CountTrue(mask: seq<bool>): (n: nat)
    ensures n <= |mask|
  {
    if mask == [] then 0 else CountTrue(mask[..|mask| - 1]) + if mask[|mask| - 1] then 1 else 0
  }

  /** The positions a mask keeps. */
  function Kept(mask: seq<bool>): set<nat> {
    set i | 0 <= i < |mask| && mask[i]
  }

  /** The count of a selection is the number of positions it keeps. */
  lemma {:induction false} CountTrueKept(mask: seq<bool>)
    ensures CountTrue(mask) == |Kept(mask)|
  {
    if mask != [] {
      var p := mask[..|mask| - 1];
      CountTrueKept(p);
      assert forall i :: 0 <= i < |p| ==> p[i] == mask[i];
      if mask[|mask| - 1] {
        assert Kept(mask) == Kept(p) + {|mask| - 1};
      } else {
        assert Kept(mask) == Kept(p);
      }
    }
  }

  /** `df['Статус'].str.strip().str.lower() == word` for colour c's word. */
  function ColorMask(col: seq<Cell>, c: Color): (mask: seq<bool>)
    ensures |mask| == |col| && forall i :: 0 <= i < |col| ==> mask[i] == (StatusOf(col[i]) == c)
  {
    seq(|col|, i requires 0 <= i < |col| => StatusOf(col[i]) == c)
  }

  /** The number of rows whose status is colour c. */
  function CountColor(col: seq<Cell>, c: Color): nat {
    CountTrue(ColorMask(col, c))
  }

  /** A row counts for gold, green or red exactly when its status is a
      string whose normalised text is that colour's word (geocode.py:63-65);
      a missing status or any other value counts for none of them. */
  lemma ColorMaskWord(col: seq<Cell>, c: Color, i: nat)
    requires c != Gray && i < |col|
    ensures i in Kept(ColorMask(col, c)) <==> col[i].Text? && Normalize(col[i].text) == Word(c)
  {
    if col[i].Text? {
      ColorWords(col[i].text);
    }
  }

  /** Every row counts for exactly one of the four colours, so the gold, green
      and red counts are disjoint and together at most the number of rows. */
  lemma {:induction false} ColorPartition(col: seq<Cell>)
    ensures CountColor(col, Gold) + CountColor(col, Green) + CountColor(col, Red) + CountColor(col, Gray) == |col|
  {
    if col != [] {
      var p := col[..|col| - 1];
      ColorPartition(p);
      forall c: Color ensures ColorMask(col, c)[..|p|] == ColorMask(p, c) {
      }
    }
  }

  // ---------------------------------------------------------------------
  // Stale audits (geocode.py:61-62, 66)

  /** The primary date is missing, or strictly before now minus thirty days. */
  predicate Stale(c: Cell, now: Instant) {
    c.Missing? || (c.Stamp? && c.at.seconds < now.seconds - MonthSeconds)
  }

  /** A cell the comparison with a datetime accepts: a date or NaT. */
  predicate Datelike(c: Cell) {
    c.Missing? || c.Stamp?
  }

  /** `df['Дата аудита'].isna() | (df['Дата аудита'] < one_month_ago)`. */
  function StaleMask(col: seq<Cell>, now: Instant): (mask: seq<bool>)
    ensures |mask| == |col| && forall i :: 0 <= i < |col| ==> mask[i] == Stale(col[i], now)
  {
    seq(|col|, i requires 0 <= i < |col| => Stale(col[i], now))
  }

  /** The number of stale rows, or the TypeError the comparison with a
      datetime raises. Both sides of the `|` are evaluated, so the comparison
      fails whenever the column holds a value that is not a date, and also
      when a non-empty column holds no value at all: such a column is loaded
      as floats, which cannot be ordered against a datetime. */
  function CountStale(col: seq<Cell>, now: Instant): Result<nat, StatsError> {
    if exists i :: 0 <= i < |col| && !Datelike(col[i]) then Err(NotComparable)
    else if |col| > 0 && forall i :: 0 <= i < |col| ==> col[i].Missing? then Err(NotComparable)
    else Ok(CountTrue(StaleMask(col, now)))
  }

  /** The count fails exactly when some cell is not a date or when every cell
      of a non-empty column is missing, and otherwise it is the number of
      rows whose date is missing or older than thirty days, never more than
      the number of rows. */
  lemma CountStaleRows(col: seq<Cell>, now: Instant)
    ensures CountStale(col, now).Err? <==>
      || (exists i :: 0 <= i < |col| && !Datelike(col[i]))
      || (|col| > 0 && forall i :: 0 <= i < |col| ==> col[i].Missing?)
    ensures CountStale(col, now).Ok? ==>
      && CountStale(col, now).value == |Kept(StaleMask(col, now))| <= |col|
      && forall i: nat :: i in Kept(StaleMask(col, now)) <==>
           i < |col| && (col[i].Missing? || col[i].at.seconds < now.seconds - MonthSeconds)
  {
    CountTrueKept(StaleMask(col, now));
  }

  // ---------------------------------------------------------------------
  // Goal percentage (geocode.py:67)

  /** The guard is on the number of rows, not on the denominator: a
      non-empty table without a gold, green or red status divides by zero. */
  function GoalPercentage(rowCount: nat, golden: nat, green: nat, red: nat): Result<real, StatsError> {
    if rowCount > 0 then
      if golden + green + red == 0 then Err(ZeroDivision)
      else Ok((green + golden) as real / (green + golden + red) as real * 100.0)
    else Ok(0.0)
  }

  /** The goal is 0 for an empty table; otherwise it fails exactly when no
      row is gold, green or red, and lies between 0 and 100, reaching 100
      exactly when no row is red. */
  lemma GoalRange(rowCount: nat, golden: nat, green: nat, red: nat)
    ensures var r := GoalPercentage(rowCount, golden, green, red);
      && (rowCount == 0 ==> r == Ok(0.0))
      && (r.Err? <==> rowCount > 0 && golden + green + red == 0)
      && (r.Ok? ==> 0.0 <= r.value <= 100.0)
      && (r.Ok? && rowCount > 0 ==> (r.value == 100.0 <==> red == 0))
  {
    if rowCount > 0 && golden + green + red > 0 {
      Fraction((green + golden) as real, (green + golden + red) as real);
    }
  }

  /** A part over a positive whole lies between 0 and 1 and is 1 exactly
      when the part is the whole. */
  lemma Fraction(x: real, y: real)
    requires 0.0 <= x <= y && y > 0.0
    ensures 0.0 <= x / y <= 1.0 && (x / y == 1.0 <==> x == y)
  {
    var q := x / y;
    assert q * y == x;
  }

  // ---------------------------------------------------------------------
  // Rows without an audit this year (geocode.py:69-81)

  /** Position k is visited by the scan that starts at position i. */
  predicate Scanned(i: nat, k: nat) {
    k >= i && (k - i) % Stride == 0
  }

  /** A date cell of the given year. */
  predicate InYear(c: Cell, year: int) {
    c.Stamp? && c.at.year == year
  }

  /** The scan over positions i, i+3, i+6, ... below the row length: true at
      the first date of the year, Err(k) at a position k holding a value that
      has no `.year`. */
  function ScanFrom(row: seq<Cell>, i: nat, year: int): Result<bool, nat>
    decreases |row| - i
  {
    if i >= |row| then Ok(false)
    else if !Datelike(row[i]) then Err(i)
    else if InYear(row[i], year) then Ok(true)
    else ScanFrom(row, i + Stride, year)
  }

  /** `has_audit_in_2025` for one row, whose primary date sits at `primary`
      (geocode.py:72-79). */
  function HasAuditInYear(row: seq<Cell>, primary: nat, year: int): Result<bool, nat>
    requires primary < |row|
  {
    if !Datelike(row[primary]) then Err(primary)
    else if InYear(row[primary], year) then Ok(true)
    else ScanFrom(row, FirstScanned, year)
  }

  /** The check of every row, in row order. */
  function Checks(rows: seq<seq<Cell>>, primary: nat, year: int): (cs: seq<Result<bool, nat>>)
    requires forall r :: r in rows ==> primary < |r|
    ensures |cs| == |rows| && forall i :: 0 <= i < |rows| ==> cs[i] == HasAuditInYear(rows[i], primary, year)
  {
    seq(|rows|, i requires 0 <= i < |rows| => HasAuditInYear(rows[i], primary, year))
  }

  /** The number of checks that found no audit, or the exception of the
      first check that failed, tagged with its row. */
  function CountMisses(cs: seq<Result<bool, nat>>): (r: Result<nat, StatsError>)
    ensures r.Ok? ==> r.value <= |cs|
  {
    if cs == [] then Ok(0)
    else
      match CountMisses(cs[..|cs| - 1])
      case Err(e) => Err(e)
      case Ok(n) =>
        match cs[|cs| - 1]
        case Err(k) => Err(NoYear(|cs| - 1, k))
        case Ok(has) => Ok(if has then n else n + 1)
  }

  /** The number of rows without an audit in the year, or the exception of
      the first row whose check fails. */
  function WithoutAudits(rows: seq<seq<Cell>>, primary: nat, year: int): Result<nat, StatsError>
    requires forall r :: r in rows ==> primary < |r|
  {
    CountMisses(Checks(rows, primary, year))
  }

  lemma ScannedStep(i: nat, k: nat)
    ensures Scanned(i, k) <==> k == i || Scanned(i + Stride, k)
  {
    if k >= i + Stride {
      assert (k - i) % Stride == (k - (i + Stride)) % Stride;
    }
  }

  /** On a row whose scanned cells are all dates or missing, the scan finds
      a date of the year exactly when one sits at a scanned position. */
  lemma {:induction false} ScanMeaning(row: seq<Cell>, i: nat, year: int)
    requires forall k: nat :: Scanned(i, k) && k < |row| ==> Datelike(row[k])
    ensures ScanFrom(row, i, year) == Ok(exists k: nat :: Scanned(i, k) && k < |row| && InYear(row[k], year))
    decreases |row| - i
  {
    forall k: nat ensures Scanned(i, k) <==> k == i || Scanned(i + Stride, k) {
      ScannedStep(i, k);
    }
    if i < |row| {
      assert Scanned(i, i);
      if !InYear(row[i], year) {
        ScanMeaning(row, i + Stride, year);
      }
    }
  }

  /** Whatever the row holds, a scan that ends normally reports true exactly
      when some scanned position holds a date of the year, and a report of
      false means every scanned cell is a date of another year or missing. */
  lemma {:induction false} ScanOkMeaning(row: seq<Cell>, i: nat, year: int)
    ensures ScanFrom(row, i, year).Ok? ==>
      (ScanFrom(row, i, year).value <==> exists k: nat :: Scanned(i, k) && k < |row| && InYear(row[k], year))
    ensures ScanFrom(row, i, year) == Ok(false) ==>
      forall k: nat :: Scanned(i, k) && k < |row| ==> Datelike(row[k]) && !InYear(row[k], year)
    decreases |row| - i
  {
    forall k: nat ensures Scanned(i, k) <==> k == i || Scanned(i + Stride, k) {
      ScannedStep(i, k);
    }
    if i < |row| {
      assert Scanned(i, i);
      if Datelike(row[i]) && !InYear(row[i], year) {
        ScanOkMeaning(row, i + Stride, year);
      }
    }
  }

  /** A row's check that ends normally reports an audit exactly when the
      primary date or a cell at a scanned position is a date of the year;
      reporting none means neither holds one. */
  lemma HasAuditMeaning(row: seq<Cell>, primary: nat, year: int)
    requires primary < |row|
    ensures HasAuditInYear(row, primary, year).Ok? ==>
      (HasAuditInYear(row, primary, year).value <==>
        InYear(row[primary], year) || exists k: nat :: Scanned(FirstScanned, k) && k < |row| && InYear(row[k], year))
    ensures HasAuditInYear(row, primary, year) == Ok(false) ==>
      && !InYear(row[primary], year)
      && forall k: nat :: Scanned(FirstScanned, k) && k < |row| ==> Datelike(row[k]) && !InYear(row[k], year)
  {
    ScanOkMeaning(row, FirstScanned, year);
  }

  /** A failing scan names a scanned position whose value is not a date. */
  lemma {:induction false} ScanError(row: seq<Cell>, i: nat, year: int)
    ensures ScanFrom(row, i, year).Err? ==>
      var k := ScanFrom(row, i, year).error;
      Scanned(i, k) && k < |row| && !Datelike(row[k])
    decreases |row| - i
  {
    if i < |row| && Datelike(row[i]) && !InYear(row[i], year) {
      ScanError(row, i + Stride, year);
      var r := ScanFrom(row, i + Stride, year);
      if r.Err? {
        ScannedStep(i, r.error);
      }
    }
  }

  /** A row with no date of the year in its primary column still has an
      audit this year when a date of the year sits at a scanned position,
      e.g. the date of audit slot 2 at position 7. */
  lemma LaterSlotFound(row: seq<Cell>, primary: nat, year: int, k: nat)
    requires primary < |row| && Datelike(row[primary])
    requires Scanned(FirstScanned, k) && k < |row| && InYear(row[k], year)
    requires forall j: nat :: Scanned(FirstScanned, j) && j < k ==> Datelike(row[j])
    ensures HasAuditInYear(row, primary, year) == Ok(true)
  {
    ScanStopsAtDate(row, FirstScanned, year, k);
  }

  /** The scan succeeds once it reaches a date of the year through dates and
      missing cells only; what lies beyond that position plays no part. */
  lemma {:induction false} ScanStopsAtDate(row: seq<Cell>, i: nat, year: int, k: nat)
    requires k < |row| && forall j: nat :: Scanned(i, j) && j < k ==> Datelike(row[j])
    requires Scanned(i, k) && InYear(row[k], year)
    ensures ScanFrom(row, i, year) == Ok(true)
    decreases |row| - i
  {
    if i < k && !InYear(row[i], year) {
      assert Scanned(i, i);
      ScannedStep(i, k);
      forall j: nat | Scanned(i + Stride, j) && j < k ensures Datelike(row[j]) {
        ScannedStep(i, j);
      }
      ScanStopsAtDate(row, i + Stride, year, k);
    }
  }

  /** The positions of the checks that found no audit. */
  function Misses(cs: seq<Result<bool, nat>>): set<nat> {
    set i | 0 <= i < |cs| && cs[i] == Ok(false)
  }

  /** The count fails exactly when some check failed, and otherwise is the
      number of checks that found no audit. */
  lemma {:induction false} CountMissesMeaning(cs: seq<Result<bool, nat>>)
    ensures CountMisses(cs).Err? <==> exists i :: 0 <= i < |cs| && cs[i].Err?
    ensures CountMisses(cs).Ok? ==> CountMisses(cs).value == |Misses(cs)|
  {
    if cs != [] {
      var p := cs[..|cs| - 1];
      CountMissesMeaning(p);
      assert forall i :: 0 <= i < |p| ==> p[i] == cs[i];
      if cs[|cs| - 1] == Ok(false) {
        assert Misses(cs) == Misses(p) + {|cs| - 1};
      } else {
        assert Misses(cs) == Misses(p);
      }
    }
  }

  /** Once a prefix of the checks fails, the whole count fails the same way. */
  lemma {:induction false} CountMissesPrefixError(cs: seq<Result<bool, nat>>, n: nat)
    requires n <= |cs| && CountMisses(cs[..n]).Err?
    ensures CountMisses(cs) == CountMisses(cs[..n])
  {
    if n < |cs| {
      var p := cs[..|cs| - 1];
      assert p[..n] == cs[..n];
      CountMissesPrefixError(p, n);
    } else {
      assert cs[..n] == cs;
    }
  }

  /** The rows counted as having no audit in the year. */
  function UnauditedRows(rows: seq<seq<Cell>>, primary: nat, year: int): set<nat>
    requires forall r :: r in rows ==> primary < |r|
  {
    set i | 0 <= i < |rows| && HasAuditInYear(rows[i], primary, year) == Ok(false)
  }

  /** The count fails exactly when some row's check fails, and otherwise is
      the number of rows whose check finds no audit in the year. */
  lemma WithoutAuditsRows(rows: seq<seq<Cell>>, primary: nat, year: int)
    requires forall r :: r in rows ==> primary < |r|
    ensures WithoutAudits(rows, primary, year).Err? <==>
      exists i :: 0 <= i < |rows| && HasAuditInYear(rows[i], primary, year).Err?
    ensures WithoutAudits(rows, primary, year).Ok? ==>
      WithoutAudits(rows, primary, year).value == |UnauditedRows(rows, primary, year)|
  {
    var cs := Checks(rows, primary, year);
    CountMissesMeaning(cs);
    assert Misses(cs) == UnauditedRows(rows, primary, year);
  }

  /** A row whose primary date falls in the year is never counted. */
  lemma CurrentYearNotCounted(rows: seq<seq<Cell>>, primary: nat, year: int, i: nat)
    requires forall r :: r in rows ==> primary < |r|
    requires i < |rows| && InYear(rows[i][primary], year)
    ensures i !in UnauditedRows(rows, primary, year)
  {
  }

  /** The check of one row: the primary date, then the positional scan with
      its `break` (geocode.py:72-79). */
  method HasAuditThisYear(row: seq<Cell>, primary: nat, year: int) returns (r: Result<bool, nat>)
    requires primary < |row|
    ensures r == HasAuditInYear(row, primary, year)
  {
    if !Datelike(row[primary]) {
      return Err(primary);
    }
    var has := false;
    if InYear(row[primary], year) {
      has := true;
    } else {
      var i := FirstScanned;
      while i < |row|
        invariant i >= FirstScanned && !has
        invariant ScanFrom(row, FirstScanned, year) == ScanFrom(row, i, year)
        decreases |row| - i
      {
        if !Datelike(row[i]) {
          return Err(i);
        }
        if InYear(row[i], year) {
          has := true;
          break;
        }
        i := i + Stride;
      }
    }
    return Ok(has);
  }

  /** The loop over the rows of geocode.py:70-81, counting the rows whose
      check finds no audit in the year. */
  method CountWithoutAudits(rows: seq<seq<Cell>>, primary: nat, year: int) returns (r: Result<nat, StatsError>)
    requires forall r :: r in rows ==> primary < |r|
    ensures r == WithoutAudits(rows, primary, year)
  {
    ghost var cs := Checks(rows, primary, year);
    var without := 0;
    var i := 0;
    while i < |rows|
      invariant i <= |rows|
      invariant CountMisses(cs[..i]) == Ok(without)
    {
      var has := HasAuditThisYear(rows[i], primary, year);
      assert cs[..i + 1][..i] == cs[..i] && cs[..i + 1][i] == has;
      if has.Err? {
        CountMissesPrefixError(cs, i + 1);
        return Err(NoYear(i, has.error));
      }
      if !has.value {
        without := without + 1;
      }
      i := i + 1;
    }
    assert cs[..i] == cs;
    return Ok(without);
  }

  /** The six statistics of a table at clock readings `now` and `year`, with
      the exceptions in the order the source raises them. */
  function StatisticsOf(t: Table, now: Instant, year: int): Result<Snapshot, StatsError>
    requires RowsFit(t.columns, t.rows)
  {
    match IndexOf(t.columns, StatusColumn)
    case None => Err(MissingColumn(StatusColumn))
    case Some(s) =>
      var statuses := ColumnAt(t.rows, s);
      var golden := CountColor(statuses, Gold);
      var green := CountColor(statuses, Green);
      var red := CountColor(statuses, Red);
      match IndexOf(t.columns, DateColumn)
      case None => Err(MissingColumn(DateColumn))
      case Some(d) =>
        match CountStale(ColumnAt(t.rows, d), now)
        case Err(e) => Err(e)
        case Ok(stale) =>
          match GoalPercentage(|t.rows|, golden, green, red)
          case Err(e) => Err(e)
          case Ok(goal) =>
            match WithoutAudits(t.rows, d, year)
            case Err(e) => Err(e)
            case Ok(without) => Ok(Snapshot(golden, green, red, stale, goal, without))
  }

  /** `calculate_statistics`: the column counts, then the loop over the rows
      (geocode.py:60-83). */
  method CalculateStatistics(t: Table, now: Instant, year: int) returns (r: Result<Snapshot, StatsError>)
    requires RowsFit(t.columns, t.rows)
    ensures r == StatisticsOf(t, now, year)
  {
    var s := IndexOf(t.columns, StatusColumn);
    if s.None? {
      return Err(MissingColumn(StatusColumn));
    }
    var statuses := ColumnAt(t.rows, s.value);
    var golden := CountColor(statuses, Gold);
    var green := CountColor(statuses, Green);
    var red := CountColor(statuses, Red);
    var d := IndexOf(t.columns, DateColumn);
    if d.None? {
      return Err(MissingColumn(DateColumn));
    }
    var stale := CountStale(ColumnAt(t.rows, d.value), now);
    if stale.Err? {
      return Err(stale.error);
    }
    var goal := GoalPercentage(|t.rows|, golden, green, red);
    if goal.Err? {
      return Err(goal.error);
    }
    var without := CountWithoutAudits(t.rows, d.value, year);
    if without.Err? {
      return Err(without.error);
    }
    return Ok(Snapshot(golden, green, red, stale.value, goal.value, without.value));
  }

  /** Every statistic is bounded by the number of rows, the three colour
      counts together included, and the goal lies between 0 and 100. */
  lemma StatisticsBounds(t: Table, now: Instant, year: int)
    requires RowsFit(t.columns, t.rows)
    ensures var r := StatisticsOf(t, now, year);
      r.Ok? ==>
        && r.value.golden + r.value.green + r.value.red <= |t.rows|
        && r.value.stale <= |t.rows|
        && r.value.without <= |t.rows|
        && 0.0 <= r.value.goal <= 100.0
  {
    var r := StatisticsOf(t, now, year);
    if r.Ok? {
      var s := IndexOf(t.columns, StatusColumn).value;
      var d := IndexOf(t.columns, DateColumn).value;
      ColorPartition(ColumnAt(t.rows, s));
      CountStaleRows(ColumnAt(t.rows, d), now);
      GoalRange(|t.rows|, r.value.golden, r.value.green, r.value.red);
    }
  }
}
