/** The spreadsheet as geocode.py sees it once pandas has loaded it: an ordered
    list of distinct column names and, per restaurant, one row of cells aligned
    with those names. A row is reached both by column name (`row['Статус']`) and
    by position (`row.iloc[i]`), so both lookups are defined here. */
module Frame {

  datatype Option<+T> = None | Some(value: T)

  /** The values of the present options, in order. */
  function Somes<T>(xs: seq<Option<T>>): seq<T> {
    if xs == [] then []
    else Somes(xs[..|xs| - 1]) + if xs[|xs| - 1].Some? then [xs[|xs| - 1].value] else []
  }

  lemma SomesSnoc<T>(xs: seq<Option<T>>, x: Option<T>)
    ensures Somes(xs + [x]) == Somes(xs) + if x.Some? then [x.value] else []
  {
    assert (xs + [x])[..|xs|] == xs;
  }

  /** Widening a slice by one option keeps its value, if any, at the end. */
  lemma SomesSliceNext<T>(xs: seq<Option<T>>, lo: nat, n: nat)
    requires lo <= n < |xs|
    ensures Somes(xs[lo..n + 1]) == Somes(xs[lo..n]) + if xs[n].Some? then [xs[n].value] else []
  {
    assert xs[lo..n + 1] == xs[lo..n] + [xs[n]];
    SomesSnoc(xs[lo..n], xs[n]);
  }

  /** A value is kept exactly when it is one of the present options. */
  lemma {:induction false} SomesMember<T>(xs: seq<Option<T>>, v: T)
    ensures v in Somes(xs) <==> Some(v) in xs
  {
    if xs != [] {
      var p := xs[..|xs| - 1];
      SomesMember(p, v);
      assert xs == p + [xs[|xs| - 1]];
    }
  }

  /** Nothing is kept exactly when no option is present. */
  lemma {:induction false} SomesEmpty<T>(xs: seq<Option<T>>)
    ensures Somes(xs) == [] <==> forall i :: 0 <= i < |xs| ==> xs[i].None?
  {
    if xs != [] {
      var p := xs[..|xs| - 1];
      SomesEmpty(p);
      assert forall i :: 0 <= i < |p| ==> p[i] == xs[i];
    }
  }

  /** Filtering keeps order: the options of a concatenation give the values
      of the first part followed by those of the second. */
  lemma {:induction false} SomesConcat<T>(xs: seq<Option<T>>, ys: seq<Option<T>>)
    ensures Somes(xs + ys) == Somes(xs) + Somes(ys)
  {
    if ys == [] {
      assert xs + ys == xs;
    } else {
      var q := ys[..|ys| - 1];
      var y := ys[|ys| - 1];
      assert ys == q + [y];
      assert xs + ys == (xs + q) + [y];
      SomesConcat(xs, q);
      SomesSnoc(xs + q, y);
      SomesSnoc(q, y);
    }
  }

  /** At most one value per option is kept. */
  lemma {:induction false} SomesBound<T>(xs: seq<Option<T>>)
    ensures |Somes(xs)| <= |xs|
  {
    if xs != [] {
      SomesBound(xs[..|xs| - 1]);
    }
  }

  /** The outcome of a computation that the Python code can abort with an
      exception: the exception becomes an `Err`. */
  datatype Result<+T, +E> = Ok(value: T) | Err(error: E)

  /** A point in time: seconds on one fixed clock, and the calendar year that
      point falls in (what `.year` of a timestamp gives). */
  datatype Instant = Instant(seconds: int, year: int)

  /** One spreadsheet cell. */
  datatype Cell =
    | Missing                              // NaN or NaT: pd.isna holds
    | Text(text: string)                   // a Python str
    | Stamp(at: Instant, shown: string)    // a timestamp; `shown` is its str()
    | Other(shown: string)                 // a number or any other value; `shown` is its str()

  /** `pd.notna(c)` */
  predicate Present(c: Cell) {
    !c.Missing?
  }

  /** `str(c)`: the text of a cell as Python's str() renders it. */
  function Str(c: Cell): string {
    match c
    case Missing => "nan"
    case Text(s) => s
    case Stamp(_, shown) => shown
    case Other(shown) => shown
  }

  /** A loaded spreadsheet: `df.columns` and the rows `df.iterrows()` yields. */
  datatype Table = Table(columns: seq<string>, rows: seq<seq<Cell>>)

  predicate Distinct(names: seq<string>) {
    forall i, j :: 0 <= i < j < |names| ==> names[i] != names[j]
  }

  /** What the loader guarantees: every row has one cell per column. */
  predicate RowsFit(columns: seq<string>, rows: seq<seq<Cell>>) {
    forall r :: r in rows ==> |r| == |columns|
  }

  /** The position of `name` among `columns`, if it is one of them. */
  function IndexOf(columns: seq<string>, name: string): (r: Option<nat>)
    ensures r.None? <==> name !in columns
    ensures r.Some? ==> r.value < |columns| && columns[r.value] == name && name !in columns[..r.value]
  {
    if columns == [] then None
    else if columns[0] == name then Some(0)
    else match IndexOf(columns[1..], name)
      case None => None
      case Some(k) => Some(k + 1)
  }

  /** `row[name]`: the cell under column `name`, or None where pandas raises
      a KeyError. */
  function Lookup(columns: seq<string>, row: seq<Cell>, name: string): (c: Option<Cell>)
    requires |row| == |columns|
    ensures c.None? <==> name !in columns
  {
    match IndexOf(columns, name)
    case None => None
    case Some(k) => Some(row[k])
  }

  /** With distinct column names, the lookup by name gives the cell at the
      name's position. */
  lemma LookupAt(columns: seq<string>, row: seq<Cell>, i: nat)
    requires |row| == |columns| && Distinct(columns) && i < |columns|
    ensures Lookup(columns, row, columns[i]) == Some(row[i])
  {
    var k := IndexOf(columns, columns[i]).value;
    assert columns[k] == columns[i];
  }

  /** The character of a decimal digit. */
  function Digit(d: nat): (c: char)
    requires d < 10
    ensures '0' <= c <= '9'
  {
    "0123456789"[d]
  }

  /** The value of a decimal digit character. */
  function DigitValue(c: char): (d: nat)
    requires '0' <= c <= '9'
    ensures d < 10 && Digit(d) == c
  {
    (c as int - '0' as int) as nat
  }

  /** The decimal rendering of a natural number, as an f-string shows it. */
  function Decimal(n: nat): (s: string)
    ensures |s| >= 1 && forall i :: 0 <= i < |s| ==> '0' <= s[i] <= '9'
  {
    if n < 10 then [Digit(n)] else Decimal(n / 10) + [Digit(n % 10)]
  }

  /** Reading back a string of decimal digits. */
  function ParseDecimal(s: string): nat
    requires forall i :: 0 <= i < |s| ==> '0' <= s[i] <= '9'
  {
    if s == [] then 0 else ParseDecimal(s[..|s| - 1]) * 10 + DigitValue(s[|s| - 1])
  }

  /** A digit character is read back as its digit. */
  lemma DigitRoundTrip(d: nat)
    requires d < 10
    ensures DigitValue(Digit(d)) == d
  {
    assert "0123456789"[d] as int == '0' as int + d;
  }

  /** The rendering is read back as the number it renders. */
  lemma {:induction false} DecimalRoundTrip(n: nat)
    ensures ParseDecimal(Decimal(n)) == n
  {
    var s := Decimal(n);
    if n < 10 {
      assert s[..|s| - 1] == [];
      DigitRoundTrip(n);
    } else {
      var d := Digit(n % 10);
      assert s == Decimal(n / 10) + [d];
      assert s[..|s| - 1] == Decimal(n / 10) && s[|s| - 1] == d;
      DecimalRoundTrip(n / 10);
      DigitRoundTrip(n % 10);
      assert ParseDecimal(s) == (n / 10) * 10 + n % 10;
    }
  }

  /** Distinct numbers render differently, so the suffixed column names of
      distinct audit slots are distinct. */
  lemma DecimalInjective(a: nat, b: nat)
    ensures Decimal(a) == Decimal(b) ==> a == b
  {
    DecimalRoundTrip(a);
    DecimalRoundTrip(b);
  }
}
