/** The audit history of one restaurant, as `create_map` reads it from a row
    (geocode.py:117-150) and announces it in the popup header
    (geocode.py:165-166). A restaurant's audits sit in numbered column groups:
    slot 1 uses the plain names "Дата аудита", "Статус", "Аудитор", "Отчет",
    slot N the same names followed by a blank and N. */
module Audits {
  import opened Frame

  /** The four columns of an audit slot. */
  datatype Field = Date | Status | Auditor | Report

  function BaseName(f: Field): string {
    match f
    case Date => "Дата аудита"
    case Status => "Статус"
    case Auditor => "Аудитор"
    case Report => "Отчет"
  }

  /** The column name of field `f` in audit slot `slot` (geocode.py:120-129). */
  function ColumnName(f: Field, slot: nat): string {
    if slot <= 1 then BaseName(f) else BaseName(f) + " " + Decimal(slot)
  }

  /** All four columns of the slot are in the table (geocode.py:132). */
  predicate SlotComplete(columns: seq<string>, slot: nat) {
    ColumnName(Date, slot) in columns && ColumnName(Status, slot) in columns
    && ColumnName(Auditor, slot) in columns && ColumnName(Report, slot) in columns
  }

  /** One entry of the popup's audit list: the tuple geocode.py:135-140
      appends. The date is None only in the placeholder entry. */
  datatype Audit = Audit(date: Option<Cell>, status: Cell, auditor: Option<Cell>, report: Option<Cell>)

  const NoData := "Нет данных"
  const NotYetAudited := "Ещё не было аудита в 2025 году"

  /** The entry added when a row has no dated audit (geocode.py:149-150). */
  const Placeholder := Audit(None, Text(NotYetAudited), None, None)

  /** None for a missing cell, the cell otherwise. */
  function Optional(c: Cell): (o: Option<Cell>)
    ensures o.None? <==> c.Missing?
    ensures o.Some? ==> o.value == c
  {
    if c.Missing? then None else Some(c)
  }

  /** The cell of `row` under `name`; the walk only asks for columns it has
      checked are present, so the Missing for an absent one is never used. */
  function CellAt(columns: seq<string>, row: seq<Cell>, name: string): Cell
    requires |row| == |columns|
  {
    match Lookup(columns, row, name)
    case Some(c) => c
    case None => Missing
  }

  /** The slot's date cell is not missing (geocode.py:134). */
  predicate SlotDated(columns: seq<string>, row: seq<Cell>, slot: nat)
    requires |row| == |columns|
  {
    Present(CellAt(columns, row, ColumnName(Date, slot)))
  }

  /** The entry a dated slot contributes, with the defaults of
      geocode.py:137-139. */
  function SlotAudit(columns: seq<string>, row: seq<Cell>, slot: nat): Audit
    requires |row| == |columns|
  {
    var status := CellAt(columns, row, ColumnName(Status, slot));
    Audit(Some(CellAt(columns, row, ColumnName(Date, slot))),
          if status.Missing? then Text(NoData) else status,
          Optional(CellAt(columns, row, ColumnName(Auditor, slot))),
          Optional(CellAt(columns, row, ColumnName(Report, slot))))
  }

  /** Distinct slots have distinct date columns. */
  lemma DateNamesDistinct(a: nat, b: nat)
    requires a >= 1 && b >= 1
    ensures ColumnName(Date, a) == ColumnName(Date, b) ==> a == b
  {
    var base := BaseName(Date);
    if a != 1 && b != 1 {
      assert (base + " " + Decimal(a))[|base| + 1..] == Decimal(a);
      assert (base + " " + Decimal(b))[|base| + 1..] == Decimal(b);
      DecimalInjective(a, b);
    }
  }

  /** The date columns of slots 1 to n. */
  function DateNames(n: nat): set<string> {
    set k | 1 <= k <= n :: ColumnName(Date, k)
  }

  lemma {:induction false} DateNamesCount(n: nat)
    ensures |DateNames(n)| == n
  {
    if n == 0 {
      assert DateNames(0) == {};
    } else {
      DateNamesCount(n - 1);
      assert DateNames(n) == DateNames(n - 1) + {ColumnName(Date, n)};
      forall k | 1 <= k <= n - 1 ensures ColumnName(Date, k) != ColumnName(Date, n) {
        DateNamesDistinct(k, n);
      }
    }
  }

  lemma {:induction false} ElementsSize(s: seq<string>)
    ensures |set x | x in s| <= |s|
  {
    if s != [] {
      ElementsSize(s[1..]);
      assert (set x | x in s) == (set x | x in s[1..]) + {s[0]};
    }
  }

  lemma SubsetSize(a: set<string>, b: set<string>)
    requires a <= b
    ensures |a| <= |b|
  {
    assert b == a + (b - a);
    assert a * (b - a) == {};
  }

  /** A table can hold only as many slots as it has columns: this is why
      the `while True` walk over the slots ends. */
  lemma SlotBound(columns: seq<string>, n: nat)
    requires Reached(columns, n + 1)
    ensures n <= |columns|
  {
    assert DateNames(n) <= set x | x in columns by {
      forall x | x in DateNames(n) ensures x in columns {
        var k :| 1 <= k <= n && x == ColumnName(Date, k);
        assert SlotComplete(columns, k);
      }
    }
    DateNamesCount(n);
    ElementsSize(columns);
    SubsetSize(DateNames(n), set x | x in columns);
  }

  /** Slots 1 to n-1 are all complete: the walk has got as far as slot n. */
  predicate Reached(columns: seq<string>, n: nat) {
    n >= 1 && forall k :: 1 <= k < n ==> SlotComplete(columns, k)
  }

  /** The first slot, from n on, that lacks one of its four columns: the
      slot at which the walk stops. */
  function FirstGap(columns: seq<string>, n: nat): (g: nat)
    requires Reached(columns, n)
    ensures g >= n && Reached(columns, g) && !SlotComplete(columns, g)
    decreases |columns| + 1 - n
  {
    if !SlotComplete(columns, n) then n
    else
      SlotBound(columns, n);
      FirstGap(columns, n + 1)
  }

  /** What slot k contributes to the audit list: its entry when it is
      dated, nothing otherwise (geocode.py:134-140). */
  function SlotEntry(columns: seq<string>, row: seq<Cell>, k: nat): Option<Audit>
    requires |row| == |columns|
  {
    if SlotDated(columns, row, k) then Some(SlotAudit(columns, row, k)) else None
  }

  /** What slots 0, 1, ..., n-1 contribute, indexed by slot number (slot 0
      is never visited). */
  function Entries(columns: seq<string>, row: seq<Cell>, n: nat): (es: seq<Option<Audit>>)
    requires |row| == |columns|
    ensures |es| == n && forall k :: 0 <= k < n ==> es[k] == SlotEntry(columns, row, k)
  {
    seq(n, k requires 0 <= k < n => SlotEntry(columns, row, k))
  }

  lemma EntriesPrefix(columns: seq<string>, row: seq<Cell>, m: nat, n: nat)
    requires |row| == |columns| && m <= n
    ensures Entries(columns, row, n)[..m] == Entries(columns, row, m)
  {
  }

  /** The entries of the dated slots among lo, lo+1, ..., hi-1, in slot order. */
  function DatedSlots(columns: seq<string>, row: seq<Cell>, lo: nat, hi: nat): seq<Audit>
    requires |row| == |columns| && lo <= hi
  {
    Somes(Entries(columns, row, hi)[lo..])
  }

  /** What the walk collects: the dated slots before the first incomplete one. */
  function Collected(columns: seq<string>, row: seq<Cell>): seq<Audit>
    requires |row| == |columns|
  {
    DatedSlots(columns, row, 1, FirstGap(columns, 1))
  }

  /** The audit list of a row, with the placeholder when nothing was
      collected (geocode.py:117-150). */
  function AuditsOf(columns: seq<string>, row: seq<Cell>): seq<Audit>
    requires |row| == |columns|
  {
    var collected := Collected(columns, row);
    if collected == [] then [Placeholder] else collected
  }

  /** The walk over the audit slots of one row (geocode.py:117-143). */
  method WalkSlots(columns: seq<string>, row: seq<Cell>) returns (audits: seq<Audit>)
    requires |row| == |columns|
    ensures audits == Collected(columns, row)
  {
    audits := [];
    var n := 1;
    while true
      invariant Reached(columns, n)
      invariant audits == DatedSlots(columns, row, 1, n)
      decreases |columns| + 1 - n
    {
      if !SlotComplete(columns, n) {
        break;
      }
      SlotBound(columns, n);
      DatedSlotsNext(columns, row, 1, n);
      if Present(CellAt(columns, row, ColumnName(Date, n))) {
        audits := audits + [SlotAudit(columns, row, n)];
      }
      n := n + 1;
    }
    GapIsFirst(columns, 1, n);
  }

  /** The audit list of one row: the walk, then the placeholder when it
      found nothing (geocode.py:117-150). */
  method CollectAudits(columns: seq<string>, row: seq<Cell>) returns (audits: seq<Audit>)
    requires |row| == |columns|
    ensures audits == AuditsOf(columns, row)
  {
    audits := WalkSlots(columns, row);
    if audits == [] {
      audits := [Placeholder];
    }
  }

  /** An incomplete slot reached from m is the first gap from m: the walk
      cannot pass it. */
  lemma {:induction false} GapIsFirst(columns: seq<string>, m: nat, n: nat)
    requires 1 <= m <= n && Reached(columns, n) && !SlotComplete(columns, n)
    ensures FirstGap(columns, m) == n
    decreases n - m
  {
    if m < n {
      assert SlotComplete(columns, m);
      GapIsFirst(columns, m + 1, n);
    }
  }

  /** An entry as a dated slot yields it: a date, a status that is not
      missing, and an auditor and a report that are either absent or real
      values. */
  predicate Filled(a: Audit) {
    && a.date.Some? && Present(a.date.value) && Present(a.status)
    && (a.auditor.Some? ==> Present(a.auditor.value))
    && (a.report.Some? ==> Present(a.report.value))
  }

  /** A dated slot's entry is filled. */
  lemma SlotAuditFilled(columns: seq<string>, row: seq<Cell>, k: nat)
    requires |row| == |columns| && SlotDated(columns, row, k)
    ensures Filled(SlotAudit(columns, row, k))
  {
  }

  /** Whatever a slot contributes is filled. */
  lemma SlotEntryFilled(columns: seq<string>, row: seq<Cell>, k: nat)
    requires |row| == |columns|
    ensures SlotEntry(columns, row, k).Some? ==> Filled(SlotEntry(columns, row, k).value)
  {
    if SlotDated(columns, row, k) {
      SlotAuditFilled(columns, row, k);
    }
  }

  /** Every collected entry is the entry of a dated slot in the range, so it
      is filled. */
  lemma DatedSlotsWellFilled(columns: seq<string>, row: seq<Cell>, lo: nat, hi: nat)
    requires |row| == |columns| && lo <= hi
    ensures forall a :: a in DatedSlots(columns, row, lo, hi) ==> Filled(a)
  {
    var e := Entries(columns, row, hi);
    var es := e[lo..];
    forall a | a in Somes(es) ensures Filled(a) {
      SomesMember(es, a);
      var i :| 0 <= i < |es| && es[i] == Some(a);
      assert e[lo + i] == Some(a);
      SlotEntryFilled(columns, row, lo + i);
    }
  }

  /** A dated slot in the range always yields its entry. */
  lemma DatedSlotCollected(columns: seq<string>, row: seq<Cell>, lo: nat, hi: nat, k: nat)
    requires |row| == |columns| && lo <= k < hi
    requires SlotDated(columns, row, k)
    ensures SlotAudit(columns, row, k) in DatedSlots(columns, row, lo, hi)
  {
    var es := Entries(columns, row, hi);
    assert es[lo..][k - lo] == es[k] == Some(SlotAudit(columns, row, k));
    SomesMember(es[lo..], SlotAudit(columns, row, k));
  }

  /** Nothing is collected from a range exactly when none of its slots is dated. */
  lemma DatedSlotsEmpty(columns: seq<string>, row: seq<Cell>, lo: nat, hi: nat)
    requires |row| == |columns| && lo <= hi
    ensures DatedSlots(columns, row, lo, hi) == [] <==>
      forall k :: lo <= k < hi ==> !SlotDated(columns, row, k)
  {
    var es := Entries(columns, row, hi);
    SomesEmpty(es[lo..]);
    assert (forall i :: 0 <= i < |es[lo..]| ==> es[lo..][i].None?) <==>
      forall k :: lo <= k < hi ==> !SlotDated(columns, row, k)
    by {
      forall k | lo <= k < hi ensures es[lo..][k - lo].None? <==> !SlotDated(columns, row, k) {
        assert es[lo..][k - lo] == es[k];
      }
    }
  }

  /** The entries of a range are those of its first part followed by those
      of its second: the walk keeps slot order. */
  lemma DatedSlotsSplit(columns: seq<string>, row: seq<Cell>, lo: nat, mid: nat, hi: nat)
    requires |row| == |columns| && lo <= mid <= hi
    ensures DatedSlots(columns, row, lo, hi) == DatedSlots(columns, row, lo, mid) + DatedSlots(columns, row, mid, hi)
  {
    var es := Entries(columns, row, hi);
    EntriesPrefix(columns, row, mid, hi);
    assert Entries(columns, row, mid)[lo..] == es[lo..mid];
    assert es[lo..] == es[lo..mid] + es[mid..];
    SomesConcat(es[lo..mid], es[mid..]);
  }

  /** One more slot adds its entry when it is dated and nothing otherwise. */
  lemma DatedSlotsNext(columns: seq<string>, row: seq<Cell>, lo: nat, n: nat)
    requires |row| == |columns| && lo <= n
    ensures DatedSlots(columns, row, lo, n + 1) == DatedSlots(columns, row, lo, n)
      + if SlotDated(columns, row, n) then [SlotAudit(columns, row, n)] else []
  {
    var es := Entries(columns, row, n + 1);
    EntriesPrefix(columns, row, n, n + 1);
    assert Entries(columns, row, n)[lo..] == es[lo..n];
    assert es[lo..] == es[lo..n + 1];
    SomesSliceNext(es, lo, n);
  }

  /** A range yields at most one entry per slot, so a row yields at most one
      entry per column of the table. */
  lemma DatedSlotsBound(columns: seq<string>, row: seq<Cell>, lo: nat, hi: nat)
    requires |row| == |columns| && lo <= hi
    ensures |DatedSlots(columns, row, lo, hi)| <= hi - lo
  {
    SomesBound(Entries(columns, row, hi)[lo..]);
  }

  /** The audit list is never empty and has at most one entry per column; it
      is the placeholder alone exactly when no slot before the first gap is
      dated, and otherwise it lists exactly the dated slots, each with a
      date. */
  lemma AuditsShape(columns: seq<string>, row: seq<Cell>)
    requires |row| == |columns|
    ensures 1 <= |AuditsOf(columns, row)| <= |columns| + 1
    ensures AuditsOf(columns, row) == [Placeholder] <==>
      forall k :: 1 <= k < FirstGap(columns, 1) ==> !SlotDated(columns, row, k)
    ensures AuditsOf(columns, row) != [Placeholder] ==>
      && AuditsOf(columns, row) == Collected(columns, row)
      && forall a :: a in AuditsOf(columns, row) ==> Filled(a)
  {
    var g := FirstGap(columns, 1);
    DatedSlotsEmpty(columns, row, 1, g);
    DatedSlotsWellFilled(columns, row, 1, g);
    DatedSlotsBound(columns, row, 1, g);
    SlotBound(columns, g - 1);
    var c := Collected(columns, row);
    if c != [] {
      assert c[0] in c;
    }
  }

  /** The popup header before any count is added (geocode.py:115). */
  function PlainTitle(name: string): string {
    "<b>" + name + "</b>"
  }

  /** geocode.py:165-166: with more than one audit entry the plain header at
      the front of the popup text is replaced by one that names the count;
      what follows the header is kept. */
  function Retitle(popup: string, name: string, count: nat): (r: string)
    requires |PlainTitle(name)| <= |popup|
  {
    if count > 1 then Header(name, count) + popup[|PlainTitle(name)|..] else popup
  }

  /** The popup header of a restaurant with `count` audit entries: the plain
      one for a single entry, one that names the count otherwise. */
  function Header(name: string, count: nat): string {
    if count > 1 then "<b>" + name + " (Аудитов: " + Decimal(count) + ")</b>" else PlainTitle(name)
  }

  /** Retitling a popup that starts with the plain header puts the header for
      the count in its place and keeps the rest of the text. */
  lemma RetitleIsHeader(name: string, body: string, count: nat)
    ensures Retitle(PlainTitle(name) + body, name, count) == Header(name, count) + body
  {
    var popup := PlainTitle(name) + body;
    assert popup[|PlainTitle(name)|..] == body;
  }

  /** The header names the count only when there are several entries, the
      header still starts with the restaurant's name, and the text after the
      header is untouched. */
  lemma RetitleKeepsBody(popup: string, name: string, count: nat)
    requires |PlainTitle(name)| <= |popup| && popup[..|PlainTitle(name)|] == PlainTitle(name)
    ensures var r := Retitle(popup, name, count);
      && (count <= 1 <==> r == popup)
      && r[..3 + |name|] == "<b>" + name
      && r[|r| + |PlainTitle(name)| - |popup|..] == popup[|PlainTitle(name)|..]
  {
    var body := popup[|PlainTitle(name)|..];
    var r := Retitle(popup, name, count);
    if count > 1 {
      var head := Header(name, count);
      assert r == head + body;
      assert |head| > |PlainTitle(name)|;
      assert r[..3 + |name|] == head[..3 + |name|];
    } else {
      assert popup[..3 + |name|] == PlainTitle(name)[..3 + |name|];
    }
  }
}
