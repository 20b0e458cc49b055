# Audits map: status colours, statistics and marker groups

`geocode.py` reads a spreadsheet of restaurants and their audits and draws
them on a map. This project models the record-level logic in that script:

- **Status** (`status.dfy`) models `get_color`. A free-text status is
  stripped, lower-cased and compared with the Russian words for green, red
  and gold. Anything else is gray.
- **Statistics** (`statistics.dfy`) models `calculate_statistics`. It counts:
  - the gold, green and red statuses;
  - the stale primary audit dates;
  - the goal percentage;
  - the rows with no audit dated in the current year.

  The last count is a loop over the rows, with an inner scan over positions
  7, 10, 13, … that stops at the first date of the year.
- **Audits** (`audits.dfy`) models the `while True` walk in `create_map`. The
  walk goes over the numbered audit column groups:
  - slot 1 uses "Дата аудита", "Статус", "Аудитор" and "Отчет";
  - slot N uses the same names followed by " N".

  The walk stops at the first slot whose four columns are not all present.
  It skips slots with no date, fills in defaults, and adds a placeholder when
  nothing was found. It also models how the popup header names the number of
  audits.
- **Markers** (`markers.dfy`) models the rest of the row loop in
  `create_map`:
  - the marker kind: a heart for one named restaurant, a star for gold, a
    circle otherwise;
  - the four feature groups, modelled as a class whose marker list grows in
    place;
  - placing each marker in the group of its colour.
- **Frame** (`frame.dfy`) is the loaded spreadsheet. A row is a sequence of
  cells aligned with the column names. A cell is missing (NaN/NaT), a
  string, a timestamp, or some other value.

Both the loops and the growing groups are imperative Dafny methods:
`CalculateStatistics`, `CountWithoutAudits`, `HasAuditThisYear`,
`WalkSlots`, `CreateMap`, `PlaceMarkers`, `PlaceMarker` and
`FeatureGroup.Add`. Each method is proved equal
to a specification function, and the lemmas state what the source promises
about those functions.

The clock is read twice in `calculate_statistics`: once for the thirty-day
cut-off and once for the current year. Both readings are parameters (`now`,
`year`). These exceptions of the code on a loaded table are `Err`
results:

- a KeyError for a missing column;
- a TypeError when the date column holds a value that is not a date, or
  when a non-empty date column holds no value at all (such a column is
  loaded as floats, which cannot be ordered against a datetime);
- a ZeroDivisionError in the goal percentage;
- an AttributeError when `.year` is taken of a value that is not a date.

The one exception not modelled is the AttributeError of the `.str` accessor
on a status column holding no string at all; it is listed under "Left out".

The model follows the code in two places where a description of the program
might expect otherwise:

- **Goal percentage.** The guard on the goal percentage tests the number of
  rows, not the denominator. So a non-empty table with no gold, green or red
  status divides by zero, and `GoalPercentage` returns `Err(ZeroDivision)`
  there rather than 0.
- **Stride of the positional scan.** The positional scan of
  `calculate_statistics` steps by 3, although an audit slot spans four
  columns. The model scans exactly the positions the code scans, and
  `ScanMeaning` states which ones.

## Model

| member | source | states |
|---|---|---|
| Frame.Present | geocode.py:134-139 | `pd.notna` on a cell; used by the walk and stated through SlotEntryFilled and Optional |
| Frame.Str | geocode.py:113-115 | the text `str()` gives a cell; stated through CellColor and MissingStatusGray |
| Frame.IndexOf | geocode.py:111-113 | the position found holds the name and is its first occurrence; None exactly when the name is no column |
| Frame.Lookup | geocode.py:111-113 | `row[name]` fails (KeyError) exactly when the name is not a column |
| Frame.LookupAt | geocode.py:73-77 | with distinct column names, the cell reached by name is the cell at that name's position |
| Frame.Decimal | geocode.py:126-129 | the rendering of a slot number is a non-empty string of decimal digits |
| Frame.DecimalRoundTrip | geocode.py:126-129 | reading the rendered slot number back gives the number |
| Frame.DecimalInjective | geocode.py:126-129 | distinct slot numbers render differently |
| Status.GetColor | geocode.py:48-57 | `get_color`: the colour of a status; what it promises is stated by ColorWords, CaseInsensitive, PaddingIgnored and NormalizeIdempotent |
| Status.CellColor | geocode.py:113 | the colour of a status cell, a missing cell standing for "Нет данных"; stated by MissingStatusGray and, through GetColor, ColorWords |
| Status.Lower | geocode.py:49 | `str.lower()` character by character; stated by LowerLowered, StripLowerCommute and CaseInsensitive |
| Status.Strip | geocode.py:49 | `str.strip()`; stated by StripAt, StripInner, StripBlank and StripPadding |
| Status.Normalize | geocode.py:49 | `str(status).strip().lower()`; stated by NormalizeIdempotent, PaddingIgnored and CaseInsensitive |
| Status.LowerChar | geocode.py:49 | lower-casing a character never turns whitespace into non-whitespace or back |
| Status.ColorWords | geocode.py:48-57 | the result is non-gray exactly when the normalised status is one of the three words, a non-gray colour comes from its own word, and each word gives its colour back |
| Status.LowerLowered | geocode.py:49 | a string that has no capitals is its own lower-case form |
| Status.TrimStartAt | geocode.py:49 | left stripping removes exactly the leading whitespace |
| Status.TrimEndAt | geocode.py:49 | right stripping removes exactly the trailing whitespace |
| Status.StripAt | geocode.py:49 | `strip()` keeps exactly the slice between the leading and the trailing whitespace |
| Status.StripBlank | geocode.py:49 | a blank status strips to the empty string |
| Status.StripInner | geocode.py:49 | a slice bounded by non-space characters and surrounded by whitespace is what `strip()` keeps |
| Status.StripLowerCommute | geocode.py:49 | stripping then lower-casing equals lower-casing then stripping |
| Status.CaseInsensitive | geocode.py:48-57 | two statuses with the same lower-case form get the same colour |
| Status.PaddingIgnored | geocode.py:48-57 | whitespace around a status changes neither its normal form nor its colour |
| Status.StripPadding | geocode.py:49 | whitespace added around a string is stripped off again |
| Status.TrimStartSkips | geocode.py:49 | leading whitespace in front of a string does not change its left-stripped form |
| Status.TrimStartKeeps | geocode.py:49 | text appended after a string with non-space content survives left stripping unchanged |
| Status.TrimEndSkips | geocode.py:49 | trailing whitespace after a string does not change its right-stripped form |
| Status.NormalizeIdempotent | geocode.py:48-57 | normalising twice equals normalising once, and the normal form keeps the colour |
| Status.WordColor | geocode.py:52-57 | each colour word, as written, selects its own colour |
| Status.AnyCaseOfWord | geocode.py:48-57 | any capitalisation of a colour word gets that colour |
| Status.GreenSpellings | geocode.py:48-57 | "Зеленый", " ЗЕЛЕНЫЙ " and "зеленый" are all green |
| Status.MissingStatusGray | geocode.py:113 | a missing status, replaced by "Нет данных", is drawn gray |
| Audits.ColumnName | geocode.py:120-129 | the name of a slot's column; distinctness of the date names is stated by DateNamesDistinct and DateNamesCount |
| Audits.SlotComplete | geocode.py:132 | the test that all four columns of a slot exist; what it implies for the walk is stated by SlotBound, FirstGap and GapIsFirst |
| Audits.SlotDated | geocode.py:134 | a slot whose date cell is present; stated by DatedSlotCollected and DatedSlotsEmpty |
| Audits.SlotEntry | geocode.py:134-140 | what one slot adds to the list; stated by SlotEntryFilled and DatedSlotsNext |
| Audits.SlotAudit | geocode.py:134-140 | the entry of a dated slot with its defaults; stated by SlotEntryFilled and Optional |
| Audits.Collected | geocode.py:117-143 | what the walk collects; stated by WalkSlots, DatedSlotsNext, DatedSlotsEmpty and DatedSlotsWellFilled |
| Audits.AuditsOf | geocode.py:117-150 | the audit list of a row; stated by CollectAudits and AuditsShape |
| Audits.Optional | geocode.py:138-139 | a missing auditor or report becomes None, any other value is kept |
| Audits.DateNamesDistinct | geocode.py:120-129 | distinct slots have distinct date column names |
| Audits.DateNamesCount | geocode.py:120-129 | slots 1 to n have n distinct date column names |
| Audits.SlotBound | geocode.py:119-143 | complete slots 1 to n need at least n columns, so the `while True` walk ends |
| Audits.FirstGap | geocode.py:131-143 | the walk stops at a slot that is incomplete after passing only complete slots |
| Audits.GapIsFirst | geocode.py:131-143 | an incomplete slot reached after complete slots only is the one the walk stops at |
| Audits.WalkSlots | geocode.py:117-143 | the walk collects exactly the entries of the dated slots before the first incomplete slot, in slot order |
| Audits.CollectAudits | geocode.py:117-150 | the audit list is the walk's result, or the placeholder alone when the walk found nothing |
| Audits.SlotEntryFilled | geocode.py:134-140 | whatever one slot contributes has a present date and a present status; its auditor or report is either None or a present value |
| Audits.DatedSlotsWellFilled | geocode.py:134-140 | every collected entry has a present date and a present status; an auditor or report is either None or a present value |
| Audits.DatedSlotCollected | geocode.py:134-140 | every dated slot before the stop contributes its entry |
| Audits.DatedSlotsEmpty | geocode.py:134-150 | nothing is collected from a run of slots exactly when none of them is dated |
| Audits.DatedSlotsSplit | geocode.py:119-143 | the entries of a run of slots are those of its first part followed by those of its second: slot order is kept |
| Audits.DatedSlotsNext | geocode.py:131-143 | one more slot adds its entry at the end when it is dated, and nothing when it is not |
| Audits.DatedSlotsBound | geocode.py:119-143 | a run of slots yields at most one entry per slot |
| Audits.AuditsShape | geocode.py:117-150 | the audit list has between 1 and one-more-than-the-column-count entries. It is the placeholder exactly when no slot before the stop is dated; otherwise it is the walk's result and every entry has a present date and status |
| Audits.PlainTitle | geocode.py:115 | the plain popup header; stated by RetitleIsHeader and RetitleKeepsBody |
| Audits.Header | geocode.py:166 | the header naming the count of audits; stated by RetitleIsHeader and RetitleKeepsBody |
| Audits.Retitle | geocode.py:165-166 | the header update for more than one audit; stated by RetitleIsHeader and RetitleKeepsBody |
| Audits.RetitleIsHeader | geocode.py:165-166 | retitling a popup replaces the plain header by the header for the count and keeps the rest |
| Audits.RetitleKeepsBody | geocode.py:165-166 | the popup changes exactly when there is more than one entry; the header still starts with the name and the text after the header is kept |
| Statistics.StatusOf | geocode.py:63-65 | the text `.str.strip().str.lower()` sees in a status cell; stated by ColorMaskWord |
| Statistics.CountColor | geocode.py:63-65 | the number of rows of one colour; stated by ColorMaskWord, ColorPartition and CountTrueKept |
| Statistics.ColorMask | geocode.py:63-65 | which rows select a colour; stated by ColorMaskWord and ColorPartition |
| Statistics.CountTrue | geocode.py:63-66 | the size of a selection is at most the number of rows |
| Statistics.CountTrueKept | geocode.py:63-66 | the size of a selection is the number of rows its mask keeps |
| Statistics.ColorMaskWord | geocode.py:63-65 | a row counts for gold, green or red exactly when its status is a string whose stripped, lower-cased text is that colour's word; a missing or non-string status counts for none |
| Statistics.ColorPartition | geocode.py:63-65 | every row counts for exactly one of gold, green, red or no colour, so the three counts are disjoint and together at most the row count |
| Statistics.Stale | geocode.py:66 | a primary date that is missing or older than thirty days; stated by CountStaleRows |
| Statistics.StaleMask | geocode.py:66 | the selection of stale rows; stated by CountStaleRows |
| Statistics.CountStale | geocode.py:61-66 | the stale count or its TypeError; stated by CountStaleRows |
| Statistics.CountStaleRows | geocode.py:61-66 | the stale count fails exactly when some date cell is not a date, or when every cell of a non-empty date column is missing. Otherwise it counts exactly the rows whose date is missing or strictly older than now minus thirty days, and never exceeds the row count |
| Statistics.GoalPercentage | geocode.py:67 | the goal percentage or its ZeroDivisionError; stated by GoalRange |
| Statistics.GoalRange | geocode.py:67 | the goal is 0 for an empty table. It fails exactly for a non-empty table with no gold, green or red row. Otherwise it lies in [0, 100] and is 100 exactly when no row is red |
| Statistics.ScanFrom | geocode.py:76-79 | the positional scan with its `break`; stated by ScanMeaning, ScanError and ScanStopsAtDate |
| Statistics.HasAuditInYear | geocode.py:72-79 | one row's check; stated by LaterSlotFound, CurrentYearNotCounted and HasAuditThisYear |
| Statistics.WithoutAudits | geocode.py:69-81 | the count of rows without an audit this year; stated by WithoutAuditsRows and CountWithoutAudits |
| Statistics.ScanOkMeaning | geocode.py:76-79 | on any row, a scan that ends normally reports true exactly when a scanned position holds a date of the year; false means every scanned cell is a date of another year or missing |
| Statistics.HasAuditMeaning | geocode.py:72-79 | on any row, a check that ends normally finds an audit exactly when the primary date or a scanned cell is a date of the year; no audit means neither is |
| Statistics.ScannedStep | geocode.py:76 | the positions scanned from i are i and those scanned from i+3 |
| Statistics.ScanMeaning | geocode.py:76-79 | on a row whose scanned cells are dates or missing, the scan finds an audit exactly when some position 7+3k below the row length holds a date of the year |
| Statistics.ScanError | geocode.py:76-78 | a failing scan names a scanned position that holds something other than a date |
| Statistics.LaterSlotFound | geocode.py:72-79 | a row with no primary date this year still has an audit when a date of the year sits at a scanned position, e.g. slot 2's date at position 7, and only dates or missing cells come before it; what lies beyond it plays no part |
| Statistics.ScanStopsAtDate | geocode.py:76-79 | the scan succeeds once it reaches a date of the year through dates and missing cells only, whatever the later positions hold |
| Statistics.CountMisses | geocode.py:69-81 | a successful count of rows without an audit is at most the number of rows |
| Statistics.CountMissesMeaning | geocode.py:69-81 | the count fails exactly when some check fails, and otherwise is the number of checks that found no audit |
| Statistics.CountMissesPrefixError | geocode.py:70-81 | an exception on some row aborts the whole count with that exception |
| Statistics.WithoutAuditsRows | geocode.py:69-81 | the count fails exactly when some row's check fails, and otherwise counts exactly the rows whose check finds no audit in the year |
| Statistics.CurrentYearNotCounted | geocode.py:73-74 | a row whose primary date is in the current year is never counted |
| Statistics.HasAuditThisYear | geocode.py:72-79 | the flag loop with its `break` computes the row's check |
| Statistics.CountWithoutAudits | geocode.py:69-81 | the row loop computes the count of rows without an audit this year, or the first row's exception |
| Statistics.StatisticsOf | geocode.py:60-83 | the six statistics or the first exception; stated by CalculateStatistics and StatisticsBounds |
| Statistics.CalculateStatistics | geocode.py:60-83 | the method returns the six statistics or the first exception, in source order |
| Statistics.StatisticsBounds | geocode.py:60-83 | on success the three colour counts together, the stale count and the no-audit count are each at most the row count, and the goal lies in [0, 100] |
| Markers.IconFor | geocode.py:171-192 | the marker is drawn in the status colour. It is a heart exactly for the named restaurant, a star exactly for other gold rows, a circle otherwise |
| Markers.MarkerOf | geocode.py:111-192 | the marker of one row; stated by MarkerShape, IconFor and PlaceMarker |
| Markers.MarkerShape | geocode.py:111-192 | a row's marker has the row's status colour and its audit list, a heart exactly for the named restaurant, and at least one audit entry |
| Markers.InGroup | geocode.py:194-202 | the markers a group receives, in order; never more than the markers, and stated by InGroupMembers, InGroupSnoc and GroupPartition |
| Markers.InGroupMembers | geocode.py:194-202 | a group holds exactly the markers of its colour |
| Markers.InGroupSnoc | geocode.py:194-202 | appending a marker extends the group of its colour by that marker and leaves the other groups as they were |
| Markers.InGroupNext | geocode.py:110-202 | one more row extends only its colour's group, by its marker |
| Markers.GroupPartition | geocode.py:194-202 | the four group sizes add up to the number of markers |
| Markers.OneGroupPerRow | geocode.py:171-202 | a row's marker is in the group of its status colour and in no other; the name plays no part |
| Markers.MissingColumn | geocode.py:111-113 | the map loop fails exactly when there are rows and one of the position, name or status columns is absent |
| Markers.FeatureGroup.constructor | geocode.py:106-109 | a new group has its name and no markers |
| Markers.FeatureGroup.Add | geocode.py:195-202 | adding a marker appends it to the group and changes nothing else |
| Markers.PlaceMarker | geocode.py:111-202 | the loop body builds the row's marker, adds it to the group of its colour and leaves the other groups unchanged |
| Markers.PlaceMarkers | geocode.py:110-202 | after the row loop, each group holds exactly the markers of its colour, in row order |
| Markers.CreateMap | geocode.py:106-202 | four fresh, named groups. On a missing column they stay empty; otherwise each holds exactly the markers of its colour in row order |

## Left out

- File reading and writing (`read_excel_data`, `save_to_excel`, `save_map`), configuration loading, logging and `validate_columns` (whose effect is `exit()`): I/O.
- The map, popup, marker and layer-control construction, and all HTML, CSS and script text are left out: they are rendering through folium. The model keeps what decides it: the marker kind, its colour, its audit list, its header and its group.
- The popup body (geocode.py:152-163) is left out: date formatting with `strftime` and Python truthiness of the fields. The marker keeps the audit entries it is built from.
- `auto_push`: git and network.
- `datetime.now()` is not modelled: the two clock readings are parameters.
- Statistics.GoalPercentage: the quotient is exact; the rounding to one decimal of a float is not modelled.
- Status.LowerChar: lower-casing covers ASCII, Latin-1 and basic Cyrillic capitals (U+0400–U+042F). Other capitals, such as the Cyrillic ones in U+0460–U+04FF, and multi-character lower-case forms are left unchanged. This does not change any colour, since the three colour words use basic Cyrillic only.
- Statistics.StatusOf: only string statuses can count for a colour, as with pandas' `.str` accessor. The AttributeError that accessor raises on a column holding no string at all is not modelled.
- Frame.Instant: a timestamp is its seconds on one clock and its year. Time zones and calendar arithmetic are not modelled.
- Duplicate column names are not modelled: pandas would return several cells where the model takes the first.
- A restaurant name that is not a string is shown through `str()`, as the f-string does.
