/** The markers `create_map` puts on the map and the four feature groups
    that hold them (geocode.py:103-202). A marker is chosen by the row's
    status colour and, for one restaurant, by its name; the group it joins
    is chosen by the colour alone. */
module Markers {
  import opened Frame
  import opened Status
  import opened Audits

  const LatColumn := "Широта"
  const LonColumn := "Долгота"
  const NameColumn := "Название ресторана"
  const StatusColumn := BaseName(Audits.Status)

  /** The restaurant drawn with a heart (geocode.py:171). */
  const Sentinel := "Ульянка Санкт-Петербург"

  /** The kind of marker: a heart icon, a gold star icon, or a circle. */
  datatype Icon = Heart(tint: Color) | Star | Circle(tint: Color)

  /** The colour the marker is drawn in. */
  function IconColor(i: Icon): Color {
    match i
    case Heart(c) => c
    case Star => Gold
    case Circle(c) => c
  }

  /** The marker kind for a restaurant name and status colour
      (geocode.py:171-192): the sentinel restaurant gets a heart, other
      gold restaurants a star, the rest a circle; all in the status colour. */
  function IconFor(name: Cell, color: Color): (i: Icon)
    ensures IconColor(i) == color
    ensures i.Heart? <==> name == Text(Sentinel)
    ensures i.Star? <==> name != Text(Sentinel) && color == Gold
  {
    if name == Text(Sentinel) then Heart(color)
    else if color == Gold then Star
    else Circle(color)
  }

  /** A marker: its position cells, its popup header, the audit entries its
      popup lists, and its kind. */
  datatype Marker = Marker(lat: Cell, lon: Cell, header: string, audits: seq<Audit>, icon: Icon)

  /** The marker of one row (geocode.py:111-192). */
  function MarkerOf(columns: seq<string>, row: seq<Cell>): Marker
    requires |row| == |columns|
  {
    var name := CellAt(columns, row, NameColumn);
    var audits := AuditsOf(columns, row);
    Marker(CellAt(columns, row, LatColumn), CellAt(columns, row, LonColumn),
           Header(Str(name), |audits|), audits,
           IconFor(name, CellColor(CellAt(columns, row, StatusColumn))))
  }

  /** A row's marker has the row's status colour whatever its name, a heart
      exactly for the sentinel restaurant, and the row's audit list, which is
      never empty. */
  lemma MarkerShape(columns: seq<string>, row: seq<Cell>)
    requires |row| == |columns|
    ensures var m := MarkerOf(columns, row);
      && IconColor(m.icon) == CellColor(CellAt(columns, row, StatusColumn))
      && (m.icon.Heart? <==> CellAt(columns, row, NameColumn) == Text(Sentinel))
      && m.audits == AuditsOf(columns, row) && |m.audits| >= 1
  {
    AuditsShape(columns, row);
  }

  /** The markers of the rows, in row order. */
  function MarkersOf(columns: seq<string>, rows: seq<seq<Cell>>): (ms: seq<Marker>)
    requires RowsFit(columns, rows)
    ensures |ms| == |rows| && forall i :: 0 <= i < |rows| ==> ms[i] == MarkerOf(columns, rows[i])
  {
    seq(|rows|, i requires 0 <= i < |rows| => MarkerOf(columns, rows[i]))
  }

  /** The markers of colour c, in their original order. */
  function InGroup(ms: seq<Marker>, c: Color): (g: seq<Marker>)
    ensures |g| <= |ms|
  {
    if ms == [] then []
    else InGroup(ms[..|ms| - 1], c) + if IconColor(ms[|ms| - 1].icon) == c then [ms[|ms| - 1]] else []
  }

  /** A group holds exactly the markers of its colour. */
  lemma {:induction false} InGroupMembers(ms: seq<Marker>, c: Color)
    ensures forall m :: m in InGroup(ms, c) <==> m in ms && IconColor(m.icon) == c
  {
    if ms != [] {
      var init := ms[..|ms| - 1];
      InGroupMembers(init, c);
      assert ms == init + [ms[|ms| - 1]];
    }
  }

  /** The four groups split the markers: their sizes add up to the number
      of markers. */
  lemma {:induction false} GroupPartition(ms: seq<Marker>)
    ensures |InGroup(ms, Gold)| + |InGroup(ms, Green)| + |InGroup(ms, Red)| + |InGroup(ms, Gray)| == |ms|
  {
    if ms != [] {
      GroupPartition(ms[..|ms| - 1]);
    }
  }

  /** Each row's marker is in the group of its status colour and in no other
      one; the restaurant's name plays no part in the choice. */
  lemma OneGroupPerRow(columns: seq<string>, rows: seq<seq<Cell>>, i: nat, c: Color)
    requires RowsFit(columns, rows) && i < |rows|
    ensures MarkerOf(columns, rows[i]) in InGroup(MarkersOf(columns, rows), c)
      <==> c == CellColor(CellAt(columns, rows[i], StatusColumn))
  {
    MarkerShape(columns, rows[i]);
    InGroupMembers(MarkersOf(columns, rows), c);
  }

  /** The first column the loop asks a row for and the table lacks: pandas
      raises a KeyError on the first row, so only a table with rows fails
      (geocode.py:111-113). */
  function MissingColumn(t: Table): (r: Option<string>)
    ensures r.None? <==> |t.rows| == 0 || forall n :: n in [LatColumn, LonColumn, NameColumn, StatusColumn] ==> n in t.columns
    ensures r.Some? ==> r.value !in t.columns
  {
    if |t.rows| == 0 then None
    else if LatColumn !in t.columns then Some(LatColumn)
    else if LonColumn !in t.columns then Some(LonColumn)
    else if NameColumn !in t.columns then Some(NameColumn)
    else if StatusColumn !in t.columns then Some(StatusColumn)
    else None
  }

  /** `folium.FeatureGroup`: a named layer and the markers added to it. */
  class FeatureGroup {
    const name: string
    var markers: seq<Marker>

    constructor (name: string)
      ensures this.name == name && markers == []
    {
      this.name := name;
      markers := [];
    }

    /** `marker.add_to(group)` */
    method Add(m: Marker)
      modifies this
      ensures markers == old(markers) + [m]
    {
      markers := markers + [m];
    }
  }

  /** The marker loop of `create_map` (geocode.py:106-202): one marker per
      row, added to the group of its colour. */
  method CreateMap(t: Table) returns (missing: Option<string>, golden: FeatureGroup, green: FeatureGroup,
                                       red: FeatureGroup, gray: FeatureGroup)
    requires RowsFit(t.columns, t.rows)
    ensures fresh(golden) && fresh(green) && fresh(red) && fresh(gray)
    ensures golden.name == "Золотые аудиты" && green.name == "Зеленые аудиты"
    ensures red.name == "Красные аудиты" && gray.name == "Серые аудиты"
    ensures missing == MissingColumn(t)
    ensures missing.Some? ==> golden.markers == green.markers == red.markers == gray.markers == []
    ensures missing.None? ==>
      var ms := MarkersOf(t.columns, t.rows);
      && golden.markers == InGroup(ms, Gold) && green.markers == InGroup(ms, Green)
      && red.markers == InGroup(ms, Red) && gray.markers == InGroup(ms, Gray)
  {
    golden := new FeatureGroup("Золотые аудиты");
    green := new FeatureGroup("Зеленые аудиты");
    red := new FeatureGroup("Красные аудиты");
    gray := new FeatureGroup("Серые аудиты");
    missing := MissingColumn(t);
    if missing.Some? {
      return;
    }
    PlaceMarkers(t.columns, t.rows, golden, green, red, gray);
  }

  /** The row loop of `create_map` (geocode.py:110-202) over four empty
      groups: afterwards each group holds the markers of its colour in row
      order. */
  method PlaceMarkers(columns: seq<string>, rows: seq<seq<Cell>>, golden: FeatureGroup, green: FeatureGroup,
                      red: FeatureGroup, gray: FeatureGroup)
    requires RowsFit(columns, rows)
    requires golden != green && golden != red && golden != gray && green != red && green != gray && red != gray
    requires golden.markers == green.markers == red.markers == gray.markers == []
    modifies golden, green, red, gray
    ensures var ms := MarkersOf(columns, rows);
      && golden.markers == InGroup(ms, Gold) && green.markers == InGroup(ms, Green)
      && red.markers == InGroup(ms, Red) && gray.markers == InGroup(ms, Gray)
  {
    ghost var ms := MarkersOf(columns, rows);
    var i := 0;
    while i < |rows|
      invariant i <= |rows|
      invariant golden.markers == InGroup(ms[..i], Gold) && green.markers == InGroup(ms[..i], Green)
      invariant red.markers == InGroup(ms[..i], Red) && gray.markers == InGroup(ms[..i], Gray)
    {
      InGroupNext(ms, i, Gold);
      InGroupNext(ms, i, Green);
      InGroupNext(ms, i, Red);
      InGroupNext(ms, i, Gray);
      var m := PlaceMarker(columns, rows[i], golden, green, red, gray);
      assert m == ms[i];
      i := i + 1;
    }
    assert ms[..i] == ms;
  }

  /** The body of the row loop (geocode.py:111-202): build the row's marker
      and add it to the group of its colour. */
  method PlaceMarker(columns: seq<string>, row: seq<Cell>, golden: FeatureGroup, green: FeatureGroup,
                     red: FeatureGroup, gray: FeatureGroup) returns (m: Marker)
    requires |row| == |columns|
    requires golden != green && golden != red && golden != gray && green != red && green != gray && red != gray
    modifies golden, green, red, gray
    ensures m == MarkerOf(columns, row)
    ensures && golden.markers == old(golden.markers) + (if IconColor(m.icon) == Gold then [m] else [])
      && green.markers == old(green.markers) + (if IconColor(m.icon) == Green then [m] else [])
      && red.markers == old(red.markers) + (if IconColor(m.icon) == Red then [m] else [])
      && gray.markers == old(gray.markers) + (if IconColor(m.icon) == Gray then [m] else [])
  {
    var name := CellAt(columns, row, NameColumn);
    var color := CellColor(CellAt(columns, row, StatusColumn));
    var audits := CollectAudits(columns, row);
    var popup := Retitle(PlainTitle(Str(name)), Str(name), |audits|);
    RetitleIsHeader(Str(name), "", |audits|);
    assert PlainTitle(Str(name)) + "" == PlainTitle(Str(name));
    m := Marker(CellAt(columns, row, LatColumn), CellAt(columns, row, LonColumn),
                popup, audits, IconFor(name, color));
    if color == Green {
      green.Add(m);
    } else if color == Red {
      red.Add(m);
    } else if color == Gold {
      golden.Add(m);
    } else {
      gray.Add(m);
    }
  }

  /** Taking one more marker extends only its colour's group. */
  lemma InGroupNext(ms: seq<Marker>, i: nat, c: Color)
    requires i < |ms|
    ensures InGroup(ms[..i + 1], c) == InGroup(ms[..i], c) + if IconColor(ms[i].icon) == c then [ms[i]] else []
  {
    assert ms[..i + 1] == ms[..i] + [ms[i]];
    InGroupSnoc(ms[..i], ms[i], c);
  }

  /** Appending a marker extends only its colour's group. */
  lemma InGroupSnoc(ms: seq<Marker>, m: Marker, c: Color)
    ensures InGroup(ms + [m], c) == InGroup(ms, c) + if IconColor(m.icon) == c then [m] else []
  {
    assert (ms + [m])[..|ms|] == ms;
  }
}
