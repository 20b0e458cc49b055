/** The status classifier `get_color` (geocode.py:48-57): a free-text audit
    status is trimmed, lower-cased and compared with three Russian colour words. */
module Status {
  import opened Frame

  /** The four colours `get_color` can return. */
  datatype Color = Green | Red | Gold | Gray {
    /** The colour's name as the Python code returns it. */
    function Name(): string {
      match this
      case Green => "green"
      case Red => "red"
      case Gold => "gold"
      case Gray => "gray"
    }
  }

  const GreenWord := "зеленый"
  const RedWord := "красный"
  const GoldWord := "золотой"

  /** The characters Python's `str.isspace` accepts, which `str.strip` removes. */
  predicate IsSpace(c: char) {
    var n := c as int;
    n == 0x20 || 0x09 <= n <= 0x0D || 0x1C <= n <= 0x1F || n == 0x85 || n == 0xA0
    || n == 0x1680 || 0x2000 <= n <= 0x200A || n == 0x2028 || n == 0x2029
    || n == 0x202F || n == 0x205F || n == 0x3000
  }

  predicate AllSpace(s: string) {
    forall i :: 0 <= i < |s| ==> IsSpace(s[i])
  }

  /** `str.lower` on one character, for the ASCII, Latin-1 and basic Cyrillic
      (U+0400-U+042F) capitals; any other character is kept. */
  function LowerChar(c: char): (l: char)
    ensures IsSpace(l) == IsSpace(c)
  {
    if 'A' <= c <= 'Z' || ('À' <= c <= 'Þ' && c != '×') || 'А' <= c <= 'Я' then
      (c as int + 0x20) as char
    else if 'Ѐ' <= c <= 'Џ' then
      (c as int + 0x50) as char
    else c
  }

  /** `str.lower` on a string. */
  function Lower(s: string): string {
    seq(|s|, i requires 0 <= i < |s| => LowerChar(s[i]))
  }

  /** `str.lstrip()`: drops the leading whitespace. */
  function TrimStart(s: string): string {
    if s != [] && IsSpace(s[0]) then TrimStart(s[1..]) else s
  }

  /** `str.rstrip()`: drops the trailing whitespace. */
  function TrimEnd(s: string): string {
    if s != [] && IsSpace(s[|s| - 1]) then TrimEnd(s[..|s| - 1]) else s
  }

  /** TrimStart leaves a suffix that does not start with whitespace, and all
      it drops is whitespace. */
  lemma {:induction false} TrimStartShape(s: string)
    ensures |TrimStart(s)| <= |s| && TrimStart(s) == s[|s| - |TrimStart(s)|..]
    ensures AllSpace(s[..|s| - |TrimStart(s)|])
    ensures TrimStart(s) == [] || !IsSpace(TrimStart(s)[0])
  {
    if s != [] && IsSpace(s[0]) {
      var r := TrimStart(s[1..]);
      TrimStartShape(s[1..]);
      assert s[..|s| - |r|] == [s[0]] + s[1..][..|s| - 1 - |r|];
    }
  }

  /** TrimEnd leaves a prefix that does not end with whitespace, and all it
      drops is whitespace. */
  lemma {:induction false} TrimEndShape(s: string)
    ensures |TrimEnd(s)| <= |s| && TrimEnd(s) == s[..|TrimEnd(s)|]
    ensures AllSpace(s[|TrimEnd(s)|..])
    ensures TrimEnd(s) == [] || !IsSpace(TrimEnd(s)[|TrimEnd(s)| - 1])
  {
    if s != [] && IsSpace(s[|s| - 1]) {
      var r := TrimEnd(s[..|s| - 1]);
      TrimEndShape(s[..|s| - 1]);
      assert s[|r|..] == s[..|s| - 1][|r|..] + [s[|s| - 1]];
    }
  }

  /** `str.strip()` */
  function Strip(s: string): string {
    TrimEnd(TrimStart(s))
  }

  /** `str(status).strip().lower()`, the text every comparison looks at. */
  function Normalize(s: string): string {
    Lower(Strip(s))
  }

  /** geocode.py:48-57 */
  function GetColor(status: string): Color {
    var s := Normalize(status);
    if s == GreenWord then Green
    else if s == RedWord then Red
    else if s == GoldWord then Gold
    else Gray
  }

  /** The word that selects a colour; Gray has none. */
  function Word(c: Color): string
    requires c != Gray
  {
    match c
    case Green => GreenWord
    case Red => RedWord
    case Gold => GoldWord
  }

  /** The colour of a status cell in the map loop (geocode.py:113): a missing
      cell is replaced by "Нет данных", any other value goes through str(). */
  function CellColor(status: Cell): Color {
    GetColor(if status.Missing? then "Нет данных" else Str(status))
  }

  /** A row without a status is drawn gray: its stand-in text is no colour
      word. */
  lemma MissingStatusGray()
    ensures CellColor(Missing) == Gray
  {
    var s := "Нет данных";
    StripAt(s, 0, |s|);
    assert |Normalize(s)| == 10;
  }

  /** A non-gray colour comes from exactly its own word after normalisation,
      and each word gives its colour back. */
  lemma ColorWords(status: string)
    ensures GetColor(status) != Gray <==> Normalize(status) in {GreenWord, RedWord, GoldWord}
    ensures GetColor(status) != Gray ==> Normalize(status) == Word(GetColor(status))
    ensures forall c :: c != Gray ==> GetColor(Word(c)) == c
  {
    forall c | c != Gray ensures GetColor(Word(c)) == c {
      WordColor(c);
    }
  }

  /** Each colour word, as it stands, selects its colour. */
  lemma WordColor(c: Color)
    requires c != Gray
    ensures GetColor(Word(c)) == c
  {
    var w := Word(c);
    StripAt(w, 0, |w|);
    LowerLowered(w);
    assert Normalize(w) == w;
  }

  /** A string lowers to itself when no character changes under LowerChar. */
  lemma LowerLowered(s: string)
    requires forall i :: 0 <= i < |s| ==> LowerChar(s[i]) == s[i]
    ensures Lower(s) == s
  {
  }

  /** The leading whitespace is exactly what precedes the first non-space
      character, so any such split point gives TrimStart's result. */
  lemma {:induction false} TrimStartAt(s: string, k: nat)
    requires k <= |s| && AllSpace(s[..k]) && (k == |s| || !IsSpace(s[k]))
    ensures TrimStart(s) == s[k..]
  {
    if k > 0 {
      assert s[..k][0] == s[0];
      assert s[1..][..k - 1] == s[..k][1..];
      TrimStartAt(s[1..], k - 1);
      assert s[1..][k - 1..] == s[k..];
    }
  }

  /** The same for the trailing whitespace and TrimEnd. */
  lemma {:induction false} TrimEndAt(s: string, k: nat)
    requires k <= |s| && AllSpace(s[k..]) && (k == 0 || !IsSpace(s[k - 1]))
    ensures TrimEnd(s) == s[..k]
  {
    if k < |s| {
      var t := s[..|s| - 1];
      assert s[k..][|s| - 1 - k] == s[|s| - 1];
      assert t[k..] == s[k..][..|s| - 1 - k];
      TrimEndAt(t, k);
      assert t[..k] == s[..k];
    }
  }

  /** Strip keeps exactly the slice between leading and trailing whitespace. */
  lemma StripAt(s: string, i: nat, j: nat)
    requires i <= j <= |s| && AllSpace(s[..i]) && AllSpace(s[j..])
    requires i == j || (!IsSpace(s[i]) && !IsSpace(s[j - 1]))
    ensures Strip(s) == s[i..j]
  {
    if i == j {
      assert AllSpace(s) by {
        forall k | 0 <= k < |s| ensures IsSpace(s[k]) {
          if k < i { assert s[..i][k] == s[k]; } else { assert s[j..][k - j] == s[k]; }
        }
      }
      StripBlank(s);
    } else {
      StripInner(s, i, j);
    }
  }

  lemma StripInner(s: string, i: nat, j: nat)
    requires i < j <= |s| && AllSpace(s[..i]) && AllSpace(s[j..])
    requires !IsSpace(s[i]) && !IsSpace(s[j - 1])
    ensures Strip(s) == s[i..j]
  {
    TrimStartAt(s, i);
    var t := s[i..];
    assert t[j - i..] == s[j..];
    assert t[j - i - 1] == s[j - 1];
    TrimEndAt(t, j - i);
    assert t[..j - i] == s[i..j];
  }

  /** A string of whitespace strips to nothing. */
  lemma StripBlank(s: string)
    requires AllSpace(s)
    ensures Strip(s) == []
  {
    assert s[..|s|] == s;
    TrimStartAt(s, |s|);
  }

  /** Lower-casing and stripping commute, since lower-casing keeps a
      character's whitespace-ness. */
  lemma StripLowerCommute(s: string)
    ensures Strip(Lower(s)) == Lower(Strip(s))
  {
    var t := TrimStart(s);
    TrimStartShape(s);
    var i := |s| - |t|;
    var u := TrimEnd(t);
    TrimEndShape(t);
    var j := i + |u|;
    var l := Lower(s);
    assert s[i..j] == u;
    assert AllSpace(l[..i]) by {
      forall k | 0 <= k < i ensures IsSpace(l[..i][k]) { assert s[..i][k] == s[k]; }
    }
    assert AllSpace(l[j..]) by {
      forall k | 0 <= k < |s| - j ensures IsSpace(l[j..][k]) { assert t[|u|..][k] == s[j + k]; }
    }
    if i < j {
      assert u[0] == s[i] && u[|u| - 1] == s[j - 1];
    }
    StripAt(l, i, j);
    assert l[i..j] == Lower(u);
  }

  /** The classifier ignores case: two statuses that lower-case alike get the
      same colour. */
  lemma CaseInsensitive(a: string, b: string)
    requires Lower(a) == Lower(b)
    ensures GetColor(a) == GetColor(b)
  {
    StripLowerCommute(a);
    StripLowerCommute(b);
  }

  /** The classifier ignores surrounding whitespace. */
  lemma PaddingIgnored(p: string, s: string, q: string)
    requires AllSpace(p) && AllSpace(q)
    ensures Normalize(p + s + q) == Normalize(s)
    ensures GetColor(p + s + q) == GetColor(s)
  {
    StripPadding(p, s, q);
  }

  /** Whitespace added around a string is stripped off again. */
  lemma StripPadding(p: string, s: string, q: string)
    requires AllSpace(p) && AllSpace(q)
    ensures Strip(p + s + q) == Strip(s)
  {
    assert p + s + q == p + (s + q);
    TrimStartSkips(p, s + q);
    if TrimStart(s) == [] {
      TrimStartShape(s);
      assert s[..|s|] == s;
      AllSpaceConcat(s, q);
      StripBlank(s + q);
    } else {
      TrimStartKeeps(s, q);
      TrimEndSkips(TrimStart(s), q);
    }
  }

  lemma {:induction false} TrimStartSkips(p: string, x: string)
    requires AllSpace(p)
    ensures TrimStart(p + x) == TrimStart(x)
  {
    if p != [] {
      assert (p + x)[0] == p[0];
      assert (p + x)[1..] == p[1..] + x;
      TrimStartSkips(p[1..], x);
    } else {
      assert p + x == x;
    }
  }

  lemma {:induction false} TrimStartKeeps(s: string, q: string)
    requires TrimStart(s) != []
    ensures TrimStart(s + q) == TrimStart(s) + q
  {
    assert (s + q)[0] == s[0];
    if IsSpace(s[0]) {
      assert (s + q)[1..] == s[1..] + q;
      TrimStartKeeps(s[1..], q);
    }
  }

  lemma {:induction false} TrimEndSkips(x: string, q: string)
    requires AllSpace(q)
    ensures TrimEnd(x + q) == TrimEnd(x)
  {
    if q != [] {
      var w := x + q;
      assert w[|w| - 1] == q[|q| - 1];
      assert w[..|w| - 1] == x + q[..|q| - 1];
      TrimEndSkips(x, q[..|q| - 1]);
    } else {
      assert x + q == x;
    }
  }

  lemma AllSpaceConcat(a: string, b: string)
    requires AllSpace(a) && AllSpace(b)
    ensures AllSpace(a + b)
  {
    assert forall k :: 0 <= k < |a + b| ==> (a + b)[k] == if k < |a| then a[k] else b[k - |a|];
  }

  /** Normalising twice changes nothing more, so a status already in
      normal form keeps its colour. */
  lemma NormalizeIdempotent(s: string)
    ensures Normalize(Normalize(s)) == Normalize(s)
    ensures GetColor(Normalize(s)) == GetColor(s)
  {
    var u := Strip(s);
    var t := TrimStart(s);
    TrimStartShape(s);
    TrimEndShape(t);
    assert Strip(u) == u by {
      if u == [] { StripAt(u, 0, 0); }
      else {
        assert u[0] == t[0];
        StripAt(u, 0, |u|);
      }
    }
    StripLowerCommute(u);
    assert Lower(Lower(u)) == Lower(u) by {
      forall k | 0 <= k < |u| ensures LowerChar(LowerChar(u[k])) == LowerChar(u[k]) { }
    }
  }

  /** A status whose lower-cased form is a colour word has that colour,
      whatever the case it was written in. */
  lemma AnyCaseOfWord(c: Color, s: string)
    requires c != Gray && Lower(s) == Word(c)
    ensures GetColor(s) == c
  {
    ColorWords(Word(c));
    CaseInsensitive(s, Word(c));
    assert Lower(Word(c)) == Word(c) by { LowerLowered(Word(c)); }
  }

  /** The green word as it appears in the spreadsheet, in any case and with
      surrounding blanks, classifies alike. */
  lemma GreenSpellings()
    ensures GetColor("Зеленый") == Green
    ensures GetColor(" ЗЕЛЕНЫЙ ") == Green
    ensures GetColor("зеленый") == Green
  {
  }
}
