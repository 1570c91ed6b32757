/** The product-page extraction steps of index.js (lines 14-86). Every DOM read is an input:
    an element is the data its selector callbacks read (`textContent`, `innerHTML`,
    `style.backgroundImage`), and a missing element is `None`. */
module ProductExtract {
  import opened Outcomes
  import opened Strings
  import opened PosixPath

  /** The TypeErrors these steps raise inside the page, by where they arise. */
  datatype ScrapeError =
    | NoStyleUrl(image: nat)            // index.js:69: `match` gave null, `[1]` throws
    | NoHeader(table: nat)              // index.js:28: no `thead th`, `.textContent` throws
    | MissingCell(table: nat, row: nat) // index.js:34-35: `cells[0]` or `cells[1]` is undefined
    | NoTitle(addon: nat)               // index.js:51: no `.title`, `.textContent` throws

  // ---------------------------------------------------------------------------
  // Background-image URL (index.js:69): the first capture of /url\("([^"]+)"/

  const UrlOpen: string := "url(\""

  /** The pattern matches at `p` with capture `x`: `url("`, then the non-empty quote-free
      `x`, then a `"`. No closing `)` is part of the pattern. */
  predicate MatchesAt(s: string, p: int, x: string) {
    && 0 <= p && p + 5 + |x| < |s|
    && s[p..p + 5] == UrlOpen
    && x != [] && s[p + 5..p + 5 + |x|] == x && '"' !in x
    && s[p + 5 + |x|] == '"'
  }

  /** No match starts before `p`. */
  ghost predicate NoMatchBefore(s: string, p: int) {
    forall q, y :: 0 <= q < p ==> !MatchesAt(s, q, y)
  }

  /** The attempt at position `p`: after `url("`, the run of non-quote characters, which
      the greedy `[^"]+` takes whole and which must end at a `"`. */
  function CaptureAt(s: string, p: nat): Option<string> {
    if p + 5 <= |s| && s[p..p + 5] == UrlOpen then
      var run := Split(s[p + 5..], '"')[0];
      if run != [] && |run| < |s| - p - 5 then Some(run) else None
    else None
  }

  lemma CaptureAtMatches(s: string, p: nat, x: string)
    ensures CaptureAt(s, p) == Some(x) <==> MatchesAt(s, p, x)
  {
    if p + 5 <= |s| && s[p..p + 5] == UrlOpen {
      var rest := s[p + 5..];
      var run := Split(rest, '"')[0];
      SplitSpec(rest, '"');
      assert '"' !in run && run == rest[..|run|];
      if MatchesAt(s, p, x) {
        assert rest[..|x|] == x && rest[|x|] == '"';
        assert run == x;
      }
      if CaptureAt(s, p) == Some(x) {
        assert s[p + 5..p + 5 + |x|] == rest[..|x|];
      }
    }
  }

  /** The regex search from position `p` onwards, leftmost attempt first. */
  function ScanUrl(s: string, p: nat): Option<string>
    decreases |s| - p
  {
    if p + 5 > |s| then None
    else match CaptureAt(s, p)
      case Some(x) => Some(x)
      case None => ScanUrl(s, p + 1)
  }

  lemma {:induction false} ScanUrlSpec(s: string, p: nat, x: string)
    ensures ScanUrl(s, p) == Some(x) <==>
            exists m :: p <= m && MatchesAt(s, m, x) && forall q, y :: p <= q < m ==> !MatchesAt(s, q, y)
    ensures ScanUrl(s, p) == None <==> forall q, y :: p <= q ==> !MatchesAt(s, q, y)
    decreases |s| - p
  {
    if p + 5 > |s| {
      assert forall q, y :: p <= q ==> !MatchesAt(s, q, y);
    } else {
      forall y { CaptureAtMatches(s, p, y); }
      if CaptureAt(s, p).None? {
        ScanUrlSpec(s, p + 1, x);
        assert forall y :: !MatchesAt(s, p, y);
        if ScanUrl(s, p) == Some(x) {
          var m :| p + 1 <= m && MatchesAt(s, m, x) && forall q, y :: p + 1 <= q < m ==> !MatchesAt(s, q, y);
          assert p <= m && forall q, y :: p <= q < m ==> !MatchesAt(s, q, y);
        }
        if exists m :: p <= m && MatchesAt(s, m, x) && forall q, y :: p <= q < m ==> !MatchesAt(s, q, y) {
          var m :| p <= m && MatchesAt(s, m, x) && forall q, y :: p <= q < m ==> !MatchesAt(s, q, y);
          assert m != p;
          assert p + 1 <= m && forall q, y :: p + 1 <= q < m ==> !MatchesAt(s, q, y);
        }
      } else {
        var c := CaptureAt(s, p).value;
        assert MatchesAt(s, p, c);
        if exists m :: p <= m && MatchesAt(s, m, x) && forall q, y :: p <= q < m ==> !MatchesAt(s, q, y) {
          var m :| p <= m && MatchesAt(s, m, x) && forall q, y :: p <= q < m ==> !MatchesAt(s, q, y);
          assert m == p;
        }
      }
    }
  }

  /** `style.backgroundImage.match(/url\("([^"]+)"/)[1]`, or None where `match` gives null. */
  function BackgroundUrl(style: string): (r: Option<string>)
    ensures r.Some? ==> r.value != [] && '"' !in r.value
  {
    var r := ScanUrl(style, 0);
    assert r.Some? ==> r.value != [] && '"' !in r.value by {
      if r.Some? { ScanUrlSpec(style, 0, r.value); }
    }
    r
  }

  /** The URL found is the capture of the leftmost match, and it is found whenever there
      is one. */
  lemma BackgroundUrlSpec(style: string, x: string)
    ensures BackgroundUrl(style) == Some(x) <==> exists p :: MatchesAt(style, p, x) && NoMatchBefore(style, p)
  {
    ScanUrlSpec(style, 0, x);
  }

  /** There is no URL exactly when the pattern matches nowhere. */
  lemma BackgroundUrlNone(style: string)
    ensures BackgroundUrl(style) == None <==> forall p, y :: !MatchesAt(style, p, y)
  {
    ScanUrlSpec(style, 0, "");
  }

  /** `url("a.png")` gives exactly `a.png`. */
  lemma BackgroundUrlExample()
    ensures BackgroundUrl(ExampleStyle) == Some("a.png")
  {
    var s := ExampleStyle;
    assert MatchesAt(s, 0, "a.png");
    BackgroundUrlSpec(s, "a.png");
  }

  const ExampleStyle: string := "url(\"a.png\")"

  /** The closing `)` is not needed, but the closing `"` is: `url("a.png"` gives `a.png`,
      and `url("a.png` gives nothing. */
  lemma BackgroundUrlUnclosed()
    ensures BackgroundUrl("url(\"a.png\"") == Some("a.png")
    ensures BackgroundUrl("url(\"a.png") == None
  {
    var s := "url(\"a.png\"";
    assert MatchesAt(s, 0, "a.png");
    BackgroundUrlSpec(s, "a.png");
  }

  // ---------------------------------------------------------------------------
  // Table values (index.js:35): innerHTML with every `<br>` made a newline, then trimmed

  const Br: string := "<br>"

  ghost predicate HasBr(s: string) {
    exists i :: OccursAt(s, Br, i)
  }

  /** `s.replace(/<br>/g, '\n')`: leftmost-first, non-overlapping. */
  function ReplaceBr(s: string): string {
    if s == [] then []
    else if StartsWith(s, Br) then "\n" + ReplaceBr(s[4..])
    else [s[0]] + ReplaceBr(s[1..])
  }

  /** What the replacement begins with, the input began with, for any text free of `<`
      and of newlines. */
  lemma {:induction false} ReplaceBrPrefix(s: string, w: string)
    requires '<' !in w && '\n' !in w
    requires StartsWith(ReplaceBr(s), w)
    ensures StartsWith(s, w)
    decreases |s|
  {
    if w != [] {
      var out := ReplaceBr(s);
      assert out[0] == w[0];
      if !StartsWith(s, Br) {
        var r := ReplaceBr(s[1..]);
        assert out == [s[0]] + r;
        assert StartsWith(r, w[1..]) by { assert out[1..|w|] == r[..|w| - 1]; }
        ReplaceBrPrefix(s[1..], w[1..]);
        assert s[..|w|] == [s[0]] + s[1..][..|w| - 1];
      }
    }
  }

  /** No `<br>` survives the replacement. */
  lemma {:induction false} ReplaceBrRemovesAll(s: string)
    ensures !HasBr(ReplaceBr(s))
    decreases |s|
  {
    if s != [] {
      if StartsWith(s, Br) {
        ReplaceBrRemovesAll(s[4..]);
        NoBrCons('\n', ReplaceBr(s[4..]));
      } else {
        ReplaceBrRemovesAll(s[1..]);
        assert s[0] == '<' ==> !StartsWith(ReplaceBr(s[1..]), "br>") by {
          if s[0] == '<' && StartsWith(ReplaceBr(s[1..]), "br>") {
            ReplaceBrPrefix(s[1..], "br>");
          }
        }
        NoBrCons(s[0], ReplaceBr(s[1..]));
      }
    }
  }

  /** Putting one character in front creates a `<br>` only from `<` and a following `br>`. */
  lemma NoBrCons(c: char, t: string)
    requires !HasBr(t)
    requires c == '<' ==> !StartsWith(t, "br>")
    ensures !HasBr([c] + t)
  {
    var u := [c] + t;
    forall i | 0 <= i ensures !OccursAt(u, Br, i) {
      if i > 0 && i + 4 <= |u| {
        assert u[i..i + 4] == t[i - 1..i + 3];
        assert !OccursAt(t, Br, i - 1);
      }
      if i == 0 && 4 <= |u| {
        assert u[..4][1..] == t[..3];
        assert u[..4][0] == c;
        assert Br[0] == '<' && Br[1..] == "br>";
      }
    }
  }

  /** Text without `<br>` passes through unchanged (so `<br/>` and `<BR>` are kept). */
  lemma {:induction false} ReplaceBrIdentity(s: string)
    requires !HasBr(s)
    ensures ReplaceBr(s) == s
    decreases |s|
  {
    if s != [] {
      assert !OccursAt(s, Br, 0);
      NoBrSlice(s, 1, |s|);
      assert s[1..|s|] == s[1..];
      ReplaceBrIdentity(s[1..]);
    }
  }

  /** A piece of a `<br>`-free text is `<br>`-free. */
  lemma NoBrSlice(s: string, i: int, j: int)
    requires 0 <= i <= j <= |s| && !HasBr(s)
    ensures !HasBr(s[i..j])
  {
    forall k | 0 <= k ensures !OccursAt(s[i..j], Br, k) {
      if k + 4 <= j - i {
        SliceSlice(s, i, j, k, k + 4);
        assert !OccursAt(s, Br, i + k);
      }
    }
  }

  /** The value stored for a table cell. */
  function CleanValue(html: string): string {
    Trim(ReplaceBr(html))
  }

  /** A stored value has no whitespace at either end and no `<br>` in it. */
  lemma CleanValueClean(html: string)
    ensures Trimmed(CleanValue(html)) && !HasBr(CleanValue(html))
  {
    var t := ReplaceBr(html);
    var r := Trim(t);
    ReplaceBrRemovesAll(html);
    TrimSpec(t);
    var i :| StripsAt(t, r, i);
    NoBrSlice(t, i, i + |r|);
  }


  // ---------------------------------------------------------------------------
  // scrapeTable (index.js:22-42)

  /** A `th` or `td` of a body row: its `textContent` and its `innerHTML`. */
  datatype Cell = Cell(text: string, html: string)

  /** A `.sp-wrap table`: the `textContent` of its first `thead th`, if there is one, and
      the `th, td` cells of each `tbody tr`. */
  datatype TableElement = TableElement(header: Option<string>, rows: seq<seq<Cell>>)

  type Entries = map<string, string>
  type TableData = map<string, Entries>

  function KeyOf(row: seq<Cell>): string
    requires |row| >= 1
  {
    Trim(row[0].text)
  }

  function ValueOf(row: seq<Cell>): string
    requires |row| >= 2
  {
    CleanValue(row[1].html)
  }

  function CategoryOf(table: TableElement): string
    requires table.header.Some?
  {
    Trim(table.header.value)
  }

  /** The rows of table `t` folded into one entry map, later rows overwriting earlier ones;
      a row with fewer than two cells throws. */
  function RowsData(t: nat, rows: seq<seq<Cell>>): Result<Entries, ScrapeError> {
    if rows == [] then Ok(map[])
    else
      match RowsData(t, rows[..|rows| - 1])
      case Err(e) => Err(e)
      case Ok(m) =>
        var row := rows[|rows| - 1];
        if |row| < 2 then Err(MissingCell(t, |rows| - 1)) else Ok(m[KeyOf(row) := ValueOf(row)])
  }

  /** The whole evaluation: each table puts a fresh map under its category, so a later
      table of the same category replaces an earlier one; any throw loses everything. */
  function TablesData(tables: seq<TableElement>): Result<TableData, ScrapeError> {
    if tables == [] then Ok(map[])
    else
      match TablesData(tables[..|tables| - 1])
      case Err(e) => Err(e)
      case Ok(data) =>
        var t := |tables| - 1;
        var table := tables[t];
        if table.header.None? then Err(NoHeader(t))
        else
          match RowsData(t, table.rows)
          case Err(e) => Err(e)
          case Ok(entries) => Ok(data[CategoryOf(table) := entries])
  }

  /** Table `t` is well formed: it has a header and every row has two cells. */
  predicate TableOk(table: TableElement) {
    table.header.Some? && forall j :: 0 <= j < |table.rows| ==> |table.rows[j]| >= 2
  }

  lemma {:induction false} RowsDataOk(t: nat, rows: seq<seq<Cell>>)
    ensures RowsData(t, rows).Ok? <==> forall j :: 0 <= j < |rows| ==> |rows[j]| >= 2
    decreases |rows|
  {
    if rows != [] {
      RowsDataOk(t, rows[..|rows| - 1]);
    }
  }

  /** The evaluation throws exactly when some table lacks a header or some row lacks a
      second cell. */
  lemma {:induction false} TablesDataOk(tables: seq<TableElement>)
    ensures TablesData(tables).Ok? <==> forall i :: 0 <= i < |tables| ==> TableOk(tables[i])
    decreases |tables|
  {
    if tables != [] {
      var t := |tables| - 1;
      var init := tables[..t];
      TablesDataOk(init);
      RowsDataOk(t, tables[t].rows);
      assert forall i :: 0 <= i < t ==> init[i] == tables[i];
    }
  }

  /** Row `j` is the last row with its key. */
  predicate LastRowWithKey(rows: seq<seq<Cell>>, j: int)
    requires 0 <= j < |rows| && |rows[j]| >= 2
  {
    forall i :: j < i < |rows| && |rows[i]| >= 2 ==> KeyOf(rows[i]) != KeyOf(rows[j])
  }

  /** Within a table, the keys are exactly those of the rows. */
  lemma {:induction false} RowsKeys(t: nat, rows: seq<seq<Cell>>, m: Entries)
    requires RowsData(t, rows) == Ok(m)
    ensures forall k :: k in m <==> exists j :: 0 <= j < |rows| && |rows[j]| >= 2 && KeyOf(rows[j]) == k
    decreases |rows|
  {
    if rows != [] {
      var n := |rows| - 1;
      var init := rows[..n];
      var m0 := RowsData(t, init).value;
      RowsKeys(t, init, m0);
      assert m == m0[KeyOf(rows[n]) := ValueOf(rows[n])];
      forall k ensures k in m <==> exists j :: 0 <= j < |rows| && |rows[j]| >= 2 && KeyOf(rows[j]) == k {
        if k in m0 {
          var j :| 0 <= j < |init| && |init[j]| >= 2 && KeyOf(init[j]) == k;
          assert rows[j] == init[j];
        }
        if exists j :: 0 <= j < |rows| && |rows[j]| >= 2 && KeyOf(rows[j]) == k {
          var j :| 0 <= j < |rows| && |rows[j]| >= 2 && KeyOf(rows[j]) == k;
          if j < n { assert rows[j] == init[j]; }
        }
      }
    }
  }

  /** Within a table, each key holds the value of the last row that has it. */
  lemma {:induction false} RowsLastWins(t: nat, rows: seq<seq<Cell>>, m: Entries)
    requires RowsData(t, rows) == Ok(m)
    ensures forall j :: 0 <= j < |rows| && |rows[j]| >= 2 && LastRowWithKey(rows, j) ==>
              KeyOf(rows[j]) in m && m[KeyOf(rows[j])] == ValueOf(rows[j])
    decreases |rows|
  {
    if rows != [] {
      var n := |rows| - 1;
      var init := rows[..n];
      var m0 := RowsData(t, init).value;
      RowsLastWins(t, init, m0);
      assert m == m0[KeyOf(rows[n]) := ValueOf(rows[n])];
      forall j | 0 <= j < |rows| && |rows[j]| >= 2 && LastRowWithKey(rows, j)
        ensures KeyOf(rows[j]) in m && m[KeyOf(rows[j])] == ValueOf(rows[j])
      {
        if j < n {
          LastRowOfPrefix(rows, j);
        }
      }
    }
  }

  /** A row that is last with its key stays so in the prefix without the final row, whose
      key differs from it. */
  lemma LastRowOfPrefix(rows: seq<seq<Cell>>, j: int)
    requires 0 <= j < |rows| - 1 && |rows[j]| >= 2 && LastRowWithKey(rows, j)
    ensures rows[..|rows| - 1][j] == rows[j]
    ensures LastRowWithKey(rows[..|rows| - 1], j)
    ensures |rows[|rows| - 1]| >= 2 ==> KeyOf(rows[j]) != KeyOf(rows[|rows| - 1])
  {
    var init := rows[..|rows| - 1];
    forall i | j < i < |init| && |init[i]| >= 2 ensures KeyOf(init[i]) != KeyOf(init[j]) {
      assert init[i] == rows[i];
    }
  }

  /** Table `i` is the last table with its category. */
  predicate LastTableWithCategory(tables: seq<TableElement>, i: int)
    requires 0 <= i < |tables| && tables[i].header.Some?
  {
    forall k :: i < k < |tables| && tables[k].header.Some? ==> CategoryOf(tables[k]) != CategoryOf(tables[i])
  }

  /** The categories are exactly the tables' trimmed headers. */
  lemma {:induction false} TablesCategories(tables: seq<TableElement>, data: TableData)
    requires TablesData(tables) == Ok(data)
    ensures forall c :: c in data <==>
              exists i :: 0 <= i < |tables| && tables[i].header.Some? && CategoryOf(tables[i]) == c
    decreases |tables|
  {
    if tables != [] {
      var n := |tables| - 1;
      var init := tables[..n];
      var d0 := TablesData(init).value;
      TablesCategories(init, d0);
      assert data == d0[CategoryOf(tables[n]) := RowsData(n, tables[n].rows).value];
      forall c ensures c in data <==>
          exists i :: 0 <= i < |tables| && tables[i].header.Some? && CategoryOf(tables[i]) == c
      {
        if c in d0 {
          var i :| 0 <= i < |init| && init[i].header.Some? && CategoryOf(init[i]) == c;
          assert tables[i] == init[i];
        }
        if exists i :: 0 <= i < |tables| && tables[i].header.Some? && CategoryOf(tables[i]) == c {
          var i :| 0 <= i < |tables| && tables[i].header.Some? && CategoryOf(tables[i]) == c;
          if i < n { assert tables[i] == init[i]; }
        }
      }
    }
  }

  /** Each category holds the rows of the last table that has it: an earlier table of the
      same name leaves nothing behind. */
  lemma {:induction false} TablesLastWins(tables: seq<TableElement>, data: TableData)
    requires TablesData(tables) == Ok(data)
    ensures forall i :: 0 <= i < |tables| && tables[i].header.Some? && LastTableWithCategory(tables, i) ==>
              CategoryOf(tables[i]) in data && RowsData(i, tables[i].rows) == Ok(data[CategoryOf(tables[i])])
    decreases |tables|
  {
    if tables != [] {
      var n := |tables| - 1;
      var init := tables[..n];
      var d0 := TablesData(init).value;
      TablesLastWins(init, d0);
      assert data == d0[CategoryOf(tables[n]) := RowsData(n, tables[n].rows).value];
      forall i | 0 <= i < |tables| && tables[i].header.Some? && LastTableWithCategory(tables, i)
        ensures CategoryOf(tables[i]) in data && RowsData(i, tables[i].rows) == Ok(data[CategoryOf(tables[i])])
      {
        if i < n {
          LastTableOfPrefix(tables, i);
        }
      }
    }
  }

  /** A table that is last with its category stays so in the prefix without the final
      table, whose category differs from it. */
  lemma LastTableOfPrefix(tables: seq<TableElement>, i: int)
    requires 0 <= i < |tables| - 1 && tables[i].header.Some? && LastTableWithCategory(tables, i)
    ensures tables[..|tables| - 1][i] == tables[i]
    ensures LastTableWithCategory(tables[..|tables| - 1], i)
    ensures tables[|tables| - 1].header.Some? ==> CategoryOf(tables[i]) != CategoryOf(tables[|tables| - 1])
  {
    var init := tables[..|tables| - 1];
    forall k | i < k < |init| && init[k].header.Some? ensures CategoryOf(init[k]) != CategoryOf(init[i]) {
      assert init[k] == tables[k];
    }
  }

  /** Every stored value is trimmed and holds no `<br>`. */
  lemma {:induction false} TableValuesClean(tables: seq<TableElement>, data: TableData)
    requires TablesData(tables) == Ok(data)
    ensures forall c, k :: c in data && k in data[c] ==> Trimmed(data[c][k]) && !HasBr(data[c][k])
    decreases |tables|
  {
    if tables != [] {
      var n := |tables| - 1;
      TableValuesClean(tables[..n], TablesData(tables[..n]).value);
      RowValuesClean(n, tables[n].rows, RowsData(n, tables[n].rows).value);
    }
  }

  lemma {:induction false} RowValuesClean(t: nat, rows: seq<seq<Cell>>, m: Entries)
    requires RowsData(t, rows) == Ok(m)
    ensures forall k :: k in m ==> Trimmed(m[k]) && !HasBr(m[k])
    decreases |rows|
  {
    if rows != [] {
      RowValuesClean(t, rows[..|rows| - 1], RowsData(t, rows[..|rows| - 1]).value);
      if |rows[|rows| - 1]| >= 2 {
        CleanValueClean(rows[|rows| - 1][1].html);
      }
    }
  }

  lemma {:induction false} RowsErrPersists(t: nat, rows: seq<seq<Cell>>, j: nat)
    requires j <= |rows| && RowsData(t, rows[..j]).Err?
    ensures RowsData(t, rows) == RowsData(t, rows[..j])
    decreases |rows| - j
  {
    if j < |rows| {
      assert rows[..j + 1][..j] == rows[..j];
      RowsErrPersists(t, rows, j + 1);
    } else {
      assert rows[..j] == rows;
    }
  }

  lemma {:induction false} TablesErrPersists(tables: seq<TableElement>, j: nat)
    requires j <= |tables| && TablesData(tables[..j]).Err?
    ensures TablesData(tables) == TablesData(tables[..j])
    decreases |tables| - j
  {
    if j < |tables| {
      assert tables[..j + 1][..j] == tables[..j];
      TablesErrPersists(tables, j + 1);
    } else {
      assert tables[..j] == tables;
    }
  }

  /** One more row: its pair is added, or the fold fails on it for good. */
  lemma RowsDataStep(t: nat, rows: seq<seq<Cell>>, j: nat, m: Entries)
    requires j < |rows| && RowsData(t, rows[..j]) == Ok(m)
    ensures |rows[j]| >= 2 ==> RowsData(t, rows[..j + 1]) == Ok(m[KeyOf(rows[j]) := ValueOf(rows[j])])
    ensures |rows[j]| < 2 ==> RowsData(t, rows) == Err(MissingCell(t, j))
  {
    assert rows[..j + 1][..j] == rows[..j];
    if |rows[j]| < 2 {
      RowsErrPersists(rows := rows, t := t, j := j + 1);
    }
  }

  /** One more table: its entries go under its category, or the fold fails on it for good. */
  lemma TablesDataStep(tables: seq<TableElement>, t: nat, data: TableData)
    requires t < |tables| && TablesData(tables[..t]) == Ok(data)
    ensures tables[t].header.None? ==> TablesData(tables) == Err(NoHeader(t))
    ensures tables[t].header.Some? && RowsData(t, tables[t].rows).Err? ==>
              TablesData(tables) == Err(RowsData(t, tables[t].rows).error)
    ensures tables[t].header.Some? && RowsData(t, tables[t].rows).Ok? ==>
              TablesData(tables[..t + 1]) == Ok(data[CategoryOf(tables[t]) := RowsData(t, tables[t].rows).value])
  {
    assert tables[..t + 1][..t] == tables[..t];
    if TablesData(tables[..t + 1]).Err? {
      TablesErrPersists(tables, t + 1);
    }
  }

  /** The inner `forEach` over one table's rows, writing each pair into the category's
      map: a row without a second cell throws there. */
  method ScrapeRows(t: nat, rows: seq<seq<Cell>>) returns (r: Result<Entries, ScrapeError>)
    ensures r == RowsData(t, rows)
  {
    var entries: Entries := map[];
    var j := 0;
    while j < |rows|
      invariant 0 <= j <= |rows|
      invariant RowsData(t, rows[..j]) == Ok(entries)
    {
      var cells := rows[j];
      RowsDataStep(t, rows, j, entries);
      if |cells| < 2 {
        return Err(MissingCell(t, j));
      }
      var key := Trim(cells[0].text);
      var value := CleanValue(cells[1].html);
      entries := entries[key := value];
      j := j + 1;
    }
    assert rows[..j] == rows;
    return Ok(entries);
  }

  /** The in-page evaluation of scrapeTable: the outer `forEach` over the tables, each
      putting a fresh map under its category and filling it. */
  method ScrapeTable(tables: seq<TableElement>) returns (r: Result<TableData, ScrapeError>)
    ensures r == TablesData(tables)
  {
    var data: TableData := map[];
    var t := 0;
    while t < |tables|
      invariant 0 <= t <= |tables|
      invariant TablesData(tables[..t]) == Ok(data)
    {
      var table := tables[t];
      TablesDataStep(tables, t, data);
      if table.header.None? {
        return Err(NoHeader(t));
      }
      var category := Trim(table.header.value);
      var entries := ScrapeRows(t, table.rows);
      if entries.Err? {
        return Err(entries.error);
      }
      data := data[category := entries.value];
      t := t + 1;
    }
    assert tables[..t] == tables;
    return Ok(data);
  }

  // ---------------------------------------------------------------------------
  // scrapeAddons (index.js:45-62) and scrapeContentNotes (index.js:14-20)

  /** A `.dLWjTj` element: the `textContent` of its `.title`, if any, and those of its
      `.sc-nmmoyz-12` elements. */
  datatype AddonElement = AddonElement(title: Option<string>, specs: seq<string>)

  /** `{ name, specifications }` as pushed into `addonsData`. */
  datatype Addon = Addon(name: string, specifications: seq<string>)

  /** The first add-on without a `.title`, if any. */
  function FirstUntitled(addons: seq<AddonElement>): (r: Option<nat>)
    ensures r.Some? ==> r.value < |addons| && addons[r.value].title.None?
    ensures r.Some? ==> forall i :: 0 <= i < r.value ==> addons[i].title.Some?
    ensures r.None? ==> forall i :: 0 <= i < |addons| ==> addons[i].title.Some?
  {
    if addons == [] then None
    else if addons[0].title.None? then Some(0)
    else match FirstUntitled(addons[1..])
      case None => None
      case Some(i) => Some(i + 1)
  }

  /** One record per add-on, in document order, each with the trimmed title and the trimmed
      specification texts; a missing title throws before anything is returned. */
  function AddonsData(addons: seq<AddonElement>): (r: Result<seq<Addon>, ScrapeError>)
    ensures r.Err? <==> FirstUntitled(addons).Some?
    ensures r.Err? ==> r.error == NoTitle(FirstUntitled(addons).value)
    ensures r.Ok? ==> |r.value| == |addons|
    ensures r.Ok? ==> forall i :: 0 <= i < |addons| ==>
              r.value[i] == Addon(Trim(addons[i].title.value), MapTrim(addons[i].specs))
  {
    match FirstUntitled(addons)
    case Some(i) => Err(NoTitle(i))
    case None => Ok(seq(|addons|, i requires 0 <= i < |addons| =>
                        Addon(Trim(addons[i].title.value), MapTrim(addons[i].specs))))
  }

  /** The in-page evaluation of scrapeAddons: a forEach pushing onto `addonsData`. */
  method ScrapeAddons(addons: seq<AddonElement>) returns (r: Result<seq<Addon>, ScrapeError>)
    ensures r == AddonsData(addons)
  {
    var addonsData: seq<Addon> := [];
    var i := 0;
    while i < |addons|
      invariant 0 <= i <= |addons|
      invariant forall k :: 0 <= k < i ==> addons[k].title.Some?
      invariant |addonsData| == i
      invariant forall k :: 0 <= k < i ==>
                  addonsData[k] == Addon(Trim(addons[k].title.value), MapTrim(addons[k].specs))
    {
      var addon := addons[i];
      if addon.title.None? {
        return Err(NoTitle(i));
      }
      addonsData := addonsData + [Addon(Trim(addon.title.value), MapTrim(addon.specs))];
      i := i + 1;
    }
    assert FirstUntitled(addons).None?;
    assert addonsData == AddonsData(addons).value;
    return Ok(addonsData);
  }

  /** `notes.join('\n')` of the trimmed `.con` texts. */
  function ContentNotes(texts: seq<string>): string {
    Join(MapTrim(texts), '\n')
  }

  /** No `.con` element gives the empty string. */
  lemma ContentNotesNone()
    ensures ContentNotes([]) == ""
  {
  }

  /** Splitting the notes on newlines gives back the trimmed texts when there is at least
      one and none of them has a newline inside (`"".split('\n')` is `[""]`, not `[]`). */
  lemma ContentNotesSplit(texts: seq<string>)
    requires |texts| > 0 && forall i :: 0 <= i < |texts| ==> '\n' !in Trim(texts[i])
    ensures Split(ContentNotes(texts), '\n') == MapTrim(texts)
  {
    SplitJoin(MapTrim(texts), '\n');
  }

  // ---------------------------------------------------------------------------
  // scrapeImages (index.js:64-86)

  /** A `.r-bg` element: its `style.backgroundImage`, and whether navigating to its URL and
      writing the response body to disk succeeded (lines 76-77). */
  datatype ImageElement = ImageElement(style: string, saved: bool)

  function ImageFileName(i: nat): string {
    "image_" + DecimalString(i + 1) + ".png"
  }

  /** `path.join(productDirectory, \`image_${i + 1}.png\`)`. */
  function ImagePath(dir: string, i: nat): string {
    PathJoin([dir, ImageFileName(i)])
  }

  /** The first element whose style has no `url("…"` match, if any. */
  function FirstWithoutUrl(images: seq<ImageElement>): (r: Option<nat>)
    ensures r.Some? ==> r.value < |images| && BackgroundUrl(images[r.value].style).None?
    ensures r.Some? ==> forall i :: 0 <= i < r.value ==> BackgroundUrl(images[i].style).Some?
    ensures r.None? ==> forall i :: 0 <= i < |images| ==> BackgroundUrl(images[i].style).Some?
  {
    if images == [] then None
    else if BackgroundUrl(images[0].style).None? then Some(0)
    else match FirstWithoutUrl(images[1..])
      case None => None
      case Some(i) => Some(i + 1)
  }

  /** The `$$eval` of lines 68-70: all URLs, or the TypeError of the first style without one. */
  function ImageUrls(images: seq<ImageElement>): (r: Result<seq<string>, ScrapeError>)
    ensures r.Err? <==> FirstWithoutUrl(images).Some?
    ensures r.Err? ==> r.error == NoStyleUrl(FirstWithoutUrl(images).value)
    ensures r.Ok? ==> |r.value| == |images|
    ensures r.Ok? ==> forall i :: 0 <= i < |images| ==> Some(r.value[i]) == BackgroundUrl(images[i].style)
  {
    match FirstWithoutUrl(images)
    case Some(i) => Err(NoStyleUrl(i))
    case None => Ok(seq(|images|, i requires 0 <= i < |images| => BackgroundUrl(images[i].style).value))
  }

  /** The indices of the images that were saved, in increasing order. */
  function SavedIndices(images: seq<ImageElement>): (r: seq<nat>)
    ensures |r| <= |images|
    ensures forall k :: 0 <= k < |r| ==> r[k] < |images| && images[r[k]].saved
    ensures forall k, l :: 0 <= k < l < |r| ==> r[k] < r[l]
    ensures forall i :: 0 <= i < |images| && images[i].saved ==> i in r
  {
    if images == [] then []
    else
      var init := SavedIndices(images[..|images| - 1]);
      if images[|images| - 1].saved then init + [|images| - 1] else init
  }

  /** `imagePaths` as the loop leaves it: the path of each saved image, in order. */
  function SavedPaths(dir: string, images: seq<ImageElement>): seq<string> {
    if images == [] then []
    else
      var n := |images| - 1;
      SavedPaths(dir, images[..n]) + if images[n].saved then [ImagePath(dir, n)] else []
  }

  /** The paths are those of the saved indices, one for one. */
  lemma {:induction false} SavedPathsIndices(dir: string, images: seq<ImageElement>)
    ensures |SavedPaths(dir, images)| == |SavedIndices(images)|
    ensures forall k :: 0 <= k < |SavedIndices(images)| ==>
              SavedPaths(dir, images)[k] == ImagePath(dir, SavedIndices(images)[k])
    decreases |images|
  {
    if images != [] {
      SavedPathsIndices(dir, images[..|images| - 1]);
    }
  }

  /** What scrapeImages returns: one path per saved image, numbered by its position among
      all matched elements, so a failed image leaves a gap; a style without a URL fails the
      whole call before any image is fetched. */
  function ImagePaths(dir: string, images: seq<ImageElement>): Result<seq<string>, ScrapeError> {
    match ImageUrls(images)
    case Err(e) => Err(e)
    case Ok(_) => Ok(SavedPaths(dir, images))
  }

  /** The call fails exactly when some style has no URL, and then with the first of them. */
  lemma ImagePathsErr(dir: string, images: seq<ImageElement>)
    ensures ImagePaths(dir, images).Err? <==> exists i :: 0 <= i < |images| && BackgroundUrl(images[i].style).None?
    ensures ImagePaths(dir, images).Err? ==> ImagePaths(dir, images).error == NoStyleUrl(FirstWithoutUrl(images).value)
  {
    if FirstWithoutUrl(images).Some? {
      var n := FirstWithoutUrl(images).value;
      assert BackgroundUrl(images[n].style).None?;
    }
  }

  /** The `k`-th returned path is that of the `k`-th saved image, in increasing image
      order, and every saved image has its path returned. */
  lemma ImagePathsSpec(dir: string, images: seq<ImageElement>, paths: seq<string>)
    requires ImagePaths(dir, images) == Ok(paths)
    ensures |paths| == |SavedIndices(images)| <= |images|
    ensures forall k :: 0 <= k < |paths| ==>
              var i := SavedIndices(images)[k]; i < |images| && images[i].saved && paths[k] == ImagePath(dir, i)
    ensures forall k, l :: 0 <= k < l < |paths| ==> SavedIndices(images)[k] < SavedIndices(images)[l]
    ensures forall i :: 0 <= i < |images| && images[i].saved ==>
              exists k :: 0 <= k < |paths| && paths[k] == ImagePath(dir, i)
  {
    var idx := SavedIndices(images);
    assert paths == SavedPaths(dir, images);
    SavedPathsIndices(dir, images);
    forall i | 0 <= i < |images| && images[i].saved
      ensures exists k :: 0 <= k < |paths| && paths[k] == ImagePath(dir, i)
    {
      assert i in idx;
      var k :| 0 <= k < |idx| && idx[k] == i;
      assert paths[k] == ImagePath(dir, i);
    }
  }

  lemma ImageFileNamePlain(i: nat)
    ensures Plain(ImageFileName(i))
  {
    var d := DecimalString(i + 1);
    var n := ImageFileName(i);
    assert n[0] == 'i';
    assert forall k :: 0 <= k < |n| ==> n[k] != '/' by {
      forall k | 0 <= k < |n| ensures n[k] != '/' {
        if 6 <= k < 6 + |d| { assert n[k] == d[k - 6]; }
      }
    }
  }

  /** Images at different positions are written to different files. */
  lemma ImagePathInjective(dir: string, i: nat, j: nat)
    requires i != j
    ensures ImagePath(dir, i) != ImagePath(dir, j)
  {
    ImageFileNamePlain(i);
    ImageFileNamePlain(j);
    if ImageFileName(i) == ImageFileName(j) {
      var a, b := DecimalString(i + 1), DecimalString(j + 1);
      assert |a| == |b|;
      assert a == ImageFileName(i)[6..6 + |a|];
      DecimalInjective(i + 1, j + 1);
    }
    JoinFileNameInjective(dir, ImageFileName(i), ImageFileName(j));
  }

  /** The returned paths are pairwise distinct. */
  lemma ImagePathsDistinct(dir: string, images: seq<ImageElement>, paths: seq<string>)
    requires ImagePaths(dir, images) == Ok(paths)
    ensures forall k, l :: 0 <= k < l < |paths| ==> paths[k] != paths[l]
  {
    var idx := SavedIndices(images);
    SavedPathsIndices(dir, images);
    forall k, l | 0 <= k < l < |paths| ensures paths[k] != paths[l] {
      ImagePathInjective(dir, idx[k], idx[l]);
    }
  }

  /** Of three images the second fails: the paths are those of images 1 and 3, and the
      third keeps the name `image_3.png`. */
  lemma SecondOfThreeFails(dir: string, s1: string, s2: string, s3: string)
    requires BackgroundUrl(s1).Some? && BackgroundUrl(s2).Some? && BackgroundUrl(s3).Some?
    ensures ImagePaths(dir, [ImageElement(s1, true), ImageElement(s2, false), ImageElement(s3, true)])
         == Ok([PathJoin([dir, "image_1.png"]), PathJoin([dir, "image_3.png"])])
  {
    var images := [ImageElement(s1, true), ImageElement(s2, false), ImageElement(s3, true)];
    assert forall i :: 0 <= i < |images| ==> BackgroundUrl(images[i].style).Some?;
    assert SavedPaths(dir, images[..1]) == [ImagePath(dir, 0)] by {
      assert images[..1][..0] == [];
    }
    assert SavedPaths(dir, images[..2]) == [ImagePath(dir, 0)] by {
      assert images[..2][..1] == images[..1];
    }
    assert SavedPaths(dir, images) == [ImagePath(dir, 0), ImagePath(dir, 2)] by {
      assert images[..2] == images[..|images| - 1];
    }
    FirstAndThirdNames();
  }

  lemma FirstAndThirdNames()
    ensures ImageFileName(0) == "image_1.png" && ImageFileName(2) == "image_3.png"
  {
    assert DecimalString(1) == ['1'] && DecimalString(3) == ['3'];
  }

  /** The loop of lines 72-83: a failed fetch or write is logged and skipped. */
  method ScrapeImages(dir: string, images: seq<ImageElement>) returns (r: Result<seq<string>, ScrapeError>)
    ensures r == ImagePaths(dir, images)
  {
    var urls := ImageUrls(images);
    if urls.Err? {
      return Err(urls.error);
    }
    var imagePaths: seq<string> := [];
    var i := 0;
    while i < |images|
      invariant 0 <= i <= |images|
      invariant imagePaths == SavedPaths(dir, images[..i])
    {
      assert images[..i + 1][..i] == images[..i];
      if images[i].saved {
        imagePaths := imagePaths + [ImagePath(dir, i)];
      }
      i := i + 1;
    }
    assert images[..i] == images;
    return Ok(imagePaths);
  }
}
