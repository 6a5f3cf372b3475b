/** The earlier single-class scraper `Parser` (src/parser.py).  Its text
    helpers and table loops are those of the refactored package with every
    cell stripped first; its section readers never raise, and report a
    missing or mistitled part as no records; its private combo rows take
    their channel counts from the apartment-block (MKD) combo records, and
    nothing is validated. */
module LegacyParser {
  import opened Wrappers
  import opened Strings
  import opened Folds
  import opened DataExtractor
  import opened TariffModel
  import opened Page
  import opened TableParser
  import opened SectionParser
  import opened TariffProcessor
  import opened RialcomParser

  // ------------------------------------------------- stripped cells and texts

  /** Text with neither a digit nor a decimal point. */
  predicate Inert(s: string) {
    forall i | 0 <= i < |s| :: !IsDigit(s[i]) && s[i] != '.'
  }

  lemma {:induction false} SquashOfWs(w: string)
    requires AllWs(w)
    ensures Inert(Squash(w))
  {
    if w != [] {
      SquashOfWs(w[1..]);
    }
  }

  lemma {:induction false} DigitPrefixLenTail(x: string, y: string)
    requires y == [] || !IsDigit(y[0])
    ensures DigitPrefixLen(x + y) == DigitPrefixLen(x)
  {
    if x == [] {
      assert x + y == y;
    } else {
      assert (x + y)[0] == x[0];
      assert (x + y)[1..] == x[1..] + y;
      DigitPrefixLenTail(x[1..], y);
    }
  }

  /** The number match ends before text without digits or points. */
  lemma LexemeAtTail(x: string, y: string)
    requires x != [] && IsDigit(x[0]) && Inert(y)
    ensures LexemeAt(x + y) == LexemeAt(x)
  {
    var k := DigitPrefixLen(x);
    DigitPrefixLenTail(x, y);
    assert (x + y)[0] == x[0];
    LexemeAtIsFrom(x + y, k);
    LexemeAtIsFrom(x, k);
    LexemeFromTail(x, y, k);
  }

  lemma LexemeAtIsFrom(s: string, k: nat)
    requires s != [] && IsDigit(s[0]) && DigitPrefixLen(s) == k
    ensures LexemeAt(s) == LexemeFrom(s, k)
  {
  }

  lemma LexemeFromTail(x: string, y: string, k: nat)
    requires k <= |x| && Inert(y)
    ensures LexemeFrom(x + y, k) == LexemeFrom(x, k)
  {
    var s := x + y;
    if k < |x| && x[k] == '.' {
      SlicesInFront(x, y, k + 1);
      DigitPrefixLenTail(x[k + 1..], y);
      var m := DigitPrefixLen(x[k + 1..]);
      assert s[k] == x[k];
      PointLexeme(s, k, m);
      PointLexeme(x, k, m);
      SlicesInFront(x, y, k + 1 + m);
    } else {
      SlicesInFront(x, y, k);
      if k < |x| {
        assert s[k] == x[k];
      } else if y != [] {
        assert s[k] == y[0];
      }
    }
  }

  lemma {:induction false} MatchNumberTail(x: string, y: string)
    requires Inert(y)
    ensures MatchNumber(x + y) == MatchNumber(x)
  {
    if x == [] {
      assert x + y == y;
    } else if IsDigit(x[0]) {
      LexemeAtTail(x, y);
    } else {
      assert (x + y)[1..] == x[1..] + y;
      MatchNumberTail(x[1..], y);
    }
  }

  lemma ExtractNumberTail(x: string, w: string)
    requires AllWs(w)
    ensures ExtractNumber(x + w) == ExtractNumber(x)
  {
    if x == [] {
      assert x + w == w;
    } else {
      SquashAppend(x, w);
      SquashOfWs(w);
      MatchNumberTail(Squash(x), Squash(w));
    }
  }

  /** A price cell reads the same stripped or not. */
  lemma ExtractNumberOfStripped(s: string)
    ensures ExtractNumber(Strip(s)) == ExtractNumber(s)
  {
    var a, b := StripSlice(s);
    var p, c, q := s[..a], s[a..b], s[b..];
    ThreeParts(s, a, b);
    WsHasNoDigit(p);
    ExtractNumberSkipsPrefix(p, c + q);
    ExtractNumberTail(c, q);
  }

  /** A word whose last letter does not occur in `w` occurs in `y + w`
      exactly when it occurs in `y`. */
  lemma ContainsBeforeSuffix(y: string, w: string, u: string)
    requires u != [] && forall i | 0 <= i < |w| :: w[i] != u[|u| - 1]
    ensures Contains(y + w, u) == Contains(y, u)
  {
    var s := y + w;
    if Contains(s, u) {
      var i :| 0 <= i <= |s| && OccursAt(s, u, i);
      assert s[i + |u| - 1] == u[|u| - 1] by { assert s[i..i + |u|][|u| - 1] == s[i + |u| - 1]; }
      assert i + |u| <= |y|;
      assert y[i..i + |u|] == s[i..i + |u|];
      assert OccursAt(y, u, i);
    }
    if Contains(y, u) {
      var j :| 0 <= j <= |y| && OccursAt(y, u, j);
      assert s[j..j + |u|] == y[j..j + |u|];
      assert OccursAt(s, u, j);
    }
  }

  lemma {:induction false} LowerOfWs(w: string)
    requires AllWs(w)
    ensures AllWs(Lower(w))
  {
  }

  /** One unit occurs in whitespace-wrapped text exactly when it occurs in
      the text. */
  lemma UnitPastWs(p: string, c: string, q: string, u: string)
    requires AllWs(p) && AllWs(q) && u in KbitUnits
    ensures Contains(Lower(p) + Lower(c) + Lower(q), u) == Contains(Lower(c), u)
  {
    LowerOfWs(p);
    LowerOfWs(q);
    assert u[0] == 'к' || u[0] == 'k';
    assert u[|u| - 1] == 'т' || u[|u| - 1] == 't' || u[|u| - 1] == 'с';
    assert Lower(p) + Lower(c) + Lower(q) == Lower(p) + (Lower(c) + Lower(q));
    ContainsPastPrefix(Lower(p), Lower(c) + Lower(q), u);
    ContainsBeforeSuffix(Lower(c), Lower(q), u);
  }

  /** Surrounding whitespace does not change the unit test. */
  lemma IsKbpsOfStripped(s: string)
    ensures IsKbps(Strip(s)) == IsKbps(s)
  {
    var a, b := StripSlice(s);
    var p, c, q := s[..a], s[a..b], s[b..];
    ThreeParts(s, a, b);
    AppendAssoc(p, c, q);
    LowerAppend(p + c, q);
    LowerAppend(p, c);
    assert Lower(s) == Lower(p) + Lower(c) + Lower(q);
    forall u | u in KbitUnits ensures Contains(Lower(s), u) == Contains(Lower(c), u) {
      UnitPastWs(p, c, q, u);
    }
  }

  /** A speed cell reads the same stripped or not. */
  lemma ExtractSpeedOfStripped(s: string)
    ensures ExtractSpeed(Strip(s)) == ExtractSpeed(s)
  {
    ExtractSpeedMeaning(s);
    ExtractSpeedMeaning(Strip(s));
    ExtractNumberOfStripped(s);
    IsKbpsOfStripped(s);
  }

  lemma {:induction false} FirstDigitRunSkips(p: string, x: string)
    requires NoDigit(p)
    ensures FirstDigitRun(p + x) == FirstDigitRun(x)
  {
    if p == [] {
      assert p + x == x;
    } else {
      assert (p + x)[0] == p[0];
      assert (p + x)[1..] == p[1..] + x;
      FirstDigitRunSkips(p[1..], x);
    }
  }

  lemma {:induction false} FirstDigitRunTail(x: string, w: string)
    requires NoDigit(w)
    ensures FirstDigitRun(x + w) == FirstDigitRun(x)
  {
    if x == [] {
      assert x + w == w;
      HeaderTierNoneIff(w);
    } else if IsDigit(x[0]) {
      DigitPrefixLenTail(x, w);
      assert (x + w)[..DigitPrefixLen(x)] == x[..DigitPrefixLen(x)];
    } else {
      assert (x + w)[1..] == x[1..] + w;
      FirstDigitRunTail(x[1..], w);
    }
  }

  /** A header's tier is the same stripped or not. */
  lemma HeaderTierOfStripped(h: string)
    ensures HeaderTier(Strip(h)) == HeaderTier(h)
  {
    var a, b := StripSlice(h);
    var p, c, q := h[..a], h[a..b], h[b..];
    ThreeParts(h, a, b);
    WsHasNoDigit(p);
    WsHasNoDigit(q);
    FirstDigitRunSkips(p, c + q);
    FirstDigitRunTail(c, q);
  }

  lemma WsHasNoDigit(w: string)
    requires AllWs(w)
    ensures NoDigit(w)
  {
    forall i | 0 <= i < |w| ensures !IsDigit(w[i]) {
      assert IsWs(w[i]);
    }
  }

  // -------------------------------------------------------------- extractors

  /** `Parser._extract_speed`: as `extract_speed`, but the unit test looks at
      the text before a leading "до " is dropped. */
  function LegacyExtractSpeed(text: string): Option<real> {
    if text == [] then None
    else
      var t := if StartsWith(text, "до ") then text[3..] else text;
      SpeedOf(ExtractNumber(t), IsKbps(text))
  }

  /** The legacy speed reader agrees with `extract_speed` on every text. */
  lemma LegacyExtractSpeedAgrees(text: string)
    ensures LegacyExtractSpeed(text) == ExtractSpeed(text)
  {
    if text != [] && StartsWith(text, "до ") {
      assert text == "до " + text[3..];
      UpToPrefixIsInvisible(text[3..]);
    }
  }

  // ----------------------------------------------------------------- internet

  const InternetTitle: string := "интернет"
  const ComboTitle: string := "интернет + интерактивное тв"

  /** The header `div` exists and its lower-cased text names the title. */
  predicate Titled(b: Option<Block>, title: string) {
    b.Some? && Contains(Lower(b.value.text), title)
  }

  /** What `parse_mkd_internet` and `parse_private_internet` return for a
      section: no records without the section, without a header titled
      "интернет", or without a following table; a table without a body
      raises inside the `try` before any record is kept. */
  function LegacyInternet(doc: Document, id: string): seq<Tariff> {
    if id !in doc.sections then []
    else
      var header := doc.sections[id].internet;
      if !Titled(header, InternetTitle) then []
      else if header.value.next.None? || header.value.next.value.body.None? then []
      else InternetRecords(header.value.next.value.body.value)
  }

  /** A legacy internet row, read from stripped cells, gives the same record
      as a refactored one. */
  lemma StrippedInternetRow(cells: Row)
    requires |cells| >= 4
    ensures var name := Strip(cells[0]);
      var price := ExtractNumber(Strip(cells[1]));
      var speed := LegacyExtractSpeed(Strip(cells[3]));
      InternetRecord(cells) == if name != [] && price.Some? then Some(NewTariff(name, None, speed, price)) else None
  {
    ExtractNumberOfStripped(cells[1]);
    LegacyExtractSpeedAgrees(Strip(cells[3]));
    ExtractSpeedOfStripped(cells[3]);
  }

  /** `Parser.parse_mkd_internet` (section "collapse1") and
      `Parser.parse_private_internet` (section "collapse2"). */
  method LegacyParseInternet(doc: Document, id: string) returns (tariffs: seq<Tariff>)
    ensures tariffs == LegacyInternet(doc, id)
  {
    tariffs := [];
    if id !in doc.sections {
      return;
    }
    var header := doc.sections[id].internet;
    if header.None? || !Contains(Lower(header.value.text), InternetTitle) {
      return;
    }
    var table := header.value.next;
    if table.None? || table.value.body.None? {
      return;
    }
    var rows := table.value.body.value;
    for i := 0 to |rows|
      invariant tariffs == InternetRecords(rows[..i])
    {
      var cells := rows[i];
      CollectSnoc(rows, InternetRecord, i);
      if |cells| >= 4 {
        var name := Strip(cells[0]);
        var price := ExtractNumber(Strip(cells[1]));
        var speed := LegacyExtractSpeed(Strip(cells[3]));
        StrippedInternetRow(cells);
        if name != [] && price.Some? {
          tariffs := tariffs + [NewTariff(name, None, speed, price)];
        }
      }
    }
    assert rows[..|rows|] == rows;
  }

  /** An internet reader gives records only for a section with a header
      titled "интернет" followed by a table with a body. */
  lemma LegacyInternetNeedsTitle(doc: Document, id: string)
    ensures LegacyInternet(doc, id) != [] ==>
      id in doc.sections && Titled(doc.sections[id].internet, InternetTitle) &&
      doc.sections[id].internet.value.next.Some? && doc.sections[id].internet.value.next.value.body.Some?
  {
  }

  // -------------------------------------------------------------------- combo

  /** Where a legacy combo row takes its channel count from: its own first
      cell (`parse_mkd_combo`), or the map from MKD package names
      (`parse_private_combo`). */
  datatype ChannelSource = OwnCell | FromMap(m: map<string, Option<nat>>)

  /** `dict.get(key)`: the stored value, or none for a missing key. */
  function Lookup(m: map<string, Option<nat>>, key: string): Option<nat> {
    if key in m then m[key] else None
  }

  /** What a legacy combo row gives every one of its records. */
  function LegacyHead(first: string, source: ChannelSource): RowHead {
    var base := Strip(first);
    var clean := CleanName(base);
    RowHead(clean, if source.OwnCell? then ExtractChannels(base) else Lookup(source.m, clean))
  }

  /** A legacy combo row's records, as a function of the row. */
  function LegacyRow(headers: seq<string>, suffix: string, source: ChannelSource): Row -> seq<Tariff> {
    cells => if cells == [] then [] else RowRecords(headers, cells, LegacyHead(cells[0], source), suffix, Columns(headers))
  }

  function LegacyComboRecords(headers: seq<string>, rows: seq<Row>, suffix: string, source: ChannelSource): seq<Tariff> {
    Gather(rows, LegacyRow(headers, suffix, source))
  }

  /** What the combo readers return for a section: no records without the
      section, without a header titled "интернет + интерактивное тв", or
      without a following table; a table without a head or a body raises
      inside the `try` before any record is kept. */
  function LegacyCombo(doc: Document, id: string, suffix: string, source: ChannelSource): seq<Tariff> {
    if id !in doc.sections then []
    else
      var header := doc.sections[id].combo;
      if !Titled(header, ComboTitle) then []
      else
        var table := header.value.next;
        if table.None? || table.value.head.None? || table.value.body.None? then []
        else LegacyComboRecords(table.value.head.value, table.value.body.value, suffix, source)
  }

  lemma LegacyComboRecordsSnoc(headers: seq<string>, rows: seq<Row>, ri: nat, suffix: string, source: ChannelSource)
    requires ri < |rows|
    ensures LegacyComboRecords(headers, rows[..ri + 1], suffix, source) ==
      LegacyComboRecords(headers, rows[..ri], suffix, source) + LegacyRow(headers, suffix, source)(rows[ri])
  {
    assert rows[..ri + 1][..ri] == rows[..ri];
  }

  /** One row's records extend those of the rows before it. */
  lemma LegacyComboStep(headers: seq<string>, rows: seq<Row>, ri: nat, suffix: string, source: ChannelSource,
                        done: seq<Tariff>, more: seq<Tariff>)
    requires ri < |rows| && done == LegacyComboRecords(headers, rows[..ri], suffix, source)
    requires rows[ri] == [] ==> more == []
    requires rows[ri] != [] ==> more == RowRecords(headers, rows[ri], LegacyHead(rows[ri][0], source), suffix, Columns(headers))
    ensures done + more == LegacyComboRecords(headers, rows[..ri + 1], suffix, source)
  {
    LegacyComboRecordsSnoc(headers, rows, ri, suffix, source);
  }

  /** A legacy combo column, read from stripped cells, adds the same record
      as a refactored one. */
  lemma StrippedColumn(headers: seq<string>, cells: Row, head: RowHead, suffix: string, i: nat,
                       speed: Option<real>, columnName: string)
    requires i < Columns(headers)
    requires columnName == Strip(headers[i + 1]) && speed == HeaderTier(columnName)
    ensures RowRecords(headers, cells, head, suffix, i + 1) ==
      RowRecords(headers, cells, head, suffix, i) +
      if i < |cells| - 1 && speed.Some? then
        var price := ExtractNumber(Strip(cells[i + 1]));
        if price.Some? then [NewTariff(head.clean + " + " + columnName + suffix, head.channels, speed, price)]
        else []
      else []
  {
    if i < |cells| - 1 {
      ExtractNumberOfStripped(cells[i + 1]);
    }
    HeaderTierOfStripped(headers[i + 1]);
  }

  /** The name of column `k`: the stripped text of header `k + 1`. */
  function ColumnName(headers: seq<string>): nat -> string {
    (k: nat) => if k < Columns(headers) then Strip(headers[k + 1]) else []
  }

  lemma ColumnNameAt(headers: seq<string>, k: nat)
    requires k < Columns(headers)
    ensures ColumnName(headers)(k) == Strip(headers[k + 1])
  {
  }

  /** The names of the first `n` columns. */
  function ColumnNames(headers: seq<string>, n: nat): (names: seq<string>)
    ensures |names| == n
  {
    Tabulate(n, ColumnName(headers))
  }

  /** The tier of each column name. */
  function Tiers(names: seq<string>): (speeds: seq<Option<real>>)
    ensures |speeds| == |names|
  {
    if names == [] then [] else Tiers(names[..|names| - 1]) + [HeaderTier(names[|names| - 1])]
  }


  lemma TiersSnoc(names: seq<string>, name: string)
    ensures Tiers(names + [name]) == Tiers(names) + [HeaderTier(name)]
  {
    assert (names + [name])[..|names|] == names;
  }

  lemma {:induction false} TiersAt(names: seq<string>, k: nat)
    requires k < |names|
    ensures Tiers(names)[k] == HeaderTier(names[k])
  {
    var n := |names| - 1;
    if k < n {
      TiersAt(names[..n], k);
    }
  }

  /** The header loop of the combo readers: the column names are the
      stripped header texts after the first, and each speed is the tier of
      its column. */
  method LegacyColumns(headers: seq<string>) returns (speeds: seq<Option<real>>, columnNames: seq<string>)
    ensures columnNames == ColumnNames(headers, Columns(headers)) && speeds == Tiers(columnNames)
  {
    speeds := [];
    columnNames := [];
    for j := 0 to Columns(headers)
      invariant columnNames == ColumnNames(headers, j) && speeds == Tiers(columnNames)
    {
      var headerText := Strip(headers[j + 1]);
      ColumnNameAt(headers, j);
      TabulateSnoc(j, ColumnName(headers));
      TiersSnoc(columnNames, headerText);
      columnNames := columnNames + [headerText];
      speeds := speeds + [HeaderTier(headerText)];
    }
  }

  /** The column loop of the combo readers for one row with cells. */
  method LegacyComboRow(headers: seq<string>, speeds: seq<Option<real>>, columnNames: seq<string>,
                        cells: Row, suffix: string, source: ChannelSource) returns (tariffs: seq<Tariff>)
    requires cells != []
    requires columnNames == ColumnNames(headers, Columns(headers)) && speeds == Tiers(columnNames)
    ensures tariffs == RowRecords(headers, cells, LegacyHead(cells[0], source), suffix, Columns(headers))
  {
    var baseName := Strip(cells[0]);
    var cleanName := CleanName(baseName);
    var channels := if source.OwnCell? then ExtractChannels(baseName) else Lookup(source.m, cleanName);
    ghost var head := RowHead(cleanName, channels);
    assert head == LegacyHead(cells[0], source);
    tariffs := [];
    for i := 0 to |speeds|
      invariant tariffs == RowRecords(headers, cells, head, suffix, i)
    {
      TabulateAt(Columns(headers), ColumnName(headers), i);
      ColumnNameAt(headers, i);
      TiersAt(columnNames, i);
      StrippedColumn(headers, cells, head, suffix, i, speeds[i], columnNames[i]);
      if i < |cells| - 1 && speeds[i].Some? {
        var price := ExtractNumber(Strip(cells[i + 1]));
        if price.Some? {
          tariffs := tariffs + [NewTariff(cleanName + " + " + columnNames[i] + suffix, channels, speeds[i], price)];
        }
      }
    }
  }

  /** The row loop of the combo readers. */
  method LegacyComboTable(headers: seq<string>, rows: seq<Row>, suffix: string, source: ChannelSource) returns (tariffs: seq<Tariff>)
    ensures tariffs == LegacyComboRecords(headers, rows, suffix, source)
  {
    var speeds, columnNames := LegacyColumns(headers);
    tariffs := [];
    for ri := 0 to |rows|
      invariant tariffs == LegacyComboRecords(headers, rows[..ri], suffix, source)
    {
      var cells := rows[ri];
      var more := [];
      if cells != [] {
        more := LegacyComboRow(headers, speeds, columnNames, cells, suffix, source);
      }
      LegacyComboStep(headers, rows, ri, suffix, source, tariffs, more);
      tariffs := tariffs + more;
    }
    assert rows[..|rows|] == rows;
  }

  /** `Parser.parse_mkd_combo` (section "collapse1", no suffix, own
      channels) and `Parser.parse_private_combo` (section "collapse2",
      suffix "_ч", channels from the map). */
  method LegacyParseCombo(doc: Document, id: string, suffix: string, source: ChannelSource) returns (tariffs: seq<Tariff>)
    ensures tariffs == LegacyCombo(doc, id, suffix, source)
  {
    tariffs := [];
    if id !in doc.sections {
      return;
    }
    var header := doc.sections[id].combo;
    if header.None? || !Contains(Lower(header.value.text), ComboTitle) {
      return;
    }
    var table := header.value.next;
    if table.None? || table.value.head.None? || table.value.body.None? {
      return;
    }
    tariffs := LegacyComboTable(table.value.head.value, table.value.body.value, suffix, source);
  }

  /** A combo reader gives records only for a section with a header titled
      "интернет + интерактивное тв" followed by a table with a head and a
      body. */
  lemma LegacyComboNeedsTitle(doc: Document, id: string, suffix: string, source: ChannelSource)
    ensures LegacyCombo(doc, id, suffix, source) != [] ==>
      id in doc.sections && Titled(doc.sections[id].combo, ComboTitle) &&
      doc.sections[id].combo.value.next.Some? &&
      doc.sections[id].combo.value.next.value.head.Some? && doc.sections[id].combo.value.next.value.body.Some?
  {
  }

  /** Gathering with two row functions that agree on every row gives the
      same records. */
  lemma {:induction false} GatherCongruent(rows: seq<Row>, f: Row -> seq<Tariff>, g: Row -> seq<Tariff>)
    requires forall i | 0 <= i < |rows| :: f(rows[i]) == g(rows[i])
    ensures Gather(rows, f) == Gather(rows, g)
  {
    if rows != [] {
      GatherCongruent(rows[..|rows| - 1], f, g);
    }
  }

  /** With its own first cell as the channel source, a legacy combo table
      gives exactly the refactored records. */
  lemma OwnCellIsRefactored(headers: seq<string>, rows: seq<Row>, suffix: string)
    ensures LegacyComboRecords(headers, rows, suffix, OwnCell) == ComboRecords(headers, rows, suffix)
  {
    GatherCongruent(rows, LegacyRow(headers, suffix, OwnCell), ComboRow(headers, suffix));
  }

  /** The map agrees with every row: looking up a row's clean name gives the
      count its own first cell names. */
  predicate MapMatchesRows(m: map<string, Option<nat>>, rows: seq<Row>) {
    forall i | 0 <= i < |rows| && rows[i] != [] ::
      Lookup(m, HeadOf(rows[i][0]).clean) == HeadOf(rows[i][0]).channels
  }

  /** A map that agrees with every row makes the private reader give the
      refactored records. */
  lemma MatchingMapIsRefactored(headers: seq<string>, rows: seq<Row>, suffix: string, m: map<string, Option<nat>>)
    requires MapMatchesRows(m, rows)
    ensures LegacyComboRecords(headers, rows, suffix, FromMap(m)) == ComboRecords(headers, rows, suffix)
  {
    forall i | 0 <= i < |rows| ensures LegacyRow(headers, suffix, FromMap(m))(rows[i]) == ComboRow(headers, suffix)(rows[i]) {
      if rows[i] != [] {
        assert LegacyHead(rows[i][0], FromMap(m)) == HeadOf(rows[i][0]);
      }
    }
    GatherCongruent(rows, LegacyRow(headers, suffix, FromMap(m)), ComboRow(headers, suffix));
  }

  /** Every record of a legacy private combo row carries the map's count for
      the row's clean name, none when the name is not a key, whatever the
      row's own cell says. */
  lemma PrivateRowChannels(headers: seq<string>, cells: Row, suffix: string, m: map<string, Option<nat>>)
    requires cells != []
    ensures forall t | t in LegacyRow(headers, suffix, FromMap(m))(cells) ::
      t.channels == Lookup(m, CleanName(Strip(cells[0]))) && t.price.Some? && t.name != []
  {
    RowRecordsShared(headers, cells, LegacyHead(cells[0], FromMap(m)), suffix, Columns(headers));
  }

  /** Every legacy combo record has a price and a name. */
  lemma {:induction false} LegacyComboRecordsValid(headers: seq<string>, rows: seq<Row>, suffix: string, source: ChannelSource)
    ensures forall t | t in LegacyComboRecords(headers, rows, suffix, source) :: IsValid(t)
  {
    if rows != [] {
      LegacyComboRecordsValid(headers, rows[..|rows| - 1], suffix, source);
      var cells := rows[|rows| - 1];
      if cells != [] {
        RowRecordsShared(headers, cells, LegacyHead(cells[0], source), suffix, Columns(headers));
      }
    }
  }

  // ---------------------------------------------------------------- parse_all

  /** The entry every MKD combo record writes: its count, none included,
      under its base name. */
  function LegacyEntry(t: Tariff): Option<(string, Option<nat>)> {
    Some((BaseName(t.name), t.channels))
  }

  /** The map `parse_all` builds from the MKD combo records: every record,
      in order, writes its count, none included, under its base name. */
  function LegacyMap(ts: seq<Tariff>): map<string, Option<nat>> {
    Assign(ts, LegacyEntry)
  }

  /** A name is a key exactly when some record has that base name. */
  lemma LegacyMapKeys(ts: seq<Tariff>, k: string)
    ensures k in LegacyMap(ts) <==> exists i | 0 <= i < |ts| :: BaseName(ts[i].name) == k
  {
    AssignKeys(ts, LegacyEntry, k);
    if exists i | 0 <= i < |ts| :: BaseName(ts[i].name) == k {
      var i :| 0 <= i < |ts| && BaseName(ts[i].name) == k;
      assert LegacyEntry(ts[i]).Some? && LegacyEntry(ts[i]).value.0 == k;
    }
  }

  /** The last record with a base name decides that name's count. */
  lemma LegacyMapLastWins(ts: seq<Tariff>, i: nat)
    requires i < |ts|
    requires forall j | i < j < |ts| :: BaseName(ts[j].name) != BaseName(ts[i].name)
    ensures BaseName(ts[i].name) in LegacyMap(ts)
    ensures LegacyMap(ts)[BaseName(ts[i].name)] == ts[i].channels
  {
    forall j | i < j < |ts|
      ensures LegacyEntry(ts[j]).Some? ==> LegacyEntry(ts[j]).value.0 != LegacyEntry(ts[i]).value.0
    {
    }
    AssignLastWins(ts, LegacyEntry, i);
  }

  /** The map loop of `Parser.parse_all`. */
  method LegacyChannelsMap(ts: seq<Tariff>) returns (m: map<string, Option<nat>>)
    ensures m == LegacyMap(ts)
  {
    m := map[];
    for i := 0 to |ts|
      invariant m == LegacyMap(ts[..i])
    {
      AssignSnoc(ts, LegacyEntry, i);
      var t := ts[i];
      m := m[BaseName(t.name) := t.channels];
    }
    assert ts[..|ts|] == ts;
  }

  /** The four readers' records in the order `parse_all` extends its list
      with them. */
  function LegacyRecords(doc: Document): seq<Tariff> {
    var mkdInternet := LegacyInternet(doc, MkdSection);
    var mkdCombo := LegacyCombo(doc, MkdSection, "", OwnCell);
    var privateInternet := LegacyInternet(doc, PrivateSection);
    var privateCombo := LegacyCombo(doc, PrivateSection, "_ч", FromMap(LegacyMap(mkdCombo)));
    mkdInternet + mkdCombo + privateInternet + privateCombo
  }

  /** What `Parser.parse_all` returns or raises for a load outcome. */
  function LegacyParseAllResult(fetched: Result<Document, string>): Result<seq<Tariff>, string> {
    if fetched.Failure? then Failure(fetched.error) else Success(LegacyRecords(fetched.value))
  }

  /** `Parser.parse_all`. */
  method LegacyParseAll(fetched: Result<Document, string>) returns (r: Result<seq<Tariff>, string>)
    ensures r == LegacyParseAllResult(fetched)
  {
    if fetched.Failure? {
      return Failure(fetched.error);
    }
    var soup := fetched.value;
    var all: seq<Tariff> := [];
    var mkdInternet := LegacyParseInternet(soup, MkdSection);
    all := all + mkdInternet;
    var mkdCombo := LegacyParseCombo(soup, MkdSection, "", OwnCell);
    all := all + mkdCombo;
    var channelsMap := LegacyChannelsMap(mkdCombo);
    var privateInternet := LegacyParseInternet(soup, PrivateSection);
    all := all + privateInternet;
    var privateCombo := LegacyParseCombo(soup, PrivateSection, "_ч", FromMap(channelsMap));
    all := all + privateCombo;
    assert [] + mkdInternet == mkdInternet;
    assert all == LegacyRecords(soup);
    return Success(all);
  }

  /** Without validation nothing is lost all the same: every legacy record
      has a name and a price, so validating them would keep them all. */
  lemma LegacyRecordsValid(doc: Document)
    ensures forall t | t in LegacyRecords(doc) :: IsValid(t)
    ensures Kept(LegacyRecords(doc)) == LegacyRecords(doc)
  {
    var mi := LegacyInternet(doc, MkdSection);
    var mc := LegacyCombo(doc, MkdSection, "", OwnCell);
    var pi := LegacyInternet(doc, PrivateSection);
    var pc := LegacyCombo(doc, PrivateSection, "_ч", FromMap(LegacyMap(mc)));
    InternetValid(doc, MkdSection);
    InternetValid(doc, PrivateSection);
    ComboValid(doc, MkdSection, "", OwnCell);
    ComboValid(doc, PrivateSection, "_ч", FromMap(LegacyMap(mc)));
    ValidateAllValid(LegacyRecords(doc));
  }

  lemma InternetValid(doc: Document, id: string)
    ensures forall t | t in LegacyInternet(doc, id) :: IsValid(t)
  {
    if id in doc.sections {
      var header := doc.sections[id].internet;
      if header.Some? && header.value.next.Some? && header.value.next.value.body.Some? {
        InternetRecordsValid(header.value.next.value.body.value);
      }
    }
  }

  lemma ComboValid(doc: Document, id: string, suffix: string, source: ChannelSource)
    ensures forall t | t in LegacyCombo(doc, id, suffix, source) :: IsValid(t)
  {
    if id in doc.sections {
      var header := doc.sections[id].combo;
      if header.Some? && header.value.next.Some? {
        var table := header.value.next.value;
        if table.head.Some? && table.body.Some? {
          LegacyComboRecordsValid(table.head.value, table.body.value, suffix, source);
        }
      }
    }
  }

  // --------------------------------------------------------------- comparison

  /** A section as the page lays it out: a header `div` titled "интернет"
      followed by a table with a body, and a header `div` titled "интернет +
      интерактивное тв" followed by a table with a head and a body. */
  predicate WellFormed(sec: Section) {
    Titled(sec.internet, InternetTitle) &&
    sec.internet.value.next.Some? && sec.internet.value.next.value.body.Some? &&
    Titled(sec.combo, ComboTitle) &&
    sec.combo.value.next.Some? &&
    sec.combo.value.next.value.head.Some? && sec.combo.value.next.value.body.Some?
  }

  /** The rows of a section's combo table. */
  function ComboRows(sec: Section): seq<Row>
    requires WellFormed(sec)
  {
    sec.combo.value.next.value.body.value
  }

  /** On a well-formed MKD section both scrapers read the same records. */
  lemma MkdAgrees(doc: Document)
    requires MkdSection in doc.sections && WellFormed(doc.sections[MkdSection])
    ensures var mkd := SectionResult(doc, MkdSection, true);
      mkd.Success? &&
      mkd.value == LegacyInternet(doc, MkdSection) + LegacyCombo(doc, MkdSection, "", OwnCell)
  {
    var mct := doc.sections[MkdSection].combo.value.next.value;
    OwnCellIsRefactored(mct.head.value, mct.body.value, "");
  }

  /** On a well-formed private section the refactored reader returns the
      legacy internet records followed by its own combo records, which equal
      the legacy ones whenever the map from the MKD records agrees with
      every row. */
  lemma PrivateAgrees(doc: Document, m: map<string, Option<nat>>)
    requires PrivateSection in doc.sections && WellFormed(doc.sections[PrivateSection])
    ensures var private := SectionResult(doc, PrivateSection, false);
      private.Success? &&
      LegacyInternet(doc, PrivateSection) <= private.value &&
      (MapMatchesRows(m, ComboRows(doc.sections[PrivateSection])) ==>
        private.value == LegacyInternet(doc, PrivateSection) + LegacyCombo(doc, PrivateSection, "_ч", FromMap(m)))
  {
    var pct := doc.sections[PrivateSection].combo.value.next.value;
    var pi := LegacyInternet(doc, PrivateSection);
    var private := SectionResult(doc, PrivateSection, false);
    assert private.value == pi + ComboRecords(pct.head.value, pct.body.value, "_ч");
    if MapMatchesRows(m, ComboRows(doc.sections[PrivateSection])) {
      MatchingMapIsRefactored(pct.head.value, pct.body.value, "_ч", m);
    }
  }

  /** On a page whose two sections are laid out as expected, both scrapers
      read the same MKD records and the same private internet records; they
      differ at most in the private combo records' channel counts, and not
      at all when the MKD map agrees with every private combo row. */
  lemma LegacyAgreesWithRefactored(doc: Document)
    requires MkdSection in doc.sections && WellFormed(doc.sections[MkdSection])
    requires PrivateSection in doc.sections && WellFormed(doc.sections[PrivateSection])
    ensures var mkdCombo := LegacyCombo(doc, MkdSection, "", OwnCell);
      MapMatchesRows(LegacyMap(mkdCombo), ComboRows(doc.sections[PrivateSection])) ==>
        ParseAllResult(Success(doc)) == Success(LegacyRecords(doc))
  {
    var mkdCombo := LegacyCombo(doc, MkdSection, "", OwnCell);
    MkdAgrees(doc);
    PrivateAgrees(doc, LegacyMap(mkdCombo));
    if MapMatchesRows(LegacyMap(mkdCombo), ComboRows(doc.sections[PrivateSection])) {
      ParseAllKeepsEverything(doc);
      var mi, pi := LegacyInternet(doc, MkdSection), LegacyInternet(doc, PrivateSection);
      var pc := LegacyCombo(doc, PrivateSection, "_ч", FromMap(LegacyMap(mkdCombo)));
      assert mi + mkdCombo + pi + pc == (mi + mkdCombo) + (pi + pc);
    }
  }
}
