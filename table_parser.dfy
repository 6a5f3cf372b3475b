/** `TableParser` (src/parser/table_parser.py): a flat internet table gives
    one tariff per row, a combo table one tariff per row and priced speed
    column. */
module TableParser {
  import opened Wrappers
  import opened Strings
  import opened Folds
  import opened DataExtractor
  import opened TariffModel
  import opened Page

  // ---------------------------------------------------------------- internet

  /** The tariff an internet-table row contributes: name from cell 0, price
      from cell 1, speed from cell 3; rows with fewer than four cells, an
      empty name or no price contribute none. */
  function InternetRecord(cells: Row): Option<Tariff> {
    if |cells| >= 4 then
      var name := Strip(cells[0]);
      var price := ExtractNumber(cells[1]);
      var speed := ExtractSpeed(cells[3]);
      if name != [] && price.Some? then Some(NewTariff(name, None, speed, price)) else None
    else None
  }

  /** The records of the rows, in row order. */
  function InternetRecords(rows: seq<Row>): seq<Tariff> {
    Collect(rows, InternetRecord)
  }

  /** `parse_internet_table`. */
  method ParseInternetTable(table: Table) returns (r: Result<seq<Tariff>, ParseError>)
    ensures table.body.None? ==> r == Failure(MissingBody)
    ensures table.body.Some? ==> r == Success(InternetRecords(table.body.value))
  {
    if table.body.None? {
      return Failure(MissingBody);
    }
    var rows := table.body.value;
    var tariffs: seq<Tariff> := [];
    for i := 0 to |rows|
      invariant tariffs == InternetRecords(rows[..i])
    {
      var cells := rows[i];
      CollectSnoc(rows, InternetRecord, i);
      if |cells| >= 4 {
        var name := Strip(cells[0]);
        var price := ExtractNumber(cells[1]);
        var speed := ExtractSpeed(cells[3]);
        if name != [] && price.Some? {
          tariffs := tariffs + [NewTariff(name, None, speed, price)];
        }
      }
    }
    assert rows[..|rows|] == rows;
    return Success(tariffs);
  }

  /** A row contributes a record exactly when it has four cells, a name that
      is not all whitespace and a digit in its price cell; the record is
      named by cell 0, priced by cell 1 and timed by cell 3, with no channel
      count. */
  lemma InternetRecordMeaning(cells: Row)
    ensures InternetRecord(cells).Some? <==> |cells| >= 4 && NonWs(cells[0]) != [] && !NoDigit(cells[1])
    ensures InternetRecord(cells).Some? ==>
      var t := InternetRecord(cells).value;
      t.name == NormalizeName(Strip(cells[0])) &&
      t.name != [] && t.price == ExtractNumber(cells[1]) && t.price.Some? && t.channels.None? &&
      t.speed == NormalizeSpeed(ExtractSpeed(cells[3])) &&
      NonWs(t.name) == NonWs(cells[0])
  {
    InternetRecordPresent(cells);
    if InternetRecord(cells).Some? {
      InternetRecordFields(cells);
    }
  }

  lemma InternetRecordPresent(cells: Row)
    ensures InternetRecord(cells).Some? <==> |cells| >= 4 && NonWs(cells[0]) != [] && !NoDigit(cells[1])
  {
    if |cells| >= 4 {
      var name := Strip(cells[0]);
      StripKeepsNonWs(cells[0]);
      NormalizeNameEmptyIff(name);
      NormalizeNameEmptyIff(cells[0]);
      if name == [] {
        assert NonWs(name) == [];
      }
    }
  }

  lemma InternetRecordFields(cells: Row)
    requires InternetRecord(cells).Some?
    ensures var t := InternetRecord(cells).value;
      t.name == NormalizeName(Strip(cells[0])) &&
      t.name != [] && t.price == ExtractNumber(cells[1]) && t.price.Some? && t.channels.None? &&
      t.speed == NormalizeSpeed(ExtractSpeed(cells[3])) &&
      NonWs(t.name) == NonWs(cells[0])
  {
    var name := Strip(cells[0]);
    StripKeepsNonWs(cells[0]);
    NormalizeNameKeepsNonWs(name);
  }

  /** Each row contributes at most one record. */
  lemma InternetRecordsLength(rows: seq<Row>)
    ensures |InternetRecords(rows)| <= |rows|
  {
    CollectLength(rows, InternetRecord);
  }

  /** Records keep row order: the records of two blocks of rows are those of
      the first block followed by those of the second. */
  lemma InternetRecordsAppend(a: seq<Row>, b: seq<Row>)
    ensures InternetRecords(a + b) == InternetRecords(a) + InternetRecords(b)
  {
    CollectAppend(a, b, InternetRecord);
  }

  /** Every record comes from some row, and every row's record is there. */
  lemma InternetRecordsMembers(rows: seq<Row>, t: Tariff)
    ensures t in InternetRecords(rows) <==> exists i | 0 <= i < |rows| :: InternetRecord(rows[i]) == Some(t)
  {
    CollectMembers(rows, InternetRecord, t);
  }

  // -------------------------------------------------------------- combo cells

  /** `re.search(r'(\d+)', text)`: the first run of digits. */
  function FirstDigitRun(s: string): (r: Option<string>)
    ensures r.Some? ==> r.value != [] && AllDigits(r.value)
  {
    if s == [] then None
    else if IsDigit(s[0]) then Some(s[..DigitPrefixLen(s)])
    else FirstDigitRun(s[1..])
  }

  /** The speed tier of a combo header: the value of its first digit run. */
  function HeaderTier(h: string): Option<real> {
    match FirstDigitRun(h)
    case Some(ds) => Some(DigitsValue(ds) as real)
    case None => None
  }

  /** A header has a tier exactly when it has a digit. */
  lemma {:induction false} HeaderTierNoneIff(h: string)
    ensures HeaderTier(h).None? <==> NoDigit(h)
  {
    if h != [] && !IsDigit(h[0]) {
      HeaderTierNoneIff(h[1..]);
      assert NoDigit(h) <==> NoDigit(h[1..]) by {
        if NoDigit(h[1..]) {
          forall i | 0 <= i < |h| ensures !IsDigit(h[i]) {
            if i > 0 { assert h[i] == h[1..][i - 1]; }
          }
        }
        if NoDigit(h) {
          forall i | 0 <= i < |h[1..]| ensures !IsDigit(h[1..][i]) {
            assert h[1..][i] == h[i + 1];
          }
        }
      }
    } else if h != [] {
      assert !NoDigit(h) by { assert IsDigit(h[0]); }
    }
  }

  /** The tier is the number in front, whatever text surrounds it. */
  lemma {:induction false} HeaderTierOf(p: string, ds: string, q: string)
    requires NoDigit(p) && ds != [] && AllDigits(ds)
    requires q == [] || !IsDigit(q[0])
    ensures HeaderTier(p + ds + q) == Some(DigitsValue(ds) as real)
    decreases |p|
  {
    var s := p + ds + q;
    if p == [] {
      assert s == ds + q;
      DigitPrefixLenOf(ds, q);
      assert s[..|ds|] == ds;
    } else {
      assert s[1..] == p[1..] + ds + q;
      assert !IsDigit(s[0]);
      HeaderTierOf(p[1..], ds, q);
    }
  }

  /** The number of price columns: one per header after the first. */
  function Columns(headers: seq<string>): nat {
    if headers == [] then 0 else |headers| - 1
  }

  /** `re.sub(pattern, '', s[i..])` for a pattern that never matches the
      empty string: `m(k)` is the index just past the match that starts at k,
      if one does.  Matches are dropped and every other character is kept,
      scanning left to right.  (A match always ends past its start; the test
      `m(i).value > i` only lets the scan be seen to move forwards.) */
  function Remove(s: string, i: nat, m: nat -> Option<nat>): string
    decreases |s| - i
  {
    if i >= |s| then []
    else if m(i).Some? && m(i).value > i then Remove(s, m(i).value, m)
    else [s[i]] + Remove(s, i + 1, m)
  }

  /** Where a match can start nowhere, the text is copied. */
  lemma {:induction false} RemovePlain(s: string, i: nat, j: nat, m: nat -> Option<nat>)
    requires i <= j <= |s| && forall k | i <= k < j :: m(k).None?
    ensures Remove(s, i, m) == s[i..j] + Remove(s, j, m)
    decreases j - i
  {
    if i < j {
      RemovePlain(s, i + 1, j, m);
      assert s[i..j] == [s[i]] + s[i + 1..j];
      AppendAssoc([s[i]], s[i + 1..j], Remove(s, j, m));
    }
  }

  /** A match is dropped whole. */
  lemma RemoveSkips(s: string, i: nat, m: nat -> Option<nat>)
    requires i < |s| && m(i).Some? && m(i).value > i
    ensures Remove(s, i, m) == Remove(s, m(i).value, m)
  {
  }

  /** `\s*\(\d+\s*каналов?\)` at k, case-sensitively: the index past the
      parenthesised channel count that follows the whitespace run at k. */
  function GroupEndOf(s: string, k: nat): Option<nat> {
    if k < |s| then GroupAfterWs(s, k, WsPrefixLen(s[k..])) else None
  }

  /** The index past the group that follows w whitespace characters at k,
      if there is one. */
  function GroupAfterWs(s: string, k: nat, w: nat): Option<nat> {
    var g := ParenGroupAt(s, k + w, false);
    if g.Some? then Some(g.value.1) else None
  }

  /** `GroupEndOf` as the match function of `Remove`. */
  function GroupEnd(s: string): nat -> Option<nat> {
    k => GroupEndOf(s, k)
  }

  /** `re.sub(r'\s*\(\d+\s*каналов?\)', '', s[i..])`: every parenthesised
      channel count, with the whitespace before it, removed. */
  function RemoveGroups(s: string, i: nat): string {
    Remove(s, i, GroupEnd(s))
  }

  /** The row name without its channel count. */
  function CleanName(base: string): string {
    Strip(RemoveGroups(base, 0))
  }

  /** No group starts at k when the whitespace run there is not followed by
      an opening parenthesis. */
  lemma NoGroupAt(s: string, k: nat)
    requires k < |s|
    requires var p := k + WsPrefixLen(s[k..]); p == |s| || s[p] != '('
    ensures GroupEnd(s)(k).None?
  {
  }

  /** Text without an opening parenthesis passes through untouched. */
  lemma RemoveGroupsNoParen(s: string, i: nat)
    requires i <= |s| && forall k | i <= k < |s| :: s[k] != '('
    ensures RemoveGroups(s, i) == s[i..]
  {
    forall k | i <= k < |s| ensures GroupEnd(s)(k).None? {
      NoGroupAt(s, k);
    }
    RemovePlain(s, i, |s|, GroupEnd(s));
    assert s[i..|s|] + [] == s[i..];
  }

  /** The whitespace run at i ends at a character that is no whitespace. */
  lemma WsRunBound(s: string, i: nat, j: nat)
    requires i <= j < |s| && !IsWs(s[j])
    ensures i + WsPrefixLen(s[i..]) <= j
  {
    assert s[i..][j - i] == s[j];
    WsPrefixLenBefore(s[i..], j - i);
  }

  /** Text without an opening parenthesis that ends in a character other
      than whitespace is kept, whatever follows it. */
  lemma RemoveGroupsPlain(s: string, i: nat, j: nat)
    requires i <= j <= |s| && forall k | i <= k < j :: s[k] != '('
    requires i < j ==> !IsWs(s[j - 1])
    ensures RemoveGroups(s, i) == s[i..j] + RemoveGroups(s, j)
  {
    forall k | i <= k < j ensures GroupEnd(s)(k).None? {
      WsRunBound(s, k, j - 1);
      NoGroupAt(s, k);
    }
    RemovePlain(s, i, j, GroupEnd(s));
  }

  /** A channel group at the end of the whitespace run at i is dropped with
      that whitespace. */
  lemma RemoveGroupsSkips(s: string, i: nat, w: nat, e: nat)
    requires i < |s| && WsPrefixLen(s[i..]) == w
    requires ParenGroupAt(s, i + w, false).Some? && ParenGroupAt(s, i + w, false).value.1 == e
    ensures RemoveGroups(s, i) == RemoveGroups(s, e)
  {
    GroupEndAt(s, i, w, e);
    RemoveSkips(s, i, GroupEnd(s));
  }

  lemma GroupEndAt(s: string, i: nat, w: nat, e: nat)
    requires i < |s| && WsPrefixLen(s[i..]) == w
    requires ParenGroupAt(s, i + w, false).Some? && ParenGroupAt(s, i + w, false).value.1 == e
    ensures GroupEnd(s)(i) == Some(e) && i < e
  {
    GroupEndOfAt(s, i, w, e);
    assert GroupEnd(s)(i) == GroupEndOf(s, i);
  }

  lemma GroupEndOfAt(s: string, i: nat, w: nat, e: nat)
    requires i < |s| && WsPrefixLen(s[i..]) == w
    requires ParenGroupAt(s, i + w, false).Some? && ParenGroupAt(s, i + w, false).value.1 == e
    ensures GroupEndOf(s, i) == Some(e)
  {
    assert GroupEndOf(s, i) == GroupAfterWs(s, i, w);
  }

  /** A channel group after one space is dropped with the space, and the
      group-free text after it is kept. */
  lemma RemoveGroupsOfGroup(s: string, m: nat, ds: string, q: string)
    requires ds != [] && AllDigits(ds) && '(' !in q
    requires m <= |s| && s[m..] == " " + ("(" + ds + " каналов)" + q)
    ensures RemoveGroups(s, m) == q
  {
    var group := "(" + ds + " каналов)";
    assert group[0] == '(';
    SpacedGroupSlices(s, m, group, q);
    ParenGroupOfRendered(s, m + 1, ds, q, false);
    var e := m + 1 + |group|;
    RemoveGroupsSkips(s, m, 1, e);
    RemoveGroupsNoParen(s, e);
  }

  /** One space, then a group starting with a visible character, then the
      rest. */
  lemma SpacedGroupSlices(s: string, m: nat, group: string, q: string)
    requires group != [] && !IsWs(group[0])
    requires m <= |s| && s[m..] == " " + (group + q)
    ensures WsPrefixLen(s[m..]) == 1
    ensures s[m + 1..] == group + q && s[m + 1 + |group|..] == q
  {
    var g := group + q;
    WsPrefixLenOf(" ", g);
    SliceOfSlice(s, m, 1);
    DropAppend(" ", g);
    SliceOfSlice(s, m + 1, |group|);
    DropAppend(group, q);
  }

  /** Cleaning "name (N каналов)…" gives the name back. */
  lemma CleanNameOfCount(name: string, ds: string, q: string)
    requires '(' !in name && '(' !in q && ds != [] && AllDigits(ds)
    requires name != [] ==> !IsWs(name[|name| - 1])
    ensures CleanName(name + " (" + ds + " каналов)" + q) == Strip(name + q)
  {
    var g := " " + ("(" + ds + " каналов)" + q);
    assert " (" + ds + " каналов)" + q == g;
    AppendAssoc(name + " (" + ds, " каналов)", q);
    AppendAssoc(name + " (", ds, " каналов)" + q);
    AppendAssoc(name, " (", ds + (" каналов)" + q));
    AppendAssoc(" (", ds, " каналов)" + q);
    AppendAssoc(" (" + ds, " каналов)", q);
    var s := name + g;
    assert s == name + " (" + ds + " каналов)" + q;
    var m := |name|;
    assert s[..m] == name;
    RemoveGroupsPlain(s, 0, m);
    assert s[m..] == g;
    RemoveGroupsOfGroup(s, m, ds, q);
    assert RemoveGroups(s, 0) == name + q;
  }

  /** The count in "name (N каналов)…" is the channel count of the row. */
  lemma ChannelsOfCount(name: string, ds: string, q: string)
    requires '(' !in name && ds != [] && AllDigits(ds)
    ensures ExtractChannels(name + " (" + ds + " каналов)" + q) == Some(DigitsValue(ds))
  {
    assert name + " (" + ds + " каналов)" + q == (name + " ") + "(" + ds + " каналов)" + q;
    ParenthesisedDigitsWin(name + " ", ds, q);
  }

  // ------------------------------------------------------------- combo table

  /** The name of the record for a price column. */
  function ComboName(clean: string, header: string, suffix: string): string {
    clean + " + " + Strip(header) + suffix
  }

  /** What a combo row gives every one of its records, worked out once from
      cell 0: the name without its channel count, and the channel count. */
  datatype RowHead = RowHead(clean: string, channels: Option<nat>)

  function HeadOf(first: string): RowHead {
    var base := Strip(first);
    RowHead(CleanName(base), ExtractChannels(base))
  }

  /** The record of price column i of a combo row: present when the row has
      that column, the column has a tier and its cell has a price. */
  function ColumnRecord(headers: seq<string>, cells: Row, head: RowHead, suffix: string, i: nat): Option<Tariff>
    requires i < Columns(headers)
  {
    var tier := HeaderTier(headers[i + 1]);
    if i < |cells| - 1 && tier.Some? then
      var price := ExtractNumber(cells[i + 1]);
      if price.Some? then
        Some(NewTariff(ComboName(head.clean, headers[i + 1], suffix), head.channels, tier, price))
      else None
    else None
  }

  /** The record of each price column of a row, as a function of the column. */
  function ColumnOf(headers: seq<string>, cells: Row, head: RowHead, suffix: string): nat -> Option<Tariff> {
    (i: nat) => if i < Columns(headers) then ColumnRecord(headers, cells, head, suffix, i) else None
  }

  /** The records of the first n price columns of a row, in column order. */
  function RowRecords(headers: seq<string>, cells: Row, head: RowHead, suffix: string, n: nat): seq<Tariff>
    requires n <= Columns(headers)
  {
    CollectUpTo(n, ColumnOf(headers, cells, head, suffix))
  }

  /** The records of a combo row; a row without cells gives none. */
  function ComboRowRecords(headers: seq<string>, cells: Row, suffix: string): seq<Tariff> {
    if cells == [] then [] else RowRecords(headers, cells, HeadOf(cells[0]), suffix, Columns(headers))
  }

  /** The records of each row, one row after another. */
  function Gather(rows: seq<Row>, f: Row -> seq<Tariff>): seq<Tariff> {
    if rows == [] then [] else Gather(rows[..|rows| - 1], f) + f(rows[|rows| - 1])
  }

  /** Gathering keeps row order across blocks of rows. */
  lemma {:induction false} GatherAppend(a: seq<Row>, b: seq<Row>, f: Row -> seq<Tariff>)
    ensures Gather(a + b, f) == Gather(a, f) + Gather(b, f)
    decreases |b|
  {
    if b == [] {
      assert a + b == a;
    } else {
      var ab := a + b;
      var b' := b[..|b| - 1];
      assert ab[..|ab| - 1] == a + b';
      assert ab[|ab| - 1] == b[|b| - 1];
      GatherAppend(a, b', f);
      AppendAssoc(Gather(a, f), Gather(b', f), f(b[|b| - 1]));
    }
  }

  /** A combo row's records, as a function of the row. */
  function ComboRow(headers: seq<string>, suffix: string): Row -> seq<Tariff> {
    cells => ComboRowRecords(headers, cells, suffix)
  }

  /** The records of the rows, row by row. */
  function ComboRecords(headers: seq<string>, rows: seq<Row>, suffix: string): seq<Tariff> {
    Gather(rows, ComboRow(headers, suffix))
  }

  /** `parse_combo_table`: the tiers are read from the header first. */
  method ParseComboTable(table: Table, suffix: string) returns (r: Result<seq<Tariff>, ParseError>)
    ensures table.head.None? ==> r == Failure(MissingHead)
    ensures table.head.Some? && table.body.None? ==> r == Failure(MissingBody)
    ensures table.head.Some? && table.body.Some? ==>
      r == Success(ComboRecords(table.head.value, table.body.value, suffix))
  {
    if table.head.None? {
      return Failure(MissingHead);
    }
    var headers := table.head.value;
    var speeds: seq<Option<real>> := [];
    for j := 0 to Columns(headers)
      invariant |speeds| == j && forall k | 0 <= k < j :: speeds[k] == HeaderTier(headers[k + 1])
    {
      speeds := speeds + [HeaderTier(headers[j + 1])];
    }
    if table.body.None? {
      return Failure(MissingBody);
    }
    var rows := table.body.value;
    var tariffs: seq<Tariff> := [];
    for ri := 0 to |rows|
      invariant tariffs == ComboRecords(headers, rows[..ri], suffix)
    {
      var cells := rows[ri];
      if cells != [] {
        var records := ComboRowTariffs(headers, speeds, cells, suffix);
        tariffs := tariffs + records;
      }
      ComboRecordsSnoc(headers, rows, ri, suffix);
    }
    assert rows[..|rows|] == rows;
    return Success(tariffs);
  }

  /** The inner loop of `parse_combo_table`: one row's records, given the
      tiers read from the header. */
  method ComboRowTariffs(headers: seq<string>, speeds: seq<Option<real>>, cells: Row, suffix: string)
    returns (tariffs: seq<Tariff>)
    requires cells != []
    requires |speeds| == Columns(headers)
    requires forall k | 0 <= k < Columns(headers) :: speeds[k] == HeaderTier(headers[k + 1])
    ensures tariffs == ComboRowRecords(headers, cells, suffix)
  {
    var baseName := Strip(cells[0]);
    var channels := ExtractChannels(baseName);
    var cleanName := CleanName(baseName);
    ghost var head := RowHead(cleanName, channels);
    assert head == HeadOf(cells[0]);
    tariffs := [];
    for i := 0 to |speeds|
      invariant tariffs == RowRecords(headers, cells, head, suffix, i)
    {
      ColumnStep(headers, cells, head, suffix, i);
      if i < |cells| - 1 && speeds[i].Some? {
        var price := ExtractNumber(cells[i + 1]);
        if price.Some? {
          var tariffName := cleanName + " + " + Strip(headers[i + 1]) + suffix;
          tariffs := tariffs + [NewTariff(tariffName, channels, speeds[i], price)];
        }
      }
    }
  }

  /** One more price column adds that column's record, if any, at the end. */
  lemma ColumnStep(headers: seq<string>, cells: Row, head: RowHead, suffix: string, i: nat)
    requires i < Columns(headers)
    ensures RowRecords(headers, cells, head, suffix, i + 1) ==
      RowRecords(headers, cells, head, suffix, i) +
      var tier := HeaderTier(headers[i + 1]);
      if i < |cells| - 1 && tier.Some? then
        var price := ExtractNumber(cells[i + 1]);
        if price.Some? then [NewTariff(head.clean + " + " + Strip(headers[i + 1]) + suffix, head.channels, tier, price)]
        else []
      else []
  {
  }

  /** One more row adds that row's records at the end. */
  lemma ComboRecordsSnoc(headers: seq<string>, rows: seq<Row>, ri: nat, suffix: string)
    requires ri < |rows|
    ensures ComboRecords(headers, rows[..ri + 1], suffix) ==
      ComboRecords(headers, rows[..ri], suffix) + ComboRowRecords(headers, rows[ri], suffix)
  {
    assert rows[..ri + 1][..ri] == rows[..ri];
  }

  /** A column gives a record exactly when the row reaches it, its header has
      a digit and its cell has a digit; the record carries the column's tier
      as its speed, the price of its cell and the row's channel count. */
  lemma ColumnRecordMeaning(headers: seq<string>, cells: Row, head: RowHead, suffix: string, i: nat)
    requires i < Columns(headers)
    ensures ColumnRecord(headers, cells, head, suffix, i).Some? <==>
      i < |cells| - 1 && !NoDigit(headers[i + 1]) && !NoDigit(cells[i + 1])
    ensures ColumnRecord(headers, cells, head, suffix, i).Some? ==>
      var t := ColumnRecord(headers, cells, head, suffix, i).value;
      t.speed == NormalizeSpeed(HeaderTier(headers[i + 1])) &&
      t.price == ExtractNumber(cells[i + 1]) &&
      t.channels == head.channels
  {
    HeaderTierNoneIff(headers[i + 1]);
  }

  /** A row gives at most one record per price column it has. */
  lemma RowRecordsLength(headers: seq<string>, cells: Row, head: RowHead, suffix: string, n: nat)
    requires n <= Columns(headers)
    ensures |RowRecords(headers, cells, head, suffix, n)| <= n
    ensures cells != [] ==> |RowRecords(headers, cells, head, suffix, n)| <= |cells| - 1
  {
    var f := ColumnOf(headers, cells, head, suffix);
    CollectUpToLength(n, f);
    if cells != [] && |cells| - 1 < n {
      var m := |cells| - 1;
      forall i | m <= i < n ensures f(i).None? {
      }
      CollectUpToNoneTail(n, m, f);
      CollectUpToLength(m, f);
    }
  }

  /** A combo row yields at most min(len(cells) - 1, len(headers) - 1) records. */
  lemma ComboRowRecordsLength(headers: seq<string>, cells: Row, suffix: string)
    ensures cells == [] ==> ComboRowRecords(headers, cells, suffix) == []
    ensures cells != [] ==>
      |ComboRowRecords(headers, cells, suffix)| <= |cells| - 1 &&
      |ComboRowRecords(headers, cells, suffix)| <= Columns(headers)
  {
    if cells != [] {
      RowRecordsLength(headers, cells, HeadOf(cells[0]), suffix, Columns(headers));
    }
  }

  /** What every record of a row shares: the row's channel count, a price,
      a name, and the suffix at the end of the name when the suffix is one
      word. */
  predicate OfRow(t: Tariff, channels: Option<nat>, suffix: string) {
    t.channels == channels && t.price.Some? && t.name != [] &&
    (suffix != [] && NoWs(suffix) ==> EndsWith(t.name, suffix))
  }

  /** A column's record shares the row's properties. */
  lemma ColumnRecordShared(headers: seq<string>, cells: Row, head: RowHead, suffix: string, i: nat)
    requires i < Columns(headers)
    ensures ColumnRecord(headers, cells, head, suffix, i).Some? ==>
      OfRow(ColumnRecord(headers, cells, head, suffix, i).value, head.channels, suffix)
  {
    if ColumnRecord(headers, cells, head, suffix, i).Some? {
      ComboNameNotEmpty(head.clean, headers[i + 1], suffix);
      if suffix != [] && NoWs(suffix) {
        assert ComboName(head.clean, headers[i + 1], suffix) == (head.clean + " + " + Strip(headers[i + 1])) + suffix;
        NormalizeNameKeepsSuffix(head.clean + " + " + Strip(headers[i + 1]), suffix);
      }
    }
  }

  /** Every record in `ts` shares the row's properties. */
  predicate AllOfRow(ts: seq<Tariff>, channels: Option<nat>, suffix: string) {
    forall t | t in ts :: OfRow(t, channels, suffix)
  }

  /** Every record of a row shares the row's properties. */
  lemma RowRecordsShared(headers: seq<string>, cells: Row, head: RowHead, suffix: string, n: nat)
    requires n <= Columns(headers)
    ensures AllOfRow(RowRecords(headers, cells, head, suffix, n), head.channels, suffix)
  {
    var f := ColumnOf(headers, cells, head, suffix);
    var p := (t: Tariff) => OfRow(t, head.channels, suffix);
    forall i | 0 <= i < n ensures f(i).Some? ==> p(f(i).value) {
      ColumnRecordShared(headers, cells, head, suffix, i);
    }
    CollectUpToAll(n, f, p);
  }

  /** Every record of a combo row carries the channel count of its first
      cell, a price and a name. */
  lemma ComboRowRecordsShared(headers: seq<string>, cells: Row, suffix: string)
    ensures forall t | t in ComboRowRecords(headers, cells, suffix) ::
      OfRow(t, ExtractChannels(Strip(cells[0])), suffix)
  {
    if cells != [] {
      RowRecordsShared(headers, cells, HeadOf(cells[0]), suffix, Columns(headers));
    }
  }

  /** A combo name is never empty once normalised: it holds a "+". */
  lemma ComboNameNotEmpty(clean: string, header: string, suffix: string)
    ensures NormalizeName(ComboName(clean, header, suffix)) != []
  {
    var name := ComboName(clean, header, suffix);
    var front := clean + " + ";
    assert name == front + (Strip(header) + suffix);
    assert front[|clean| + 1] == '+';
    assert name[|clean| + 1] == '+';
    NonWsOfVisible(name, |clean| + 1);
    NormalizeNameEmptyIff(name);
  }

  /** Two rows of the same length agree on every cell of a column with a
      tier. */
  predicate AgreeOnTiers(headers: seq<string>, cells: Row, cells': Row) {
    |cells'| == |cells| &&
    forall i {:trigger HeaderTier(headers[i])} | 1 <= i < |headers| && i < |cells| && HeaderTier(headers[i]).Some? :: cells'[i] == cells[i]
  }

  /** A column's record reads its own cell only when its header has a tier. */
  lemma ColumnRecordReads(headers: seq<string>, cells: Row, cells': Row, head: RowHead, suffix: string, i: nat)
    requires AgreeOnTiers(headers, cells, cells') && i < Columns(headers)
    ensures ColumnRecord(headers, cells', head, suffix, i) == ColumnRecord(headers, cells, head, suffix, i)
  {
  }

  /** The cells of columns without a tier are never read: changing them
      changes no record. */
  lemma TierlessColumnsIgnored(headers: seq<string>, cells: Row, cells': Row, head: RowHead, suffix: string, n: nat)
    requires AgreeOnTiers(headers, cells, cells') && n <= Columns(headers)
    ensures RowRecords(headers, cells', head, suffix, n) == RowRecords(headers, cells, head, suffix, n)
  {
    var f := ColumnOf(headers, cells', head, suffix);
    var g := ColumnOf(headers, cells, head, suffix);
    forall i | 0 <= i < n ensures f(i) == g(i) {
      ColumnRecordReads(headers, cells, cells', head, suffix, i);
    }
    CollectUpToCongruent(n, f, g);
  }

  /** A combo row's records depend on its first cell and its tiered cells
      only. */
  lemma ComboRowTierless(headers: seq<string>, cells: Row, cells': Row, suffix: string)
    requires cells != [] && AgreeOnTiers(headers, cells, cells') && cells'[0] == cells[0]
    ensures ComboRowRecords(headers, cells', suffix) == ComboRowRecords(headers, cells, suffix)
  {
    TierlessColumnsIgnored(headers, cells, cells', HeadOf(cells[0]), suffix, Columns(headers));
  }

  /** Records keep row order across blocks of rows. */
  lemma ComboRecordsAppend(headers: seq<string>, a: seq<Row>, b: seq<Row>, suffix: string)
    ensures ComboRecords(headers, a + b, suffix) == ComboRecords(headers, a, suffix) + ComboRecords(headers, b, suffix)
  {
    GatherAppend(a, b, ComboRow(headers, suffix));
  }

  /** Every combo record has a price and a name, ending with the suffix when
      that is one word. */
  lemma {:induction false} ComboRecordsValid(headers: seq<string>, rows: seq<Row>, suffix: string)
    ensures forall t | t in ComboRecords(headers, rows, suffix) ::
      t.price.Some? && t.name != [] && (suffix != [] && NoWs(suffix) ==> EndsWith(t.name, suffix))
  {
    if rows != [] {
      ComboRecordsValid(headers, rows[..|rows| - 1], suffix);
      ComboRowRecordsShared(headers, rows[|rows| - 1], suffix);
    }
  }

  /** Every internet record has a price and a name. */
  lemma InternetRecordsValid(rows: seq<Row>)
    ensures forall t | t in InternetRecords(rows) :: t.price.Some? && t.name != []
  {
    forall t | t in InternetRecords(rows) ensures t.price.Some? && t.name != [] {
      InternetRecordsMembers(rows, t);
      var i :| 0 <= i < |rows| && InternetRecord(rows[i]) == Some(t);
      InternetRecordFields(rows[i]);
    }
  }
}
