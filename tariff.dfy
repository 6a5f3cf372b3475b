/** The `Tariff` record (src/tariff.py): a tariff's name, channel count,
    speed in megabits per second and monthly price, normalised once when the
    record is built, and its rendering as a row of the export. */
module TariffModel {
  import opened Wrappers
  import opened Strings
  import opened Rounding

  datatype Tariff = Tariff(name: string, channels: Option<nat>, speed: Option<real>, price: Option<real>)

  // ------------------------------------------------------------------ names

  /** No whitespace but single spaces. */
  predicate Collapsed(s: string) {
    (forall i | 0 <= i < |s| :: IsWs(s[i]) ==> s[i] == ' ') &&
    (forall i, j {:trigger s[i], s[j]} | 0 <= i < |s| && 0 <= j < |s| && j == i + 1 :: !(IsWs(s[i]) && IsWs(s[j])))
  }

  /** Collapsed, and neither starting nor ending with a space. */
  predicate NormalForm(s: string) {
    Collapsed(s) && (s != [] ==> !IsWs(s[0]) && !IsWs(s[|s| - 1]))
  }

  /** `re.sub(r'\s+', ' ', s)`: every whitespace run becomes one space. */
  function Collapse(s: string): (r: string)
    ensures Collapsed(r)
    ensures s != [] ==> r != [] && (IsWs(r[0]) <==> IsWs(s[0]))
    decreases |s|
  {
    if s == [] then []
    else if IsWs(s[0]) then
      var k := WsPrefixLen(s);
      [' '] + Collapse(s[k..])
    else
      [s[0]] + Collapse(s[1..])
  }

  /** Collapsing only rewrites whitespace. */
  lemma {:induction false} CollapseKeepsNonWs(s: string)
    ensures NonWs(Collapse(s)) == NonWs(s)
    decreases |s|
  {
    if s != [] {
      if IsWs(s[0]) {
        var k := WsPrefixLen(s);
        CollapseKeepsNonWs(s[k..]);
        assert s == s[..k] + s[k..];
        NonWsAppend(s[..k], s[k..]);
        NonWsOfAllWs(s[..k]);
        NonWsAppend([' '], Collapse(s[k..]));
      } else {
        CollapseKeepsNonWs(s[1..]);
        NonWsAppend([s[0]], Collapse(s[1..]));
        assert s == [s[0]] + s[1..];
        NonWsAppend([s[0]], s[1..]);
      }
    }
  }

  /** A collapsed string is left as it is. */
  lemma {:induction false} CollapseOfCollapsed(s: string)
    requires Collapsed(s)
    ensures Collapse(s) == s
    decreases |s|
  {
    if s != [] {
      assert Collapsed(s[1..]) by {
        forall i | 0 <= i < |s[1..]| && IsWs(s[1..][i])
          ensures s[1..][i] == ' ' && (i + 1 < |s[1..]| ==> !IsWs(s[1..][i + 1]))
        {
          assert s[1..][i] == s[i + 1];
        }
      }
      CollapseOfCollapsed(s[1..]);
      if IsWs(s[0]) {
        assert s == [s[0]] + s[1..];
        WsPrefixLenOf([s[0]], s[1..]);
      }
    }
  }

  /** Collapsing distributes over a tail without whitespace. */
  lemma {:induction false} CollapseNoWsTail(x: string, y: string)
    requires y != [] && NoWs(y)
    ensures Collapse(x + y) == Collapse(x) + y
    decreases |x|
  {
    if x == [] {
      assert x + y == y;
      CollapseOfNoWs(y);
    } else if IsWs(x[0]) {
      var k := WsPrefixLen(x);
      CollapseWsStep(x, y, k);
      assert (x + y)[0] == x[0];
      CollapseNoWsTail(x[k..], y);
      AppendAssoc([' '], Collapse(x[k..]), y);
    } else {
      ConsAppend(x, y);
      CollapseNoWsTail(x[1..], y);
      AppendAssoc([x[0]], Collapse(x[1..]), y);
    }
  }

  /** Text without whitespace is left as it is. */
  lemma CollapseOfNoWs(y: string)
    requires NoWs(y)
    ensures Collapse(y) == y
  {
    assert Collapsed(y);
    CollapseOfCollapsed(y);
  }

  /** The leading whitespace run of `x + y` is that of `x` when it ends
      inside `x` or `y` does not continue it. */
  lemma CollapseWsStep(x: string, y: string, k: nat)
    requires k == WsPrefixLen(x) && (k < |x| || y == [] || !IsWs(y[0]))
    ensures WsPrefixLen(x + y) == k && (x + y)[k..] == x[k..] + y
  {
    var t := x[k..] + y;
    if k < |x| {
      assert t[0] == x[k];
    } else if y != [] {
      assert t[0] == y[0];
    }
    SlicesInFront(x, y, k);
    assert x + y == (x + y)[..k] + (x + y)[k..];
    WsPrefixLenOf(x[..k], t);
  }

  /** Collapsing distributes over a cut that splits no whitespace run. */
  lemma {:induction false} CollapseAppend(x: string, y: string)
    requires x == [] || y == [] || !IsWs(x[|x| - 1]) || !IsWs(y[0])
    ensures Collapse(x + y) == Collapse(x) + Collapse(y)
    decreases |x|
  {
    if x == [] {
      assert x + y == y;
    } else if IsWs(x[0]) {
      var k := WsPrefixLen(x);
      CollapseWsStep(x, y, k);
      assert (x + y)[0] == x[0];
      CollapseAppend(x[k..], y);
      AppendAssoc([' '], Collapse(x[k..]), Collapse(y));
    } else {
      ConsAppend(x, y);
      CollapseAppend(x[1..], y);
      AppendAssoc([x[0]], Collapse(x[1..]), Collapse(y));
    }
  }

  /** A whole whitespace run becomes a single space. */
  lemma CollapseOfWsRun(w: string)
    requires w != [] && AllWs(w)
    ensures Collapse(w) == " "
  {
    assert w + [] == w;
    WsPrefixLenOf(w, []);
  }

  /** Every whitespace run between visible text becomes exactly one space. */
  lemma CollapseRun(x: string, w: string, y: string)
    requires w != [] && AllWs(w)
    requires x == [] || !IsWs(x[|x| - 1])
    requires y == [] || !IsWs(y[0])
    ensures Collapse(x + w + y) == Collapse(x) + " " + Collapse(y)
  {
    CollapseAppend(x, w);
    CollapseAppend(x + w, y);
    CollapseOfWsRun(w);
  }

  /** The name a tariff is stored under: a non-empty name has its whitespace
      runs collapsed and is trimmed. */
  function NormalizeName(name: string): (r: string)
  {
    if name == [] then [] else Strip(Collapse(name))
  }

  /** Stripping a collapsed string leaves it collapsed. */
  lemma SliceOfCollapsed(s: string, a: nat, b: nat)
    requires Collapsed(s) && a <= b <= |s|
    ensures Collapsed(s[a..b])
  {
    forall i | 0 <= i < b - a && IsWs(s[a..b][i])
      ensures s[a..b][i] == ' ' && (i + 1 < b - a ==> !IsWs(s[a..b][i + 1]))
    {
      assert s[a..b][i] == s[a + i];
      if i + 1 < b - a {
        assert s[a..b][i + 1] == s[a + i + 1];
      }
    }
  }

  /** The stored name is in normal form. */
  lemma NormalizeNameNormalForm(name: string)
    ensures NormalForm(NormalizeName(name))
  {
    if name != [] {
      var c := Collapse(name);
      var a, b := StripSlice(c);
      SliceOfCollapsed(c, a, b);
    }
  }

  /** Normalising keeps every character that is not whitespace, in order. */
  lemma NormalizeNameKeepsNonWs(name: string)
    ensures NonWs(NormalizeName(name)) == NonWs(name)
  {
    if name != [] {
      StripKeepsNonWs(Collapse(name));
      CollapseKeepsNonWs(name);
    }
  }

  /** A name in normal form is stored unchanged. */
  lemma NormalFormIsFixed(s: string)
    requires NormalForm(s)
    ensures NormalizeName(s) == s
  {
    if s != [] {
      CollapseOfCollapsed(s);
      StripOfVisibleEnd(s);
      assert WsPrefixLen(s) == 0;
      assert s[0..] == s;
    }
  }

  /** Two names in normal form with any whitespace run between them are
      stored with a single space between them. */
  lemma NormalizeNameJoins(x: string, w: string, y: string)
    requires NormalForm(x) && NormalForm(y) && x != [] && y != []
    requires w != [] && AllWs(w)
    ensures NormalizeName(x + w + y) == x + " " + y
  {
    CollapseRun(x, w, y);
    CollapseOfCollapsed(x);
    CollapseOfCollapsed(y);
    var s := x + " " + y;
    assert s[|s| - 1] == y[|y| - 1];
    StripOfVisibleEnd(s);
    assert s[0] == x[0];
    assert WsPrefixLen(s) == 0;
    assert s[0..] == s;
  }

  /** Normalising twice is normalising once. */
  lemma NormalizeNameIdempotent(name: string)
    ensures NormalizeName(NormalizeName(name)) == NormalizeName(name)
  {
    NormalizeNameNormalForm(name);
    NormalFormIsFixed(NormalizeName(name));
  }

  /** The stored name is empty exactly when the given name is whitespace only. */
  lemma NormalizeNameEmptyIff(name: string)
    ensures NormalizeName(name) == [] <==> NonWs(name) == []
  {
    var r := NormalizeName(name);
    NormalizeNameKeepsNonWs(name);
    NormalizeNameNormalForm(name);
    if r != [] {
      NonWsOfVisibleStart(r);
    }
  }

  /** A name ending in a word without whitespace keeps that word at its end. */
  lemma NormalizeNameKeepsSuffix(x: string, y: string)
    requires y != [] && NoWs(y)
    ensures EndsWith(NormalizeName(x + y), y)
  {
    CollapseNoWsTail(x, y);
    StripKeepsNoWsSuffix(Collapse(x), y);
  }

  lemma StripKeepsNoWsSuffix(z: string, y: string)
    requires y != [] && NoWs(y)
    ensures EndsWith(Strip(z + y), y)
  {
    var c := z + y;
    assert c[|c| - 1] == y[|y| - 1];
    StripOfVisibleEnd(c);
    var a := WsPrefixLen(c);
    assert c[|z|] == y[0] && !IsWs(y[0]);
    WsPrefixLenBefore(c, |z|);
    SlicesInFront(z, y, a);
    EndsWithAppended(z[a..], y);
  }

  // ----------------------------------------------------------------- speeds

  /** `if speed and speed > 1000: speed = round(speed / 1000, 1)`: a speed
      given in kilobits is turned into megabits. */
  function NormalizeSpeed(speed: Option<real>): (r: Option<real>)
    ensures r.None? <==> speed.None?
  {
    match speed
    case Some(v) => if v != 0.0 && v > 1000.0 then Some(Round1(v / 1000.0)) else speed
    case None => None
  }

  /** Absent speeds and speeds up to 1000 are stored unchanged; larger ones
      are divided by 1000 and rounded to a tenth. */
  lemma NormalizeSpeedCases(speed: Option<real>)
    ensures speed.None? || speed.value <= 1000.0 ==> NormalizeSpeed(speed) == speed
    ensures speed.Some? && speed.value > 1000.0 ==>
              NormalizeSpeed(speed).value == Round1(speed.value / 1000.0) &&
              speed.value / 1000.0 - 0.05 < NormalizeSpeed(speed).value <= speed.value / 1000.0 + 0.05
  {
  }

  /** Up to 1000000 a normalised speed is at most 1000, so a second
      normalisation leaves it alone. */
  lemma NormalizeSpeedIdempotent(speed: Option<real>)
    requires speed.None? || speed.value <= 1000000.0
    ensures NormalizeSpeed(NormalizeSpeed(speed)) == NormalizeSpeed(speed)
  {
    if speed.Some? && speed.value > 1000.0 {
      Round1AtMost(speed.value / 1000.0, 1000);
    }
  }

  /** Beyond 1000000 the division is not idempotent: 2000000 becomes 2000,
      and 2000 would become 2. */
  lemma NormalizeSpeedTwiceDiffers()
    ensures NormalizeSpeed(Some(2000000.0)) == Some(2000.0)
    ensures NormalizeSpeed(NormalizeSpeed(Some(2000000.0))) == Some(2.0)
  {
    assert Round1(2000.0) == 2000.0;
    assert Round1(2.0) == 2.0;
  }

  lemma NormalizeSpeedExamples()
    ensures NormalizeSpeed(Some(1500.0)) == Some(1.5)
    ensures NormalizeSpeed(Some(50.0)) == Some(50.0)
    ensures NormalizeSpeed(Some(0.0)) == Some(0.0)
  {
    assert Round1(1.5) == 1.5;
  }

  // ---------------------------------------------------------------- records

  /** `Tariff(name, channels, speed, price)`, normalised by `__post_init__`. */
  function NewTariff(name: string, channels: Option<nat>, speed: Option<real>, price: Option<real>): Tariff {
    Tariff(NormalizeName(name), channels, NormalizeSpeed(speed), price)
  }

  /** Building a record normalises the name, keeping its visible characters,
      leaves the channel count and price as given, and keeps a speed present
      exactly when one is given. */
  lemma NewTariffMeaning(name: string, channels: Option<nat>, speed: Option<real>, price: Option<real>)
    ensures var t := NewTariff(name, channels, speed, price);
      t.name == NormalizeName(name) &&
      NormalForm(t.name) && NonWs(t.name) == NonWs(name) &&
      (t.name == [] <==> NonWs(name) == []) &&
      t.channels == channels && t.price == price &&
      (t.speed.None? <==> speed.None?)
  {
    NormalizeNameNormalForm(name);
    NormalizeNameKeepsNonWs(name);
    NormalizeNameEmptyIff(name);
  }

  /** A record built from values already in normal form holds them as given. */
  lemma NewTariffOfNormal(t: Tariff)
    requires NormalForm(t.name)
    requires t.speed.None? || t.speed.value <= 1000.0
    ensures NewTariff(t.name, t.channels, t.speed, t.price) == t
  {
    NormalFormIsFixed(t.name);
  }

  /** A value of the exported row: Python `str`, `int`, `float` or `None`. */
  datatype Cell = TextCell(text: string) | IntCell(whole: int) | RealCell(number: real) | NoneCell

  const Null: Cell := TextCell("null")

  /** `excel_channels`: the count, or the text "null" when there is none. */
  function ExcelChannels(t: Tariff): (c: Cell)
    ensures c == Null <==> t.channels.None?
    ensures c != Null ==> c == IntCell(t.channels.value)
  {
    match t.channels
    case Some(n) => IntCell(n)
    case None => Null
  }

  /** `excel_speed`: the speed, or the text "null" when there is none. */
  function ExcelSpeed(t: Tariff): (c: Cell)
    ensures c == Null <==> t.speed.None?
    ensures c != Null ==> c == RealCell(t.speed.value)
  {
    match t.speed
    case Some(v) => RealCell(v)
    case None => Null
  }

  const NameKey := "Название тарифа"
  const ChannelsKey := "Количество каналов"
  const SpeedKey := "Скорость доступа"
  const PriceKey := "Абонентская плата"

  /** The keys of `to_dict`, in insertion order. */
  const DictKeys: seq<string> := [NameKey, ChannelsKey, SpeedKey, PriceKey]

  /** `to_dict`: the four export columns, in order, as key–value pairs. */
  function ToDict(t: Tariff): (d: seq<(string, Cell)>)
    ensures |d| == |DictKeys| && forall i | 0 <= i < |d| :: d[i].0 == DictKeys[i]
    ensures d[0].1 == TextCell(t.name)
    ensures d[3].1 == (if t.price.Some? then RealCell(t.price.value) else NoneCell)
  {
    [ (NameKey, TextCell(t.name)),
      (ChannelsKey, ExcelChannels(t)),
      (SpeedKey, ExcelSpeed(t)),
      (PriceKey, match t.price case Some(p) => RealCell(p) case None => NoneCell) ]
  }

  /** Reads a row of the export back into a record. */
  function FromDict(d: seq<(string, Cell)>): Option<Tariff> {
    if |d| != 4 || (exists i | 0 <= i < 4 :: d[i].0 != DictKeys[i]) then None
    else
      var name := match d[0].1 case TextCell(s) => Some(s) case _ => None;
      var channels: Option<Option<nat>> :=
        match d[1].1
        case IntCell(n) => if n >= 0 then Some(Some(n as nat)) else None
        case TextCell(s) => if s == "null" then Some(None) else None
        case _ => None;
      var speed: Option<Option<real>> :=
        match d[2].1
        case RealCell(v) => Some(Some(v))
        case TextCell(s) => if s == "null" then Some(None) else None
        case _ => None;
      var price: Option<Option<real>> :=
        match d[3].1
        case RealCell(v) => Some(Some(v))
        case NoneCell => Some(None)
        case _ => None;
      if name.Some? && channels.Some? && speed.Some? && price.Some? then
        Some(Tariff(name.value, channels.value, speed.value, price.value))
      else None
  }

  /** The export row loses nothing: the record can be read back from it, the
      text "null" standing for an absent count or speed. */
  lemma FromDictToDict(t: Tariff)
    ensures FromDict(ToDict(t)) == Some(t)
  {
  }
}
