/** The text scanners of `DataExtractor` (src/parser/data_extractor.py): the
    first decimal number of a cell, a speed in megabits per second, and a TV
    channel count.  Each regular expression is written out as the match it
    finds with Python's leftmost, greedy search. */
module DataExtractor {
  import opened Wrappers
  import opened Strings
  import opened Rounding

  // ---------------------------------------------------------------- numbers

  /** `text.replace(' ', '').replace(',', '.')`: no space and no comma left. */
  function Squash(text: string): (r: string)
    ensures |r| <= |text|
    ensures forall i | 0 <= i < |r| :: r[i] != ' ' && r[i] != ','
  {
    if text == [] then []
    else (if text[0] == ' ' then [] else [if text[0] == ',' then '.' else text[0]]) + Squash(text[1..])
  }

  lemma {:induction false} SquashAppend(a: string, b: string)
    ensures Squash(a + b) == Squash(a) + Squash(b)
  {
    if a == [] {
      assert a + b == b;
    } else {
      assert (a + b)[0] == a[0];
      assert (a + b)[1..] == a[1..] + b;
      SquashAppend(a[1..], b);
    }
  }

  /** Deleting spaces and turning commas into points neither adds nor removes digits. */
  lemma {:induction false} SquashKeepsDigits(text: string)
    ensures NoDigit(Squash(text)) <==> NoDigit(text)
  {
    if text != [] {
      SquashKeepsDigits(text[1..]);
      var head := if text[0] == ' ' then [] else [if text[0] == ',' then '.' else text[0]];
      assert Squash(text) == head + Squash(text[1..]);
      if NoDigit(text[1..]) && !IsDigit(text[0]) {
        assert NoDigit(text) by {
          forall i | 0 <= i < |text| ensures !IsDigit(text[i]) {
            if i > 0 { assert text[i] == text[1..][i - 1]; }
          }
        }
      }
      if !NoDigit(text[1..]) {
        var i :| 0 <= i < |Squash(text[1..])| && IsDigit(Squash(text[1..])[i]);
        assert Squash(text)[|head| + i] == Squash(text[1..])[i];
        var j :| 0 <= j < |text[1..]| && IsDigit(text[1..][j]);
        assert text[j + 1] == text[1..][j];
      }
      if IsDigit(text[0]) {
        assert Squash(text)[0] == text[0];
      }
    }
  }

  lemma {:induction false} SquashOfPlain(s: string)
    requires forall i | 0 <= i < |s| :: s[i] != ' ' && s[i] != ','
    ensures Squash(s) == s
  {
    if s != [] {
      SquashOfPlain(s[1..]);
    }
  }

  /** The text `\d+\.?\d*` matches: digits, optionally a point and more digits. */
  predicate IsDecimalLexeme(lex: string) {
    var k := DigitPrefixLen(lex);
    k >= 1 && (k == |lex| || (lex[k] == '.' && AllDigits(lex[k + 1..])))
  }

  /** The greedy match of `\d+\.?\d*` at the start of `s`, which begins with a digit. */
  function LexemeAt(s: string): (lex: string)
    requires s != [] && IsDigit(s[0])
    ensures IsDecimalLexeme(lex) && lex <= s
    ensures |lex| < |s| ==> !IsDigit(s[|lex|]) && ('.' in lex || s[|lex|] != '.')
  {
    var k := DigitPrefixLen(s);
    LexemeFromShape(s, k);
    LexemeFrom(s, k)
  }

  /** The match once its leading digit run, k characters, is measured: the
      point and the digits after it join when a point follows. */
  function LexemeFrom(s: string, k: nat): string
    requires k <= |s|
  {
    if k < |s| && s[k] == '.' then s[..k + 1 + DigitPrefixLen(s[k + 1..])] else s[..k]
  }

  lemma LexemeFromShape(s: string, k: nat)
    requires s != [] && IsDigit(s[0]) && DigitPrefixLen(s) == k
    ensures var lex := LexemeFrom(s, k);
      IsDecimalLexeme(lex) && lex <= s &&
      (|lex| < |s| ==> !IsDigit(s[|lex|]) && ('.' in lex || s[|lex|] != '.'))
  {
    if k < |s| && s[k] == '.' {
      var m := DigitPrefixLen(s[k + 1..]);
      PointLexeme(s, k, m);
      PointLexemeShape(s, k, m);
    } else {
      WholeLexemeShape(s, k);
    }
  }

  lemma PointLexeme(s: string, k: nat, m: nat)
    requires k < |s| && s[k] == '.' && DigitPrefixLen(s[k + 1..]) == m
    ensures LexemeFrom(s, k) == s[..k + 1 + m]
  {
  }

  lemma PointLexemeShape(s: string, k: nat, m: nat)
    requires s != [] && IsDigit(s[0]) && DigitPrefixLen(s) == k
    requires k < |s| && s[k] == '.' && DigitPrefixLen(s[k + 1..]) == m
    ensures var lex := s[..k + 1 + m];
      IsDecimalLexeme(lex) && lex <= s &&
      (|lex| < |s| ==> !IsDigit(s[|lex|]) && '.' in lex)
  {
    var lex := s[..k + 1 + m];
    PointSplit(s, k, m);
    assert s[..k][0] == s[0];
    DecimalLexemeOf(s[..k], s[k + 1..][..m]);
    assert lex[k] == '.';
    if |lex| < |s| {
      DropIndex(s, k + 1, m);
    }
  }

  /** Digits, a point and digits form a lexeme. */
  lemma DecimalLexemeOf(ip: string, fp: string)
    requires ip != [] && AllDigits(ip) && AllDigits(fp)
    ensures IsDecimalLexeme((ip + ['.']) + fp)
  {
    var d := ['.'];
    var lex := (ip + d) + fp;
    AppendAssoc(ip, d, fp);
    DigitPrefixLenOf(ip, d + fp);
    DropAppend(ip, d + fp);
    assert lex[|ip|] == (d + fp)[0];
    assert lex[|ip|..][1..] == fp;
    assert lex[|ip| + 1..] == lex[|ip|..][1..];
  }

  lemma WholeLexemeShape(s: string, k: nat)
    requires s != [] && IsDigit(s[0]) && DigitPrefixLen(s) == k
    requires !(k < |s| && s[k] == '.')
    ensures var lex := s[..k];
      IsDecimalLexeme(lex) && lex <= s &&
      (|lex| < |s| ==> !IsDigit(s[|lex|]) && s[|lex|] != '.')
  {
    DigitPrefixLenOf(s[..k], []);
    assert s[..k] + [] == s[..k];
  }

  /** `re.search(r'(\d+\.?\d*)', s)`: the leftmost match, if any. */
  function MatchNumber(s: string): (m: Option<string>)
    ensures m.None? <==> NoDigit(s)
    ensures m.Some? ==> IsDecimalLexeme(m.value)
  {
    if s == [] then None
    else if IsDigit(s[0]) then Some(LexemeAt(s))
    else
      var m := MatchNumber(s[1..]);
      assert NoDigit(s[1..]) <==> NoDigit(s) by {
        forall i | 0 <= i < |s[1..]| ensures s[1..][i] == s[i + 1] { }
        if NoDigit(s[1..]) {
          forall i | 0 <= i < |s| ensures !IsDigit(s[i]) {
            if i > 0 { assert s[i] == s[1..][i - 1]; }
          }
        }
      }
      m
  }

  lemma {:induction false} MatchNumberSkips(a: string, b: string)
    requires NoDigit(a)
    ensures MatchNumber(a + b) == MatchNumber(b)
  {
    if a == [] {
      assert a + b == b;
    } else {
      assert (a + b)[0] == a[0];
      assert (a + b)[1..] == a[1..] + b;
      MatchNumberSkips(a[1..], b);
    }
  }

  /** The value of the digits after a decimal point: `0.` followed by them. */
  function FractionValue(fp: string): (v: real)
    requires AllDigits(fp)
    ensures 0.0 <= v < 1.0
  {
    DigitsValueBound(fp);
    QuotientBelowOne(DigitsValue(fp), Pow10(|fp|));
    DigitsValue(fp) as real / Pow10(|fp|) as real
  }

  lemma QuotientBelowOne(a: nat, b: nat)
    requires a < b
    ensures 0.0 <= a as real / b as real < 1.0
  {
    var x := a as real / b as real;
    assert x * b as real == a as real;
  }

  /** `float(lex)` for a lexeme of `\d+\.?\d*`: its integer part is the digits
      before the point. */
  function DecimalValue(lex: string): (v: real)
    requires IsDecimalLexeme(lex)
    ensures var n := DigitsValue(lex[..DigitPrefixLen(lex)]) as real; n <= v < n + 1.0
  {
    var k := DigitPrefixLen(lex);
    if k == |lex| then
      assert lex[..k] == lex;
      DigitsValue(lex) as real
    else
      DigitsValue(lex[..k]) as real + FractionValue(lex[k + 1..])
  }

  /** `DataExtractor.extract_number`: the first number in the text after spaces
      are deleted and commas read as decimal points; none exactly when the
      text has no digit; never negative, since no sign is captured. */
  function ExtractNumber(text: string): (r: Option<real>)
    ensures r.None? <==> NoDigit(text)
    ensures r.Some? ==> r.value >= 0.0
  {
    SquashKeepsDigits(text);
    if text == [] then None
    else
      match MatchNumber(Squash(text))
      case None => None
      case Some(lex) => Some(DecimalValue(lex))
  }

  /** Text without digits in front of a number is passed over. */
  lemma ExtractNumberSkipsPrefix(p: string, x: string)
    requires NoDigit(p)
    ensures ExtractNumber(p + x) == ExtractNumber(x)
  {
    if x == [] {
      assert p + x == p;
    } else {
      SquashAppend(p, x);
      SquashKeepsDigits(p);
      MatchNumberSkips(Squash(p), Squash(x));
    }
  }

  lemma SquashHead(q: string)
    requires q != [] && q[0] != ' '
    ensures Squash(q) != [] && Squash(q)[0] == (if q[0] == ',' then '.' else q[0])
  {
  }

  lemma LexemeOfDecimal(ip: string, fp: string, r: string)
    requires ip != [] && AllDigits(ip) && AllDigits(fp)
    requires r == [] || !IsDigit(r[0])
    ensures LexemeAt(ip + ['.'] + fp + r) == ip + ['.'] + fp
  {
    var d := ['.'];
    var s := (ip + d) + (fp + r);
    AppendAssoc(ip + d, fp, r);
    AppendAssoc(ip, d, fp + r);
    DigitPrefixLenOf(ip, d + (fp + r));
    PrefixOfAppend(ip, d, fp + r);
    DropIndex(s, |ip|, 0);
    SliceOfSlice(s, |ip|, 1);
    ConsAppend(d, fp + r);
    DigitPrefixLenOf(fp, r);
    PrefixOfAppend(ip + d, fp, r);
  }

  lemma LexemeOfInteger(ip: string, r: string)
    requires ip != [] && AllDigits(ip)
    requires r == [] || (!IsDigit(r[0]) && r[0] != '.')
    ensures LexemeAt(ip + r) == ip
  {
    DigitPrefixLenOf(ip, r);
    assert (ip + r)[..|ip|] == ip;
  }

  lemma DecimalValueOf(ip: string, fp: string)
    requires ip != [] && AllDigits(ip) && AllDigits(fp)
    ensures IsDecimalLexeme(ip + ['.'] + fp)
    ensures DecimalValue(ip + ['.'] + fp) == DigitsValue(ip) as real + FractionValue(fp)
  {
    var tail := ['.'] + fp;
    var lex := ip + tail;
    assert lex == ip + ['.'] + fp;
    DigitPrefixLenOf(ip, tail);
    assert lex[..|ip|] == ip;
    assert lex[|ip|] == '.';
    assert lex[|ip| + 1..] == fp;
    assert IsDecimalLexeme(lex);
  }

  lemma SquashOfDecimal(ip: string, sep: char, fp: string, q: string)
    requires AllDigits(ip) && AllDigits(fp) && (sep == '.' || sep == ',')
    ensures Squash(ip + [sep] + fp + q) == ip + ['.'] + fp + Squash(q)
  {
    SquashOfPlain(ip);
    SquashOfPlain(fp);
    assert Squash([sep]) == ['.'];
    SquashAppend(ip, [sep]);
    SquashAppend(ip + [sep], fp);
    SquashAppend(ip + [sep] + fp, q);
  }

  lemma ConcatHead(a: string, b: string, c: string, d: string, e: string)
    ensures a + b + c + d + e == a + (b + c + d + e)
  {
  }

  /** The integer and fractional digits around the first decimal separator,
      point or comma, are what `ExtractNumber` reads; the number ends at the
      next character that is not a digit (a second point, say). */
  lemma ExtractNumberOfDecimal(p: string, ip: string, sep: char, fp: string, q: string)
    requires NoDigit(p)
    requires ip != [] && AllDigits(ip) && AllDigits(fp)
    requires sep == '.' || sep == ','
    requires q == [] || (q[0] != ' ' && q[0] != ',' && !IsDigit(q[0]))
    ensures var r := ExtractNumber(p + ip + [sep] + fp + q);
      r.Some? && r.value == DigitsValue(ip) as real + FractionValue(fp)
  {
    ConcatHead(p, ip, [sep], fp, q);
    ExtractNumberSkipsPrefix(p, ip + [sep] + fp + q);
    DecimalAtStart(ip, sep, fp, q);
  }

  lemma DecimalAtStart(ip: string, sep: char, fp: string, q: string)
    requires ip != [] && AllDigits(ip) && AllDigits(fp)
    requires sep == '.' || sep == ','
    requires q == [] || (q[0] != ' ' && q[0] != ',' && !IsDigit(q[0]))
    ensures var r := ExtractNumber(ip + [sep] + fp + q);
      r.Some? && r.value == DigitsValue(ip) as real + FractionValue(fp)
  {
    var x := ip + [sep] + fp + q;
    SquashOfDecimal(ip, sep, fp, q);
    var sq := Squash(q);
    if q != [] {
      SquashHead(q);
    }
    var lex := ip + ['.'] + fp;
    var y := lex + sq;
    assert Squash(x) == y;
    assert y[0] == ip[0];
    LexemeOfDecimal(ip, fp, sq);
    assert MatchNumber(y) == Some(lex);
    DecimalValueOf(ip, fp);
    assert x != [];
    assert ExtractNumber(x) == Some(DecimalValue(lex));
  }

  /** A number without a separator is read whole. */
  lemma ExtractNumberOfInteger(p: string, ip: string, q: string)
    requires NoDigit(p)
    requires ip != [] && AllDigits(ip)
    requires q == [] || (q[0] != ' ' && q[0] != ',' && q[0] != '.' && !IsDigit(q[0]))
    ensures var r := ExtractNumber(p + ip + q);
      r.Some? && r.value == DigitsValue(ip) as real
  {
    assert p + ip + q == p + (ip + q);
    ExtractNumberSkipsPrefix(p, ip + q);
    IntegerAtStart(ip, q);
  }

  lemma IntegerAtStart(ip: string, q: string)
    requires ip != [] && AllDigits(ip)
    requires q == [] || (q[0] != ' ' && q[0] != ',' && q[0] != '.' && !IsDigit(q[0]))
    ensures var r := ExtractNumber(ip + q);
      r.Some? && r.value == DigitsValue(ip) as real
  {
    SquashOfPlain(ip);
    SquashAppend(ip, q);
    var sq := Squash(q);
    if q != [] {
      SquashHead(q);
    }
    LexemeOfInteger(ip, sq);
    DigitPrefixLenOf(ip, []);
    assert ip[..|ip|] == ip;
  }

  predicate AllSpaces(s: string) {
    forall i | 0 <= i < |s| :: s[i] == ' '
  }

  lemma {:induction false} SquashOfSpaces(sp: string)
    requires AllSpaces(sp)
    ensures Squash(sp) == []
  {
    if sp != [] {
      SquashOfSpaces(sp[1..]);
    }
  }

  /** Spaces are deleted before the number is read, so `1 000` reads as 1000. */
  lemma ExtractNumberIgnoresSpaces(a: string, sp: string, b: string)
    requires AllSpaces(sp)
    ensures ExtractNumber(a + sp + b) == ExtractNumber(a + b)
  {
    SquashAppend(a + sp, b);
    SquashAppend(a, sp);
    SquashAppend(a, b);
    SquashOfSpaces(sp);
    assert Squash(a + sp + b) == Squash(a + b);
    if a + b == [] {
      assert Squash(a + sp + b) == [];
    }
  }

  // ----------------------------------------------------------------- speeds

  /** The unit spellings that mark a speed given in kilobits per second. */
  const KbitUnits: seq<string> := ["кбит", "kbit", "кб/с"]

  /** `any(unit in text.lower() for unit in [...])` */
  predicate IsKbps(text: string) {
    exists u | u in KbitUnits :: Contains(Lower(text), u)
  }

  /** The speed a number stands for: none for 0, and kilobits turned into
      megabits rounded to a tenth. */
  function SpeedOf(n: Option<real>, kbps: bool): Option<real> {
    match n
    case Some(v) => if v != 0.0 then Some(if kbps then Round1(v / 1000.0) else v) else None
    case None => None
  }

  /** `DataExtractor.extract_speed`. */
  function ExtractSpeed(text: string): Option<real> {
    if text == [] then None
    else
      var t := if StartsWith(text, "до ") then text[3..] else text;
      SpeedOf(ExtractNumber(t), IsKbps(t))
  }

  lemma LowerAppend(a: string, b: string)
    ensures Lower(a + b) == Lower(a) + Lower(b)
  {
  }

  /** Neither the number nor the unit test sees a leading "до ". */
  lemma {:induction false} UpToPrefixIsInvisible(x: string)
    ensures ExtractNumber("до " + x) == ExtractNumber(x)
    ensures IsKbps("до " + x) == IsKbps(x)
  {
    var w := "до ";
    if x != [] {
      SquashAppend(w, x);
      assert Squash(w) == "до";
      MatchNumberSkips("до", Squash(x));
    }
    LowerAppend(w, x);
    assert Lower(w) == w;
    forall u | u in KbitUnits ensures Contains(Lower(w + x), u) == Contains(Lower(x), u) {
      assert u[0] == 'к' || u[0] == 'k';
      ContainsPastPrefix(w, Lower(x), u);
    }
  }

  /** A word whose first letter does not occur in `w` occurs in `w + y` exactly
      when it occurs in `y`. */
  lemma ContainsPastPrefix(w: string, y: string, u: string)
    requires u != [] && forall i | 0 <= i < |w| :: w[i] != u[0]
    ensures Contains(w + y, u) == Contains(y, u)
  {
    var s := w + y;
    if Contains(s, u) {
      var i :| 0 <= i <= |s| && OccursAt(s, u, i);
      assert s[i] == u[0] by { assert s[i..i + |u|][0] == s[i]; }
      assert i >= |w|;
      assert y[i - |w|..i - |w| + |u|] == s[i..i + |u|];
      assert OccursAt(y, u, i - |w|);
    }
    if Contains(y, u) {
      var j :| 0 <= j <= |y| && OccursAt(y, u, j);
      assert s[j + |w|..j + |w| + |u|] == y[j..j + |u|];
      assert OccursAt(s, u, j + |w|);
    }
  }

  /** `extract_speed` reads the whole text as if a leading "до " were not
      there: no speed when the text has no number or its number is 0;
      otherwise the number, divided by 1000 and rounded to a tenth when a
      kilobit unit is named anywhere in the text. */
  lemma ExtractSpeedMeaning(text: string)
    ensures ExtractSpeed(text) == SpeedOf(ExtractNumber(text), IsKbps(text))
  {
    if text != [] && StartsWith(text, "до ") {
      var t := text[3..];
      assert text == "до " + t;
      UpToPrefixIsInvisible(t);
    }
  }

  /** Digits and spaces in front of the unit do not affect the unit test. */
  lemma IsKbpsSkips(w: string, x: string)
    requires forall i | 0 <= i < |w| :: IsDigit(w[i]) || w[i] == ' '
    ensures IsKbps(w + x) == IsKbps(x)
  {
    LowerAppend(w, x);
    forall u | u in KbitUnits ensures Contains(Lower(w + x), u) == Contains(Lower(x), u) {
      assert u[0] == 'к' || u[0] == 'k';
      ContainsPastPrefix(Lower(w), Lower(x), u);
    }
  }

  /** A whole number of units followed by its unit is read as that number,
      whatever the spaces between them; the unit alone decides kilobits. */
  lemma SpeedOfCount(ip: string, sp: string, r: string)
    requires ip != [] && AllDigits(ip) && AllSpaces(sp)
    requires r == [] || (r[0] != ' ' && r[0] != ',' && r[0] != '.' && !IsDigit(r[0]))
    ensures ExtractSpeed(ip + sp + r) == SpeedOf(Some(DigitsValue(ip) as real), IsKbps(r))
  {
    ExtractSpeedMeaning(ip + sp + r);
    NumberOfCount(ip, sp, r);
    IsKbpsSkips(ip + sp, r);
  }

  lemma NumberOfCount(ip: string, sp: string, r: string)
    requires ip != [] && AllDigits(ip) && AllSpaces(sp)
    requires r == [] || (r[0] != ' ' && r[0] != ',' && r[0] != '.' && !IsDigit(r[0]))
    ensures var n := ExtractNumber(ip + sp + r);
      n.Some? && n.value == DigitsValue(ip) as real
  {
    ExtractNumberIgnoresSpaces(ip, sp, r);
    IntegerAtStart(ip, r);
  }

  /** What `SpeedOf` gives for a number that is not 0. */
  lemma SpeedOfPositive(n: Option<real>, kbps: bool)
    requires n.Some? && n.value != 0.0
    ensures var v := SpeedOf(n, kbps);
      v.Some? && v.value == (if kbps then Round1(n.value / 1000.0) else n.value)
  {
  }

  /** A kilobit unit anywhere in the text marks kilobits, whatever the case
      of its letters. */
  lemma KbpsInAnyCase(p: string, q: string, r: string)
    requires Lower(q) in KbitUnits
    ensures IsKbps(p + q + r)
  {
    var l := Lower(p + q + r);
    LowerAppend(p + q, r);
    LowerAppend(p, q);
    assert l[|p|..|p| + |q|] == Lower(q);
    assert OccursAt(l, Lower(q), |p|);
  }

  /** A megabit unit is not a kilobit one. */
  lemma MegabitIsNotKbps()
    ensures !IsKbps("Мбит/с")
  {
    var m := Lower("Мбит/с");
    assert m == "мбит/с";
    forall u | u in KbitUnits ensures !Contains(m, u) {
      assert u[0] == 'к' || u[0] == 'k';
    }
  }

  /** "512 Кбит/с" is half a megabit: the capital letter does not hide the
      kilobit unit. */
  lemma KilobitSpeedExample()
    ensures ExtractSpeed("512 Кбит/с") == Some(0.5)
  {
    assert "512 Кбит/с" == "512" + " " + "Кбит/с";
    assert DigitsValue("512") == 512 by {
      assert "512"[..2] == "51";
      assert "51"[..1] == "5";
    }
    assert Lower("Кбит") == "кбит";
    KbpsInAnyCase([], "Кбит", "/с");
    assert [] + "Кбит" + "/с" == "Кбит/с";
    SpeedOfCount("512", " ", "Кбит/с");
    SpeedOfPositive(Some(512.0), true);
    assert Round1(512.0 / 1000.0) == 0.5;
  }

  // --------------------------------------------------------------- channels

  /** The word `каналов?` requires: "канало", optionally followed by "в". */
  const ChannelWord := "канало"

  predicate SameLetter(c: char, p: char, ignoreCase: bool) {
    if ignoreCase then LowerChar(c) == p else c == p
  }

  predicate WordAt(s: string, i: nat, w: string, ignoreCase: bool) {
    i + |w| <= |s| && forall k | 0 <= k < |w| :: SameLetter(s[i + k], w[k], ignoreCase)
  }

  /** `\d+\s*канало` at index i: the digits captured and the index past "канало".
      A match can only start at a digit, and takes the whole digit run from there. */
  function CountAt(s: string, i: nat, ignoreCase: bool): (r: Option<(string, nat)>)
    ensures r.Some? ==> r.value.0 != [] && AllDigits(r.value.0) && r.value.1 <= |s|
  {
    if i < |s| && IsDigit(s[i]) then
      var d := DigitPrefixLen(s[i..]);
      assert s[i..i + d] == s[i..][..d];
      CountAfter(s, i, d, WsPrefixLen(s[i + d..]), ignoreCase)
    else None
  }

  /** The match once the digit run (d characters from i) and the whitespace
      after it (w characters) are measured. */
  function CountAfter(s: string, i: nat, d: nat, w: nat, ignoreCase: bool): (r: Option<(string, nat)>)
    requires i + d <= |s|
  {
    var k := i + d + w;
    if WordAt(s, k, ChannelWord, ignoreCase) then Some((s[i..i + d], k + |ChannelWord|)) else None
  }

  /** `\(\d+\s*каналов?\)` at index i: the digits captured and the index past ")". */
  function ParenGroupAt(s: string, i: nat, ignoreCase: bool): (r: Option<(string, nat)>)
    ensures r.Some? ==> r.value.0 != [] && AllDigits(r.value.0) && i < r.value.1 <= |s|
  {
    if i < |s| && s[i] == '(' then
      match CountAt(s, i + 1, ignoreCase)
      case None => None
      case Some((ds, e)) =>
        if e < |s| && s[e] == ')' then Some((ds, e + 1))
        else if e + 1 < |s| && SameLetter(s[e], 'в', ignoreCase) && s[e + 1] == ')' then Some((ds, e + 2))
        else None
    else None
  }

  /** The two patterns `extract_channels` tries, in this order. */
  datatype ChannelPattern = Parenthesised | Bare

  const ChannelPatterns: seq<ChannelPattern> := [Parenthesised, Bare]

  /** The digits a pattern captures at index i (case-insensitively). */
  function PatternAt(p: ChannelPattern, s: string, i: nat): (r: Option<string>)
    ensures r.Some? ==> r.value != [] && AllDigits(r.value)
  {
    match p
    case Parenthesised => (match ParenGroupAt(s, i, true) case Some((ds, _)) => Some(ds) case None => None)
    case Bare => (match CountAt(s, i, true) case Some((ds, _)) => Some(ds) case None => None)
  }

  /** `re.search(pattern, s[i..], re.IGNORECASE)`: the leftmost match from i on. */
  function Search(p: ChannelPattern, s: string, i: nat): (r: Option<string>)
    ensures r.Some? ==> r.value != [] && AllDigits(r.value)
    decreases |s| - i
  {
    if i >= |s| then None
    else if PatternAt(p, s, i).Some? then PatternAt(p, s, i)
    else Search(p, s, i + 1)
  }

  /** The search fails exactly when the pattern matches nowhere from i on. */
  lemma {:induction false} SearchNoneIff(p: ChannelPattern, s: string, i: nat)
    ensures Search(p, s, i).None? <==> forall j | i <= j < |s| :: PatternAt(p, s, j).None?
    decreases |s| - i
  {
    if i < |s| {
      SearchNoneIff(p, s, i + 1);
    }
  }

  /** Positions where the pattern does not match are passed over. */
  lemma {:induction false} SearchSkips(p: ChannelPattern, s: string, i: nat, m: nat)
    requires i <= m <= |s|
    requires forall j | i <= j < m :: PatternAt(p, s, j).None?
    ensures Search(p, s, i) == Search(p, s, m)
    decreases m - i
  {
    if i < m {
      SearchSkips(p, s, i + 1, m);
    }
  }

  /** The `for pattern in patterns` loop: the first pattern that matches decides. */
  function FirstPatternMatch(patterns: seq<ChannelPattern>, text: string): Option<nat>
  {
    if patterns == [] then None
    else
      match Search(patterns[0], text, 0)
      case Some(ds) => Some(DigitsValue(ds))
      case None => FirstPatternMatch(patterns[1..], text)
  }

  /** `DataExtractor.extract_channels`. */
  function ExtractChannels(text: string): Option<nat>
  {
    if text == [] then None else FirstPatternMatch(ChannelPatterns, text)
  }

  /** No channel count is found exactly when no `N канало` occurs anywhere:
      every parenthesised count contains a bare one. */
  lemma ExtractChannelsNoneIff(text: string)
    ensures ExtractChannels(text).None? <==> forall i | 0 <= i < |text| :: CountAt(text, i, true).None?
  {
    ExtractChannelsBySearch(text);
    SearchNoneIff(Parenthesised, text, 0);
    SearchNoneIff(Bare, text, 0);
    forall i | 0 <= i < |text| ensures PatternAt(Bare, text, i).None? <==> CountAt(text, i, true).None? {
    }
    if Search(Parenthesised, text, 0).Some? {
      var i :| 0 <= i < |text| && PatternAt(Parenthesised, text, i).Some?;
      ParenGroupHasCount(text, i, true);
    }
  }

  /** `extract_channels` finds nothing exactly when both searches fail. */
  lemma ExtractChannelsBySearch(text: string)
    ensures ExtractChannels(text).None? <==>
      Search(Parenthesised, text, 0).None? && Search(Bare, text, 0).None?
  {
    if text != [] {
      FirstPatternMatchNone(ChannelPatterns, text);
      assert ChannelPatterns[0] == Parenthesised && ChannelPatterns[1] == Bare;
    }
  }

  /** The pattern loop finds nothing exactly when every pattern's search fails. */
  lemma {:induction false} FirstPatternMatchNone(patterns: seq<ChannelPattern>, text: string)
    ensures FirstPatternMatch(patterns, text).None? <==>
      forall k | 0 <= k < |patterns| :: Search(patterns[k], text, 0).None?
  {
    if patterns != [] {
      FirstPatternMatchNone(patterns[1..], text);
      forall k | 1 <= k < |patterns| ensures patterns[1..][k - 1] == patterns[k] {
      }
    }
  }

  /** A parenthesised count holds a bare count just inside the parenthesis. */
  lemma ParenGroupHasCount(s: string, i: nat, ignoreCase: bool)
    requires ParenGroupAt(s, i, ignoreCase).Some?
    ensures i + 1 < |s| && CountAt(s, i + 1, ignoreCase).Some?
  {
  }

  /** A text without digits has no channel count. */
  lemma ExtractChannelsWithoutDigits(text: string)
    requires NoDigit(text)
    ensures ExtractChannels(text) == None
  {
    ExtractChannelsNoneIff(text);
  }

  lemma CountAtIntro(s: string, i: nat, d: nat, w: nat, ignoreCase: bool)
    requires i < |s| && IsDigit(s[i]) && DigitPrefixLen(s[i..]) == d
    requires WsPrefixLen(s[i + d..]) == w && WordAt(s, i + d + w, ChannelWord, ignoreCase)
    ensures CountAt(s, i, ignoreCase) == Some((s[i..i + d], i + d + w + |ChannelWord|))
  {
    CountAtAfter(s, i, d, w, ignoreCase);
  }

  lemma CountAtAfter(s: string, i: nat, d: nat, w: nat, ignoreCase: bool)
    requires i < |s| && IsDigit(s[i]) && DigitPrefixLen(s[i..]) == d
    requires WsPrefixLen(s[i + d..]) == w
    ensures i + d <= |s| && CountAt(s, i, ignoreCase) == CountAfter(s, i, d, w, ignoreCase)
  {
  }

  lemma ChannelWordAt(s: string, k: nat, rest: string, ignoreCase: bool)
    requires k <= |s| && s[k..] == "каналов" + rest
    ensures WordAt(s, k, ChannelWord, ignoreCase)
  {
    var word := "каналов" + rest;
    forall j | 0 <= j < |ChannelWord| ensures SameLetter(s[k + j], ChannelWord[j], ignoreCase) {
      assert s[k + j] == word[j];
    }
  }

  lemma DigitsBeforeWord(s: string, at: nat, ds: string, rest: string)
    requires ds != [] && AllDigits(ds)
    requires at <= |s| && s[at..] == ds + " каналов" + rest
    ensures at < |s| && IsDigit(s[at]) && DigitPrefixLen(s[at..]) == |ds|
    ensures s[at..at + |ds|] == ds
    ensures WsPrefixLen(s[at + |ds|..]) == 1
    ensures s[at + |ds| + 1..] == "каналов" + rest
  {
    var word := "каналов" + rest;
    var tail := [' '] + word;
    assert s[at..] == ds + tail;
    assert s[at] == ds[0];
    DigitPrefixLenOf(ds, tail);
    assert s[at + |ds|..] == tail;
    assert word[0] == 'к';
    WsPrefixLenOf([' '], word);
  }

  /** A digit string followed by one space and "каналов" is a bare count. */
  lemma CountOfRendered(s: string, at: nat, ds: string, rest: string, ignoreCase: bool)
    requires ds != [] && AllDigits(ds)
    requires at <= |s| && s[at..] == ds + " каналов" + rest
    ensures CountAt(s, at, ignoreCase) == Some((ds, at + |ds| + 7))
  {
    DigitsBeforeWord(s, at, ds, rest);
    ChannelWordAt(s, at + |ds| + 1, rest, ignoreCase);
    CountFromFacts(s, at, ds, ignoreCase);
  }

  lemma CountFromFacts(s: string, at: nat, ds: string, ignoreCase: bool)
    requires at < |s| && IsDigit(s[at]) && DigitPrefixLen(s[at..]) == |ds|
    requires s[at..at + |ds|] == ds && WsPrefixLen(s[at + |ds|..]) == 1
    requires WordAt(s, at + |ds| + 1, ChannelWord, ignoreCase)
    ensures CountAt(s, at, ignoreCase) == Some((ds, at + |ds| + 7))
  {
    CountAtIntro(s, at, |ds|, 1, ignoreCase);
  }

  /** A parenthesised count wins: whatever a text starts with, as long as it
      opens no parenthesis, the count in "(N каналов)" is the one returned,
      even when a bare "M каналов" comes earlier. */
  lemma ParenthesisedCountWins(p: string, n: nat, q: string)
    requires '(' !in p
    ensures ExtractChannels(p + "(" + NatToDigits(n) + " каналов)" + q) == Some(n)
  {
    NatToDigitsRoundTrip(n);
    ParenthesisedDigitsWin(p, NatToDigits(n), q);
  }

  /** "(N каналов)" is a parenthesised group, in either case mode. */
  lemma ParenGroupOfRendered(s: string, at: nat, ds: string, rest: string, ignoreCase: bool)
    requires ds != [] && AllDigits(ds)
    requires at <= |s| && s[at..] == "(" + ds + " каналов)" + rest
    ensures ParenGroupAt(s, at, ignoreCase) == Some((ds, at + |ds| + 10))
  {
    ParenSlice(s, at, ds, rest);
    DigitsBeforeWord(s, at + 1, ds, ")" + rest);
    CountOfRendered(s, at + 1, ds, ")" + rest, ignoreCase);
    var e := at + 1 + |ds| + 7;
    WordThenClose(s, at + 1 + |ds| + 1, e, rest);
    ParenGroupFromCount(s, at, ds, e, ignoreCase);
  }

  lemma ParenSlice(s: string, at: nat, ds: string, rest: string)
    requires at <= |s| && s[at..] == "(" + ds + " каналов)" + rest
    ensures at < |s| && s[at] == '('
    ensures s[at + 1..] == ds + " каналов" + (")" + rest)
  {
    assert s[at] == s[at..][0];
    assert s[at + 1..] == s[at..][1..];
  }

  lemma WordThenClose(s: string, k: nat, e: nat, rest: string)
    requires k <= |s| && s[k..] == "каналов" + (")" + rest) && e == k + 6
    ensures e + 1 < |s| && s[e] == 'в' && s[e + 1] == ')'
  {
    assert s[e] == s[k..][6] && s[e + 1] == s[k..][7];
  }

  lemma ParenGroupFromCount(s: string, at: nat, ds: string, e: nat, ignoreCase: bool)
    requires at < |s| && s[at] == '(' && CountAt(s, at + 1, ignoreCase) == Some((ds, e))
    requires e + 1 < |s| && s[e] == 'в' && s[e + 1] == ')' && e == at + 1 + |ds| + 7
    ensures ParenGroupAt(s, at, ignoreCase) == Some((ds, at + |ds| + 10))
  {
    assert SameLetter(s[e], 'в', ignoreCase);
  }

  lemma ParenthesisedDigitsWin(p: string, ds: string, q: string)
    requires '(' !in p && ds != [] && AllDigits(ds)
    ensures ExtractChannels(p + "(" + ds + " каналов)" + q) == Some(DigitsValue(ds))
  {
    var s := p + "(" + ds + " каналов)" + q;
    assert s[|p|..] == "(" + ds + " каналов)" + q;
    ParenGroupOfRendered(s, |p|, ds, q, true);
    forall j | 0 <= j < |p| ensures PatternAt(Parenthesised, s, j).None? {
      assert s[j] == p[j];
    }
    SearchSkips(Parenthesised, s, 0, |p|);
    assert Search(Parenthesised, s, 0) == Some(ds);
  }

  /** Without a parenthesised count, the first bare "N каналов" is returned. */
  lemma BareCountRead(p: string, n: nat, q: string)
    requires NoDigit(p) && '(' !in p && '(' !in q
    ensures ExtractChannels(p + NatToDigits(n) + " каналов" + q) == Some(n)
  {
    NatToDigitsRoundTrip(n);
    BareDigitsRead(p, NatToDigits(n), q);
  }

  lemma BareDigitsRead(p: string, ds: string, q: string)
    requires NoDigit(p) && '(' !in p && '(' !in q && ds != [] && AllDigits(ds)
    ensures ExtractChannels(p + ds + " каналов" + q) == Some(DigitsValue(ds))
  {
    var s := p + ds + " каналов" + q;
    assert '(' !in s by {
      assert forall j | 0 <= j < |ds| :: ds[j] != '(';
      assert s == p + (ds + " каналов") + q;
    }
    forall j | 0 <= j < |s| ensures PatternAt(Parenthesised, s, j).None? {
      assert s[j] in s;
    }
    assert ChannelPatterns[1..] == [Bare];
    assert s[|p|..] == ds + " каналов" + q;
    CountOfRendered(s, |p|, ds, q, true);
    forall j | 0 <= j < |p| ensures PatternAt(Bare, s, j).None? {
      assert s[j] == p[j];
    }
    SearchSkips(Bare, s, 0, |p|);
    assert PatternAt(Bare, s, |p|) == Some(ds);
    assert Search(Bare, s, 0) == Some(ds);
    SearchNoneIff(Parenthesised, s, 0);
    assert FirstPatternMatch(ChannelPatterns, s) == FirstPatternMatch([Bare], s);
  }
}
