/** `SectionParser` (src/parser/section_parser.py): one section of the page
    read into tariffs, internet table first and combo table second, and the
    channel counts of the apartment-block (MKD) tariffs by package name. */
module SectionParser {
  import opened Wrappers
  import opened Strings
  import opened Folds
  import opened TariffModel
  import opened Page
  import opened TableParser

  // ---------------------------------------------------------------- sections

  /** The combo name suffix: none for apartment blocks, "_ч" for private
      houses. */
  function Suffix(isMkd: bool): string {
    if isMkd then "" else "_ч"
  }

  /** The records of a section's internet table, when the section has one
      with a body. */
  function SectionInternet(sec: Section): seq<Tariff> {
    if sec.internet.Some? && sec.internet.value.next.Some? && sec.internet.value.next.value.body.Some?
    then InternetRecords(sec.internet.value.next.value.body.value)
    else []
  }

  /** What `parse_section` returns or raises.  A missing section gives no
      records; a section without an internet or combo header `div` fails on
      the attribute lookup; a combo table in a section without an internet
      table fails on the unbound section name; a table fails as its parser
      does. */
  function SectionResult(doc: Document, id: string, isMkd: bool): Result<seq<Tariff>, ParseError> {
    if id !in doc.sections then Success([])
    else
      var sec := doc.sections[id];
      if sec.internet.None? then Failure(MissingInternetHeader)
      else
        var it := sec.internet.value.next;
        if it.Some? && it.value.body.None? then Failure(MissingBody)
        else if sec.combo.None? then Failure(MissingComboHeader)
        else
          var ct := sec.combo.value.next;
          if ct.None? then Success(SectionInternet(sec))
          else if it.None? then Failure(UnboundSectionName)
          else if ct.value.head.None? then Failure(MissingHead)
          else if ct.value.body.None? then Failure(MissingBody)
          else Success(SectionInternet(sec) + ComboRecords(ct.value.head.value, ct.value.body.value, Suffix(isMkd)))
  }

  /** `SectionParser.parse_section`. */
  method ParseSection(doc: Document, id: string, isMkd: bool) returns (r: Result<seq<Tariff>, ParseError>)
    ensures r == SectionResult(doc, id, isMkd)
  {
    if id !in doc.sections {
      return Success([]);
    }
    var section := doc.sections[id];
    var tariffs: seq<Tariff> := [];
    if section.internet.None? {
      return Failure(MissingInternetHeader);
    }
    var internetTable := section.internet.value.next;
    if internetTable.Some? {
      var internet := ParseInternetTable(internetTable.value);
      if internet.Failure? {
        return Failure(internet.error);
      }
      tariffs := tariffs + internet.value;
    }
    assert tariffs == SectionInternet(section);
    if section.combo.None? {
      return Failure(MissingComboHeader);
    }
    var comboTable := section.combo.value.next;
    if comboTable.Some? {
      if internetTable.None? {
        return Failure(UnboundSectionName);
      }
      var suffix := if isMkd then "" else "_ч";
      var combo := ParseComboTable(comboTable.value, suffix);
      if combo.Failure? {
        return Failure(combo.error);
      }
      tariffs := tariffs + combo.value;
    }
    return Success(tariffs);
  }

  /** A section that is not on the page gives no records and no error. */
  lemma SectionMissing(doc: Document, id: string, isMkd: bool)
    requires id !in doc.sections
    ensures SectionResult(doc, id, isMkd) == Success([])
  {
  }

  /** The private suffix is one word. */
  lemma SuffixIsWord(isMkd: bool)
    ensures !isMkd ==> Suffix(isMkd) != [] && NoWs(Suffix(isMkd))
    ensures isMkd ==> Suffix(isMkd) == []
  {
  }

  /** Every record of a section has a name and a price. */
  lemma SectionRecordsValid(doc: Document, id: string, isMkd: bool)
    ensures var r := SectionResult(doc, id, isMkd);
      r.Success? ==> forall t | t in r.value :: t.price.Some? && t.name != []
  {
    if id in doc.sections {
      var sec := doc.sections[id];
      if sec.internet.Some? && sec.internet.value.next.Some? && sec.internet.value.next.value.body.Some? {
        InternetRecordsValid(sec.internet.value.next.value.body.value);
      }
      if sec.combo.Some? && sec.combo.value.next.Some? {
        var ct := sec.combo.value.next.value;
        if ct.head.Some? && ct.body.Some? {
          ComboRecordsValid(ct.head.value, ct.body.value, Suffix(isMkd));
        }
      }
    }
  }

  /** The records of a section's combo table, when it has one with a head
      and a body. */
  function SectionCombo(sec: Section, isMkd: bool): seq<Tariff> {
    if sec.combo.Some? && sec.combo.value.next.Some? &&
       sec.combo.value.next.value.head.Some? && sec.combo.value.next.value.body.Some?
    then
      var ct := sec.combo.value.next.value;
      ComboRecords(ct.head.value, ct.body.value, Suffix(isMkd))
    else []
  }

  /** A section read without error gives its internet records and then its
      combo records. */
  lemma SectionSuccess(doc: Document, id: string, isMkd: bool)
    requires id in doc.sections
    ensures var r := SectionResult(doc, id, isMkd);
      var sec := doc.sections[id];
      r.Success? ==> r.value == SectionInternet(sec) + SectionCombo(sec, isMkd)
  {
    var sec := doc.sections[id];
    var r := SectionResult(doc, id, isMkd);
    if r.Success? {
      var it := sec.internet.value.next;
      var ct := sec.combo.value.next;
      if ct.None? {
        assert r.value == SectionInternet(sec);
        assert SectionCombo(sec, isMkd) == [];
        assert SectionInternet(sec) + [] == SectionInternet(sec);
      } else {
        var combo := ComboRecords(ct.value.head.value, ct.value.body.value, Suffix(isMkd));
        assert r.value == SectionInternet(sec) + combo;
        assert SectionCombo(sec, isMkd) == combo;
      }
    }
  }

  /** Every combo record of a section ends with the section's suffix. */
  lemma SectionComboSuffix(sec: Section, isMkd: bool)
    ensures forall t | t in SectionCombo(sec, isMkd) :: EndsWith(t.name, Suffix(isMkd))
  {
    var combo := SectionCombo(sec, isMkd);
    if isMkd {
      forall t | t in combo ensures EndsWith(t.name, Suffix(isMkd)) {
        assert t.name[|t.name|..] == [];
      }
    } else if sec.combo.Some? && sec.combo.value.next.Some? &&
              sec.combo.value.next.value.head.Some? && sec.combo.value.next.value.body.Some? {
      var ct := sec.combo.value.next.value;
      SuffixIsWord(isMkd);
      ComboRecordsValid(ct.head.value, ct.body.value, Suffix(isMkd));
    }
  }

  /** A section's records are its internet records followed by its combo
      records, and every one after the internet records ends with the
      section's suffix. */
  lemma SectionOrder(doc: Document, id: string, isMkd: bool)
    requires id in doc.sections
    ensures var r := SectionResult(doc, id, isMkd);
      var internet := SectionInternet(doc.sections[id]);
      r.Success? ==>
        internet <= r.value &&
        forall t | t in r.value[|internet|..] :: EndsWith(t.name, Suffix(isMkd))
  {
    var sec := doc.sections[id];
    SectionSuccess(doc, id, isMkd);
    SectionComboSuffix(sec, isMkd);
    DropAppend(SectionInternet(sec), SectionCombo(sec, isMkd));
  }

  // ------------------------------------------------------------ channel map

  /** The text that ends the package part of a combo name. */
  const Marker: string := " + РиалКом Интернет"

  /** `name.split(' + РиалКом Интернет')[0].strip()` */
  function BaseName(name: string): string {
    Strip(PrefixBefore(name, Marker))
  }

  /** `if tariff.channels:` holds: a count is known and is not 0. */
  predicate Contributes(t: Tariff) {
    t.channels.Some? && t.channels.value != 0
  }

  /** The entry a tariff writes into the channel map, if it contributes. */
  function ChannelEntry(t: Tariff): Option<(string, nat)> {
    if Contributes(t) then Some((BaseName(t.name), t.channels.value)) else None
  }

  /** The map `extract_mkd_channels_map` builds: each contributing tariff, in
      order, writes its count under its base name. */
  function ChannelsMap(ts: seq<Tariff>): map<string, nat> {
    Assign(ts, ChannelEntry)
  }

  /** `SectionParser.extract_mkd_channels_map`. */
  method ExtractMkdChannelsMap(ts: seq<Tariff>) returns (m: map<string, nat>)
    ensures m == ChannelsMap(ts)
  {
    m := map[];
    for i := 0 to |ts|
      invariant m == ChannelsMap(ts[..i])
    {
      AssignSnoc(ts, ChannelEntry, i);
      var t := ts[i];
      if t.channels.Some? && t.channels.value != 0 {
        m := m[BaseName(t.name) := t.channels.value];
      }
    }
    assert ts[..|ts|] == ts;
  }

  /** A name is a key exactly when some contributing tariff has that base
      name; no count in the map is 0. */
  lemma ChannelsMapKeys(ts: seq<Tariff>, k: string)
    ensures k in ChannelsMap(ts) <==> exists i | 0 <= i < |ts| :: Contributes(ts[i]) && BaseName(ts[i].name) == k
    ensures k in ChannelsMap(ts) ==> ChannelsMap(ts)[k] != 0
  {
    AssignKeys(ts, ChannelEntry, k);
    if k in ChannelsMap(ts) {
      AssignValue(ts, ChannelEntry, k);
      var i :| 0 <= i < |ts| && ChannelEntry(ts[i]) == Some((k, ChannelsMap(ts)[k]));
      assert Contributes(ts[i]) && BaseName(ts[i].name) == k;
    }
    if exists i | 0 <= i < |ts| :: Contributes(ts[i]) && BaseName(ts[i].name) == k {
      var i :| 0 <= i < |ts| && Contributes(ts[i]) && BaseName(ts[i].name) == k;
      assert ChannelEntry(ts[i]).Some? && ChannelEntry(ts[i]).value.0 == k;
    }
  }

  /** The last contributing tariff with a base name decides that name's
      count. */
  lemma ChannelsMapLastWins(ts: seq<Tariff>, i: nat)
    requires i < |ts| && Contributes(ts[i])
    requires forall j | i < j < |ts| :: Contributes(ts[j]) ==> BaseName(ts[j].name) != BaseName(ts[i].name)
    ensures BaseName(ts[i].name) in ChannelsMap(ts)
    ensures ChannelsMap(ts)[BaseName(ts[i].name)] == ts[i].channels.value
  {
    forall j | i < j < |ts|
      ensures ChannelEntry(ts[j]).Some? ==> ChannelEntry(ts[j]).value.0 != ChannelEntry(ts[i]).value.0
    {
    }
    AssignLastWins(ts, ChannelEntry, i);
  }

  /** A name without the marker is its own base name, stripped. */
  lemma BaseNameWithoutMarker(name: string)
    requires !Contains(name, Marker)
    ensures BaseName(name) == Strip(name)
  {
  }

  /** The base name of "<package> + РиалКом Интернет…" is the package, when
      the package has no "+". */
  lemma BaseNameOfCombo(package: string, rest: string)
    requires '+' !in package
    ensures BaseName(package + Marker + rest) == Strip(package)
  {
    var s := package + Marker + rest;
    var r := PrefixBefore(s, Marker);
    var n := |package|;
    assert s[n..n + |Marker|] == Marker;
    assert OccursAt(s, Marker, n);
    forall i | 1 <= i <= n ensures s[i] != Marker[1] {
      if i < n {
        assert s[i] == package[i];
      } else {
        assert s[i] == Marker[0];
      }
    }
    forall i: nat | i < n ensures !OccursAt(s, Marker, i) {
      assert s[i + 1] != Marker[1];
    }
    assert |r| <= n;
    assert r == s[..n];
    assert s[..n] == package;
  }
}
