/** `RialcomParser.parse_all` (src/parser/parser.py): the apartment-block
    section, then the private-house section, validated.  Loading the page is
    an effect outside the model: its outcome is given, either the parsed
    document or the reason the request failed. */
module RialcomParser {
  import opened Wrappers
  import opened Strings
  import opened TariffModel
  import opened Page
  import opened SectionParser
  import opened TariffProcessor

  /** The `id`s of the apartment-block (MKD) and private-house sections. */
  const MkdSection: string := "collapse1"
  const PrivateSection: string := "collapse2"

  /** Why `parse_all` stops: the page could not be loaded, or a section
      could not be read. */
  datatype ParseAllError = FetchFailed(reason: string) | SectionFailed(error: ParseError)

  /** What `parse_all` returns or raises for a load outcome. */
  function ParseAllResult(fetched: Result<Document, string>): Result<seq<Tariff>, ParseAllError> {
    if fetched.Failure? then Failure(FetchFailed(fetched.error))
    else
      var mkd := SectionResult(fetched.value, MkdSection, true);
      if mkd.Failure? then Failure(SectionFailed(mkd.error))
      else
        var private := SectionResult(fetched.value, PrivateSection, false);
        if private.Failure? then Failure(SectionFailed(private.error))
        else Success(Kept(mkd.value + private.value))
  }

  /** `RialcomParser.parse_all`.  The channel map and the statistics are
      worked out as the source does, and only ever logged. */
  method ParseAll(fetched: Result<Document, string>) returns (r: Result<seq<Tariff>, ParseAllError>)
    ensures r == ParseAllResult(fetched)
  {
    if fetched.Failure? {
      return Failure(FetchFailed(fetched.error));
    }
    var soup := fetched.value;
    var mkd := ParseSection(soup, MkdSection, true);
    if mkd.Failure? {
      return Failure(SectionFailed(mkd.error));
    }
    var channelsMap := ExtractMkdChannelsMap(mkd.value);
    var private := ParseSection(soup, PrivateSection, false);
    if private.Failure? {
      return Failure(SectionFailed(private.error));
    }
    var all := mkd.value + private.value;
    var valid, errors := ValidateTariffs(all);
    var stats := GetStatistics(valid);
    return Success(valid);
  }

  /** A failed load is reported before any section is read. */
  lemma FetchFailurePropagates(reason: string)
    ensures ParseAllResult(Failure(reason)) == Failure(FetchFailed(reason))
  {
  }

  /** Every returned tariff has a name and a price, and validation drops
      nothing: the result is the MKD records followed by the private
      records, each section in its own order. */
  lemma ParseAllKeepsEverything(doc: Document)
    ensures var r := ParseAllResult(Success(doc));
      var mkd := SectionResult(doc, MkdSection, true);
      var private := SectionResult(doc, PrivateSection, false);
      r.Success? ==>
        mkd.Success? && private.Success? &&
        r.value == mkd.value + private.value &&
        forall t | t in r.value :: IsValid(t)
  {
    var mkd := SectionResult(doc, MkdSection, true);
    var private := SectionResult(doc, PrivateSection, false);
    if mkd.Success? && private.Success? {
      SectionRecordsValid(doc, MkdSection, true);
      SectionRecordsValid(doc, PrivateSection, false);
      ValidateAllValid(mkd.value + private.value);
    }
  }

  /** The result reads only the two sections: documents that agree on them
      give the same result, whatever else they hold.  In particular the MKD
      channel map never reaches the private records. */
  lemma ParseAllReadsTwoSections(doc: Document, doc': Document)
    requires MkdSection in doc.sections <==> MkdSection in doc'.sections
    requires MkdSection in doc.sections ==> doc.sections[MkdSection] == doc'.sections[MkdSection]
    requires PrivateSection in doc.sections <==> PrivateSection in doc'.sections
    requires PrivateSection in doc.sections ==> doc.sections[PrivateSection] == doc'.sections[PrivateSection]
    ensures ParseAllResult(Success(doc)) == ParseAllResult(Success(doc'))
  {
  }

  /** Every private combo record of the result carries the private suffix
      and comes after all the MKD records. */
  lemma ParseAllOrder(doc: Document)
    requires MkdSection in doc.sections && PrivateSection in doc.sections
    ensures var r := ParseAllResult(Success(doc));
      var mkd := SectionResult(doc, MkdSection, true);
      var internet := SectionInternet(doc.sections[PrivateSection]);
      r.Success? ==>
        mkd.Success? && mkd.value + internet <= r.value &&
        forall t | t in r.value[|mkd.value| + |internet|..] :: EndsWith(t.name, "_ч")
  {
    var r := ParseAllResult(Success(doc));
    var mkd := SectionResult(doc, MkdSection, true);
    var private := SectionResult(doc, PrivateSection, false);
    if r.Success? {
      ParseAllKeepsEverything(doc);
      SectionOrder(doc, PrivateSection, false);
      var internet := SectionInternet(doc.sections[PrivateSection]);
      BlocksInOrder(mkd.value, private.value, internet, Suffix(false));
    }
  }

  /** A block placed after another keeps its prefix and its tail, shifted. */
  lemma BlocksInOrder(a: seq<Tariff>, b: seq<Tariff>, front: seq<Tariff>, suffix: string)
    requires front <= b && forall t | t in b[|front|..] :: EndsWith(t.name, suffix)
    ensures a + front <= a + b
    ensures forall t | t in (a + b)[|a| + |front|..] :: EndsWith(t.name, suffix)
  {
    assert (a + b)[|a| + |front|..] == b[|front|..];
    assert (a + b)[..|a| + |front|] == a + front;
  }
}
