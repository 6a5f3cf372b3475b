/** The tariff page after HTML parsing, reduced to what the parsers look at:
    sections by their `id`, the first internet and combo header `div` of each
    section with the table that follows it, and tables as header texts and
    rows of cell texts. */
module Page {
  import opened Wrappers

  /** The texts of a row's `td` cells. */
  type Row = seq<string>

  /** A `table`: the texts of its `thead th` cells, and its `tbody` rows;
      `None` where the table has no `thead` or no `tbody`. */
  datatype Table = Table(head: Option<seq<string>>, body: Option<seq<Row>>)

  /** A header `div` (`bg-danger` for internet, `bg-dark` for combo): its
      text and the first `table` after it in the document. */
  datatype Block = Block(text: string, next: Option<Table>)

  /** A section `div`: its first `div.bg-danger` and first `div.bg-dark`. */
  datatype Section = Section(internet: Option<Block>, combo: Option<Block>)

  /** A loaded page: its sections by `id`. */
  datatype Document = Document(sections: map<string, Section>)

  /** The ways the refactored parsers stop with an exception.  A missing
      `thead`, `tbody` or header `div` is an attribute lookup on `None`; a
      combo table in a section without an internet table uses a name that
      was never bound. */
  datatype ParseError =
    | MissingHead
    | MissingBody
    | MissingInternetHeader
    | MissingComboHeader
    | UnboundSectionName
}
