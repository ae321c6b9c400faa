/**
 * The filter document that the book-listing endpoint builds from its `shelf`
 * and `search` query parameters, and what it means to the store.
 */
module BookQuery {
  import opened Wrappers
  import opened Records
  import opened Text

  const Reading := "READING"
  const CurrentlyReading := "CURRENTLY_READING"
  const WantToRead := "WANT_TO_READ"

  /**
   * A filter document `{ read_status: { $in: [...] }, title: { $regex: ... } }`;
   * each condition may be missing, and the conditions that are present must
   * all hold. The title pattern is case-insensitive.
   */
  datatype Query = Query(readStatusIn: Option<seq<string>>, titleRegex: Option<LiteralPattern>)

  /** The empty filter document `{}`. */
  const MatchAll := Query(None, None)

  /** A stored book satisfies the filter document; a condition on a field the book lacks fails. */
  predicate Matches(q: Query, b: Book) {
    && (q.readStatusIn.Some? ==> b.readStatus.Some? && b.readStatus.value in q.readStatusIn.value)
    && (q.titleRegex.Some? ==> b.title.Some? && TestIgnoreCase(q.titleRegex.value, b.title.value))
  }

  function MatchedBy(q: Query): Book -> bool {
    b => Matches(q, b)
  }

  /**
   * What the endpoint promises of each listed book: on the `READING` shelf its
   * status is currently-reading or want-to-read, and for a non-empty search its
   * title contains the search text, ignoring case.
   */
  ghost predicate Wanted(b: Book, shelf: Option<string>, search: Option<string>) {
    && (shelf == Some(Reading) ==> b.readStatus == Some(CurrentlyReading) || b.readStatus == Some(WantToRead))
    && (Truthy(search) ==> b.title.Some? && ContainsIgnoreCase(b.title.value, search.value))
  }

  ghost function WantedBy(shelf: Option<string>, search: Option<string>): Book -> bool {
    b => Wanted(b, shelf, search)
  }

  /** Every book satisfies the empty filter document. */
  lemma MatchAllMatches(b: Book)
    ensures Matches(MatchAll, b)
  {
  }

  /**
   * Builds the filter document field by field, starting from `{}`. The search
   * text is used as a pattern as it is, so only texts without metacharacters
   * are covered.
   */
  method BuildQuery(shelf: Option<string>, search: Option<string>) returns (q: Query)
    requires search.Some? ==> IsLiteral(search.value)
    ensures q.readStatusIn.Some? <==> shelf == Some(Reading)
    ensures q.titleRegex.Some? <==> Truthy(search)
    ensures forall b :: Matches(q, b) <==> Wanted(b, shelf, search)
  {
    q := MatchAll;
    if shelf.Some? && shelf.value == Reading {
      q := q.(readStatusIn := Some([CurrentlyReading, WantToRead]));
    }
    if Truthy(search) {
      q := q.(titleRegex := Some(search.value));
    }
    forall b: Book | b.title.Some? && q.titleRegex.Some?
      ensures TestIgnoreCase(q.titleRegex.value, b.title.value) <==> ContainsIgnoreCase(b.title.value, search.value)
    {
      TestIgnoreCaseContains(q.titleRegex.value, b.title.value);
    }
  }
}
