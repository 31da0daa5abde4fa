/** The two locator parsers of `src/bible.rs`: `VerseOpts::from_str`, which
    reads a verse spec `n` or `n-m`, and `Abbreviation::from_str`, which reads
    a compact locator `book:chapter:versespec`. */
module Locator {
  import opened Wrappers
  import opened Text
  import opened Decimal

  /** A verse selector: one verse, or an inclusive range of verse numbers. */
  datatype VerseOpts = Single(verse: nat) | Range(start: nat, end: nat)

  /** A parsed compact locator. `book` is matched against abbreviations. */
  datatype Abbreviation = Abbreviation(book: string, chapter: nat, verse: VerseOpts)

  const InvalidVerseFormat := "Invalid verse format"
  const InvalidStartVerse := "Invalid start verse number"
  const InvalidEndVerse := "Invalid end verse number"
  const InvalidLocatorFormat := "Invalid format. Must be in the form 'book:chapter:verse'"
  const InvalidChapter := "Invalid chapter number"

  /** `VerseOpts::from_str`: split on `-`; more than two parts is a format
      error, checked before any number is read; then the start, then (for two
      parts) the end must be `usize` numerals. No order between start and end
      is required. */
  function ParseVerseOpts(s: string): (r: Result<VerseOpts, string>)
    ensures multiset(s)['-'] >= 2 <==> r == Err(InvalidVerseFormat)
    ensures r.Ok? && r.value.Single? ==> multiset(s)['-'] == 0 && r.value.verse <= UsizeMax
    ensures r.Ok? && r.value.Range? ==> multiset(s)['-'] == 1 && r.value.start <= UsizeMax && r.value.end <= UsizeMax
  {
    SplitCount(s, '-');
    var parts := Split(s, '-');
    if |parts| > 2 then Err(InvalidVerseFormat)
    else match ParseUsize(parts[0])
      case None => Err(InvalidStartVerse)
      case Some(start) =>
        if |parts| == 1 then Ok(Single(start))
        else match ParseUsize(parts[1])
          case None => Err(InvalidEndVerse)
          case Some(end) => Ok(Range(start, end))
  }

  /** `Abbreviation::from_str`: split on `:`; anything but three parts is a
      format error; then the chapter must be a `usize` numeral; then the
      verse spec's own error, if any, is passed on unchanged. The book part
      is kept verbatim, even when empty. */
  function ParseAbbreviation(s: string): (r: Result<Abbreviation, string>)
    ensures multiset(s)[':'] != 2 <==> r == Err(InvalidLocatorFormat)
    ensures r.Ok? ==> ':' !in r.value.book && r.value.chapter <= UsizeMax
  {
    SplitCount(s, ':');
    SplitSeparatorFree(s, ':');
    var parts := Split(s, ':');
    if |parts| != 3 then Err(InvalidLocatorFormat)
    else match ParseUsize(parts[1])
      case None => Err(InvalidChapter)
      case Some(chapter) =>
        match ParseVerseOpts(parts[2])
          case Err(e) => Err(e)
          case Ok(verse) => Ok(Abbreviation(parts[0], chapter, verse))
  }

  /** The three outcomes for a spec without a hyphen. */
  lemma VerseSpecWithoutHyphen(s: string)
    requires '-' !in s
    ensures ParseVerseOpts(s) ==
      match ParseUsize(s)
      case None => Err(InvalidStartVerse)
      case Some(n) => Ok(Single(n))
  {
    SplitNone(s, '-');
  }

  /** The outcomes for a spec with exactly one hyphen, in the order the
      checks are made: a bad start first, then a bad end. */
  lemma VerseSpecWithOneHyphen(p: string, q: string)
    requires '-' !in p && '-' !in q
    ensures ParseVerseOpts(p + "-" + q) ==
      match ParseUsize(p)
      case None => Err(InvalidStartVerse)
      case Some(start) =>
        match ParseUsize(q)
        case None => Err(InvalidEndVerse)
        case Some(end) => Ok(Range(start, end))
  {
    SplitFirst(p, '-', q);
    SplitNone(q, '-');
  }

  /** The verse spec as the program's users write it. */
  function FormatVerseOpts(v: VerseOpts): string {
    match v
    case Single(n) => ToString(n)
    case Range(start, end) => ToString(start) + "-" + ToString(end)
  }

  /** The compact locator `book:chapter:versespec`. */
  function FormatAbbreviation(a: Abbreviation): string {
    a.book + ":" + ToString(a.chapter) + ":" + FormatVerseOpts(a.verse)
  }

  predicate InUsizeRange(v: VerseOpts) {
    match v
    case Single(n) => n <= UsizeMax
    case Range(start, end) => start <= UsizeMax && end <= UsizeMax
  }

  /** Parsing a canonically written verse spec gives the selector back. */
  lemma ParseFormatVerseOpts(v: VerseOpts)
    requires InUsizeRange(v)
    ensures ParseVerseOpts(FormatVerseOpts(v)) == Ok(v)
  {
    match v
    case Single(n) =>
      DigitsHaveNoSeparators(ToString(n));
      VerseSpecWithoutHyphen(ToString(n));
      ParseToString(n);
    case Range(start, end) =>
      DigitsHaveNoSeparators(ToString(start));
      DigitsHaveNoSeparators(ToString(end));
      VerseSpecWithOneHyphen(ToString(start), ToString(end));
      ParseToString(start);
      ParseToString(end);
  }

  /** The outcomes for an input with exactly two colons, in the order the
      checks are made: a bad chapter first, then the verse spec's error. */
  lemma LocatorWithThreeParts(book: string, chapter: string, verses: string)
    requires ':' !in book && ':' !in chapter && ':' !in verses
    ensures ParseAbbreviation(book + ":" + chapter + ":" + verses) ==
      match ParseUsize(chapter)
      case None => Err(InvalidChapter)
      case Some(c) =>
        match ParseVerseOpts(verses)
        case Err(e) => Err(e)
        case Ok(v) => Ok(Abbreviation(book, c, v))
  {
    var s := book + ":" + chapter + ":" + verses;
    assert s == book + [':'] + (chapter + [':'] + verses);
    SplitFirst(book, ':', chapter + [':'] + verses);
    SplitFirst(chapter, ':', verses);
    SplitNone(verses, ':');
    assert Split(s, ':') == [book, chapter, verses];
  }

  /** Round trip: a locator whose book has no colon and whose numbers fit in
      a `usize` parses back from its compact text. */
  lemma ParseFormatAbbreviation(a: Abbreviation)
    requires ':' !in a.book && a.chapter <= UsizeMax && InUsizeRange(a.verse)
    ensures ParseAbbreviation(FormatAbbreviation(a)) == Ok(a)
  {
    var c := ToString(a.chapter);
    var v := FormatVerseOpts(a.verse);
    DigitsHaveNoSeparators(c);
    FormatVerseOptsHasNoColon(a.verse);
    assert FormatAbbreviation(a) == a.book + ":" + c + ":" + v;
    LocatorWithThreeParts(a.book, c, v);
    ParseToString(a.chapter);
    ParseFormatVerseOpts(a.verse);
  }

  lemma FormatVerseOptsHasNoColon(v: VerseOpts)
    ensures ':' !in FormatVerseOpts(v)
  {
  }

  /** The documented forms of the compact locator: `jn:3:16`, `1co:13:4` and
      `jn:3:16-18` (the last a range). */
  lemma DocumentedSingleLocator()
    ensures ParseAbbreviation("jn:3:16") == Ok(Abbreviation("jn", 3, Single(16)))
  {
    var a := Abbreviation("jn", 3, Single(16));
    assert FormatAbbreviation(a) == "jn:3:16";
    ParseFormatAbbreviation(a);
  }

  lemma DocumentedOtherBookLocator()
    ensures ParseAbbreviation("1co:13:4") == Ok(Abbreviation("1co", 13, Single(4)))
  {
    var a := Abbreviation("1co", 13, Single(4));
    assert FormatAbbreviation(a) == "1co:13:4";
    ParseFormatAbbreviation(a);
  }

  lemma DocumentedRangeLocator()
    ensures ParseAbbreviation("jn:3:16-18") == Ok(Abbreviation("jn", 3, Range(16, 18)))
  {
    var a := Abbreviation("jn", 3, Range(16, 18));
    assert FormatAbbreviation(a) == "jn:3:16-18";
    ParseFormatAbbreviation(a);
  }

  /** A locator with only two colon-separated parts is a format error. */
  lemma RejectedTwoPartLocator()
    ensures ParseAbbreviation("jn:3") == Err(InvalidLocatorFormat)
  {
  }
}
