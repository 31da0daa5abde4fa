/** The earlier prototype in `src/main.rs`: its own copy of the tree types
    and single-verse lookups built from `find(..)?` chains, which return
    `None` on any missing level instead of panicking. */
module Prototype {
  import opened Wrappers
  import opened Iter

  datatype BibleBookVerse = BibleBookVerse(number: nat, content: string)
  datatype BibleBookChapter = BibleBookChapter(number: nat, verses: seq<BibleBookVerse>)
  datatype BibleBook = BibleBook(name: string, abbrev: string, chapters: seq<BibleBookChapter>)
  datatype Bible = Bible(books: seq<BibleBook>)

  datatype BibleVerseResponse = BibleVerseResponse(book: string, chapter: nat, verse: nat, content: string)

  /** The random draws `random` makes, one per `choose`. */
  datatype Draws = Draws(book: nat, chapter: nat, verse: nat)

  // Reference definitions of first-match lookup

  ghost predicate FirstBookNamed(bible: Bible, name: string, i: nat) {
    i < |bible.books| && bible.books[i].name == name &&
    forall j :: 0 <= j < i ==> bible.books[j].name != name
  }

  ghost predicate FirstBookAbbreviated(bible: Bible, abbrev: string, i: nat) {
    i < |bible.books| && bible.books[i].abbrev == abbrev &&
    forall j :: 0 <= j < i ==> bible.books[j].abbrev != abbrev
  }

  ghost predicate FirstChapterNumbered(book: BibleBook, chapter: nat, k: nat) {
    k < |book.chapters| && book.chapters[k].number == chapter &&
    forall j :: 0 <= j < k ==> book.chapters[j].number != chapter
  }

  ghost predicate FirstVerseNumbered(ch: BibleBookChapter, verse: nat, j: nat) {
    j < |ch.verses| && ch.verses[j].number == verse &&
    forall l :: 0 <= l < j ==> ch.verses[l].number != verse
  }

  ghost predicate HasChapter(book: BibleBook, chapter: nat) {
    exists k :: 0 <= k < |book.chapters| && book.chapters[k].number == chapter
  }

  ghost predicate HasVerse(ch: BibleBookChapter, verse: nat) {
    exists j :: 0 <= j < |ch.verses| && ch.verses[j].number == verse
  }

  /** What `get` and `get_by_abbr` promise once book `i` is the first match:
      `None` when the chapter or the verse is missing, otherwise the first
      chapter with that number and its first verse with that number. */
  ghost predicate LookupSpec(bible: Bible, i: nat, chapter: nat, verse: nat, r: Option<BibleVerseResponse>)
    requires i < |bible.books|
  {
    var book := bible.books[i];
    (!HasChapter(book, chapter) ==> r.None?) &&
    forall k: nat :: FirstChapterNumbered(book, chapter, k) ==>
      (r.None? <==> !HasVerse(book.chapters[k], verse)) &&
      forall j: nat :: FirstVerseNumbered(book.chapters[k], verse, j) ==>
        r == Some(BibleVerseResponse(book.name, chapter, verse, book.chapters[k].verses[j].content))
  }

  /** The shared tail of `get` and `get_by_abbr` once the book is found. */
  function LookupInBook(book: BibleBook, chapter: nat, verse: nat): (r: Option<BibleVerseResponse>)
    ensures !HasChapter(book, chapter) ==> r.None?
    ensures r.Some? ==> r.value.book == book.name && r.value.chapter == chapter && r.value.verse == verse
  {
    match Find(book.chapters, (c: BibleBookChapter) => c.number == chapter)
    case None => None
    case Some(k) =>
      var ch := book.chapters[k];
      match Find(ch.verses, (v: BibleBookVerse) => v.number == verse)
      case None => None
      case Some(j) =>
        var v := ch.verses[j];
        Some(BibleVerseResponse(book.name, ch.number, v.number, v.content))
  }

  lemma LookupInBookMeetsSpec(bible: Bible, i: nat, chapter: nat, verse: nat)
    requires i < |bible.books|
    ensures LookupSpec(bible, i, chapter, verse, LookupInBook(bible.books[i], chapter, verse))
  {
  }

  /** `Bible::get` of the prototype: the first book with the display name,
      its first chapter with the number, that chapter's first verse with
      the number. `None` exactly when one of the three is missing. */
  function Get(bible: Bible, bookName: string, chapter: nat, verse: nat): (r: Option<BibleVerseResponse>)
    ensures (forall j :: 0 <= j < |bible.books| ==> bible.books[j].name != bookName) ==> r.None?
    ensures forall i: nat :: FirstBookNamed(bible, bookName, i) ==> LookupSpec(bible, i, chapter, verse, r)
  {
    match Find(bible.books, (b: BibleBook) => b.name == bookName)
    case None => None
    case Some(i) =>
      LookupInBookMeetsSpec(bible, i, chapter, verse);
      assert forall i': nat :: FirstBookNamed(bible, bookName, i') ==> i' == i;
      LookupInBook(bible.books[i], chapter, verse)
  }

  /** `Bible::get_by_abbr`: as `get`, with the book matched by abbreviation;
      the response still carries the display name. */
  function GetByAbbr(bible: Bible, bookAbbr: string, chapter: nat, verse: nat): (r: Option<BibleVerseResponse>)
    ensures (forall j :: 0 <= j < |bible.books| ==> bible.books[j].abbrev != bookAbbr) ==> r.None?
    ensures forall i: nat :: FirstBookAbbreviated(bible, bookAbbr, i) ==> LookupSpec(bible, i, chapter, verse, r)
  {
    match Find(bible.books, (b: BibleBook) => b.abbrev == bookAbbr)
    case None => None
    case Some(i) =>
      LookupInBookMeetsSpec(bible, i, chapter, verse);
      assert forall i': nat :: FirstBookAbbreviated(bible, bookAbbr, i') ==> i' == i;
      LookupInBook(bible.books[i], chapter, verse)
  }

  /** Matching by abbreviation reaches the same verse as matching by display
      name when both searches stop at the same book. */
  lemma GetByAbbrAgreesWithGet(bible: Bible, bookAbbr: string, chapter: nat, verse: nat, i: nat)
    requires FirstBookAbbreviated(bible, bookAbbr, i)
    requires FirstBookNamed(bible, bible.books[i].name, i)
    ensures GetByAbbr(bible, bookAbbr, chapter, verse) == Get(bible, bible.books[i].name, chapter, verse)
  {
  }

  /** A successful lookup answers with the requested chapter and verse
      numbers and the display name of a book of the tree. */
  lemma GetByAbbrAnswersRequest(bible: Bible, bookAbbr: string, chapter: nat, verse: nat)
    requires GetByAbbr(bible, bookAbbr, chapter, verse).Some?
    ensures var r := GetByAbbr(bible, bookAbbr, chapter, verse).value;
      r.chapter == chapter && r.verse == verse &&
      exists i :: 0 <= i < |bible.books| && bible.books[i].abbrev == bookAbbr && bible.books[i].name == r.book
  {
  }

  /** `Bible::random` of the prototype: a book, a chapter of it and a verse
      of that chapter, each picked by one draw; each `unwrap` of an empty
      pick panics. */
  function Random(bible: Bible, draws: Draws): (r: Outcome<BibleVerseResponse>)
    ensures |bible.books| == 0 ==> r == Panicked(UnwrapOnNone)
    ensures r.Returned? ==> exists i, k, j ::
      0 <= i < |bible.books| && 0 <= k < |bible.books[i].chapters| && 0 <= j < |bible.books[i].chapters[k].verses| &&
      r.value == BibleVerseResponse(bible.books[i].name, bible.books[i].chapters[k].number,
        bible.books[i].chapters[k].verses[j].number, bible.books[i].chapters[k].verses[j].content)
  {
    match Choose(bible.books, draws.book)
    case None => Panicked(UnwrapOnNone)
    case Some(book) =>
      match Choose(book.chapters, draws.chapter)
      case None => Panicked(UnwrapOnNone)
      case Some(ch) =>
        match Choose(ch.verses, draws.verse)
        case None => Panicked(UnwrapOnNone)
        case Some(v) =>
          var i := draws.book % |bible.books|;
          var k := draws.chapter % |book.chapters|;
          var j := draws.verse % |ch.verses|;
          assert book == bible.books[i] && ch == book.chapters[k] && v == ch.verses[j];
          Returned(BibleVerseResponse(book.name, ch.number, v.number, v.content))
  }

  /** Every verse of the tree is the result of `random` for some draws. */
  lemma RandomReaches(bible: Bible, i: nat, k: nat, j: nat)
    requires i < |bible.books| && k < |bible.books[i].chapters| && j < |bible.books[i].chapters[k].verses|
    ensures var ch := bible.books[i].chapters[k];
      Random(bible, Draws(i, k, j)) == Returned(BibleVerseResponse(bible.books[i].name, ch.number, ch.verses[j].number, ch.verses[j].content))
  {
    ChooseReaches(bible.books, i);
    ChooseReaches(bible.books[i].chapters, k);
    ChooseReaches(bible.books[i].chapters[k].verses, j);
  }

  /** Drawing a book without chapters panics at the chapter's `unwrap`. */
  lemma RandomChapterlessBook(bible: Bible, i: nat, chapter: nat, verse: nat)
    requires i < |bible.books| && |bible.books[i].chapters| == 0
    ensures Random(bible, Draws(i, chapter, verse)) == Panicked(UnwrapOnNone)
  {
    ChooseReaches(bible.books, i);
  }

  /** Drawing a chapter without verses panics at the verse's `unwrap`. */
  lemma RandomVerselessChapter(bible: Bible, i: nat, k: nat, verse: nat)
    requires i < |bible.books| && k < |bible.books[i].chapters| && |bible.books[i].chapters[k].verses| == 0
    ensures Random(bible, Draws(i, k, verse)) == Panicked(UnwrapOnNone)
  {
    ChooseReaches(bible.books, i);
    ChooseReaches(bible.books[i].chapters, k);
  }
}
