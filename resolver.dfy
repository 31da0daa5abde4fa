/** The book → chapter → verse tree of `src/bible.rs` and the lookups over it:
    `Bible::get` (book by display name), `Bible::get_abbr` (book by
    abbreviation) and `Bible::random`. The tree is immutable; every lookup
    is a function of it. Where the Rust code panics, the model returns
    `Panicked`. */
module Resolver {
  import opened Wrappers
  import opened Iter
  import opened Locator

  datatype BibleBookVerse = BibleBookVerse(number: nat, content: string)
  datatype BibleBookChapter = BibleBookChapter(number: nat, verses: seq<BibleBookVerse>)
  datatype BibleBook = BibleBook(name: string, abbrev: string, chapters: seq<BibleBookChapter>)
  datatype Bible = Bible(books: seq<BibleBook>)

  datatype RandomVerseOpts = All | OldTestamentOnly | NewTestamentOnly

  datatype BibleSingleVerseResult = BibleSingleVerseResult(book: string, chapter: nat, verse: nat, content: string)
  datatype VerseRange = VerseRange(number: nat, content: string)
  datatype BibleRangeVerseResult = BibleRangeVerseResult(book: string, chapter: nat, verses: seq<VerseRange>)
  datatype BibleVerseResult = Single(single: BibleSingleVerseResult) | Range(range: BibleRangeVerseResult)

  /** The number of books before the positional testament split. */
  const TestamentSplit: nat := 39

  // ---------------------------------------------------------------------
  // Reference definitions of first-match lookup

  ghost predicate FirstBookNamed(bible: Bible, name: string, i: nat) {
    i < |bible.books| && bible.books[i].name == name &&
    forall j :: 0 <= j < i ==> bible.books[j].name != name
  }

  ghost predicate FirstBookAbbreviated(bible: Bible, abbrev: string, i: nat) {
    i < |bible.books| && bible.books[i].abbrev == abbrev &&
    forall j :: 0 <= j < i ==> bible.books[j].abbrev != abbrev
  }

  ghost predicate FirstChapterNumbered(book: BibleBook, chapter: nat, k: nat) {
    k < |book.chapters| && book.chapters[k].number == chapter &&
    forall j :: 0 <= j < k ==> book.chapters[j].number != chapter
  }

  ghost predicate HasChapter(book: BibleBook, chapter: nat) {
    exists k :: 0 <= k < |book.chapters| && book.chapters[k].number == chapter
  }

  /** Whether a verse satisfies a selector: equality for `Single`,
      inclusive bounds for `Range`. */
  predicate Selects(sel: VerseOpts, v: BibleBookVerse) {
    match sel
    case Single(n) => v.number == n
    case Range(start, end) => v.number >= start && v.number <= end
  }

  /** The verses of a chapter a selector keeps, in chapter order. */
  function Selected(verses: seq<BibleBookVerse>, sel: VerseOpts): (r: seq<BibleBookVerse>)
    ensures forall v :: v in r <==> v in verses && Selects(sel, v)
  {
    Filter(verses, v => Selects(sel, v))
  }

  function ToVerseRange(vs: seq<BibleBookVerse>): (r: seq<VerseRange>)
    ensures |r| == |vs|
    ensures forall i :: 0 <= i < |vs| ==> r[i] == VerseRange(vs[i].number, vs[i].content)
  {
    seq(|vs|, i requires 0 <= i < |vs| => VerseRange(vs[i].number, vs[i].content))
  }

  /** A result reports the given book name and chapter number. */
  predicate Answers(name: string, chapter: nat, res: BibleVerseResult) {
    match res
    case Single(v) => v.book == name && v.chapter == chapter
    case Range(g) => g.book == name && g.chapter == chapter
  }

  /** Shared tail of `get` and `get_abbr` once the book is found: the first
      chapter with the number, then the selected verses, reported as `Range`
      when more than one matches and as `Single` otherwise; the `Single`
      branch unwraps the first match and so panics when there is none. */
  function LookupInBook(book: BibleBook, chapter: nat, verse: VerseOpts): (r: Outcome<Option<BibleVerseResult>>)
    ensures r == Returned(None) <==> !HasChapter(book, chapter)
    ensures r.Panicked? ==> r.reason == UnwrapOnNone
    ensures r.Returned? && r.value.Some? ==> Answers(book.name, chapter, r.value.value)
  {
    match Find(book.chapters, (c: BibleBookChapter) => c.number == chapter)
    case None => Returned(None)
    case Some(k) =>
      var ch := book.chapters[k];
      var verses := Selected(ch.verses, verse);
      if |verses| > 1 then
        Returned(Some(BibleVerseResult.Range(BibleRangeVerseResult(book.name, ch.number, ToVerseRange(verses)))))
      else if |verses| == 0 then
        Panicked(UnwrapOnNone)
      else
        Returned(Some(BibleVerseResult.Single(BibleSingleVerseResult(book.name, ch.number, verses[0].number, verses[0].content))))
  }

  /** What `get` and `get_abbr` promise once book `i` is the first match:
      `None` when the book has no such chapter, otherwise the verdict on the
      verses of its first chapter with that number. */
  ghost predicate LookupSpec(bible: Bible, i: nat, chapter: nat, verse: VerseOpts, r: Outcome<Option<BibleVerseResult>>)
    requires i < |bible.books|
  {
    var book := bible.books[i];
    (r == Returned(None) <==> !HasChapter(book, chapter)) &&
    forall k: nat :: FirstChapterNumbered(book, chapter, k) ==>
      var vs := Selected(book.chapters[k].verses, verse);
      (|vs| == 0 <==> r == Panicked(UnwrapOnNone)) &&
      (|vs| == 1 ==> r == Returned(Some(BibleVerseResult.Single(BibleSingleVerseResult(book.name, chapter, vs[0].number, vs[0].content))))) &&
      (|vs| > 1 ==> r == Returned(Some(BibleVerseResult.Range(BibleRangeVerseResult(book.name, chapter, ToVerseRange(vs))))))
  }

  lemma LookupInBookMeetsSpec(bible: Bible, i: nat, chapter: nat, verse: VerseOpts)
    requires i < |bible.books|
    ensures LookupSpec(bible, i, chapter, verse, LookupInBook(bible.books[i], chapter, verse))
  {
  }

  // ---------------------------------------------------------------------
  // `Bible::get` and `Bible::get_abbr`, as written

  /** `Bible::get`: the first book whose display name is `bookName`, then
      `LookupInBook`. `None` exactly when no book has the name or when the
      first such book lacks the chapter. */
  function Get(bible: Bible, bookName: string, chapter: nat, verse: VerseOpts): (r: Outcome<Option<BibleVerseResult>>)
    ensures (forall j :: 0 <= j < |bible.books| ==> bible.books[j].name != bookName) ==> r == Returned(None)
    ensures forall i: nat :: FirstBookNamed(bible, bookName, i) ==> LookupSpec(bible, i, chapter, verse, r)
  {
    match Find(bible.books, (b: BibleBook) => b.name == bookName)
    case None => Returned(None)
    case Some(i) =>
      LookupInBookMeetsSpec(bible, i, chapter, verse);
      FirstBookUnique(bible, bookName, i);
      LookupInBook(bible.books[i], chapter, verse)
  }

  /** `Bible::get_abbr`: as `get`, but the book is matched by abbreviation. */
  function GetAbbr(bible: Bible, abbrev: Abbreviation): (r: Outcome<Option<BibleVerseResult>>)
    ensures (forall j :: 0 <= j < |bible.books| ==> bible.books[j].abbrev != abbrev.book) ==> r == Returned(None)
    ensures forall i: nat :: FirstBookAbbreviated(bible, abbrev.book, i) ==> LookupSpec(bible, i, abbrev.chapter, abbrev.verse, r)
  {
    match Find(bible.books, (b: BibleBook) => b.abbrev == abbrev.book)
    case None => Returned(None)
    case Some(i) =>
      LookupInBookMeetsSpec(bible, i, abbrev.chapter, abbrev.verse);
      FirstAbbrevUnique(bible, abbrev.book, i);
      LookupInBook(bible.books[i], abbrev.chapter, abbrev.verse)
  }

  lemma FirstBookUnique(bible: Bible, name: string, i: nat)
    requires FirstBookNamed(bible, name, i)
    ensures forall i': nat :: FirstBookNamed(bible, name, i') ==> i' == i
  {
  }

  lemma FirstAbbrevUnique(bible: Bible, abbrev: string, i: nat)
    requires FirstBookAbbreviated(bible, abbrev, i)
    ensures forall i': nat :: FirstBookAbbreviated(bible, abbrev, i') ==> i' == i
  {
  }

  /** Finding the book by abbreviation or by display name reaches the same
      verses when both searches stop at the same book. */
  lemma GetAbbrAgreesWithGet(bible: Bible, abbrev: Abbreviation, i: nat)
    requires FirstBookAbbreviated(bible, abbrev.book, i)
    requires FirstBookNamed(bible, bible.books[i].name, i)
    ensures GetAbbr(bible, abbrev) == Get(bible, bible.books[i].name, abbrev.chapter, abbrev.verse)
  {
  }

  /** The verses of a chapter are listed with strictly increasing numbers. */
  ghost predicate Ascending(verses: seq<BibleBookVerse>) {
    forall a, b :: 0 <= a < b < |verses| ==> verses[a].number < verses[b].number
  }

  /** Selection keeps chapter order: from an ascending chapter it yields an
      ascending list, so a `Range` selector over such a chapter yields exactly
      the verses numbered `start..end`, in ascending order. */
  lemma {:induction false} SelectedAscending(verses: seq<BibleBookVerse>, sel: VerseOpts)
    requires Ascending(verses)
    ensures Ascending(Selected(verses, sel))
    decreases |verses|
  {
    if |verses| > 0 {
      var rest := verses[1..];
      assert Ascending(rest);
      SelectedAscending(rest, sel);
      var tail := Selected(rest, sel);
      if Selects(sel, verses[0]) {
        assert Selected(verses, sel) == [verses[0]] + tail;
        forall b | 0 <= b < |tail| ensures verses[0].number < tail[b].number {
          assert tail[b] in rest;
        }
      } else {
        assert Selected(verses, sel) == tail;
      }
    }
  }

  /** Verse numbers within a chapter are pairwise distinct. */
  ghost predicate DistinctNumbers(verses: seq<BibleBookVerse>) {
    forall a, b :: 0 <= a < b < |verses| ==> verses[a].number != verses[b].number
  }

  /** Over a chapter with distinct verse numbers a `Single` selector keeps
      exactly the one verse with that number, or nothing when there is none. */
  lemma {:induction false} SelectedSingleDistinct(verses: seq<BibleBookVerse>, n: nat)
    requires DistinctNumbers(verses)
    ensures forall j :: 0 <= j < |verses| && verses[j].number == n ==> Selected(verses, VerseOpts.Single(n)) == [verses[j]]
    ensures (forall j :: 0 <= j < |verses| ==> verses[j].number != n) ==> Selected(verses, VerseOpts.Single(n)) == []
    decreases |verses|
  {
    if |verses| > 0 {
      var rest := verses[1..];
      assert DistinctNumbers(rest);
      SelectedSingleDistinct(rest, n);
      if verses[0].number == n {
        assert forall j :: 0 <= j < |rest| ==> rest[j].number != n;
        assert Selected(verses, VerseOpts.Single(n)) == [verses[0]] + Selected(rest, VerseOpts.Single(n));
      } else {
        assert Selected(verses, VerseOpts.Single(n)) == Selected(rest, VerseOpts.Single(n));
        forall j | 0 <= j < |verses| && verses[j].number == n
          ensures Selected(verses, VerseOpts.Single(n)) == [verses[j]]
        {
          assert rest[j - 1] == verses[j];
        }
      }
    }
  }

  // ---------------------------------------------------------------------
  // Corrected lookups: an empty selection is "not found", not a panic

  function LookupInBookChecked(book: BibleBook, chapter: nat, verse: VerseOpts): (r: Option<BibleVerseResult>)
    ensures r.None? <==> NotFoundInBook(book, chapter, verse)
    ensures r.Some? ==> Answers(book.name, chapter, r.value)
  {
    match Find(book.chapters, (c: BibleBookChapter) => c.number == chapter)
    case None => None
    case Some(k) =>
      var ch := book.chapters[k];
      var verses := Selected(ch.verses, verse);
      if |verses| > 1 then
        Some(BibleVerseResult.Range(BibleRangeVerseResult(book.name, ch.number, ToVerseRange(verses))))
      else if |verses| == 1 then
        Some(BibleVerseResult.Single(BibleSingleVerseResult(book.name, ch.number, verses[0].number, verses[0].content)))
      else
        None
  }

  /** `Bible::get` as evidently intended: `None` when the book, the chapter
      or any matching verse is missing. It agrees with `get` wherever `get`
      does not panic, and answers `None` where `get` panics. */
  function GetChecked(bible: Bible, bookName: string, chapter: nat, verse: VerseOpts): (r: Option<BibleVerseResult>)
    ensures match Get(bible, bookName, chapter, verse)
      case Returned(x) => r == x
      case Panicked(_) => r.None?
    ensures r.None? <==>
      (forall j :: 0 <= j < |bible.books| ==> bible.books[j].name != bookName) ||
      exists i: nat :: FirstBookNamed(bible, bookName, i) && NotFoundInBook(bible.books[i], chapter, verse)
  {
    match Find(bible.books, (b: BibleBook) => b.name == bookName)
    case None => None
    case Some(i) =>
      LookupInBookCheckedMeetsSpec(bible.books[i], chapter, verse);
      FirstBookUnique(bible, bookName, i);
      LookupInBookChecked(bible.books[i], chapter, verse)
  }

  /** `Bible::get_abbr` as evidently intended. */
  function GetAbbrChecked(bible: Bible, abbrev: Abbreviation): (r: Option<BibleVerseResult>)
    ensures match GetAbbr(bible, abbrev)
      case Returned(x) => r == x
      case Panicked(_) => r.None?
    ensures r.None? <==>
      (forall j :: 0 <= j < |bible.books| ==> bible.books[j].abbrev != abbrev.book) ||
      exists i: nat :: FirstBookAbbreviated(bible, abbrev.book, i) && NotFoundInBook(bible.books[i], abbrev.chapter, abbrev.verse)
  {
    match Find(bible.books, (b: BibleBook) => b.abbrev == abbrev.book)
    case None => None
    case Some(i) =>
      LookupInBookCheckedMeetsSpec(bible.books[i], abbrev.chapter, abbrev.verse);
      FirstAbbrevUnique(bible, abbrev.book, i);
      LookupInBookChecked(bible.books[i], abbrev.chapter, abbrev.verse)
  }

  /** The book lacks the chapter, or its first chapter with that number has
      no verse the selector keeps. */
  ghost predicate NotFoundInBook(book: BibleBook, chapter: nat, verse: VerseOpts) {
    !HasChapter(book, chapter) ||
    exists k: nat :: FirstChapterNumbered(book, chapter, k) && Selected(book.chapters[k].verses, verse) == []
  }

  lemma LookupInBookCheckedMeetsSpec(book: BibleBook, chapter: nat, verse: VerseOpts)
    ensures LookupInBookChecked(book, chapter, verse).None? <==> NotFoundInBook(book, chapter, verse)
    ensures LookupInBookChecked(book, chapter, verse).Some? ==>
      LookupInBook(book, chapter, verse) == Returned(LookupInBookChecked(book, chapter, verse))
  {
  }

  /** The defect of `get` as written: a chapter that exists but has no verse
      the selector keeps makes it panic. Here John 3 has only verse 16 and
      verse 17 is requested. */
  lemma GetPanicsOnUnmatchedVerse()
    ensures var john := BibleBook("John", "jn", [BibleBookChapter(3, [BibleBookVerse(16, "For God so loved the world")])]);
      Get(Bible([john]), "John", 3, VerseOpts.Single(17)) == Panicked(UnwrapOnNone) &&
      GetChecked(Bible([john]), "John", 3, VerseOpts.Single(17)) == None
  {
  }

  /** The same defect in `get_abbr`, for a descending range. */
  lemma GetAbbrPanicsOnEmptyRange()
    ensures var john := BibleBook("John", "jn", [BibleBookChapter(3, [BibleBookVerse(16, "For God so loved the world")])]);
      GetAbbr(Bible([john]), Abbreviation("jn", 3, VerseOpts.Range(18, 16))) == Panicked(UnwrapOnNone) &&
      GetAbbrChecked(Bible([john]), Abbreviation("jn", 3, VerseOpts.Range(18, 16))) == None
  {
  }

  // ---------------------------------------------------------------------
  // `Bible::random`

  /** The random draws `random` makes, one per `choose`. */
  datatype Draws = Draws(book: nat, chapter: nat, verse: nat)

  /** The position of book `i` inside the testament's slice. */
  function TestamentOffset(opts: RandomVerseOpts): nat {
    if opts == NewTestamentOnly then TestamentSplit else 0
  }

  predicate InTestament(opts: RandomVerseOpts, i: nat) {
    match opts
    case All => true
    case OldTestamentOnly => i < TestamentSplit
    case NewTestamentOnly => TestamentSplit <= i
  }

  /** The slice `random` draws its book from: `books`, `books[0..39]` or
      `books[39..]`; both slices panic when there are fewer than 39 books. */
  function TestamentBooks(books: seq<BibleBook>, opts: RandomVerseOpts): (r: Outcome<seq<BibleBook>>)
    ensures r.Panicked? <==> opts != All && |books| < TestamentSplit
    ensures r.Returned? ==> forall m :: 0 <= m < |r.value| ==>
      m + TestamentOffset(opts) < |books| && r.value[m] == books[m + TestamentOffset(opts)] &&
      InTestament(opts, m + TestamentOffset(opts))
    ensures r.Returned? ==> forall i: nat :: i < |books| && InTestament(opts, i) ==>
      TestamentOffset(opts) <= i < TestamentOffset(opts) + |r.value|
  {
    match opts
    case All =>
      assert opts == All && TestamentOffset(opts) == 0;
      assert forall m: nat :: InTestament(opts, m);
      Returned(books)
    case OldTestamentOnly => if |books| < TestamentSplit then Panicked(SliceOutOfRange) else Returned(books[..TestamentSplit])
    case NewTestamentOnly => if |books| < TestamentSplit then Panicked(SliceOutOfRange) else Returned(books[TestamentSplit..])
  }

  /** The verse at chapter position `k`, verse position `j` of a book, as
      `random` reports it. */
  function VerseOf(book: BibleBook, k: nat, j: nat): BibleSingleVerseResult
    requires k < |book.chapters| && j < |book.chapters[k].verses|
  {
    var ch := book.chapters[k];
    BibleSingleVerseResult(book.name, ch.number, ch.verses[j].number, ch.verses[j].content)
  }

  /** The three `choose(..).unwrap()` steps of `random` over a slice of
      books: a returned verse is one chain, a book of the slice, one of its
      chapters and one of that chapter's verses. */
  function PickVerse(books: seq<BibleBook>, draws: Draws): (r: Outcome<BibleSingleVerseResult>)
    ensures r.Panicked? ==> r.reason == UnwrapOnNone
    ensures r.Returned? ==> exists m: nat, k: nat, j: nat ::
      m < |books| && k < |books[m].chapters| && j < |books[m].chapters[k].verses| && r.value == VerseOf(books[m], k, j)
  {
    match Choose(books, draws.book)
    case None => Panicked(UnwrapOnNone)
    case Some(book) =>
      match Choose(book.chapters, draws.chapter)
      case None => Panicked(UnwrapOnNone)
      case Some(ch) =>
        match Choose(ch.verses, draws.verse)
        case None => Panicked(UnwrapOnNone)
        case Some(v) =>
          var m := draws.book % |books|;
          var k := draws.chapter % |book.chapters|;
          var j := draws.verse % |ch.verses|;
          assert book == books[m] && ch == book.chapters[k] && v == ch.verses[j];
          Returned(VerseOf(books[m], k, j))
  }

  /** Every chain of the slice is picked by some draws. */
  lemma PickVerseReaches(books: seq<BibleBook>, m: nat, k: nat, j: nat)
    requires m < |books| && k < |books[m].chapters| && j < |books[m].chapters[k].verses|
    ensures PickVerse(books, Draws(m, k, j)) == Returned(VerseOf(books[m], k, j))
  {
    ChooseReaches(books, m);
    ChooseReaches(books[m].chapters, k);
    ChooseReaches(books[m].chapters[k].verses, j);
  }

  /** Drawing a book without chapters panics at the chapter's `unwrap`. */
  lemma PickVerseChapterlessBook(books: seq<BibleBook>, m: nat, chapter: nat, verse: nat)
    requires m < |books| && |books[m].chapters| == 0
    ensures PickVerse(books, Draws(m, chapter, verse)) == Panicked(UnwrapOnNone)
  {
    ChooseReaches(books, m);
  }

  /** Drawing a chapter without verses panics at the verse's `unwrap`. */
  lemma PickVerseVerselessChapter(books: seq<BibleBook>, m: nat, k: nat, verse: nat)
    requires m < |books| && k < |books[m].chapters| && |books[m].chapters[k].verses| == 0
    ensures PickVerse(books, Draws(m, k, verse)) == Panicked(UnwrapOnNone)
  {
    ChooseReaches(books, m);
    ChooseReaches(books[m].chapters, k);
  }

  /** A chain picked from the testament's slice is a chain of the corpus
      whose book lies in the testament. */
  lemma PickedFromTestament(bible: Bible, opts: RandomVerseOpts, draws: Draws)
    requires TestamentBooks(bible.books, opts).Returned?
    ensures var r := PickVerse(TestamentBooks(bible.books, opts).value, draws);
      r.Returned? ==> exists i: nat, k: nat, j: nat ::
        InTestament(opts, i) && i < |bible.books| && k < |bible.books[i].chapters| &&
        j < |bible.books[i].chapters[k].verses| && r.value == VerseOf(bible.books[i], k, j)
  {
    var books := TestamentBooks(bible.books, opts).value;
    var r := PickVerse(books, draws);
    if r.Returned? {
      var m: nat, k: nat, j: nat :| m < |books| && k < |books[m].chapters| &&
        j < |books[m].chapters[k].verses| && r.value == VerseOf(books[m], k, j);
      var i := m + TestamentOffset(opts);
      assert books[m] == bible.books[i] && InTestament(opts, i);
      assert InTestament(opts, i) && i < |bible.books| && k < |bible.books[i].chapters| &&
        j < |bible.books[i].chapters[k].verses| && r.value == VerseOf(bible.books[i], k, j);
    }
  }

  /** `Bible::random`: a book of the testament's slice, a chapter of that
      book and a verse of that chapter, each picked by one draw. Each
      `unwrap` of an empty pick panics. */
  function Random(bible: Bible, opts: RandomVerseOpts, draws: Draws): (r: Outcome<BibleSingleVerseResult>)
    ensures r == Panicked(SliceOutOfRange) <==> opts != All && |bible.books| < TestamentSplit
    ensures r.Returned? ==> exists i: nat, k: nat, j: nat ::
      InTestament(opts, i) && i < |bible.books| && k < |bible.books[i].chapters| &&
      j < |bible.books[i].chapters[k].verses| && r.value == VerseOf(bible.books[i], k, j)
  {
    match TestamentBooks(bible.books, opts)
    case Panicked(p) => Panicked(p)
    case Returned(books) =>
      PickedFromTestament(bible, opts, draws);
      PickVerse(books, draws)
  }

  /** Every verse of every chapter of every book in the testament's slice is
      the result of `random` for some draws. */
  lemma RandomReaches(bible: Bible, opts: RandomVerseOpts, i: nat, k: nat, j: nat)
    requires opts != All ==> |bible.books| >= TestamentSplit
    requires InTestament(opts, i) && i < |bible.books|
    requires k < |bible.books[i].chapters| && j < |bible.books[i].chapters[k].verses|
    ensures Random(bible, opts, Draws(i - TestamentOffset(opts), k, j)) == Returned(VerseOf(bible.books[i], k, j))
  {
    var books := TestamentBooks(bible.books, opts).value;
    var m := i - TestamentOffset(opts);
    assert m < |books| && books[m] == bible.books[i];
    PickVerseReaches(books, m, k, j);
  }

  /** Drawing a book of the testament that has no chapters panics. */
  lemma RandomChapterlessBook(bible: Bible, opts: RandomVerseOpts, i: nat, chapter: nat, verse: nat)
    requires opts != All ==> |bible.books| >= TestamentSplit
    requires InTestament(opts, i) && i < |bible.books| && |bible.books[i].chapters| == 0
    ensures Random(bible, opts, Draws(i - TestamentOffset(opts), chapter, verse)) == Panicked(UnwrapOnNone)
  {
    var books := TestamentBooks(bible.books, opts).value;
    var m := i - TestamentOffset(opts);
    assert m < |books| && books[m] == bible.books[i];
    PickVerseChapterlessBook(books, m, chapter, verse);
  }

  /** Drawing a chapter without verses, in a book of the testament, panics. */
  lemma RandomVerselessChapter(bible: Bible, opts: RandomVerseOpts, i: nat, k: nat, verse: nat)
    requires opts != All ==> |bible.books| >= TestamentSplit
    requires InTestament(opts, i) && i < |bible.books|
    requires k < |bible.books[i].chapters| && |bible.books[i].chapters[k].verses| == 0
    ensures Random(bible, opts, Draws(i - TestamentOffset(opts), k, verse)) == Panicked(UnwrapOnNone)
  {
    var books := TestamentBooks(bible.books, opts).value;
    var m := i - TestamentOffset(opts);
    assert m < |books| && books[m] == bible.books[i];
    PickVerseVerselessChapter(books, m, k, verse);
  }

  /** `random` does not panic when the testament's slice exists and is
      non-empty and every book in it has chapters and every chapter verses. */
  lemma RandomReturnsOnCompleteTree(bible: Bible, opts: RandomVerseOpts, draws: Draws)
    requires opts != All ==> |bible.books| >= TestamentSplit
    requires exists i: nat :: InTestament(opts, i) && i < |bible.books|
    requires forall i: nat :: InTestament(opts, i) && i < |bible.books| ==>
      |bible.books[i].chapters| > 0 &&
      forall k :: 0 <= k < |bible.books[i].chapters| ==> |bible.books[i].chapters[k].verses| > 0
    ensures Random(bible, opts, draws).Returned?
  {
  }

  /** With exactly 39 books the New Testament slice is empty, and the first
      `unwrap` panics. */
  lemma RandomNewTestamentOfOldTestamentOnly(bible: Bible, draws: Draws)
    requires |bible.books| == TestamentSplit
    ensures Random(bible, NewTestamentOnly, draws) == Panicked(UnwrapOnNone)
  {
  }
}
