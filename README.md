# bible-rust in Dafny

This project models the core of `bible-rust`, a command-line tool that looks up
scripture text in a book → chapter → verse tree. It covers four parts:

* the **locator parsers** of `src/bible.rs`. `VerseOpts::from_str` reads a verse
  spec, `n` or `n-m`. `Abbreviation::from_str` reads a compact locator,
  `book:chapter:versespec`;
* the **resolver** of `src/bible.rs`, over an immutable tree. `Bible::get` finds
  the book by display name. `Bible::get_abbr` finds it by abbreviation.
  `Bible::random` picks a verse from the whole corpus or from one of the two
  positional testament slices (books `0..39` and `39..`);
* the **earlier prototype** in `src/main.rs`: its own copy of the tree types,
  plus single-verse `get`, `get_by_abbr` and `random`;
* the **subscript renderer** of `src/utils.rs`, which maps each decimal digit
  `d` to the character U+2080+d.

Everything in the core is pure, so the model uses datatypes, functions and
lemmas. The tree is built directly as a datatype.

Modules:

* `Wrappers`: `Option` and `Result`, plus `Outcome`. An `Outcome` records a
  Rust panic (an `unwrap` on `None`, or a slice bound past the end) as a value.
* `Iter`: the iterator and slice operations the code uses. These are the
  standard library's `iter().find` and `filter(..).collect()`, and `choose`
  from the `SliceRandom` trait of the `rand` crate. The random draw is a
  parameter.
* `Text`: `str::split` on one character, and its inverse `Join`.
* `Decimal`: `usize::from_str` and `usize::to_string` for a 64-bit `usize`.
* `Locator`: the two parsers from `src/bible.rs`.
* `Resolver`: the tree and lookups from `src/bible.rs`. It has the as-written
  `Get`/`GetAbbr`, which can panic, and the corrected
  `GetChecked`/`GetAbbrChecked`.
* `Prototype`: the separate tree and lookups from `src/main.rs`.
* `Subscript`: `to_subscript` from `src/utils.rs`.
* `Contrast`: compares the prototype's lookup with the `src/bible.rs` lookup on
  the same tree.

Behaviour of the code worth knowing when reading the model:

* The code accepts chapter and verse number `0`, and a range whose start is
  after its end. It checks neither.
* `verse_count` (src/args.rs:48) is declared but nothing reads it, so
  `random` returns one verse.
* `get` panics when a found chapter has no selected verse. See Findings.

## Model

| member | source | states |
|---|---|---|
| `Iter.Find` | src/bible.rs:167-168 | `find` yields the position of an element satisfying the predicate, with none before it; `None` exactly when no element satisfies it |
| `Iter.Filter` | src/bible.rs:170-181 | the collected elements are exactly the input elements satisfying the predicate, and there are no more of them than input elements |
| `Iter.FilterAppend` | src/bible.rs:170-181 | filtering distributes over concatenation, so the kept verses stay in chapter order |
| `Iter.FilterAll` | src/bible.rs:170-181 | when every element satisfies the predicate the filter returns the input unchanged |
| `Iter.FilterNone` | src/bible.rs:170-181 | when no element satisfies the predicate the filter returns the empty list |
| `Iter.Choose` | src/bible.rs:154-156 | `choose` gives `None` exactly on an empty slice, and otherwise an element of the slice |
| `Iter.ChooseReaches` | src/bible.rs:154-156 | every element of a non-empty slice is chosen by some draw |
| `Text.Split` | src/bible.rs:92-116 | `split(..).collect()` on one character always yields at least one part; its exact parts are fixed by the three lemmas below |
| `Text.SplitCount` | src/bible.rs:92 | `split` yields exactly one more part than there are separators in the input |
| `Text.SplitSeparatorFree` | src/bible.rs:92 | no part produced by `split` contains the separator |
| `Text.JoinSplit` | src/bible.rs:92 | joining the parts of `split` with the separator gives back the input |
| `Text.SplitFirst` | src/bible.rs:116 | a separator-free prefix followed by the separator is split off as the first part |
| `Text.SplitJoin` | src/bible.rs:116 | splitting undoes joining when no part contains the separator |
| `Text.SplitNone` | src/bible.rs:92 | a string without the separator splits into itself alone |
| `Decimal.ParseUsize` | src/bible.rs:98 | a text is accepted exactly when, after one optional leading `+`, it is a non-empty run of ASCII digits whose value fits in a 64-bit `usize`; the result is that value |
| `Decimal.ParseUsizeLeadingZero` | src/bible.rs:98 | a leading zero on a digit string does not change the result |
| `Decimal.ParseUsizeLeadingPlus` | src/bible.rs:98 | a leading `+` on a text that does not already start with `+` does not change the result |
| `Decimal.ToString` | src/utils.rs:7 | `to_string` gives non-empty ASCII digits with no leading zero, whose value is the number |
| `Decimal.ParseToString` | src/bible.rs:98 | parsing the canonical text of a `usize` gives the number back |
| `Decimal.ToStringInjective` | src/utils.rs:7 | distinct numbers have distinct decimal texts |
| `Locator.ParseVerseOpts` | src/bible.rs:91-108 | two or more hyphens give "Invalid verse format", and nothing else gives that error; a `Single` comes only from a hyphen-free spec and a `Range` only from a spec with one hyphen, with values in `usize` range |
| `Locator.VerseSpecWithoutHyphen` | src/bible.rs:92-101 | a hyphen-free spec gives `Single(n)` when it is a numeral, and otherwise "Invalid start verse number" |
| `Locator.VerseSpecWithOneHyphen` | src/bible.rs:92-105 | `p-q` gives "Invalid start verse number" when `p` is bad, else "Invalid end verse number" when `q` is bad, else `Range(p, q)` exactly as written, with no order check |
| `Locator.ParseFormatVerseOpts` | src/bible.rs:91-108 | round trip: a canonically written `n` or `s-e` parses back to `Single(n)` or `Range(s, e)` |
| `Locator.ParseAbbreviation` | src/bible.rs:114-136 | any input without exactly two colons, and only such input, gives the format error; a parsed book has no colon and a parsed chapter fits in a `usize` |
| `Locator.LocatorWithThreeParts` | src/bible.rs:116-135 | for `b:c:v`, a bad chapter gives "Invalid chapter number" first; then any verse-spec error is passed on unchanged; otherwise the result is `(b, c, spec)` with `b` verbatim, even if empty |
| `Locator.ParseFormatAbbreviation` | src/bible.rs:114-136 | round trip: for a book without `:` and numbers in `usize` range, `book:c:v` and `book:c:s-e` parse back to the locator |
| `Locator.DocumentedSingleLocator` | src/args.rs:10 | `jn:3:16` parses to book `jn`, chapter 3, `Single(16)` |
| `Locator.DocumentedOtherBookLocator` | src/args.rs:10 | `1co:13:4` parses to book `1co`, chapter 13, `Single(4)` |
| `Locator.DocumentedRangeLocator` | src/args.rs:10 | `jn:3:16-18` parses to book `jn`, chapter 3, `Range(16, 18)` |
| `Locator.RejectedTwoPartLocator` | src/bible.rs:118-121 | `jn:3` is rejected with the format error |
| `Resolver.Selected` | src/bible.rs:170-181 | the selected verses are exactly the chapter's verses that satisfy the selector: equality for `Single`, inclusive bounds for `Range` |
| `Resolver.ToVerseRange` | src/bible.rs:187-193 | each selected verse becomes a (number, content) pair, keeping the same length and order |
| `Resolver.LookupInBook` | src/bible.rs:168-203 | the as-written tail of `get`/`get_abbr`: `None` exactly when the book has no chapter with the number; any panic is an unwrap on `None`; a result reports the book's name and the requested chapter |
| `Resolver.LookupInBookMeetsSpec` | src/bible.rs:168-203 | using the first chapter with the number: `None` exactly when there is no such chapter; a panic exactly when no verse is selected; `Single` for one match; `Range` for more than one, with the pairs in chapter order |
| `Resolver.Get` | src/bible.rs:166-204 | returns `None` when no book has the display name; otherwise it behaves as above for the first book with that name, and the result carries that book's name and the requested chapter |
| `Resolver.GetAbbr` | src/bible.rs:206-244 | the same as `Get`, but the book is matched by abbreviation; the result still carries the display name |
| `Resolver.GetAbbrAgreesWithGet` | src/bible.rs:206-244 | matching by abbreviation and by display name give identical results when both searches stop at the same book |
| `Resolver.SelectedAscending` | src/bible.rs:176-180 | in a chapter with ascending verse numbers, the selection is ascending too; with `Selected`, a range gives the chapter's verses whose numbers lie in `[start, end]`, in ascending order |
| `Resolver.SelectedSingleDistinct` | src/bible.rs:171-175 | with distinct verse numbers, `Single(n)` selects exactly the verse numbered `n`, or nothing |
| `Resolver.GetChecked` | src/bible.rs:166-204 | corrected `get`: `None` exactly when the book, the chapter, or every selected verse is missing; it equals `Get` wherever `Get` does not panic |
| `Resolver.GetAbbrChecked` | src/bible.rs:206-244 | corrected `get_abbr`, with the same two properties for the abbreviation |
| `Resolver.LookupInBookChecked` | src/bible.rs:168-203 | the corrected tail: `None` exactly when the chapter is missing or its first match selects no verse; a result reports the book's name and the requested chapter |
| `Resolver.LookupInBookCheckedMeetsSpec` | src/bible.rs:168-203 | the corrected tail gives `None` exactly when the chapter is missing or nothing is selected, and otherwise gives the as-written answer |
| `Resolver.GetPanicsOnUnmatchedVerse` | src/bible.rs:195-196 | John 3 holds only verse 16; asking for verse 17 makes `get` panic, where the corrected lookup answers `None` |
| `Resolver.GetAbbrPanicsOnEmptyRange` | src/bible.rs:234-235 | the range `18-16` on the same chapter makes `get_abbr` panic, where the corrected lookup answers `None` |
| `Resolver.TestamentBooks` | src/bible.rs:148-152 | the slice panics exactly when a testament is asked for and there are fewer than 39 books; otherwise position `m` of the slice is book `m + offset`, that book lies in the testament, and every book of the testament is in the slice |
| `Resolver.Random` | src/bible.rs:147-164 | a slice-out-of-range panic occurs exactly as above; a returned verse is one chain: a book in the testament, one of its chapters, and one of that chapter's verses |
| `Resolver.PickVerse` | src/bible.rs:154-163 | any panic is an unwrap on `None`; a returned verse is a book of the slice, one of its chapters and one of that chapter's verses |
| `Resolver.PickVerseChapterlessBook` | src/bible.rs:154-155 | drawing a book of the slice that has no chapters panics at the chapter's `unwrap` |
| `Resolver.PickVerseVerselessChapter` | src/bible.rs:155-156 | drawing a chapter that has no verses panics at the verse's `unwrap` |
| `Resolver.PickVerseReaches` | src/bible.rs:154-163 | every chain of book, chapter and verse in the slice is picked by some draws |
| `Resolver.PickedFromTestament` | src/bible.rs:148-163 | a verse picked from the testament's slice belongs to a book of the corpus that lies in the testament |
| `Resolver.RandomReaches` | src/bible.rs:154-163 | every verse of every chapter of every book in the testament is returned for some draws |
| `Resolver.RandomChapterlessBook` | src/bible.rs:148-156 | drawing a book of the testament that has no chapters makes `random` panic |
| `Resolver.RandomVerselessChapter` | src/bible.rs:148-156 | drawing a chapter without verses, in a book of the testament, makes `random` panic |
| `Resolver.RandomReturnsOnCompleteTree` | src/bible.rs:150-156 | no panic when the slice exists and is non-empty, and every book in it has chapters and every chapter has verses |
| `Resolver.RandomNewTestamentOfOldTestamentOnly` | src/bible.rs:151-154 | with exactly 39 books, the `39..` slice is empty and the first `unwrap` panics |
| `Prototype.LookupInBook` | src/main.rs:38-46 | the shared tail of `get`/`get_by_abbr`: `None` when the book has no chapter with the number; a response carries the book's name and the requested chapter and verse numbers |
| `Prototype.LookupInBookMeetsSpec` | src/main.rs:38-46 | with the first chapter with the number and its first verse with the number: `None` exactly when either is missing; otherwise that verse's content with the requested numbers |
| `Prototype.Get` | src/main.rs:36-47 | `None` when no book has the display name; otherwise behaves as above for the first book with that name; none of the cases panics |
| `Prototype.GetByAbbr` | src/main.rs:49-65 | the same as `Get`, but the book is matched by abbreviation |
| `Prototype.GetByAbbrAgreesWithGet` | src/main.rs:49-65 | matching by abbreviation and by display name give the same response when both searches stop at the same book |
| `Prototype.GetByAbbrAnswersRequest` | src/main.rs:55-64 | a response carries the requested chapter and verse, and the display name (not the abbreviation) of a book with that abbreviation |
| `Prototype.Random` | src/main.rs:23-34 | an empty book list panics; a returned verse lies in a chapter of a book of the tree |
| `Prototype.RandomChapterlessBook` | src/main.rs:24-25 | drawing a book without chapters panics at the chapter's `unwrap` |
| `Prototype.RandomVerselessChapter` | src/main.rs:25-26 | drawing a chapter without verses panics at the verse's `unwrap` |
| `Prototype.RandomReaches` | src/main.rs:24-26 | every verse of the tree is returned for some draws |
| `Subscript.SubscriptChar` | src/utils.rs:9-21 | a digit `d` becomes the subscript character U+2080+d, and any other character is kept |
| `Subscript.MapChars` | src/utils.rs:8-22 | the map is applied character by character, keeping length and order |
| `Subscript.ToSubscript` | src/utils.rs:6-23 | the output has as many characters as `n` has decimal digits, and character `i` is U+2080 plus digit `i` of `n` |
| `Subscript.ToSubscriptAlphabet` | src/utils.rs:9-20 | the output uses only the ten subscript digits, so the fallback branch is never taken |
| `Subscript.ToSubscriptRecoversDecimal` | src/utils.rs:9-19 | mapping each subscript back to its ASCII digit recovers `n.to_string()` |
| `Subscript.ToSubscriptInjective` | src/utils.rs:7-22 | distinct numbers render to distinct strings |
| `Subscript.ZeroSubscript` | src/utils.rs:7-10 | `0` renders as the single character U+2080 |
| `Contrast.FirstMatchesCorrespond` | src/main.rs:37-38 | the same tree in the two sets of types has the same first book and the same first chapter for every request |
| `Contrast.CheckedGetMatchesPrototype` | src/main.rs:36-47 | with distinct verse numbers, the corrected `src/bible.rs` lookup with `Single(v)` gives exactly the prototype's answer, as a `Single` result |
| `Contrast.AsWrittenGetPanicsWherePrototypeMissesVerse` | src/bible.rs:195-196 | where the prototype returns `None` for a verse missing from an existing chapter, the `src/bible.rs` `get` as written panics |

## Left out

- XML loading: `Bible::from_xml_file` and the prototype's `from_xml` with `include_str!` read the file and deserialise it with quick_xml/serde, which are foreign libraries. The tree is constructed as a datatype instead.
- The `chapters_len` field (`@chapters` attribute): it is read from XML but no lookup uses it.
- Randomness: `rand::thread_rng` is a foreign RNG. Each `choose` takes a draw `d` as a parameter and picks element `d % len`. The model says which results are possible, not how likely they are.
- Output: the locator parser's `eprintln!` of the parts, `main()`'s printing, and `Serialize`/JSON output are side effects. They are not modelled.
- `src/args.rs`: clap argument declarations with no logic. Its documented locator examples appear only as lemmas.
- Integer width: `usize` is taken to be 64 bits. Tree numbers are unbounded `nat`s, because the tree is built directly and not parsed. `to_subscript` is modelled for every `nat`.
- Text: Rust strings are UTF-8, while the model uses sequences of Unicode scalar values (`char`). The parsers split on chars, so this makes no difference.

## Findings

| source | as written | input that shows it | evidently intended | confidence | as-written member | corrected member |
|---|---|---|---|---|---|---|
| src/bible.rs:195-196 | `get` treats every count other than "more than one" as exactly one and calls `verses.first().unwrap()`, which panics when no verse is selected | book "John" with chapter 3 holding only verse 16, request `Single(17)`; also a range with start > end | return `None` (not found), as for a missing book or chapter | not executed | `Resolver.GetPanicsOnUnmatchedVerse` | `Resolver.GetChecked` |
| src/bible.rs:234-235 | `get_abbr` repeats the same `first().unwrap()` in its `Single` branch | the same chapter with locator `jn:3:18-16` | return `None` | not executed | `Resolver.GetAbbrPanicsOnEmptyRange` | `Resolver.GetAbbrChecked` |
