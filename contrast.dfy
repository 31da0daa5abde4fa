/** The prototype of `src/main.rs` against the lookup of `src/bible.rs` on
    the same tree: with distinct verse numbers in every chapter, the
    corrected `get` with a `Single` selector answers exactly as the
    prototype `get`; the `get` of `src/bible.rs` as written panics exactly
    where the prototype returns `None` for a missing verse. */
module Contrast {
  import opened Wrappers
  import opened Locator
  import opened Iter
  import P = Prototype
  import R = Resolver

  function ConvertVerse(v: P.BibleBookVerse): R.BibleBookVerse {
    R.BibleBookVerse(v.number, v.content)
  }

  function ConvertChapter(c: P.BibleBookChapter): (r: R.BibleBookChapter)
    ensures r.number == c.number && |r.verses| == |c.verses|
    ensures forall j :: 0 <= j < |c.verses| ==> r.verses[j] == ConvertVerse(c.verses[j])
  {
    R.BibleBookChapter(c.number, seq(|c.verses|, j requires 0 <= j < |c.verses| => ConvertVerse(c.verses[j])))
  }

  function ConvertBook(b: P.BibleBook): (r: R.BibleBook)
    ensures r.name == b.name && r.abbrev == b.abbrev && |r.chapters| == |b.chapters|
    ensures forall k :: 0 <= k < |b.chapters| ==> r.chapters[k] == ConvertChapter(b.chapters[k])
  {
    R.BibleBook(b.name, b.abbrev, seq(|b.chapters|, k requires 0 <= k < |b.chapters| => ConvertChapter(b.chapters[k])))
  }

  function Convert(bible: P.Bible): (r: R.Bible)
    ensures |r.books| == |bible.books|
    ensures forall i :: 0 <= i < |bible.books| ==> r.books[i] == ConvertBook(bible.books[i])
  {
    R.Bible(seq(|bible.books|, i requires 0 <= i < |bible.books| => ConvertBook(bible.books[i])))
  }

  /** The prototype's response as a `Single` result of `src/bible.rs`. */
  function AsSingle(r: P.BibleVerseResponse): R.BibleVerseResult {
    R.BibleVerseResult.Single(R.BibleSingleVerseResult(r.book, r.chapter, r.verse, r.content))
  }

  ghost predicate DistinctVerseNumbers(bible: P.Bible) {
    forall i, k :: 0 <= i < |bible.books| && 0 <= k < |bible.books[i].chapters| ==>
      R.DistinctNumbers(ConvertChapter(bible.books[i].chapters[k]).verses)
  }

  /** Book `i` is the first match on both sides, and the chapter and verse
      lookups agree position for position. */
  lemma FirstMatchesCorrespond(bible: P.Bible, name: string, chapter: nat, i: nat, k: nat)
    requires P.FirstBookNamed(bible, name, i)
    ensures R.FirstBookNamed(Convert(bible), name, i)
    ensures P.HasChapter(bible.books[i], chapter) <==> R.HasChapter(Convert(bible).books[i], chapter)
    ensures P.FirstChapterNumbered(bible.books[i], chapter, k) <==> R.FirstChapterNumbered(Convert(bible).books[i], chapter, k)
  {
  }

  /** With distinct verse numbers, the corrected `get` of `src/bible.rs` and
      the prototype `get` agree on every single-verse request. */
  lemma CheckedGetMatchesPrototype(bible: P.Bible, name: string, chapter: nat, verse: nat)
    requires DistinctVerseNumbers(bible)
    ensures R.GetChecked(Convert(bible), name, chapter, Single(verse)) ==
      match P.Get(bible, name, chapter, verse)
      case None => None
      case Some(r) => Some(AsSingle(r))
  {
    var rbible := Convert(bible);
    var r := R.GetChecked(rbible, name, chapter, Single(verse));
    var p := P.Get(bible, name, chapter, verse);
    if i: nat :| P.FirstBookNamed(bible, name, i) {
      var b := bible.books[i];
      var rb := rbible.books[i];
      FirstMatchesCorrespond(bible, name, chapter, i, 0);
      assert P.LookupSpec(bible, i, chapter, verse, p);
      assert R.LookupSpec(rbible, i, chapter, Single(verse), R.Get(rbible, name, chapter, Single(verse)));
      if k: nat :| P.FirstChapterNumbered(b, chapter, k) {
        FirstMatchesCorrespond(bible, name, chapter, i, k);
        var ch := b.chapters[k];
        var rch := rb.chapters[k];
        R.SelectedSingleDistinct(rch.verses, verse);
        if j: nat :| P.FirstVerseNumbered(ch, verse, j) {
          assert rch.verses[j].number == verse;
          assert R.Selected(rch.verses, Single(verse)) == [rch.verses[j]];
        } else {
          assert !P.HasVerse(ch, verse) by {
            if P.HasVerse(ch, verse) {
              var f := Find(ch.verses, (v: P.BibleBookVerse) => v.number == verse);
              assert P.FirstVerseNumbered(ch, verse, f.value);
            }
          }
          assert R.Selected(rch.verses, Single(verse)) == [];
        }
      } else {
        assert !P.HasChapter(b, chapter) by {
          if P.HasChapter(b, chapter) {
            var f := Find(b.chapters, (c: P.BibleBookChapter) => c.number == chapter);
            assert P.FirstChapterNumbered(b, chapter, f.value);
          }
        }
      }
    } else {
      forall j | 0 <= j < |bible.books| ensures bible.books[j].name != name {
        if bible.books[j].name == name {
          var f := Find(bible.books, (bk: P.BibleBook) => bk.name == name);
          assert P.FirstBookNamed(bible, name, f.value);
        }
      }
    }
  }

  /** Where the prototype returns `None` because the chapter exists but has
      no such verse, the `get` of `src/bible.rs` as written panics. */
  lemma AsWrittenGetPanicsWherePrototypeMissesVerse(bible: P.Bible, name: string, chapter: nat, verse: nat, i: nat)
    requires P.FirstBookNamed(bible, name, i) && P.HasChapter(bible.books[i], chapter)
    requires P.Get(bible, name, chapter, verse).None?
    ensures R.Get(Convert(bible), name, chapter, Single(verse)) == Panicked(UnwrapOnNone)
  {
    var rbible := Convert(bible);
    var b := bible.books[i];
    var rb := rbible.books[i];
    FirstMatchesCorrespond(bible, name, chapter, i, 0);
    var k := Find(b.chapters, (c: P.BibleBookChapter) => c.number == chapter).value;
    assert P.FirstChapterNumbered(b, chapter, k);
    FirstMatchesCorrespond(bible, name, chapter, i, k);
    assert P.LookupSpec(bible, i, chapter, verse, P.Get(bible, name, chapter, verse));
    var ch := b.chapters[k];
    var rch := rb.chapters[k];
    assert !P.HasVerse(ch, verse);
    assert forall j :: 0 <= j < |rch.verses| ==> !R.Selects(Single(verse), rch.verses[j]) by {
      forall j | 0 <= j < |rch.verses| ensures !R.Selects(Single(verse), rch.verses[j]) {
        assert rch.verses[j].number == ch.verses[j].number;
      }
    }
    FilterNone(rch.verses, v => R.Selects(Single(verse), v));
    assert R.Selected(rch.verses, Single(verse)) == [];
    assert R.LookupSpec(rbible, i, chapter, Single(verse), R.Get(rbible, name, chapter, Single(verse)));
  }
}
