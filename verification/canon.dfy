/**
 * The verse-bound tables: `sch` (src/functions.js), which builds the table of
 * a one-chapter book, and the per-book tables of src/chapter_verses/, which
 * map each chapter number to the list of its verse numbers. A table is a map
 * from chapter number to verse list; the object keys of the source are
 * strings, but every lookup goes through the chapter number, so the keys are
 * modelled as integers.
 */
module Canon {

  /** One book's table: chapter number to the list of its verse numbers. */
  type Table = map<int, seq<int>>

  /**
   * `Array.from({ length: n }, (_, i) => i + 1)`: the numbers 1 to `n`. A
   * negative length is read as 0, so the list is then empty.
   */
  function OneTo(n: int): (r: seq<int>)
    ensures |r| == if n <= 0 then 0 else n
    ensures forall i :: 0 <= i < |r| ==> r[i] == i + 1
  {
    if n <= 0 then [] else OneTo(n - 1) + [n]
  }

  /** `sch(bookName, verseCount)`: a book with the single chapter 1. */
  function Sch(bookName: string, verseCount: int): (r: map<string, Table>)
    ensures r.Keys == {bookName}
    ensures r[bookName].Keys == {1}
  {
    map[bookName := map[1 := OneTo(verseCount)]]
  }

  /** The table for a book whose chapter `c` has `counts[c - 1]` verses. */
  function ChapterTable(counts: seq<int>): Table
    decreases |counts|
  {
    if counts == [] then map[]
    else ChapterTable(counts[..|counts| - 1])[|counts| := OneTo(counts[|counts| - 1])]
  }

  /**
   * The shape every table has: its chapters are exactly 1 to `chapters`, and
   * the list of each one starts at 1 and goes up by one without a gap.
   */
  ghost predicate WellShaped(t: Table, chapters: nat) {
    && (forall c :: c in t <==> 1 <= c <= chapters)
    && (forall c :: c in t ==> forall i :: 0 <= i < |t[c]| ==> t[c][i] == i + 1)
  }

  /** A citation the table admits: the chapter is a key and the verse is in its list. */
  predicate VerseExists(t: Table, chapter: int, verse: int) {
    chapter in t && verse in t[chapter]
  }

  /** The sum of the verse counts. */
  function Total(counts: seq<int>): int {
    if counts == [] then 0 else counts[0] + Total(counts[1..])
  }

  /** Adding one more count at the end adds it to the sum. */
  lemma {:induction false} TotalSnoc(counts: seq<int>, n: int)
    ensures Total(counts + [n]) == Total(counts) + n
  {
    if counts != [] {
      assert (counts + [n])[1..] == counts[1..] + [n];
      TotalSnoc(counts[1..], n);
    }
  }

  /** The number of verses in chapters 1 to `n` of a table; a missing chapter has none. */
  function TableTotal(t: Table, n: nat): int {
    if n == 0 then 0 else TableTotal(t, n - 1) + (if n in t then |t[n]| else 0)
  }

  /** Verse counts are never negative in the tables of the source. */
  predicate Counts(counts: seq<int>) {
    forall i :: 0 <= i < |counts| ==> counts[i] >= 0
  }

  // ---------------------------------------------------------------------
  // The shape of the tables
  // ---------------------------------------------------------------------

  /** `sch` gives a well-shaped one-chapter table whose chapter has `verseCount` verses. */
  lemma SchShape(bookName: string, verseCount: int)
    ensures WellShaped(Sch(bookName, verseCount)[bookName], 1)
    ensures |Sch(bookName, verseCount)[bookName][1]| == if verseCount <= 0 then 0 else verseCount
    ensures verseCount <= 0 ==> Sch(bookName, verseCount)[bookName][1] == []
  {
  }

  /** In `sch`'s table, a verse exists exactly when it is in chapter 1 and between 1 and the count. */
  lemma SchVerses(bookName: string, verseCount: int, chapter: int, verse: int)
    ensures VerseExists(Sch(bookName, verseCount)[bookName], chapter, verse) <==>
      chapter == 1 && 1 <= verse <= verseCount
  {
    WellShapedVerses(Sch(bookName, verseCount)[bookName], 1, chapter, verse);
  }

  /** A table built from counts has the chapters 1 to `|counts|` and the given number of verses in each. */
  lemma {:induction false} ChapterTableShape(counts: seq<int>)
    requires Counts(counts)
    ensures WellShaped(ChapterTable(counts), |counts|)
    ensures forall c :: 1 <= c <= |counts| ==> |ChapterTable(counts)[c]| == counts[c - 1]
    decreases |counts|
  {
    if counts != [] {
      var init := counts[..|counts| - 1];
      ChapterTableShape(init);
      forall c | 1 <= c < |counts|
        ensures ChapterTable(counts)[c] == ChapterTable(init)[c] && init[c - 1] == counts[c - 1]
      {
      }
    }
  }

  /**
   * In a well-shaped table a verse exists exactly when its chapter is in
   * 1 to `chapters` and the verse is in 1 to that chapter's length; the
   * last verse of a chapter is its length.
   */
  lemma {:induction false} WellShapedVerses(t: Table, chapters: nat, chapter: int, verse: int)
    requires WellShaped(t, chapters)
    ensures VerseExists(t, chapter, verse) <==>
      1 <= chapter <= chapters && 1 <= verse <= |t[chapter]|
    ensures chapter in t && t[chapter] != [] ==> t[chapter][|t[chapter]| - 1] == |t[chapter]|
  {
    if chapter in t {
      var vs := t[chapter];
      if verse in vs {
        var i :| 0 <= i < |vs| && vs[i] == verse;
        assert vs[i] == i + 1;
      }
      if 1 <= verse <= |vs| {
        assert vs[verse - 1] == verse;
      }
    }
  }

  /** The verses of chapters 1 to `k` of a table built from counts add up to the first `k` counts. */
  lemma {:induction false} ChapterTableTotal(counts: seq<int>, k: nat)
    requires Counts(counts) && k <= |counts|
    ensures TableTotal(ChapterTable(counts), k) == Total(counts[..k])
  {
    if k > 0 {
      ChapterTableTotal(counts, k - 1);
      assert counts[..k] == counts[..k - 1] + [counts[k - 1]];
      TotalSnoc(counts[..k - 1], counts[k - 1]);
      ChapterTableShape(counts);
    }
  }

  // ---------------------------------------------------------------------
  // The two tables of the source
  // ---------------------------------------------------------------------

  const EcclesiastesCounts: seq<int> := [18, 26, 22, 16, 20, 12, 29, 17, 18, 20, 10, 14]

  /** src/chapter_verses/ecclesiastes.js. */
  const Ecclesiastes: Table := ChapterTable(EcclesiastesCounts)

  const MicahCounts: seq<int> := [16, 13, 12, 13, 15, 16, 20]

  /** src/chapter_verses/micah.js. */
  const Micah: Table := ChapterTable(MicahCounts)

  /** Ecclesiastes has chapters 1 to 12, each numbered 1 to its count. */
  lemma EcclesiastesShape()
    ensures WellShaped(Ecclesiastes, 12)
    ensures forall c :: 1 <= c <= 12 ==> |Ecclesiastes[c]| == EcclesiastesCounts[c - 1]
  {
    ChapterTableShape(EcclesiastesCounts);
  }

  /** Ecclesiastes has 222 verses in all. */
  lemma EcclesiastesTotal()
    ensures TableTotal(Ecclesiastes, 12) == 222
  {
    ChapterTableTotal(EcclesiastesCounts, 12);
    assert EcclesiastesCounts[..12] == EcclesiastesCounts;
    CountsSums();
  }

  /** Micah has chapters 1 to 7, each numbered 1 to its count. */
  lemma MicahShape()
    ensures WellShaped(Micah, 7)
    ensures forall c :: 1 <= c <= 7 ==> |Micah[c]| == MicahCounts[c - 1]
  {
    ChapterTableShape(MicahCounts);
  }

  /** Micah has 105 verses in all. */
  lemma MicahTotal()
    ensures TableTotal(Micah, 7) == 105
  {
    ChapterTableTotal(MicahCounts, 7);
    assert MicahCounts[..7] == MicahCounts;
    CountsSums();
  }

  /** The sums of the two count lists. */
  lemma CountsSums()
    ensures Total(EcclesiastesCounts) == 222 && Total(MicahCounts) == 105
  {
  }

  /** Ecclesiastes 7:29 is the last verse of its longest chapter; 7:30 and 13:1 do not exist. */
  lemma EcclesiastesBounds()
    ensures VerseExists(Ecclesiastes, 7, 29)
    ensures !VerseExists(Ecclesiastes, 7, 30)
    ensures !VerseExists(Ecclesiastes, 13, 1)
  {
    EcclesiastesShape();
    WellShapedVerses(Ecclesiastes, 12, 7, 29);
    WellShapedVerses(Ecclesiastes, 12, 7, 30);
    WellShapedVerses(Ecclesiastes, 12, 13, 1);
  }

}
