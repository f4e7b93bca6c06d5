/**
 * The citation enumerator of passage-generator.js: for a book with a number
 * of chapters and a table of verse counts per chapter, every single-verse
 * citation, every verse range inside a chapter, and every range from the
 * last verse of a chapter to the first verse of a later chapter, chapter by
 * chapter.
 */
module Generator {

  import opened Options
  import opened Strings

  /**
   * One generated citation: `c:v`, `c:v-e` inside a chapter, or
   * `c:last-e:1` across chapters, where `last` is the table's entry for
   * chapter `c`, which is `undefined` past the end of the table.
   */
  datatype Citation =
    | Single(chapter: int, verse: int)
    | Range(chapter: int, verse: int, endVerse: int)
    | Cross(chapter: int, lastVerse: Option<int>, endChapter: int)

  /** `versesPerChapter[c - 1]`: `undefined` outside the table. */
  function VerseCount(vpc: seq<int>, c: int): Option<int> {
    if 1 <= c <= |vpc| then Some(vpc[c - 1]) else None
  }

  /**
   * The bound of the verse loops: `verse <= undefined` is false, so a
   * missing entry behaves as a chapter without verses.
   */
  function LastVerse(n: Option<int>): int {
    match n
    case None => 0
    case Some(k) => k
  }

  /** The innermost loop for verse `v`: the ranges `c:v-(v+1)` up to `c:v-e`. */
  function Ranges(c: int, v: int, e: int): (r: seq<Citation>)
    ensures forall x :: x in r <==> x.Range? && x.chapter == c && x.verse == v && v < x.endVerse <= e
    decreases e - v
  {
    if e <= v then [] else Ranges(c, v, e - 1) + [Range(c, v, e)]
  }

  /** The verse loop of chapter `c` with `n` verses, up to verse `u`: each verse, then its ranges. */
  function Verses(c: int, n: int, u: int): (r: seq<Citation>)
    ensures forall x :: x in r <==>
      || (x.Single? && x.chapter == c && 1 <= x.verse <= u)
      || (x.Range? && x.chapter == c && 1 <= x.verse <= u && x.verse < x.endVerse <= n)
    decreases u
  {
    if u < 1 then [] else Verses(c, n, u - 1) + [Single(c, u)] + Ranges(c, u, n)
  }

  /** The chapter-range loop of chapter `c`: `c:last-(c+1):1` up to `c:last-e:1`. */
  function Crosses(c: int, last: Option<int>, e: int): (r: seq<Citation>)
    ensures forall x :: x in r <==> x.Cross? && x.chapter == c && x.lastVerse == last && c < x.endChapter <= e
    decreases e - c
  {
    if e <= c then [] else Crosses(c, last, e - 1) + [Cross(c, last, e)]
  }

  /** Everything one round of the chapter loop emits. */
  function ChapterBlock(vpc: seq<int>, chapters: int, c: int): seq<Citation> {
    var n := LastVerse(VerseCount(vpc, c));
    Verses(c, n, n) + Crosses(c, VerseCount(vpc, c), chapters)
  }

  /** The chapter loop up to chapter `u`. */
  function Chapters(vpc: seq<int>, chapters: int, u: int): seq<Citation>
    decreases u
  {
    if u < 1 then [] else Chapters(vpc, chapters, u - 1) + ChapterBlock(vpc, chapters, u)
  }

  /** `generateScriptureCombinations(book, chapters, versesPerChapter)`, before rendering. */
  function Generate(chapters: int, vpc: seq<int>): seq<Citation> {
    Chapters(vpc, chapters, chapters)
  }

  /** The citations the enumerator is meant to produce, independently of the loops. */
  predicate Valid(x: Citation, chapters: int, vpc: seq<int>) {
    match x
    case Single(c, v) => 1 <= c <= chapters && 1 <= v <= LastVerse(VerseCount(vpc, c))
    case Range(c, v, e) => 1 <= c <= chapters && 1 <= v < e <= LastVerse(VerseCount(vpc, c))
    case Cross(c, last, e) => 1 <= c < e <= chapters && last == VerseCount(vpc, c)
  }

  /** One round of the chapter loop emits exactly the valid citations of its chapter. */
  lemma BlockMembers(vpc: seq<int>, chapters: int, c: int, x: Citation)
    requires 1 <= c <= chapters
    ensures x in ChapterBlock(vpc, chapters, c) <==> Valid(x, chapters, vpc) && x.chapter == c
  {
    var n := LastVerse(VerseCount(vpc, c));
    assert x in ChapterBlock(vpc, chapters, c) <==> x in Verses(c, n, n) || x in Crosses(c, VerseCount(vpc, c), chapters);
  }

  /** The chapter loop up to `u` emits exactly the valid citations of chapters 1 to `u`. */
  lemma {:induction false} ChaptersMembers(vpc: seq<int>, chapters: int, u: int, x: Citation)
    requires u <= chapters
    ensures x in Chapters(vpc, chapters, u) <==> Valid(x, chapters, vpc) && x.chapter <= u
    decreases u
  {
    if u >= 1 {
      ChaptersMembers(vpc, chapters, u - 1, x);
      BlockMembers(vpc, chapters, u, x);
      assert x in Chapters(vpc, chapters, u) <==> x in Chapters(vpc, chapters, u - 1) || x in ChapterBlock(vpc, chapters, u);
    } else {
      assert Valid(x, chapters, vpc) ==> x.chapter >= 1;
    }
  }

  /** Every citation the generator emits is valid, and every valid citation is emitted. */
  lemma GenerateMembers(chapters: int, vpc: seq<int>, x: Citation)
    ensures x in Generate(chapters, vpc) <==> Valid(x, chapters, vpc)
  {
    ChaptersMembers(vpc, chapters, chapters, x);
  }

  /** Zero (or fewer) chapters: nothing at all. */
  lemma NoChapters(chapters: int, vpc: seq<int>)
    requires chapters <= 0
    ensures Generate(chapters, vpc) == []
  {
  }

  /**
   * A chapter without verses still gets its chapter ranges, which start at
   * verse 0, and so does a chapter past the end of the table, whose last
   * verse is `undefined`.
   */
  lemma EmptyChapterCrosses(chapters: int, vpc: seq<int>, c: int, e: int)
    requires 1 <= c < e <= chapters
    ensures c <= |vpc| && vpc[c - 1] == 0 ==> Cross(c, Some(0), e) in Generate(chapters, vpc)
    ensures c > |vpc| ==> Cross(c, None, e) in Generate(chapters, vpc)
    ensures c > |vpc| ==> forall v :: Single(c, v) !in Generate(chapters, vpc)
  {
    GenerateMembers(chapters, vpc, Cross(c, VerseCount(vpc, c), e));
    forall v | true
      ensures c > |vpc| ==> Single(c, v) !in Generate(chapters, vpc)
    {
      GenerateMembers(chapters, vpc, Single(c, v));
    }
  }

  // ---------------------------------------------------------------------
  // Order
  // ---------------------------------------------------------------------

  /** Single verses and in-chapter ranges come before the chapter ranges of their chapter. */
  function Phase(x: Citation): int {
    if x.Cross? then 1 else 0
  }

  function Start(x: Citation): int {
    if x.Cross? then 0 else x.verse
  }

  function End(x: Citation): int {
    match x
    case Single(_, v) => v
    case Range(_, _, e) => e
    case Cross(_, _, e) => e
  }

  /**
   * The order of the output: by chapter; inside a chapter the verse
   * citations before the chapter ranges; the verse citations by first verse,
   * `c:v` before `c:v-e`, ranges by last verse; chapter ranges by last chapter.
   */
  predicate Before(x: Citation, y: Citation) {
    || x.chapter < y.chapter
    || (x.chapter == y.chapter && Phase(x) < Phase(y))
    || (x.chapter == y.chapter && Phase(x) == Phase(y) && Start(x) < Start(y))
    || (x.chapter == y.chapter && Phase(x) == Phase(y) && Start(x) == Start(y) && End(x) < End(y))
  }

  predicate Increasing(r: seq<Citation>) {
    forall i, j :: 0 <= i < j < |r| ==> Before(r[i], r[j])
  }

  /** Two increasing runs, every element of the first before every element of the second. */
  lemma IncreasingAppend(a: seq<Citation>, b: seq<Citation>)
    requires Increasing(a) && Increasing(b)
    requires forall x, y :: x in a && y in b ==> Before(x, y)
    ensures Increasing(a + b)
  {
    var r := a + b;
    forall i, j | 0 <= i < j < |r|
      ensures Before(r[i], r[j])
    {
      if j < |a| {
        assert r[i] == a[i] && r[j] == a[j];
      } else if i >= |a| {
        assert r[i] == b[i - |a|] && r[j] == b[j - |a|];
      } else {
        assert r[i] in a && r[j] in b;
      }
    }
  }

  lemma {:induction false} RangesIncreasing(c: int, v: int, e: int)
    ensures Increasing(Ranges(c, v, e))
    decreases e - v
  {
    if e > v {
      RangesIncreasing(c, v, e - 1);
      IncreasingAppend(Ranges(c, v, e - 1), [Range(c, v, e)]);
    }
  }

  lemma {:induction false} VersesIncreasing(c: int, n: int, u: int)
    ensures Increasing(Verses(c, n, u))
    decreases u
  {
    if u >= 1 {
      VersesIncreasing(c, n, u - 1);
      RangesIncreasing(c, u, n);
      IncreasingAppend([Single(c, u)], Ranges(c, u, n));
      IncreasingAppend(Verses(c, n, u - 1), [Single(c, u)] + Ranges(c, u, n));
      assert Verses(c, n, u) == Verses(c, n, u - 1) + ([Single(c, u)] + Ranges(c, u, n));
    }
  }

  lemma {:induction false} CrossesIncreasing(c: int, last: Option<int>, e: int)
    ensures Increasing(Crosses(c, last, e))
    decreases e - c
  {
    if e > c {
      CrossesIncreasing(c, last, e - 1);
      IncreasingAppend(Crosses(c, last, e - 1), [Cross(c, last, e)]);
    }
  }

  lemma ChapterBlockIncreasing(vpc: seq<int>, chapters: int, c: int)
    ensures Increasing(ChapterBlock(vpc, chapters, c))
    ensures forall x :: x in ChapterBlock(vpc, chapters, c) ==> x.chapter == c
  {
    var n := LastVerse(VerseCount(vpc, c));
    VersesIncreasing(c, n, n);
    CrossesIncreasing(c, VerseCount(vpc, c), chapters);
    IncreasingAppend(Verses(c, n, n), Crosses(c, VerseCount(vpc, c), chapters));
  }

  lemma {:induction false} ChaptersIncreasing(vpc: seq<int>, chapters: int, u: int)
    ensures Increasing(Chapters(vpc, chapters, u))
    ensures forall x :: x in Chapters(vpc, chapters, u) ==> x.chapter <= u
    decreases u
  {
    if u >= 1 {
      ChaptersIncreasing(vpc, chapters, u - 1);
      ChapterBlockIncreasing(vpc, chapters, u);
      IncreasingAppend(Chapters(vpc, chapters, u - 1), ChapterBlock(vpc, chapters, u));
    }
  }

  /**
   * The output is strictly increasing in the order `Before`: all citations
   * of chapter `c` precede those of chapter `c + 1`, and nothing is emitted
   * twice.
   */
  lemma GenerateIncreasing(chapters: int, vpc: seq<int>)
    ensures Increasing(Generate(chapters, vpc))
  {
    ChaptersIncreasing(vpc, chapters, chapters);
  }

  /** A strictly increasing sequence holds no citation twice. */
  lemma IncreasingDistinct(r: seq<Citation>, i: int, j: int)
    requires Increasing(r) && 0 <= i < j < |r|
    ensures r[i] != r[j]
  {
    assert Before(r[i], r[j]);
  }

  // ---------------------------------------------------------------------
  // Count
  // ---------------------------------------------------------------------

  /** 1 + 2 + ... + n: the verse citations of a chapter with `n` verses (none when `n <= 0`). */
  function Triangle(n: int): nat
    decreases n
  {
    if n <= 0 then 0 else Triangle(n - 1) + n
  }

  /** The closed form `n (n + 1) / 2`. */
  lemma {:induction false} TriangleClosed(n: nat)
    ensures 2 * Triangle(n) == n * (n + 1)
  {
    if n > 0 {
      TriangleClosed(n - 1);
      assert (n - 1) * n + 2 * n == n * (n + 1);
    }
  }

  /** Σ over chapters 1 to `u` of (verse citations + chapter ranges). */
  function CountUpTo(vpc: seq<int>, chapters: int, u: int): int
    decreases u
  {
    if u < 1 then 0
    else CountUpTo(vpc, chapters, u - 1) + Triangle(LastVerse(VerseCount(vpc, u))) + (chapters - u)
  }

  lemma {:induction false} RangesCount(c: int, v: int, e: int)
    ensures |Ranges(c, v, e)| == if e <= v then 0 else e - v
    decreases e - v
  {
    if e > v {
      RangesCount(c, v, e - 1);
    }
  }

  lemma {:induction false} CrossesCount(c: int, last: Option<int>, e: int)
    ensures |Crosses(c, last, e)| == if e <= c then 0 else e - c
    decreases e - c
  {
    if e > c {
      CrossesCount(c, last, e - 1);
    }
  }

  /**
   * Verse citations of the first `u` verses of a chapter with `n` verses:
   * verse `v` brings `n - v + 1`, so `n + (n - 1) + ... + (n - u + 1)`.
   */
  lemma {:induction false} VersesCount(c: int, n: int, u: int)
    requires 0 <= u <= n
    ensures |Verses(c, n, u)| == Triangle(n) - Triangle(n - u)
    decreases u
  {
    if u >= 1 {
      VersesCount(c, n, u - 1);
      RangesCount(c, u, n);
      assert Triangle(n - u + 1) == Triangle(n - u) + (n - u + 1);
    }
  }

  lemma ChapterBlockCount(vpc: seq<int>, chapters: int, c: int)
    requires c <= chapters
    ensures |ChapterBlock(vpc, chapters, c)| == Triangle(LastVerse(VerseCount(vpc, c))) + (chapters - c)
  {
    var n := LastVerse(VerseCount(vpc, c));
    if n >= 0 {
      VersesCount(c, n, n);
    }
    CrossesCount(c, VerseCount(vpc, c), chapters);
  }

  lemma {:induction false} ChaptersCount(vpc: seq<int>, chapters: int, u: int)
    requires u <= chapters
    ensures |Chapters(vpc, chapters, u)| == CountUpTo(vpc, chapters, u)
    decreases u
  {
    if u >= 1 {
      ChaptersCount(vpc, chapters, u - 1);
      ChapterBlockCount(vpc, chapters, u);
    }
  }

  /** The length of the output: Σ over the chapters c of n_c (n_c + 1) / 2 + (chapters − c). */
  lemma GenerateCount(chapters: int, vpc: seq<int>)
    ensures |Generate(chapters, vpc)| == CountUpTo(vpc, chapters, chapters)
  {
    ChaptersCount(vpc, chapters, chapters);
  }

  /** With `k` verses in every chapter, the sum is `chapters * k (k + 1) / 2 + chapters (chapters − 1) / 2`. */
  lemma {:induction false} UniformCount(vpc: seq<int>, chapters: int, u: int, k: nat)
    requires 0 <= u <= chapters <= |vpc|
    requires forall i :: 0 <= i < |vpc| ==> vpc[i] == k
    ensures 2 * CountUpTo(vpc, chapters, u) == u * (2 * Triangle(k)) + u * (2 * chapters - u - 1)
    decreases u
  {
    if u >= 1 {
      UniformCount(vpc, chapters, u - 1, k);
      assert VerseCount(vpc, u) == Some(k);
      MulStep(u, 2 * Triangle(k));
      PairsStep(u, chapters);
    }
  }

  lemma MulStep(u: int, m: int)
    ensures u * m == (u - 1) * m + m
  {
  }

  lemma PairsStep(u: int, chapters: int)
    ensures u * (2 * chapters - u - 1) == (u - 1) * (2 * chapters - u) + 2 * (chapters - u)
  {
    assert (u - 1) * (2 * chapters - u) == u * (2 * chapters - u) - (2 * chapters - u);
    assert u * (2 * chapters - u) == u * (2 * chapters - u - 1) + u;
  }

  /**
   * With `k` verses in each of the `chapters` chapters the output has
   * `chapters * k (k + 1) / 2 + chapters (chapters − 1) / 2` citations.
   */
  lemma GenerateUniformCount(chapters: nat, vpc: seq<int>, k: nat)
    requires chapters <= |vpc|
    requires forall i :: 0 <= i < |vpc| ==> vpc[i] == k
    ensures 2 * |Generate(chapters, vpc)| == chapters * (k * (k + 1)) + chapters * (chapters - 1)
  {
    GenerateCount(chapters, vpc);
    UniformCount(vpc, chapters, chapters, k);
    TriangleClosed(k);
  }

  /** The example of the source: 50 chapters of 30 verses give 24475 citations. */
  lemma GenesisExampleCount(vpc: seq<int>, chapters: nat, k: nat)
    requires chapters == 50 && k == 30
    requires |vpc| == chapters && forall i :: 0 <= i < |vpc| ==> vpc[i] == k
    ensures |Generate(chapters, vpc)| == 24475
  {
    GenerateUniformCount(chapters, vpc, k);
  }

  // ---------------------------------------------------------------------
  // The loops
  // ---------------------------------------------------------------------

  lemma AppendAssoc(a: seq<Citation>, b: seq<Citation>, c: seq<Citation>)
    ensures a + (b + c) == a + b + c
  {
  }

  /** The innermost loop: `for (endVerse = verse + 1; endVerse <= n; endVerse++)`. */
  method PushRanges(r0: seq<Citation>, c: int, v: int, n: int) returns (r: seq<Citation>)
    ensures r == r0 + Ranges(c, v, n)
  {
    r := r0;
    var e := v + 1;
    while e <= n
      invariant v < e && (e <= n + 1 || e == v + 1)
      invariant r == r0 + Ranges(c, v, e - 1)
      decreases n - e
    {
      AppendAssoc(r0, Ranges(c, v, e - 1), [Range(c, v, e)]);
      r := r + [Range(c, v, e)];
      e := e + 1;
    }
  }

  /** The verse loop of one chapter: `for (verse = 1; verse <= n; verse++)`. */
  method PushVerses(r0: seq<Citation>, c: int, n: int) returns (r: seq<Citation>)
    ensures r == r0 + Verses(c, n, n)
  {
    r := r0;
    var v := 1;
    while v <= n
      invariant 1 <= v && (v <= n + 1 || v == 1)
      invariant r == r0 + Verses(c, n, v - 1)
      decreases n - v
    {
      AppendAssoc(r0, Verses(c, n, v - 1), [Single(c, v)]);
      AppendAssoc(r0, Verses(c, n, v - 1) + [Single(c, v)], Ranges(c, v, n));
      r := r + [Single(c, v)];
      r := PushRanges(r, c, v, n);
      v := v + 1;
    }
    if n < 1 {
      assert Verses(c, n, n) == [];
    }
  }

  /** The chapter-range loop: `for (endChapter = chapter + 1; endChapter <= chapters; endChapter++)`. */
  method PushCrosses(r0: seq<Citation>, c: int, last: Option<int>, chapters: int) returns (r: seq<Citation>)
    ensures r == r0 + Crosses(c, last, chapters)
  {
    r := r0;
    var e := c + 1;
    while e <= chapters
      invariant c < e && (e <= chapters + 1 || e == c + 1)
      invariant r == r0 + Crosses(c, last, e - 1)
      decreases chapters - e
    {
      AppendAssoc(r0, Crosses(c, last, e - 1), [Cross(c, last, e)]);
      r := r + [Cross(c, last, e)];
      e := e + 1;
    }
  }

  /** `generateScriptureCombinations` as written, without the rendering of each citation. */
  method GenerateCombinations(chapters: int, vpc: seq<int>) returns (r: seq<Citation>)
    ensures r == Generate(chapters, vpc)
  {
    r := [];
    var c := 1;
    while c <= chapters
      invariant 1 <= c && (c <= chapters + 1 || c == 1)
      invariant r == Chapters(vpc, chapters, c - 1)
      decreases chapters - c
    {
      var n := LastVerse(VerseCount(vpc, c));
      AppendAssoc(r, Verses(c, n, n), Crosses(c, VerseCount(vpc, c), chapters));
      r := PushVerses(r, c, n);
      r := PushCrosses(r, c, VerseCount(vpc, c), chapters);
      c := c + 1;
    }
  }

  // ---------------------------------------------------------------------
  // Rendering
  // ---------------------------------------------------------------------

  /** A number or `undefined` inside a template literal. */
  function NumberText(n: Option<int>): string {
    match n
    case None => "undefined"
    case Some(k) => IntToString(k)
  }

  /** The template literals of the three `push` calls. */
  function Render(book: string, x: Citation): string {
    match x
    case Single(c, v) => book + " " + IntToString(c) + ":" + IntToString(v)
    case Range(c, v, e) => book + " " + IntToString(c) + ":" + IntToString(v) + "-" + IntToString(e)
    case Cross(c, last, e) => book + " " + IntToString(c) + ":" + NumberText(last) + "-" + IntToString(e) + ":1"
  }

}
