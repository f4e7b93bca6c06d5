/**
 * The alias table of the book scanner (jstester.js): the hand-written list of
 * book names and abbreviations, every ordinal/numeric prefix combined with
 * every prefixable name, a copy of every entry with a trailing period, and
 * the whole table sorted longest first.
 */
module Aliases {

  import opened Sorting

  /**
   * The hand-written names and abbreviations, duplicates included, in source
   * order: the short forms, the full names, and four entries added at the end.
   */
  const Books: seq<string> := ShortForms + FullNames + LateAdditions

  const ShortForms: seq<string> := [
      "Gen", "Ge", "Gn", "Exo", "Ex", "Exod", "Lev", "Le", "Lv", "Num", "Nu", "Nm",
      "Nb", "Deut", "Dt", "Josh", "Jos", "Jsh", "Judg", "Jdg", "Jg", "Jdgs", "Rth",
      "Ru", "Sam", "Samuel", "Kings", "Kgs", "Kin", "Chron", "Chronicles", "Ezra",
      "Ezr", "Ez", "Neh", "Ne", "Esth", "Es", "Job", "Job", "Jb", "Pslm", "Ps",
      "Psalms", "Psa", "Psm", "Pss", "Prov", "Pr", "Prv", "Eccles", "Ec", "Song",
      "So", "Canticles", "Song of Songs", "SOS", "Isa", "Is", "Jer", "Je", "Jr",
      "Lam", "La", "Ezek", "Eze", "Ezk", "Dan", "Da", "Dn", "Hos", "Ho", "Joel",
      "Joe", "Jl", "Amos", "Am", "Obad", "Ob", "Jnh", "Jon", "Micah", "Mic", "Nah",
      "Na", "Hab", "Zeph", "Zep", "Zp", "Haggai", "Hag", "Hg", "Zech", "Zec", "Zc",
      "Mal", "Mal", "Ml", "Matt", "Mt", "Mrk", "Mk", "Mr", "Luk", "Lk", "John",
      "Jn", "Jhn", "Acts", "Ac", "Rom", "Ro", "Rm", "Co", "Cor", "Corinthians",
      "Gal", "Ga", "Ephes", "Eph", "Phil", "Php", "Col", "Col", "Th", "Thes", "Thess",
      "Thessalonians", "Ti", "Tim", "Timothy", "Titus", "Tit", "Philem", "Phm",
      "Hebrews", "Heb", "He", "James", "Jas", "Jm", "Pe", "Pet", "Pt", "Peter",
      "Jn", "Jo", "Joh", "Jhn", "John", "Jude", "Jd", "Jud", "Jud", "Rev", "The Revelation"
  ]

  const FullNames: seq<string> := [
      "Genesis", "Exodus", "Leviticus", "Numbers", "Deuteronomy", "Joshua", "Judges",
      "Ruth", "Samuel", "Kings", "Chronicles", "Ezra", "Nehemiah", "Esther", "Job",
      "Psalms", "Psalm", "Proverbs", "Ecclesiastes", "Song of Solomon", "Isaiah",
      "Jeremiah", "Lamentations", "Ezekiel", "Daniel", "Hosea", "Joel", "Amos",
      "Obadiah", "Jonah", "Micah", "Nahum", "Habakkuk", "Zephaniah", "Haggai",
      "Zechariah", "Malachi", "Matthew", "Mark", "Luke", "John", "Acts", "Romans",
      "Corinthians", "Galatians", "Ephesians", "Philippians", "Colossians", "Thessalonians",
      "Timothy", "Titus", "Philemon", "Hebrews", "James", "Peter", "John", "Revelation"
  ]

  const LateAdditions: seq<string> := ["Re", "Ap", "Jd.", "Heb."]

  /** The ordinal and numeric prefixes. */
  const PreStrings: seq<string> := ["III", "II", "I", "1st", "2nd", "3rd", "First", "Second", "Third", "1", "2", "3"]

  /** The names that take a prefix ("1 Peter", "Second Kings", ...). */
  const PreStringed: seq<string> := [
      "Sam", "Samuel", "Kings", "Kgs", "Kin", "Chron", "Chronicles", "Corinthians",
      "Co", "Cor", "Thessalonians", "Th", "Thes", "Thess", "Timothy", "Ti", "Tim",
      "Peter", "Pe", "Pet", "Pt", "John", "Jn", "Jhn"
  ]

  /** For each name (outer loop) every prefix (inner loop) joined to it with one space. */
  function Prefixed(pres: seq<string>, names: seq<string>): (r: seq<string>)
    ensures |r| == |names| * |pres|
    ensures forall pre, name :: pre in pres && name in names ==> pre + " " + name in r
    decreases |names|
  {
    if names == [] then []
    else
      var block := seq(|pres|, p requires 0 <= p < |pres| => pres[p] + " " + names[0]);
      var rest := Prefixed(pres, names[1..]);
      assert |names| * |pres| == |pres| + (|names| - 1) * |pres|;
      assert forall pre, name :: pre in pres && name in names ==> pre + " " + name in block + rest by {
        forall pre, name | pre in pres && name in names
          ensures pre + " " + name in block + rest
        {
          var p :| 0 <= p < |pres| && pres[p] == pre;
          if name == names[0] {
            assert block[p] == pre + " " + name;
          } else {
            assert name in names[1..];
          }
        }
      }
      block + rest
  }

  /**
   * The list after the prefix loop: the original entries, then for every
   * prefixable name and every prefix the entry `pre + " " + name`.
   */
  function AddPrefixed(books: seq<string>, pres: seq<string>, names: seq<string>): (r: seq<string>)
    ensures |r| == |books| + |names| * |pres|
    ensures r[..|books|] == books
    ensures forall pre, name :: pre in pres && name in names ==> pre + " " + name in r
  {
    books + Prefixed(pres, names)
  }

  /**
   * The dot loop. Its bound is the length taken before the loop starts, so the
   * list is doubled: entry `|list| + i` is entry `i` with a period appended.
   */
  function WithDots(list: seq<string>): (r: seq<string>)
    ensures |r| == 2 * |list|
    ensures r[..|list|] == list
    ensures forall i :: 0 <= i < |list| ==> r[|list| + i] == list[i] + "."
  {
    list + seq(|list|, i requires 0 <= i < |list| => list[i] + ".")
  }

  predicate EndsWithTwoDots(e: string) {
    |e| >= 2 && e[|e| - 2..] == ".."
  }

  /**
   * An entry of the doubled list that ends in ".." is either already in the
   * original list with that ending, or the dotted copy of an original entry
   * that ends in a single period (as "Jd." and "Heb." do).
   */
  lemma DoubleDotsComeFromDottedEntries(list: seq<string>, e: string)
    requires e in WithDots(list) && EndsWithTwoDots(e)
    ensures (e in list) || (e[..|e| - 1] in list && e[|e| - 2] == '.')
  {
    var r := WithDots(list);
    var k :| 0 <= k < |r| && r[k] == e;
    if k < |list| {
      assert r[..|list|][k] == e;
    } else {
      var i := k - |list|;
      assert e == list[i] + ".";
      assert e[..|e| - 1] == list[i];
    }
  }

  /** Sort key of the comparator `(a, b) => b.length - a.length`. */
  function ByLengthDescending(a: string): int {
    -|a|
  }

  /**
   * The sort with comparator `(a, b) => b.length - a.length`: a permutation of
   * the list in non-increasing length, entries of equal length kept in list order.
   */
  function LongestFirst(list: seq<string>): (r: seq<string>)
    ensures multiset(r) == multiset(list)
    ensures forall i, j :: 0 <= i < j < |r| ==> |r[i]| >= |r[j]|
    ensures forall n :: WithKey(r, ByLengthDescending, n) == WithKey(list, ByLengthDescending, n)
  {
    var r := SortBy(list, ByLengthDescending);
    assert forall n :: WithKey(r, ByLengthDescending, n) == WithKey(list, ByLengthDescending, n) by {
      forall n {
        SortByStable(list, ByLengthDescending, n);
      }
    }
    r
  }

  /** The alias table the scanner walks. */
  function AliasTable(): seq<string> {
    LongestFirst(Unsorted())
  }

  /** The dotted, unsorted table. */
  function Unsorted(): seq<string> {
    WithDots(AddPrefixed(Books, PreStrings, PreStringed))
  }

  lemma UnsortedSize()
    ensures |Unsorted()| == 1010
  {
    ListSizes();
    assert |Books| == 217;
  }

  lemma ListSizes()
    ensures |ShortForms| == 156 && |FullNames| == 57 && |LateAdditions| == 4
    ensures |PreStrings| == 12 && |PreStringed| == 24
  {
  }

  lemma EntryKept(books: seq<string>, pres: seq<string>, names: seq<string>, i: nat)
    requires i < |books|
    ensures AddPrefixed(books, pres, names)[i] == books[i]
  {
    assert AddPrefixed(books, pres, names)[..|books|][i] == books[i];
  }

  lemma DottedCopy(list: seq<string>, e: string)
    requires e in list
    ensures e in WithDots(list) && e + "." in WithDots(list)
  {
    var i :| 0 <= i < |list| && list[i] == e;
    assert WithDots(list)[..|list|][i] == e;
    assert WithDots(list)[|list| + i] == e + ".";
  }

  lemma SortKeepsEntries(list: seq<string>, e: string)
    requires e in list
    ensures e in LongestFirst(list) && |LongestFirst(list)| == |list|
  {
    var r := LongestFirst(list);
    assert e in multiset(list);
    assert |r| == |multiset(r)| == |multiset(list)| == |list|;
  }

  lemma PeriodEntriesPresent()
    ensures "Jd." in AddPrefixed(Books, PreStrings, PreStringed)
    ensures "Heb." in AddPrefixed(Books, PreStrings, PreStringed)
  {
    LateAdditionsInBooks();
    EntryStays(Books, PreStrings, PreStringed, "Jd.");
    EntryStays(Books, PreStrings, PreStringed, "Heb.");
  }

  lemma LateAdditionsInBooks()
    ensures "Jd." in Books && "Heb." in Books
  {
    assert LateAdditions[2] == "Jd." && LateAdditions[3] == "Heb.";
  }

  /** The prefix loop only appends: every written-out entry stays in the list. */
  lemma EntryStays(books: seq<string>, pres: seq<string>, names: seq<string>, e: string)
    requires e in books
    ensures e in AddPrefixed(books, pres, names)
  {
    var i :| 0 <= i < |books| && books[i] == e;
    EntryKept(books, pres, names, i);
  }

  lemma DoubleDotted(base: seq<string>)
    requires "Jd." in base && "Heb." in base
    ensures "Jd.." in WithDots(base) && "Heb.." in WithDots(base)
  {
    DottedCopy(base, "Jd.");
    DottedCopy(base, "Heb.");
    assert "Jd." + "." == "Jd.." && "Heb." + "." == "Heb..";
  }

  lemma PrefixedInTable(base: seq<string>, pre: string, name: string)
    requires pre + " " + name in base
    ensures pre + " " + name in LongestFirst(WithDots(base))
    ensures pre + " " + name + "." in LongestFirst(WithDots(base))
  {
    var e := pre + " " + name;
    DottedCopy(base, e);
    SortKeepsEntries(WithDots(base), e);
    SortKeepsEntries(WithDots(base), e + ".");
  }

  /**
   * The table built from any written-out list, prefixes and prefixable names
   * holds every prefixed form with and without a trailing period, and has
   * twice as many entries as the list after the prefix loop.
   */
  lemma {:induction false} TableShape(books: seq<string>, pres: seq<string>, names: seq<string>)
    ensures |LongestFirst(WithDots(AddPrefixed(books, pres, names)))| == 2 * (|books| + |names| * |pres|)
    ensures forall pre, name :: pre in pres && name in names ==>
      pre + " " + name in LongestFirst(WithDots(AddPrefixed(books, pres, names))) &&
      pre + " " + name + "." in LongestFirst(WithDots(AddPrefixed(books, pres, names)))
  {
    var base := AddPrefixed(books, pres, names);
    if |base| > 0 {
      SortKeepsEntries(WithDots(base), WithDots(base)[0]);
    }
    forall pre, name | pre in pres && name in names
      ensures pre + " " + name in LongestFirst(WithDots(base))
      ensures pre + " " + name + "." in LongestFirst(WithDots(base))
    {
      PrefixedInTable(base, pre, name);
    }
  }

  /** The alias table of the scanner has 1010 entries: 217 written out, 288 prefixed, all doubled. */
  lemma AliasTableSize()
    ensures |AliasTable()| == 1010
  {
    UnsortedSize();
    SortKeepsEntries(Unsorted(), Unsorted()[0]);
  }

  /**
   * The dot loop gives the two written-out entries that already end in a
   * period ("Jd." and "Heb.") a second one.
   */
  lemma AliasTableDoubleDots()
    ensures "Jd.." in AliasTable() && "Heb.." in AliasTable()
  {
    PeriodEntriesPresent();
    DoubleDotted(AddPrefixed(Books, PreStrings, PreStringed));
    SortKeepsEntries(Unsorted(), "Jd..");
    SortKeepsEntries(Unsorted(), "Heb..");
  }

}
