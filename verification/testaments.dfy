/**
 * The two canon lists of the parser object (src/CodexParser.js): the 39
 * names of the Old Testament and the 27 names of the New Testament, each
 * spelt out in full with an Arabic numeral for numbered books. The lists are
 * written here as the concatenation of the traditional groups of books, in
 * the order of the source.
 */
module Testaments {

  const Law: seq<string> := ["Genesis", "Exodus", "Leviticus", "Numbers", "Deuteronomy"]

  const History: seq<string> := [
      "Joshua", "Judges", "Ruth", "1 Samuel", "2 Samuel", "1 Kings", "2 Kings",
      "1 Chronicles", "2 Chronicles", "Ezra", "Nehemiah", "Esther"
  ]

  const Wisdom: seq<string> := ["Job", "Psalms", "Proverbs", "Ecclesiastes", "Song of Solomon"]

  const MajorProphets: seq<string> := ["Isaiah", "Jeremiah", "Lamentations", "Ezekiel", "Daniel"]

  const MinorProphets: seq<string> := [
      "Hosea", "Joel", "Amos", "Obadiah", "Jonah", "Micah", "Nahum", "Habakkuk",
      "Zephaniah", "Haggai", "Zechariah", "Malachi"
  ]

  /** `bible.old`. */
  const OldBooks: seq<string> := Law + History + Wisdom + MajorProphets + MinorProphets

  const Gospels: seq<string> := ["Matthew", "Mark", "Luke", "John"]

  const PaulineLetters: seq<string> := [
      "Romans", "1 Corinthians", "2 Corinthians", "Galatians", "Ephesians",
      "Philippians", "Colossians", "1 Thessalonians", "2 Thessalonians",
      "1 Timothy", "2 Timothy", "Titus", "Philemon"
  ]

  const GeneralLetters: seq<string> := ["Hebrews", "James", "1 Peter", "2 Peter", "1 John", "2 John", "3 John", "Jude"]

  /** `bible.new`. */
  const NewBooks: seq<string> := Gospels + ["Acts"] + PaulineLetters + GeneralLetters + ["Revelation"]

  /** Both canon lists as written: 39 and 27 names, no name in both. */
  lemma CanonLists()
    ensures |OldBooks| == 39 && |NewBooks| == 27
    ensures forall b :: b in NewBooks ==> b !in OldBooks
  {
    NotInLaw();
    NotInHistory();
    NotInWisdom();
    NotInMajorProphets();
    NotInMinorProphets();
  }

  /** The disjointness of the lists, one group of the Old Testament at a time. */
  lemma NotInLaw()
    ensures forall b :: b in NewBooks ==> b !in Law
  {
  }

  lemma NotInHistory()
    ensures forall b :: b in NewBooks ==> b !in History
  {
    LettersNotInHistory();
  }

  lemma LettersNotInHistory()
    ensures forall b :: b in PaulineLetters ==> b !in History
  {
  }

  lemma NotInWisdom()
    ensures forall b :: b in NewBooks ==> b !in Wisdom
  {
  }

  lemma NotInMajorProphets()
    ensures forall b :: b in NewBooks ==> b !in MajorProphets
  {
  }

  lemma NotInMinorProphets()
    ensures forall b :: b in NewBooks ==> b !in MinorProphets
  {
    LettersNotInMinorProphets();
  }

  lemma LettersNotInMinorProphets()
    ensures forall b :: b in PaulineLetters ==> b !in MinorProphets
  {
  }

  /** An abbreviation is not a listed name. */
  lemma AbbreviationNotListed()
    ensures "Gen" !in OldBooks
  {
  }

  /** Membership compares every character: a name with a lower-case word is not listed. */
  lemma LowerCaseNotListed()
    ensures "Song of solomon" !in OldBooks
  {
  }

}
