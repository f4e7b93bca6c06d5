/**
 * The record builder of `CodexParser.parse` (src/CodexParser.js). The regular
 * expression that finds the scripture references in a text is not modelled:
 * the scan is a parameter that gives, for each match, the matched text and the
 * parts the book, chapter and verse patterns pick out of it, or nothing when
 * the text holds no match (`text.match` yields `null`). From each match a
 * passage record is built: the book capitalised, the chapter without its
 * first colon and trimmed, the verses split on commas with empty pieces
 * dropped, and the testament found by exact membership in the list of Old
 * Testament names.
 */
module Parser {

  import opened Options
  import opened Chars
  import opened Strings
  import opened Testaments

  datatype Testament = Old | New

  /**
   * One match of the scripture pattern: the matched text, and the first
   * matches of the book pattern, of the chapter pattern (in the text with the
   * book removed) and of the verse pattern inside it.
   */
  datatype RawMatch = RawMatch(original: string, book: string, chapter: string, verse: string)

  /** The record `parse` builds for one match. */
  datatype Passage = Passage(original: string, book: string, chapter: string, verse: seq<string>, testament: Testament)

  /**
   * The parser object's two fields: `found`, the matches of the last scan
   * (`null` when the scan found none), and `passages`, the records of the
   * last call of `parse` that got past its guard.
   */
  datatype ParserState = ParserState(found: Option<seq<RawMatch>>, passages: seq<Passage>)

  /** What a call of `parse` gives back: `null`, the records, or a thrown `TypeError`. */
  datatype Outcome = Null | Passages(records: seq<Passage>) | TypeError

  datatype ParseResult = ParseResult(outcome: Outcome, state: ParserState)

  /** `s.charAt(0).toUpperCase() + s.slice(1)`: the first character upper-cased (ASCII only). */
  function Capitalize(s: string): (r: string)
    ensures |r| == |s|
    ensures s != [] ==> r[0] == ToUpper(s[0]) && r[1..] == s[1..]
  {
    if s == [] then [] else [ToUpper(s[0])] + s[1..]
  }

  /** `s.replace(":", "")`: the first colon removed, if there is one. */
  function StripColon(s: string): string {
    ReplaceFirst(s, ":", "")
  }

  /** Removing the first colon: the text before it and the text after it, joined. */
  lemma StripColonRemovesFirst(s: string)
    ensures ':' !in s ==> StripColon(s) == s
    ensures ':' in s ==> StripColon(s) == s[..FirstIndex(s, ':')] + s[FirstIndex(s, ':') + 1..]
  {
    IndexOfFirst(s, ":", 0);
    var r := IndexOf(s, ":", 0);
    if ':' in s {
      var f := FirstIndex(s, ':');
      CharOccursAt(s, ':', f);
      IndexOfReaches(s, ":", 0, f);
      CharOccursAt(s, ':', r);
      forall i | 0 <= i < r
        ensures s[..r][i] != ':'
      {
        CharOccursAt(s, ':', i);
      }
      FirstIndexAt(s, ':', r);
    } else {
      forall i | 0 <= i
        ensures !OccursAt(s, ":", i)
      {
        CharOccursAt(s, ':', i);
        if i < |s| {
          assert s[i] in s;
        }
      }
    }
  }

  /** A one-character pattern occurs exactly where that character is. */
  lemma CharOccursAt(s: string, c: char, i: int)
    ensures OccursAt(s, [c], i) <==> 0 <= i < |s| && s[i] == c
  {
    if 0 <= i < |s| {
      assert s[i..i + 1] == [s[i]];
    }
  }


  /** `chapter[0].replace(":", "").trim()`. */
  function ChapterText(chapter: string): (r: string)
    ensures |r| <= |chapter|
    ensures r == [] || (!IsJsWhitespace(r[0]) && !IsJsWhitespace(r[|r| - 1]))
  {
    Trim(StripColon(chapter))
  }

  /** `verse.replace(":", "").trim().split(/,/).filter(Boolean)`. */
  function VerseList(verse: string): (r: seq<string>)
    ensures forall i :: 0 <= i < |r| ==> r[i] != [] && ',' !in r[i]
  {
    var parts := Split(Trim(StripColon(verse)), ',');
    var r := DropEmpty(parts);
    forall i | 0 <= i < |r|
      ensures ',' !in r[i]
    {
      assert r[i] in parts;
    }
    r
  }

  /** No verse piece is lost but the commas: the pieces put together are the trimmed text without commas. */
  lemma VerseListKeepsText(verse: string)
    ensures Concat(VerseList(verse)) == Remove(Trim(StripColon(verse)), ',')
  {
    SplitDropEmptyKeepsText(Trim(StripColon(verse)), ',');
  }

  /**
   * The verse list is read off the comma-separated pieces in order: whatever
   * comma-free pieces join with commas to the trimmed, colon-stripped text,
   * the list is those pieces with the empty ones left out.
   */
  lemma VerseListPieces(verse: string, parts: seq<string>)
    requires |parts| >= 1 && Join(parts, ',') == Trim(StripColon(verse))
    requires forall i :: 0 <= i < |parts| ==> ',' !in parts[i]
    ensures VerseList(verse) == DropEmpty(parts)
  {
    SplitUnique(Trim(StripColon(verse)), ',', parts);
  }

  /** The verse text `:16,,20`, whose pieces are `16`, an empty one and `20`, gives the verses `16` and `20`, in that order. */
  lemma VerseListExample(verse: string, parts: seq<string>)
    requires verse == ":16,,20" && parts == ["16", "", "20"]
    ensures VerseList(verse) == ["16", "20"]
  {
    ExampleVerseText(verse);
    ExampleVerseJoin(parts);
    VerseListPieces(verse, parts);
    ExampleVerseDrop(parts);
  }

  lemma ExampleVerseText(verse: string)
    requires verse == ":16,,20"
    ensures Trim(StripColon(verse)) == "16,,20"
  {
    StripColonRemovesFirst(verse);
    FirstIndexAt(verse, ':', 0);
    TrimKeeps("16,,20");
  }

  lemma ExampleVerseJoin(parts: seq<string>)
    requires parts == ["16", "", "20"]
    ensures Join(parts, ',') == "16,,20"
    ensures forall i :: 0 <= i < |parts| ==> ',' !in parts[i]
  {
    assert parts[1..] == ["", "20"] && parts[1..][1..] == ["20"];
    assert Join(["20"], ',') == "20";
    assert Join(["", "20"], ',') == "" + "," + "20";
    assert "16" + "," + ("" + "," + "20") == "16,,20";
  }

  lemma ExampleVerseDrop(parts: seq<string>)
    requires parts == ["16", "", "20"]
    ensures DropEmpty(parts) == ["16", "20"]
  {
    assert parts == ["16"] + [""] + ["20"];
    DropEmptyAppend(["16"] + [""], ["20"]);
    DropEmptyAppend(["16"], [""]);
    DropEmptyOne("16");
    DropEmptyOne("");
    DropEmptyOne("20");
  }

  /** `bible.old.includes(book) ? "old" : "new"`. */
  function TestamentOf(book: string): Testament {
    if book in OldBooks then Old else New
  }

  /** The record for one match. */
  function BuildPassage(m: RawMatch): (r: Passage)
    ensures r.original == m.original
    ensures r.book == Capitalize(m.book)
    ensures r.testament == Old <==> Capitalize(m.book) in OldBooks
  {
    Passage(m.original, Capitalize(m.book), ChapterText(m.chapter), VerseList(m.verse), TestamentOf(Capitalize(m.book)))
  }

  /** The loop of `parse`: one record pushed per match. */
  function Records(ms: seq<RawMatch>): seq<Passage>
    decreases |ms|
  {
    if ms == [] then [] else Records(ms[..|ms| - 1]) + [BuildPassage(ms[|ms| - 1])]
  }

  /** Exactly one record per match, in match order. */
  lemma {:induction false} RecordsPerMatch(ms: seq<RawMatch>)
    ensures |Records(ms)| == |ms|
    ensures forall i :: 0 <= i < |ms| ==> Records(ms)[i] == BuildPassage(ms[i])
    decreases |ms|
  {
    if ms != [] {
      var init := ms[..|ms| - 1];
      RecordsPerMatch(init);
      forall i | 0 <= i < |ms|
        ensures Records(ms)[i] == BuildPassage(ms[i])
      {
        if i < |ms| - 1 {
          assert init[i] == ms[i];
        }
      }
    }
  }

  /**
   * `parse(reference)` with `scan` standing for the regular-expression scan.
   * An empty reference gives `null` and leaves the state alone. Otherwise the
   * records are cleared first; a scan with no match leaves `found` as `null`,
   * and reading its length throws. Else every match gets its record and
   * `found` is emptied.
   */
  function Parse(st: ParserState, reference: string, scan: string -> Option<seq<RawMatch>>): (r: ParseResult)
    ensures reference == [] <==> r.outcome == Null
    ensures reference == [] ==> r.state == st
    ensures reference != [] ==> (r.outcome == TypeError <==> scan(reference) == None)
    ensures r.outcome == TypeError ==> r.state == ParserState(None, [])
    ensures r.outcome.Passages? ==> r.state == ParserState(Some([]), r.outcome.records)
  {
    if reference == [] then ParseResult(Null, st)
    else
      var cleared := ParserState(scan(reference), []);
      match cleared.found
      case None => ParseResult(TypeError, cleared)
      case Some(ms) =>
        var passages := Records(ms);
        ParseResult(Passages(passages), ParserState(Some([]), passages))
  }

  /** `getPassages()`. */
  function GetPassages(st: ParserState): seq<Passage> {
    st.passages
  }

  /**
   * After a call of `parse` that did not throw on a non-empty reference,
   * `getPassages` returns one record per match of the scan, in match order.
   */
  lemma ParseThenGet(st: ParserState, reference: string, scan: string -> Option<seq<RawMatch>>)
    requires reference != [] && scan(reference).Some?
    ensures var ms := scan(reference).value;
      var ps := GetPassages(Parse(st, reference, scan).state);
      && Parse(st, reference, scan).outcome == Passages(ps)
      && |ps| == |ms|
      && forall i :: 0 <= i < |ms| ==> ps[i] == BuildPassage(ms[i])
  {
    RecordsPerMatch(scan(reference).value);
  }

  /** An empty reference keeps the records of the previous call for `getPassages`. */
  lemma EmptyReferenceKeepsPassages(st: ParserState, scan: string -> Option<seq<RawMatch>>)
    ensures GetPassages(Parse(st, "", scan).state) == GetPassages(st)
  {
  }

  /**
   * `parse` as its documentation describes it: `null` when there is no
   * match. The records are cleared as before, but nothing throws.
   */
  function ParseCorrected(st: ParserState, reference: string, scan: string -> Option<seq<RawMatch>>): (r: ParseResult)
    ensures r.outcome != TypeError
    ensures r.outcome == Null <==> reference == [] || scan(reference) == None
  {
    if reference == [] then ParseResult(Null, st)
    else
      match scan(reference)
      case None => ParseResult(Null, ParserState(None, []))
      case Some(ms) =>
        var passages := Records(ms);
        ParseResult(Passages(passages), ParserState(Some([]), passages))
  }

  /** The corrected parse agrees with `Parse` on every call that does not throw. */
  lemma ParseCorrectedAgrees(st: ParserState, reference: string, scan: string -> Option<seq<RawMatch>>)
    ensures Parse(st, reference, scan).outcome != TypeError ==>
      ParseCorrected(st, reference, scan) == Parse(st, reference, scan)
    ensures Parse(st, reference, scan).outcome == TypeError ==>
      ParseCorrected(st, reference, scan) == ParseResult(Null, Parse(st, reference, scan).state)
  {
  }

  /** A scan that finds nothing in any text. */
  function NoMatch(text: string): Option<seq<RawMatch>> {
    None
  }

  /** A text without any reference makes `parse` throw instead of returning `null`. */
  lemma NoReferenceThrows(st: ParserState)
    ensures Parse(st, "Hello", NoMatch).outcome == TypeError
    ensures ParseCorrected(st, "Hello", NoMatch).outcome == Null
  {
  }

  /** A New Testament name is labelled "new", an Old Testament name "old". */
  lemma TestamentOfListed(book: string)
    ensures book in OldBooks ==> TestamentOf(book) == Old
    ensures book in NewBooks ==> TestamentOf(book) == New
  {
    CanonLists();
  }

  /** Membership is exact: an abbreviation is not in the Old Testament list, so it is labelled "new". */
  lemma AbbreviationIsNew(m: RawMatch)
    requires m.book == "Gen"
    ensures BuildPassage(m).testament == New
  {
    assert Capitalize(m.book) == "Gen";
    AbbreviationNotListed();
  }

  /** Capitalisation fixes only the first letter: "song of solomon" is labelled "new". */
  lemma LowerCaseNameIsNew(m: RawMatch)
    requires m.book == "song of solomon"
    ensures BuildPassage(m).testament == New
  {
    assert Capitalize(m.book) == "Song of solomon";
    LowerCaseNotListed();
  }

  /** A lower-case name whose only capital is the first letter is found: "genesis" is "old". */
  lemma CapitalizedNameIsOld(m: RawMatch)
    requires m.book == "genesis"
    ensures BuildPassage(m).testament == Old
  {
    assert Capitalize(m.book) == "Genesis";
  }

}
