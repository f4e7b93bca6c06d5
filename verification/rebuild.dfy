/**
 * The second half of the book scanner (jstester.js): the recorded hits are
 * put in order of position and a new text is built from the MASKED text.
 * For each hit the characters between the cursor and the hit are copied, the
 * alias is written in place of its mask, and then up to 100 following
 * characters are copied until the next character is an ASCII letter; a space
 * ends each piece. Text after the last piece is dropped.
 */
module Rebuild {

  import opened Chars
  import opened Strings
  import opened Sorting
  import Scanner

  /** `t.charAt(i)`: the one character at `i`, or the empty string outside the text. */
  function CharAt(t: string, i: int): (r: string)
    ensures |r| <= 1
    ensures |r| == 1 <==> 0 <= i < |t|
    ensures 0 <= i < |t| ==> r == [t[i]]
  {
    if 0 <= i < |t| then [t[i]] else ""
  }

  /**
   * `charAt(i).match(/^[a-z]+$/)` or `/^[A-Z]+$/` succeeds: there is a
   * character at `i` and it is an ASCII letter. Outside the text `charAt`
   * gives the empty string, which neither pattern matches.
   */
  predicate LetterAt(t: string, i: int) {
    0 <= i < |t| && IsAsciiLetter(t[i])
  }

  /** The characters of `t` at positions `a` to `b - 1`, without those past its end. */
  function Clip(t: string, a: nat, b: nat): (r: string)
    requires a <= b
    ensures |r| <= b - a
    ensures b <= |t| ==> r == t[a..b]
    ensures a < |t| < b ==> r == t[a..]
    ensures a >= |t| ==> r == []
  {
    if a >= |t| then "" else if b > |t| then t[a..] else t[a..b]
  }

  lemma ClipExtend(t: string, a: nat, b: nat)
    requires a <= b
    ensures Clip(t, a, b + 1) == Clip(t, a, b) + CharAt(t, b)
  {
  }

  lemma ClipCons(t: string, a: nat, b: nat)
    requires a < b
    ensures Clip(t, a, b) == CharAt(t, a) + Clip(t, a + 1, b)
  {
  }

  /** Where the token loop stopped, and what it copied. */
  datatype Token = Token(text: string, end: nat)

  /** The number of rounds of the token loop. */
  const TokenRounds: nat := 100

  /**
   * The token loop with `n` rounds left and the cursor at `c`: each round
   * moves the cursor on by one, stops if the character now under it is a
   * letter, and otherwise copies the character just passed.
   */
  function TokenFrom(t: string, c: nat, n: nat): (r: Token)
    ensures c <= r.end <= c + n
    decreases n
  {
    if n == 0 then Token("", c)
    else if LetterAt(t, c + 1) then Token("", c + 1)
    else
      var rest := TokenFrom(t, c + 1, n - 1);
      Token(CharAt(t, c) + rest.text, rest.end)
  }

  /** The token after a name: the whole loop, from the cursor just past the name. */
  function TokenAfter(t: string, c: nat): Token {
    TokenFrom(t, c, TokenRounds)
  }

  /**
   * Where the copying ends for a loop from `c` that stopped at `e`: the
   * character just before a letter it stopped at is not copied.
   */
  function CopiedEnd(t: string, c: nat, e: nat): nat {
    if c < e && LetterAt(t, e) then e - 1 else e
  }

  /** The loop ends at the first letter after the cursor, or after its last round. */
  lemma {:induction false} TokenEnd(t: string, c: nat, n: nat)
    ensures var r := TokenFrom(t, c, n);
      && (n > 0 ==> c < r.end)
      && (forall k :: c < k < r.end ==> !LetterAt(t, k))
      && (r.end < c + n ==> LetterAt(t, r.end))
    decreases n
  {
    if n > 0 && !LetterAt(t, c + 1) {
      TokenEnd(t, c + 1, n - 1);
    }
  }

  /** What the loop copies: every character from the cursor up to where the copying ends. */
  lemma {:induction false} TokenText(t: string, c: nat, n: nat)
    ensures TokenFrom(t, c, n).text == Clip(t, c, CopiedEnd(t, c, TokenFrom(t, c, n).end))
    decreases n
  {
    if n > 0 && !LetterAt(t, c + 1) {
      var rest := TokenFrom(t, c + 1, n - 1);
      TokenText(t, c + 1, n - 1);
      var x := CopiedEnd(t, c + 1, rest.end);
      assert CopiedEnd(t, c, rest.end) == x;
      ClipCons(t, c, x);
    }
  }

  /**
   * The token stops at the first letter after the cursor, or after 100
   * rounds: it copies every character from the cursor up to, but not
   * including, the one before that letter.
   */
  lemma TokenStopsAtFirstLetter(t: string, c: nat)
    ensures var r := TokenAfter(t, c);
      && c < r.end <= c + 100
      && (forall k :: c < k < r.end ==> !LetterAt(t, k))
      && (r.end < c + 100 ==> LetterAt(t, r.end) && r.text == Clip(t, c, r.end - 1))
      && (!LetterAt(t, r.end) ==> r.end == c + 100 && r.text == Clip(t, c, c + 100))
      && |r.text| <= 100
  {
    TokenEnd(t, c, TokenRounds);
    TokenText(t, c, TokenRounds);
  }

  /**
   * Conversely, the loop is determined by where it stops: if no letter lies
   * strictly between the cursor `c` and `e`, and `e` holds a letter or is the
   * end of the last round, then the loop stops at `e`.
   */
  lemma TokenIs(t: string, c: nat, e: nat)
    requires c < e <= c + 100
    requires forall k :: c < k < e ==> !LetterAt(t, k)
    requires LetterAt(t, e) || e == c + 100
    ensures TokenAfter(t, c).end == e
    ensures TokenAfter(t, c).text == Clip(t, c, CopiedEnd(t, c, e))
  {
    TokenEnd(t, c, TokenRounds);
    TokenText(t, c, TokenRounds);
  }

  /**
   * A token never reaches into a later masked name: `X` is a letter, so the
   * loop stops at the first `X` after the cursor, and the characters it
   * copied all lie before the one just ahead of that `X`.
   */
  lemma TokenStopsBeforeMask(t: string, c: nat, k: nat)
    requires c < k < |t| && t[k] == 'X'
    ensures TokenAfter(t, c).end <= k
    ensures c + |TokenAfter(t, c).text| < k
  {
    TokenEnd(t, c, TokenRounds);
    TokenText(t, c, TokenRounds);
    assert LetterAt(t, k);
  }

  /** `booksAt.sort((a, b) => a[1] - b[1])`: the sort key. */
  function Position(h: Scanner.Hit): int {
    h.pos
  }

  /** The hits in order of position; hits at the same position keep their scan order. */
  function ByPosition(hits: seq<Scanner.Hit>): (r: seq<Scanner.Hit>)
    ensures SortedBy(r, Position)
    ensures multiset(r) == multiset(hits)
  {
    SortBy(hits, Position)
  }

  lemma ByPositionStable(hits: seq<Scanner.Hit>, pos: int)
    ensures WithKey(ByPosition(hits), Position, pos) == WithKey(hits, Position, pos)
  {
    SortByStable(hits, Position, pos);
  }

  /** The text built so far and the cursor into the masked text. */
  datatype Rebuilt = Rebuilt(out: string, cursor: nat)

  /**
   * One round of the outer loop for hit `h` with the cursor at `c`: copy up
   * to the hit (nothing if the cursor is already past it), write the alias,
   * skip as many characters as the alias has, copy the token, end with a space.
   */
  function Piece(t: string, c: nat, h: Scanner.Hit): (r: Rebuilt)
    ensures r.cursor > c
  {
    var gap := if c < h.pos then Clip(t, c, h.pos) else "";
    var skip := (if c < h.pos then h.pos else c) + |h.book|;
    var token := TokenAfter(t, skip);
    Rebuilt(gap + h.book + token.text + " ", token.end)
  }

  /** The state after the first `|hits|` rounds of the outer loop. */
  function RebuildAll(t: string, hits: seq<Scanner.Hit>): (r: Rebuilt)
    decreases |hits|
  {
    if hits == [] then Rebuilt("", 0)
    else
      var before := RebuildAll(t, hits[..|hits| - 1]);
      var p := Piece(t, before.cursor, hits[|hits| - 1]);
      Rebuilt(before.out + p.out, p.cursor)
  }

  /** `newText`: the pieces of all hits, in order of position. */
  function Rebuild(t: string, hits: seq<Scanner.Hit>): string {
    RebuildAll(t, ByPosition(hits)).out
  }

  /** No hits, no text: everything after the last piece is dropped. */
  lemma RebuildNoHits(t: string)
    ensures Rebuild(t, []) == ""
  {
  }

  /**
   * Each round only appends: the text built for a prefix of the hits is a
   * prefix of the text built for all of them, the cursor only moves forward,
   * and a non-empty result ends with the separating space.
   */
  lemma {:induction false} RebuildGrows(t: string, hits: seq<Scanner.Hit>, n: nat)
    requires n <= |hits|
    ensures var a, b := RebuildAll(t, hits[..n]), RebuildAll(t, hits);
      && a.out <= b.out
      && a.cursor <= b.cursor
      && (n < |hits| ==> a.cursor < b.cursor)
    ensures hits != [] ==> RebuildAll(t, hits).out[|RebuildAll(t, hits).out| - 1] == ' '
    decreases |hits|
  {
    if hits != [] {
      var m := |hits| - 1;
      assert hits[..m] == hits[..m][..m];
      if n <= m {
        assert hits[..m][..n] == hits[..n];
        RebuildGrows(t, hits[..m], n);
      } else {
        assert hits[..n] == hits;
      }
    }
  }

  /**
   * A single hit in a text whose name was masked at the hit (the corrected
   * masking): the piece gives back the original text up to the end of the
   * name, followed by the token read after it.
   */
  lemma OneHitRestoresName(original: string, book: string, pos: nat)
    requires OccursAt(original, book, pos)
    ensures var masked := Scanner.Mask(Scanner.AtHit, original, book, pos);
      Rebuild(masked, [Scanner.Hit(book, pos)])
        == original[..pos + |book|] + TokenAfter(masked, pos + |book|).text + " "
  {
    var masked := Scanner.Mask(Scanner.AtHit, original, book, pos);
    Scanner.MaskAtHitIsSplice(original, book, pos);
    assert masked[..pos] == original[..pos];
    OneHitKeepsPrefix(masked, original, book, pos);
  }

  /** A single hit in a text that agrees with `original` before the hit. */
  lemma OneHitKeepsPrefix(t: string, original: string, book: string, pos: nat)
    requires OccursAt(original, book, pos)
    requires pos <= |t| && t[..pos] == original[..pos]
    ensures Rebuild(t, [Scanner.Hit(book, pos)])
      == original[..pos + |book|] + TokenAfter(t, pos + |book|).text + " "
  {
    var token := TokenAfter(t, pos + |book|).text;
    calc {
      Rebuild(t, [Scanner.Hit(book, pos)]);
      { RebuildOne(t, Scanner.Hit(book, pos)); }
      Clip(t, 0, pos) + book + token + " ";
      original[..pos] + book + token + " ";
      { assert original[..pos] + book == original[..pos + |book|]; }
      original[..pos + |book|] + token + " ";
    }
  }

  /** A single hit: the rebuilt text is its piece from the start of the text. */
  lemma RebuildOne(t: string, h: Scanner.Hit)
    ensures Rebuild(t, [h]) == Clip(t, 0, h.pos) + h.book + TokenAfter(t, h.pos + |h.book|).text + " "
  {
    ByPositionOne(h);
    RebuildAllOne(t, h);
    PieceFromStart(t, h);
  }

  lemma RebuildAllOne(t: string, h: Scanner.Hit)
    ensures RebuildAll(t, [h]).out == Piece(t, 0, h).out
  {
    assert [h][..|[h]| - 1] == [];
    assert "" + Piece(t, 0, h).out == Piece(t, 0, h).out;
  }

  lemma PieceFromStart(t: string, h: Scanner.Hit)
    ensures Piece(t, 0, h).out == Clip(t, 0, h.pos) + h.book + TokenAfter(t, h.pos + |h.book|).text + " "
  {
    if h.pos == 0 {
      assert Clip(t, 0, h.pos) == "";
    }
  }

  lemma ByPositionOne(h: Scanner.Hit)
    ensures ByPosition([h]) == [h]
  {
    assert multiset(ByPosition([h])) == multiset{h};
    assert h in multiset(ByPosition([h]));
  }

  /**
   * The first inner loop: copy the characters from the cursor up to the start
   * of the hit; nothing when the cursor is already at or past it.
   */
  method CopyUpTo(t: string, cursor0: nat, pos: nat) returns (copied: string, cursor: nat)
    ensures cursor == (if cursor0 < pos then pos else cursor0)
    ensures copied == (if cursor0 < pos then Clip(t, cursor0, pos) else "")
  {
    copied, cursor := "", cursor0;
    while cursor < pos
      invariant cursor0 <= cursor
      invariant cursor0 < pos ==> cursor <= pos
      invariant pos <= cursor0 ==> cursor == cursor0
      invariant copied == Clip(t, cursor0, cursor)
    {
      ClipExtend(t, cursor0, cursor);
      copied := copied + CharAt(t, cursor);
      cursor := cursor + 1;
    }
  }

  /**
   * The second inner loop: at most 100 rounds. It stops at the first letter
   * after the cursor, or after its last round, and copies every character
   * it passed except the one just before that letter.
   */
  method CopyUntilLetter(t: string, cursor0: nat) returns (copied: string, cursor: nat)
    ensures cursor0 < cursor <= cursor0 + 100
    ensures forall k :: cursor0 < k < cursor ==> !LetterAt(t, k)
    ensures LetterAt(t, cursor) || cursor == cursor0 + 100
    ensures copied == Clip(t, cursor0, CopiedEnd(t, cursor0, cursor))
  {
    copied, cursor := "", cursor0;
    var i := 0;
    while i < 100
      invariant 0 <= i <= 100 && cursor == cursor0 + i
      invariant copied == Clip(t, cursor0, cursor)
      invariant forall k :: cursor0 < k <= cursor ==> !LetterAt(t, k)
      decreases 100 - i
    {
      cursor := cursor + 1;
      if LetterAt(t, cursor) {
        assert CopiedEnd(t, cursor0, cursor) == cursor - 1;
        return;
      }
      ClipExtend(t, cursor0, cursor - 1);
      copied := copied + CharAt(t, cursor - 1);
      i := i + 1;
    }
    assert CopiedEnd(t, cursor0, cursor) == cursor;
  }

  /** The token loop as a method: its result is the token `TokenAfter` defines. */
  method CopyToken(t: string, cursor0: nat) returns (copied: string, cursor: nat)
    ensures Token(copied, cursor) == TokenAfter(t, cursor0)
  {
    copied, cursor := CopyUntilLetter(t, cursor0);
    TokenIs(t, cursor0, cursor);
  }

  /** One round of the outer loop: the piece `Piece` defines for hit `h`. */
  method CopyPiece(t: string, cursor0: nat, h: Scanner.Hit) returns (piece: string, cursor: nat)
    ensures Rebuilt(piece, cursor) == Piece(t, cursor0, h)
  {
    var gap, token: string;
    gap, cursor := CopyUpTo(t, cursor0, h.pos);
    cursor := cursor + |h.book|;
    token, cursor := CopyToken(t, cursor);
    piece := gap + h.book + token + " ";
  }

  /** The outer loop's state after one more hit. */
  lemma RebuildAllStep(t: string, hits: seq<Scanner.Hit>, b: nat)
    requires b < |hits|
    ensures var before := RebuildAll(t, hits[..b]);
      var p := Piece(t, before.cursor, hits[b]);
      RebuildAll(t, hits[..b + 1]) == Rebuilt(before.out + p.out, p.cursor)
  {
    assert hits[..b + 1][..b] == hits[..b];
  }

  /**
   * The outer loop of the rebuild over the hits in order of position. The
   * result is the text `Rebuild` defines.
   */
  method Reconstruct(t: string, booksAt: seq<Scanner.Hit>) returns (newText: string)
    ensures newText == Rebuild(t, booksAt)
  {
    var hits := ByPosition(booksAt);
    newText := "";
    var cursor: nat := 0;
    var b := 0;
    while b < |hits|
      invariant 0 <= b <= |hits|
      invariant Rebuilt(newText, cursor) == RebuildAll(t, hits[..b])
    {
      RebuildAllStep(t, hits, b);
      var piece;
      piece, cursor := CopyPiece(t, cursor, hits[b]);
      newText := newText + piece;
      b := b + 1;
    }
    assert hits[..|hits|] == hits;
  }
}
