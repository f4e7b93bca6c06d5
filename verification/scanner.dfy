/**
 * The find-and-mask pass of the book scanner (jstester.js). Every alias of the
 * table, longest first, is searched for with `indexOf`; a hit is accepted when
 * the character after it exists and is not a lower-case letter; an accepted
 * hit is recorded and overwritten with `X`s of the same length, so that a
 * shorter alias cannot match inside it again.
 *
 * The source overwrites with `text.replace(book, replacement)`, which rewrites
 * the FIRST occurrence of the alias in the text, not necessarily the one just
 * accepted. `Masking` selects that behaviour (`FirstOccurrence`) or the
 * evidently intended one (`AtHit`, overwrite the accepted occurrence).
 */
module Scanner {

  import opened Chars
  import opened Strings

  /** One `booksAt` entry: the alias that matched and where. */
  datatype Hit = Hit(book: string, pos: nat)

  datatype Masking = FirstOccurrence | AtHit

  /** The text as masked so far and the hits recorded so far. */
  datatype ScanState = ScanState(text: string, hits: seq<Hit>)

  /** The acceptance test of a match at `j`: a following character exists and is not in `[a-z]`. */
  predicate Accepts(t: string, book: string, j: nat) {
    j + |book| < |t| && !IsLower(t[j + |book|])
  }

  lemma ReplaceFirstChar(r: string, c: char)
    ensures |ReplaceFirst(r, [c], "X")| == |r|
    ensures c in r ==> multiset(ReplaceFirst(r, [c], "X")) == multiset(r) - multiset{c} + multiset{'X'}
    ensures c !in r ==> ReplaceFirst(r, [c], "X") == r
  {
    var k := IndexOf(r, [c], 0);
    IndexOfFirst(r, [c], 0);
    if k == -1 {
      if c in r {
        var i :| 0 <= i < |r| && r[i] == c;
        assert r[i..i + 1] == [c];
        assert OccursAt(r, [c], i);
      }
    } else {
      assert r[k..k + 1] == [c];
      assert r == r[..k] + [c] + r[k + 1..];
    }
  }

  /** Every character other than `X` occurs as often in `r` as in `s`. */
  ghost predicate SameExceptX(r: string, s: string) {
    forall c :: c != 'X' ==> multiset(r)[c] == multiset(s)[c]
  }

  /** One round of the replacement loop: the first character still pending is written over. */
  lemma ReplacementStep(r: string, rest: string)
    requires rest != [] && SameExceptX(r, rest)
    ensures |ReplaceFirst(r, [rest[0]], "X")| == |r|
    ensures SameExceptX(ReplaceFirst(r, [rest[0]], "X"), rest[1..])
  {
    ReplaceFirstChar(r, rest[0]);
    assert rest == [rest[0]] + rest[1..];
    if rest[0] != 'X' {
      assert rest[0] in multiset(rest);
    }
  }

  /** A string holding no character other than `X` is all `X`s. */
  lemma OnlyXs(r: string)
    requires SameExceptX(r, [])
    ensures forall i :: 0 <= i < |r| ==> r[i] == 'X'
  {
    forall i | 0 <= i < |r|
      ensures r[i] == 'X'
    {
      assert r[i] in multiset(r);
    }
  }

  /**
   * The replacement string of an accepted alias: starting from the alias, the
   * first occurrence of each of its characters in turn is replaced by `X`.
   * Whatever characters the alias repeats, the result is all `X`s of the
   * alias's length.
   */
  method MaskReplacement(book: string) returns (replacement: string)
    ensures |replacement| == |book|
    ensures forall i :: 0 <= i < |replacement| ==> replacement[i] == 'X'
  {
    replacement := book;
    var k := 0;
    while k < |book|
      invariant 0 <= k <= |book|
      invariant |replacement| == |book|
      invariant SameExceptX(replacement, book[k..])
    {
      ReplacementStep(replacement, book[k..]);
      assert book[k..][1..] == book[k + 1..];
      replacement := ReplaceFirst(replacement, [book[k]], "X");
      k := k + 1;
    }
    OnlyXs(replacement);
  }

  /** `t` with the `n` characters from index `k` on overwritten by `X`. */
  function Overwrite(t: string, k: int, n: nat): (r: string)
    ensures |r| == |t|
    decreases |t|
  {
    if t == [] then [] else [if k <= 0 < k + n then 'X' else t[0]] + Overwrite(t[1..], k - 1, n)
  }

  lemma {:induction false} OverwriteAt(t: string, k: int, n: nat)
    ensures forall i :: 0 <= i < |t| ==> Overwrite(t, k, n)[i] == if k <= i < k + n then 'X' else t[i]
    decreases |t|
  {
    if t != [] {
      OverwriteAt(t[1..], k - 1, n);
    }
  }

  /** Overwriting a span that lies inside the text is splicing `n` `X`s into it. */
  lemma OverwriteIsSplice(t: string, k: nat, n: nat)
    requires k + n <= |t|
    ensures Overwrite(t, k, n) == t[..k] + Xs(n) + t[k + n..]
  {
    OverwriteAt(t, k, n);
  }

  /**
   * The text after masking an accepted occurrence of `book` at `j`: as
   * written, the first occurrence of `book` in the text is overwritten; in the
   * corrected form, the occurrence at `j`.
   */
  function Mask(mode: Masking, t: string, book: string, j: nat): (r: string)
    ensures |r| == |t|
  {
    match mode
    case FirstOccurrence =>
      var k := IndexOf(t, book, 0);
      if k == -1 then t else Overwrite(t, k, |book|)
    case AtHit => Overwrite(t, j, |book|)
  }

  /**
   * As written, masking is the source's `text.replace(book, replacement)` with
   * a replacement of `X`s as long as the alias.
   */
  lemma MaskFirstIsReplace(t: string, book: string, j: nat)
    requires OccursAt(t, book, j)
    ensures Mask(FirstOccurrence, t, book, j) == ReplaceFirst(t, book, Xs(|book|))
  {
    var k := IndexOf(t, book, 0);
    IndexOfReaches(t, book, 0, j);
    OverwriteIsSplice(t, k, |book|);
  }

  /** The corrected masking splices the `X`s in at the accepted position. */
  lemma MaskAtHitIsSplice(t: string, book: string, j: nat)
    requires j + |book| <= |t|
    ensures Mask(AtHit, t, book, j) == t[..j] + Xs(|book|) + t[j + |book|..]
  {
    assert Mask(AtHit, t, book, j) == Overwrite(t, j, |book|);
    OverwriteIsSplice(t, j, |book|);
  }

  /**
   * Masking writes only `X`s and keeps the length. As written, the span
   * overwritten is the first occurrence of `book` in the text, which may lie
   * before the accepted position `j`; in the corrected form it is the span at `j`.
   */
  lemma MaskWrites(mode: Masking, t: string, book: string, j: nat)
    requires OccursAt(t, book, j)
    ensures forall i :: 0 <= i < |t| ==> Mask(mode, t, book, j)[i] == t[i] || Mask(mode, t, book, j)[i] == 'X'
    ensures mode == AtHit ==>
      forall i :: 0 <= i < |t| ==> Mask(mode, t, book, j)[i] == (if j <= i < j + |book| then 'X' else t[i])
    ensures mode == FirstOccurrence ==>
      var k := IndexOf(t, book, 0);
      0 <= k <= j && forall i :: 0 <= i < |t| ==> Mask(mode, t, book, j)[i] == (if k <= i < k + |book| then 'X' else t[i])
  {
    var k := IndexOf(t, book, 0);
    IndexOfFirst(t, book, 0);
    assert k != -1;
    OverwriteAt(t, k, |book|);
    OverwriteAt(t, j, |book|);
  }

  /** The state after accepting the occurrence of `book` at `j`. */
  function Accept(mode: Masking, st: ScanState, book: string, j: nat): ScanState
  {
    ScanState(Mask(mode, st.text, book, j), st.hits + [Hit(book, j)])
  }

  /**
   * The inner `while` loop for one alias, from search position `cursor`: it
   * stops at the end of the text, and otherwise goes on with what `indexOf`
   * finds from the cursor.
   */
  function ScanAlias(mode: Masking, st: ScanState, book: string, cursor: nat): (r: ScanState)
    ensures |r.text| == |st.text|
    decreases |st.text| - cursor, 1
  {
    if cursor >= |st.text| then st else Found(mode, st, book, cursor, IndexOf(st.text, book, cursor))
  }

  /**
   * One round of the inner loop for the search result `j`: no match ends the
   * loop; a match is examined and the search resumes one past its end, so the
   * cursor strictly increases.
   */
  function Found(mode: Masking, st: ScanState, book: string, cursor: nat, j: int): (r: ScanState)
    requires cursor < |st.text| && (j < 0 || cursor <= j)
    ensures |r.text| == |st.text|
    decreases |st.text| - cursor, 0
  {
    if j < 0 then st else ScanAlias(mode, Examine(mode, st, book, j), book, j + |book| + 1)
  }

  /** The outer `for` loop: every alias in table order. */
  function FindAll(mode: Masking, st: ScanState, aliases: seq<string>): (r: ScanState)
    decreases |aliases|
  {
    if aliases == [] then st else FindAll(mode, ScanAlias(mode, st, aliases[0], 0), aliases[1..])
  }

  /** The find-and-mask pass over the whole text. */
  function Scan(mode: Masking, text: string, aliases: seq<string>): ScanState {
    FindAll(mode, ScanState(text, []), aliases)
  }

  /** `t` is `text` with some characters overwritten by `X`. */
  ghost predicate MaskedFrom(text: string, t: string) {
    |t| == |text| && forall i :: 0 <= i < |t| ==> t[i] == text[i] || t[i] == 'X'
  }

  /**
   * A recorded hit is a table alias; a character follows it and is not a
   * lower-case letter; and the alias agrees with the ORIGINAL text at the
   * recorded position except where the alias itself has an `X`.
   */
  ghost predicate HitSound(text: string, t: string, h: Hit, aliases: seq<string>) {
    && h.book in aliases
    && h.pos + |h.book| < |t| && |t| == |text|
    && !IsLower(t[h.pos + |h.book|])
    && forall i :: 0 <= i < |h.book| ==> h.book[i] == text[h.pos + i] || h.book[i] == 'X'
  }

  ghost predicate Sound(text: string, st: ScanState, aliases: seq<string>) {
    && MaskedFrom(text, st.text)
    && forall n :: 0 <= n < |st.hits| ==> HitSound(text, st.text, st.hits[n], aliases)
  }

  /** The span of `h` in `t` is all `X`s. */
  ghost predicate SpanMasked(t: string, h: Hit) {
    h.pos + |h.book| <= |t| && forall i :: h.pos <= i < h.pos + |h.book| ==> t[i] == 'X'
  }

  ghost predicate Covered(hits: seq<Hit>, i: int) {
    exists n :: 0 <= n < |hits| && hits[n].pos <= i < hits[n].pos + |hits[n].book|
  }

  /** Every recorded hit is masked, and nothing outside the recorded hits is. */
  ghost predicate MasksExactlyHits(text: string, st: ScanState) {
    && |st.text| == |text|
    && (forall n :: 0 <= n < |st.hits| ==> SpanMasked(st.text, st.hits[n]))
    && (forall i :: 0 <= i < |text| && st.text[i] != text[i] ==> Covered(st.hits, i))
  }

  /** No alias of the table is empty or contains an `X`. */
  predicate Plain(aliases: seq<string>) {
    forall a :: a in aliases ==> a != [] && 'X' !in a
  }

  ghost predicate Apart(a: Hit, b: Hit) {
    a.pos + |a.book| <= b.pos || b.pos + |b.book| <= a.pos
  }

  ghost predicate Disjoint(hits: seq<Hit>) {
    forall m, n :: 0 <= m < n < |hits| ==> Apart(hits[m], hits[n])
  }

  /** Overwriting with `X`s keeps a hit sound: `X` is not a lower-case letter. */
  lemma HitStaysSound(text: string, t: string, t': string, h: Hit, aliases: seq<string>)
    requires HitSound(text, t, h, aliases)
    requires |t'| == |t| && forall i :: 0 <= i < |t| ==> t'[i] == t[i] || t'[i] == 'X'
    ensures HitSound(text, t', h, aliases)
  {
    var i := h.pos + |h.book|;
    assert t'[i] == t[i] || t'[i] == 'X';
  }

  lemma MaskStaysMaskedFrom(mode: Masking, text: string, t: string, book: string, j: nat)
    requires MaskedFrom(text, t) && OccursAt(t, book, j)
    ensures MaskedFrom(text, Mask(mode, t, book, j))
  {
    MaskWrites(mode, t, book, j);
  }

  /** An accepted occurrence in a masked text is a sound hit of the masked result. */
  lemma AcceptedHitSound(mode: Masking, text: string, t: string, book: string, j: nat, aliases: seq<string>)
    requires MaskedFrom(text, t) && book in aliases
    requires OccursAt(t, book, j) && Accepts(t, book, j)
    ensures HitSound(text, Mask(mode, t, book, j), Hit(book, j), aliases)
  {
    MaskWrites(mode, t, book, j);
    forall i | 0 <= i < |book|
      ensures book[i] == text[j + i] || book[i] == 'X'
    {
      assert t[j..j + |book|][i] == book[i];
    }
  }

  lemma AcceptSound(mode: Masking, text: string, st: ScanState, book: string, j: nat, aliases: seq<string>)
    requires Sound(text, st, aliases) && book in aliases
    requires OccursAt(st.text, book, j) && Accepts(st.text, book, j)
    ensures Sound(text, Accept(mode, st, book, j), aliases)
  {
    var r := Accept(mode, st, book, j);
    MaskWrites(mode, st.text, book, j);
    MaskStaysMaskedFrom(mode, text, st.text, book, j);
    AcceptedHitSound(mode, text, st.text, book, j, aliases);
    forall n | 0 <= n < |r.hits|
      ensures HitSound(text, r.text, r.hits[n], aliases)
    {
      if n < |st.hits| {
        assert r.hits[n] == st.hits[n];
        HitStaysSound(text, st.text, r.text, st.hits[n], aliases);
      } else {
        assert r.hits[n] == Hit(book, j);
      }
    }
  }

  /**
   * An occurrence of an alias that overlaps a masked span has an `X` in
   * common with it, so an alias without `X` never overlaps a masked span.
   */
  lemma MaskedSpanApart(t: string, g: Hit, book: string, j: nat)
    requires SpanMasked(t, g) && g.book != []
    requires OccursAt(t, book, j) && book != []
    ensures Apart(g, Hit(book, j)) || 'X' in book
  {
    if !Apart(g, Hit(book, j)) {
      var i := if g.pos < j then j else g.pos;
      assert t[j..j + |book|][i - j] == book[i - j];
    }
  }

  lemma AcceptExact(text: string, st: ScanState, book: string, j: nat, aliases: seq<string>)
    requires Sound(text, st, aliases) && MasksExactlyHits(text, st) && book in aliases
    requires OccursAt(st.text, book, j) && Accepts(st.text, book, j)
    ensures MasksExactlyHits(text, Accept(AtHit, st, book, j))
    ensures Plain(aliases) && Disjoint(st.hits) ==> Disjoint(Accept(AtHit, st, book, j).hits)
  {
    var r := Accept(AtHit, st, book, j);
    MaskWrites(AtHit, st.text, book, j);
    var h := Hit(book, j);
    assert r.hits[|st.hits|] == h;
    forall n | 0 <= n < |r.hits|
      ensures SpanMasked(r.text, r.hits[n])
    {
      if n < |st.hits| {
        assert r.hits[n] == st.hits[n];
      }
    }
    forall i | 0 <= i < |text| && r.text[i] != text[i]
      ensures Covered(r.hits, i)
    {
      if j <= i < j + |book| {
        assert r.hits[|st.hits|] == h;
      } else {
        var n :| 0 <= n < |st.hits| && st.hits[n].pos <= i < st.hits[n].pos + |st.hits[n].book|;
        assert r.hits[n] == st.hits[n];
      }
    }
    if Plain(aliases) && Disjoint(st.hits) {
      forall m | 0 <= m < |st.hits|
        ensures Apart(st.hits[m], h)
      {
        assert st.hits[m].book in aliases;
        MaskedSpanApart(st.text, st.hits[m], book, j);
      }
      forall m, n | 0 <= m < n < |r.hits|
        ensures Apart(r.hits[m], r.hits[n])
      {
        assert r.hits[m] == st.hits[m];
        if n < |st.hits| {
          assert r.hits[n] == st.hits[n];
        }
      }
    }
  }

  /** The invariant every scan step keeps; the last two conjuncts only for the corrected masking. */
  ghost predicate Invariant(mode: Masking, text: string, st: ScanState, aliases: seq<string>) {
    && Sound(text, st, aliases)
    && (mode == AtHit ==> MasksExactlyHits(text, st))
    && (mode == AtHit && Plain(aliases) ==> Disjoint(st.hits))
  }

  lemma AcceptKeeps(mode: Masking, text: string, st: ScanState, book: string, j: nat, aliases: seq<string>)
    requires Invariant(mode, text, st, aliases) && book in aliases
    requires OccursAt(st.text, book, j) && Accepts(st.text, book, j)
    ensures Invariant(mode, text, Accept(mode, st, book, j), aliases)
  {
    AcceptSound(mode, text, st, book, j, aliases);
    if mode == AtHit {
      AcceptExact(text, st, book, j, aliases);
    }
  }

  /** The state the inner loop continues from after examining the match at `j`. */
  function Examine(mode: Masking, st: ScanState, book: string, j: nat): (r: ScanState)
    ensures |r.text| == |st.text|
  {
    if Accepts(st.text, book, j) then Accept(mode, st, book, j) else st
  }

  /** Examining a match, accepted or not, keeps the invariant. */
  lemma ExamineKeeps(mode: Masking, text: string, st: ScanState, book: string, j: nat, aliases: seq<string>)
    requires Invariant(mode, text, st, aliases) && book in aliases
    requires OccursAt(st.text, book, j)
    ensures Invariant(mode, text, Examine(mode, st, book, j), aliases)
  {
    if Accepts(st.text, book, j) {
      AcceptKeeps(mode, text, st, book, j, aliases);
    }
  }

  lemma ScanAliasStops(mode: Masking, st: ScanState, book: string, cursor: nat)
    requires cursor >= |st.text| || IndexOf(st.text, book, cursor) < 0
    ensures ScanAlias(mode, st, book, cursor) == st
  {
    if cursor < |st.text| {
      assert ScanAlias(mode, st, book, cursor) == Found(mode, st, book, cursor, IndexOf(st.text, book, cursor));
    }
  }

  lemma ScanAliasUnfold(mode: Masking, st: ScanState, book: string, cursor: nat, j: int)
    requires cursor < |st.text| && j == IndexOf(st.text, book, cursor) && j >= 0
    ensures ScanAlias(mode, st, book, cursor) == ScanAlias(mode, Examine(mode, st, book, j), book, j + |book| + 1)
  {
    assert ScanAlias(mode, st, book, cursor) == Found(mode, st, book, cursor, j);
  }

  lemma {:induction false} ScanAliasKeeps(mode: Masking, text: string, st: ScanState, book: string, cursor: nat, aliases: seq<string>)
    requires Invariant(mode, text, st, aliases) && book in aliases
    ensures Invariant(mode, text, ScanAlias(mode, st, book, cursor), aliases)
    decreases |st.text| - cursor, 1
  {
    if cursor < |st.text| {
      var j := IndexOf(st.text, book, cursor);
      IndexOfFound(st.text, book, cursor);
      FoundKeeps(mode, text, st, book, cursor, j, aliases);
    }
  }

  lemma {:induction false} FoundKeeps(mode: Masking, text: string, st: ScanState, book: string, cursor: nat, j: int, aliases: seq<string>)
    requires cursor < |st.text| && (j < 0 || (cursor <= j && OccursAt(st.text, book, j)))
    requires Invariant(mode, text, st, aliases) && book in aliases
    ensures Invariant(mode, text, Found(mode, st, book, cursor, j), aliases)
    decreases |st.text| - cursor, 0
  {
    if j >= 0 {
      ExamineKeeps(mode, text, st, book, j, aliases);
      ScanAliasKeeps(mode, text, Examine(mode, st, book, j), book, j + |book| + 1, aliases);
    }
  }

  lemma {:induction false} FindAllKeeps(mode: Masking, text: string, st: ScanState, rest: seq<string>, aliases: seq<string>)
    requires Invariant(mode, text, st, aliases)
    requires forall a :: a in rest ==> a in aliases
    ensures Invariant(mode, text, FindAll(mode, st, rest), aliases)
    decreases |rest|
  {
    if rest != [] {
      ScanAliasKeeps(mode, text, st, rest[0], 0, aliases);
      FindAllKeeps(mode, text, ScanAlias(mode, st, rest[0], 0), rest[1..], aliases);
    }
  }

  /**
   * Under either masking, the scan only overwrites characters with `X` and
   * keeps the length; every hit is an alias of the table followed by a
   * character that is not lower-case, and matches the original text where
   * the alias has no `X`. An alias ending exactly at the end of the text is
   * never recorded.
   */
  lemma ScanSound(mode: Masking, text: string, aliases: seq<string>)
    ensures MaskedFrom(text, Scan(mode, text, aliases).text)
    ensures forall n :: 0 <= n < |Scan(mode, text, aliases).hits| ==>
      HitSound(text, Scan(mode, text, aliases).text, Scan(mode, text, aliases).hits[n], aliases)
  {
    FindAllKeeps(mode, text, ScanState(text, []), aliases, aliases);
  }

  /**
   * With the corrected masking every hit's span is masked and nothing else is;
   * when no alias is empty or contains an `X`, the hits do not overlap and
   * each is an exact occurrence of its alias in the original text.
   */
  lemma CorrectedScanExact(text: string, aliases: seq<string>)
    ensures MasksExactlyHits(text, Scan(AtHit, text, aliases))
    ensures Plain(aliases) ==> Disjoint(Scan(AtHit, text, aliases).hits)
    ensures Plain(aliases) ==> forall n :: 0 <= n < |Scan(AtHit, text, aliases).hits| ==>
      OccursAt(text, Scan(AtHit, text, aliases).hits[n].book, Scan(AtHit, text, aliases).hits[n].pos)
  {
    var r := Scan(AtHit, text, aliases);
    FindAllKeeps(AtHit, text, ScanState(text, []), aliases, aliases);
    if Plain(aliases) {
      forall n | 0 <= n < |r.hits|
        ensures OccursAt(text, r.hits[n].book, r.hits[n].pos)
      {
        var h := r.hits[n];
        assert HitSound(text, r.text, h, aliases);
        assert text[h.pos..h.pos + |h.book|] == h.book;
      }
    }
  }

  // ---------------------------------------------------------------------
  // Completeness: an accepted occurrence is recorded
  // ---------------------------------------------------------------------

  /** Examining a match, in either mode, leaves every character from its end on as it was. */
  lemma ExamineKeepsTail(mode: Masking, st: ScanState, book: string, j: nat)
    requires OccursAt(st.text, book, j)
    ensures |Examine(mode, st, book, j).text| == |st.text|
    ensures forall q :: j + |book| <= q < |st.text| ==> Examine(mode, st, book, j).text[q] == st.text[q]
  {
    if Accepts(st.text, book, j) {
      MaskWrites(mode, st.text, book, j);
    }
  }

  /** Two texts that agree from `from` on have the same accepted occurrences there. */
  lemma SameFrom(t: string, t': string, from: nat, book: string, i: nat)
    requires |t'| == |t| && forall q :: from <= q < |t| ==> t'[q] == t[q]
    requires from <= i
    ensures OccursAt(t', book, i) <==> OccursAt(t, book, i)
    ensures Accepts(t', book, i) <==> Accepts(t, book, i)
  {
    if i + |book| <= |t| {
      assert t'[i..i + |book|] == t[i..i + |book|];
    }
  }

  /** An occurrence in a masked text of a string with no `X` is an occurrence in the original. */
  lemma MaskedOccurrence(text: string, t: string, book: string, i: nat)
    requires MaskedFrom(text, t) && 'X' !in book && OccursAt(t, book, i)
    ensures OccursAt(text, book, i)
  {
    forall q | 0 <= q < |book|
      ensures text[i + q] == book[q]
    {
      assert t[i..i + |book|][q] == t[i + q];
      assert book[q] in book;
    }
    assert text[i..i + |book|] == book;
  }

  /** The inner loop only appends to the hits. */
  lemma {:induction false} ScanAliasExtends(mode: Masking, st: ScanState, book: string, cursor: nat)
    ensures st.hits <= ScanAlias(mode, st, book, cursor).hits
    decreases |st.text| - cursor
  {
    if cursor < |st.text| {
      var j := IndexOf(st.text, book, cursor);
      if j < 0 {
        ScanAliasStops(mode, st, book, cursor);
      } else {
        ScanAliasUnfold(mode, st, book, cursor, j);
        var next := Examine(mode, st, book, j);
        assert st.hits <= next.hits;
        ScanAliasExtends(mode, next, book, j + |book| + 1);
      }
    } else {
      ScanAliasStops(mode, st, book, cursor);
    }
  }

  /**
   * The inner loop records every accepted occurrence it can reach: an
   * occurrence at `p`, at or after the cursor, followed by a character that
   * is not lower-case, is recorded unless an earlier occurrence overlaps it
   * (the search resumes one past the end of each match, so such an overlap
   * would make the loop jump over `p`). This holds under both maskings, since
   * a mask never writes at or after the end of the match just found.
   */
  lemma {:induction false} ScanAliasFinds(mode: Masking, st: ScanState, book: string, cursor: nat, p: nat)
    requires cursor <= p && OccursAt(st.text, book, p) && Accepts(st.text, book, p)
    requires forall i :: cursor <= i < p && p - |book| <= i ==> !OccursAt(st.text, book, i)
    ensures Hit(book, p) in ScanAlias(mode, st, book, cursor).hits
    decreases |st.text| - cursor
  {
    var j := IndexOf(st.text, book, cursor);
    IndexOfReaches(st.text, book, cursor, p);
    IndexOfFound(st.text, book, cursor);
    ScanAliasUnfold(mode, st, book, cursor, j);
    var next := Examine(mode, st, book, j);
    if j == p {
      assert Hit(book, p) in next.hits;
      ScanAliasExtends(mode, next, book, j + |book| + 1);
    } else {
      assert j + |book| < p;
      ExamineKeepsTail(mode, st, book, j);
      SameFrom(st.text, next.text, j + |book|, book, p);
      forall i | j + |book| + 1 <= i < p && p - |book| <= i
        ensures !OccursAt(next.text, book, i)
      {
        SameFrom(st.text, next.text, j + |book|, book, i);
      }
      ScanAliasFinds(mode, next, book, j + |book| + 1, p);
    }
  }

  /** The outer loop over `a + b` is the loop over `a` followed by the loop over `b`. */
  lemma {:induction false} FindAllSplit(mode: Masking, st: ScanState, a: seq<string>, b: seq<string>)
    ensures FindAll(mode, st, a + b) == FindAll(mode, FindAll(mode, st, a), b)
    decreases |a|
  {
    if a == [] {
      assert a + b == b;
    } else {
      assert (a + b)[0] == a[0] && (a + b)[1..] == a[1..] + b;
      FindAllSplit(mode, ScanAlias(mode, st, a[0], 0), a[1..], b);
    }
  }

  /** The outer loop only appends to the hits. */
  lemma {:induction false} FindAllExtends(mode: Masking, st: ScanState, aliases: seq<string>)
    ensures st.hits <= FindAll(mode, st, aliases).hits
    decreases |aliases|
  {
    if aliases != [] {
      ScanAliasExtends(mode, st, aliases[0], 0);
      FindAllExtends(mode, ScanAlias(mode, st, aliases[0], 0), aliases[1..]);
    }
  }

  /**
   * Under either masking, alias number `b` records every occurrence the
   * text masked by the longer aliases before it still shows, when a
   * character that is not lower-case follows it and no earlier occurrence
   * of the same alias overlaps it.
   */
  lemma ScanFinds(mode: Masking, text: string, aliases: seq<string>, b: nat, p: nat)
    requires b < |aliases|
    requires var t := Scan(mode, text, aliases[..b]).text;
      && OccursAt(t, aliases[b], p) && Accepts(t, aliases[b], p)
      && forall i :: 0 <= i < p && p - |aliases[b]| <= i ==> !OccursAt(t, aliases[b], i)
    ensures Hit(aliases[b], p) in Scan(mode, text, aliases).hits
  {
    var before := Scan(mode, text, aliases[..b]);
    var book := aliases[b];
    ScanAliasFinds(mode, before, book, 0, p);
    var after := ScanAlias(mode, before, book, 0);
    assert aliases == aliases[..b] + aliases[b..];
    FindAllSplit(mode, ScanState(text, []), aliases[..b], aliases[b..]);
    assert aliases[b..][0] == book && aliases[b..][1..] == aliases[b + 1..];
    assert Scan(mode, text, aliases) == FindAll(mode, after, aliases[b + 1..]);
    FindAllExtends(mode, after, aliases[b + 1..]);
  }

  /**
   * With the corrected masking the condition can be read on the ORIGINAL
   * text: if no alias is empty or holds an `X`, an occurrence of alias
   * number `b` at `p` that is followed by a character other than a
   * lower-case letter, is not overlapped by an earlier occurrence of the
   * same alias, and of which no character (nor the one after it) was
   * claimed by a hit of a longer alias, is recorded.
   */
  lemma CorrectedScanFinds(text: string, aliases: seq<string>, b: nat, p: nat)
    requires Plain(aliases) && b < |aliases|
    requires OccursAt(text, aliases[b], p) && Accepts(text, aliases[b], p)
    requires forall i :: 0 <= i < p && p - |aliases[b]| <= i ==> !OccursAt(text, aliases[b], i)
    requires forall i :: p <= i <= p + |aliases[b]| ==> !Covered(Scan(AtHit, text, aliases[..b]).hits, i)
    ensures Hit(aliases[b], p) in Scan(AtHit, text, aliases).hits
  {
    var before := Scan(AtHit, text, aliases[..b]);
    var book := aliases[b];
    var t := before.text;
    FindAllKeeps(AtHit, text, ScanState(text, []), aliases[..b], aliases[..b]);
    forall q | p <= q <= p + |book|
      ensures t[q] == text[q]
    {
      assert !Covered(before.hits, q);
    }
    assert t[p..p + |book|] == text[p..p + |book|];
    assert 'X' !in book by { assert book in aliases; }
    forall i | 0 <= i < p && p - |book| <= i
      ensures !OccursAt(t, book, i)
    {
      if OccursAt(t, book, i) {
        MaskedOccurrence(text, t, book, i);
      }
    }
    ScanFinds(AtHit, text, aliases, b, p);
  }

  /** Overwrites the accepted occurrence of `book` at `j` with its replacement string. */
  method MaskAccepted(t0: string, book: string, j: nat, mode: Masking) returns (t: string)
    requires OccursAt(t0, book, j)
    ensures t == Mask(mode, t0, book, j)
  {
    var replacement := MaskReplacement(book);
    assert replacement == Xs(|book|);
    if mode == FirstOccurrence {
      MaskFirstIsReplace(t0, book, j);
      t := ReplaceFirst(t0, book, replacement);
    } else {
      MaskAtHitIsSplice(t0, book, j);
      t := t0[..j] + replacement + t0[j + |book|..];
    }
  }

  /** The body of the inner loop for the match at `j`: accept it, or leave everything as it is. */
  method ExamineMatch(t0: string, hits0: seq<Hit>, book: string, j: nat, mode: Masking) returns (t: string, hits: seq<Hit>)
    requires OccursAt(t0, book, j)
    ensures ScanState(t, hits) == Examine(mode, ScanState(t0, hits0), book, j)
  {
    t, hits := t0, hits0;
    if j + |book| < |t| && !IsLower(t[j + |book|]) {
      hits := hits + [Hit(book, j)];
      t := MaskAccepted(t, book, j, mode);
    }
  }

  /**
   * The inner `while` loop for one alias. The search cursor strictly
   * increases, so the loop terminates; its result is `ScanAlias` from
   * cursor 0.
   */
  method SearchAlias(t0: string, hits0: seq<Hit>, book: string, mode: Masking) returns (t: string, hits: seq<Hit>)
    ensures ScanState(t, hits) == ScanAlias(mode, ScanState(t0, hits0), book, 0)
  {
    t, hits := t0, hits0;
    var cursor := 0;
    while cursor < |t|
      invariant |t| == |t0|
      invariant ScanAlias(mode, ScanState(t, hits), book, cursor) == ScanAlias(mode, ScanState(t0, hits0), book, 0)
      decreases |t| - cursor
    {
      var j := IndexOf(t, book, cursor);
      if j < 0 {
        ScanAliasStops(mode, ScanState(t, hits), book, cursor);
        return;
      }
      IndexOfFound(t, book, cursor);
      ScanAliasUnfold(mode, ScanState(t, hits), book, cursor, j);
      t, hits := ExamineMatch(t, hits, book, j, mode);
      assert |t| == |t0|;
      assert j >= cursor;
      cursor := j + |book| + 1;
    }
    ScanAliasStops(mode, ScanState(t, hits), book, cursor);
  }

  /**
   * The find-and-mask loops: every alias in table order. The result is the
   * scan defined above, with its soundness facts, and for the corrected
   * masking its exactness facts.
   */
  method FindAndMask(text: string, aliases: seq<string>, mode: Masking) returns (masked: string, hits: seq<Hit>)
    ensures ScanState(masked, hits) == Scan(mode, text, aliases)
    ensures MaskedFrom(text, masked)
    ensures forall n :: 0 <= n < |hits| ==> HitSound(text, masked, hits[n], aliases)
    ensures mode == AtHit ==> MasksExactlyHits(text, ScanState(masked, hits))
    ensures mode == AtHit && Plain(aliases) ==> Disjoint(hits)
  {
    masked := text;
    hits := [];
    var b := 0;
    while b < |aliases|
      invariant 0 <= b <= |aliases|
      invariant FindAll(mode, ScanState(masked, hits), aliases[b..]) == Scan(mode, text, aliases)
    {
      assert aliases[b..][1..] == aliases[b + 1..];
      masked, hits := SearchAlias(masked, hits, aliases[b], mode);
      b := b + 1;
    }
    ScanSound(mode, text, aliases);
    if mode == AtHit {
      CorrectedScanExact(text, aliases);
    }
  }

  // The example of the finding below, one search or mask at a time.

  lemma ExampleFirstSearch(t: string)
    requires t == "1 Johnny 1 John 3"
    ensures IndexOf(t, "1 John", 0) == 0 && !Accepts(t, "1 John", 0)
    ensures IndexOf(t, "1 John", 7) == 9 && Accepts(t, "1 John", 9)
  {
    assert OccursAt(t, "1 John", 0);
    IndexOfFirst(t, "1 John", 7);
    assert t[9..15] == "1 John";
    assert OccursAt(t, "1 John", 9);
    assert t[8..14][0] == ' ';
    assert t[7..13][0] == 'y';
  }

  lemma ExampleSecondSearch(t1: string)
    requires t1 == "XXXXXXny 1 John 3"
    ensures IndexOf(t1, "John", 0) == 11 && Accepts(t1, "John", 11)
  {
    IndexOfFirst(t1, "John", 0);
    assert t1[11..15] == "John";
    assert OccursAt(t1, "John", 11);
    forall i | 0 <= i < 11
      ensures !OccursAt(t1, "John", i)
    {
      assert t1[i..i + 4][0] == t1[i];
      assert t1[i] in t1[..11];
      assert 'J' !in t1[..11];
    }
  }

  lemma ExampleAsWrittenFirstMask(t: string, t1: string)
    requires t == "1 Johnny 1 John 3" && t1 == "XXXXXXny 1 John 3"
    ensures Mask(FirstOccurrence, t, "1 John", 9) == t1
  {
    ExampleFirstSearch(t);
    OverwriteIsSplice(t, 0, 6);
    assert Xs(6) == "XXXXXX";
    assert t[6..] == "ny 1 John 3";
  }

  lemma ExampleAsWrittenSecondMask(t1: string, t2: string)
    requires t1 == "XXXXXXny 1 John 3" && t2 == "XXXXXXny 1 XXXX 3"
    ensures Mask(FirstOccurrence, t1, "John", 11) == t2
  {
    ExampleSecondSearch(t1);
    OverwriteIsSplice(t1, 11, 4);
    assert Xs(4) == "XXXX";
    assert t1[..11] == "XXXXXXny 1 " && t1[15..] == " 3";
  }

  lemma ExampleAsWrittenMasks(t: string, t1: string, t2: string)
    requires t == "1 Johnny 1 John 3" && t1 == "XXXXXXny 1 John 3" && t2 == "XXXXXXny 1 XXXX 3"
    ensures Mask(FirstOccurrence, t, "1 John", 9) == t1
    ensures IndexOf(t1, "John", 0) == 11 && Accepts(t1, "John", 11)
    ensures Mask(FirstOccurrence, t1, "John", 11) == t2
  {
    ExampleAsWrittenFirstMask(t, t1);
    ExampleSecondSearch(t1);
    ExampleAsWrittenSecondMask(t1, t2);
  }

  lemma ExampleCorrectedMask(t: string, u1: string)
    requires t == "1 Johnny 1 John 3" && u1 == "1 Johnny XXXXXX 3"
    ensures Mask(AtHit, t, "1 John", 9) == u1
  {
    OverwriteIsSplice(t, 9, 6);
    assert Xs(6) == "XXXXXX";
    assert t[..9] == "1 Johnny " && t[15..] == " 3";
  }

  lemma ExampleCorrectedSearch(u1: string)
    requires u1 == "1 Johnny XXXXXX 3"
    ensures IndexOf(u1, "John", 0) == 2 && !Accepts(u1, "John", 2)
  {
    IndexOfFirst(u1, "John", 0);
    assert u1[2..6] == "John";
    assert OccursAt(u1, "John", 2);
    assert u1[1..5][0] == ' ';
    assert u1[0..4][0] == '1';
  }

  lemma ExampleCorrectedMasks(t: string, u1: string)
    requires t == "1 Johnny 1 John 3" && u1 == "1 Johnny XXXXXX 3"
    ensures Mask(AtHit, t, "1 John", 9) == u1
    ensures IndexOf(u1, "John", 0) == 2 && !Accepts(u1, "John", 2)
  {
    ExampleCorrectedMask(t, u1);
    ExampleCorrectedSearch(u1);
  }

  lemma ExampleCorrectedSearchEnds(u1: string)
    requires u1 == "1 Johnny XXXXXX 3"
    ensures IndexOf(u1, "John", 7) == -1
  {
    IndexOfFirst(u1, "John", 7);
    forall i | 7 <= i
      ensures !OccursAt(u1, "John", i)
    {
      if i + 4 <= |u1| {
        assert u1[i..i + 4][0] == u1[i];
        assert u1[i] in u1[7..];
        assert 'J' !in u1[7..];
      }
    }
  }

  /**
   * As written, an earlier rejected occurrence is masked in place of the
   * accepted one, so a shorter alias later finds the accepted name again: in
   * "1 Johnny 1 John 3", "1 John" is accepted at 9 but the "1 John" of
   * "1 Johnny" is masked, and "John" is then recorded at 11, inside the first
   * hit.
   */
  lemma ExampleAsWrittenSteps(t: string, t1: string, t2: string, h1: Hit, h2: Hit)
    requires t == "1 Johnny 1 John 3" && t1 == "XXXXXXny 1 John 3" && t2 == "XXXXXXny 1 XXXX 3"
    requires h1 == Hit("1 John", 9) && h2 == Hit("John", 11)
    ensures ScanAlias(FirstOccurrence, ScanState(t, []), "1 John", 0) == ScanState(t1, [h1])
    ensures ScanAlias(FirstOccurrence, ScanState(t1, [h1]), "John", 0) == ScanState(t2, [h1, h2])
  {
    var s0, s1, s2 := ScanState(t, []), ScanState(t1, [h1]), ScanState(t2, [h1, h2]);
    ExampleFirstSearch(t);
    ExampleAsWrittenMasks(t, t1, t2);
    ScanAliasUnfold(FirstOccurrence, s0, "1 John", 0, 0);
    ScanAliasUnfold(FirstOccurrence, s0, "1 John", 7, 9);
    ScanAliasStops(FirstOccurrence, s1, "1 John", 16);
    ScanAliasUnfold(FirstOccurrence, s1, "John", 0, 11);
    ScanAliasStops(FirstOccurrence, s2, "John", 16);
  }

  lemma ScanTwoAliases(mode: Masking, text: string, a: string, b: string)
    ensures Scan(mode, text, [a, b]) == ScanAlias(mode, ScanAlias(mode, ScanState(text, []), a, 0), b, 0)
  {
    var s1 := ScanAlias(mode, ScanState(text, []), a, 0);
    assert [a, b][1..] == [b] && [b][1..] == [];
    assert FindAll(mode, s1, [b]) == FindAll(mode, ScanAlias(mode, s1, b, 0), []);
  }

  lemma AsWrittenRecordsOverlappingHits()
    ensures Scan(FirstOccurrence, "1 Johnny 1 John 3", ["1 John", "John"]).hits == [Hit("1 John", 9), Hit("John", 11)]
    ensures !Disjoint(Scan(FirstOccurrence, "1 Johnny 1 John 3", ["1 John", "John"]).hits)
  {
    var t, t1, t2 := "1 Johnny 1 John 3", "XXXXXXny 1 John 3", "XXXXXXny 1 XXXX 3";
    var h1, h2 := Hit("1 John", 9), Hit("John", 11);
    ExampleAsWrittenSteps(t, t1, t2, h1, h2);
    ScanTwoAliases(FirstOccurrence, t, "1 John", "John");
    var hits := [h1, h2];
    assert !Apart(hits[0], hits[1]);
  }

  lemma ExampleCorrectedSteps(t: string, u1: string, h1: Hit)
    requires t == "1 Johnny 1 John 3" && u1 == "1 Johnny XXXXXX 3" && h1 == Hit("1 John", 9)
    ensures ScanAlias(AtHit, ScanState(t, []), "1 John", 0) == ScanState(u1, [h1])
    ensures ScanAlias(AtHit, ScanState(u1, [h1]), "John", 0) == ScanState(u1, [h1])
  {
    var s0, s1 := ScanState(t, []), ScanState(u1, [h1]);
    ExampleFirstSearch(t);
    ExampleCorrectedMasks(t, u1);
    ExampleCorrectedSearchEnds(u1);
    ScanAliasUnfold(AtHit, s0, "1 John", 0, 0);
    ScanAliasUnfold(AtHit, s0, "1 John", 7, 9);
    ScanAliasStops(AtHit, s1, "1 John", 16);
    ScanAliasUnfold(AtHit, s1, "John", 0, 2);
    ScanAliasStops(AtHit, s1, "John", 7);
  }

  /** With the corrected masking the same text yields the one hit. */
  lemma CorrectedRecordsTheNameOnce()
    ensures Scan(AtHit, "1 Johnny 1 John 3", ["1 John", "John"]).hits == [Hit("1 John", 9)]
  {
    var t, u1 := "1 Johnny 1 John 3", "1 Johnny XXXXXX 3";
    var h1 := Hit("1 John", 9);
    ExampleCorrectedSteps(t, u1, h1);
    ScanTwoAliases(AtHit, t, "1 John", "John");
  }
}
