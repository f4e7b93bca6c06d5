/**
 * The JavaScript string built-ins the core relies on, stated over `seq<char>`:
 * `indexOf`, `replace` with a string pattern, `trim`, `split` on one
 * character, `filter(Boolean)` on an array of strings, and the decimal
 * rendering of a number inside a template literal.
 */
module Strings {

  import opened Chars

  /** `p` occurs in `t` at index `k`. */
  predicate OccursAt(t: string, p: string, k: int) {
    0 <= k && k + |p| <= |t| && t[k..k + |p|] == p
  }

  /** `p[i..]` occurs in `t` at index `k + i`, compared one character at a time. */
  predicate MatchesFrom(t: string, p: string, k: nat, i: nat)
    decreases |p| - i
  {
    i >= |p| || (k + i < |t| && t[k + i] == p[i] && MatchesFrom(t, p, k, i + 1))
  }

  lemma {:induction false} MatchesFromSlice(t: string, p: string, k: nat, i: nat)
    requires i <= |p| && k + |p| <= |t|
    ensures MatchesFrom(t, p, k, i) <==> t[k + i..k + |p|] == p[i..]
    decreases |p| - i
  {
    if i < |p| {
      MatchesFromSlice(t, p, k, i + 1);
      assert t[k + i..k + |p|] == [t[k + i]] + t[k + i + 1..k + |p|];
      assert p[i..] == [p[i]] + p[i + 1..];
    }
  }

  /** The character-wise comparison agrees with `OccursAt`. */
  lemma MatchesOccurs(t: string, p: string, k: nat)
    requires k + |p| <= |t|
    ensures MatchesFrom(t, p, k, 0) <==> OccursAt(t, p, k)
  {
    MatchesFromSlice(t, p, k, 0);
  }

  /** `position` clamped into `0..|t|`, as `indexOf` does with its second argument. */
  function ClampStart(t: string, position: int): (r: nat)
    ensures r <= |t|
    ensures 0 <= position <= |t| ==> r == position
  {
    if position < 0 then 0 else if position > |t| then |t| else position
  }

  /** Leftmost occurrence of `p` in `t` at or after `k`, or -1. */
  function SearchFrom(t: string, p: string, k: nat): (r: int)
    requires k <= |t|
    ensures r == -1 || (k <= r && r + |p| <= |t|)
    decreases |t| - k
  {
    if k + |p| > |t| then -1
    else if MatchesFrom(t, p, k, 0) then k
    else
      assert |p| > 0;
      SearchFrom(t, p, k + 1)
  }

  /**
   * The search finds the FIRST occurrence at or after `k`, and -1 only when
   * there is none.
   */
  lemma {:induction false} SearchFromFirst(t: string, p: string, k: nat)
    requires k <= |t|
    ensures var r := SearchFrom(t, p, k);
      && (r != -1 ==> OccursAt(t, p, r) && forall i :: k <= i < r ==> !OccursAt(t, p, i))
      && (r == -1 ==> forall i :: k <= i ==> !OccursAt(t, p, i))
    decreases |t| - k
  {
    if k + |p| <= |t| {
      MatchesOccurs(t, p, k);
      if !MatchesFrom(t, p, k, 0) {
        SearchFromFirst(t, p, k + 1);
      }
    }
  }

  /** `t.indexOf(p, position)`: the first index at or after the clamped start where `p` occurs, or -1. */
  function IndexOf(t: string, p: string, position: int): (r: int)
    ensures r == -1 || (ClampStart(t, position) <= r && r + |p| <= |t|)
  {
    SearchFrom(t, p, ClampStart(t, position))
  }

  /** What `indexOf` returns other than -1 is an occurrence. */
  lemma IndexOfFound(t: string, p: string, position: int)
    ensures IndexOf(t, p, position) != -1 ==> OccursAt(t, p, IndexOf(t, p, position))
  {
    SearchFromFirst(t, p, ClampStart(t, position));
  }

  /**
   * `indexOf` returns the first occurrence at or after the clamped start, and
   * -1 exactly when there is none.
   */
  lemma IndexOfFirst(t: string, p: string, position: int)
    ensures var r := IndexOf(t, p, position);
      && (r != -1 ==> OccursAt(t, p, r) && forall i :: ClampStart(t, position) <= i < r ==> !OccursAt(t, p, i))
      && (r == -1 <==> forall i :: ClampStart(t, position) <= i ==> !OccursAt(t, p, i))
  {
    SearchFromFirst(t, p, ClampStart(t, position));
  }

  /** An occurrence at or after the clamped start is found, at that index or before it. */
  lemma IndexOfReaches(t: string, p: string, position: int, j: int)
    requires OccursAt(t, p, j) && ClampStart(t, position) <= j
    ensures 0 <= IndexOf(t, p, position) <= j
  {
    IndexOfFirst(t, p, position);
  }

  /**
   * `t.replace(p, rep)` with a string pattern: only the FIRST occurrence of `p`
   * is replaced. `$` patterns in `rep` are not interpreted; every replacement
   * string of the core consists of `X` characters only.
   */
  function ReplaceFirst(t: string, p: string, rep: string): (r: string)
    ensures |rep| == |p| ==> |r| == |t|
  {
    var k := IndexOf(t, p, 0);
    if k == -1 then t else t[..k] + rep + t[k + |p|..]
  }

  /** `n` copies of `X`, the mask character of the scanner. */
  function Xs(n: nat): (r: string)
    ensures |r| == n
    ensures forall i :: 0 <= i < n ==> r[i] == 'X'
  {
    if n == 0 then [] else Xs(n - 1) + ['X']
  }

  predicate AllWhitespace(s: string) {
    forall i :: 0 <= i < |s| ==> IsJsWhitespace(s[i])
  }

  function TrimEnd(s: string): (r: string)
    ensures |r| <= |s| && r == s[..|r|]
    ensures AllWhitespace(s[|r|..])
    ensures r == [] || !IsJsWhitespace(r[|r| - 1])
    decreases |s|
  {
    if s != [] && IsJsWhitespace(s[|s| - 1]) then TrimEnd(s[..|s| - 1]) else s
  }

  /**
   * `s.trim()`: `s` with its leading and trailing whitespace removed. The result
   * is the slice of `s` that starts at `Leading(s)`; everything cut off is
   * whitespace and the result neither starts nor ends with whitespace.
   */
  function Trim(s: string): (r: string)
    ensures |r| <= |s| - Leading(s)
    ensures r == s[Leading(s)..Leading(s) + |r|]
    ensures AllWhitespace(s[..Leading(s)]) && AllWhitespace(s[Leading(s) + |r|..])
    ensures r == [] || (!IsJsWhitespace(r[0]) && !IsJsWhitespace(r[|r| - 1]))
  {
    var a := s[Leading(s)..];
    var r := TrimEnd(a);
    assert s[Leading(s) + |r|..] == a[|r|..];
    r
  }

  /** Number of whitespace characters `s` starts with. */
  function Leading(s: string): (n: nat)
    ensures n <= |s|
    ensures AllWhitespace(s[..n])
    ensures n == |s| || !IsJsWhitespace(s[n])
    decreases |s|
  {
    if s != [] && IsJsWhitespace(s[0]) then
      var m := Leading(s[1..]);
      assert s[1..][..m] == s[1..m + 1];
      m + 1
    else 0
  }

  /** Trimming twice is trimming once. */
  /** A text that neither starts nor ends with whitespace is its own trim. */
  lemma TrimKeeps(s: string)
    requires s == [] || (!IsJsWhitespace(s[0]) && !IsJsWhitespace(s[|s| - 1]))
    ensures Trim(s) == s
  {
    assert Leading(s) == 0;
    assert s[Leading(s)..] == s;
  }

  lemma TrimIdempotent(s: string)
    ensures Trim(Trim(s)) == Trim(s)
  {
    var r := Trim(s);
    assert Leading(r) == 0;
    assert Trim(r) == r;
  }

  /** Index of the first `c` in `s`. */
  function FirstIndex(s: string, c: char): (k: nat)
    requires c in s
    ensures k < |s| && s[k] == c && c !in s[..k]
  {
    if s[0] == c then 0
    else
      var k := FirstIndex(s[1..], c);
      assert s[1..][..k] == s[1..k + 1];
      k + 1
  }

  /** `parts.join(sep)` for a one-character separator. */
  function Join(parts: seq<string>, sep: char): string
    decreases |parts|
  {
    if |parts| == 0 then []
    else if |parts| == 1 then parts[0]
    else parts[0] + [sep] + Join(parts[1..], sep)
  }

  /**
   * `s.split(/,/)` for the separator `sep`: the pieces between separators,
   * empty pieces included. There is always at least one piece, no piece holds
   * the separator, and joining the pieces gives back `s`.
   */
  function Split(s: string, sep: char): (r: seq<string>)
    ensures |r| >= 1
    ensures forall i :: 0 <= i < |r| ==> sep !in r[i]
    ensures Join(r, sep) == s
    decreases |s|
  {
    if sep !in s then [s]
    else
      var k := FirstIndex(s, sep);
      var rest := Split(s[k + 1..], sep);
      var r := [s[..k]] + rest;
      assert r[1..] == rest;
      assert s == s[..k] + [sep] + s[k + 1..];
      r
  }

  /** Concatenation of all pieces. */
  function Concat(parts: seq<string>): string
    decreases |parts|
  {
    if parts == [] then [] else parts[0] + Concat(parts[1..])
  }

  /** `parts.filter(Boolean)`: the empty strings dropped, the rest kept in order. */
  function DropEmpty(parts: seq<string>): (r: seq<string>)
    ensures |r| <= |parts|
    ensures forall i :: 0 <= i < |r| ==> r[i] != []
    ensures forall p :: p in r <==> p in parts && p != []
    ensures Concat(r) == Concat(parts)
    decreases |parts|
  {
    if parts == [] then []
    else if parts[0] == [] then DropEmpty(parts[1..])
    else
      var rest := DropEmpty(parts[1..]);
      assert ([parts[0]] + rest)[1..] == rest;
      [parts[0]] + rest
  }

  /** Dropping the empty pieces of a concatenation drops them from each part, keeping the order. */
  lemma {:induction false} DropEmptyAppend(a: seq<string>, b: seq<string>)
    ensures DropEmpty(a + b) == DropEmpty(a) + DropEmpty(b)
    decreases |a|
  {
    if a == [] {
      assert a + b == b;
    } else {
      assert (a + b)[0] == a[0] && (a + b)[1..] == a[1..] + b;
      DropEmptyAppend(a[1..], b);
    }
  }

  /** A single piece is kept exactly when it is not empty. */
  lemma DropEmptyOne(piece: string)
    ensures DropEmpty([piece]) == if piece == [] then [] else [piece]
  {
    assert [piece][1..] == [];
  }

  /** The first `c` of `s` is the one at `n` when none comes before it. */
  lemma {:induction false} FirstIndexAt(s: string, c: char, n: nat)
    requires n < |s| && s[n] == c && c !in s[..n]
    ensures FirstIndex(s, c) == n
  {
    if n > 0 {
      assert s[0] == s[..n][0];
      assert s[1..][n - 1] == c && s[1..][..n - 1] == s[1..n];
      assert forall x :: x in s[1..n] ==> x in s[..n];
      FirstIndexAt(s[1..], c, n - 1);
    }
  }

  /**
   * `Split` is the only way to write `s` as pieces free of `sep` joined by
   * `sep`: whatever such pieces join to `s`, they are `Split(s, sep)`, in order.
   */
  lemma {:induction false} SplitUnique(s: string, sep: char, parts: seq<string>)
    requires |parts| >= 1 && Join(parts, sep) == s
    requires forall i :: 0 <= i < |parts| ==> sep !in parts[i]
    ensures Split(s, sep) == parts
    decreases |parts|
  {
    if |parts| == 1 {
      assert s == parts[0];
    } else {
      var n := |parts[0]|;
      var tail := Join(parts[1..], sep);
      assert s == parts[0] + [sep] + tail;
      assert s[n] == sep && s[..n] == parts[0] && s[n + 1..] == tail;
      FirstIndexAt(s, sep, n);
      SplitUnique(tail, sep, parts[1..]);
      assert Split(s, sep) == [parts[0]] + Split(tail, sep);
    }
  }

  /** `s` with every `c` removed. */
  function Remove(s: string, c: char): (r: string)
    decreases |s|
  {
    if s == [] then [] else (if s[0] == c then [] else [s[0]]) + Remove(s[1..], c)
  }

  lemma RemoveAppend(a: string, b: string, c: char)
    ensures Remove(a + b, c) == Remove(a, c) + Remove(b, c)
    decreases |a|
  {
    if a == [] {
      assert a + b == b;
    } else {
      assert (a + b)[0] == a[0];
      assert (a + b)[1..] == a[1..] + b;
      RemoveAppend(a[1..], b, c);
    }
  }

  lemma RemoveAbsent(a: string, c: char)
    requires c !in a
    ensures Remove(a, c) == a
    decreases |a|
  {
    if a != [] {
      RemoveAbsent(a[1..], c);
    }
  }

  /**
   * Splitting on `sep` and dropping the empty pieces loses exactly the
   * separators: the kept pieces concatenate to `s` with every `sep` removed.
   */
  lemma {:induction false} SplitDropEmptyKeepsText(s: string, sep: char)
    ensures Concat(DropEmpty(Split(s, sep))) == Remove(s, sep)
    decreases |s|
  {
    if sep !in s {
      RemoveAbsent(s, sep);
      assert Concat([s]) == s + Concat([]);
    } else {
      var k := FirstIndex(s, sep);
      var head, tail := s[..k], s[k + 1..];
      var rest := Split(tail, sep);
      assert Split(s, sep) == [head] + rest;
      ConcatDropEmptyCons(head, rest);
      SplitDropEmptyKeepsText(tail, sep);
      RemoveAroundSeparator(s, k, sep);
    }
  }

  lemma ConcatDropEmptyCons(head: string, rest: seq<string>)
    ensures Concat(DropEmpty([head] + rest)) == head + Concat(DropEmpty(rest))
  {
    assert ([head] + rest)[1..] == rest;
    if head != [] {
      var d := DropEmpty(rest);
      assert ([head] + d)[1..] == d;
    }
  }

  lemma RemoveSeparatorCons(sep: char, tail: string)
    ensures Remove([sep] + tail, sep) == Remove(tail, sep)
  {
    assert ([sep] + tail)[0] == sep && ([sep] + tail)[1..] == tail;
  }

  lemma RemoveAroundSeparator(s: string, k: nat, sep: char)
    requires k < |s| && s[k] == sep && sep !in s[..k]
    ensures Remove(s, sep) == s[..k] + Remove(s[k + 1..], sep)
  {
    var head, tail := s[..k], s[k + 1..];
    assert s == head + ([sep] + tail);
    RemoveAppend(head, [sep] + tail, sep);
    RemoveAbsent(head, sep);
    RemoveSeparatorCons(sep, tail);
  }

  function Digit(d: nat): (c: char)
    requires d < 10
    ensures IsDigit(c)
  {
    ('0' as int + d) as char
  }

  /** Decimal rendering of a natural number, most significant digit first. */
  function NatToString(n: nat): (r: string)
    ensures |r| >= 1
    ensures forall i :: 0 <= i < |r| ==> IsDigit(r[i])
    decreases n
  {
    if n < 10 then [Digit(n)] else NatToString(n / 10) + [Digit(n % 10)]
  }

  /** `${i}` for an integer number: a minus sign for negatives, then the digits. */
  function IntToString(i: int): string
  {
    if i < 0 then "-" + NatToString(-i) else NatToString(i)
  }

  /** Reads a string of decimal digits back as a number. */
  function ParseNat(s: string): nat
    requires forall i :: 0 <= i < |s| ==> IsDigit(s[i])
    decreases |s|
  {
    if s == [] then 0
    else
      assert IsDigit(s[|s| - 1]);
      ParseNat(s[..|s| - 1]) * 10 + (s[|s| - 1] as int - '0' as int)
  }

  /** Reading back the decimal rendering of `n` gives `n`. */
  lemma {:induction false} ParseNatToString(n: nat)
    ensures ParseNat(NatToString(n)) == n
    decreases n
  {
    if n >= 10 {
      var s := NatToString(n);
      assert s[..|s| - 1] == NatToString(n / 10);
      ParseNatToString(n / 10);
    }
  }

  /** Reading back `${i}`: the digits give `i`, after a minus sign exactly when `i` is negative. */
  lemma IntToStringReads(i: int)
    ensures |IntToString(i)| >= 1
    ensures IntToString(i)[0] == '-' <==> i < 0
    ensures i >= 0 ==> ParseNat(IntToString(i)) == i
    ensures i < 0 ==> ParseNat(IntToString(i)[1..]) == -i
  {
    if i < 0 {
      ParseNatToString(-i);
      assert IntToString(i)[1..] == NatToString(-i);
    } else {
      ParseNatToString(i);
      assert IsDigit(NatToString(i)[0]);
    }
  }

}
