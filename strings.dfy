/**
 * String operations of the Rust standard library that the chat client relies on:
 * `str::replace` and `str::trim`, over strings taken as sequences of Unicode
 * scalar values.
 */
module Strings {

  /** `p` occurs in `s` starting at index `i`. */
  predicate MatchAt(s: string, p: string, i: int) {
    0 <= i && i + |p| <= |s| && s[i..i + |p|] == p
  }

  /** `p` occurs somewhere in `s`. */
  predicate Occurs(p: string, s: string) {
    exists i | 0 <= i <= |s| - |p| :: MatchAt(s, p, i)
  }

  /**
   * `s.replace(from, to)`: the matches of `from` are found left to right and
   * do not overlap; each is replaced by `to` and everything else is copied.
   * An empty `from` matches at every character boundary, so `to` is inserted
   * before each character and at the end.
   */
  function Replace(s: string, from: string, to: string): (r: string)
    ensures |from| == |to| ==> |r| == |s|
    decreases |s|
  {
    if from == [] then
      if s == [] then to else to + [s[0]] + Replace(s[1..], from, to)
    else if |from| <= |s| && s[..|from|] == from then
      to + Replace(s[|from|..], from, to)
    else if s == [] then
      []
    else
      [s[0]] + Replace(s[1..], from, to)
  }

  /** Where slot `k` starts when every slot is `w` wide: `k * w`. */
  function Slot(k: nat, w: nat): nat {
    if k == 0 then 0 else Slot(k - 1, w) + w
  }

  /** `Slot` is multiplication. */
  lemma {:induction false} SlotIsProduct(k: nat, w: nat)
    ensures Slot(k, w) == k * w
  {
    if k > 0 {
      SlotIsProduct(k - 1, w);
    }
  }

  /** With an empty pattern, the result has `|s| + 1` copies of `to` besides `s` itself. */
  lemma ReplaceEmptyPatternLength(s: string, to: string)
    ensures |Replace(s, [], to)| == |s| + (|s| + 1) * |to|
  {
    EmptyPatternLengthBySlots(s, to);
    SlotIsProduct(|s| + 1, |to|);
  }

  /**
   * With an empty pattern, the replacement stands at every character boundary:
   * slot `k` of width `|to| + 1` holds `to` followed by the `k`-th character.
   */
  lemma ReplaceEmptyPattern(s: string, to: string, k: nat)
    requires k <= |s|
    ensures var r := Replace(s, [], to); var i := k * (|to| + 1);
      && i + |to| <= |r|
      && r[i..i + |to|] == to
      && (k < |s| ==> i + |to| < |r| && r[i + |to|] == s[k])
  {
    EmptyPatternSlot(s, to, k);
    SlotIsProduct(k, |to| + 1);
  }

  /** `ReplaceEmptyPatternLength` with the copies of `to` counted by `Slot`. */
  lemma {:induction false} EmptyPatternLengthBySlots(s: string, to: string)
    ensures |Replace(s, [], to)| == |s| + Slot(|s| + 1, |to|)
    decreases |s|
  {
    if s != [] {
      EmptyPatternLengthBySlots(s[1..], to);
    }
  }

  /** `ReplaceEmptyPattern` with the slot positions given by `Slot`. */
  lemma {:induction false} EmptyPatternSlot(s: string, to: string, k: nat)
    requires k <= |s|
    ensures var r := Replace(s, [], to); var i := Slot(k, |to| + 1);
      && i + |to| <= |r|
      && r[i..i + |to|] == to
      && (k < |s| ==> i + |to| < |r| && r[i + |to|] == s[k])
    decreases |s|
  {
    var r := Replace(s, [], to);
    if k > 0 {
      var r' := Replace(s[1..], [], to);
      EmptyPatternSlot(s[1..], to, k - 1);
      assert r == to + [s[0]] + r';
      SlotShift(r, r', to, s[0], Slot(k - 1, |to| + 1));
    } else if s != [] {
      assert r == to + [s[0]] + Replace(s[1..], [], to);
    }
  }

  /** Behind a prefix `to + [c]`, a slice of `r'` at `a` sits at `a + |to| + 1`. */
  lemma SlotShift(r: string, r': string, to: string, c: char, a: nat)
    requires r == to + [c] + r'
    requires a + |to| <= |r'|
    ensures a + |to| + 1 + |to| <= |r|
    ensures r[a + |to| + 1..a + |to| + 1 + |to|] == r'[a..a + |to|]
    ensures a + |to| < |r'| ==> a + |to| + 1 + |to| < |r| && r[a + |to| + 1 + |to|] == r'[a + |to|]
  {
    assert r[|to| + 1..] == r';
  }

  /** Concatenation is associative. */
  lemma ConcatAssoc(x: string, y: string, z: string)
    ensures x + (y + z) == x + y + z
  {
  }

  /** A match in a suffix of `s` is a match in `s`, shifted by where the suffix starts. */
  lemma MatchAtShift(s: string, p: string, n: nat, j: int)
    requires n <= |s| && 0 <= j
    ensures MatchAt(s[n..], p, j) <==> MatchAt(s, p, j + n)
  {
  }

  /** Replacing a pattern that does not occur leaves the string unchanged. */
  lemma {:induction false} ReplaceNoMatch(s: string, from: string, to: string)
    requires from != []
    requires !Occurs(from, s)
    ensures Replace(s, from, to) == s
    decreases |s|
  {
    if s != [] {
      NoMatchAhead(s, from);
      ReplaceNoMatch(s[1..], from, to);
    }
  }

  /** A pattern that does not occur in `s` neither starts `s` nor occurs in its tail. */
  lemma NoMatchAhead(s: string, p: string)
    requires s != [] && !Occurs(p, s)
    ensures !(|p| <= |s| && s[..|p|] == p)
    ensures !Occurs(p, s[1..])
  {
    assert !MatchAt(s, p, 0);
    if |p| <= |s| {
      assert s[0..|p|] == s[..|p|];
    }
    forall j | 0 <= j ensures !MatchAt(s[1..], p, j) {
      MatchAtShift(s, p, 1, j);
    }
  }

  /** The code points with the Unicode White_Space property. */
  const WhiteSpaceCodePoints: set<int> := {
    0x09, 0x0A, 0x0B, 0x0C, 0x0D, 0x20, 0x85, 0xA0, 0x1680,
    0x2000, 0x2001, 0x2002, 0x2003, 0x2004, 0x2005, 0x2006, 0x2007, 0x2008, 0x2009, 0x200A,
    0x2028, 0x2029, 0x202F, 0x205F, 0x3000
  }

  /**
   * Unicode White_Space, the set of characters Rust's `char::is_whitespace`
   * accepts and hence the set `str::trim` strips.
   */
  predicate IsWhitespace(c: char)
    ensures IsWhitespace(c) <==> c as int in WhiteSpaceCodePoints
  {
    || ('\t' <= c <= '\r')
    || c == ' '
    || c == '\U{85}'
    || c == '\U{A0}'
    || c == '\U{1680}'
    || ('\U{2000}' <= c <= '\U{200A}')
    || c == '\U{2028}'
    || c == '\U{2029}'
    || c == '\U{202F}'
    || c == '\U{205F}'
    || c == '\U{3000}'
  }

  /** Drops the longest prefix of characters satisfying `ws`. */
  function TrimStart(s: string, ws: char -> bool): (r: string)
    ensures |r| <= |s| && r == s[|s| - |r|..]
    ensures forall k :: 0 <= k < |s| - |r| ==> ws(s[k])
    ensures r == [] || !ws(r[0])
    decreases |s|
  {
    if s != [] && ws(s[0]) then TrimStart(s[1..], ws) else s
  }

  /** Drops the longest suffix of characters satisfying `ws`. */
  function TrimEnd(s: string, ws: char -> bool): (r: string)
    ensures |r| <= |s| && r == s[..|r|]
    ensures forall k :: |r| <= k < |s| ==> ws(s[k])
    ensures r == [] || !ws(r[|r| - 1])
    decreases |s|
  {
    if s != [] && ws(s[|s| - 1]) then TrimEnd(s[..|s| - 1], ws) else s
  }

  /**
   * Strips characters satisfying `ws` from both ends: the result is the slice
   * of `s` between its longest all-`ws` prefix and its longest all-`ws` suffix.
   */
  function Trim(s: string, ws: char -> bool): (r: string)
    ensures TrimmedAt(r, s, |s| - |TrimStart(s, ws)|, ws)
  {
    var u := TrimStart(s, ws);
    TrimmedAtOfSteps(s, u, TrimEnd(u, ws), ws);
    TrimEnd(u, ws)
  }

  /**
   * A suffix `u` of `s` left after dropping a `ws` prefix and not starting with `ws`,
   * cut down to a prefix `r` of `u` by dropping a `ws` suffix, is `TrimmedAt`.
   */
  lemma TrimmedAtOfSteps(s: string, u: string, r: string, ws: char -> bool)
    requires |u| <= |s| && u == s[|s| - |u|..]
    requires forall k :: 0 <= k < |s| - |u| ==> ws(s[k])
    requires u == [] || !ws(u[0])
    requires |r| <= |u| && r == u[..|r|]
    requires forall k :: |r| <= k < |u| ==> ws(u[k])
    requires r == [] || !ws(r[|r| - 1])
    ensures TrimmedAt(r, s, |s| - |u|, ws)
  {
  }

  /**
   * `t` is `s` with its `ws` ends removed, starting at index `lo`: a slice
   * of `s` preceded and followed only by `ws` characters, and neither
   * starting nor ending with one.
   */
  ghost predicate TrimmedAt(t: string, s: string, lo: int, ws: char -> bool) {
    && 0 <= lo && lo + |t| <= |s|
    && t == s[lo..lo + |t|]
    && (forall k :: 0 <= k < lo ==> ws(s[k]))
    && (forall k :: lo + |t| <= k < |s| ==> ws(s[k]))
    && (t == [] || (!ws(t[0]) && !ws(t[|t| - 1])))
  }

  /** `Trim` computes the one text that `TrimmedAt` describes. */
  lemma TrimUnique(t: string, s: string, lo: int, ws: char -> bool)
    requires TrimmedAt(t, s, lo, ws)
    ensures t == Trim(s, ws)
  {
  }

  /** A `TrimmedAt` slice stays one when `ws` characters are added at either end. */
  lemma TrimmedAtPadded(t: string, s: string, lo: int, left: string, right: string, ws: char -> bool)
    requires TrimmedAt(t, s, lo, ws)
    requires forall k :: 0 <= k < |left| ==> ws(left[k])
    requires forall k :: 0 <= k < |right| ==> ws(right[k])
    ensures TrimmedAt(t, left + s + right, |left| + lo, ws)
  {
    var p := left + s + right;
    var n := |left|;
    assert p[n + lo..n + lo + |t|] == s[lo..lo + |t|];
    forall k | 0 <= k < n + lo ensures ws(p[k]) {
      if k >= n {
        assert p[k] == s[k - n];
      } else {
        assert p[k] == left[k];
      }
    }
    forall k | n + lo + |t| <= k < |p| ensures ws(p[k]) {
      if k < n + |s| {
        assert p[k] == s[k - n];
      } else {
        assert p[k] == right[k - n - |s|];
      }
    }
  }

  /** Whitespace added at either end is removed again by trimming. */
  lemma TrimIgnoresPadding(s: string, left: string, right: string, ws: char -> bool)
    requires forall k :: 0 <= k < |left| ==> ws(left[k])
    requires forall k :: 0 <= k < |right| ==> ws(right[k])
    ensures Trim(left + s + right, ws) == Trim(s, ws)
  {
    TrimOfPadded(Trim(s, ws), s, |s| - |TrimStart(s, ws)|, left, right, ws);
  }

  /** Trimming a padded text gives back any slice `TrimmedAt` describes in it. */
  lemma TrimOfPadded(t: string, s: string, lo: int, left: string, right: string, ws: char -> bool)
    requires TrimmedAt(t, s, lo, ws)
    requires forall k :: 0 <= k < |left| ==> ws(left[k])
    requires forall k :: 0 <= k < |right| ==> ws(right[k])
    ensures Trim(left + s + right, ws) == t
  {
    TrimmedAtPadded(t, s, lo, left, right, ws);
    TrimUnique(t, left + s + right, |left| + lo, ws);
  }

  /** Trimming yields the empty string exactly when every character is `ws`. */
  lemma TrimEmpty(s: string, ws: char -> bool)
    ensures Trim(s, ws) == [] <==> forall k :: 0 <= k < |s| ==> ws(s[k])
  {
  }

  /** Trimming a trimmed string changes nothing. */
  lemma TrimIdempotent(s: string, ws: char -> bool)
    ensures Trim(Trim(s, ws), ws) == Trim(s, ws)
  {
    var t := Trim(s, ws);
    TrimFixpoint(t, ws);
  }

  /** Trim leaves `s` unchanged exactly when neither end of `s` is `ws`. */
  lemma TrimFixpoint(s: string, ws: char -> bool)
    ensures Trim(s, ws) == s <==> (s == [] || (!ws(s[0]) && !ws(s[|s| - 1])))
  {
  }
}
