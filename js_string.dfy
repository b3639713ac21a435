/**
  The string built-ins of ECMAScript that the insight formatter calls:
  `String.prototype.trim`, `startsWith` and `split` with a non-empty string
  separator. `IndexOf` is the `StringIndexOf` search step inside `split`, and
  `Join` (the behaviour of `Array.prototype.join`) is the inverse of `split` that
  its contract is stated with. Strings are sequences of code points.
 */
module JsString {
  import opened Wrappers

  /** The code points of ECMAScript's WhiteSpace and LineTerminator productions:
      exactly the characters `trim` removes. */
  predicate IsWhitespace(c: char) {
    var n := c as int;
    || n == 0x09 || n == 0x0A || n == 0x0B || n == 0x0C || n == 0x0D
    || n == 0x20 || n == 0xA0 || n == 0x1680
    || (0x2000 <= n <= 0x200A)
    || n == 0x2028 || n == 0x2029 || n == 0x202F || n == 0x205F
    || n == 0x3000 || n == 0xFEFF
  }

  predicate AllWhitespace(s: string) {
    forall i :: 0 <= i < |s| ==> IsWhitespace(s[i])
  }

  /** `r` is `s` with its leading whitespace removed: a suffix of `s`, everything cut
      off is whitespace, and `r` does not start with whitespace. */
  predicate LeadingTrimmed(s: string, r: string) {
    && |r| <= |s| && r == s[|s| - |r|..]
    && AllWhitespace(s[..|s| - |r|])
    && (r == [] || !IsWhitespace(r[0]))
  }

  /** `r` is `s` with its trailing whitespace removed: a prefix of `s`, everything cut
      off is whitespace, and `r` does not end with whitespace. */
  predicate TrailingTrimmed(s: string, r: string) {
    && |r| <= |s| && r == s[..|r|]
    && AllWhitespace(s[|r|..])
    && (r == [] || !IsWhitespace(r[|r| - 1]))
  }

  /** Removes the leading whitespace of `s`. */
  function TrimStart(s: string): (r: string)
    ensures LeadingTrimmed(s, r)
    decreases |s|
  {
    if |s| > 0 && IsWhitespace(s[0]) then
      var r := TrimStart(s[1..]);
      WhitespaceCons(s, |s| - |r|);
      r
    else s
  }

  /** A whitespace character followed by a whitespace run is a whitespace run. */
  lemma WhitespaceCons(s: string, k: int)
    requires 0 < k <= |s| && IsWhitespace(s[0]) && AllWhitespace(s[1..][..k - 1])
    ensures AllWhitespace(s[..k])
  {
    forall i | 0 < i < k ensures IsWhitespace(s[i]) {
      assert s[i] == s[1..][..k - 1][i - 1];
    }
  }

  /** A whitespace run followed by a whitespace character is a whitespace run. */
  lemma WhitespaceSnoc(s: string, k: int)
    requires 0 <= k < |s| && IsWhitespace(s[|s| - 1]) && AllWhitespace(s[..|s| - 1][k..])
    ensures AllWhitespace(s[k..])
  {
    forall i | k <= i < |s| - 1 ensures IsWhitespace(s[i]) {
      assert s[i] == s[..|s| - 1][k..][i - k];
    }
  }

  /** Removes the trailing whitespace of `s`. */
  function TrimEnd(s: string): (r: string)
    ensures TrailingTrimmed(s, r)
    decreases |s|
  {
    if |s| > 0 && IsWhitespace(s[|s| - 1]) then
      var r := TrimEnd(s[..|s| - 1]);
      WhitespaceSnoc(s, |r|);
      r
    else s
  }

  /** `r` sits at offset `a` of `s`, with nothing but whitespace before and after it. */
  predicate PaddedAt(s: string, r: string, a: int) {
    && 0 <= a <= |s| - |r|
    && s[a..a + |r|] == r
    && AllWhitespace(s[..a])
    && AllWhitespace(s[a + |r|..])
  }

  /** Neither end of `r` is whitespace. */
  predicate Unpadded(r: string) {
    r == [] || (!IsWhitespace(r[0]) && !IsWhitespace(r[|r| - 1]))
  }

  /** `String.prototype.trim`: `s` without its leading and trailing whitespace. */
  function Trim(s: string): (r: string)
    ensures exists a :: PaddedAt(s, r, a)
    ensures Unpadded(r)
  {
    var t := TrimStart(s);
    var r := TrimEnd(t);
    TrimParts(s, t, r);
    r
  }

  /** Trimming the start of `s` to `t` and then the end of `t` to `r` leaves `r` padded
      inside `s` at the offset where `t` begins. */
  lemma TrimParts(s: string, t: string, r: string)
    requires LeadingTrimmed(s, t) && TrailingTrimmed(t, r)
    ensures exists a :: PaddedAt(s, r, a)
    ensures Unpadded(r)
  {
    var a := |s| - |t|;
    assert s[a..a + |r|] == r;
    assert s[a + |r|..] == t[|r|..];
    assert PaddedAt(s, r, a);
    if r != [] {
      assert r[0] == t[0];
    }
  }

  /** A whitespace-padded copy of an unpadded string trims to exactly that string:
      `Trim` is the only function with the two properties its contract states. */
  lemma TrimUnique(s: string, r: string, a: int)
    requires PaddedAt(s, r, a) && Unpadded(r)
    ensures Trim(s) == r
  {
    var t := Trim(s);
    var b :| PaddedAt(s, t, b);
    TrimEmptyIff(s);
    if r == [] {
      PaddedEmpty(s, a);
    } else {
      SolidUnique(s, r, a, t, b);
    }
  }

  /** Two non-empty unpadded strings padded inside the same string are the same. */
  lemma SolidUnique(s: string, r: string, a: int, t: string, b: int)
    requires PaddedAt(s, r, a) && Unpadded(r) && r != []
    requires PaddedAt(s, t, b) && Unpadded(t) && t != []
    ensures t == r
  {
    FirstSolid(s, r, a);
    FirstSolid(s, t, b);
    LastSolid(s, r, a);
    LastSolid(s, t, b);
    assert b == a;
    assert |t| == |r|;
  }

  /** In a padded unpadded non-empty string, the first solid character is at the offset. */
  lemma FirstSolid(s: string, r: string, a: int)
    requires PaddedAt(s, r, a) && Unpadded(r) && r != []
    ensures a < |s| && !IsWhitespace(s[a])
    ensures forall i :: 0 <= i < a ==> IsWhitespace(s[i])
  {
    assert s[a] == r[0];
    forall i | 0 <= i < a ensures IsWhitespace(s[i]) {
      assert s[..a][i] == s[i];
    }
  }

  /** In a padded unpadded non-empty string, the last solid character ends the string `r`. */
  lemma LastSolid(s: string, r: string, a: int)
    requires PaddedAt(s, r, a) && Unpadded(r) && r != []
    ensures !IsWhitespace(s[a + |r| - 1])
    ensures forall i :: a + |r| <= i < |s| ==> IsWhitespace(s[i])
  {
    assert s[a + |r| - 1] == r[|r| - 1];
    forall i | a + |r| <= i < |s| ensures IsWhitespace(s[i]) {
      assert s[a + |r|..][i - a - |r|] == s[i];
    }
  }

  /** Trimming leaves nothing exactly when the string is all whitespace. */
  lemma TrimEmptyIff(s: string)
    ensures Trim(s) == [] <==> AllWhitespace(s)
  {
    var t := Trim(s);
    var a :| PaddedAt(s, t, a);
    if t == [] {
      PaddedEmpty(s, a);
    } else {
      FirstSolid(s, t, a);
    }
  }

  /** A string with only whitespace around an empty middle is all whitespace. */
  lemma PaddedEmpty(s: string, a: int)
    requires PaddedAt(s, [], a)
    ensures AllWhitespace(s)
  {
    forall i | 0 <= i < |s| ensures IsWhitespace(s[i]) {
      if i < a { assert s[..a][i] == s[i]; } else { assert s[a..][i - a] == s[i]; }
    }
  }

  /** A string with no whitespace at either end is its own trimming. */
  lemma TrimUnpadded(s: string)
    requires Unpadded(s)
    ensures Trim(s) == s
  {
    assert s[0..0 + |s|] == s;
    assert PaddedAt(s, s, 0);
    TrimUnique(s, s, 0);
  }

  /** Whitespace padding around an unpadded string is exactly what trimming removes. */
  lemma TrimPadded(lead: string, r: string, trail: string)
    requires AllWhitespace(lead) && AllWhitespace(trail) && Unpadded(r)
    ensures Trim(lead + r + trail) == r
  {
    var s := lead + r + trail;
    assert s[..|lead|] == lead;
    assert s[|lead|..|lead| + |r|] == r;
    assert s[|lead| + |r|..] == trail;
    TrimUnique(s, r, |lead|);
  }

  /** Trimming twice is trimming once. */
  lemma TrimIdempotent(s: string)
    ensures Trim(Trim(s)) == Trim(s)
  {
    var t := Trim(s);
    assert t[0..0 + |t|] == t;
    assert PaddedAt(t, t, 0);
    TrimUnique(t, t, 0);
  }

  /** `String.prototype.startsWith`. */
  predicate StartsWith(s: string, prefix: string) {
    |prefix| <= |s| && s[..|prefix|] == prefix
  }

  /** A string starts with `prefix` exactly when it is `prefix` followed by the rest. */
  lemma StartsWithRest(s: string, prefix: string)
    ensures StartsWith(s, prefix) <==> |prefix| <= |s| && s == prefix + s[|prefix|..]
  {
    if |prefix| <= |s| {
      assert s == s[..|prefix|] + s[|prefix|..];
      assert (prefix + s[|prefix|..])[..|prefix|] == prefix;
    }
  }

  /** `sep` occurs in `s` starting at index `i`. */
  predicate MatchAt(s: string, sep: string, i: int) {
    0 <= i && i + |sep| <= |s| && s[i..i + |sep|] == sep
  }

  /** `sep` occurs somewhere in `s`. */
  predicate Contains(s: string, sep: string) {
    exists i :: 0 <= i <= |s| && MatchAt(s, sep, i)
  }

  /** The `StringIndexOf` step of `split`: the first index at or after `from` where
      the non-empty `sep` occurs, or `None` where ECMAScript's -1 stands. */
  function IndexOf(s: string, sep: string, from: nat): (r: Option<nat>)
    requires |sep| > 0
    ensures r.Some? ==> from <= r.value && MatchAt(s, sep, r.value)
    ensures r.Some? ==> forall k :: from <= k < r.value ==> !MatchAt(s, sep, k)
    ensures r.None? ==> forall k :: from <= k ==> !MatchAt(s, sep, k)
    decreases |s| - from
  {
    if from + |sep| > |s| then None
    else if MatchAt(s, sep, from) then Some(from)
    else IndexOf(s, sep, from + 1)
  }

  /** `Array.prototype.join`: the pieces with `sep` between neighbours. */
  function Join(pieces: seq<string>, sep: string): string
    decreases |pieces|
  {
    if |pieces| == 0 then ""
    else if |pieces| == 1 then pieces[0]
    else pieces[0] + sep + Join(pieces[1..], sep)
  }

  /** The pieces a left-to-right, non-overlapping scan for `sep` cuts: no piece holds
      `sep`, and no piece other than the last holds one that starts inside it and runs
      into the separator that follows it. */
  predicate LeftmostPieces(pieces: seq<string>, sep: string)
    requires |sep| > 0
  {
    && (forall k :: 0 <= k < |pieces| ==> !Contains(pieces[k], sep))
    && (forall k :: 0 <= k < |pieces| - 1 ==> !Contains(pieces[k] + sep[..|sep| - 1], sep))
  }

  /** `s.split(sep)` for a non-empty string separator: cut `s` at each occurrence of
      `sep` found scanning left to right, resuming after the occurrence. */
  function Split(s: string, sep: string): (pieces: seq<string>)
    requires |sep| > 0
    ensures |pieces| >= 1
    ensures Join(pieces, sep) == s
    ensures LeftmostPieces(pieces, sep)
    decreases |s|
  {
    match IndexOf(s, sep, 0)
    case None =>
      assert !Contains(s, sep);
      [s]
    case Some(j) =>
      var rest := Split(s[j + |sep|..], sep);
      var head := s[..j];
      NoMatchBefore(s, sep, j, head);
      assert s[..j + |sep| - 1] == head + sep[..|sep| - 1];
      NoMatchBefore(s, sep, j, head + sep[..|sep| - 1]);
      assert s == head + sep + s[j + |sep|..];
      assert ([head] + rest)[1..] == rest;
      [head] + rest
  }

  /** A prefix `t` of `s` ending before `j + |sep|` holds no `sep` when `s` holds none before `j`. */
  lemma NoMatchBefore(s: string, sep: string, j: int, t: string)
    requires |sep| > 0 && 0 <= j && |t| < j + |sep| && |t| <= |s| && t == s[..|t|]
    requires forall k :: 0 <= k < j ==> !MatchAt(s, sep, k)
    ensures !Contains(t, sep)
  {
    forall i | 0 <= i <= |t| ensures !MatchAt(t, sep, i) {
      if i + |sep| <= |t| {
        MatchInPrefix(s, t, sep, i);
      }
    }
  }

  /** A match that ends inside a prefix `t` of `s` is a match in `t`, and conversely. */
  lemma MatchInPrefix(s: string, t: string, sep: string, k: int)
    requires |t| <= |s| && t == s[..|t|] && 0 <= k && k + |sep| <= |t|
    ensures MatchAt(s, sep, k) <==> MatchAt(t, sep, k)
  {
    assert t[k..k + |sep|] == s[k..k + |sep|];
  }

  /** `Split` is the only leftmost cut of `s` that joins back to `s`. */
  lemma {:induction false} SplitUnique(s: string, sep: string, pieces: seq<string>)
    requires |sep| > 0 && |pieces| >= 1
    requires Join(pieces, sep) == s && LeftmostPieces(pieces, sep)
    ensures Split(s, sep) == pieces
    decreases |pieces|
  {
    if |pieces| == 1 {
      assert !Contains(s, sep);
    } else {
      FirstCut(s, sep, pieces);
      LeftmostTail(pieces, sep);
      SplitUnique(Join(pieces[1..], sep), sep, pieces[1..]);
      assert pieces == [pieces[0]] + pieces[1..];
    }
  }

  /** In a leftmost cut of two or more pieces, the first occurrence of `sep` ends the
      first piece. */
  lemma FirstCut(s: string, sep: string, pieces: seq<string>)
    requires |sep| > 0 && |pieces| >= 2
    requires Join(pieces, sep) == s && LeftmostPieces(pieces, sep)
    ensures IndexOf(s, sep, 0) == Some(|pieces[0]|)
    ensures s[..|pieces[0]|] == pieces[0]
    ensures s[|pieces[0]| + |sep|..] == Join(pieces[1..], sep)
  {
    var head := pieces[0];
    var rest := Join(pieces[1..], sep);
    var j := |head|;
    assert s == head + sep + rest;
    assert s[j..j + |sep|] == sep;
    var w := head + sep[..|sep| - 1];
    assert s[..|w|] == w;
    forall k | 0 <= k < j ensures !MatchAt(s, sep, k) {
      MatchInPrefix(s, w, sep, k);
    }
    assert MatchAt(s, sep, j);
    assert s[..j] == head;
    assert s[j + |sep|..] == rest;
  }

  /** Dropping the first piece of a leftmost cut leaves a leftmost cut. */
  lemma LeftmostTail(pieces: seq<string>, sep: string)
    requires |sep| > 0 && |pieces| >= 1 && LeftmostPieces(pieces, sep)
    ensures LeftmostPieces(pieces[1..], sep)
  {
    var tail := pieces[1..];
    forall k | 0 <= k < |tail| ensures tail[k] == pieces[k + 1] {
    }
  }

  /** A string without the separator's first character holds no separator. */
  lemma NotContainsWithoutFirst(s: string, sep: string)
    requires |sep| > 0 && sep[0] !in s
    ensures !Contains(s, sep)
  {
    forall i | 0 <= i <= |s| ensures !MatchAt(s, sep, i) {
      if i < |s| {
        assert s[i] != sep[0];
      }
    }
  }

  /** With a separator absent from `s`, splitting gives `s` alone, and only then. */
  lemma SplitSingleIff(s: string, sep: string)
    requires |sep| > 0
    ensures Split(s, sep) == [s] <==> !Contains(s, sep)
  {
    if !Contains(s, sep) {
      SplitUnique(s, sep, [s]);
    }
  }

  /** The number of occurrences of `sep` in `s` counted by a left-to-right scan that
      skips over each occurrence it counts. */
  function Occurrences(s: string, sep: string): nat
    requires |sep| > 0
    decreases |s|
  {
    if |s| < |sep| then 0
    else if s[..|sep|] == sep then 1 + Occurrences(s[|sep|..], sep)
    else Occurrences(s[1..], sep)
  }

  /** Skipping a stretch with no occurrence starting in it does not change the count. */
  lemma {:induction false} OccurrencesSkip(s: string, sep: string, k: nat)
    requires |sep| > 0 && k <= |s|
    requires forall i :: 0 <= i < k ==> !MatchAt(s, sep, i)
    ensures Occurrences(s, sep) == Occurrences(s[k..], sep)
    decreases k
  {
    if k == 0 {
      assert s[0..] == s;
    } else if |s| < |sep| {
      OccurrencesShort(s[k..], sep);
    } else {
      assert !MatchAt(s, sep, 0);
      assert s[..|sep|] != sep;
      forall i | 0 <= i < k - 1 ensures !MatchAt(s[1..], sep, i) {
        if MatchAt(s[1..], sep, i) {
          assert s[1..][i..i + |sep|] == s[i + 1..i + 1 + |sep|];
          assert MatchAt(s, sep, i + 1);
        }
      }
      OccurrencesSkip(s[1..], sep, k - 1);
      assert s[1..][k - 1..] == s[k..];
    }
  }

  /** A string shorter than the separator holds none of it. */
  lemma OccurrencesShort(s: string, sep: string)
    requires |sep| > 0 && |s| < |sep|
    ensures Occurrences(s, sep) == 0
  {
  }

  /** Splitting gives one piece more than there are occurrences of the separator. */
  lemma {:induction false} SplitCount(s: string, sep: string)
    requires |sep| > 0
    ensures |Split(s, sep)| == Occurrences(s, sep) + 1
    decreases |s|
  {
    match IndexOf(s, sep, 0)
    case None =>
      OccurrencesSkip(s, sep, |s|);
      assert |s[|s|..]| == 0;
    case Some(j) =>
      OccurrencesSkip(s, sep, j);
      var t := s[j..];
      assert t[..|sep|] == sep;
      assert t[|sep|..] == s[j + |sep|..];
      SplitCount(s[j + |sep|..], sep);
  }

  /** For a one-character separator the scan counts every occurrence of the character. */
  lemma {:induction false} OccurrencesOfChar(s: string, c: char)
    ensures Occurrences(s, [c]) == multiset(s)[c]
    decreases |s|
  {
    if |s| > 0 {
      assert s == [s[0]] + s[1..];
      assert multiset(s) == multiset([s[0]]) + multiset(s[1..]);
      assert s[..1] == [s[0]];
      OccurrencesOfChar(s[1..], c);
    }
  }

  /** A one-character separator occurs in `s` exactly when the character does. */
  lemma ContainsCharIff(s: string, c: char)
    ensures Contains(s, [c]) <==> c in s
  {
    if c in s {
      var i :| 0 <= i < |s| && s[i] == c;
      assert s[i..i + 1] == [c];
      assert MatchAt(s, [c], i);
    }
    if Contains(s, [c]) {
      var i :| 0 <= i <= |s| && MatchAt(s, [c], i);
      assert s[i] == s[i..i + 1][0];
    }
  }
}
