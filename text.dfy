/**
 * The Python `str` operations the retriever relies on, written out on
 * `seq<char>`: `isspace`, `lower`, the `in` substring test, `split()` on
 * whitespace, `split(sep)` on a literal separator, `strip()`, `sep.join`
 * and `endswith`.
 */
module Text {

  /** `str.isspace()` for one character: the separators of `split()` and `strip()`. */
  predicate IsSpace(c: char) {
    || c == ' '
    || ('\t' <= c <= '\r')
    || ('\U{1C}' <= c <= '\U{1F}')
    || c == '\U{85}' || c == '\U{A0}' || c == '\U{1680}'
    || ('\U{2000}' <= c <= '\U{200A}')
    || c == '\U{2028}' || c == '\U{2029}' || c == '\U{202F}' || c == '\U{205F}' || c == '\U{3000}'
  }

  /** A token produced by `split()`: non-empty and free of whitespace. */
  predicate IsWord(w: string) {
    w != [] && forall i :: 0 <= i < |w| ==> !IsSpace(w[i])
  }

  predicate AllSpace(s: string) {
    forall i :: 0 <= i < |s| ==> IsSpace(s[i])
  }

  // ---------------------------------------------------------------- lower()

  /** `str.lower()` on one character, for the ASCII letters. */
  function LowerChar(c: char): (d: char)
    ensures !('A' <= d <= 'Z')
    ensures IsSpace(d) == IsSpace(c)
  {
    if 'A' <= c <= 'Z' then (c as int + 32) as char else c
  }

  function Lower(s: string): (r: string)
    ensures |r| == |s|
    ensures forall i :: 0 <= i < |s| ==> r[i] == LowerChar(s[i])
  {
    seq(|s|, i requires 0 <= i < |s| => LowerChar(s[i]))
  }

  // ------------------------------------------------------------ `w in t`

  /** Python's `w in t` on strings: `w` occurs somewhere in `t` as a contiguous piece. */
  function Contains(w: string, t: string): bool
    decreases |t|
  {
    w <= t || (t != [] && Contains(w, t[1..]))
  }

  ghost predicate OccursAt(w: string, t: string, i: int) {
    0 <= i && i + |w| <= |t| && t[i..i + |w|] == w
  }

  /** An occurrence at a position makes the executable test succeed. */
  lemma {:induction false} ContainsAt(w: string, t: string, i: int)
    requires OccursAt(w, t, i)
    ensures Contains(w, t)
    decreases i
  {
    if i == 0 {
      assert w == t[..|w|];
    } else {
      assert t[1..][i - 1..i - 1 + |w|] == t[i..i + |w|];
      ContainsAt(w, t[1..], i - 1);
    }
  }

  /** A successful test has an occurrence position. */
  lemma {:induction false} ContainsPosition(w: string, t: string) returns (i: int)
    requires Contains(w, t)
    ensures OccursAt(w, t, i)
    decreases |t|
  {
    if w <= t {
      i := 0;
      assert t[..|w|] == w;
    } else {
      var j := ContainsPosition(w, t[1..]);
      assert t[1..][j..j + |w|] == t[j + 1..j + 1 + |w|];
      i := j + 1;
    }
  }

  /** The executable test agrees with the positional definition, in both directions. */
  lemma ContainsIff(w: string, t: string)
    ensures Contains(w, t) <==> exists i :: OccursAt(w, t, i)
  {
    if Contains(w, t) {
      var i := ContainsPosition(w, t);
    }
    if exists i :: OccursAt(w, t, i) {
      var i :| OccursAt(w, t, i);
      ContainsAt(w, t, i);
    }
  }

  /** An occurrence inside a slice of `t` is an occurrence in `t`. */
  lemma ContainsInSlice(w: string, t: string, lo: int, hi: int)
    requires 0 <= lo <= hi <= |t|
    requires Contains(w, t[lo..hi])
    ensures Contains(w, t)
  {
    var i := ContainsPosition(w, t[lo..hi]);
    forall k | 0 <= k < |w| ensures t[lo + i + k] == w[k] {
      assert t[lo..hi][i..i + |w|][k] == w[k];
    }
    assert t[lo + i..lo + i + |w|] == w;
    ContainsAt(w, t, lo + i);
  }

  /** Occurrence is transitive: a piece of a piece of `t` is a piece of `t`. */
  lemma ContainsTrans(a: string, b: string, c: string)
    requires Contains(a, b) && Contains(b, c)
    ensures Contains(a, c)
  {
    var i := ContainsPosition(b, c);
    assert c[i..i + |b|] == b;
    ContainsInSlice(a, c, i, i + |b|);
  }

  // ------------------------------------------------------------ counting spans

  /** Length of the longest prefix of `s` made of non-whitespace characters. */
  function TokenLen(s: string): (n: nat)
    ensures n <= |s|
    ensures forall i :: 0 <= i < n ==> !IsSpace(s[i])
    ensures n < |s| ==> IsSpace(s[n])
  {
    if s == [] || IsSpace(s[0]) then 0 else 1 + TokenLen(s[1..])
  }

  // ---------------------------------------------------------------- split()

  /** `str.split()` with no argument: the maximal runs of non-whitespace, in order. */
  function Words(s: string): (ws: seq<string>)
    ensures forall k :: 0 <= k < |ws| ==> IsWord(ws[k])
    decreases |s|
  {
    if s == [] then []
    else if IsSpace(s[0]) then Words(s[1..])
    else
      var n := TokenLen(s);
      [s[..n]] + Words(s[n..])
  }

  /** `split()` yields no token exactly when the text is empty or all whitespace. */
  lemma {:induction false} WordsEmptyIff(s: string)
    ensures Words(s) == [] <==> AllSpace(s)
    decreases |s|
  {
    if s != [] && IsSpace(s[0]) {
      WordsEmptyIff(s[1..]);
      assert AllSpace(s) <==> AllSpace(s[1..]) by {
        if AllSpace(s[1..]) {
          forall i | 0 <= i < |s| ensures IsSpace(s[i]) {
            if i > 0 { assert s[i] == s[1..][i - 1]; }
          }
        }
      }
    }
  }

  lemma {:induction false} WordsAfterSpaces(sp: string, s: string)
    requires AllSpace(sp)
    ensures Words(sp + s) == Words(s)
    decreases |sp|
  {
    if sp != [] {
      assert (sp + s)[1..] == sp[1..] + s;
      WordsAfterSpaces(sp[1..], s);
    } else {
      assert sp + s == s;
    }
  }

  function JoinWith(parts: seq<string>, sep: string): string {
    if parts == [] then []
    else if |parts| == 1 then parts[0]
    else parts[0] + sep + JoinWith(parts[1..], sep)
  }

  /** A token followed by whitespace (or by nothing) is the first token. */
  lemma {:induction false} TokenLenOfWord(w: string, rest: string)
    requires IsWord(w)
    requires rest == [] || IsSpace(rest[0])
    ensures TokenLen(w + rest) == |w|
    decreases |w|
  {
    var s := w + rest;
    assert s[0] == w[0];
    if |w| > 1 {
      assert s[1..] == w[1..] + rest;
      TokenLenOfWord(w[1..], rest);
    } else {
      assert s[1..] == rest;
    }
  }

  /** `split()` of a token, a space and more text is the token, then `split()` of the rest. */
  lemma WordsOfWordThen(w: string, rest: string)
    requires IsWord(w)
    requires rest == [] || IsSpace(rest[0])
    ensures Words(w + rest) == [w] + Words(rest)
  {
    var s := w + rest;
    TokenLenOfWord(w, rest);
    assert s[0] == w[0];
    assert s[..|w|] == w;
    assert s[|w|..] == rest;
  }

  /** Joining tokens with single spaces and splitting again gives the tokens back. */
  lemma {:induction false} WordsOfJoin(ws: seq<string>)
    requires forall k :: 0 <= k < |ws| ==> IsWord(ws[k])
    ensures Words(JoinWith(ws, " ")) == ws
  {
    if |ws| == 1 {
      WordsOfWordThen(ws[0], []);
      assert ws[0] + [] == ws[0];
    } else if |ws| > 1 {
      var tail := JoinWith(ws[1..], " ");
      assert JoinWith(ws, " ") == ws[0] + (" " + tail);
      WordsOfWordThen(ws[0], " " + tail);
      WordsAfterSpaces(" ", tail);
      WordsOfJoin(ws[1..]);
      assert ws == [ws[0]] + ws[1..];
    }
  }

  // ---------------------------------------------------------- split(sep)

  /**
   * `str.split(sep)` for a non-empty literal separator: cut at every
   * occurrence of `sep`, scanning left to right without overlap.
   */
  function Split(s: string, sep: string): (pieces: seq<string>)
    requires sep != []
    ensures |pieces| >= 1
    ensures pieces[0] <= s
    decreases |s|
  {
    if |s| < |sep| then [s]
    else if s[..|sep|] == sep then [[]] + Split(s[|sep|..], sep)
    else
      var rest := Split(s[1..], sep);
      [[s[0]] + rest[0]] + rest[1..]
  }

  /** Putting a character in front of the first piece puts it in front of the joined text. */
  lemma JoinPrepend(c: char, pieces: seq<string>, sep: string)
    requires pieces != []
    ensures JoinWith([[c] + pieces[0]] + pieces[1..], sep) == [c] + JoinWith(pieces, sep)
  {
    var moved := [[c] + pieces[0]] + pieces[1..];
    assert moved[0] == [c] + pieces[0];
    assert moved[1..] == pieces[1..];
  }

  /** Joining the pieces with the separator rebuilds the text. */
  lemma {:induction false} SplitJoin(s: string, sep: string)
    requires sep != []
    ensures JoinWith(Split(s, sep), sep) == s
    decreases |s|
  {
    if |s| < |sep| {
    } else if s[..|sep|] == sep {
      SplitJoin(s[|sep|..], sep);
      var rest := Split(s[|sep|..], sep);
      var pieces := [[]] + rest;
      assert pieces[1..] == rest;
      assert JoinWith(pieces, sep) == [] + sep + JoinWith(rest, sep);
      assert s == sep + s[|sep|..];
    } else {
      SplitJoin(s[1..], sep);
      JoinPrepend(s[0], Split(s[1..], sep), sep);
      assert s == [s[0]] + s[1..];
    }
  }

  /** No piece contains the separator. */
  lemma {:induction false} SplitPiecesAvoidSep(s: string, sep: string)
    requires sep != []
    ensures forall k :: 0 <= k < |Split(s, sep)| ==> !Contains(sep, Split(s, sep)[k])
    decreases |s|
  {
    var pieces := Split(s, sep);
    if |s| < |sep| {
      if Contains(sep, s) {
        ContainsIff(sep, s);
      }
    } else if s[..|sep|] == sep {
      SplitPiecesAvoidSep(s[|sep|..], sep);
      assert !Contains(sep, []);
      forall k | 1 <= k < |pieces| ensures !Contains(sep, pieces[k]) {
        assert pieces[k] == Split(s[|sep|..], sep)[k - 1];
      }
    } else {
      SplitPiecesAvoidSep(s[1..], sep);
      var rest := Split(s[1..], sep);
      forall k | 1 <= k < |pieces| ensures !Contains(sep, pieces[k]) {
        assert pieces[k] == rest[k];
      }
      var first := [s[0]] + rest[0];
      assert first[1..] == rest[0];
      assert first <= s;
      assert !(sep <= first);
    }
  }

  /** Every piece is a contiguous part of the text. */
  lemma {:induction false} SplitPiecesOccur(s: string, sep: string)
    requires sep != []
    ensures forall k :: 0 <= k < |Split(s, sep)| ==> Contains(Split(s, sep)[k], s)
    decreases |s|
  {
    var pieces := Split(s, sep);
    if |s| < |sep| {
    } else if s[..|sep|] == sep {
      SplitPiecesOccur(s[|sep|..], sep);
      forall k | 0 <= k < |pieces| ensures Contains(pieces[k], s) {
        if k > 0 {
          assert pieces[k] == Split(s[|sep|..], sep)[k - 1];
          assert s[|sep|..|s|] == s[|sep|..];
          ContainsInSlice(pieces[k], s, |sep|, |s|);
        }
      }
    } else {
      SplitPiecesOccur(s[1..], sep);
      var rest := Split(s[1..], sep);
      forall k | 0 <= k < |pieces| ensures Contains(pieces[k], s) {
        if k > 0 {
          assert pieces[k] == rest[k];
          assert s[1..|s|] == s[1..];
          ContainsInSlice(pieces[k], s, 1, |s|);
        }
      }
    }
  }

  // ---------------------------------------------------------------- strip()

  /** `str.lstrip()`: what is left after the leading whitespace. */
  function TrimStart(s: string): (r: string)
    ensures |r| <= |s| && r == s[|s| - |r|..]
    ensures forall i :: 0 <= i < |s| - |r| ==> IsSpace(s[i])
    ensures r == [] || !IsSpace(r[0])
    decreases |s|
  {
    if s != [] && IsSpace(s[0]) then TrimStart(s[1..]) else s
  }

  /** `str.rstrip()`: what is left before the trailing whitespace. */
  function TrimEnd(s: string): (r: string)
    ensures r <= s
    ensures forall i :: |r| <= i < |s| ==> IsSpace(s[i])
    ensures r == [] || !IsSpace(r[|r| - 1])
    decreases |s|
  {
    if s != [] && IsSpace(s[|s| - 1]) then TrimEnd(s[..|s| - 1]) else s
  }

  /** `str.strip()` with no argument: drop leading and trailing whitespace. */
  function Strip(s: string): (r: string)
    ensures r == [] || (!IsSpace(r[0]) && !IsSpace(r[|r| - 1]))
  {
    TrimEnd(TrimStart(s))
  }

  /** What `strip()` keeps is a contiguous part of the text. */
  lemma StripOccurs(s: string)
    ensures Contains(Strip(s), s)
  {
    var t := TrimStart(s);
    var r := TrimEnd(t);
    assert t[..|r|] == r;
    assert s[|s| - |t|..|s| - |t| + |r|] == r;
    ContainsAt(r, s, |s| - |t|);
  }

  lemma {:induction false} TrimStartKeepsWord(w: string, s: string)
    requires IsWord(w) && Contains(w, s)
    ensures Contains(w, TrimStart(s))
    decreases |s|
  {
    if s != [] && IsSpace(s[0]) {
      assert !(w <= s) by { assert !IsSpace(w[0]); }
      TrimStartKeepsWord(w, s[1..]);
    }
  }

  /** A token whose last character is not whitespace, found in a text ending in whitespace, is found before that end. */
  lemma {:induction false} ContainsBeforeLast(w: string, s: string)
    requires IsWord(w) && Contains(w, s)
    requires s != [] && IsSpace(s[|s| - 1])
    ensures Contains(w, s[..|s| - 1])
    decreases |s|
  {
    var init := s[..|s| - 1];
    if w <= s {
      assert s[|w| - 1] == w[|w| - 1];
      assert |w| < |s|;
      assert w <= init;
    } else {
      ContainsBeforeLast(w, s[1..]);
      assert s[1..][..|s| - 2] == init[1..];
    }
  }

  lemma {:induction false} TrimEndKeepsWord(w: string, s: string)
    requires IsWord(w) && Contains(w, s)
    ensures Contains(w, TrimEnd(s))
    decreases |s|
  {
    if s != [] && IsSpace(s[|s| - 1]) {
      ContainsBeforeLast(w, s);
      TrimEndKeepsWord(w, s[..|s| - 1]);
    }
  }

  /** A whitespace-free token found in a text is still found after `strip()`. */
  lemma StripKeepsWord(w: string, s: string)
    requires IsWord(w) && Contains(w, s)
    ensures Contains(w, Strip(s))
  {
    TrimStartKeepsWord(w, s);
    TrimEndKeepsWord(w, TrimStart(s));
  }

  lemma {:induction false} LowerTrimStart(s: string)
    ensures Lower(TrimStart(s)) == TrimStart(Lower(s))
    decreases |s|
  {
    var low := Lower(s);
    if s != [] {
      assert IsSpace(low[0]) == IsSpace(s[0]);
      if IsSpace(s[0]) {
        assert low[1..] == Lower(s[1..]);
        LowerTrimStart(s[1..]);
      }
    }
  }

  lemma {:induction false} LowerTrimEnd(s: string)
    ensures Lower(TrimEnd(s)) == TrimEnd(Lower(s))
    decreases |s|
  {
    var low := Lower(s);
    if s != [] {
      assert IsSpace(low[|s| - 1]) == IsSpace(s[|s| - 1]);
      if IsSpace(s[|s| - 1]) {
        assert low[..|s| - 1] == Lower(s[..|s| - 1]);
        LowerTrimEnd(s[..|s| - 1]);
      }
    }
  }

  /** Lower-casing and stripping commute, since `lower()` keeps whitespace as it is. */
  lemma LowerStrip(s: string)
    ensures Lower(Strip(s)) == Strip(Lower(s))
  {
    LowerTrimEnd(TrimStart(s));
    LowerTrimStart(s);
  }

  // -------------------------------------------------------------- endswith

  predicate EndsWith(s: string, suffix: string) {
    |suffix| <= |s| && s[|s| - |suffix|..] == suffix
  }
}
