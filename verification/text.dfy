/**
 * The few string operations the keyword router relies on, over ASCII:
 * lower-casing, stripping whitespace, substring tests and joining.
 * The substring test and stripping are each paired with a declarative
 * definition and a lemma that connects the two.
 */
module Text {

  /** A character that `str.isspace()` accepts, restricted to ASCII. */
  predicate IsSpace(c: char) {
    c == ' ' || c == '\t' || c == '\n' || c == '\r' || c == '\U{0B}' || c == '\U{0C}'
    || ('\U{1C}' <= c <= '\U{1F}')
  }

  predicate IsUpper(c: char) {
    'A' <= c <= 'Z'
  }

  /** True when every character of `s` is whitespace (so `s.strip()` is empty). */
  predicate IsBlank(s: string) {
    forall i :: 0 <= i < |s| ==> IsSpace(s[i])
  }

  // ---------------------------------------------------------------------
  // Lower-casing

  /** `str.lower()` on one ASCII character. */
  function LowerChar(c: char): (r: char)
    ensures !IsUpper(r)
    ensures IsUpper(c) ==> r as int == c as int + 32
    ensures !IsUpper(c) ==> r == c
    ensures IsSpace(r) <==> IsSpace(c)
  {
    if IsUpper(c) then (c as int + 32) as char else c
  }

  /** `str.lower()`: lower-cases every character, keeping the length. */
  function Lower(s: string): (r: string)
    ensures |r| == |s|
    ensures forall i :: 0 <= i < |s| ==> r[i] == LowerChar(s[i])
  {
    if s == [] then [] else [LowerChar(s[0])] + Lower(s[1..])
  }

  /** A string already in lower case is left alone by `Lower`. */
  predicate IsLower(s: string) {
    forall i :: 0 <= i < |s| ==> !IsUpper(s[i])
  }

  lemma {:induction false} LowerFixesLower(s: string)
    requires IsLower(s)
    ensures Lower(s) == s
  {
    if s != [] {
      LowerFixesLower(s[1..]);
    }
  }

  /** Lower-casing twice is lower-casing once. */
  lemma LowerIdempotent(s: string)
    ensures Lower(Lower(s)) == Lower(s)
  {
    LowerFixesLower(Lower(s));
  }

  lemma {:induction false} LowerOfSlice(s: string, a: nat, b: nat)
    requires a <= b <= |s|
    ensures Lower(s[a..b]) == Lower(s)[a..b]
  {
    var l, m := Lower(s[a..b]), Lower(s)[a..b];
    assert |l| == |m|;
    forall i | 0 <= i < |l| ensures l[i] == m[i] {
      assert s[a..b][i] == s[a + i];
    }
  }

  // ---------------------------------------------------------------------
  // Substring test: Python's `w in s`

  /** `w` occurs in `s` starting at index `i`. */
  ghost predicate OccursAt(s: string, w: string, i: int) {
    0 <= i && i + |w| <= |s| && s[i..i + |w|] == w
  }

  /**
   * The executable substring test, scanning `s` from the left. A word longer
   * than `s` never occurs in it; the empty word occurs in every string.
   */
  function Contains(s: string, w: string): (b: bool)
    ensures b ==> |w| <= |s|
    ensures w == [] ==> b
    decreases |s|
  {
    w <= s || (s != [] && Contains(s[1..], w))
  }

  /** `Contains` is exactly "some occurrence exists", as Python's `in` on strings. */
  lemma {:induction false} ContainsIff(s: string, w: string)
    ensures Contains(s, w) <==> exists i :: OccursAt(s, w, i)
    decreases |s|
  {
    if w <= s {
      assert s[0..|w|] == w;
      assert OccursAt(s, w, 0);
    } else if s == [] {
      assert |w| > 0;
      forall i ensures !OccursAt(s, w, i) {
      }
    } else {
      ContainsIff(s[1..], w);
      assert !OccursAt(s, w, 0);
      forall i | 1 <= i
        ensures OccursAt(s, w, i) <==> OccursAt(s[1..], w, i - 1)
      {
        if i + |w| <= |s| {
          assert s[i..i + |w|] == s[1..][i - 1..i - 1 + |w|];
        }
      }
      if Contains(s, w) {
        var j :| OccursAt(s[1..], w, j);
        assert OccursAt(s, w, j + 1);
      } else {
        forall i ensures !OccursAt(s, w, i) {
          if i >= 1 {
            assert !OccursAt(s[1..], w, i - 1);
          }
        }
      }
    }
  }

  lemma ContainsAt(s: string, w: string, i: nat)
    requires OccursAt(s, w, i)
    ensures Contains(s, w)
  {
    ContainsIff(s, w);
  }

  /** A substring of a substring is a substring. */
  lemma ContainsTransitive(s: string, u: string, w: string)
    requires Contains(s, u) && Contains(u, w)
    ensures Contains(s, w)
  {
    ContainsIff(s, u);
    ContainsIff(u, w);
    var i :| OccursAt(s, u, i);
    var j :| OccursAt(u, w, j);
    forall t | 0 <= t < |w| ensures s[i + j + t] == w[t] {
      assert u[j + t] == w[t];
      assert s[i..i + |u|][j + t] == s[i + j + t];
    }
    assert s[i + j..i + j + |w|] == w;
    ContainsAt(s, w, i + j);
  }

  /**
   * `any(w in s for w in words)`: tries the words in order and stops at the
   * first one that occurs; true exactly when some word of the list occurs.
   */
  function ContainsAny(s: string, words: seq<string>): (b: bool)
    ensures b <==> exists k :: 0 <= k < |words| && Contains(s, words[k])
    decreases |words|
  {
    if words == [] then false
    else if Contains(s, words[0]) then true
    else
      var rest := ContainsAny(s, words[1..]);
      assert forall k :: 1 <= k < |words| ==> words[k] == words[1..][k - 1];
      rest
  }

  /** A string with no whitespace in it. */
  predicate IsWord(w: string) {
    forall i :: 0 <= i < |w| ==> !IsSpace(w[i])
  }

  /**
   * Cutting whitespace off both ends of `s` does not change which non-empty
   * words it contains.
   */
  lemma ContainsWordInCore(s: string, a: nat, b: nat, w: string)
    requires a <= b <= |s|
    requires forall i :: 0 <= i < a ==> IsSpace(s[i])
    requires forall i :: b <= i < |s| ==> IsSpace(s[i])
    requires IsWord(w) && w != []
    ensures Contains(s[a..b], w) <==> Contains(s, w)
  {
    ContainsIff(s[a..b], w);
    ContainsIff(s, w);
    if Contains(s[a..b], w) {
      var i :| OccursAt(s[a..b], w, i);
      OccursShift(s, a, b, w, i);
    }
    if Contains(s, w) {
      var i :| OccursAt(s, w, i);
      OccursInside(s, a, b, w, i);
    }
  }

  lemma OccursShift(s: string, a: nat, b: nat, w: string, i: int)
    requires a <= b <= |s| && OccursAt(s[a..b], w, i)
    ensures OccursAt(s, w, a + i)
  {
    forall t | 0 <= t < |w| ensures s[a + i + t] == w[t] {
      assert s[a..b][i..i + |w|][t] == w[t];
    }
    assert s[a + i..a + i + |w|] == w;
  }

  lemma OccursInside(s: string, a: nat, b: nat, w: string, i: int)
    requires a <= b <= |s|
    requires forall i :: 0 <= i < a ==> IsSpace(s[i])
    requires forall i :: b <= i < |s| ==> IsSpace(s[i])
    requires IsWord(w) && w != []
    requires OccursAt(s, w, i)
    ensures OccursAt(s[a..b], w, i - a)
  {
    assert s[i] == s[i..i + |w|][0] == w[0];
    assert s[i + |w| - 1] == s[i..i + |w|][|w| - 1] == w[|w| - 1];
    assert !IsSpace(s[i]) && !IsSpace(s[i + |w| - 1]);
    assert a <= i && i + |w| <= b;
    forall t | 0 <= t < |w| ensures s[a..b][i - a + t] == w[t] {
      assert s[i..i + |w|][t] == w[t];
    }
    assert s[a..b][i - a..i - a + |w|] == w;
  }

  // ---------------------------------------------------------------------
  // Stripping: Python's `s.strip()` with no argument

  function Strip(s: string): (r: string)
    ensures r == [] <==> IsBlank(s)
    ensures r != [] ==> !IsSpace(r[0]) && !IsSpace(r[|r| - 1])
    decreases |s|
  {
    if s != [] && IsSpace(s[0]) then Strip(s[1..])
    else if s != [] && IsSpace(s[|s| - 1]) then Strip(s[..|s| - 1])
    else s
  }

  /**
   * `s[a..b]` is what is left after dropping the longest whitespace prefix
   * and the longest whitespace suffix of `s`.
   */
  ghost predicate StrippedAt(s: string, a: int, b: int) {
    && 0 <= a <= b <= |s|
    && (forall i :: 0 <= i < a ==> IsSpace(s[i]))
    && (forall i :: b <= i < |s| ==> IsSpace(s[i]))
    && (a < b ==> !IsSpace(s[a]) && !IsSpace(s[b - 1]))
  }

  lemma {:induction false} StripIsCore(s: string)
    ensures exists a, b :: StrippedAt(s, a, b) && Strip(s) == s[a..b]
    decreases |s|
  {
    if s != [] && IsSpace(s[0]) {
      StripIsCore(s[1..]);
      var a, b :| StrippedAt(s[1..], a, b) && Strip(s[1..]) == s[1..][a..b];
      StrippedAtAfterFirst(s, a, b);
    } else if s != [] && IsSpace(s[|s| - 1]) {
      StripIsCore(s[..|s| - 1]);
      var a, b :| StrippedAt(s[..|s| - 1], a, b) && Strip(s[..|s| - 1]) == s[..|s| - 1][a..b];
      StrippedAtBeforeLast(s, a, b);
    } else {
      assert s[0..|s|] == s;
      assert StrippedAt(s, 0, |s|);
    }
  }

  lemma StrippedAtAfterFirst(s: string, a: int, b: int)
    requires s != [] && IsSpace(s[0]) && StrippedAt(s[1..], a, b)
    ensures StrippedAt(s, a + 1, b + 1) && s[1..][a..b] == s[a + 1..b + 1]
  {
    var t := s[1..];
    forall i | 0 <= i < a + 1 ensures IsSpace(s[i]) {
      if i > 0 { assert s[i] == t[i - 1]; }
    }
    forall i | b + 1 <= i < |s| ensures IsSpace(s[i]) {
      assert s[i] == t[i - 1];
    }
  }

  lemma StrippedAtBeforeLast(s: string, a: int, b: int)
    requires s != [] && IsSpace(s[|s| - 1]) && StrippedAt(s[..|s| - 1], a, b)
    ensures StrippedAt(s, a, b) && s[..|s| - 1][a..b] == s[a..b]
  {
    var t := s[..|s| - 1];
    forall i | b <= i < |s| ensures IsSpace(s[i]) {
      if i < |t| { assert s[i] == t[i]; }
    }
  }

  // ---------------------------------------------------------------------
  // Joining: Python's `sep.join(parts)`

  function Join(sep: string, parts: seq<string>): (r: string)
    ensures |parts| > 0 ==> parts[0] <= r
    decreases |parts|
  {
    if |parts| == 0 then ""
    else if |parts| == 1 then parts[0]
    else parts[0] + sep + Join(sep, parts[1..])
  }

  /** Total length of the parts of a list. */
  function TotalLength(parts: seq<string>): nat {
    if parts == [] then 0 else |parts[0]| + TotalLength(parts[1..])
  }

  /** A join holds every part, plus one separator between each neighbouring pair. */
  lemma {:induction false} JoinLength(sep: string, parts: seq<string>)
    requires |parts| > 0
    ensures |Join(sep, parts)| == TotalLength(parts) + (|parts| - 1) * |sep|
    decreases |parts|
  {
    if |parts| > 1 {
      JoinLength(sep, parts[1..]);
    }
  }

  /** Every part occurs in the join, at an offset that no other part disturbs. */
  lemma {:induction false} JoinContainsEach(sep: string, parts: seq<string>, k: nat)
    requires k < |parts|
    ensures Contains(Join(sep, parts), parts[k])
    decreases |parts|
  {
    var r := Join(sep, parts);
    if k == 0 {
      assert r[0..|parts[0]|] == parts[0];
      ContainsAt(r, parts[0], 0);
    } else {
      JoinContainsEach(sep, parts[1..], k - 1);
      var rest := Join(sep, parts[1..]);
      assert r == (parts[0] + sep) + rest;
      ContainsIff(rest, parts[k]);
      var i :| OccursAt(rest, parts[k], i);
      var off := |parts[0] + sep|;
      assert r[off + i..off + i + |parts[k]|] == rest[i..i + |parts[k]|];
      ContainsAt(r, parts[k], off + i);
    }
  }
}
