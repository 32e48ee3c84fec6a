/** The JavaScript string built-ins the new-tab page relies on.
    A Dafny `char` is a Unicode scalar value, so a string here matches a
    JavaScript string, and its offsets match JavaScript's UTF-16 offsets,
    only when it holds no surrogate pair (no character outside the Basic
    Multilingual Plane); white space and case folding are restricted to
    ASCII. */
module JsString {

  /** The characters `String.prototype.trim` removes, ASCII subset:
      space, tab, line feed, vertical tab, form feed, carriage return. */
  predicate IsSpace(c: char) {
    c == ' ' || '\t' <= c <= '\r'
  }

  /** `s.startsWith(p)`. */
  predicate StartsWith(s: string, p: string) {
    |p| <= |s| && s[..|p|] == p
  }

  /** `s.slice(a, b)` for offsets within the string: empty when `a >= b`. */
  function Slice(s: string, a: nat, b: nat): (r: string)
    requires a <= |s| && b <= |s|
    ensures a < b ==> r == s[a..b]
    ensures b <= a ==> r == []
  {
    if a < b then s[a..b] else []
  }

  /** Leading white space removed: `r` is the suffix of `s` that starts at its
      first non-space character. */
  function TrimStart(s: string): (r: string)
    ensures |r| <= |s| && r == s[|s| - |r|..]
    ensures forall i :: 0 <= i < |s| - |r| ==> IsSpace(s[i])
    ensures r == [] || !IsSpace(r[0])
  {
    if |s| > 0 && IsSpace(s[0]) then TrimStart(s[1..]) else s
  }

  /** Trailing white space removed: `r` is the prefix of `s` that ends at its
      last non-space character. */
  function TrimEnd(s: string): (r: string)
    ensures |r| <= |s| && r == s[..|r|]
    ensures forall i :: |r| <= i < |s| ==> IsSpace(s[i])
    ensures r == [] || !IsSpace(r[|r| - 1])
  {
    if |s| > 0 && IsSpace(s[|s| - 1]) then TrimEnd(s[..|s| - 1]) else s
  }

  /** `r` is the span of `s` from offset `a` on, with only white space
      before and after it in `s`, and it neither starts nor ends with white
      space. */
  ghost predicate TrimmedSpan(s: string, a: nat, r: string) {
    && a + |r| <= |s| && r == s[a..a + |r|]
    && (forall i :: 0 <= i < a ==> IsSpace(s[i]))
    && (forall i :: a + |r| <= i < |s| ==> IsSpace(s[i]))
    && (r == [] || (!IsSpace(r[0]) && !IsSpace(r[|r| - 1])))
  }

  /** `s.trim()`: no longer than `s`, and neither starting nor ending with
      white space; `TrimIsSpan` places it within `s`. */
  function Trim(s: string): (r: string)
    ensures |r| <= |s|
    ensures r == [] || (!IsSpace(r[0]) && !IsSpace(r[|r| - 1]))
  {
    var t := TrimStart(s);
    var r := TrimEnd(t);
    assert r == [] || r[0] == t[0];
    r
  }

  /** The trimmed text is a span of `s` with only white space before and
      after it. */
  lemma {:induction false} TrimIsSpan(s: string)
    ensures exists a: nat :: TrimmedSpan(s, a, Trim(s))
  {
    var t := TrimStart(s);
    SpanOfTrims(s, t, TrimEnd(t));
    assert TrimmedSpan(s, |s| - |t|, Trim(s));
  }

  /** What `TrimStart` promises of `t` and `TrimEnd` of `r` make `r` the
      trimmed span of `s`. */
  lemma {:induction false} SpanOfTrims(s: string, t: string, r: string)
    requires |t| <= |s| && t == s[|s| - |t|..]
    requires forall i :: 0 <= i < |s| - |t| ==> IsSpace(s[i])
    requires t == [] || !IsSpace(t[0])
    requires |r| <= |t| && r == t[..|r|]
    requires forall j :: |r| <= j < |t| ==> IsSpace(t[j])
    requires r == [] || !IsSpace(r[|r| - 1])
    ensures TrimmedSpan(s, |s| - |t|, r)
  {
    var a := |s| - |t|;
    assert r == s[a..a + |r|];
    forall i | a + |r| <= i < |s|
      ensures IsSpace(s[i])
    {
      assert s[i] == t[i - a];
    }
    if r != [] {
      assert r[0] == t[0];
    }
  }

  /** Trimming leaves a string alone when neither end is white space. */
  lemma TrimUnchanged(s: string)
    requires s != [] ==> !IsSpace(s[0]) && !IsSpace(s[|s| - 1])
    ensures Trim(s) == s
  {
    assert TrimStart(s) == s;
  }

  /** Between offsets `from` and `to` of `s`, the first character other than
      white space is `c`. */
  ghost predicate OpensWith(s: string, c: char, from: nat, to: nat) {
    exists k :: from <= k < to && 0 <= k < |s| && s[k] == c &&
                forall i :: from <= i < k ==> IsSpace(s[i])
  }

  /** The trimmed text starts with `c`, a non-space character, exactly when
      `c` is the first character of `s` after its leading white space. */
  lemma TrimmedStartsWith(s: string, c: char)
    requires !IsSpace(c)
    ensures StartsWith(Trim(s), [c]) <==> OpensWith(s, c, 0, |s|)
  {
    if StartsWith(Trim(s), [c]) {
      TrimmedOpensWith(s, c);
    }
    if OpensWith(s, c, 0, |s|) {
      OpensWithTrimmed(s, c);
    }
  }

  /** The two directions of `TrimmedStartsWith`. */
  lemma TrimmedOpensWith(s: string, c: char)
    requires StartsWith(Trim(s), [c])
    ensures OpensWith(s, c, 0, |s|)
  {
    var t := TrimStart(s);
    var r := Trim(s);
    assert r == TrimEnd(t) && r[..1] == [c];
    assert r[0] == t[0] == s[|s| - |t|] == c;
    OpensAt(s, c, |s| - |t|);
  }

  /** A character `c` at offset `k`, with only white space before it, opens
      `s`. */
  lemma OpensAt(s: string, c: char, k: nat)
    requires k < |s| && s[k] == c && forall i :: 0 <= i < k ==> IsSpace(s[i])
    ensures OpensWith(s, c, 0, |s|)
  {
  }

  lemma OpensWithTrimmed(s: string, c: char)
    requires !IsSpace(c) && OpensWith(s, c, 0, |s|)
    ensures StartsWith(Trim(s), [c])
  {
    var t := TrimStart(s);
    var k' :| 0 <= k' < |s| && s[k'] == c && forall i :: 0 <= i < k' ==> IsSpace(s[i]);
    FirstNonSpaceUnique(s, |s| - |t|, k');
    assert t[0] == c;
    TrimEndKeepsFirst(t);
  }

  /** Two offsets that are each preceded only by white space, and hold no
      white space themselves (or the end of the string, for the first), are
      the same offset. */
  lemma FirstNonSpaceUnique(s: string, a: nat, b: nat)
    requires a <= |s| && (a < |s| ==> !IsSpace(s[a])) && forall i :: 0 <= i < a ==> IsSpace(s[i])
    requires b < |s| && !IsSpace(s[b]) && forall i :: 0 <= i < b ==> IsSpace(s[i])
    ensures a == b
  {
  }

  /** Trimming the end of a string that opens with a non-space character
      keeps that character first. */
  lemma TrimEndKeepsFirst(t: string)
    requires t != [] && !IsSpace(t[0])
    ensures TrimEnd(t) != [] && TrimEnd(t)[0] == t[0]
  {
  }

  /** `OpensWith` on a slice reads the same span of the whole string. */
  lemma OpensWithSlice(s: string, c: char, a: nat, b: nat)
    requires a <= b <= |s|
    ensures OpensWith(s[a..b], c, 0, b - a) <==> OpensWith(s, c, a, b)
  {
    var seg := s[a..b];
    if OpensWith(seg, c, 0, b - a) {
      var k :| 0 <= k < b - a && seg[k] == c && forall i :: 0 <= i < k ==> IsSpace(seg[i]);
      assert s[a + k] == c;
      forall i | a <= i < a + k
        ensures IsSpace(s[i])
      {
        assert s[i] == seg[i - a];
      }
    }
    if OpensWith(s, c, a, b) {
      var k :| a <= k < b && s[k] == c && forall i :: a <= i < k ==> IsSpace(s[i]);
      assert seg[k - a] == c;
      forall i | 0 <= i < k - a
        ensures IsSpace(seg[i])
      {
        assert seg[i] == s[a + i];
      }
    }
  }

  /** `String.prototype.toLowerCase` on one character, ASCII letters only. */
  function ToLowerChar(c: char): char {
    if 'A' <= c <= 'Z' then (c as int + 32) as char else c
  }

  /** `s.toLowerCase()`, ASCII letters only. */
  function ToLower(s: string): (r: string)
    ensures |r| == |s|
    ensures forall i :: 0 <= i < |s| ==> r[i] == ToLowerChar(s[i])
  {
    if s == [] then [] else [ToLowerChar(s[0])] + ToLower(s[1..])
  }

  /** Lower-casing twice is lower-casing once. */
  lemma ToLowerIdempotent(s: string)
    ensures ToLower(ToLower(s)) == ToLower(s)
  {
    var once := ToLower(s);
    var twice := ToLower(once);
    forall i | 0 <= i < |s|
      ensures twice[i] == once[i]
    {
      assert once[i] == ToLowerChar(s[i]);
    }
  }

  /** `s` holds `t` at offset `i`. */
  ghost predicate OccursAt(s: string, t: string, i: int) {
    0 <= i && i + |t| <= |s| && s[i..i + |t|] == t
  }

  /** `t` occurs somewhere in `s`. */
  ghost predicate Occurs(s: string, t: string) {
    exists i :: OccursAt(s, t, i)
  }

  /** `s.includes(t)`: scans the offsets of `s` from the left. */
  function Includes(s: string, t: string): (b: bool)
    ensures b ==> |t| <= |s|
    ensures |t| <= |s| && s[..|t|] == t ==> b
    decreases |s|
  {
    if |t| > |s| then false
    else if s[..|t|] == t then true
    else Includes(s[1..], t)
  }

  /** The scan finds `t` exactly when `t` occurs somewhere in `s`. */
  lemma {:induction false} IncludesIffOccurs(s: string, t: string)
    ensures Includes(s, t) <==> Occurs(s, t)
    decreases |s|
  {
    if |t| > |s| {
      assert forall i :: !OccursAt(s, t, i);
    } else if s[..|t|] == t {
      assert OccursAt(s, t, 0);
    } else {
      IncludesIffOccurs(s[1..], t);
      if Includes(s[1..], t) {
        var i :| OccursAt(s[1..], t, i);
        OccursInTail(s, t, i);
        assert OccursAt(s, t, i + 1);
      }
      if Occurs(s, t) {
        var i :| OccursAt(s, t, i);
        assert i != 0;
        OccursInTail(s, t, i - 1);
        assert OccursAt(s[1..], t, i - 1);
      }
    }
  }

  /** An occurrence in the tail of `s` is one in `s`, one offset further. */
  lemma OccursInTail(s: string, t: string, i: nat)
    requires s != []
    ensures OccursAt(s[1..], t, i) <==> OccursAt(s, t, i + 1)
  {
    if i + |t| <= |s| - 1 {
      assert s[1..][i..i + |t|] == s[i + 1..i + 1 + |t|];
    }
  }

  /** Every string includes the empty string. */
  lemma IncludesEmpty(s: string)
    ensures Includes(s, [])
  {
    assert s[..0] == [];
  }

  /** Greatest offset below `n` that holds `c`, or -1 when there is none. */
  function LastIndexBelow(s: string, c: char, n: nat): (r: int)
    requires n <= |s|
    ensures -1 <= r < n
    ensures r >= 0 ==> s[r] == c
    ensures forall k :: r < k < n ==> s[k] != c
  {
    if n == 0 then -1
    else if s[n - 1] == c then n - 1
    else LastIndexBelow(s, c, n - 1)
  }

  /** The ensures of `LastIndexBelow` pin its result down: an offset that
      holds `c` with no `c` after it below `n` (or -1 with none) is it. */
  lemma LastIndexBelowIs(s: string, c: char, n: nat, t: int)
    requires n <= |s| && -1 <= t < n
    requires t >= 0 ==> s[t] == c
    requires forall k :: t < k < n ==> s[k] != c
    ensures LastIndexBelow(s, c, n) == t
  {
    var r := LastIndexBelow(s, c, n);
    assert !(r < t) && !(t < r);
  }

  /** `s.lastIndexOf(c, from)` for a one-character search string: the start
      position is clamped to [0, |s|], so a negative `from` still looks at
      offset 0. */
  function LastIndexOf(s: string, c: char, from: int): (r: int)
    ensures -1 <= r < |s|
    ensures r >= 0 ==> s[r] == c && r <= (if from < 0 then 0 else from)
    ensures forall k :: r < k < |s| && k <= (if from < 0 then 0 else from) ==> s[k] != c
  {
    if |s| == 0 then -1
    else LastIndexBelow(s, c, (if from < 0 then 0 else if from < |s| then from else |s| - 1) + 1)
  }
}
