/**
 * The three ECMAScript string built-ins the route handler relies on:
 * `String.prototype.trim`, `String.prototype.startsWith` and
 * `String.prototype.includes`. Characters are Unicode scalar values.
 */
module JsString {

  /** WhiteSpace and LineTerminator of ECMAScript: what `trim` strips from both ends. */
  predicate IsWhiteSpace(c: char)
  {
    || c == '\t' || c == '\n' || c == '\U{000B}' || c == '\U{000C}' || c == '\r'
    || c == ' ' || c == '\U{00A0}' || c == '\U{1680}' || ('\U{2000}' <= c <= '\U{200A}')
    || c == '\U{2028}' || c == '\U{2029}' || c == '\U{202F}' || c == '\U{205F}'
    || c == '\U{3000}' || c == '\U{FEFF}'
  }

  /** Among ASCII characters, `trim` strips exactly tab, LF, VT, FF, CR and space. */
  lemma AsciiWhiteSpace(c: char)
    requires c as int < 128
    ensures IsWhiteSpace(c) <==> c in "\t\n\U{000B}\U{000C}\r "
  {
  }

  predicate AllWhiteSpace(s: string) {
    forall i :: 0 <= i < |s| ==> IsWhiteSpace(s[i])
  }

  /** `s.startsWith(prefix)`. */
  predicate StartsWith(s: string, prefix: string)
    ensures StartsWith(s, prefix) <==> |prefix| <= |s| && forall i :: 0 <= i < |prefix| ==> s[i] == prefix[i]
  {
    |prefix| <= |s| && s[..|prefix|] == prefix
  }

  /** `p` occurs in `s` beginning at index `k`. */
  predicate OccursAt(s: string, p: string, k: int) {
    0 <= k <= |s| - |p| && s[k..k + |p|] == p
  }

  /** Drops the leading white space of `s`. */
  function TrimStart(s: string): (r: string)
    ensures |r| <= |s| && r == s[|s| - |r|..]
    ensures AllWhiteSpace(s[..|s| - |r|])
    ensures r == [] || !IsWhiteSpace(r[0])
    decreases |s|
  {
    if s != [] && IsWhiteSpace(s[0]) then
      var r := TrimStart(s[1..]);
      assert s[..|s| - |r|] == [s[0]] + s[1..][..|s| - 1 - |r|];
      r
    else
      s
  }

  /** Drops the trailing white space of `s`. */
  function TrimEnd(s: string): (r: string)
    ensures |r| <= |s| && r == s[..|r|]
    ensures AllWhiteSpace(s[|r|..])
    ensures r == [] || !IsWhiteSpace(r[|r| - 1])
    decreases |s|
  {
    if s != [] && IsWhiteSpace(s[|s| - 1]) then
      var r := TrimEnd(s[..|s| - 1]);
      assert s[|r|..] == s[..|s| - 1][|r|..] + [s[|s| - 1]];
      r
    else
      s
  }

  /** White space on both sides of a cut is white space throughout. */
  lemma SplitWhiteSpace(s: string, k: int)
    requires 0 <= k <= |s|
    ensures AllWhiteSpace(s) <==> AllWhiteSpace(s[..k]) && AllWhiteSpace(s[k..])
  {
  }

  /** `s.trim()`. */
  function Trim(s: string): (r: string)
    ensures r == [] <==> AllWhiteSpace(s)
  {
    var t := TrimStart(s);
    var r := TrimEnd(t);
    SplitWhiteSpace(s, |s| - |t|);
    SplitWhiteSpace(t, |r|);
    assert s[|s| - |t|..] == t && t[..|r|] == r;
    r
  }

  /**
   * Independent description of trimming: `r` is a slice `s[i..j]` with only white
   * space outside it and no white space at either of its own ends.
   */
  ghost predicate IsTrimOf(s: string, r: string) {
    exists i, j :: TrimBounds(s, r, i, j)
  }

  ghost predicate TrimBounds(s: string, r: string, i: int, j: int) {
    && 0 <= i <= j <= |s|
    && r == s[i..j]
    && AllWhiteSpace(s[..i])
    && AllWhiteSpace(s[j..])
    && (r == [] || (!IsWhiteSpace(r[0]) && !IsWhiteSpace(r[|r| - 1])))
  }

  /** Trimming the start and then the end leaves a slice that meets the description. */
  lemma TrimBoundsOfParts(s: string, t: string, r: string)
    requires |t| <= |s| && t == s[|s| - |t|..] && AllWhiteSpace(s[..|s| - |t|])
    requires t == [] || !IsWhiteSpace(t[0])
    requires |r| <= |t| && r == t[..|r|] && AllWhiteSpace(t[|r|..])
    requires r == [] || !IsWhiteSpace(r[|r| - 1])
    ensures TrimBounds(s, r, |s| - |t|, |s| - |t| + |r|)
  {
    var i := |s| - |t|;
    var j := i + |r|;
    assert r == s[i..j];
    assert s[j..] == t[|r|..];
    if r != [] {
      assert r[0] == t[0];
    }
  }

  /** `Trim` meets the description. */
  lemma TrimIsTrimOf(s: string)
    ensures IsTrimOf(s, Trim(s))
  {
    var t := TrimStart(s);
    var r := TrimEnd(t);
    assert Trim(s) == r;
    TrimBoundsOfParts(s, t, r);
  }

  /** Every character of a white-space prefix is white space. */
  lemma WhiteBefore(s: string, i: int)
    requires 0 <= i <= |s| && AllWhiteSpace(s[..i])
    ensures forall k :: 0 <= k < i ==> IsWhiteSpace(s[k])
  {
  }

  /** Every character of a white-space suffix is white space. */
  lemma WhiteFrom(s: string, j: int)
    requires 0 <= j <= |s| && AllWhiteSpace(s[j..])
    ensures forall k :: j <= k < |s| ==> IsWhiteSpace(s[k])
  {
  }

  /** Bounds around a non-empty trimmed slice are pinned down by `s` alone. */
  lemma TrimBoundsUnique(s: string, r: string, i: int, j: int, r': string, i': int, j': int)
    requires TrimBounds(s, r, i, j) && TrimBounds(s, r', i', j')
    requires r != []
    ensures r' == r
  {
    assert s[i] == r[0];
    assert s[j - 1] == r[|r| - 1];
    SplitWhiteSpace(s, i');
    assert !AllWhiteSpace(s) by { assert !IsWhiteSpace(s[i]); }
    assert i' < j';
    assert s[i'] == r'[0];
    assert s[j' - 1] == r'[|r'| - 1];
    WhiteBefore(s, i);
    WhiteBefore(s, i');
    WhiteFrom(s, j);
    WhiteFrom(s, j');
  }

  /** The description determines the result: `Trim` is the only function that meets it. */
  lemma {:induction false} TrimOfUnique(s: string, r: string)
    requires IsTrimOf(s, r)
    ensures r == Trim(s)
  {
    TrimIsTrimOf(s);
    var i, j :| TrimBounds(s, r, i, j);
    var i', j' :| TrimBounds(s, Trim(s), i', j');
    if r != [] {
      TrimBoundsUnique(s, r, i, j, Trim(s), i', j');
    } else if Trim(s) != [] {
      TrimBoundsUnique(s, Trim(s), i', j', r, i, j);
    }
  }

  /** Trimming twice is trimming once. */
  lemma TrimIdempotent(s: string)
    ensures Trim(Trim(s)) == Trim(s)
  {
    var r := Trim(s);
    TrimIsTrimOf(s);
    if r != [] {
      assert TrimBounds(r, r, 0, |r|);
    } else {
      assert TrimBounds(r, r, 0, 0);
    }
    TrimOfUnique(r, r);
  }

  /** `s.includes(p)`: whether `p` occurs anywhere in `s` (always, for an empty `p`). */
  function Includes(s: string, p: string): (b: bool)
    ensures b <==> exists k :: OccursAt(s, p, k)
    decreases |s|
  {
    if |p| > |s| then
      false
    else if StartsWith(s, p) then
      assert OccursAt(s, p, 0);
      true
    else
      var b := Includes(s[1..], p);
      if b then
        var k :| OccursAt(s[1..], p, k);
        assert s[1..][k..k + |p|] == s[k + 1..k + 1 + |p|];
        assert OccursAt(s, p, k + 1);
        b
      else
        assert forall k :: OccursAt(s, p, k) ==> OccursAt(s[1..], p, k - 1) by {
          forall k | OccursAt(s, p, k) ensures OccursAt(s[1..], p, k - 1) {
            assert k != 0;
            assert s[1..][k - 1..k - 1 + |p|] == s[k..k + |p|];
          }
        }
        b
  }
}
