/** ASCII models of the three JavaScript string methods the chat widget relies on:
    `toLowerCase`, `includes` and `trim`. */
module JsString {

  /** An ASCII capital letter. */
  predicate IsUpper(c: char) {
    'A' <= c <= 'Z'
  }

  /** The ASCII white space that `trim` strips: space, tab, line feed,
      vertical tab, form feed and carriage return. */
  predicate IsWhitespace(c: char) {
    c == ' ' || c == '\t' || c == '\n' || c == '\U{B}' || c == '\U{C}' || c == '\r'
  }

  /** No character of `s` is a capital letter. */
  predicate HasNoCapitals(s: string) {
    forall i :: 0 <= i < |s| ==> !IsUpper(s[i])
  }

  /** Lower-cases one character: capitals map to their small letter, all else is kept. */
  function LowerChar(c: char): (d: char)
    ensures !IsUpper(d)
    ensures IsUpper(c) ==> 'a' <= d <= 'z' && d as int - 'a' as int == c as int - 'A' as int
    ensures !IsUpper(c) ==> d == c
  {
    if IsUpper(c) then (c as int - 'A' as int + 'a' as int) as char else c
  }

  /** `s.toLowerCase()`: same length, every character lower-cased, no capital left. */
  function ToLowerCase(s: string): (r: string)
    ensures |r| == |s|
    ensures forall i :: 0 <= i < |s| ==> r[i] == LowerChar(s[i])
    ensures HasNoCapitals(r)
  {
    if s == [] then [] else [LowerChar(s[0])] + ToLowerCase(s[1..])
  }

  /** Lower-casing twice is lower-casing once. */
  lemma ToLowerCaseIdempotent(s: string)
    ensures ToLowerCase(ToLowerCase(s)) == ToLowerCase(s)
  {
    // pointwise: LowerChar leaves the non-capitals it produced alone
  }

  /** A string without capitals is its own lower-case form. */
  lemma ToLowerCaseFixesLower(s: string)
    requires HasNoCapitals(s)
    ensures ToLowerCase(s) == s
  {
  }

  /** `t` occurs in `s` at position `i`. */
  ghost predicate OccursAt(s: string, t: string, i: nat) {
    i + |t| <= |s| && s[i..i + |t|] == t
  }

  /** `s.includes(t)`: tries every start position of `s` from the left. */
  predicate Includes(s: string, t: string) {
    (|t| <= |s| && s[..|t|] == t) || (s != [] && Includes(s[1..], t))
  }

  /** `Includes` holds exactly when `t` occurs somewhere in `s`. */
  lemma {:induction false} IncludesIffOccurs(s: string, t: string)
    ensures Includes(s, t) <==> exists i: nat :: OccursAt(s, t, i)
  {
    if |t| <= |s| && s[..|t|] == t {
      assert OccursAt(s, t, 0);
    } else if s == [] {
      // |t| > 0, so nothing of length |t| fits in the empty string
      assert forall i: nat :: !OccursAt(s, t, i);
    } else {
      IncludesIffOccurs(s[1..], t);
      if Includes(s[1..], t) {
        var i: nat :| OccursAt(s[1..], t, i);
        assert s[i + 1..i + 1 + |t|] == s[1..][i..i + |t|];
        assert OccursAt(s, t, i + 1);
      } else {
        forall i: nat | OccursAt(s, t, i)
          ensures false
        {
          assert i != 0;
          assert s[1..][i - 1..i - 1 + |t|] == s[i..i + |t|];
          assert OccursAt(s[1..], t, i - 1);
        }
      }
    }
  }

  /** A text includes every piece it is glued together from. */
  lemma IncludesInside(a: string, t: string, b: string)
    ensures Includes(a + t + b, t)
  {
    OccursBetween(a, t, b);
    IncludesIffOccurs(a + t + b, t);
  }

  /** Lower-casing keeps every occurrence of a keyword that has no capitals. */
  lemma LowerKeepsOccurrence(s: string, t: string, i: nat)
    requires HasNoCapitals(t)
    requires OccursAt(s, t, i)
    ensures OccursAt(ToLowerCase(s), t, i)
  {
    var r := ToLowerCase(s);
    forall j | 0 <= j < |t|
      ensures r[i..i + |t|][j] == t[j]
    {
      assert s[i + j] == t[j];
    }
  }

  /** `t` occurs in `a + t + b` right after `a`. */
  lemma OccursBetween(a: string, t: string, b: string)
    ensures OccursAt(a + t + b, t, |a|)
  {
    assert (a + t + b)[|a|..|a| + |t|] == t;
  }

  /** The empty string is included in every string, as in JavaScript. */
  lemma IncludesEmpty(s: string)
    ensures Includes(s, "")
  {
    assert s[..0] == "";
  }

  /** `s.trim()`: drops white space from both ends, one character at a time.
      The result neither starts nor ends with white space, and it is empty
      exactly when `s` is all white space. */
  function Trim(s: string): (r: string)
    ensures |r| <= |s|
    ensures r != [] ==> !IsWhitespace(r[0]) && !IsWhitespace(r[|r| - 1])
    ensures r == [] <==> forall i :: 0 <= i < |s| ==> IsWhitespace(s[i])
    decreases |s|
  {
    if s == [] then []
    else if IsWhitespace(s[0]) then Trim(s[1..])
    else if IsWhitespace(s[|s| - 1]) then Trim(s[..|s| - 1])
    else s
  }

  /** `r` sits at position `lo` of `s`, and everything around it is white space. */
  ghost predicate SliceWithBlankEdges(s: string, r: string, lo: nat) {
    OccursAt(s, r, lo)
    && (forall i :: 0 <= i < lo ==> IsWhitespace(s[i]))
    && (forall i :: lo + |r| <= i < |s| ==> IsWhitespace(s[i]))
  }

  /** Putting white space back at the front keeps the slice, one position later. */
  lemma WhitespaceBeforeSlice(s: string, r: string, lo: nat)
    requires s != [] && IsWhitespace(s[0])
    requires SliceWithBlankEdges(s[1..], r, lo)
    ensures SliceWithBlankEdges(s, r, lo + 1)
  {
    assert s[lo + 1..lo + 1 + |r|] == s[1..][lo..lo + |r|];
    forall i | 1 <= i < lo + 1
      ensures IsWhitespace(s[i])
    {
      assert s[i] == s[1..][i - 1];
    }
    forall i | lo + 1 + |r| <= i < |s|
      ensures IsWhitespace(s[i])
    {
      assert s[i] == s[1..][i - 1];
    }
  }

  /** Putting white space back at the end keeps the slice where it was. */
  lemma WhitespaceAfterSlice(s: string, r: string, lo: nat)
    requires s != [] && IsWhitespace(s[|s| - 1])
    requires SliceWithBlankEdges(s[..|s| - 1], r, lo)
    ensures SliceWithBlankEdges(s, r, lo)
  {
    assert s[lo..lo + |r|] == s[..|s| - 1][lo..lo + |r|];
  }

  /** `Trim` keeps a contiguous part of `s` and cuts off only white space around it. */
  lemma {:induction false} TrimIsSlice(s: string)
    ensures exists lo: nat :: SliceWithBlankEdges(s, Trim(s), lo)
    decreases |s|
  {
    if s == [] {
      assert SliceWithBlankEdges(s, Trim(s), 0);
    } else if IsWhitespace(s[0]) {
      TrimIsSlice(s[1..]);
      var lo: nat :| SliceWithBlankEdges(s[1..], Trim(s[1..]), lo);
      WhitespaceBeforeSlice(s, Trim(s), lo);
    } else if IsWhitespace(s[|s| - 1]) {
      TrimIsSlice(s[..|s| - 1]);
      var lo: nat :| SliceWithBlankEdges(s[..|s| - 1], Trim(s[..|s| - 1]), lo);
      WhitespaceAfterSlice(s, Trim(s), lo);
    } else {
      assert SliceWithBlankEdges(s, Trim(s), 0);
    }
  }
}
