/**
 * The string operations the app borrows from JavaScript: `toLowerCase`,
 * `includes`, `trim` and `split` on a set of separator characters.
 */
module Text {

  /** The characters `String.prototype.trim` removes: white space and line terminators. */
  predicate IsWhitespace(c: char)
  {
    c == '\t' || c == '\n' || c == '\U{000B}' || c == '\U{000C}' || c == '\r' || c == ' ' ||
    c == '\U{00A0}' || c == '\U{1680}' || ('\U{2000}' <= c <= '\U{200A}') ||
    c == '\U{2028}' || c == '\U{2029}' || c == '\U{202F}' || c == '\U{205F}' ||
    c == '\U{3000}' || c == '\U{FEFF}'
  }

  predicate IsUpper(c: char)
  {
    ('A' <= c <= 'Z') || ('\U{00C0}' <= c <= '\U{00DE}' && c != '\U{00D7}')
  }

  /** Lower-case mapping of one character (ASCII and Latin-1 letters). */
  function ToLowerChar(c: char): (r: char)
    ensures IsUpper(c) ==> r as int == c as int + 32 && !IsUpper(r)
    ensures !IsUpper(c) ==> r == c
  {
    if IsUpper(c) then (c as int + 32) as char else c
  }

  function ToLower(s: string): (r: string)
    ensures |r| == |s|
    ensures forall i :: 0 <= i < |s| ==> r[i] == ToLowerChar(s[i])
  {
    seq(|s|, i requires 0 <= i < |s| => ToLowerChar(s[i]))
  }

  lemma ToLowerAppend(a: string, b: string)
    ensures ToLower(a + b) == ToLower(a) + ToLower(b)
  {
    assert forall i :: 0 <= i < |a + b| ==> ToLower(a + b)[i] == (ToLower(a) + ToLower(b))[i];
  }

  lemma ToLowerIdempotent(s: string)
    ensures ToLower(ToLower(s)) == ToLower(s)
  {
  }

  /** `needle` sits in `hay` starting at index `i`. */
  predicate OccursAt(hay: string, needle: string, i: nat)
  {
    i + |needle| <= |hay| && hay[i..i + |needle|] == needle
  }

  /** `hay.includes(needle)`; a needle longer than the haystack never occurs in it. */
  predicate Contains(hay: string, needle: string)
    ensures Contains(hay, needle) ==> |needle| <= |hay|
  {
    exists i: nat | i <= |hay| :: OccursAt(hay, needle, i)
  }

  /** Every string contains itself, and the empty string is contained in every string. */
  lemma ContainsSelf(s: string)
    ensures Contains(s, s) && Contains(s, "")
  {
    assert OccursAt(s, s, 0);
    assert OccursAt(s, "", 0);
  }

  /** A string contains anything that occurs inside it between two other strings. */
  lemma ContainsInfix(pre: string, needle: string, post: string)
    ensures Contains(pre + needle + post, needle)
  {
    var hay := pre + needle + post;
    assert hay[|pre|..|pre| + |needle|] == needle;
    assert OccursAt(hay, needle, |pre|);
  }

  /** `s` with its leading white space removed (`trimStart`). */
  function TrimStart(s: string): (r: string)
    ensures |r| <= |s| && r == s[|s| - |r|..]
    ensures forall i :: 0 <= i < |s| - |r| ==> IsWhitespace(s[i])
    ensures r != [] ==> !IsWhitespace(r[0])
  {
    if |s| > 0 && IsWhitespace(s[0]) then TrimStart(s[1..]) else s
  }

  /** `s` with its trailing white space removed (`trimEnd`). */
  function TrimEnd(s: string): (r: string)
    ensures |r| <= |s| && r == s[..|r|]
    ensures forall i :: |r| <= i < |s| ==> IsWhitespace(s[i])
    ensures r != [] ==> !IsWhitespace(r[|r| - 1])
  {
    if |s| > 0 && IsWhitespace(s[|s| - 1]) then
      var t := s[..|s| - 1];
      assert forall i :: 0 <= i < |t| ==> t[i] == s[i];
      TrimEnd(t)
    else s
  }

  /** `s.trim()`: no longer than `s`, and neither starting nor ending with white space. */
  function Trim(s: string): (r: string)
    ensures |r| <= |s|
    ensures r != [] ==> !IsWhitespace(r[0]) && !IsWhitespace(r[|r| - 1])
  {
    TrimEnd(TrimStart(s))
  }

  /**
   * Trimming the end of a suffix `t == s[i..]` gives a slice `s[i..j]` that
   * does not end with white space, and cuts only white space off the end of `s`.
   */
  lemma TrimEndOfSuffix(s: string, t: string, i: nat) returns (j: nat)
    requires i <= |s| && t == s[i..]
    requires t != [] ==> !IsWhitespace(t[0])
    ensures i <= j <= |s| && TrimEnd(t) == s[i..j]
    ensures forall k :: j <= k < |s| ==> IsWhitespace(s[k])
    ensures i < j ==> !IsWhitespace(s[i]) && !IsWhitespace(s[j - 1])
  {
    var u := TrimEnd(t);
    j := i + |u|;
    assert u == s[i..j] by {
      assert u == t[..|u|];
      assert s[i..][..|u|] == s[i..j];
    }
    forall k | j <= k < |s|
      ensures IsWhitespace(s[k])
    {
      assert s[k] == t[k - i];
    }
    if i < j {
      assert s[i] == t[0] && s[j - 1] == u[|u| - 1];
    }
  }

  /**
   * `s.trim()` is the slice `s[i..j]` of `s` between its white-space margins:
   * nothing but white space is cut, and the slice neither starts nor ends
   * with white space.
   */
  lemma TrimShape(s: string) returns (i: nat, j: nat)
    ensures i <= j <= |s| && Trim(s) == s[i..j]
    ensures forall k :: 0 <= k < i ==> IsWhitespace(s[k])
    ensures forall k :: j <= k < |s| ==> IsWhitespace(s[k])
    ensures i < j ==> !IsWhitespace(s[i]) && !IsWhitespace(s[j - 1])
  {
    var t := TrimStart(s);
    i := |s| - |t|;
    j := TrimEndOfSuffix(s, t, i);
  }

  /** Every character of `s` is white space (so is the empty string). */
  predicate IsBlank(s: string)
  {
    forall k :: 0 <= k < |s| ==> IsWhitespace(s[k])
  }

  /** A line is blank after trimming exactly when it holds nothing but white space. */
  lemma TrimEmptyIff(s: string)
    ensures Trim(s) == [] <==> IsBlank(s)
  {
    var i, j := TrimShape(s);
  }

  /** Trimming twice is trimming once. */
  lemma TrimIdempotent(s: string)
    ensures Trim(Trim(s)) == Trim(s)
  {
    var i, j := TrimShape(s);
    var t := Trim(s);
    if t != [] {
      assert TrimStart(t) == t;
      assert TrimEnd(t) == t;
    }
  }

  /** Index of the first character of `s` in `seps`, or `|s|` when there is none. */
  function FirstIn(s: string, seps: set<char>): (k: nat)
    ensures k <= |s|
    ensures forall j :: 0 <= j < k ==> s[j] !in seps
    ensures k < |s| ==> s[k] in seps
  {
    if |s| == 0 then 0
    else if s[0] in seps then 0
    else 1 + FirstIn(s[1..], seps)
  }

  /** `s.split(re)` where `re` matches exactly the single characters in `seps`. */
  function SplitBy(s: string, seps: set<char>): (r: seq<string>)
    ensures |r| >= 1
  {
    if |s| == 0 then [""]
    else
      var rest := SplitBy(s[1..], seps);
      if s[0] in seps then [""] + rest
      else [[s[0]] + rest[0]] + rest[1..]
  }

  /**
   * The first piece of a split is the text before the first separator; when
   * there is a separator, the remaining pieces are the split of the text
   * after it, and when there is none the split is the whole string.
   */
  lemma {:induction false} SplitAtFirst(s: string, seps: set<char>)
    ensures var k := FirstIn(s, seps);
      if k == |s| then SplitBy(s, seps) == [s]
      else SplitBy(s, seps) == [s[..k]] + SplitBy(s[k + 1..], seps)
  {
    var k := FirstIn(s, seps);
    if |s| == 0 {
      assert SplitBy(s, seps) == [s];
    } else if s[0] in seps {
      assert SplitBy(s, seps) == [s[..k]] + SplitBy(s[k + 1..], seps) by {
        assert k == 0 && s[..k] == "" && s[k + 1..] == s[1..];
      }
    } else {
      var t := s[1..];
      SplitAtFirst(t, seps);
      var kt := FirstIn(t, seps);
      var rest := SplitBy(t, seps);
      assert k == kt + 1;
      assert SplitBy(s, seps) == [[s[0]] + rest[0]] + rest[1..];
      assert [s[0]] + t[..kt] == s[..k];
      if kt == |t| {
        assert SplitBy(s, seps) == [s] by {
          assert rest == [t] && [s[0]] + t == s;
        }
      } else {
        assert SplitBy(s, seps) == [s[..k]] + SplitBy(s[k + 1..], seps) by {
          assert t[kt + 1..] == s[k + 1..];
        }
      }
    }
  }

  /** Every piece of a split is free of separators. */
  lemma {:induction false} SplitPiecesHaveNoSeparator(s: string, seps: set<char>)
    ensures forall p, c :: p in SplitBy(s, seps) && c in p ==> c !in seps
  {
    if |s| > 0 {
      SplitPiecesHaveNoSeparator(s[1..], seps);
    }
  }

  /** A split yields at least two pieces exactly when the string holds a separator. */
  lemma SplitHasSeveralPieces(s: string, seps: set<char>)
    ensures |SplitBy(s, seps)| >= 2 <==> exists i :: 0 <= i < |s| && s[i] in seps
  {
    SplitAtFirst(s, seps);
  }
}
