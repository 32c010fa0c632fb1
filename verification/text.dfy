/**
 * The string primitives the code chains together: `str.lower`, `str.upper`,
 * `str.strip`, `str.replace` of one character, `str.title` and `str.isupper`.
 * Case mapping covers the ASCII letters; the whitespace set is the one Python's
 * `str.strip()` removes.
 */
module Text {

  /** Characters `str.strip()` with no argument removes (Python's `str.isspace`). */
  predicate IsWhitespace(c: char) {
    var n := c as int;
    || n == 0x20 || 0x09 <= n <= 0x0D || 0x1C <= n <= 0x1F || n == 0x85 || n == 0xA0
    || n == 0x1680 || 0x2000 <= n <= 0x200A || n == 0x2028 || n == 0x2029
    || n == 0x202F || n == 0x205F || n == 0x3000
  }

  predicate IsUpperLetter(c: char) { 'A' <= c <= 'Z' }

  predicate IsLowerLetter(c: char) { 'a' <= c <= 'z' }

  /** A "cased" character in the sense of `str.title` and `str.isupper`. */
  predicate IsCased(c: char) { IsUpperLetter(c) || IsLowerLetter(c) }

  function LowerChar(c: char): (r: char)
    ensures !IsUpperLetter(r)
    ensures IsCased(r) == IsCased(c)
    ensures IsWhitespace(r) == IsWhitespace(c)
  {
    if IsUpperLetter(c) then (c as int + 32) as char else c
  }

  function UpperChar(c: char): (r: char)
    ensures !IsLowerLetter(r)
    ensures IsCased(r) == IsCased(c)
    ensures IsWhitespace(r) == IsWhitespace(c)
    ensures LowerChar(r) == LowerChar(c)
  {
    if IsLowerLetter(c) then (c as int - 32) as char else c
  }

  /** `s.lower()` */
  function Lower(s: string): (r: string)
    ensures |r| == |s|
    ensures forall i :: 0 <= i < |s| ==> r[i] == LowerChar(s[i])
  {
    seq(|s|, i requires 0 <= i < |s| => LowerChar(s[i]))
  }

  /** `s.replace(a, b)` for one-character `a` and `b`. */
  function ReplaceChar(s: string, a: char, b: char): (r: string)
    ensures |r| == |s|
    ensures forall i :: 0 <= i < |s| ==> r[i] == (if s[i] == a then b else s[i])
  {
    seq(|s|, i requires 0 <= i < |s| => if s[i] == a then b else s[i])
  }

  /**
   * `s.title()`: a character that follows a cased character is lowered, every
   * other character is upper-cased. As in CPython, "follows a cased character"
   * looks at the original previous character, so digits and punctuation start a
   * new word ("1st" becomes "1St").
   */
  function Title(s: string): (r: string)
    ensures |r| == |s|
    ensures IsTitleCased(r) && Lower(r) == Lower(s)
    ensures forall i :: 0 <= i < |s| ==>
      r[i] == (if i > 0 && IsCased(s[i - 1]) then LowerChar(s[i]) else UpperChar(s[i]))
  {
    seq(|s|, i requires 0 <= i < |s| =>
      if i > 0 && IsCased(s[i - 1]) then LowerChar(s[i]) else UpperChar(s[i]))
  }

  /**
   * Title case: a cased character is upper-case exactly when it starts a word,
   * that is, when it comes first or follows a character that is not cased.
   */
  predicate IsTitleCased(s: string) {
    && (|s| > 0 && IsCased(s[0]) ==> IsUpperLetter(s[0]))
    && forall i :: 0 < i < |s| && IsCased(s[i]) ==> (IsUpperLetter(s[i]) <==> !IsCased(s[i - 1]))
  }

  /**
   * Title case leaves no choice: two title-cased strings that agree up to case
   * are equal, so title-casing is pinned down by its lower-case form.
   */
  lemma TitleCasedUnique(a: string, b: string)
    requires IsTitleCased(a) && IsTitleCased(b)
    requires Lower(a) == Lower(b)
    ensures a == b
  {
    assert |a| == |b|;
    forall i | 0 <= i < |a| ensures a[i] == b[i] {
      assert LowerChar(a[i]) == LowerChar(b[i]) by {
        assert Lower(a)[i] == Lower(b)[i];
      }
      if i > 0 {
        assert IsCased(a[i - 1]) == IsCased(b[i - 1]) by {
          assert Lower(a)[i - 1] == Lower(b)[i - 1];
          assert LowerChar(a[i - 1]) == LowerChar(b[i - 1]);
        }
      }
      assert IsCased(a[i]) == IsCased(b[i]);
      if IsCased(a[i]) {
        TitleCasedAt(a, i);
        TitleCasedAt(b, i);
      }
      SameLetterSameCase(a[i], b[i]);
    }
  }

  lemma TitleCasedAt(s: string, i: nat)
    requires IsTitleCased(s) && i < |s| && IsCased(s[i])
    ensures IsUpperLetter(s[i]) <==> i == 0 || !IsCased(s[i - 1])
  {
  }

  lemma SameLetterSameCase(x: char, y: char)
    requires LowerChar(x) == LowerChar(y)
    requires IsUpperLetter(x) == IsUpperLetter(y)
    ensures x == y
  {
  }

  /** `s.isupper()`: at least one cased character and no lower-case one. */
  predicate IsUpper(s: string) {
    (exists i :: 0 <= i < |s| && IsUpperLetter(s[i])) && forall i :: 0 <= i < |s| ==> !IsLowerLetter(s[i])
  }

  predicate AllWhitespace(s: string) {
    forall i :: 0 <= i < |s| ==> IsWhitespace(s[i])
  }

  /** Neither end of `s` is whitespace: what `strip` leaves behind. */
  predicate Stripped(s: string) {
    s == [] || (!IsWhitespace(s[0]) && !IsWhitespace(s[|s| - 1]))
  }

  function TrimStart(s: string): (r: string)
    ensures |r| <= |s|
    ensures r == [] || !IsWhitespace(r[0])
  {
    if s != [] && IsWhitespace(s[0]) then TrimStart(s[1..]) else s
  }

  function TrimEnd(s: string): (r: string)
    ensures |r| <= |s|
    ensures r == [] || !IsWhitespace(r[|r| - 1])
  {
    if s != [] && IsWhitespace(s[|s| - 1]) then TrimEnd(s[..|s| - 1]) else s
  }

  lemma TrimStartRemovesPrefix(s: string)
    ensures TrimStart(s) == s[|s| - |TrimStart(s)|..]
    ensures AllWhitespace(s[..|s| - |TrimStart(s)|])
  {
    if s != [] && IsWhitespace(s[0]) {
      TrimStartRemovesPrefix(s[1..]);
      var k := |s[1..]| - |TrimStart(s[1..])|;
      assert s[..k + 1] == [s[0]] + s[1..][..k];
    }
  }

  lemma TrimEndRemovesSuffix(s: string)
    ensures TrimEnd(s) == s[..|TrimEnd(s)|]
    ensures AllWhitespace(s[|TrimEnd(s)|..])
  {
    if s != [] && IsWhitespace(s[|s| - 1]) {
      var p := s[..|s| - 1];
      TrimEndRemovesSuffix(p);
      assert s[|TrimEnd(p)|..] == p[|TrimEnd(p)|..] + [s[|s| - 1]];
    }
  }

  /** `s.strip()` */
  function Strip(s: string): (r: string)
    ensures Stripped(r)
    ensures |r| <= |s|
  {
    var t := TrimStart(s);
    TrimEndRemovesSuffix(t);
    TrimEnd(t)
  }

  /** `strip` removes exactly a whitespace prefix and a whitespace suffix. */
  lemma StripDecompose(s: string) returns (lead: string, trail: string)
    ensures s == lead + Strip(s) + trail
    ensures AllWhitespace(lead) && AllWhitespace(trail)
  {
    var t := TrimStart(s);
    var r := TrimEnd(t);
    TrimStartRemovesPrefix(s);
    TrimEndRemovesSuffix(t);
    assert Strip(s) == r;
    var k := |s| - |t|;
    lead, trail := s[..k], t[|r|..];
    assert t == t[..|r|] + t[|r|..];
    assert t == r + trail;
    assert s == s[..k] + s[k..];
    assert s == lead + t;
    assert lead + t == lead + r + trail;
  }

  /** A string with no whitespace at either end is left alone by `strip`. */
  lemma StripStripped(s: string)
    requires Stripped(s)
    ensures Strip(s) == s
  {
  }

  lemma TrimStartSkipsWhitespace(w: string, s: string)
    requires AllWhitespace(w)
    ensures TrimStart(w + s) == TrimStart(s)
    decreases |w|
  {
    if w != [] {
      assert (w + s)[0] == w[0];
      assert (w + s)[1..] == w[1..] + s;
      TrimStartSkipsWhitespace(w[1..], s);
    } else {
      assert w + s == s;
    }
  }

  lemma TrimEndSkipsWhitespace(s: string, w: string)
    requires AllWhitespace(w)
    ensures TrimEnd(s + w) == TrimEnd(s)
    decreases |w|
  {
    if w != [] {
      assert (s + w)[|s + w| - 1] == w[|w| - 1];
      assert (s + w)[..|s + w| - 1] == s + w[..|w| - 1];
      TrimEndSkipsWhitespace(s, w[..|w| - 1]);
    } else {
      assert s + w == s;
    }
  }

  lemma TrimStartOfSuffixed(s: string, w: string)
    requires AllWhitespace(w)
    ensures TrimStart(s + w) == TrimStart(s) + w || (TrimStart(s) == [] && AllWhitespace(TrimStart(s + w)))
    decreases |s|
  {
    if s != [] {
      assert (s + w)[1..] == s[1..] + w;
      if IsWhitespace(s[0]) {
        TrimStartOfSuffixed(s[1..], w);
      }
    } else {
      assert s + w == w;
      TrimStartRemovesPrefix(w);
    }
  }

  /** Whitespace added at either end does not change what `strip` returns. */
  lemma StripIgnoresPadding(lead: string, s: string, trail: string)
    requires AllWhitespace(lead) && AllWhitespace(trail)
    ensures Strip(lead + s + trail) == Strip(s)
  {
    assert lead + s + trail == lead + (s + trail);
    TrimStartSkipsWhitespace(lead, s + trail);
    TrimStartOfSuffixed(s, trail);
    if TrimStart(s + trail) == TrimStart(s) + trail {
      TrimEndSkipsWhitespace(TrimStart(s), trail);
    } else {
      var t := TrimStart(s + trail);
      assert TrimEnd(t) == [] by {
        TrimEndSkipsWhitespace([], t);
        assert [] + t == t;
      }
    }
  }

  lemma LowerIdempotent(s: string)
    ensures Lower(Lower(s)) == Lower(s)
  {
  }

  /** Title-casing only changes case: lowering its result lowers the input. */
  lemma LowerOfTitle(s: string)
    ensures Lower(Title(s)) == Lower(s)
  {
  }

  /** Title-casing a title-cased string changes nothing. */
  lemma TitleIdempotent(s: string)
    ensures Title(Title(s)) == Title(s)
  {
  }

  /** Case mapping keeps whitespace in place, so title-casing a stripped string leaves it stripped. */
  lemma TitleKeepsStripped(s: string)
    requires Stripped(s)
    ensures Stripped(Title(s))
  {
  }
}
