/**
 * Comma-separated user input and the symptom-id normal form
 * `s.strip().lower().replace(" ", "_")` shared by training and by both
 * command-line front ends.
 */
module Tokens {
  import opened Text

  /** `s.strip().lower().replace(" ", "_")`: the normal form of a symptom id. */
  function NormalizeToken(s: string): (r: string)
    ensures |r| == |Strip(s)|
    ensures Stripped(r)
    ensures forall i :: 0 <= i < |r| ==> r[i] != ' ' && !IsUpperLetter(r[i])
    ensures forall i :: 0 <= i < |r| ==> r[i] == (if Strip(s)[i] == ' ' then '_' else LowerChar(Strip(s)[i]))
  {
    ReplaceChar(Lower(Strip(s)), ' ', '_')
  }

  /** A string already in symptom-id normal form. */
  predicate IsNormalized(s: string) {
    Stripped(s) && forall i :: 0 <= i < |s| ==> s[i] != ' ' && !IsUpperLetter(s[i])
  }

  /** Normalising twice is normalising once; the normal forms are exactly its fixed points. */
  lemma NormalizeTokenFixedPoints(s: string)
    ensures IsNormalized(NormalizeToken(s))
    ensures IsNormalized(s) <==> NormalizeToken(s) == s
  {
    if IsNormalized(s) {
      StripStripped(s);
    }
  }

  /** A word of letters has nothing to strip and no space, so normalising only lowers it. */
  lemma NormalizeLetters(s: string)
    requires forall i :: 0 <= i < |s| ==> IsCased(s[i])
    ensures NormalizeToken(s) == Lower(s)
  {
    assert Stripped(s) by {
      if s != [] {
        assert IsCased(s[0]) && IsCased(s[|s| - 1]);
      }
    }
    StripStripped(s);
  }

  /** `s.split(sep)`: the pieces between separators, empty ones included. */
  function Split(s: string, sep: char): (r: seq<string>)
    ensures |r| >= 1
    ensures forall k :: 0 <= k < |r| ==> sep !in r[k]
  {
    if s == [] then [[]]
    else
      var rest := Split(s[1..], sep);
      if s[0] == sep then [[]] + rest else [[s[0]] + rest[0]] + rest[1..]
  }

  /** `sep.join(pieces)` */
  function Join(pieces: seq<string>, sep: char): string
    requires |pieces| >= 1
  {
    if |pieces| == 1 then pieces[0] else pieces[0] + [sep] + Join(pieces[1..], sep)
  }

  /** Joining the pieces gives back the original text. */
  lemma {:induction false} JoinSplit(s: string, sep: char)
    ensures Join(Split(s, sep), sep) == s
  {
    if s != [] {
      var rest := Split(s[1..], sep);
      JoinSplit(s[1..], sep);
      if s[0] == sep {
        assert Split(s, sep) == [[]] + rest;
        assert Split(s, sep)[1..] == rest;
      } else {
        var r := Split(s, sep);
        assert r == [[s[0]] + rest[0]] + rest[1..];
        if |rest| == 1 {
          assert Join(r, sep) == [s[0]] + rest[0];
        } else {
          assert r[1..] == rest[1..];
          assert Join(r, sep) == [s[0]] + (rest[0] + [sep] + Join(rest[1..], sep));
        }
      }
      assert s == [s[0]] + s[1..];
    }
  }

  lemma {:induction false} SplitWithoutSeparator(p: string, sep: char)
    requires sep !in p
    ensures Split(p, sep) == [p]
  {
    if p != [] {
      SplitWithoutSeparator(p[1..], sep);
      assert p == [p[0]] + p[1..];
    }
  }

  lemma {:induction false} SplitAfterPiece(p: string, sep: char, t: string)
    requires sep !in p
    ensures Split(p + [sep] + t, sep) == [p] + Split(t, sep)
  {
    if p == [] {
      assert p + [sep] + t == [sep] + t;
      assert ([sep] + t)[1..] == t;
    } else {
      var s := p + [sep] + t;
      assert s[1..] == p[1..] + [sep] + t;
      SplitAfterPiece(p[1..], sep, t);
      assert [p[0]] + p[1..] == p;
    }
  }

  /** Splitting the joined pieces gives back the pieces, when none holds the separator. */
  lemma {:induction false} SplitJoin(pieces: seq<string>, sep: char)
    requires |pieces| >= 1
    requires forall k :: 0 <= k < |pieces| ==> sep !in pieces[k]
    ensures Split(Join(pieces, sep), sep) == pieces
  {
    if |pieces| == 1 {
      SplitWithoutSeparator(pieces[0], sep);
    } else {
      SplitJoin(pieces[1..], sep);
      SplitAfterPiece(pieces[0], sep, Join(pieces[1..], sep));
      assert pieces == [pieces[0]] + pieces[1..];
    }
  }

  /** Text without separators in front of `s` only lengthens the first piece. */
  lemma {:induction false} SplitPrepend(w: string, s: string, sep: char)
    requires sep !in w
    ensures Split(w + s, sep) == [w + Split(s, sep)[0]] + Split(s, sep)[1..]
  {
    if w == [] {
      assert w + s == s;
      assert w + Split(s, sep)[0] == Split(s, sep)[0];
      assert Split(s, sep) == [Split(s, sep)[0]] + Split(s, sep)[1..];
    } else {
      assert (w + s)[0] == w[0];
      assert (w + s)[1..] == w[1..] + s;
      SplitPrepend(w[1..], s, sep);
      assert [w[0]] + (w[1..] + Split(s, sep)[0]) == w + Split(s, sep)[0];
    }
  }

  /** Text without separators after `s` only lengthens the last piece. */
  lemma {:induction false} SplitAppend(s: string, w: string, sep: char)
    requires sep !in w
    ensures var a := Split(s, sep);
      Split(s + w, sep) == a[..|a| - 1] + [a[|a| - 1] + w]
  {
    if s == [] {
      assert s + w == w;
      SplitWithoutSeparator(w, sep);
    } else {
      assert (s + w)[0] == s[0];
      assert (s + w)[1..] == s[1..] + w;
      SplitAppend(s[1..], w, sep);
      var rest := Split(s[1..], sep);
      if s[0] == sep {
        ExtendLastAfterEmpty(rest, w);
      } else {
        ExtendLastAfterFirst(s[0], rest, w);
      }
    }
  }

  lemma ExtendLastAfterEmpty(rest: seq<string>, w: string)
    requires |rest| >= 1
    ensures var a := [[]] + rest;
      [[]] + (rest[..|rest| - 1] + [rest[|rest| - 1] + w]) == a[..|a| - 1] + [a[|a| - 1] + w]
  {
    var a := [[]] + rest;
    assert a[..|a| - 1] == [[]] + rest[..|rest| - 1];
  }

  lemma ExtendLastAfterFirst(c: char, rest: seq<string>, w: string)
    requires |rest| >= 1
    ensures var restW := rest[..|rest| - 1] + [rest[|rest| - 1] + w];
      var a := [[c] + rest[0]] + rest[1..];
      [[c] + restW[0]] + restW[1..] == a[..|a| - 1] + [a[|a| - 1] + w]
  {
    var restW := rest[..|rest| - 1] + [rest[|rest| - 1] + w];
    var a := [[c] + rest[0]] + rest[1..];
    if |rest| == 1 {
      assert [c] + (rest[0] + w) == ([c] + rest[0]) + w;
    } else {
      assert restW[0] == rest[0];
      assert restW[1..] == rest[1..][..|rest| - 2] + [rest[|rest| - 1] + w];
      assert a[..|a| - 1] == [[c] + rest[0]] + rest[1..][..|rest| - 2];
    }
  }

  /** The pieces kept and normalised: `[p.strip().lower().replace(" ", "_") for p in pieces if p.strip() != ""]`. */
  function CleanPieces(pieces: seq<string>): (r: seq<string>)
    ensures |r| <= |pieces|
    ensures forall t :: t in r <==>
      exists k :: 0 <= k < |pieces| && Strip(pieces[k]) != [] && t == NormalizeToken(pieces[k])
  {
    if pieces == [] then []
    else
      var rest := CleanPieces(pieces[1..]);
      assert forall k :: 1 <= k < |pieces| ==> pieces[k] == pieces[1..][k - 1];
      if Strip(pieces[0]) != [] then [NormalizeToken(pieces[0])] + rest else rest
  }

  /**
   * Order and multiplicity: cleaning works piece by piece, left to right, so a
   * piece is kept once per occurrence and in the typed order.
   */
  lemma {:induction false} CleanPiecesPieceByPiece(a: seq<string>, b: seq<string>, p: string)
    ensures CleanPieces(a + b) == CleanPieces(a) + CleanPieces(b)
    ensures CleanPieces([p]) == if Strip(p) != [] then [NormalizeToken(p)] else []
  {
    if a != [] {
      assert (a + b)[0] == a[0];
      assert (a + b)[1..] == a[1..] + b;
      CleanPiecesPieceByPiece(a[1..], b, p);
    } else {
      assert a + b == b;
    }
    assert [p][1..] == [];
  }

  /** Comma-separated user input turned into candidate symptom ids (blank pieces dropped). */
  function CleanTokens(raw: string): (r: seq<string>)
    ensures forall k :: 0 <= k < |r| ==> r[k] != [] && ',' !in r[k] && IsNormalized(r[k])
    ensures forall t :: t in r <==>
      exists p :: p in Split(raw, ',') && Strip(p) != [] && t == NormalizeToken(p)
  {
    var pieces := Split(raw, ',');
    var r := CleanPieces(pieces);
    assert forall k :: 0 <= k < |r| ==> r[k] != [] && ',' !in r[k] && IsNormalized(r[k]) by {
      forall k | 0 <= k < |r|
        ensures r[k] != [] && ',' !in r[k] && IsNormalized(r[k])
      {
        assert r[k] in r;
        var j :| 0 <= j < |pieces| && Strip(pieces[j]) != [] && r[k] == NormalizeToken(pieces[j]);
        assert ',' !in pieces[j];
        NoSeparatorSurvivesNormalizing(pieces[j]);
        NormalizeTokenFixedPoints(pieces[j]);
      }
    }
    r
  }

  lemma NoSeparatorSurvivesNormalizing(p: string)
    requires ',' !in p
    ensures ',' !in NormalizeToken(p)
  {
    var lead, trail := StripDecompose(p);
    assert forall i :: 0 <= i < |Strip(p)| ==> Strip(p)[i] == p[|lead| + i];
  }

  /** Pieces that strip to the same text clean to the same tokens. */
  lemma {:induction false} CleanPiecesDependsOnStrip(ps: seq<string>, qs: seq<string>)
    requires |ps| == |qs|
    requires forall k :: 0 <= k < |ps| ==> Strip(ps[k]) == Strip(qs[k])
    ensures CleanPieces(ps) == CleanPieces(qs)
  {
    if ps != [] {
      CleanPiecesDependsOnStrip(ps[1..], qs[1..]);
    }
  }

  /**
   * Stripping the whole line before splitting changes nothing: the interactive
   * front end that strips first and the one that does not clean alike.
   */
  lemma CleanTokensIgnoresOuterWhitespace(raw: string)
    ensures CleanTokens(Strip(raw)) == CleanTokens(raw)
  {
    var x := Strip(raw);
    var lead, trail := StripDecompose(raw);
    assert ',' !in lead && ',' !in trail by {
      assert !IsWhitespace(',');
    }
    var a := Split(x, ',');
    var c := Split(lead + x + trail, ',');
    SplitOfPadded(lead, x, trail, ',');
    forall k | 0 <= k < |a|
      ensures Strip(c[k]) == Strip(a[k])
    {
      var pre: string := if k == 0 then lead else [];
      var post: string := if k == |a| - 1 then trail else [];
      StripIgnoresPadding(pre, a[k], post);
    }
    CleanPiecesDependsOnStrip(c, a);
    assert raw == lead + x + trail;
  }

  /** Text without separators around `x` only lengthens its first and last pieces. */
  lemma SplitOfPadded(lead: string, x: string, trail: string, sep: char)
    requires sep !in lead && sep !in trail
    ensures var a := Split(x, sep);
      var c := Split(lead + x + trail, sep);
      |c| == |a| &&
      forall k :: 0 <= k < |a| ==>
        c[k] == (if k == 0 then lead else []) + a[k] + (if k == |a| - 1 then trail else [])
  {
    var a := Split(x, sep);
    SplitPrepend(lead, x, sep);
    var b := Split(lead + x, sep);
    assert b == [lead + a[0]] + a[1..];
    SplitAppend(lead + x, trail, sep);
    var c := Split(lead + x + trail, sep);
    assert c == b[..|b| - 1] + [b[|b| - 1] + trail];
    forall k | 0 <= k < |a|
      ensures c[k] == (if k == 0 then lead else []) + a[k] + (if k == |a| - 1 then trail else [])
    {
    }
  }
}
