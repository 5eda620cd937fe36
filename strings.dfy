/**
 * The Python string operations the question-answering code relies on:
 * `str.lower`, the `in` substring test, `str.split(sep)` and `str.strip()`.
 */
module Strings {

  // ---------------------------------------------------------------------------
  // Lower-casing (ASCII letters only)

  function LowerChar(c: char): char
  {
    if 'A' <= c <= 'Z' then (c as int + 32) as char else c
  }

  /** `s.lower()`, restricted to the letters A to Z. */
  function Lower(s: string): (r: string)
    ensures |r| == |s|
    ensures forall i :: 0 <= i < |r| ==> !('A' <= r[i] <= 'Z')
    ensures forall i :: 0 <= i < |s| ==>
      r[i] == s[i] || ('A' <= s[i] <= 'Z' && r[i] as int == s[i] as int + 32)
  {
    seq(|s|, i requires 0 <= i < |s| => LowerChar(s[i]))
  }

  /** Lower-casing twice is lower-casing once. */
  lemma LowerIdempotent(s: string)
    ensures Lower(Lower(s)) == Lower(s)
  {
    var t := Lower(s);
    assert forall i :: 0 <= i < |t| ==> Lower(t)[i] == t[i];
  }

  // ---------------------------------------------------------------------------
  // Substrings: Python's `needle in hay`

  /** `needle` is found in `hay` starting at index `i`. */
  ghost predicate OccursAt(needle: string, hay: string, i: int)
  {
    0 <= i && i + |needle| <= |hay| && hay[i..i + |needle|] == needle
  }

  /** The meaning of `needle in hay`: some slice of `hay` equals `needle`. */
  ghost predicate Occurs(needle: string, hay: string)
  {
    exists i :: OccursAt(needle, hay, i)
  }

  /** `needle in hay`, computed by trying every start position from the left. */
  function Contains(hay: string, needle: string): bool
    decreases |hay|
  {
    if needle <= hay then true
    else if hay == [] then false
    else Contains(hay[1..], needle)
  }

  /** The scan agrees with the meaning of `in`, in both directions. */
  lemma {:induction false} ContainsIsOccurs(hay: string, needle: string)
    ensures Contains(hay, needle) <==> Occurs(needle, hay)
    decreases |hay|
  {
    if needle <= hay {
      assert OccursAt(needle, hay, 0);
    } else if hay == [] {
      assert needle != [];
    } else {
      ContainsIsOccurs(hay[1..], needle);
      assert !OccursAt(needle, hay, 0);
      if Occurs(needle, hay[1..]) {
        var j :| OccursAt(needle, hay[1..], j);
        OccursShift(needle, hay, j);
      }
      if Occurs(needle, hay) {
        var i :| OccursAt(needle, hay, i);
        assert i != 0;
        OccursShift(needle, hay, i - 1);
      }
    }
  }

  /** An occurrence in `hay[1..]` is an occurrence in `hay` one place later. */
  lemma OccursShift(needle: string, hay: string, j: int)
    requires hay != [] && 0 <= j
    ensures OccursAt(needle, hay[1..], j) <==> OccursAt(needle, hay, j + 1)
  {
    if j + 1 + |needle| <= |hay| {
      assert hay[1..][j..j + |needle|] == hay[j + 1..j + 1 + |needle|];
    }
  }

  /** The middle part of a concatenation occurs right after the first part. */
  lemma OccursInMiddle(a: string, b: string, c: string)
    ensures OccursAt(b, a + b + c, |a|)
  {
    assert (a + b + c)[|a|..|a| + |b|] == b;
  }

  /** Whether `hay` contains `needle` depends only on `hay` itself, so a needle
      that occurs in a slice of `hay` occurs in `hay`. */
  lemma OccursInSlice(needle: string, hay: string, lo: int, hi: int)
    requires 0 <= lo <= hi <= |hay|
    requires Occurs(needle, hay[lo..hi])
    ensures Occurs(needle, hay)
  {
    var i :| OccursAt(needle, hay[lo..hi], i);
    forall k | 0 <= k < |needle| ensures hay[lo + i + k] == needle[k] {
      assert needle[k] == hay[lo..hi][i + k];
    }
    assert hay[lo + i..lo + i + |needle|] == needle;
    assert OccursAt(needle, hay, lo + i);
  }

  /** A substring of a substring of `c` is a substring of `c`. */
  lemma OccursTransitive(a: string, b: string, c: string)
    requires Occurs(a, b) && Occurs(b, c)
    ensures Occurs(a, c)
  {
    var i :| OccursAt(a, b, i);
    var j :| OccursAt(b, c, j);
    assert c[j..j + |b|] == b;
    OccursInSlice(a, c, j, j + |b|);
  }

  /** A character absent from `hay` is absent from every substring of it. */
  lemma OccursWithout(needle: string, hay: string, c: char)
    requires Occurs(needle, hay) && c !in hay
    ensures c !in needle
  {
    var i :| OccursAt(needle, hay, i);
    assert forall k :: 0 <= k < |needle| ==> needle[k] == hay[i + k];
  }

  // ---------------------------------------------------------------------------
  // Splitting on a separator: Python's `s.split(sep)` for a one-character sep

  /** The pieces of `s` between occurrences of `sep`; there is always one
      more piece than there are separators, so "" gives [""]. */
  function Split(s: string, sep: char): (r: seq<string>)
    ensures |r| >= 1
    ensures forall k :: 0 <= k < |r| ==> sep !in r[k]
    decreases |s|
  {
    if s == [] then [[]]
    else
      var rest := Split(s[1..], sep);
      if s[0] == sep then [[]] + rest
      else [[s[0]] + rest[0]] + rest[1..]
  }

  /** Python's `sep.join(pieces)`. */
  function Join(pieces: seq<string>, sep: char): string
    decreases |pieces|
  {
    if pieces == [] then []
    else if |pieces| == 1 then pieces[0]
    else pieces[0] + [sep] + Join(pieces[1..], sep)
  }

  /** Joining the pieces back with the separator gives the original text:
      splitting loses nothing. */
  lemma {:induction false} JoinSplit(s: string, sep: char)
    ensures Join(Split(s, sep), sep) == s
    decreases |s|
  {
    if s != [] {
      var rest := Split(s[1..], sep);
      JoinSplit(s[1..], sep);
      if s[0] == sep {
        var r := [[]] + rest;
        assert r[0] == [] && r[1..] == rest;
        assert Join(r, sep) == [sep] + Join(rest, sep);
      } else {
        var r := [[s[0]] + rest[0]] + rest[1..];
        if |rest| == 1 {
          assert Join(r, sep) == [s[0]] + rest[0];
        } else {
          assert r[1..] == rest[1..];
          assert Join(r, sep) == [s[0]] + rest[0] + [sep] + Join(rest[1..], sep);
          assert Join(rest, sep) == rest[0] + [sep] + Join(rest[1..], sep);
        }
      }
    }
  }

  lemma {:induction false} SplitNoSeparator(p: string, sep: char)
    requires sep !in p
    ensures Split(p, sep) == [p]
    decreases |p|
  {
    if p != [] {
      SplitNoSeparator(p[1..], sep);
      assert [p[0]] + p[1..] == p;
    }
  }

  lemma {:induction false} SplitAfterPiece(p: string, sep: char, t: string)
    requires sep !in p
    ensures Split(p + [sep] + t, sep) == [p] + Split(t, sep)
    decreases |p|
  {
    if p == [] {
      assert p + [sep] + t == [sep] + t;
      assert ([sep] + t)[1..] == t;
    } else {
      var s := p + [sep] + t;
      assert s[1..] == p[1..] + [sep] + t;
      SplitAfterPiece(p[1..], sep, t);
      assert [p[0]] + p[1..] == p;
    }
  }

  /** Splitting a join of separator-free pieces gives the pieces back. */
  lemma {:induction false} SplitJoin(pieces: seq<string>, sep: char)
    requires |pieces| >= 1
    requires forall k :: 0 <= k < |pieces| ==> sep !in pieces[k]
    ensures Split(Join(pieces, sep), sep) == pieces
    decreases |pieces|
  {
    if |pieces| == 1 {
      SplitNoSeparator(pieces[0], sep);
    } else {
      SplitJoin(pieces[1..], sep);
      SplitAfterPiece(pieces[0], sep, Join(pieces[1..], sep));
      assert [pieces[0]] + pieces[1..] == pieces;
    }
  }

  /** Every piece of a split is a slice of the text. */
  lemma {:induction false} SplitPieceOccurs(s: string, sep: char, k: nat)
    requires k < |Split(s, sep)|
    ensures Occurs(Split(s, sep)[k], s)
    decreases |s|
  {
    var r := Split(s, sep);
    if s == [] {
      assert OccursAt(r[k], s, 0);
    } else {
      var rest := Split(s[1..], sep);
      if s[0] == sep {
        if k == 0 {
          assert OccursAt(r[k], s, 0);
        } else {
          SplitPieceOccurs(s[1..], sep, k - 1);
          assert r[k] == rest[k - 1] && s[1..|s|] == s[1..];
          OccursInSlice(r[k], s, 1, |s|);
        }
      } else if k == 0 {
        SplitPieceOccurs(s[1..], sep, 0);
        var i :| OccursAt(rest[0], s[1..], i);
        // the first piece of the rest starts right at index 0 of s[1..]
        FirstPieceIsPrefix(s[1..], sep);
        assert r[0] == [s[0]] + rest[0];
        assert s[..1 + |rest[0]|] == [s[0]] + s[1..][..|rest[0]|];
        assert OccursAt(r[0], s, 0);
      } else {
        SplitPieceOccurs(s[1..], sep, k);
        assert r[k] == rest[k] && s[1..|s|] == s[1..];
        OccursInSlice(r[k], s, 1, |s|);
      }
    }
  }

  lemma {:induction false} FirstPieceIsPrefix(s: string, sep: char)
    ensures Split(s, sep)[0] <= s
    decreases |s|
  {
    if s != [] && s[0] != sep {
      FirstPieceIsPrefix(s[1..], sep);
    }
  }

  // ---------------------------------------------------------------------------
  // Stripping white space: Python's `s.strip()`

  /** The characters for which Python's `str.isspace()` holds. */
  predicate IsSpace(c: char)
  {
    || c == ' '
    || '\t' <= c <= '\r'
    || '\U{1C}' <= c <= '\U{1F}'
    || c == '\U{85}' || c == '\U{A0}' || c == '\U{1680}'
    || '\U{2000}' <= c <= '\U{200A}'
    || c == '\U{2028}' || c == '\U{2029}' || c == '\U{202F}' || c == '\U{205F}'
    || c == '\U{3000}'
  }

  /** `s.lstrip()`: a suffix of `s` whose dropped prefix is all white space. */
  function TrimStart(s: string): (r: string)
    ensures |r| <= |s| && r == s[|s| - |r|..]
    ensures forall k :: 0 <= k < |s| - |r| ==> IsSpace(s[k])
    ensures r == [] || !IsSpace(r[0])
    decreases |s|
  {
    if s != [] && IsSpace(s[0]) then TrimStart(s[1..]) else s
  }

  /** `s.rstrip()`: a prefix of `s` whose dropped suffix is all white space. */
  function TrimEnd(s: string): (r: string)
    ensures |r| <= |s| && r == s[..|r|]
    ensures forall k :: |r| <= k < |s| ==> IsSpace(s[k])
    ensures r == [] || !IsSpace(r[|r| - 1])
    decreases |s|
  {
    if s != [] && IsSpace(s[|s| - 1]) then TrimEnd(s[..|s| - 1]) else s
  }

  /** `r` is what is left of `s` at index `i` once white space is cut off both ends. */
  ghost predicate StrippedAt(s: string, r: string, i: int)
  {
    && OccursAt(r, s, i)
    && (forall k :: 0 <= k < i ==> IsSpace(s[k]))
    && (forall k :: i + |r| <= k < |s| ==> IsSpace(s[k]))
  }

  /** `s.strip()`. */
  function Strip(s: string): (r: string)
    ensures exists i :: StrippedAt(s, r, i)
    ensures r == [] || (!IsSpace(r[0]) && !IsSpace(r[|r| - 1]))
  {
    var t := TrimStart(s);
    var r := TrimEnd(t);
    TrimmedBothEnds(s, t, r);
    r
  }

  /** Cutting white space off the front of `s` and then off the back leaves a
      slice of `s` with only white space around it. */
  lemma TrimmedBothEnds(s: string, t: string, r: string)
    requires |t| <= |s| && t == s[|s| - |t|..]
    requires forall k :: 0 <= k < |s| - |t| ==> IsSpace(s[k])
    requires |r| <= |t| && r == t[..|r|]
    requires forall k :: |r| <= k < |t| ==> IsSpace(t[k])
    ensures StrippedAt(s, r, |s| - |t|)
  {
    var a := |s| - |t|;
    forall k | a + |r| <= k < |s| ensures IsSpace(s[k]) {
      assert s[k] == t[k - a];
    }
    assert s[a..a + |r|] == r;
  }

  /** What strip keeps is fixed by the two clauses of its contract: any slice
      of `s` with only white space around it and none at its own ends is it. */
  lemma StripUnique(s: string, r: string, i: int)
    requires StrippedAt(s, r, i)
    requires r == [] || (!IsSpace(r[0]) && !IsSpace(r[|r| - 1]))
    ensures r == Strip(s)
  {
    var r' := Strip(s);
    var i' :| StrippedAt(s, r', i');
    NonSpaceInside(s, r, i);
    NonSpaceInside(s, r', i');
    if r != [] {
      // both start at the first non-space of s and end after the last one
      var e := i + |r| - 1;
      assert s[i] == r[0] && s[e] == r[|r| - 1];
      assert r' != [];
      var e' := i' + |r'| - 1;
      assert s[i'] == r'[0] && s[e'] == r'[|r'| - 1];
      assert i == i' && e == e';
    } else {
      assert r' == [];
    }
  }

  /** Every character of `s` that is not white space lies inside what is kept. */
  lemma NonSpaceInside(s: string, r: string, i: int)
    requires StrippedAt(s, r, i)
    ensures forall k :: 0 <= k < |s| && !IsSpace(s[k]) ==> i <= k < i + |r|
  {
  }

  /** What strip keeps is a substring of the original. */
  lemma StripOccurs(s: string)
    ensures Occurs(Strip(s), s)
  {
    var i :| StrippedAt(s, Strip(s), i);
  }

  /** Stripping twice is stripping once. */
  lemma StripIdempotent(s: string)
    ensures Strip(Strip(s)) == Strip(s)
  {
    var r := Strip(s);
    assert r[0..|r|] == r;
    StripUnique(r, r, 0);
  }
}
