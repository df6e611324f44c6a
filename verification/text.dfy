/** String operations the embedder relies on: ASCII lower-casing, ordinal
    substring search and splitting on a separator character. Strings are
    sequences of characters, and one character is one Unicode scalar value;
    README "## Left out" says where this differs from the UTF-16 code units
    of C# strings. */
module Text {

  /** Lower-cases one character: ASCII capitals map to their small letters,
      every other character is kept. */
  function LowerChar(c: char): (r: char)
    ensures 'A' <= c <= 'Z' ==> 'a' <= r <= 'z' && r as int - c as int == 32
    ensures !('A' <= c <= 'Z') ==> r == c
  {
    if 'A' <= c <= 'Z' then (c as int + 32) as char else c
  }

  /** True when the string holds no ASCII capital letter. */
  predicate IsLower(s: string)
  {
    forall i :: 0 <= i < |s| ==> !('A' <= s[i] <= 'Z')
  }

  /** Lower-cases a string character by character (the model of
      `ToLowerInvariant`). The result has the same length and no capitals;
      each capital becomes its small letter, 32 code points further on, and
      every other character is kept. */
  function Lower(s: string): (r: string)
    ensures |r| == |s|
    ensures IsLower(r)
    ensures forall i :: 0 <= i < |s| && 'A' <= s[i] <= 'Z' ==> r[i] as int == s[i] as int + 32
    ensures forall i :: 0 <= i < |s| && !('A' <= s[i] <= 'Z') ==> r[i] == s[i]
  {
    seq(|s|, i requires 0 <= i < |s| => LowerChar(s[i]))
  }

  /** A string without capitals is its own lower-cased form. */
  lemma LowerOfLower(s: string)
    requires IsLower(s)
    ensures Lower(s) == s
  {
  }

  /** Lower-casing is idempotent. */
  lemma LowerIdempotent(s: string)
    ensures Lower(Lower(s)) == Lower(s)
  {
    LowerOfLower(Lower(s));
  }

  /** Lower-casing works character by character, so it distributes over
      concatenation. */
  lemma LowerConcat(a: string, b: string)
    ensures Lower(a + b) == Lower(a) + Lower(b)
  {
    assert forall i :: 0 <= i < |a + b| ==> Lower(a + b)[i] == (Lower(a) + Lower(b))[i];
  }

  /** `p` occurs in `s` starting at position `i`. */
  predicate OccursAt(s: string, p: string, i: int)
  {
    0 <= i && i + |p| <= |s| && s[i..i + |p|] == p
  }

  /** Ordinal substring test (the model of `string.Contains`): some position
      holds the pattern. The empty pattern is contained in every string, a
      pattern longer than the string never is, and a pattern as long as the
      string is contained exactly when it is the string. */
  predicate Contains(s: string, p: string)
    ensures |p| == 0 ==> Contains(s, p)
    ensures Contains(s, p) ==> |p| <= |s|
    ensures |p| == |s| ==> (Contains(s, p) <==> s == p)
  {
    assert |p| <= |s| ==> (OccursAt(s, p, 0) <==> s[..|p|] == p);
    exists i | 0 <= i <= |s| - |p| :: OccursAt(s, p, i)
  }

  /** A pattern occurring at a known position is contained. */
  lemma ContainsAt(s: string, p: string, i: int)
    requires OccursAt(s, p, i)
    ensures Contains(s, p)
  {
  }

  /** A pattern is contained in any string built around it. */
  lemma ContainsInside(a: string, p: string, b: string)
    ensures Contains(a + p + b, p)
  {
    assert (a + p + b)[|a|..|a| + |p|] == p;
    assert OccursAt(a + p + b, p, |a|);
  }

  /** Containment in a part carries over to the whole. */
  lemma ContainsConcat(x: string, y: string, p: string)
    ensures Contains(x, p) ==> Contains(x + y, p)
    ensures Contains(y, p) ==> Contains(x + y, p)
  {
    if Contains(x, p) {
      var i :| 0 <= i <= |x| - |p| && OccursAt(x, p, i);
      assert (x + y)[i..i + |p|] == x[i..i + |p|];
      assert OccursAt(x + y, p, i);
    }
    if Contains(y, p) {
      var i :| 0 <= i <= |y| - |p| && OccursAt(y, p, i);
      assert (x + y)[|x| + i..|x| + i + |p|] == y[i..i + |p|];
      assert OccursAt(x + y, p, |x| + i);
    }
  }

  /** A small letter absent from a string in both cases is absent from its
      lower-cased form. */
  lemma LowerKeepsAbsence(s: string, c: char)
    requires 'a' <= c <= 'z'
    requires c !in s && (c as int - 32) as char !in s
    ensures c !in Lower(s)
  {
    forall i | 0 <= i < |s|
      ensures Lower(s)[i] != c
    {
      assert s[i] != c && s[i] != (c as int - 32) as char;
    }
  }

  /** Every character of a contained pattern is a character of the string. */
  lemma ContainsChars(s: string, p: string)
    ensures Contains(s, p) ==> forall k :: 0 <= k < |p| ==> p[k] in s
  {
    if Contains(s, p) {
      var i :| 0 <= i <= |s| - |p| && OccursAt(s, p, i);
      forall k | 0 <= k < |p|
        ensures p[k] in s
      {
        assert s[i..i + |p|][k] == s[i + k];
      }
    }
  }

  /** A string lacking some character of the pattern does not contain it. */
  lemma NotContainsMissingChar(s: string, p: string, c: char)
    requires c in p && c !in s
    ensures !Contains(s, p)
  {
    ContainsChars(s, p);
  }

  /** A string shorter than the pattern does not contain it. */
  lemma NotContainsShort(s: string, p: string)
    requires |s| < |p|
    ensures !Contains(s, p)
  {
  }

  /** An occurrence that straddles position `|s1|` of `s1 + [x] + s2` has
      `x` among the pattern's characters. */
  lemma StraddleHasChar(s1: string, x: char, s2: string, p: string, i: int)
    ensures OccursAt(s1 + [x] + s2, p, i) && i <= |s1| < i + |p| ==> x in p
  {
    var s := s1 + [x] + s2;
    if OccursAt(s, p, i) && i <= |s1| < i + |p| {
      assert s[i..i + |p|][|s1| - i] == s[|s1|];
    }
  }

  /** An occurrence of a pattern in `s1 + [x] + s2`, where `x` is not a
      character of the pattern, lies wholly inside `s1` or wholly inside `s2`. */
  lemma ContainsAcross(s1: string, x: char, s2: string, p: string)
    requires x !in p
    ensures Contains(s1 + [x] + s2, p) ==> Contains(s1, p) || Contains(s2, p)
  {
    var s := s1 + [x] + s2;
    if Contains(s, p) {
      var i :| 0 <= i <= |s| - |p| && OccursAt(s, p, i);
      StraddleHasChar(s1, x, s2, p, i);
      if i + |p| <= |s1| {
        assert s1[i..i + |p|] == s[i..i + |p|];
        ContainsAt(s1, p, i);
      } else {
        var j := i - |s1| - 1;
        assert s[|s1| + 1..] == s2;
        assert s2[j..j + |p|] == s[|s1| + 1..][j..j + |p|] == s[i..i + |p|];
        ContainsAt(s2, p, j);
      }
    }
  }

  /** The negative form used on literals: splitting the string around a
      character absent from the pattern reduces the question to the pieces. */
  lemma NotContainsAcross(s1: string, x: char, s2: string, p: string)
    requires x !in p && !Contains(s1, p) && !Contains(s2, p)
    ensures !Contains(s1 + [x] + s2, p)
  {
    ContainsAcross(s1, x, s2, p);
  }

  /** Splits a string at every occurrence of `sep` (the model of
      `string.Split(char)`): adjacent or surrounding separators give empty
      parts, and there is always at least one part. */
  function Split(s: string, sep: char): (parts: seq<string>)
    ensures |parts| >= 1
    ensures forall i :: 0 <= i < |parts| ==> sep !in parts[i]
    decreases |s|
  {
    if |s| == 0 then [""]
    else
      var rest := Split(s[1..], sep);
      if s[0] == sep then [""] + rest
      else [[s[0]] + rest[0]] + rest[1..]
  }

  /** Joins parts with the separator between consecutive parts. */
  function Join(parts: seq<string>, sep: char): string
    requires |parts| >= 1
    decreases |parts|
  {
    if |parts| == 1 then parts[0]
    else parts[0] + [sep] + Join(parts[1..], sep)
  }

  /** Joining the parts of a split gives back the original string. */
  lemma {:induction false} JoinSplit(s: string, sep: char)
    ensures Join(Split(s, sep), sep) == s
    decreases |s|
  {
    if |s| > 0 {
      JoinSplit(s[1..], sep);
      var rest := Split(s[1..], sep);
      if s[0] == sep {
        assert ([""] + rest)[1..] == rest;
      } else {
        var parts := [[s[0]] + rest[0]] + rest[1..];
        if |rest| == 1 {
          assert parts == [[s[0]] + rest[0]];
        } else {
          assert parts[1..] == rest[1..];
          assert Join(rest, sep) == rest[0] + [sep] + Join(rest[1..], sep);
        }
      }
    }
  }

  /** Splitting a join of separator-free parts gives back the parts. */
  lemma {:induction false} SplitJoin(parts: seq<string>, sep: char)
    requires |parts| >= 1
    requires forall i :: 0 <= i < |parts| ==> sep !in parts[i]
    ensures Split(Join(parts, sep), sep) == parts
    decreases |parts|, |parts[0]|
  {
    var s := Join(parts, sep);
    if |parts| == 1 {
      SplitFree(parts[0], sep);
    } else if |parts[0]| == 0 {
      SplitJoin(parts[1..], sep);
      assert s == [sep] + Join(parts[1..], sep);
      assert s[1..] == Join(parts[1..], sep);
      assert parts == [""] + parts[1..];
    } else {
      var shorter := [parts[0][1..]] + parts[1..];
      assert shorter[1..] == parts[1..];
      SplitJoin(shorter, sep);
      assert s[0] == parts[0][0];
      assert s[1..] == Join(shorter, sep);
      assert parts[0] == [s[0]] + parts[0][1..];
    }
  }

  /** A string without the separator splits into itself. */
  lemma {:induction false} SplitFree(s: string, sep: char)
    requires sep !in s
    ensures Split(s, sep) == [s]
    decreases |s|
  {
    if |s| > 0 {
      SplitFree(s[1..], sep);
      assert s == [s[0]] + s[1..];
    }
  }
}
