/**
 * The JavaScript string built-ins the converter relies on, over Dafny strings
 * (sequences of Unicode scalar values): `split` on one character,
 * `lastIndexOf` of one character, `toLowerCase` and `trim`.
 */
module JsString {
  import opened Wrappers

  /** `s.split(sep)` for a one-character separator: the pieces between separators, left to right. */
  function Split(s: string, sep: char): (parts: seq<string>)
    ensures |parts| >= 1
  {
    if s == [] then [[]]
    else
      var rest := Split(s[1..], sep);
      if s[0] == sep then [[]] + rest
      else [[s[0]] + rest[0]] + rest[1..]
  }

  /** No piece holds the separator, and there is one piece exactly when the string has no separator. */
  lemma {:induction false} SplitPieces(s: string, sep: char)
    ensures forall i :: 0 <= i < |Split(s, sep)| ==> sep !in Split(s, sep)[i]
    ensures |Split(s, sep)| == 1 <==> sep !in s
  {
    if s != [] {
      SplitPieces(s[1..], sep);
      assert s == [s[0]] + s[1..];
    }
  }

  /** `parts.join(sep)`: the inverse of Split. */
  function Join(parts: seq<string>, sep: char): string
    requires |parts| >= 1
  {
    if |parts| == 1 then parts[0] else parts[0] + [sep] + Join(parts[1..], sep)
  }

  /** `Array.prototype.pop` on a non-empty array, read as a value. */
  function Last<T>(xs: seq<T>): T
    requires |xs| >= 1
  {
    xs[|xs| - 1]
  }

  /** Splitting and joining again gives back the original string. */
  lemma {:induction false} JoinSplit(s: string, sep: char)
    ensures Join(Split(s, sep), sep) == s
  {
    if s != [] {
      var rest := Split(s[1..], sep);
      JoinSplit(s[1..], sep);
      if s[0] == sep {
        assert Split(s, sep)[1..] == rest;
      } else {
        var parts := Split(s, sep);
        assert parts[1..] == rest[1..];
        if |rest| == 1 {
          assert Join(parts, sep) == [s[0]] + rest[0];
        } else {
          assert Join(rest, sep) == rest[0] + [sep] + Join(rest[1..], sep);
          assert Join(parts, sep) == [s[0]] + rest[0] + [sep] + Join(rest[1..], sep);
        }
        assert [s[0]] + s[1..] == s;
      }
    }
  }

  /**
   * The last piece of a split is the longest suffix free of the separator: it is
   * the whole string, or it is preceded by a separator.
   */
  lemma {:induction false} LastPieceIsFinalSegment(s: string, sep: char)
    ensures |Last(Split(s, sep))| <= |s|
    ensures Last(Split(s, sep)) == s[|s| - |Last(Split(s, sep))|..]
    ensures |Last(Split(s, sep))| == |s| || s[|s| - |Last(Split(s, sep))| - 1] == sep
  {
    if s != [] {
      var tail := s[1..];
      var rest := Split(tail, sep);
      var parts := Split(s, sep);
      LastPieceIsFinalSegment(tail, sep);
      var l' := Last(rest);
      if s[0] != sep && |rest| == 1 {
        assert parts == [[s[0]] + rest[0]];
        JoinSplit(tail, sep);
        assert Last(parts) == [s[0]] + tail;
        assert [s[0]] + tail == s;
      } else {
        assert Last(parts) == l';
        assert s[|s| - |l'|..] == tail[|tail| - |l'|..];
        if |l'| == |tail| {
          assert s[0] == sep by {
            SplitPieces(tail, sep);
            assert l' == tail;
          }
          assert s[|s| - |l'| - 1] == s[0];
        } else {
          assert s[|s| - |l'| - 1] == tail[|tail| - |l'| - 1];
        }
      }
    }
  }

  /** `s.lastIndexOf(c)`, with -1 read as None. */
  function LastIndexOf(s: string, c: char): (r: Option<nat>)
    ensures r.None? <==> c !in s
    ensures r.Some? ==> r.value < |s| && s[r.value] == c
    ensures r.Some? ==> forall k :: r.value < k < |s| ==> s[k] != c
  {
    if s == [] then None
    else if s[|s| - 1] == c then Some(|s| - 1)
    else
      var init := s[..|s| - 1];
      assert s == init + [s[|s| - 1]];
      LastIndexOf(init, c)
  }

  /** No separator occurs in the part of the string that forms the last piece. */
  lemma LastPieceFreeOfSeparator(s: string, sep: char)
    ensures |Last(Split(s, sep))| <= |s|
    ensures forall k :: |s| - |Last(Split(s, sep))| <= k < |s| ==> s[k] != sep
  {
    var parts := Split(s, sep);
    var l := Last(parts);
    LastPieceIsFinalSegment(s, sep);
    SplitPieces(s, sep);
    assert sep !in parts[|parts| - 1];
    forall k | |s| - |l| <= k < |s| ensures s[k] != sep {
      assert s[k] == l[k - (|s| - |l|)];
    }
  }

  /** The last split piece is what follows the last separator, or the whole string when there is none. */
  lemma LastPieceAfterLastIndex(s: string, sep: char)
    ensures Last(Split(s, sep)) == match LastIndexOf(s, sep)
                                   case None => s
                                   case Some(p) => s[p + 1..]
  {
    var l := Last(Split(s, sep));
    LastPieceIsFinalSegment(s, sep);
    LastPieceFreeOfSeparator(s, sep);
    if |l| == |s| {
      assert l == s;
    } else {
      LastIndexUnique(s, sep, |s| - |l| - 1);
    }
  }

  /** A separator with no separator after it is the last one. */
  lemma LastIndexUnique(s: string, c: char, q: nat)
    requires q < |s| && s[q] == c
    requires forall k :: q < k < |s| ==> s[k] != c
    ensures LastIndexOf(s, c) == Some(q)
  {
    assert s[q] in s;
  }

  /** No separator follows the one between `stem` and a separator-free `suffix`. */
  lemma NoSeparatorAfterStem(stem: string, sep: char, suffix: string)
    requires sep !in suffix
    ensures forall k :: |stem| < k < |stem + [sep] + suffix| ==> (stem + [sep] + suffix)[k] != sep
  {
    var s := stem + [sep] + suffix;
    forall k | |stem| < k < |s| ensures s[k] != sep {
      assert s[k] == suffix[k - |stem| - 1];
    }
  }

  /** The last separator of `stem + [sep] + suffix` is the one after `stem` when `suffix` has none. */
  lemma LastIndexAfterStem(stem: string, sep: char, suffix: string)
    requires sep !in suffix
    ensures LastIndexOf(stem + [sep] + suffix, sep) == Some(|stem|)
  {
    NoSeparatorAfterStem(stem, sep, suffix);
    LastIndexUnique(stem + [sep] + suffix, sep, |stem|);
  }

  const KelvinSign: char := '\U{212A}'

  /**
   * `toLowerCase` on one character, for the characters whose lower case is an
   * ASCII letter: A-Z and the Kelvin sign (lower case `k`). Every other
   * character is kept as it is.
   */
  function LowerChar(c: char): char
  {
    if 'A' <= c <= 'Z' then (c as int + 32) as char
    else if c == KelvinSign then 'k'
    else c
  }

  predicate IsAsciiUpper(c: char) { 'A' <= c <= 'Z' }

  /** `s.toLowerCase()`, character by character. */
  function Lower(s: string): (r: string)
    ensures |r| == |s|
  {
    if s == [] then [] else [LowerChar(s[0])] + Lower(s[1..])
  }

  /** Each character of the result is the lower case of the character at the same place. */
  lemma {:induction false} LowerAt(s: string, i: nat)
    requires i < |s|
    ensures Lower(s)[i] == LowerChar(s[i])
  {
    if i > 0 {
      LowerAt(s[1..], i - 1);
    }
  }

  /** The result holds no upper-case ASCII letter and no Kelvin sign. */
  lemma LowerHasNoUpper(s: string)
    ensures forall i :: 0 <= i < |s| ==> !IsAsciiUpper(Lower(s)[i]) && Lower(s)[i] != KelvinSign
  {
    forall i | 0 <= i < |s| ensures !IsAsciiUpper(Lower(s)[i]) && Lower(s)[i] != KelvinSign {
      LowerAt(s, i);
    }
  }

  /** Lowering twice is lowering once. */
  lemma LowerIdempotent(s: string)
    ensures Lower(Lower(s)) == Lower(s)
  {
    forall i | 0 <= i < |s| ensures Lower(Lower(s))[i] == Lower(s)[i] {
      LowerAt(s, i);
      LowerAt(Lower(s), i);
    }
  }

  /**
   * The characters `trim` removes: ECMAScript WhiteSpace (TAB, VT, FF, ZWNBSP
   * and every space separator of category Zs) and LineTerminator (LF, CR, LS, PS).
   */
  predicate IsJsWhitespace(c: char)
  {
    c == '\t' || c == '\U{000B}' || c == '\U{000C}' || c == ' ' || c == '\U{00A0}' || c == '\U{FEFF}'
    || c == '\U{1680}' || ('\U{2000}' <= c <= '\U{200A}') || c == '\U{202F}' || c == '\U{205F}' || c == '\U{3000}'
    || c == '\n' || c == '\r' || c == '\U{2028}' || c == '\U{2029}'
  }

  /** Drops the leading whitespace of `s`. */
  function TrimStart(s: string): (r: string)
    ensures |r| <= |s| && r == s[|s| - |r|..]
    ensures forall k :: 0 <= k < |s| - |r| ==> IsJsWhitespace(s[k])
    ensures r == [] || !IsJsWhitespace(r[0])
  {
    if s != [] && IsJsWhitespace(s[0]) then TrimStart(s[1..]) else s
  }

  /** Drops the trailing whitespace of `s`. */
  function TrimEnd(s: string): (r: string)
    ensures |r| <= |s| && r == s[..|r|]
    ensures forall k :: |r| <= k < |s| ==> IsJsWhitespace(s[k])
    ensures r == [] || !IsJsWhitespace(r[|r| - 1])
  {
    if s != [] && IsJsWhitespace(s[|s| - 1]) then TrimEnd(s[..|s| - 1]) else s
  }

  /** `s.trim()`: empty, or beginning and ending with a character that is not whitespace. */
  function Trim(s: string): (r: string)
    ensures |r| <= |s|
    ensures r == [] || (!IsJsWhitespace(r[0]) && !IsJsWhitespace(r[|r| - 1]))
  {
    TrimEnd(TrimStart(s))
  }

  /**
   * Trim cuts only whitespace: the result is the piece `s[i..j]`, and everything
   * before `i` and from `j` on is whitespace. Characters inside, line ends and
   * blank lines included, are untouched.
   */
  lemma TrimCut(s: string) returns (i: nat, j: nat)
    ensures i <= j <= |s| && Trim(s) == s[i..j]
    ensures forall k :: 0 <= k < i ==> IsJsWhitespace(s[k])
    ensures forall k :: j <= k < |s| ==> IsJsWhitespace(s[k])
  {
    var t := TrimStart(s);
    i := |s| - |t|;
    j := i + |TrimEnd(t)|;
    assert forall k :: j <= k < |s| ==> s[k] == t[k - i];
  }

  /**
   * Trim is the only such cut: whenever `s[i..j]` has only whitespace before
   * and after it and is empty or starts and ends with non-whitespace, it is the
   * trimmed string.
   */
  lemma TrimUnique(s: string, i: nat, j: nat)
    requires i <= j <= |s|
    requires forall k :: 0 <= k < i ==> IsJsWhitespace(s[k])
    requires forall k :: j <= k < |s| ==> IsJsWhitespace(s[k])
    requires i == j || (!IsJsWhitespace(s[i]) && !IsJsWhitespace(s[j - 1]))
    ensures Trim(s) == s[i..j]
  {
    var a, b := TrimCut(s);
    var r := Trim(s);
    assert r != [] ==> r[0] == s[a] && r[|r| - 1] == s[b - 1];
    if i < j {
      assert !IsJsWhitespace(s[i]) && !IsJsWhitespace(s[j - 1]);
      assert a == i;
      assert b == j;
    } else {
      assert r == [];
    }
  }

  /** Whitespace around a piece that starts and ends with non-whitespace is exactly what Trim removes. */
  lemma TrimSurrounded(before: string, kept: string, after: string)
    requires forall k :: 0 <= k < |before| ==> IsJsWhitespace(before[k])
    requires forall k :: 0 <= k < |after| ==> IsJsWhitespace(after[k])
    requires kept == [] || (!IsJsWhitespace(kept[0]) && !IsJsWhitespace(kept[|kept| - 1]))
    ensures Trim(before + kept + after) == kept
  {
    var s := before + kept + after;
    var i, j := |before|, |before| + |kept|;
    assert forall k :: 0 <= k < i ==> s[k] == before[k];
    assert forall k :: j <= k < |s| ==> s[k] == after[k - j];
    assert s[i..j] == kept;
    TrimUnique(s, i, j);
  }

  /** Trimming a trimmed string changes nothing. */
  lemma TrimIdempotent(s: string)
    ensures Trim(Trim(s)) == Trim(s)
  {
    var r := Trim(s);
    TrimUnique(r, 0, |r|);
  }
}
