/**
 * Character and string helpers shared by the classifier and the PDF loader:
 * Python's whitespace test (used by both `str.strip` and the regex class `\s`),
 * ASCII lower-casing (`str.lower` / `re.IGNORECASE` restricted to ASCII),
 * `str.strip()`, and substring search (`k in text`).
 */
module Text {

  /** Python's `str.isspace()` for one character; `\s` in a `str` pattern matches the same set. */
  predicate IsSpace(c: char)
  {
    || c == ' ' || c == '\t' || c == '\n' || c == '\r' || c == '\U{0B}' || c == '\U{0C}'
    || ('\U{1C}' <= c <= '\U{1F}')
    || c == '\U{85}' || c == '\U{A0}' || c == '\U{1680}'
    || ('\U{2000}' <= c <= '\U{200A}')
    || c == '\U{2028}' || c == '\U{2029}' || c == '\U{202F}' || c == '\U{205F}' || c == '\U{3000}'
  }

  predicate IsUpper(c: char) { 'A' <= c <= 'Z' }

  /**
   * ASCII lower-casing of one character: the result is never upper case, only upper-case letters
   * change, and a character is a lower-case letter afterwards exactly when it was a letter.
   */
  function LowerChar(c: char): (r: char)
    ensures !IsUpper(r)
    ensures r != c <==> IsUpper(c)
    ensures 'a' <= r <= 'z' <==> 'a' <= c <= 'z' || IsUpper(c)
  {
    if IsUpper(c) then (c as int + 32) as char else c
  }

  /** `s.lower()`, restricted to ASCII letters. */
  function Lower(s: string): string
  {
    seq(|s|, i requires 0 <= i < |s| => LowerChar(s[i]))
  }

  predicate AllSpace(s: string)
  {
    forall i :: 0 <= i < |s| ==> IsSpace(s[i])
  }

  /** No leading and no trailing whitespace: what `str.strip()` guarantees of its result. */
  predicate IsTrimmed(s: string)
  {
    s == [] || (!IsSpace(s[0]) && !IsSpace(s[|s| - 1]))
  }

  /** `s.lstrip()`: drops the longest all-whitespace prefix. */
  function TrimLeft(s: string): (r: string)
    ensures |r| <= |s|
    ensures r == [] || !IsSpace(r[0])
  {
    if s != [] && IsSpace(s[0]) then TrimLeft(s[1..]) else s
  }

  /** `lstrip` keeps a suffix of `s` and what it cuts away is whitespace. */
  lemma {:induction false} TrimLeftCutsSpace(s: string)
    ensures TrimLeft(s) == s[|s| - |TrimLeft(s)|..]
    ensures AllSpace(s[..|s| - |TrimLeft(s)|])
  {
    if s != [] && IsSpace(s[0]) {
      var r := TrimLeft(s[1..]);
      TrimLeftCutsSpace(s[1..]);
      assert s[1..][..|s| - 1 - |r|] == s[1..|s| - |r|];
    }
  }

  /** `s.rstrip()`: drops the longest all-whitespace suffix. */
  function TrimRight(s: string): (r: string)
    ensures |r| <= |s|
    ensures r == [] || !IsSpace(r[|r| - 1])
  {
    if s != [] && IsSpace(s[|s| - 1]) then TrimRight(s[..|s| - 1]) else s
  }

  /** `rstrip` keeps a prefix of `s` and what it cuts away is whitespace. */
  lemma {:induction false} TrimRightCutsSpace(s: string)
    ensures TrimRight(s) == s[..|TrimRight(s)|]
    ensures AllSpace(s[|TrimRight(s)|..])
  {
    if s != [] && IsSpace(s[|s| - 1]) {
      var r := TrimRight(s[..|s| - 1]);
      TrimRightCutsSpace(s[..|s| - 1]);
      assert s[..|s| - 1][|r|..] + [s[|s| - 1]] == s[|r|..];
    }
  }

  /** `s.strip()`: nothing is left to cut. */
  function Trim(s: string): (r: string)
    ensures IsTrimmed(r)
  {
    TrimRightCutsSpace(TrimLeft(s));
    TrimRight(TrimLeft(s))
  }

  /** `strip` keeps a slice of `s` and everything it cuts away is whitespace. */
  lemma TrimIsSlice(s: string)
    ensures exists i :: 0 <= i <= |s| - |Trim(s)| && Trim(s) == s[i..i + |Trim(s)|] && AllSpace(s[..i]) && AllSpace(s[i + |Trim(s)|..])
  {
    var l := TrimLeft(s);
    var r := Trim(s);
    var i := |s| - |l|;
    TrimLeftCutsSpace(s);
    TrimRightCutsSpace(l);
    assert r == s[i..i + |r|];
    assert s[i + |r|..] == l[|r|..];
  }

  /** Stripping a string that has no surrounding whitespace leaves it unchanged (`strip` is idempotent). */
  lemma TrimOfTrimmed(s: string)
    requires IsTrimmed(s)
    ensures Trim(s) == s
  {
  }

  lemma TrimIdempotent(s: string)
    ensures Trim(Trim(s)) == Trim(s)
  {
    TrimOfTrimmed(Trim(s));
  }

  /** A string with no whitespace at all is its own strip. */
  lemma TrimNoSpace(s: string)
    requires forall i :: 0 <= i < |s| ==> !IsSpace(s[i])
    ensures Trim(s) == s
  {
    TrimOfTrimmed(s);
  }

  /** `k` occurs in `s` starting at index `i`. */
  ghost predicate OccursAt(s: string, k: string, i: int)
  {
    0 <= i && i + |k| <= |s| && s[i..i + |k|] == k
  }

  /** Python's `k in s` for strings; the empty string occurs everywhere. */
  function Contains(s: string, k: string): (b: bool)
    ensures b <==> exists i :: OccursAt(s, k, i)
    decreases |s|
  {
    if |s| < |k| then false
    else if s[..|k|] == k then
      assert OccursAt(s, k, 0);
      true
    else
      OccursShift(s, k);
      Contains(s[1..], k)
  }

  /** Occurrences in `s[1..]` are the occurrences in `s` past index 0, shifted by one. */
  lemma OccursShift(s: string, k: string)
    requires |s| > 0
    ensures forall i :: 0 <= i && OccursAt(s[1..], k, i) ==> OccursAt(s, k, i + 1)
    ensures forall i :: 1 <= i && OccursAt(s, k, i) ==> OccursAt(s[1..], k, i - 1)
  {
    forall i | 0 <= i && OccursAt(s[1..], k, i) ensures OccursAt(s, k, i + 1) {
      assert s[1..][i..i + |k|] == s[i + 1..i + 1 + |k|];
    }
    forall i | 1 <= i && OccursAt(s, k, i) ensures OccursAt(s[1..], k, i - 1) {
      assert s[1..][i - 1..i - 1 + |k|] == s[i..i + |k|];
    }
  }

  /** `l` matches `s` at index `i` ignoring ASCII case, as a literal under `re.IGNORECASE` does. */
  predicate MatchesFoldAt(s: string, i: nat, l: string)
    decreases |l|
  {
    i + |l| <= |s| && (l == [] || (LowerChar(s[i]) == LowerChar(l[0]) && MatchesFoldAt(s, i + 1, l[1..])))
  }

  /** A case-insensitive match at `i` is an occurrence of the lower-cased label in the lower-cased text. */
  lemma {:induction false} MatchesFoldAtLower(s: string, i: nat, l: string)
    ensures MatchesFoldAt(s, i, l) <==> OccursAt(Lower(s), Lower(l), i)
    decreases |l|
  {
    if l != [] && i + |l| <= |s| {
      MatchesFoldAtLower(s, i + 1, l[1..]);
      var a := Lower(s)[i..i + |l|];
      var b := Lower(l);
      assert a == [LowerChar(s[i])] + Lower(s)[i + 1..i + |l|];
      assert b == [LowerChar(l[0])] + Lower(l[1..]);
      if a == b {
        assert a[0] == b[0] && a[1..] == b[1..];
      }
    }
  }

  /** A case-insensitive match of `l` at `i` is also one of each suffix of `l`, further along. */
  lemma {:induction false} MatchesFoldSuffix(s: string, i: nat, l: string, d: nat)
    requires MatchesFoldAt(s, i, l) && d <= |l|
    ensures MatchesFoldAt(s, i + d, l[d..])
    decreases d
  {
    if d > 0 {
      MatchesFoldSuffix(s, i + 1, l[1..], d - 1);
      assert l[1..][d - 1..] == l[d..];
    }
  }

  /** Lower-casing a string without upper-case letters leaves it unchanged. */
  lemma LowerOfLowerCase(s: string)
    requires forall c :: c in s ==> !IsUpper(c)
    ensures Lower(s) == s
  {
  }

  /** Lower-casing a string whose only upper-case letter is its first one lower-cases that letter. */
  lemma LowerOfCapitalized(s: string)
    requires s != [] && forall c :: c in s[1..] ==> !IsUpper(c)
    ensures Lower(s) == [LowerChar(s[0])] + s[1..]
  {
    LowerOfLowerCase(s[1..]);
  }

  /** A keyword holding a letter that no character of `s` lower-cases to does not occur in `Lower(s)`. */
  lemma AbsentLetterNotContained(s: string, k: string, c: char)
    requires c in k && forall x :: x in s ==> LowerChar(x) != c
    ensures !Contains(Lower(s), k)
  {
  }

  /** A keyword longer than the text does not occur in it. */
  lemma LongerNotContained(s: string, k: string)
    requires |k| > |s|
    ensures !Contains(s, k)
  {
  }

  /** `t` differs from `s` at most in the case of ASCII letters. */
  predicate SameUpToCase(s: string, t: string)
  {
    |s| == |t| && forall i :: 0 <= i < |s| ==> LowerChar(s[i]) == LowerChar(t[i])
  }

  /** Lower-casing commutes with slicing. */
  lemma LowerSlice(s: string, i: nat, j: nat)
    requires i <= j <= |s|
    ensures Lower(s)[i..j] == Lower(s[i..j])
  {
  }

  /** An occurrence survives lower-casing both sides. */
  lemma OccursLower(s: string, k: string, i: int)
    requires OccursAt(s, k, i)
    ensures OccursAt(Lower(s), Lower(k), i)
  {
    LowerSlice(s, i, i + |k|);
  }

  lemma ContainsLower(s: string, k: string)
    requires Contains(s, k)
    ensures Contains(Lower(s), Lower(k))
  {
    var i :| OccursAt(s, k, i);
    OccursLower(s, k, i);
  }

  /** Occurrence is transitive: a substring of a substring is a substring. */
  lemma OccursTransitive(s: string, t: string, k: string, i: int, j: int)
    requires OccursAt(t, k, j) && OccursAt(s, t, i)
    ensures OccursAt(s, k, i + j)
  {
    forall m | 0 <= m < |k| ensures s[i + j + m] == k[m] {
      assert s[i..i + |t|][j + m] == t[j + m];
      assert t[j..j + |k|][m] == k[m];
    }
    assert s[i + j..i + j + |k|] == k;
  }
}
