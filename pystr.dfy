/** The few Python string operations the chat bot relies on (`str.lower`,
    `str.strip`, `str.title`, slicing and the `in` substring test), over
    ASCII: characters outside ASCII are left unchanged and count as uncased. */
module PyStr {

  /** `c.isspace()` for an ASCII character: space, \t, \n, \v, \f, \r and the
      four separators \x1c to \x1f. */
  predicate IsSpace(c: char) {
    c == ' ' || ('\U{0009}' <= c <= '\U{000D}') || ('\U{001C}' <= c <= '\U{001F}')
  }

  predicate IsUpper(c: char) { 'A' <= c <= 'Z' }

  predicate IsLower(c: char) { 'a' <= c <= 'z' }

  /** A character that has an upper and a lower case form. */
  predicate IsCased(c: char) { IsUpper(c) || IsLower(c) }

  function LowerChar(c: char): (d: char)
    ensures !IsUpper(d)
    ensures IsCased(d) == IsCased(c) && IsSpace(d) == IsSpace(c)
    ensures !IsUpper(c) ==> d == c
  {
    if IsUpper(c) then (c as int + 32) as char else c
  }

  function UpperChar(c: char): (d: char)
    ensures !IsLower(d)
    ensures IsCased(d) == IsCased(c)
    ensures IsLower(c) ==> LowerChar(d) == c
    ensures !IsLower(c) ==> d == c
  {
    if IsLower(c) then (c as int - 32) as char else c
  }

  /** `s.lower()`: every upper-case letter replaced by its lower-case form. */
  function Lower(s: string): (r: string)
    ensures |r| == |s|
    ensures forall i :: 0 <= i < |s| ==> r[i] == LowerChar(s[i])
  {
    seq(|s|, i requires 0 <= i < |s| => LowerChar(s[i]))
  }

  /** No upper-case letter in `s`: what `Lower` always returns. */
  predicate IsLowered(s: string) {
    forall i :: 0 <= i < |s| ==> !IsUpper(s[i])
  }

  lemma LowerOfConcat(a: string, b: string)
    ensures Lower(a + b) == Lower(a) + Lower(b)
  {
  }

  /** Python's `s[:n]`. */
  function Take(s: string, n: nat): (r: string)
    ensures |r| == if |s| <= n then |s| else n
    ensures r == s[..|r|]
    ensures |s| <= n ==> r == s
  {
    if |s| <= n then s else s[..n]
  }

  // ---------------------------------------------------------------- title

  /** One character of `str.title()`: a cased character is upper-cased at the
      start of a word and lower-cased after another cased character; any
      other character is kept. */
  function TitleChar(c: char, afterCased: bool): (d: char)
    ensures IsCased(d) == IsCased(c)
    ensures LowerChar(d) == LowerChar(c)
    ensures !IsCased(c) ==> d == c
    ensures IsCased(c) && afterCased ==> !IsUpper(d)
    ensures IsCased(c) && !afterCased ==> !IsLower(d)
  {
    if !IsCased(c) then c else if afterCased then LowerChar(c) else UpperChar(c)
  }

  /** `s.title()`: each character is cased according to the character
      before it in `s`. */
  function TitleCase(s: string): (r: string)
    ensures |r| == |s|
  {
    seq(|s|, i requires 0 <= i < |s| => TitleChar(s[i], i > 0 && IsCased(s[i - 1])))
  }

  /** Title-casing a lower-cased string can be undone by lower-casing it. */
  lemma LowerUndoesTitle(s: string)
    requires IsLowered(s)
    ensures Lower(TitleCase(s)) == s
  {
    var t := TitleCase(s);
    forall i | 0 <= i < |s| ensures Lower(t)[i] == s[i] {
      assert t[i] == TitleChar(s[i], i > 0 && IsCased(s[i - 1]));
    }
  }

  // ---------------------------------------------------------------- strip

  /** Number of whitespace characters at the front of `s`. */
  function LeadingSpaces(s: string): (n: nat)
    ensures n <= |s|
    ensures forall k :: 0 <= k < n ==> IsSpace(s[k])
    ensures n < |s| ==> !IsSpace(s[n])
  {
    if s != [] && IsSpace(s[0]) then 1 + LeadingSpaces(s[1..]) else 0
  }

  /** Number of whitespace characters at the end of `s`. */
  function TrailingSpaces(s: string): (n: nat)
    ensures n <= |s|
    ensures forall k :: |s| - n <= k < |s| ==> IsSpace(s[k])
    ensures n < |s| ==> !IsSpace(s[|s| - 1 - n])
  {
    if s != [] && IsSpace(s[|s| - 1]) then 1 + TrailingSpaces(s[..|s| - 1]) else 0
  }

  /** `r` is `s` with only whitespace before position `i` and after `r`. */
  predicate PaddedAt(s: string, r: string, i: int) {
    OccursAt(s, r, i) &&
    (forall k :: 0 <= k < i ==> IsSpace(s[k])) &&
    (forall k :: i + |r| <= k < |s| ==> IsSpace(s[k]))
  }

  /** `s.strip()`: `s` without its leading and trailing whitespace. */
  function Strip(s: string): (r: string)
    ensures r != [] ==> !IsSpace(r[0]) && !IsSpace(r[|r| - 1])
    ensures exists i :: PaddedAt(s, r, i)
  {
    var a := LeadingSpaces(s);
    var t := s[a..];
    var r := t[..|t| - TrailingSpaces(t)];
    assert s[a..a + |r|] == r;
    assert PaddedAt(s, r, a);
    r
  }

  /** Stripping a string that is a core between two runs of whitespace gives
      back that core. */
  lemma StripPadded(pre: string, core: string, post: string)
    requires forall k :: 0 <= k < |pre| ==> IsSpace(pre[k])
    requires forall k :: 0 <= k < |post| ==> IsSpace(post[k])
    requires core != [] && !IsSpace(core[0]) && !IsSpace(core[|core| - 1])
    ensures Strip(pre + core + post) == core
  {
    var s := pre + core + post;
    var r := Strip(s);
    var i :| PaddedAt(s, r, i);
    // core's first and last characters are not whitespace, so the kept
    // window runs from |pre| to |pre| + |core|
    assert s[|pre|] == core[0];
    assert s[|pre| + |core| - 1] == core[|core| - 1];
    assert forall k :: 0 <= k < |pre| ==> s[k] == pre[k];
    assert forall k :: |pre| + |core| <= k < |s| ==> s[k] == post[k - |pre| - |core|];
    assert i == |pre|;
    assert i + |r| == |pre| + |core|;
    assert s[|pre|..|pre| + |core|] == core;
  }

  /** For a core with no whitespace at either end, stripping gives that core
      exactly when the text is the core with only whitespace around it. */
  lemma StripIff(s: string, core: string)
    requires core != [] && !IsSpace(core[0]) && !IsSpace(core[|core| - 1])
    ensures Strip(s) == core <==> exists i :: PaddedAt(s, core, i)
  {
    if i :| PaddedAt(s, core, i) {
      var pre, post := s[..i], s[i + |core|..];
      assert s == pre + core + post;
      StripPadded(pre, core, post);
    }
  }

  // ---------------------------------------------------------------- in

  /** `p` occurs in `s` starting at position `i`. */
  predicate OccursAt(s: string, p: string, i: int) {
    0 <= i <= |s| - |p| && s[i..i + |p|] == p
  }

  /** `p` matches `s` at position `i` from the `j`-th character of `p` on. */
  predicate MatchesFrom(s: string, p: string, i: nat, j: nat)
    requires i + |p| <= |s| && j <= |p|
    decreases |p| - j
  {
    j == |p| || (s[i + j] == p[j] && MatchesFrom(s, p, i, j + 1))
  }

  /** `p` occurs in `s` at some position `i` or later, tried left to right. */
  predicate ContainsFrom(s: string, p: string, i: nat)
    decreases |s| - i
  {
    i + |p| <= |s| && (MatchesFrom(s, p, i, 0) || ContainsFrom(s, p, i + 1))
  }

  /** Python's `p in s` (the empty string occurs everywhere). */
  predicate Contains(s: string, p: string) {
    ContainsFrom(s, p, 0)
  }

  lemma {:induction false} MatchesFromIff(s: string, p: string, i: nat, j: nat)
    requires i + |p| <= |s| && j <= |p|
    ensures MatchesFrom(s, p, i, j) <==> s[i + j..i + |p|] == p[j..]
    decreases |p| - j
  {
    if j < |p| {
      MatchesFromIff(s, p, i, j + 1);
      assert s[i + j..i + |p|] == [s[i + j]] + s[i + j + 1..i + |p|];
      assert p[j..] == [p[j]] + p[j + 1..];
    }
  }

  lemma {:induction false} ContainsFromIff(s: string, p: string, i: nat)
    ensures ContainsFrom(s, p, i) <==> exists k :: i <= k && OccursAt(s, p, k)
    decreases |s| - i
  {
    if i + |p| <= |s| {
      MatchesFromIff(s, p, i, 0);
      assert p[0..] == p;
      if MatchesFrom(s, p, i, 0) {
        assert OccursAt(s, p, i);
      }
      ContainsFromIff(s, p, i + 1);
      if exists k :: i <= k && OccursAt(s, p, k) {
        var k :| i <= k && OccursAt(s, p, k);
        assert k == i || (i + 1 <= k && OccursAt(s, p, k));
      }
    }
  }

  /** `Contains` agrees with the positional definition of an occurrence. */
  lemma ContainsIff(s: string, p: string)
    ensures Contains(s, p) <==> exists i :: OccursAt(s, p, i)
  {
    ContainsFromIff(s, p, 0);
  }
}
