/**
 * String operations the dashboard applies to its queries: Python's
 * `str.replace` (left-to-right, non-overlapping), `str.strip()` with no
 * argument, and the substring test `p in s`.
 */
module Text {

  /** `p` occurs in `s` starting at index `i`. */
  predicate OccursAt(s: string, p: string, i: nat) {
    i + |p| <= |s| && s[i..i + |p|] == p
  }

  predicate StartsWith(s: string, p: string) {
    OccursAt(s, p, 0)
  }

  /**
   * Python's `p in s` for two strings: the empty string is in every string,
   * and a longer pattern is in none.
   */
  predicate Contains(s: string, p: string)
    ensures p == [] ==> Contains(s, p)
    ensures |p| > |s| ==> !Contains(s, p)
  {
    assert p == [] ==> OccursAt(s, p, 0);
    exists i: nat :: i <= |s| && OccursAt(s, p, i)
  }

  /** `pieces` glued together with `sep` between neighbours. */
  function Join(pieces: seq<string>, sep: string): string
    requires |pieces| > 0
  {
    if |pieces| == 1 then pieces[0] else pieces[0] + sep + Join(pieces[1..], sep)
  }

  /** The character `c` appears nowhere in `s`. */
  predicate Lacks(s: string, c: char) {
    forall i :: 0 <= i < |s| ==> s[i] != c
  }

  /** A joined string lacks every character that its pieces and separator lack. */
  lemma {:induction false} JoinLacks(pieces: seq<string>, sep: string, c: char)
    requires |pieces| > 0
    requires forall k :: 0 <= k < |pieces| ==> Lacks(pieces[k], c)
    requires Lacks(sep, c)
    ensures Lacks(Join(pieces, sep), c)
  {
    if |pieces| > 1 {
      JoinLacks(pieces[1..], sep, c);
      var rest := Join(pieces[1..], sep);
      assert Join(pieces, sep) == pieces[0] + sep + rest;
      forall i | 0 <= i < |Join(pieces, sep)| ensures Join(pieces, sep)[i] != c {
        if i < |pieces[0]| {
          assert Join(pieces, sep)[i] == pieces[0][i];
        } else if i < |pieces[0]| + |sep| {
          assert Join(pieces, sep)[i] == sep[i - |pieces[0]|];
        } else {
          assert Join(pieces, sep)[i] == rest[i - |pieces[0]| - |sep|];
        }
      }
    }
  }

  /** A string lacking some character of `p` cannot contain `p`. */
  lemma LacksNotContains(s: string, p: string, j: nat)
    requires j < |p| && Lacks(s, p[j])
    ensures !Contains(s, p)
  {
  }

  /**
   * Python's `s.replace(pat, rep)` for a non-empty `pat`: scanning from the
   * left, every occurrence of `pat` is replaced by `rep`, and the scan resumes
   * after the replaced occurrence, so `rep` is never scanned again.
   * Replacing the pattern by itself changes nothing, and a replacement no
   * longer than the pattern never lengthens the string.
   */
  function ReplaceAll(s: string, pat: string, rep: string): (r: string)
    requires |pat| > 0
    ensures rep == pat ==> r == s
    ensures |rep| <= |pat| ==> |r| <= |s|
    decreases |s|
  {
    if |s| == 0 then ""
    else if StartsWith(s, pat) then rep + ReplaceAll(s[|pat|..], pat, rep)
    else [s[0]] + ReplaceAll(s[1..], pat, rep)
  }

  /** A string with no occurrence of `pat` is left unchanged. */
  lemma {:induction false} ReplaceAllAbsent(s: string, pat: string, rep: string)
    requires |pat| > 0 && !Contains(s, pat)
    ensures ReplaceAll(s, pat, rep) == s
  {
    if |s| > 0 {
      assert !OccursAt(s, pat, 0);
      if Contains(s[1..], pat) {
        var i: nat :| i <= |s[1..]| && OccursAt(s[1..], pat, i);
        assert s[1..][i..i + |pat|] == s[i + 1..i + 1 + |pat|];
        assert OccursAt(s, pat, i + 1);
        assert false;
      }
      ReplaceAllAbsent(s[1..], pat, rep);
    }
  }

  /**
   * Replacing in a string made of pieces that lack the first character of
   * `pat`, joined by `pat`, gives the same pieces joined by `rep`: text outside
   * the occurrences is copied verbatim and each occurrence becomes `rep`.
   */
  lemma {:induction false} ReplaceAllJoin(pieces: seq<string>, pat: string, rep: string)
    requires |pieces| > 0 && |pat| > 0
    requires forall k :: 0 <= k < |pieces| ==> Lacks(pieces[k], pat[0])
    ensures ReplaceAll(Join(pieces, pat), pat, rep) == Join(pieces, rep)
  {
    if |pieces| == 1 {
      LacksNotContains(pieces[0], pat, 0);
      ReplaceAllAbsent(pieces[0], pat, rep);
    } else {
      var tail := pat + Join(pieces[1..], pat);
      ReplaceAllPrefix(pieces[0], tail, pat, rep);
      assert tail[|pat|..] == Join(pieces[1..], pat);
      assert StartsWith(tail, pat);
      ReplaceAllJoin(pieces[1..], pat, rep);
      assert Join(pieces, pat) == pieces[0] + tail;
    }
  }

  /**
   * The general step of `str.replace`: the leftmost occurrence of `pat`
   * becomes `rep`, the text before it is copied, and the scan goes on after
   * that occurrence. With `ReplaceAllAbsent` this fixes the result on every
   * string, overlapping candidates included (`"aaa"` with `"aa"` gives
   * `rep + "a"`).
   */
  lemma {:induction false} ReplaceAllLeftmost(a: string, b: string, pat: string, rep: string)
    requires |pat| > 0
    requires forall i: nat :: i < |a| ==> !OccursAt(a + pat + b, pat, i)
    ensures ReplaceAll(a + pat + b, pat, rep) == a + rep + ReplaceAll(b, pat, rep)
  {
    var s := a + pat + b;
    if a == [] {
      assert s == pat + b;
      assert StartsWith(pat + b, pat);
      assert (pat + b)[|pat|..] == b;
    } else {
      assert !OccursAt(s, pat, 0);
      assert s[1..] == a[1..] + pat + b;
      forall i: nat | i < |a[1..]| ensures !OccursAt(a[1..] + pat + b, pat, i) {
        assert !OccursAt(s, pat, i + 1);
        if i + |pat| <= |s[1..]| {
          assert s[1..][i..i + |pat|] == s[i + 1..i + 1 + |pat|];
        }
      }
      ReplaceAllLeftmost(a[1..], b, pat, rep);
      assert a == [a[0]] + a[1..];
    }
  }

  /** A prefix lacking the first character of `pat` is copied verbatim. */
  lemma {:induction false} ReplaceAllPrefix(a: string, b: string, pat: string, rep: string)
    requires |pat| > 0 && Lacks(a, pat[0])
    ensures ReplaceAll(a + b, pat, rep) == a + ReplaceAll(b, pat, rep)
  {
    if |a| > 0 {
      assert (a + b)[0] == a[0];
      assert !StartsWith(a + b, pat);
      assert (a + b)[1..] == a[1..] + b;
      calc {
        ReplaceAll(a + b, pat, rep);
        [a[0]] + ReplaceAll(a[1..] + b, pat, rep);
        { ReplaceAllPrefix(a[1..], b, pat, rep); }
        [a[0]] + (a[1..] + ReplaceAll(b, pat, rep));
        { assert a == [a[0]] + a[1..]; }
        a + ReplaceAll(b, pat, rep);
      }
    } else {
      assert a + b == b;
    }
  }

  /**
   * The characters Python's `str.isspace()` accepts, and so the ones
   * `str.strip()` removes: the C0 controls TAB..CR and FS..US, SPACE, NEL,
   * NO-BREAK SPACE, and the Unicode separators U+1680, U+2000..U+200A,
   * U+2028, U+2029, U+202F, U+205F and U+3000.
   */
  predicate IsSpace(c: char) {
    ('\t' <= c <= '\r') || ('\U{1C}' <= c <= '\U{1F}') || c == ' '
    || c == '\U{85}' || c == '\U{A0}' || c == '\U{1680}'
    || ('\U{2000}' <= c <= '\U{200A}') || c == '\U{2028}' || c == '\U{2029}'
    || c == '\U{202F}' || c == '\U{205F}' || c == '\U{3000}'
  }

  predicate AllSpace(s: string) {
    forall i :: 0 <= i < |s| ==> IsSpace(s[i])
  }

  /** `s` without its leading whitespace. */
  function TrimStart(s: string): (r: string)
    ensures |r| <= |s| && r == s[|s| - |r|..]
    ensures AllSpace(s[..|s| - |r|])
    ensures r == [] || !IsSpace(r[0])
  {
    if |s| > 0 && IsSpace(s[0]) then
      var r := TrimStart(s[1..]);
      assert s[..|s| - |r|] == [s[0]] + s[1..][..|s[1..]| - |r|];
      r
    else s
  }

  /** `s` without its trailing whitespace. */
  function TrimEnd(s: string): (r: string)
    ensures |r| <= |s| && r == s[..|r|]
    ensures AllSpace(s[|r|..])
    ensures r == [] || !IsSpace(r[|r| - 1])
  {
    if |s| > 0 && IsSpace(s[|s| - 1]) then
      var r := TrimEnd(s[..|s| - 1]);
      assert s[|r|..] == s[..|s| - 1][|r|..] + [s[|s| - 1]];
      r
    else s
  }

  /**
   * Python's `s.strip()`: it neither begins nor ends with whitespace, and it
   * is empty exactly when `s` is all whitespace.
   */
  function Strip(s: string): (r: string)
    ensures r == [] || (!IsSpace(r[0]) && !IsSpace(r[|r| - 1]))
    ensures r == [] <==> AllSpace(s)
  {
    var t := TrimStart(s);
    var r := TrimEnd(t);
    assert r != [] ==> r[0] == t[0];
    assert r == [] ==> t == [] && s == s[..|s| - |t|];
    r
  }

  /** `Strip(s)` is the slice `s[i..j]`, with only whitespace cut off at both ends. */
  lemma StripSlice(s: string) returns (i: nat, j: nat)
    ensures i <= j <= |s| && Strip(s) == s[i..j]
    ensures AllSpace(s[..i]) && AllSpace(s[j..])
  {
    var t := TrimStart(s);
    var r := TrimEnd(t);
    i := |s| - |t|;
    j := i + |r|;
    assert r == s[i..j];
    assert s[j..] == t[|r|..];
  }
}
