/**
 * The string primitives the plugin relies on: lodash `trim(s, chars)` and
 * `String.prototype.trim` (both stripping a set of characters from both ends),
 * `String.prototype.indexOf` with a string argument, `String.prototype.replace`
 * with a string pattern (first occurrence only), and the split at the first
 * line feed done with `indexOf` and `substr`.
 */
module Strings {

  /** The single character lodash `trim(s, '\n')` strips. */
  const NewLine: set<char> := {'\n'}

  /**
   * The characters `String.prototype.trim` strips: ECMAScript WhiteSpace
   * (tab, vertical tab, form feed, space, no-break space, byte order mark and
   * the Unicode space separators) and LineTerminator (LF, CR, LS, PS).
   */
  const JsWhitespace: set<char> := {
    '\t', '\U{000B}', '\U{000C}', ' ', '\U{00A0}', '\U{FEFF}',
    '\U{1680}', '\U{2000}', '\U{2001}', '\U{2002}', '\U{2003}', '\U{2004}',
    '\U{2005}', '\U{2006}', '\U{2007}', '\U{2008}', '\U{2009}', '\U{200A}',
    '\U{202F}', '\U{205F}', '\U{3000}',
    '\n', '\r', '\U{2028}', '\U{2029}'
  }

  /** Drops the leading characters that belong to `cs`. */
  function StripLeft(s: string, cs: set<char>): (r: string)
    ensures |r| <= |s|
    ensures forall k :: 0 <= k < |s| - |r| ==> s[k] in cs
    ensures r == [] || r[0] !in cs
    decreases |s|
  {
    if s != [] && s[0] in cs then StripLeft(s[1..], cs) else s
  }

  /** Drops the trailing characters that belong to `cs`. */
  function StripRight(s: string, cs: set<char>): (r: string)
    ensures |r| <= |s|
    ensures forall k :: |r| <= k < |s| ==> s[k] in cs
    ensures r == [] || r[|r| - 1] !in cs
    decreases |s|
  {
    if s != [] && s[|s| - 1] in cs then StripRight(s[..|s| - 1], cs) else s
  }

  /** What `StripLeft` keeps is a suffix of `s`. */
  lemma {:induction false} StripLeftSuffix(s: string, cs: set<char>)
    ensures StripLeft(s, cs) == s[|s| - |StripLeft(s, cs)|..]
    decreases |s|
  {
    if s != [] && s[0] in cs {
      StripLeftSuffix(s[1..], cs);
    }
  }

  /** What `StripRight` keeps is a prefix of `s`. */
  lemma {:induction false} StripRightPrefix(s: string, cs: set<char>)
    ensures StripRight(s, cs) == s[..|StripRight(s, cs)|]
    decreases |s|
  {
    if s != [] && s[|s| - 1] in cs {
      StripRightPrefix(s[..|s| - 1], cs);
    }
  }

  /** Strips the characters of `cs` from both ends of `s`. */
  function Strip(s: string, cs: set<char>): (r: string)
  {
    StripRight(StripLeft(s, cs), cs)
  }

  /** After stripping, neither end of the result is a character of `cs`. */
  lemma StripEnds(s: string, cs: set<char>)
    ensures var r := Strip(s, cs); r == [] || (r[0] !in cs && r[|r| - 1] !in cs)
  {
    var l := StripLeft(s, cs);
    var r := StripRight(l, cs);
    StripRightPrefix(l, cs);
    if r != [] {
      assert r[0] == l[0];
    }
  }

  /**
   * Stripping keeps a contiguous piece of `s` and removes only characters of
   * `cs` on either side of it.
   */
  lemma StripInfix(s: string, cs: set<char>)
    ensures var r := Strip(s, cs);
      var a := |s| - |StripLeft(s, cs)|;
      a + |r| <= |s| && r == s[a..a + |r|] &&
      (forall k :: 0 <= k < a ==> s[k] in cs) &&
      (forall k :: a + |r| <= k < |s| ==> s[k] in cs)
  {
    var l := StripLeft(s, cs);
    var r := StripRight(l, cs);
    var a := |s| - |l|;
    StripLeftSuffix(s, cs);
    StripRightPrefix(l, cs);
    assert r == l[..|r|];
    assert l == s[a..];
    forall k | 0 <= k < |r| ensures r[k] == s[a + k] {
      assert r[k] == l[k];
    }
    assert r == s[a..a + |r|];
    forall k | a + |r| <= k < |s| ensures s[k] in cs {
      assert s[k] == l[k - a];
    }
  }

  /** `t` is the slice of `s` starting at `i`, with only characters of `cs` cut on either side. */
  predicate TrimmedAt(s: string, cs: set<char>, i: nat, t: string)
  {
    i + |t| <= |s| && t == s[i..i + |t|] &&
    (forall k :: 0 <= k < i ==> s[k] in cs) &&
    (forall k :: i + |t| <= k < |s| ==> s[k] in cs)
  }

  /** The trimmed string is such a slice of the input. */
  lemma StripIsSlice(s: string, cs: set<char>)
    ensures exists i: nat :: TrimmedAt(s, cs, i, Strip(s, cs))
  {
    StripInfix(s, cs);
    assert TrimmedAt(s, cs, |s| - |StripLeft(s, cs)|, Strip(s, cs));
  }

  /** A string whose ends are not in `cs` is left as it is. */
  lemma StripUnchanged(s: string, cs: set<char>)
    requires s == [] || (s[0] !in cs && s[|s| - 1] !in cs)
    ensures Strip(s, cs) == s
  {
    assert StripLeft(s, cs) == s;
  }

  /** Stripping twice is stripping once. */
  lemma StripIdempotent(s: string, cs: set<char>)
    ensures Strip(Strip(s, cs), cs) == Strip(s, cs)
  {
    StripEnds(s, cs);
    StripUnchanged(Strip(s, cs), cs);
  }

  /** `pat` occurs in `s` starting at index `k`. */
  predicate OccursAt(s: string, pat: string, k: int)
  {
    0 <= k && k + |pat| <= |s| && s[k..k + |pat|] == pat
  }

  /** The search of `indexOf`, started at `from`. */
  function IndexOfFrom(s: string, pat: string, from: nat): (r: int)
    ensures r == -1 || (from <= r && OccursAt(s, pat, r))
    ensures r == -1 ==> forall k :: from <= k ==> !OccursAt(s, pat, k)
    ensures r != -1 ==> forall k :: from <= k < r ==> !OccursAt(s, pat, k)
    decreases |s| - from
  {
    if from + |pat| > |s| then -1
    else if s[from..from + |pat|] == pat then from
    else IndexOfFrom(s, pat, from + 1)
  }

  /** `s.indexOf(pat)`: the first index at which `pat` occurs, or -1 when it does not occur. */
  function IndexOf(s: string, pat: string): (r: int)
    ensures r == -1 <==> forall k :: !OccursAt(s, pat, k)
    ensures r != -1 ==> OccursAt(s, pat, r) && forall k :: 0 <= k < r ==> !OccursAt(s, pat, k)
  {
    IndexOfFrom(s, pat, 0)
  }

  /** A one-character pattern occurs exactly where that character stands. */
  lemma OccursAtChar(s: string, c: char, k: int)
    ensures OccursAt(s, [c], k) <==> 0 <= k < |s| && s[k] == c
  {
    if 0 <= k < |s| {
      assert s[k..k + 1] == [s[k]];
    }
  }

  /** `s.indexOf(c)` for a single character `c`, in terms of the characters of `s`. */
  lemma IndexOfChar(s: string, c: char)
    ensures var r := IndexOf(s, [c]);
      (r == -1 <==> c !in s) &&
      (r != -1 ==> 0 <= r < |s| && s[r] == c && c !in s[..r])
  {
    var r := IndexOf(s, [c]);
    if r == -1 {
      forall k | 0 <= k < |s| ensures s[k] != c {
        OccursAtChar(s, c, k);
      }
    } else {
      OccursAtChar(s, c, r);
      forall k | 0 <= k < r ensures s[..r][k] != c {
        OccursAtChar(s, c, k);
      }
    }
  }

  /**
   * `s.replace(pat, rep)` with a string pattern: only the first occurrence is
   * replaced, and `s` is returned as it is when `pat` does not occur.
   */
  function ReplaceFirst(s: string, pat: string, rep: string): (r: string)
  {
    var k := IndexOf(s, pat);
    if k == -1 then s else s[..k] + rep + s[k + |pat|..]
  }

  /** Replacing a pattern that does not occur changes nothing. */
  lemma ReplaceFirstAbsent(s: string, pat: string, rep: string)
    requires forall k :: !OccursAt(s, pat, k)
    ensures ReplaceFirst(s, pat, rep) == s
  {
  }

  /**
   * When `pat` occurs, `s` is the part before its first occurrence, `pat`, and
   * the rest; the result has `rep` in place of that occurrence and is shorter
   * by the difference of their lengths.
   */
  lemma ReplaceFirstOccurrence(s: string, pat: string, rep: string)
    requires exists k :: OccursAt(s, pat, k)
    ensures var k := IndexOf(s, pat);
      0 <= k && s == s[..k] + pat + s[k + |pat|..] &&
      ReplaceFirst(s, pat, rep) == s[..k] + rep + s[k + |pat|..] &&
      |ReplaceFirst(s, pat, rep)| == |s| - |pat| + |rep| &&
      forall j :: 0 <= j < k ==> !OccursAt(s, pat, j)
  {
    var k := IndexOf(s, pat);
    assert s[k..k + |pat|] == pat;
    assert s == s[..k] + s[k..k + |pat|] + s[k + |pat|..];
  }

  /** Removing the empty pattern (`s.replace('', '')`) changes nothing. */
  lemma ReplaceEmptyPattern(s: string)
    ensures ReplaceFirst(s, "", "") == s
  {
    assert OccursAt(s, "", 0);
  }

  /**
   * The split of lines 97-105 of typedoc-plugin-deno.ts: the text before the
   * first line feed, and the text after it (empty when there is no line feed).
   */
  function SplitFirstLine(s: string): (r: (string, string))
    ensures '\n' !in r.0
    ensures '\n' !in s ==> r == (s, "")
    ensures '\n' in s ==> r.0 + "\n" + r.1 == s
  {
    var firstLF := IndexOf(s, "\n");
    IndexOfChar(s, '\n');
    if firstLF == -1 then (s, "") else
      assert s == s[..firstLF] + [s[firstLF]] + s[firstLF + 1..];
      (s[..firstLF], s[firstLF + 1..])
  }
}
