/** The string-level parts of Python's `ntpath` (the Windows flavour of
    `os.path`) and of `str.lower` that the word-file classifier relies on. */
module PathStrings {

  /** The characters ntpath treats as separators: its `sep` and its `altsep`. */
  predicate IsSep(c: char) {
    c == '\\' || c == '/'
  }

  /** The separator ntpath.join puts between two components. */
  const SEP: char := '\\'

  /** `str.rfind` of a separator, scanning `s[..n]` from its end: the index
      of the last separator there, or -1 when there is none. */
  function LastSepBelow(s: string, n: nat): (i: int)
    requires n <= |s|
    ensures -1 <= i < n
    ensures 0 <= i ==> IsSep(s[i])
    ensures forall j | i < j < n :: !IsSep(s[j])
  {
    if n == 0 then -1
    else if IsSep(s[n - 1]) then n - 1
    else LastSepBelow(s, n - 1)
  }

  /** `str.rfind('.')` on `s[..n]`: the index of the last dot there, or -1. */
  function LastDotBelow(s: string, n: nat): (i: int)
    requires n <= |s|
    ensures -1 <= i < n
    ensures 0 <= i ==> s[i] == '.'
    ensures forall j | i < j < n :: s[j] != '.'
  {
    if n == 0 then -1
    else if s[n - 1] == '.' then n - 1
    else LastDotBelow(s, n - 1)
  }

  function LastSep(s: string): (i: int)
    ensures -1 <= i < |s|
    ensures 0 <= i ==> IsSep(s[i])
    ensures forall j | i < j < |s| :: !IsSep(s[j])
  {
    LastSepBelow(s, |s|)
  }

  function LastDot(s: string): (i: int)
    ensures -1 <= i < |s|
    ensures 0 <= i ==> s[i] == '.'
    ensures forall j | i < j < |s| :: s[j] != '.'
  {
    LastDotBelow(s, |s|)
  }

  /** The postconditions of LastSep determine it. */
  lemma LastSepUnique(s: string, i: int)
    requires -1 <= i < |s|
    requires 0 <= i ==> IsSep(s[i])
    requires forall j | i < j < |s| :: !IsSep(s[j])
    ensures LastSep(s) == i
  {
  }

  /** The postconditions of LastDot determine it. */
  lemma LastDotUnique(s: string, i: int)
    requires -1 <= i < |s|
    requires 0 <= i ==> s[i] == '.'
    requires forall j | i < j < |s| :: s[j] != '.'
    ensures LastDot(s) == i
  {
  }

  predicate AllDots(s: string) {
    forall i | 0 <= i < |s| :: s[i] == '.'
  }

  /** `os.path.splitext` (genericpath._splitext with ntpath's separators):
      the extension starts at the last dot, provided that dot lies after the
      last separator and some character other than a dot precedes it in the
      final component; otherwise the extension is empty. */
  function SplitExt(p: string): (r: (string, string))
    ensures r.0 + r.1 == p
    ensures r.1 != "" ==> r.1[0] == '.'
    ensures forall j | 0 < j < |r.1| :: r.1[j] != '.' && !IsSep(r.1[j])
  {
    var sepIndex := LastSep(p);
    var dotIndex := LastDot(p);
    if dotIndex > sepIndex && !AllDots(p[sepIndex + 1..dotIndex]) then
      (p[..dotIndex], p[dotIndex..])
    else
      (p, "")
  }

  /** The final component of `p`: what follows its last separator. */
  function LastComponent(p: string): (c: string)
    ensures forall j | 0 <= j < |c| :: !IsSep(c[j])
    ensures |c| <= |p| && c == p[|p| - |c|..]
    ensures |c| == |p| || IsSep(p[|p| - |c| - 1])
  {
    p[LastSep(p) + 1..]
  }

  /** `splitext` looks only at the final component. */
  lemma ExtOfLastComponent(p: string)
    ensures SplitExt(LastComponent(p)).1 == SplitExt(p).1
  {
    var sepIndex := LastSep(p);
    var dotIndex := LastDot(p);
    var off := sepIndex + 1;
    var c := p[off..];
    assert c == LastComponent(p);
    LastSepUnique(c, -1);
    if dotIndex > sepIndex {
      LastDotUnique(c, dotIndex - off);
      assert LastSep(c) == -1 && LastDot(c) == dotIndex - off;
      assert c[0..dotIndex - off] == p[sepIndex + 1..dotIndex];
      assert c[dotIndex - off..] == p[dotIndex..];
    } else {
      assert forall j | 0 <= j < |c| :: c[j] == p[off + j];
      LastDotUnique(c, -1);
      assert LastDot(c) == -1;
    }
  }

  /** `str.lower` on one character, restricted to ASCII letters. */
  function LowerChar(c: char): char {
    if 'A' <= c <= 'Z' then (c as int + 32) as char else c
  }

  /** `str.lower`, restricted to ASCII letters: no upper-case letter is
      left, and every other character stays as it is. */
  function Lower(s: string): (r: string)
    ensures |r| == |s|
    ensures forall j | 0 <= j < |r| :: !('A' <= r[j] <= 'Z')
    ensures forall j | 0 <= j < |s| && !('A' <= s[j] <= 'Z') :: r[j] == s[j]
  {
    seq(|s|, i requires 0 <= i < |s| => LowerChar(s[i]))
  }

  lemma LowerSlice(s: string, a: int, b: int)
    requires 0 <= a <= b <= |s|
    ensures Lower(s)[a..b] == Lower(s[a..b])
  {
  }

  /** Lower-casing turns neither a letter into a dot or a separator nor the
      other way round. */
  lemma LowerOfDot(c: char)
    ensures LowerChar(c) == '.' <==> c == '.'
    ensures IsSep(LowerChar(c)) <==> IsSep(c)
  {
  }

  /** So every index that `splitext` computes is the same on `s` and on `Lower(s)`. */
  lemma LastIndicesOfLower(s: string)
    ensures LastSep(Lower(s)) == LastSep(s)
    ensures LastDot(Lower(s)) == LastDot(s)
  {
    var l := Lower(s);
    forall j | 0 <= j < |s| ensures (l[j] == '.' <==> s[j] == '.') && (IsSep(l[j]) <==> IsSep(s[j])) {
      LowerOfDot(s[j]);
    }
    LastSepUnique(l, LastSep(s));
    LastDotUnique(l, LastDot(s));
  }

  lemma AllDotsOfLower(s: string)
    ensures AllDots(Lower(s)) <==> AllDots(s)
  {
    forall j | 0 <= j < |s| ensures Lower(s)[j] == '.' <==> s[j] == '.' {
      LowerOfDot(s[j]);
    }
  }

  /** The extension of the lower-cased path is the lower-cased extension. */
  lemma ExtOfLower(p: string)
    ensures SplitExt(Lower(p)).1 == Lower(SplitExt(p).1)
  {
    var l := Lower(p);
    LastIndicesOfLower(p);
    var sepIndex := LastSep(p);
    var dotIndex := LastDot(p);
    assert LastSep(l) == sepIndex && LastDot(l) == dotIndex;
    if dotIndex > sepIndex {
      LowerSlice(p, sepIndex + 1, dotIndex);
      LowerSlice(p, dotIndex, |p|);
      AllDotsOfLower(p[sepIndex + 1..dotIndex]);
      assert p[dotIndex..|p|] == p[dotIndex..];
      assert l[dotIndex..|l|] == l[dotIndex..];
    }
  }

  lemma LowerIdempotent(s: string)
    ensures Lower(Lower(s)) == Lower(s)
  {
  }
}
