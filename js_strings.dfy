/**
 * The JavaScript string operations the server applies to file names, UUIDs,
 * clock readings and file contents, over strings of Unicode scalar values.
 */
module JsStrings {

  import opened Wrappers

  /** `pat` occurs in `s` starting at index `j`. */
  predicate OccursAt(s: string, pat: string, j: nat) {
    j + |pat| <= |s| && s[j..j + |pat|] == pat
  }

  /** `i` is the first index at which `pat` occurs in `s`. */
  predicate FirstOccurrence(s: string, pat: string, i: nat) {
    OccursAt(s, pat, i) && forall j: nat :: j < i ==> !OccursAt(s, pat, j)
  }

  /** `String.prototype.indexOf(pat, from)`, with -1 written as None. */
  function IndexFrom(s: string, pat: string, from: nat): (r: Option<nat>)
    ensures r.Some? ==> from <= r.value && OccursAt(s, pat, r.value)
    ensures forall j: nat :: from <= j && (r.None? || j < r.value) ==> !OccursAt(s, pat, j)
    decreases |s| - from
  {
    if from + |pat| > |s| then None
    else if s[from..from + |pat|] == pat then Some(from)
    else IndexFrom(s, pat, from + 1)
  }

  /** `String.prototype.indexOf(pat)`. */
  function IndexOf(s: string, pat: string): (r: Option<nat>)
    ensures r.Some? <==> exists j: nat :: OccursAt(s, pat, j)
    ensures r.Some? ==> FirstOccurrence(s, pat, r.value)
  {
    IndexFrom(s, pat, 0)
  }

  /**
   * `s.replace(pat, rep)` with a string pattern: only the FIRST occurrence
   * of `pat` is replaced; without one, `s` comes back unchanged.
   */
  function ReplaceFirst(s: string, pat: string, rep: string): (r: string)
    ensures (forall j: nat :: !OccursAt(s, pat, j)) ==> r == s
    ensures forall i: nat :: FirstOccurrence(s, pat, i) ==>
              r == s[..i] + rep + s[i + |pat|..] && |r| == |s| - |pat| + |rep|
  {
    match IndexOf(s, pat)
    case None => s
    case Some(i) => s[..i] + rep + s[i + |pat|..]
  }

  /** `indexOf` of a one-character pattern is the index of its first occurrence. */
  lemma IndexOfChar(s: string, c: char, i: nat)
    requires i < |s| && s[i] == c && forall j :: 0 <= j < i ==> s[j] != c
    ensures IndexOf(s, [c]) == Some(i)
  {
    forall j: nat | j < i ensures !OccursAt(s, [c], j) {
      assert s[j..j + 1] == [s[j]];
    }
    assert s[i..i + 1] == [c];
    assert FirstOccurrence(s, [c], i);
  }

  /** Replacing a one-character pattern whose first occurrence is at `i`. */
  lemma ReplaceFirstChar(s: string, c: char, rep: string, i: nat)
    requires i < |s| && s[i] == c && forall j :: 0 <= j < i ==> s[j] != c
    ensures ReplaceFirst(s, [c], rep) == s[..i] + rep + s[i + 1..]
  {
    IndexOfChar(s, c, i);
  }

  /** `s.endsWith(suffix)`. */
  predicate EndsWith(s: string, suffix: string) {
    |suffix| <= |s| && s[|s| - |suffix|..] == suffix
  }

  /** `s.replace(/c/g, d)` for a single character `c`. */
  function ReplaceAllChar(s: string, c: char, d: char): (r: string)
    ensures |r| == |s|
    ensures forall i :: 0 <= i < |s| ==> r[i] == (if s[i] == c then d else s[i])
  {
    if s == [] then []
    else [if s[0] == c then d else s[0]] + ReplaceAllChar(s[1..], c, d)
  }

  /** `s.replace(/c/g, '')` for a single character `c`. */
  function RemoveAllChar(s: string, c: char): (r: string)
    ensures c !in r && |r| <= |s|
    ensures c !in s ==> r == s
  {
    if s == [] then []
    else
      assert s == [s[0]] + s[1..];
      (if s[0] == c then [] else [s[0]]) + RemoveAllChar(s[1..], c)
  }

  /** Only `c` is removed: every other character keeps its number of occurrences. */
  lemma {:induction false} RemoveAllCharCounts(s: string, c: char)
    ensures multiset(RemoveAllChar(s, c)) == multiset(s)[c := 0]
  {
    if s != [] {
      RemoveAllCharCounts(s[1..], c);
      assert s == [s[0]] + s[1..];
      assert multiset(s) == multiset([s[0]]) + multiset(s[1..]);
    }
  }

  /** Removing a character distributes over concatenation. */
  lemma {:induction false} RemoveAllCharAppend(a: string, b: string, c: char)
    ensures RemoveAllChar(a + b, c) == RemoveAllChar(a, c) + RemoveAllChar(b, c)
  {
    if a == [] {
      assert a + b == b;
    } else {
      assert (a + b)[0] == a[0];
      assert (a + b)[1..] == a[1..] + b;
      RemoveAllCharAppend(a[1..], b, c);
    }
  }

  /** Removing `c` from `x + [c] + y`, where `y` holds no `c`. */
  lemma RemoveCharBefore(x: string, c: char, y: string)
    requires c !in y
    ensures RemoveAllChar(x + [c] + y, c) == RemoveAllChar(x, c) + y
  {
    assert RemoveAllChar([c], c) == [];
    RemoveAllCharAppend(x + [c], y, c);
    RemoveAllCharAppend(x, [c], c);
  }

  /**
   * The characters `String.prototype.trim` removes: the ECMAScript
   * WhiteSpace and LineTerminator code points.
   */
  predicate IsJsSpace(ch: char) {
    || ch == '\t' || ch == '\n' || ch == '\U{000B}' || ch == '\U{000C}' || ch == '\r'
    || ch == ' ' || ch == '\U{00A0}' || ch == '\U{1680}'
    || ('\U{2000}' <= ch <= '\U{200A}')
    || ch == '\U{2028}' || ch == '\U{2029}' || ch == '\U{202F}' || ch == '\U{205F}'
    || ch == '\U{3000}' || ch == '\U{FEFF}'
  }

  /** `s` with its leading white space removed: a suffix of `s`. */
  function TrimStart(s: string): (r: string)
    ensures |r| <= |s| && r == s[|s| - |r|..]
    ensures forall k :: 0 <= k < |s| - |r| ==> IsJsSpace(s[k])
    ensures r != [] ==> !IsJsSpace(r[0])
  {
    if s != [] && IsJsSpace(s[0]) then TrimStart(s[1..]) else s
  }

  /** `s` with its trailing white space removed: a prefix of `s`. */
  function TrimEnd(s: string): (r: string)
    ensures |r| <= |s| && r == s[..|r|]
    ensures forall k :: |r| <= k < |s| ==> IsJsSpace(s[k])
    ensures r != [] ==> !IsJsSpace(r[|r| - 1])
  {
    if s != [] && IsJsSpace(s[|s| - 1]) then TrimEnd(s[..|s| - 1]) else s
  }

  /** `s.trim()`. */
  function Trim(s: string): string {
    TrimEnd(TrimStart(s))
  }

  /**
   * What `trim` promises: the result is the slice `s[i..j]` of `s` whose
   * outside is white space and whose two ends are not.
   */
  lemma TrimSlice(s: string) returns (i: nat, j: nat)
    ensures i <= j <= |s| && Trim(s) == s[i..j]
    ensures forall k :: 0 <= k < i ==> IsJsSpace(s[k])
    ensures forall k :: j <= k < |s| ==> IsJsSpace(s[k])
    ensures Trim(s) != [] ==> !IsJsSpace(Trim(s)[0]) && !IsJsSpace(Trim(s)[|Trim(s)| - 1])
  {
    var t := TrimStart(s);
    var r := TrimEnd(t);
    i, j := SpaceMargins(s, t, r);
  }

  /**
   * A suffix `t` of `s` after white space, and a prefix `r` of `t` before
   * white space, make `r` the slice `s[i..j]` between two white-space margins.
   */
  lemma SpaceMargins(s: string, t: string, r: string) returns (i: nat, j: nat)
    requires |t| <= |s| && t == s[|s| - |t|..] && forall k :: 0 <= k < |s| - |t| ==> IsJsSpace(s[k])
    requires t != [] ==> !IsJsSpace(t[0])
    requires |r| <= |t| && r == t[..|r|] && forall k :: |r| <= k < |t| ==> IsJsSpace(t[k])
    requires r != [] ==> !IsJsSpace(r[|r| - 1])
    ensures i == |s| - |t| && j == i + |r| && j <= |s| && r == s[i..j]
    ensures forall k :: 0 <= k < i ==> IsJsSpace(s[k])
    ensures forall k :: j <= k < |s| ==> IsJsSpace(s[k])
    ensures r != [] ==> !IsJsSpace(r[0]) && !IsJsSpace(r[|r| - 1])
  {
    i := |s| - |t|;
    j := i + |r|;
    assert r == s[i..j];
    if r != [] {
      assert r[0] == t[0];
    }
    forall k | j <= k < |s| ensures IsJsSpace(s[k]) {
      assert s[k] == t[k - i];
    }
  }

  /** Trimming twice is trimming once. */
  lemma TrimIdempotent(s: string)
    ensures Trim(Trim(s)) == Trim(s)
  {
    var r := Trim(s);
    if r != [] {
      assert TrimStart(r) == r;
      assert TrimEnd(r) == r;
    }
  }
  /** A regular-expression word character (`\w` without the `u` flag): ASCII only. */
  predicate IsWordChar(ch: char) {
    ('a' <= ch <= 'z') || ('A' <= ch <= 'Z') || ('0' <= ch <= '9') || ch == '_'
  }

  /** An ASCII lower-case letter. */
  predicate IsLowerAscii(ch: char) {
    'a' <= ch <= 'z'
  }

  /**
   * `toUpperCase` on one `\w` match: a lower-case letter becomes the same
   * letter in upper case; digits, `_` and upper-case letters stay as they are.
   */
  function ToUpperAscii(ch: char): (r: char)
    ensures IsWordChar(r) <==> IsWordChar(ch)
    ensures !IsLowerAscii(r)
    ensures IsLowerAscii(ch) ==> 'A' <= r <= 'Z' && r as int - 'A' as int == ch as int - 'a' as int
    ensures !IsLowerAscii(ch) ==> r == ch
  {
    if IsLowerAscii(ch) then (ch as int - 32) as char else ch
  }

  /** Index `i` of `s` holds a word character that follows a regex word boundary (`\b\w`). */
  predicate AtWordStart(s: string, i: nat)
    requires i < |s|
  {
    IsWordChar(s[i]) && (i == 0 || !IsWordChar(s[i - 1]))
  }

  /**
   * `s.replace(/\b\w/g, l => l.toUpperCase())`, as the regex engine runs it:
   * one pass left to right, remembering whether the previous character was a
   * word character (`afterWord`, false at the start of the string).
   */
  function UpperFrom(s: string, afterWord: bool): (r: string)
    ensures |r| == |s|
    ensures s != [] ==> r[0] == if IsWordChar(s[0]) && !afterWord then ToUpperAscii(s[0]) else s[0]
    ensures forall i :: 0 < i < |s| ==> r[i] == if AtWordStart(s, i) then ToUpperAscii(s[i]) else s[i]
  {
    if s == [] then []
    else [if IsWordChar(s[0]) && !afterWord then ToUpperAscii(s[0]) else s[0]] + UpperFrom(s[1..], IsWordChar(s[0]))
  }

  /** Upper-cases every word character at a word boundary. */
  function UpperWordStarts(s: string): (r: string)
    ensures |r| == |s|
    ensures forall i :: 0 <= i < |s| ==> r[i] == if AtWordStart(s, i) then ToUpperAscii(s[i]) else s[i]
  {
    UpperFrom(s, false)
  }
}
