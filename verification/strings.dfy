/** ASCII string helpers: the subset of Python's `str` methods the program uses. */
module Strings {

  /** Python's `str.isspace`, restricted to ASCII. */
  predicate IsSpace(c: char) {
    c == ' ' || c == '\t' || c == '\n' || c == '\r'
    || c as int == 0x0B || c as int == 0x0C || (0x1C <= c as int <= 0x1F)
  }

  predicate IsUpperAscii(c: char) { 'A' <= c <= 'Z' }
  predicate IsLowerAscii(c: char) { 'a' <= c <= 'z' }

  function LowerChar(c: char): char {
    if IsUpperAscii(c) then (c as int + 32) as char else c
  }

  function UpperChar(c: char): char {
    if IsLowerAscii(c) then (c as int - 32) as char else c
  }

  /** Python's `str.lower` on ASCII text. */
  function Lower(s: string): (r: string)
    ensures |r| == |s|
    ensures forall i :: 0 <= i < |s| ==> r[i] == LowerChar(s[i])
  {
    seq(|s|, i requires 0 <= i < |s| => LowerChar(s[i]))
  }

  /** Python's `str.upper` on ASCII text. */
  function Upper(s: string): (r: string)
    ensures |r| == |s|
    ensures forall i :: 0 <= i < |s| ==> r[i] == UpperChar(s[i])
  {
    seq(|s|, i requires 0 <= i < |s| => UpperChar(s[i]))
  }

  /** The first index at or after `i` whose character fails `p` (or `|s|`). */
  function SkipWhile(s: string, p: char -> bool, i: nat): (k: nat)
    requires i <= |s|
    ensures i <= k <= |s|
    decreases |s| - i
  {
    if i < |s| && p(s[i]) then SkipWhile(s, p, i + 1) else i
  }

  /** The last index at or before `j` whose predecessor fails `p` (or `0`). */
  function SkipBackWhile(s: string, p: char -> bool, j: nat): (k: nat)
    requires j <= |s|
    ensures k <= j
  {
    if 0 < j && p(s[j - 1]) then SkipBackWhile(s, p, j - 1) else j
  }

  lemma {:induction false} SkipWhileFacts(s: string, p: char -> bool, i: nat)
    requires i <= |s|
    ensures forall m :: i <= m < SkipWhile(s, p, i) ==> p(s[m])
    ensures SkipWhile(s, p, i) < |s| ==> !p(s[SkipWhile(s, p, i)])
    decreases |s| - i
  {
    if i < |s| && p(s[i]) {
      SkipWhileFacts(s, p, i + 1);
    }
  }

  lemma {:induction false} SkipBackWhileFacts(s: string, p: char -> bool, j: nat)
    requires j <= |s|
    ensures forall m :: SkipBackWhile(s, p, j) <= m < j ==> p(s[m])
    ensures 0 < SkipBackWhile(s, p, j) ==> !p(s[SkipBackWhile(s, p, j) - 1])
  {
    if 0 < j && p(s[j - 1]) {
      SkipBackWhileFacts(s, p, j - 1);
    }
  }

  /** Drops the longest prefix whose characters all satisfy `p`. */
  function TrimStart(s: string, p: char -> bool): (r: string)
    ensures |r| <= |s| && r == s[|s| - |r|..]
  {
    s[SkipWhile(s, p, 0)..]
  }

  /** Drops the longest suffix whose characters all satisfy `p`. */
  function TrimEnd(s: string, p: char -> bool): (r: string)
    ensures |r| <= |s| && r == s[..|r|]
  {
    s[..SkipBackWhile(s, p, |s|)]
  }

  /** `TrimStart` removes exactly a maximal prefix of `p`-characters. */
  lemma {:induction false} TrimStartFacts(s: string, p: char -> bool)
    ensures forall i :: 0 <= i < |s| - |TrimStart(s, p)| ==> p(s[i])
    ensures TrimStart(s, p) == [] || !p(TrimStart(s, p)[0])
  {
    SkipWhileFacts(s, p, 0);
  }

  /** `TrimEnd` removes exactly a maximal suffix of `p`-characters. */
  lemma {:induction false} TrimEndFacts(s: string, p: char -> bool)
    ensures forall i :: |TrimEnd(s, p)| <= i < |s| ==> p(s[i])
    ensures TrimEnd(s, p) == [] || !p(TrimEnd(s, p)[|TrimEnd(s, p)| - 1])
  {
    SkipBackWhileFacts(s, p, |s|);
  }

  /** Python's `str.strip()` (whitespace on both ends). */
  function Strip(s: string): string {
    TrimEnd(TrimStart(s, IsSpace), IsSpace)
  }

  /** Text without surrounding whitespace is its own `strip()`. */
  lemma {:induction false} StripUnchanged(s: string)
    requires s == [] || (!IsSpace(s[0]) && !IsSpace(s[|s| - 1]))
    ensures Strip(s) == s
  {
    assert TrimStart(s, IsSpace) == s;
    assert TrimEnd(s, IsSpace) == s;
  }

  predicate StartsWith(s: string, prefix: string) {
    |prefix| <= |s| && s[..|prefix|] == prefix
  }

  /** `t in s` for strings: `t` occurs somewhere in `s`. */
  predicate HasSub(s: string, t: string) {
    exists i :: 0 <= i <= |s| && StartsWith(s[i..], t)
  }

  /** An occurrence in the tail of `s` is an occurrence in `s`. */
  lemma {:induction false} HasSubTail(s: string, t: string)
    requires s != []
    ensures HasSub(s[1..], t) ==> HasSub(s, t)
  {
    if HasSub(s[1..], t) {
      var i :| 0 <= i <= |s[1..]| && StartsWith(s[1..][i..], t);
      assert s[1..][i..] == s[i + 1..];
    }
  }

  /** A text that lacks the first character of `t` does not contain `t`. */
  lemma {:induction false} NotInNoSub(s: string, t: string)
    requires t != [] && t[0] !in s
    ensures !HasSub(s, t)
  {
  }

  /**
   * Python's `s.replace(pat, rep)`: every non-overlapping occurrence of
   * `pat`, scanning left to right, is replaced by `rep`.  The program only
   * ever replaces non-empty literals.
   */
  function ReplaceAll(s: string, pat: string, rep: string): (r: string)
    requires pat != []
    ensures !HasSub(s, pat) ==> r == s
    ensures |pat| == 1 && pat[0] !in rep ==> pat[0] !in r
    ensures forall c :: c in r ==> c in s || c in rep
    decreases |s|
  {
    if |s| < |pat| then s
    else if StartsWith(s, pat) then
      assert StartsWith(s[0..], pat);
      rep + ReplaceAll(s[|pat|..], pat, rep)
    else
      HasSubTail(s, pat);
      [s[0]] + ReplaceAll(s[1..], pat, rep)
  }

  /** `s` with every `c` deleted and the other characters kept in order. */
  function Drop(s: string, c: char): (r: string)
    ensures c !in r
    ensures forall x :: x != c ==> (x in r <==> x in s)
    decreases |s|
  {
    if s == [] then [] else (if s[0] == c then [] else [s[0]]) + Drop(s[1..], c)
  }

  /** `s` with every `c` replaced by `d` and the other characters kept. */
  function Swap(s: string, c: char, d: char): (r: string)
    ensures |r| == |s|
    ensures forall i :: 0 <= i < |s| ==> r[i] == if s[i] == c then d else s[i]
  {
    seq(|s|, i requires 0 <= i < |s| => if s[i] == c then d else s[i])
  }

  /** `s.replace(c, "")` for one character `c` deletes every `c`. */
  lemma {:induction false} ReplaceCharIsDrop(s: string, c: char)
    ensures ReplaceAll(s, [c], "") == Drop(s, c)
    decreases |s|
  {
    if s != [] {
      assert s[..1] == [s[0]];
      ReplaceCharIsDrop(s[1..], c);
    }
  }

  /** `s.replace(c, d)` for one-character `c` and `d` swaps every `c` for `d`. */
  lemma {:induction false} ReplaceCharIsSwap(s: string, c: char, d: char)
    ensures ReplaceAll(s, [c], [d]) == Swap(s, c, d)
    decreases |s|
  {
    if s != [] {
      assert s[..1] == [s[0]];
      ReplaceCharIsSwap(s[1..], c, d);
      assert Swap(s, c, d) == [if s[0] == c then d else s[0]] + Swap(s[1..], c, d);
    }
  }

  /** Python's `sep.join(parts)`. */
  function Join(sep: string, parts: seq<string>): string
    decreases |parts|
  {
    if |parts| == 0 then ""
    else if |parts| == 1 then parts[0]
    else parts[0] + sep + Join(sep, parts[1..])
  }

  /** Python's `c * n` for a one-character string `c`. */
  function Repeat(c: char, n: nat): (r: string)
    ensures |r| == n
    ensures forall i :: 0 <= i < n ==> r[i] == c
  {
    seq(n, _ => c)
  }
}
