/**
 * The repair rewrites `json_to_csv` applies to the extracted object text
 * before decoding it (query.py): strip whitespace, quote bare booleans,
 * drop `//` comments and `, ...` markers, and drop escaped quotes and
 * backslashes.
 */
module Cleanup {
  import opened Strings

  /**
   * The pattern `[^"](T|t)rue,` (or its `False` twin) matches at `i`: a
   * character other than `"`, the word with either case of its first
   * letter, then a comma.
   */
  predicate BareAt(s: string, i: nat, word: string)
    requires word != []
  {
    && i + |word| + 2 <= |s|
    && s[i] != '"'
    && (s[i + 1] == word[0] || s[i + 1] == LowerChar(word[0]))
    && s[i + 2..i + |word| + 1] == word[1..]
    && s[i + |word| + 1] == ','
  }

  lemma {:induction false} BareAtTail(s: string, i: nat, word: string)
    requires word != [] && s != []
    requires BareAt(s[1..], i, word)
    ensures BareAt(s, i + 1, word)
  {
    assert s[1..][i + 2..i + |word| + 1] == s[i + 3..i + |word| + 2];
  }

  /**
   * `re.sub(r'[^"](T|t)rue,', ' "True",', s)` with `word == "True"` (and
   * likewise for `"False"`): every match, found left to right without
   * overlap, is replaced by a space, the quoted word and a comma.  The
   * character before the word is consumed by the match, so `:true,`
   * loses its colon.  Text without a match is returned unchanged.
   */
  /** The pattern matches nowhere in `s`. */
  predicate NoBare(s: string, word: string)
    requires word != []
  {
    forall i :: 0 <= i < |s| ==> !BareAt(s, i, word)
  }

  function QuoteBare(s: string, word: string): (r: string)
    requires word != []
    ensures NoBare(s, word) ==> r == s
    decreases |s|
  {
    if |s| < |word| + 2 then s
    else if BareAt(s, 0, word) then " \"" + word + "\"," + QuoteBare(s[|word| + 2..], word)
    else
      assert forall i :: 0 <= i < |s[1..]| && BareAt(s[1..], i, word) ==> BareAt(s, i + 1, word) by {
        forall i | 0 <= i < |s[1..]| && BareAt(s[1..], i, word) {
          BareAtTail(s, i, word);
        }
      }
      [s[0]] + QuoteBare(s[1..], word)
  }

  /** Whether the pattern matches at a position depends only on the text from there on. */
  lemma BareAtShift(a: string, t: string, i: nat, word: string)
    requires word != []
    ensures BareAt(a + t, |a| + i, word) <==> BareAt(t, i, word)
  {
    if i + |word| + 2 <= |t| {
      assert (a + t)[|a| + i + 2..|a| + i + |word| + 1] == t[i + 2..i + |word| + 1];
    }
  }

  /** Dropping the first character of a match-free prefix leaves it match-free. */
  lemma NoBareInTail(a: string, b: string, word: string)
    requires word != [] && a != []
    requires forall i :: 0 <= i < |a| ==> !BareAt(a + b, i, word)
    ensures forall i :: 0 <= i < |a| - 1 ==> !BareAt(a[1..] + b, i, word)
  {
    var t := a[1..] + b;
    assert [a[0]] + t == a + b;
    forall i | 0 <= i < |a| - 1 ensures !BareAt(t, i, word) {
      BareAtShift([a[0]], t, i, word);
    }
  }

  /** Text before the first match is copied unchanged. */
  lemma {:induction false} QuoteBareSkips(a: string, b: string, word: string)
    requires word != []
    requires forall i :: 0 <= i < |a| ==> !BareAt(a + b, i, word)
    ensures QuoteBare(a + b, word) == a + QuoteBare(b, word)
    decreases |a|
  {
    var s := a + b;
    if a == [] {
      assert s == b;
    } else if |s| < |word| + 2 {
      ShortUnchanged(s, word);
      ShortUnchanged(b, word);
    } else {
      var t := a[1..] + b;
      var q := QuoteBare(b, word);
      assert s[1..] == t;
      CopiesFirst(s, word);
      NoBareInTail(a, b, word);
      QuoteBareSkips(a[1..], b, word);
      assert QuoteBare(s, word) == [a[0]] + (a[1..] + q);
      ConsSplit(a, q);
    }
  }

  lemma ConsSplit(a: string, q: string)
    requires a != []
    ensures [a[0]] + (a[1..] + q) == a + q
  {
    assert [a[0]] + a[1..] == a;
  }

  /** A text too short for the pattern is unchanged. */
  lemma ShortUnchanged(s: string, word: string)
    requires word != [] && |s| < |word| + 2
    ensures QuoteBare(s, word) == s
  {
  }

  /** Without a match at the front, the first character is copied. */
  lemma CopiesFirst(s: string, word: string)
    requires word != [] && |s| >= |word| + 2 && !BareAt(s, 0, word)
    ensures QuoteBare(s, word) == [s[0]] + QuoteBare(s[1..], word)
  {
  }

  /**
   * A single match, with no match before it and none in the rest, becomes a
   * space, the quoted word and a comma: the character before the word is
   * consumed, so `"a":true,` turns into `"a" "True",`.
   */
  lemma {:induction false} QuoteBareOneMatch(a: string, m: string, b: string, word: string)
    requires word != [] && |m| == |word| + 2
    requires BareAt(a + m + b, |a|, word)
    requires forall i :: 0 <= i < |a| ==> !BareAt(a + m + b, i, word)
    requires forall j :: 0 <= j < |b| ==> !BareAt(b, j, word)
    ensures QuoteBare(a + m + b, word) == a + " \"" + word + "\"," + b
  {
    var t := m + b;
    assert a + m + b == a + t;
    QuoteBareSkips(a, t, word);
    BareAtShift(a, t, 0, word);
    assert t[|word| + 2..] == b;
    MatchAtFront(t, b, word);
    Regroup(a, " \"" + word + "\",", b, word);
  }

  lemma Regroup(a: string, rep: string, b: string, word: string)
    requires rep == " \"" + word + "\","
    ensures a + (rep + b) == a + " \"" + word + "\"," + b
  {
  }

  /** A match at the front, followed by match-free text, is the only rewrite. */
  lemma MatchAtFront(t: string, b: string, word: string)
    requires word != [] && BareAt(t, 0, word)
    requires t[|word| + 2..] == b && NoBare(b, word)
    ensures QuoteBare(t, word) == " \"" + word + "\"," + b
  {
    assert QuoteBare(b, word) == b;
  }

  /** No `//` occurs in `s`. */
  predicate NoComment(s: string) {
    forall i :: 0 <= i < |s| - 1 ==> s[i] == '/' ==> s[i + 1] != '/'
  }

  /** `[^\r\n]*`: drops everything up to the next carriage return or newline. */
  function DropLine(s: string): (r: string)
    ensures |r| <= |s|
    ensures r == [] || r[0] == '\r' || r[0] == '\n'
    decreases |s|
  {
    if s != [] && s[0] != '\r' && s[0] != '\n' then DropLine(s[1..]) else s
  }

  /**
   * `re.sub(r'//[^\r\n]*', '', s)`: every `//` and the rest of its line
   * are removed.  The result contains no `//` (a removal never glues two
   * slashes together), and text without `//` is returned unchanged.
   */
  function StripComments(s: string): (r: string)
    ensures NoComment(r)
    ensures NoComment(s) ==> r == s
    ensures s != [] && s[0] != '/' ==> r != [] && r[0] == s[0]
    decreases |s|
  {
    if |s| < 2 then s
    else if s[0] == '/' && s[1] == '/' then StripComments(DropLine(s[2..]))
    else [s[0]] + StripComments(s[1..])
  }

  /** `.replace(", ...", "").replace(",...", "")`. */
  function DropEllipses(s: string): string {
    ReplaceAll(ReplaceAll(s, ", ...", ""), ",...", "")
  }

  /** `.replace('\\"', "").replace("\\", "")`: the result has no backslash. */
  function DropBackslashes(s: string): (r: string)
    ensures '\\' !in r
  {
    ReplaceAll(ReplaceAll(s, "\\\"", ""), "\\", "")
  }

  /** All rewrites of `json_to_csv` between extraction and decoding, in order. */
  function Clean(s: string): (r: string)
    ensures '\\' !in r
  {
    var stripped := Strip(s);
    var quoted := QuoteBare(QuoteBare(stripped, "True"), "False");
    DropBackslashes(DropEllipses(StripComments(quoted)))
  }

  /**
   * Text that needs no repair passes through the rewrites unchanged: no
   * surrounding whitespace, no bare boolean before a comma, no comment,
   * no ellipsis marker and no backslash.
   */
  lemma {:induction false} CleanTextUnchanged(s: string)
    requires s == [] || (!IsSpace(s[0]) && !IsSpace(s[|s| - 1]))
    requires forall i :: 0 <= i < |s| ==> !BareAt(s, i, "True") && !BareAt(s, i, "False")
    requires NoComment(s)
    requires !HasSub(s, ", ...") && !HasSub(s, ",...")
    requires '\\' !in s
    ensures Clean(s) == s
  {
    StripUnchanged(s);
    NotInNoSub(s, "\\\"");
    NotInNoSub(s, "\\");
  }
}
