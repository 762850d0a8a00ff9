/**
 * The two object-extraction patterns of `query.py`, written out as string
 * functions:
 *   - the brace pattern: a `{`, then any characters other than `}`, then `}`;
 *   - the fenced-block pattern: "```json", then whole lines (each ending in
 *     a newline), then "```"; group 1 is the run of lines.
 */
module Extraction {
  import opened Wrappers
  import opened Strings

  /** The first index at or after `from` holding `c`, or `|s|` if none. */
  function IndexOf(s: string, c: char, from: nat): (i: nat)
    requires from <= |s|
    ensures from <= i <= |s|
    ensures i < |s| ==> s[i] == c
    ensures forall k :: from <= k < i ==> s[k] != c
    decreases |s| - from
  {
    if from == |s| || s[from] == c then from else IndexOf(s, c, from + 1)
  }

  /** Some `{` occurs before some `}`. */
  predicate HasBracePair(s: string) {
    exists i, j :: 0 <= i < j < |s| && s[i] == '{' && s[j] == '}'
  }

  /**
   * `JSON_OBJECT_ONLY.search(s)` as the indexes of the match's first and
   * last character: the match starts at the first `{` of `s` and ends at
   * the first `}` after it, and it exists exactly when some `{` precedes
   * some `}`.
   */
  function ObjectSpan(s: string): (r: Option<(nat, nat)>)
    ensures r.Some? <==> HasBracePair(s)
    ensures r.Some? ==>
      && r.value.0 < r.value.1 < |s|
      && s[r.value.0] == '{' && s[r.value.1] == '}'
      && (forall k :: 0 <= k < r.value.0 ==> s[k] != '{')
      && (forall k :: r.value.0 < k < r.value.1 ==> s[k] != '}')
  {
    var i := IndexOf(s, '{', 0);
    if i == |s| then None
    else
      var j := IndexOf(s, '}', i + 1);
      if j == |s| then None else Some((i, j))
  }

  /** `__match_json`: the matched text, if any. */
  function MatchObject(s: string): Option<string> {
    match ObjectSpan(s)
    case None => None
    case Some((i, j)) => Some(s[i..j + 1])
  }

  /**
   * The extraction step of `json_to_csv`: the brace pattern, and when it
   * finds nothing, the same pattern once more on `s + "\n}"`.  The repaired
   * attempt fails, and "No JSON object found" is reported, exactly when `s`
   * contains no `{` at all.  A found object starts with `{`, ends with `}`
   * and has no other `}`.
   */
  function ExtractObject(s: string): (r: Option<string>)
    ensures r.None? <==> '{' !in s
    ensures r.Some? ==>
      && |r.value| >= 2 && r.value[0] == '{' && r.value[|r.value| - 1] == '}'
      && (forall k :: 0 < k < |r.value| - 1 ==> r.value[k] != '}')
  {
    match MatchObject(s)
    case Some(m) => Some(m)
    case None =>
      var t := s + "\n}";
      if '{' in s then
        var i :| 0 <= i < |s| && s[i] == '{';
        assert t[i] == '{' && t[|t| - 1] == '}';
        MatchObject(t)
      else
        assert forall k :: 0 <= k < |t| ==> t[k] != '{';
        MatchObject(t)
  }

  /** "```json" opens a fenced block at `p`. */
  predicate OpensAt(s: string, p: nat) {
    p + 7 <= |s| && s[p..p + 7] == "```json"
  }

  /**
   * Group 1 of the fence pattern, when its lines start at `q`, may end at
   * `t`: `t` is `q` itself or the start of a line, and "```" follows.
   */
  predicate IsCloser(s: string, q: nat, t: nat) {
    q <= t && t + 3 <= |s| && (t == q || s[t - 1] == '\n') && s[t..t + 3] == "```"
  }

  /** Group 1 has some way to end when its lines start at `q`. */
  predicate HasCloser(s: string, q: nat) {
    exists t :: q <= t <= |s| && IsCloser(s, q, t)
  }

  /** No position after `t` can end group 1 when its lines start at `q`. */
  ghost predicate NoCloserAfter(s: string, q: nat, t: nat) {
    forall u :: t < u ==> !IsCloser(s, q, u)
  }

  /** The fence pattern matches at `p`. */
  predicate FenceMatchesAt(s: string, p: nat) {
    OpensAt(s, p) && HasCloser(s, p + 7)
  }

  /** The largest closer for lines starting at `q`, searching `t` downwards. */
  function LastCloser(s: string, q: nat, t: nat): (r: Option<nat>)
    ensures r.Some? ==> IsCloser(s, q, r.value) && r.value <= t
    ensures r.Some? ==> forall u :: r.value < u <= t ==> !IsCloser(s, q, u)
    ensures r.None? ==> forall u :: 0 <= u <= t ==> !IsCloser(s, q, u)
    decreases t
  {
    if t < q then None
    else if IsCloser(s, q, t) then Some(t)
    else if t == 0 then None
    else LastCloser(s, q, t - 1)
  }

  /**
   * `JSON_INLINE_MARKDOWN.search(s)` from position `p` on, as the opening
   * position and the end of group 1.  The star over lines is greedy, so
   * group 1 runs to the LAST line-initial "```" after the opening; the
   * search takes the leftmost opening that has any closer at all.
   */
  function FenceSpan(s: string, p: nat): (r: Option<(nat, nat)>)
    requires p <= |s|
    ensures r.Some? ==>
      && p <= r.value.0 && OpensAt(s, r.value.0)
      && IsCloser(s, r.value.0 + 7, r.value.1)
      && NoCloserAfter(s, r.value.0 + 7, r.value.1)
      && (forall o :: p <= o < r.value.0 ==> !FenceMatchesAt(s, o))
    ensures r.None? ==> forall o :: p <= o <= |s| ==> !FenceMatchesAt(s, o)
    decreases |s| - p
  {
    if OpensAt(s, p) then
      match LastCloser(s, p + 7, |s|)
      case Some(t) => Some((p, t))
      case None => FenceSpan(s, p + 1)
    else if p == |s| then None
    else FenceSpan(s, p + 1)
  }

  /**
   * Group 1 of the leftmost fenced-block match: a run of whole lines, so it
   * is empty or ends with a newline, and "```" follows it in `s`.
   */
  function FenceBody(s: string): (r: Option<string>)
    ensures r.Some? ==> r.value == [] || r.value[|r.value| - 1] == '\n'
    ensures r.Some? <==> exists o :: 0 <= o <= |s| && FenceMatchesAt(s, o)
  {
    match FenceSpan(s, 0)
    case None => None
    case Some((o, t)) =>
      assert IsCloser(s, o + 7, t) && o + 7 <= t <= |s|;
      assert HasCloser(s, o + 7);
      assert FenceMatchesAt(s, o);
      Some(s[o + 7..t])
  }
}
