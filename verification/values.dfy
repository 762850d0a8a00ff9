/**
 * Decoded reply values and the value coercion of `json_to_csv`
 * (query.py): Python's `str`/`repr` of the values that occur, the list
 * flattening, and the boolean-intent classifier `__try_parse_bool_str`.
 */
module Values {
  import opened Strings

  /**
   * A value produced by decoding the reply as a Python literal: a string, a
   * boolean, a list, or any other literal (int, float, None, tuple, dict,
   * ...) carried as its `str()` text, which for those types is also its
   * `repr()`.
   */
  datatype Value = Str(s: string) | Bool(b: bool) | List(items: seq<Value>) | Other(text: string)

  function BoolText(b: bool): string {
    if b then "True" else "False"
  }

  function HexDigit(n: nat): char
    requires n < 16
  {
    if n < 10 then ('0' as int + n) as char else ('a' as int + n - 10) as char
  }

  /** Characters `repr` writes as an escape: ASCII controls and DEL. */
  predicate IsControl(c: char) {
    c < ' ' || c as int == 0x7F
  }

  /** How `repr` writes one character of a string delimited by `q`. */
  function EscapeChar(c: char, q: char): string {
    if c == q || c == '\\' then ['\\', c]
    else if c == '\t' then "\\t"
    else if c == '\n' then "\\n"
    else if c == '\r' then "\\r"
    else if IsControl(c) then "\\x" + [HexDigit(c as int / 16), HexDigit(c as int % 16)]
    else [c]
  }

  function EscapeAll(s: string, q: char): string
    decreases |s|
  {
    if s == [] then [] else EscapeChar(s[0], q) + EscapeAll(s[1..], q)
  }

  /** Python's `repr` of a string: single quotes unless it holds `'` and no `"`. */
  function StrRepr(s: string): string {
    var q := if '\'' in s && '"' !in s then '"' else '\'';
    [q] + EscapeAll(s, q) + [q]
  }

  /** Python's `repr`. */
  function Repr(v: Value): string
    decreases v
  {
    match v
    case Str(s) => StrRepr(s)
    case Bool(b) => BoolText(b)
    case Other(t) => t
    case List(items) =>
      "[" + Join(", ", seq(|items|, i requires 0 <= i < |items| => Repr(items[i]))) + "]"
  }

  /** Python's `str`. */
  function ToStr(v: Value): string {
    if v.Str? then v.s else Repr(v)
  }

  /**
   * The element fix applied to list entries:
   * `str(x).replace("'", "").lower().replace('[', "").replace(']', "")`.
   */
  function ItemText(v: Value): (r: string)
    ensures '\'' !in r && '[' !in r && ']' !in r
    ensures r == Drop(Drop(Lower(Drop(ToStr(v), '\'')), '['), ']')
  {
    ReplaceCharIsDrop(ToStr(v), '\'');
    ReplaceCharIsDrop(Lower(Drop(ToStr(v), '\'')), '[');
    ReplaceCharIsDrop(Drop(Lower(Drop(ToStr(v), '\'')), '['), ']');
    var unquoted := ReplaceAll(ToStr(v), "'", "");
    var lowered := Lower(unquoted);
    assert '\'' !in lowered by {
      forall k | 0 <= k < |lowered| ensures lowered[k] != '\'' {
        assert lowered[k] == LowerChar(unquoted[k]);
      }
    }
    ReplaceAll(ReplaceAll(lowered, "[", ""), "]", "")
  }

  /** `str(list(map(fix, items)))`: the Python list display of the fixed entries. */
  function ListText(items: seq<Value>): string {
    Repr(List(seq(|items|, i requires 0 <= i < |items| => Str(ItemText(items[i])))))
  }

  const TrueTokens: set<string> := {"true", "1", "yes", "y", "on"}
  const FalseTokens: set<string> := {"false", "0", "no", "n", "off"}

  /** `str(value).strip().lower()`. */
  function Token(v: Value): string {
    Lower(Strip(ToStr(v)))
  }

  /**
   * `__try_parse_bool_str`: a boolean becomes its `str`; a value whose
   * token is truthy or falsy becomes `'True'` or `'False'`; anything else
   * is returned as it is (not stripped, not stringified).
   */
  function TryParseBool(v: Value): (r: Value)
    ensures r == v || r == Str("True") || r == Str("False")
    ensures v.Bool? ==> r == Str(BoolText(v.b))
    ensures !v.Bool? && Token(v) in TrueTokens ==> r == Str("True")
    ensures !v.Bool? && Token(v) in FalseTokens ==> r == Str("False")
    ensures !v.Bool? && Token(v) !in TrueTokens + FalseTokens ==> r == v
  {
    if v.Bool? then Str(BoolText(v.b))
    else if Token(v) in TrueTokens then Str("True")
    else if Token(v) in FalseTokens then Str("False")
    else v
  }

  /**
   * The coercion of one attribute value: strings get every `"` replaced by
   * `'`, lists become the display of their fixed entries, then the
   * boolean classifier runs.
   */
  function Coerce(v: Value): Value {
    var fixed :=
      match v
      case Str(s) => Str(ReplaceAll(s, "\"", "'"))
      case List(items) => Str(ListText(items))
      case _ => v;
    TryParseBool(fixed)
  }

  /** The text a coerced value contributes to the CSV line (`f'"{v}"'`). */
  function Rendered(v: Value): string {
    ToStr(Coerce(v))
  }

  /** The classifier is idempotent: its own outputs are fixed points. */
  lemma {:induction false} TryParseBoolIdempotent(v: Value)
    ensures TryParseBool(TryParseBool(v)) == TryParseBool(v)
  {
    var r := TryParseBool(v);
    if r == Str("True") {
      CanonicalTokenFixed(true);
    } else if r == Str("False") {
      CanonicalTokenFixed(false);
    }
  }

  lemma CanonicalTokenFixed(b: bool)
    ensures TryParseBool(Str(BoolText(b))) == Str(BoolText(b))
  {
    BoolTextToken(b);
  }

  /** The token of `str(b)` is its lower-case spelling. */
  lemma BoolTextToken(b: bool)
    ensures Token(Str(BoolText(b))) == if b then "true" else "false"
  {
    var t := BoolText(b);
    TokenOfPlain(t);
    LowerKnown(t, if b then "true" else "false");
  }

  /** The token of a string without surrounding whitespace is its lower-case form. */
  lemma {:induction false} TokenOfPlain(t: string)
    requires t != [] && !IsSpace(t[0]) && !IsSpace(t[|t| - 1])
    ensures Token(Str(t)) == Lower(t)
  {
    StripUnchanged(t);
  }

  lemma LowerKnown(s: string, l: string)
    requires |s| == |l| && forall i :: 0 <= i < |s| ==> LowerChar(s[i]) == l[i]
    ensures Lower(s) == l
  {
  }

  /**
   * A string value has every `"` turned into `'` and is then classified:
   * it renders as `True`, `False` or the swapped text itself, so it never
   * renders with a `"` that could break the quoting.
   */
  lemma {:induction false} StrRenderedHasNoQuote(s: string)
    ensures Coerce(Str(s)) == TryParseBool(Str(Swap(s, '"', '\'')))
    ensures var t := Swap(s, '"', '\'');
      Rendered(Str(s)) ==
        if Token(Str(t)) in TrueTokens then "True"
        else if Token(Str(t)) in FalseTokens then "False"
        else t
    ensures '"' !in Rendered(Str(s))
  {
    ReplaceCharIsSwap(s, '"', '\'');
  }

  /**
   * A list value is never classified as a boolean: its display starts with
   * `[`, which no token does, so it renders as the list display itself.
   */
  lemma {:induction false} ListIsNeverBoolean(items: seq<Value>)
    ensures Coerce(List(items)) == Str(ListText(items))
  {
    ListTextBrackets(items);
    BracketedIsNotBoolean(ListText(items));
  }

  /** No token starts with `[`, so a bracketed display is left as it is. */
  lemma {:induction false} BracketedIsNotBoolean(t: string)
    requires |t| >= 2 && t[0] == '[' && t[|t| - 1] == ']'
    ensures TryParseBool(Str(t)) == Str(t)
  {
    BracketedTokenIsNeither(t);
  }

  lemma {:induction false} BracketedTokenIsNeither(t: string)
    requires |t| >= 2 && t[0] == '[' && t[|t| - 1] == ']'
    ensures Token(Str(t)) !in TrueTokens && Token(Str(t)) !in FalseTokens
  {
    BracketedTokenStart(t);
    NoBracketToken(Token(Str(t)));
  }

  lemma {:induction false} BracketedTokenStart(t: string)
    requires |t| >= 2 && t[0] == '[' && t[|t| - 1] == ']'
    ensures Token(Str(t)) == Lower(t) && Lower(t)[0] == '['
  {
    TokenOfPlain(t);
  }

  lemma NoBracketToken(k: string)
    requires k != [] && k[0] == '['
    ensures k !in TrueTokens && k !in FalseTokens
  {
  }

  lemma ListTextBrackets(items: seq<Value>)
    ensures |ListText(items)| >= 2
    ensures ListText(items)[0] == '[' && ListText(items)[|ListText(items)| - 1] == ']'
  {
  }

  lemma {:induction false} EscapeAllPlain(s: string)
    requires forall i :: 0 <= i < |s| ==> s[i] != '\'' && s[i] != '\\' && !IsControl(s[i])
    ensures EscapeAll(s, '\'') == s
    decreases |s|
  {
    if s != [] {
      EscapeAllPlain(s[1..]);
    }
  }

  /**
   * When no fixed entry holds a backslash or a control character, a list
   * renders as `['a', 'b', ...]`: each fixed entry in single quotes, joined
   * by `, `, inside brackets.
   */
  lemma {:induction false} ListTextPlain(items: seq<Value>)
    requires forall i :: 0 <= i < |items| ==> '\\' !in ItemText(items[i])
    requires forall i, k :: 0 <= i < |items| && 0 <= k < |ItemText(items[i])| ==> !IsControl(ItemText(items[i])[k])
    ensures ListText(items) ==
      "[" + Join(", ", seq(|items|, i requires 0 <= i < |items| => "'" + ItemText(items[i]) + "'")) + "]"
  {
    var fixed := seq(|items|, i requires 0 <= i < |items| => Str(ItemText(items[i])));
    var reprs := seq(|fixed|, i requires 0 <= i < |fixed| => Repr(fixed[i]));
    var plain := seq(|items|, i requires 0 <= i < |items| => "'" + ItemText(items[i]) + "'");
    forall i | 0 <= i < |items|
      ensures reprs[i] == plain[i]
    {
      var t := ItemText(items[i]);
      EscapeAllPlain(t);
    }
    assert reprs == plain;
  }

  /** A padded, mixed-case truthy word is recognised: `" Yes\n"` becomes `'True'`. */
  lemma PaddedWordIsTruthy()
    ensures TryParseBool(Str(" Yes\n")) == Str("True")
  {
    var s := " Yes\n";
    assert SkipWhile(s, IsSpace, 1) == 1;
    assert TrimStart(s, IsSpace) == "Yes\n";
    var u := "Yes\n";
    assert SkipBackWhile(u, IsSpace, 3) == 3;
    assert TrimEnd(u, IsSpace) == "Yes";
    LowerKnown("Yes", "yes");
  }

  /** Non-string values are classified by their text: the integer `0` and `False` both become `'False'`. */
  lemma NumberAndBoolAreClassified()
    ensures TryParseBool(Other("0")) == Str("False")
    ensures TryParseBool(Bool(false)) == Str("False")
  {
    StripUnchanged("0");
    LowerKnown("0", "0");
    assert Token(Other("0")) == "0";
  }

}
