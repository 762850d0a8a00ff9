/**
 * The response parsers of `query.py`: `ResponseParser.json_to_csv` (the
 * pipeline from a free-text reply to one CSV line), `get_empty_response`,
 * the DeepSeek parser that first looks for a fenced json block, the
 * pass-through `NoResponseParser`, and the registered parser classes that
 * call `json_to_csv` on the whole reply.
 *
 * `ast.literal_eval` is not modelled: a parser carries it as a function
 * from the cleaned text to the decoded dictionary's items in insertion
 * order, or `None` when decoding raises `ValueError` or `SyntaxError`.
 */
module ResponseParser {
  import opened Wrappers
  import opened Strings
  import opened Extraction
  import opened Cleanup
  import opened Values
  import Csv

  /** The attribute list of a parser: the identity column first, then the rest. */
  datatype Schema = Schema(identity: string, rest: seq<string>)

  function Attributes(schema: Schema): (r: seq<string>)
    ensures r != [] && r[0] == schema.identity
  {
    [schema.identity] + schema.rest
  }

  /** `set(attributes)`: the attributes a reply must cover. */
  function AttributeSet(schema: Schema): (r: set<string>)
    ensures schema.identity in r
    ensures forall a :: a in r <==> a in Attributes(schema)
  {
    set a | a in Attributes(schema)
  }

  /** The literal decoder: the items of the decoded dictionary, in order, or `None`. */
  type Decoder = string -> Option<seq<(string, Value)>>

  /** What sets `last_error`. */
  datatype ParseError = NoObject | Unparsable | MissingKeys | EmptyResponse

  /** A parser's result: the CSV line and the error it recorded, if any. */
  datatype ParseOutcome = ParseOutcome(line: string, error: Option<ParseError>)

  /** How a parser class handles a reply. */
  datatype Strategy =
    | Verbatim      // NoResponseParser
    | WholeReply    // the classes that call json_to_csv on the reply
    | FencedFirst   // DEEPSEEK_R1_LATESTResponseParser

  datatype Parser = Parser(strategy: Strategy, schema: Schema, decode: Decoder)

  predicate Distinct(s: seq<string>) {
    forall i, j :: 0 <= i < j < |s| ==> s[i] != s[j]
  }

  /** `get_empty_response`: the package name and one comma per further attribute. */
  function EmptyLine(schema: Schema, pkg: string): (r: string)
    ensures r == pkg + Repeat(',', |Attributes(schema)| - 1)
  {
    pkg + Repeat(',', |schema.rest|)
  }

  /** The error entry of `json_to_csv`: commas counted over the attribute SET. */
  function ErrorLine(schema: Schema, pkg: string): string {
    pkg + Repeat(',', |AttributeSet(schema)| - 1)
  }

  // ---------------------------------------------------------------------
  // Keys
  // ---------------------------------------------------------------------

  /** `k.replace(" ", "").lower()`. */
  function NormKey(k: string): (r: string)
    ensures KeyShape(r)
  {
    var unspaced := ReplaceAll(k, " ", "");
    var r := Lower(unspaced);
    assert KeyShape(r) by {
      forall i | 0 <= i < |r| ensures !IsUpperAscii(r[i]) && r[i] != ' ' {
        assert r[i] == LowerChar(unspaced[i]);
      }
    }
    r
  }

  /** A normalised key: no upper-case letter and no space. */
  predicate KeyShape(k: string) {
    forall i :: 0 <= i < |k| ==> !IsUpperAscii(k[i]) && k[i] != ' '
  }

  /**
   * The dictionary comprehension over the decoded items: each key
   * normalised, a later item overwriting an earlier one with the same
   * normalised key.
   */
  function NormalizeKeys(items: seq<(string, Value)>): (r: map<string, Value>)
    ensures forall k :: k in r ==> KeyShape(k)
    ensures r.Keys == ItemKeys(items)
    decreases |items|
  {
    if items == [] then map[]
    else
      var init := items[..|items| - 1];
      var last := items[|items| - 1];
      ItemKeysSplit(items);
      NormalizeKeys(init)[NormKey(last.0) := last.1]
  }

  /** The normalised keys of the items. */
  function ItemKeys(items: seq<(string, Value)>): set<string> {
    set i | 0 <= i < |items| :: NormKey(items[i].0)
  }

  lemma ItemKeysSplit(items: seq<(string, Value)>)
    requires items != []
    ensures ItemKeys(items) == ItemKeys(items[..|items| - 1]) + {NormKey(items[|items| - 1].0)}
  {
    var init := items[..|items| - 1];
    forall k | k in ItemKeys(items)
      ensures k in ItemKeys(init) + {NormKey(items[|items| - 1].0)}
    {
      var i :| 0 <= i < |items| && NormKey(items[i].0) == k;
      if i < |init| {
        assert init[i] == items[i];
      }
    }
    forall k | k in ItemKeys(init)
      ensures k in ItemKeys(items)
    {
      var i :| 0 <= i < |init| && NormKey(init[i].0) == k;
      assert items[i] == init[i];
    }
  }


  /** The value of a normalised key is that of the LAST item carrying it. */
  lemma {:induction false} LastItemWins(items: seq<(string, Value)>, i: nat)
    requires i < |items|
    requires forall j :: i < j < |items| ==> NormKey(items[j].0) != NormKey(items[i].0)
    ensures NormalizeKeys(items)[NormKey(items[i].0)] == items[i].1
    decreases |items|
  {
    if i < |items| - 1 {
      var init := items[..|items| - 1];
      assert init[i] == items[i];
      LastItemWins(init, i);
    }
  }

  // ---------------------------------------------------------------------
  // Aliases and coverage
  // ---------------------------------------------------------------------

  /** `ResponseParser.ALIASES`: alternative key -> canonical key. */
  const Aliases: map<string, string> :=
    map["cryptography_relevance" := "cryptographic_relevance", "explanation" := "justification"]

  /** No canonical key is itself an alternative key, and no two alternatives share one. */
  lemma AliasesWellFormed()
    ensures forall a :: a in Aliases ==> Aliases[a] !in Aliases
    ensures forall a, b :: a in Aliases && b in Aliases && a != b ==> Aliases[a] != Aliases[b]
  {
  }

  /** The canonical keys are themselves in normalised form. */
  lemma AliasTargetsAreKeys()
    ensures forall a :: a in Aliases ==> KeyShape(Aliases[a])
  {
    var t1 := "cryptographic_relevance";
    var t2 := "justification";
    assert KeyShape(t1) by {
      forall i | 0 <= i < |t1| ensures !IsUpperAscii(t1[i]) && t1[i] != ' ' {}
    }
    assert KeyShape(t2) by {
      forall i | 0 <= i < |t2| ensures !IsUpperAscii(t2[i]) && t2[i] != ' ' {}
    }
  }

  /**
   * The alias loop: every alternative key present copies its value to its
   * canonical key.  Because no canonical key is an alternative key, the
   * loop's order does not matter and every copy reads an original value.
   */
  function ApplyAliases(data: map<string, Value>): (r: map<string, Value>)
    ensures r.Keys == data.Keys + (set a | a in data && a in Aliases :: Aliases[a])
  {
    AliasesWellFormed();
    data + map a | a in data && a in Aliases :: Aliases[a] := data[a]
  }

  /**
   * Aliasing copies each present alternative key's value to its canonical
   * key, and leaves every other key, the alternative keys included, as it was.
   */
  lemma {:induction false} AliasesCopyValues(data: map<string, Value>)
    ensures forall a :: a in data && a in Aliases ==> ApplyAliases(data)[Aliases[a]] == data[a]
    ensures forall k :: k in data && (forall a :: a in data && a in Aliases ==> Aliases[a] != k) ==>
      ApplyAliases(data)[k] == data[k]
  {
    AliasesWellFormed();
  }

  /**
   * The coverage check: the data as decoded if it covers every attribute,
   * else the aliased data if that does, else nothing.
   */
  function Complete(data: map<string, Value>, attrs: set<string>): (r: Option<map<string, Value>>)
    ensures attrs <= data.Keys ==> r == Some(data)
    ensures r.Some? ==> attrs <= r.value.Keys && data.Keys <= r.value.Keys
    ensures r.None? <==> !(attrs <= ApplyAliases(data).Keys)
  {
    if attrs <= data.Keys then Some(data)
    else
      var aliased := ApplyAliases(data);
      if attrs <= aliased.Keys then Some(aliased) else None
  }

  // ---------------------------------------------------------------------
  // Rendering
  // ---------------------------------------------------------------------

  /**
   * The field texts in attribute-list order: the package name wherever the
   * identity column is named, and the coerced value elsewhere.
   */
  function Fields(schema: Schema, pkg: string, data: map<string, Value>): (r: seq<string>)
    requires AttributeSet(schema) <= data.Keys
    ensures |r| == |Attributes(schema)| && r[0] == pkg
    ensures forall i :: 0 <= i < |r| ==>
      r[i] == if Attributes(schema)[i] == schema.identity then pkg else Rendered(data[Attributes(schema)[i]])
  {
    var attrs := Attributes(schema);
    seq(|attrs|, i requires 0 <= i < |attrs| =>
      if attrs[i] == schema.identity then pkg else Rendered(data[attrs[i]]))
  }

  /** The object text the pipeline decodes, or the error that stops it first. */
  function Decoded(p: Parser, text: string): (r: Result<map<string, Value>, ParseError>)
    ensures r == Err(NoObject) <==> '{' !in text
    ensures r.Ok? ==> AttributeSet(p.schema) <= r.value.Keys
    ensures r.Ok? ==> forall k :: k in r.value ==> KeyShape(k)
  {
    match ExtractObject(text)
    case None => Err(NoObject)
    case Some(obj) =>
      match p.decode(Clean(obj))
      case None => Err(Unparsable)
      case Some(items) =>
        var data := NormalizeKeys(items);
        match Complete(data, AttributeSet(p.schema))
        case None => Err(MissingKeys)
        case Some(full) =>
          AliasTargetsAreKeys();
          assert forall k :: k in full ==> k in data || k in Aliases.Values;
          Ok(full)
  }

  /**
   * `json_to_csv`: on any failure the error entry with the error recorded;
   * otherwise the quoted, comma-joined fields with no error.
   */
  function JsonToCsv(p: Parser, text: string, pkg: string): (r: ParseOutcome)
    ensures r.error.Some? ==> r.line == ErrorLine(p.schema, pkg)
    ensures r.error == Some(NoObject) <==> '{' !in text
    ensures r.error.None? ==> exists fs :: |fs| == |Attributes(p.schema)| && fs[0] == pkg && r.line == Csv.QuoteJoin(fs)
    ensures r.error.None? ==> Decoded(p, text).Ok? && r.line == Csv.QuoteJoin(Fields(p.schema, pkg, Decoded(p, text).value))
    ensures r.error != Some(EmptyResponse)
  {
    match Decoded(p, text)
    case Err(e) => ParseOutcome(ErrorLine(p.schema, pkg), Some(e))
    case Ok(data) => ParseOutcome(Csv.QuoteJoin(Fields(p.schema, pkg, data)), None)
  }

  /**
   * When a reply succeeds: an object is found, the decoder accepts its
   * cleaned text, and the decoded keys cover every attribute once the
   * aliases are applied.
   */
  lemma {:induction false} JsonToCsvSucceeds(p: Parser, text: string, pkg: string)
    ensures JsonToCsv(p, text, pkg).error.None? <==>
      && ExtractObject(text).Some?
      && p.decode(Clean(ExtractObject(text).value)).Some?
      && AttributeSet(p.schema) <= ApplyAliases(NormalizeKeys(p.decode(Clean(ExtractObject(text).value)).value)).Keys
  {
    match ExtractObject(text)
    case None =>
    case Some(obj) =>
      match p.decode(Clean(obj))
      case None =>
      case Some(items) =>
        var data := NormalizeKeys(items);
        assert Complete(data, AttributeSet(p.schema)).Some? <==> AttributeSet(p.schema) <= ApplyAliases(data).Keys;
  }

  /** The fallback line of the DeepSeek parser: hard-coded with two commas. */
  function NoJsonLine(pkg: string): string {
    pkg + ",,"
  }

  /**
   * The DeepSeek parser's choice of text: a non-empty fenced block first,
   * else the brace match, else nothing.
   */
  function DeepSeekBody(response: string): (r: Option<string>)
    ensures r.None? <==> (FenceBody(response).None? || FenceBody(response) == Some([])) && !HasBracePair(response)
  {
    match FenceBody(response)
    case Some(b) => if b != [] then Some(b) else MatchObject(response)
    case None => MatchObject(response)
  }

  /** `DEEPSEEK_R1_LATESTResponseParser.__call__`. */
  function DeepSeekParse(p: Parser, response: string, pkg: string): (r: ParseOutcome)
    ensures r.error == Some(EmptyResponse) <==> DeepSeekBody(response).None?
    ensures r.error == Some(EmptyResponse) ==> r.line == NoJsonLine(pkg)
  {
    match DeepSeekBody(response)
    case None => ParseOutcome(NoJsonLine(pkg), Some(EmptyResponse))
    case Some(body) => JsonToCsv(p, body, pkg)
  }

  /** A parser applied to a reply, by the class's strategy. */
  function Parse(p: Parser, response: string, pkg: string): (r: ParseOutcome)
    ensures p.strategy == Verbatim ==> r == ParseOutcome(response, None)
    ensures p.strategy != Verbatim && r.error.Some? ==>
      r.line == ErrorLine(p.schema, pkg) || r.line == NoJsonLine(pkg)
  {
    match p.strategy
    case Verbatim => ParseOutcome(response, None)
    case WholeReply => JsonToCsv(p, response, pkg)
    case FencedFirst => DeepSeekParse(p, response, pkg)
  }

  // ---------------------------------------------------------------------
  // Properties
  // ---------------------------------------------------------------------

  /** A list of names has at most as many distinct names as entries, and exactly as many iff none repeats. */
  lemma {:induction false} DistinctCount(s: seq<string>)
    ensures |set a | a in s| <= |s|
    ensures |set a | a in s| == |s| <==> Distinct(s)
    decreases |s|
  {
    if s != [] {
      var t := s[1..];
      DistinctCount(t);
      var whole := set a | a in s;
      var tail := set a | a in t;
      assert whole == {s[0]} + tail;
      if s[0] in t {
        assert whole == tail;
        var j :| 0 <= j < |t| && t[j] == s[0];
        assert s[0] == s[j + 1];
      } else {
        assert |whole| == |tail| + 1;
        if Distinct(t) {
          forall i, j | 0 <= i < j < |s| ensures s[i] != s[j] {
            assert s[j] == t[j - 1];
            if i > 0 {
              assert s[i] == t[i - 1];
            }
          }
        }
        if Distinct(s) {
          forall i, j | 0 <= i < j < |t| ensures t[i] != t[j] {
            assert t[i] == s[i + 1] && t[j] == s[j + 1];
          }
        }
      }
    }
  }

  /**
   * The error entry (commas over the attribute set) and the empty response
   * (commas over the attribute list) are the same line exactly when no
   * attribute is listed twice; otherwise the error entry is shorter.
   */
  lemma {:induction false} ErrorLineIsEmptyLine(schema: Schema, pkg: string)
    ensures ErrorLine(schema, pkg) == EmptyLine(schema, pkg) <==> Distinct(Attributes(schema))
    ensures |ErrorLine(schema, pkg)| <= |EmptyLine(schema, pkg)|
  {
    var attrs := Attributes(schema);
    DistinctCount(attrs);
    assert AttributeSet(schema) == set a | a in attrs;
    if ErrorLine(schema, pkg) == EmptyLine(schema, pkg) {
      assert |ErrorLine(schema, pkg)| == |EmptyLine(schema, pkg)|;
    }
  }

  /** A fenced block with a non-empty body is parsed in preference to the brace match. */
  lemma DeepSeekPrefersFence(p: Parser, response: string, pkg: string)
    requires FenceBody(response).Some? && FenceBody(response).value != []
    ensures DeepSeekParse(p, response, pkg) == JsonToCsv(p, FenceBody(response).value, pkg)
  {
  }

  /**
   * Without a usable fenced block, the DeepSeek parser runs `json_to_csv`
   * on the brace match, which therefore always finds its object.
   */
  lemma {:induction false} DeepSeekFallsBackToBraces(p: Parser, response: string, pkg: string)
    requires FenceBody(response).None? || FenceBody(response) == Some([])
    requires HasBracePair(response)
    ensures MatchObject(response).Some?
    ensures DeepSeekParse(p, response, pkg) == JsonToCsv(p, MatchObject(response).value, pkg)
    ensures DeepSeekParse(p, response, pkg).error != Some(NoObject)
  {
    var obj := MatchObject(response).value;
    assert obj[0] == '{';
  }
}
