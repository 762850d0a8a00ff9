/**
 * The class registry of `query.py`: classes are registered under a
 * normalised form of their name and looked up by the normalised form of a
 * raw identifier such as `llm_model + "ResponseParser"`.
 */
module Registry {
  import opened Wrappers
  import opened Strings

  /** Membership in the regular-expression class `[0-9a-zA-Z]`. */
  predicate IsAlnum(c: char) {
    '0' <= c <= '9' || 'a' <= c <= 'z' || 'A' <= c <= 'Z'
  }

  predicate IsUnderscore(c: char) { c == '_' }

  /** Membership in `[0-9A-Z_]`, the alphabet of normalised names. */
  predicate IsNameChar(c: char) {
    '0' <= c <= '9' || 'A' <= c <= 'Z' || c == '_'
  }

  predicate NoDoubleUnderscore(s: string) {
    forall i :: 0 <= i < |s| - 1 ==> s[i] == '_' ==> s[i + 1] != '_'
  }

  /** The shape of every normalised name. */
  predicate Canonical(s: string) {
    && (forall i :: 0 <= i < |s| ==> IsNameChar(s[i]))
    && NoDoubleUnderscore(s)
    && (s != [] ==> s[0] != '_' && s[|s| - 1] != '_')
  }

  /** The alphanumeric characters of `s`, in order. */
  function AlnumOf(s: string): string
    decreases |s|
  {
    if s == [] then []
    else (if IsAlnum(s[0]) then [s[0]] else []) + AlnumOf(s[1..])
  }

  lemma {:induction false} AlnumOfAppend(a: string, b: string)
    ensures AlnumOf(a + b) == AlnumOf(a) + AlnumOf(b)
    decreases |a|
  {
    if a == [] {
      assert a + b == b;
    } else {
      var head := if IsAlnum(a[0]) then [a[0]] else [];
      assert (a + b)[0] == a[0];
      assert (a + b)[1..] == a[1..] + b;
      assert AlnumOf(a + b) == head + AlnumOf(a[1..] + b);
      AlnumOfAppend(a[1..], b);
      assert AlnumOf(a) == head + AlnumOf(a[1..]);
      assert head + (AlnumOf(a[1..]) + AlnumOf(b)) == (head + AlnumOf(a[1..])) + AlnumOf(b);
    }
  }

  lemma {:induction false} AlnumOfNone(s: string)
    requires forall i :: 0 <= i < |s| ==> !IsAlnum(s[i])
    ensures AlnumOf(s) == []
    decreases |s|
  {
    if s != [] {
      AlnumOfNone(s[1..]);
    }
  }

  lemma {:induction false} AlnumOfUpper(s: string)
    ensures AlnumOf(Upper(s)) == Upper(AlnumOf(s))
    decreases |s|
  {
    if s != [] {
      assert Upper(s)[1..] == Upper(s[1..]);
      AlnumOfUpper(s[1..]);
      assert Upper(AlnumOf(s)) == Upper(if IsAlnum(s[0]) then [s[0]] else []) + Upper(AlnumOf(s[1..]));
    }
  }

  /** Drops the leading run of non-alphanumeric characters. */
  function DropRun(s: string): (r: string)
    ensures |r| <= |s|
    decreases |s|
  {
    if s != [] && !IsAlnum(s[0]) then DropRun(s[1..]) else s
  }

  lemma {:induction false} DropRunFacts(s: string)
    ensures DropRun(s) == [] || IsAlnum(DropRun(s)[0])
    ensures AlnumOf(DropRun(s)) == AlnumOf(s)
    decreases |s|
  {
    if s != [] && !IsAlnum(s[0]) {
      DropRunFacts(s[1..]);
    }
  }

  /**
   * `NON_ALNUM.sub('_', s)`: every maximal run of characters outside
   * `[0-9a-zA-Z]` (including `_` itself) becomes a single `_`.
   */
  function CollapseRuns(s: string): string
    decreases |s|
  {
    if s == [] then []
    else if IsAlnum(s[0]) then [s[0]] + CollapseRuns(s[1..])
    else "_" + CollapseRuns(DropRun(s[1..]))
  }

  lemma {:induction false} CollapseRunsShape(s: string)
    ensures forall i :: 0 <= i < |CollapseRuns(s)| ==> IsAlnum(CollapseRuns(s)[i]) || CollapseRuns(s)[i] == '_'
    ensures NoDoubleUnderscore(CollapseRuns(s))
    ensures CollapseRuns(s) != [] && CollapseRuns(s)[0] == '_' ==> s != [] && !IsAlnum(s[0])
    ensures AlnumOf(CollapseRuns(s)) == AlnumOf(s)
    decreases |s|
  {
    if s != [] {
      if IsAlnum(s[0]) {
        CollapseRunsShape(s[1..]);
        AlnumOfAppend([s[0]], CollapseRuns(s[1..]));
      } else {
        var d := DropRun(s[1..]);
        DropRunFacts(s[1..]);
        CollapseRunsShape(d);
        AlnumOfAppend("_", CollapseRuns(d));
      }
    }
  }

  /** Both shape conditions of `CollapseRuns` survive taking a slice. */
  lemma {:induction false} SliceKeepsShape(s: string, lo: nat, hi: nat)
    requires lo <= hi <= |s|
    requires forall i :: 0 <= i < |s| ==> IsAlnum(s[i]) || s[i] == '_'
    requires NoDoubleUnderscore(s)
    ensures forall i :: 0 <= i < hi - lo ==> IsAlnum(s[lo..hi][i]) || s[lo..hi][i] == '_'
    ensures NoDoubleUnderscore(s[lo..hi])
  {
    var t := s[lo..hi];
    assert forall i :: 0 <= i < |t| ==> t[i] == s[lo + i];
  }

  /** `strip('_')`, which removes every leading and trailing `_`. */
  function StripUnderscores(s: string): string {
    TrimEnd(TrimStart(s, IsUnderscore), IsUnderscore)
  }

  lemma StripUnderscoresFacts(s: string) returns (k: nat)
    ensures var r := StripUnderscores(s);
      && (r == [] || (r[0] != '_' && r[|r| - 1] != '_'))
      && k + |r| <= |s| && r == s[k..k + |r|]
      && AlnumOf(r) == AlnumOf(s)
  {
    var a := TrimStart(s, IsUnderscore);
    var r := TrimEnd(a, IsUnderscore);
    TrimStartFacts(s, IsUnderscore);
    TrimEndFacts(a, IsUnderscore);
    k := |s| - |a|;
    assert s == s[..k] + a;
    assert a == r + a[|r|..];
    AlnumOfNone(s[..k]);
    AlnumOfNone(a[|r|..]);
    AlnumOfAppend(s[..k], a);
    AlnumOfAppend(r, a[|r|..]);
  }

  /**
   * `normalize` (query.py): collapse non-alphanumeric runs to `_`, strip
   * `_` from both ends, then UPPER-case (the function's doc comment says
   * lower-case; the code upper-cases).
   */
  function Normalize(s: string): string {
    Upper(StripUnderscores(CollapseRuns(s)))
  }

  /**
   * Every normalised name is canonical (only `[0-9A-Z_]`, no `_` at either
   * end, no `__`) and keeps every alphanumeric character of the input, in
   * order, upper-cased.
   */
  lemma {:induction false} NormalizeCanonical(s: string)
    ensures Canonical(Normalize(s))
    ensures AlnumOf(Normalize(s)) == Upper(AlnumOf(s))
  {
    var c := CollapseRuns(s);
    CollapseRunsShape(s);
    var m := StripUnderscores(c);
    var k := StripUnderscoresFacts(c);
    SliceKeepsShape(c, k, k + |m|);
    UpperKeepsShape(m);
    AlnumOfUpper(m);
  }

  lemma {:induction false} UpperKeepsShape(m: string)
    requires forall i :: 0 <= i < |m| ==> IsAlnum(m[i]) || m[i] == '_'
    requires NoDoubleUnderscore(m)
    requires m == [] || (m[0] != '_' && m[|m| - 1] != '_')
    ensures Canonical(Upper(m))
  {
    var u := Upper(m);
    assert forall i :: 0 <= i < |m| ==> (u[i] == '_' <==> m[i] == '_');
    assert forall i :: 0 <= i < |m| ==> IsNameChar(u[i]);
  }

  lemma {:induction false} CollapseRunsFixed(s: string)
    requires forall i :: 0 <= i < |s| ==> IsAlnum(s[i]) || s[i] == '_'
    requires NoDoubleUnderscore(s)
    ensures CollapseRuns(s) == s
    decreases |s|
  {
    if s != [] {
      if IsAlnum(s[0]) {
        CollapseRunsFixed(s[1..]);
      } else {
        assert s[1..] == [] || IsAlnum(s[1]);
        assert DropRun(s[1..]) == s[1..];
        CollapseRunsFixed(s[1..]);
      }
    }
  }

  /** A canonical name is its own normal form. */
  lemma {:induction false} CanonicalIsFixed(s: string)
    requires Canonical(s)
    ensures Normalize(s) == s
  {
    CollapseRunsFixed(s);
    assert TrimStart(s, IsUnderscore) == s;
    assert TrimEnd(s, IsUnderscore) == s;
    assert Upper(s) == s;
  }

  /** `normalize` is idempotent. */
  lemma {:induction false} NormalizeIdempotent(s: string)
    ensures Normalize(Normalize(s)) == Normalize(s)
  {
    NormalizeCanonical(s);
    CanonicalIsFixed(Normalize(s));
  }

  /** The registry: normalised class name to class. */
  type Registry<T> = map<string, T>

  /** `get_class`: look a raw identifier up by its normalised form. */
  function GetClass<T>(reg: Registry<T>, raw: string): Option<T> {
    if Normalize(raw) in reg then Some(reg[Normalize(raw)]) else None
  }

  /**
   * `register`: file `cls` under the normalised form of `name`.  The class
   * is then found by its own name, and every identifier with a different
   * normal form resolves exactly as before.
   */
  function Register<T>(reg: Registry<T>, name: string, cls: T): (r: Registry<T>)
    ensures GetClass(r, name) == Some(cls)
    ensures r.Keys == reg.Keys + {Normalize(name)}
  {
    reg[Normalize(name) := cls]
  }

  /** A registered class is also found under its already-normalised name. */
  lemma {:induction false} LookupByNormalizedName<T>(reg: Registry<T>, name: string, cls: T)
    ensures GetClass(Register(reg, name, cls), Normalize(name)) == Some(cls)
  {
    NormalizeIdempotent(name);
  }

  /** The decorators applied in declaration order. */
  function RegisterAll<T>(reg: Registry<T>, entries: seq<(string, T)>): Registry<T>
    decreases |entries|
  {
    if entries == [] then reg
    else RegisterAll(Register(reg, entries[0].0, entries[0].1), entries[1..])
  }

  /**
   * When the registered names have pairwise different normal forms,
   * `get_class(cls.__name__)` returns `cls` for every registered class.
   */
  lemma {:induction false} RegisteredClassesFound<T>(reg: Registry<T>, entries: seq<(string, T)>, i: nat)
    requires i < |entries|
    requires forall a, b :: 0 <= a < b < |entries| ==> Normalize(entries[a].0) != Normalize(entries[b].0)
    ensures GetClass(RegisterAll(reg, entries), entries[i].0) == Some(entries[i].1)
    decreases |entries|
  {
    var next := Register(reg, entries[0].0, entries[0].1);
    if i == 0 {
      LaterEntriesKeep(next, entries[1..], entries[0].0);
    } else {
      RegisteredClassesFound(next, entries[1..], i - 1);
    }
  }

  lemma {:induction false} LaterEntriesKeep<T>(reg: Registry<T>, entries: seq<(string, T)>, name: string)
    requires forall a :: 0 <= a < |entries| ==> Normalize(entries[a].0) != Normalize(name)
    ensures GetClass(RegisterAll(reg, entries), name) == GetClass(reg, name)
    decreases |entries|
  {
    if entries != [] {
      LaterEntriesKeep(Register(reg, entries[0].0, entries[0].1), entries[1..], name);
    }
  }
}
