/**
 * The key/value splitter (src/kv.rs). `into_kv_tpl` matches its input against
 * one anchored regular expression,
 *
 *   KEY `=` ( `"` DOUBLE_QVAL `"` | `'` SINGLE_QVAL `'` | VAL )
 *
 * where KEY, DOUBLE_QVAL and SINGLE_QVAL are `.*`, and VAL is one character
 * other than a quote, then `.*`, then one character other than a quote. The
 * model states the language of that expression and the capture the regex
 * engine picks; it does not model a regex engine.
 */
module Kv {
  import opened Wrappers

  /** What `.*` matches: any text without a line feed. */
  predicate Dotted(s: string) {
    '\n' !in s
  }

  predicate IsQuote(c: char) {
    c == '\'' || c == '"'
  }

  /** The middle of a text of at least two characters. */
  function Inner(rest: string): string
    requires |rest| >= 2
  {
    rest[1..|rest| - 1]
  }

  // ---------------------------------------------------------------------
  // The three alternatives after `=`, each giving its capture group
  // ---------------------------------------------------------------------

  /**
   * A quoted alternative, `"(?P<DOUBLE_QVAL>.*)"` when `quote` is `"` and
   * `'(?P<SINGLE_QVAL>.*)'` when it is `'`: the text between the quotes.
   */
  function Quoted(rest: string, quote: char): Option<string> {
    if |rest| >= 2 && rest[0] == quote && rest[|rest| - 1] == quote && Dotted(Inner(rest))
    then Some(Inner(rest)) else None
  }

  /** A quoted group captures a line-feed-free text that the quotes enclose. */
  lemma QuotedShape(rest: string, quote: char)
    requires Quoted(rest, quote).Some?
    ensures rest == [quote] + Quoted(rest, quote).value + [quote]
    ensures Dotted(Quoted(rest, quote).value)
  {
    assert rest == [rest[0]] + Inner(rest) + [rest[|rest| - 1]];
  }

  /** Conversely, a line-feed-free text between two quotes is captured whole. */
  lemma QuotedOf(value: string, quote: char)
    requires Dotted(value)
    ensures Quoted([quote] + value + [quote], quote) == Some(value)
  {
    var rest := [quote] + value + [quote];
    assert Inner(rest) == value;
  }

  /** An unquoted value: at least two characters, neither end a quote. */
  predicate BareValue(v: string) {
    |v| >= 2 && !IsQuote(v[0]) && !IsQuote(v[|v| - 1]) && Dotted(Inner(v))
  }

  /** `(?P<VAL>[^'"].*[^'"])`: the whole remaining text. */
  function Unquoted(rest: string): (v: Option<string>)
    ensures v.Some? <==> BareValue(rest)
    ensures v.Some? ==> v.value == rest
  {
    if BareValue(rest) then Some(rest) else None
  }

  /** The text after `=` matches one of the three alternatives. */
  predicate IsValue(rest: string) {
    Quoted(rest, '"').Some? || Quoted(rest, '\'').Some? || Unquoted(rest).Some?
  }

  /** The whole input matches with KEY ending just before position `i`. */
  predicate SplitsAt(s: string, i: int) {
    0 <= i < |s| && s[i] == '=' && Dotted(s[..i]) && IsValue(s[i + 1..])
  }

  // ---------------------------------------------------------------------
  // The regex match
  // ---------------------------------------------------------------------

  /** The named groups of a successful match; KEY always takes part. */
  datatype Captures = Captures(
    key: string,
    doubleQval: Option<string>,
    singleQval: Option<string>,
    val: Option<string>)

  predicate ExactlyOne(a: bool, b: bool, c: bool) {
    (a || b || c) && !(a && b) && !(a && c) && !(b && c)
  }

  /**
   * The position of the last `=` below `j` at which the input matches.
   * KEY is greedy, so the regex engine tries the longest key first.
   */
  function LastSplit(s: string, j: nat): (r: Option<nat>)
    requires j <= |s|
    ensures r.Some? ==> r.value < j && SplitsAt(s, r.value)
    ensures r.Some? ==> forall k :: r.value < k < j ==> !SplitsAt(s, k)
    ensures r.None? ==> forall k :: 0 <= k < j ==> !SplitsAt(s, k)
  {
    if j == 0 then None
    else if SplitsAt(s, j - 1) then Some(j - 1)
    else LastSplit(s, j - 1)
  }

  /**
   * `Regex::captures` on the anchored expression: the match with the longest
   * key, and the groups of the one alternative that matches the rest.
   */
  function Match(s: string): (m: Option<Captures>)
    ensures m.Some? <==> LastSplit(s, |s|).Some?
    ensures m.Some? ==> |m.value.key| == LastSplit(s, |s|).value
    ensures m.Some? ==> m.value.key == s[..|m.value.key|]
    ensures m.Some? ==> ExactlyOne(m.value.doubleQval.Some?, m.value.singleQval.Some?, m.value.val.Some?)
  {
    match LastSplit(s, |s|)
    case None => None
    case Some(i) =>
      var rest := s[i + 1..];
      Some(Captures(s[..i], Quoted(rest, '"'), Quoted(rest, '\''), Unquoted(rest)))
  }

  /** Each group that takes part captures the text after `=`, less its quotes. */
  lemma MatchGroups(s: string)
    requires Match(s).Some?
    ensures var cap := Match(s).value;
            var rest := s[|cap.key| + 1..];
            (cap.doubleQval.Some? ==> rest == "\"" + cap.doubleQval.value + "\"") &&
            (cap.singleQval.Some? ==> rest == "'" + cap.singleQval.value + "'") &&
            (cap.val.Some? ==> rest == cap.val.value)
  {
    var cap := Match(s).value;
    var rest := s[|cap.key| + 1..];
    assert cap.doubleQval == Quoted(rest, '"') && cap.singleQval == Quoted(rest, '\'');
    if cap.doubleQval.Some? {
      QuotedShape(rest, '"');
    }
    if cap.singleQval.Some? {
      QuotedShape(rest, '\'');
    }
  }

  /** The `or` chain of `into_kv_tpl`: SINGLE_QVAL, else DOUBLE_QVAL, else VAL. */
  function Preferred(single: Option<string>, double: Option<string>, val: Option<string>): Option<string> {
    single.Or(double).Or(val)
  }

  /**
   * `into_kv_tpl`: the key and whichever of SINGLE_QVAL, DOUBLE_QVAL and VAL
   * took part in the match, in that order of preference.
   */
  function IntoKvTpl(s: string): Option<(string, string)> {
    match Match(s)
    case None => None
    case Some(cap) =>
      match Preferred(cap.singleQval, cap.doubleQval, cap.val)
      case None => None
      case Some(value) => Some((cap.key, value))
  }

  // ---------------------------------------------------------------------
  // The language, stated independently: how a key and a value are written
  // ---------------------------------------------------------------------

  datatype Quoting = Double | Single | Bare

  /** The text `key=value` with the value written in the given quoting. */
  function Render(key: string, value: string, q: Quoting): string {
    match q
    case Double => key + "=\"" + value + "\""
    case Single => key + "='" + value + "'"
    case Bare => key + "=" + value
  }

  /** The key and value the regex can capture for this quoting. */
  predicate Writable(key: string, value: string, q: Quoting) {
    Dotted(key) &&
    match q
    case Double => Dotted(value)
    case Single => Dotted(value)
    case Bare => BareValue(value)
  }

  /** The value after `=` in `Render(key, value, q)`. */
  lemma {:induction false} RenderSplit(key: string, value: string, q: Quoting)
    ensures var s := Render(key, value, q);
            |s| > |key| && s[..|key|] == key && s[|key|] == '=' &&
            s[|key| + 1..] == match q
                              case Double => "\"" + value + "\""
                              case Single => "'" + value + "'"
                              case Bare => value
  {
    var s := Render(key, value, q);
    match q
    case Double =>
      assert s == key + ("=" + ("\"" + value + "\""));
    case Single =>
      assert s == key + ("=" + ("'" + value + "'"));
    case Bare =>
      assert s == key + ("=" + value);
  }

  /** The one alternative that matches a rendered value captures that value. */
  lemma {:induction false} RenderedValue(key: string, value: string, q: Quoting)
    requires Writable(key, value, q)
    ensures var s := Render(key, value, q);
            SplitsAt(s, |key|) &&
            s[|key| + 1..] == match q
                              case Double => "\"" + value + "\""
                              case Single => "'" + value + "'"
                              case Bare => value
  {
    RenderSplit(key, value, q);
    var s := Render(key, value, q);
    var rest := s[|key| + 1..];
    match q
    case Double =>
      assert Inner(rest) == value;
    case Single =>
      assert Inner(rest) == value;
    case Bare =>
  }

  // ---------------------------------------------------------------------
  // Properties of into_kv_tpl
  // ---------------------------------------------------------------------

  /** The value the or-chain picks for the text after `=`. */
  function PickedValue(rest: string): Option<string> {
    Preferred(Quoted(rest, '\''), Quoted(rest, '"'), Unquoted(rest))
  }

  /** `into_kv_tpl` succeeds exactly when some `=` splits the input into a key and a value. */
  lemma KvAccepts(s: string)
    ensures IntoKvTpl(s).Some? <==> exists i :: SplitsAt(s, i)
  {
    if Match(s).Some? {
      var cap := Match(s).value;
      var i := |cap.key|;
      assert cap.singleQval == Quoted(s[i + 1..], '\'');
      assert cap.doubleQval == Quoted(s[i + 1..], '"');
      assert cap.val == Unquoted(s[i + 1..]);
    }
  }

  /** The key ends at a matching `=`, and the value is the one the or-chain picks after it. */
  lemma KvResult(s: string)
    requires IntoKvTpl(s).Some?
    ensures var (key, value) := IntoKvTpl(s).value;
            SplitsAt(s, |key|) && key == s[..|key|] && Some(value) == PickedValue(s[|key| + 1..])
  {
    var cap := Match(s).value;
    var i := |cap.key|;
    assert cap.singleQval == Quoted(s[i + 1..], '\'');
    assert cap.doubleQval == Quoted(s[i + 1..], '"');
    assert cap.val == Unquoted(s[i + 1..]);
  }

  /** KEY is greedy: no `=` further right splits the input. */
  lemma KvGreedy(s: string)
    requires IntoKvTpl(s).Some?
    ensures forall k :: |IntoKvTpl(s).value.0| < k < |s| ==> !SplitsAt(s, k)
  {
  }

  /** The text around the `=` at position `i`. */
  lemma {:induction false} AroundEquals(s: string, i: int)
    requires 0 <= i < |s| && s[i] == '='
    ensures s == s[..i] + ("=" + s[i + 1..])
  {
    assert s == s[..i] + s[i..];
    assert s[i..] == [s[i]] + s[i + 1..];
  }

  /**
   * A result is a key and value that, written in one of the three quotings,
   * give back the input exactly.
   */
  lemma KvSound(s: string)
    requires IntoKvTpl(s).Some?
    ensures var (key, value) := IntoKvTpl(s).value;
            exists q :: Writable(key, value, q) && Render(key, value, q) == s
  {
    KvResult(s);
    var (key, value) := IntoKvTpl(s).value;
    var i := |key|;
    var rest := s[i + 1..];
    AroundEquals(s, i);
    SoundShape(s, key, value, rest);
  }

  lemma SoundShape(s: string, key: string, value: string, rest: string)
    requires s == key + ("=" + rest) && Dotted(key)
    requires Some(value) == PickedValue(rest)
    ensures exists q :: Writable(key, value, q) && Render(key, value, q) == s
  {
    if Quoted(rest, '\'').Some? {
      QuotedShape(rest, '\'');
      assert Render(key, value, Single) == key + ("=" + ("'" + value + "'"));
      assert Writable(key, value, Single);
    } else if Quoted(rest, '"').Some? {
      QuotedShape(rest, '"');
      assert Render(key, value, Double) == key + ("=" + ("\"" + value + "\""));
      assert Writable(key, value, Double);
    } else {
      assert Writable(key, value, Bare);
    }
  }

  /** `into_kv_tpl` accepts every text that some key and value render to. */
  lemma KvComplete(key: string, value: string, q: Quoting)
    requires Writable(key, value, q)
    ensures IntoKvTpl(Render(key, value, q)).Some?
    ensures |IntoKvTpl(Render(key, value, q)).value.0| >= |key|
  {
    RenderedValue(key, value, q);
    KvResult(Render(key, value, q));
  }

  /** The or-chain picks back the rendered value. */
  lemma PickedRendered(key: string, value: string, q: Quoting)
    requires Writable(key, value, q)
    ensures |Render(key, value, q)| > |key|
    ensures PickedValue(Render(key, value, q)[|key| + 1..]) == Some(value)
  {
    RenderedValue(key, value, q);
    var rest := Render(key, value, q)[|key| + 1..];
    match q {
      case Double =>
        assert Inner(rest) == value;
        assert Quoted(rest, '\'').None? && Quoted(rest, '"') == Some(value);
      case Single =>
        assert Inner(rest) == value;
        assert Quoted(rest, '\'') == Some(value);
      case Bare =>
        assert Quoted(rest, '\'').None? && Quoted(rest, '"').None?;
    }
  }

  /** A value without `=` puts no `=` after the key's own. */
  lemma NoLaterEquals(key: string, value: string, q: Quoting)
    requires '=' !in value
    ensures var s := Render(key, value, q);
            forall k :: |key| < k < |s| ==> s[k] != '='
  {
    RenderSplit(key, value, q);
    var s := Render(key, value, q);
    var rest := s[|key| + 1..];
    assert '=' !in rest;
    forall k | |key| < k < |s|
      ensures s[k] != '='
    {
      assert s[k] == rest[k - |key| - 1];
    }
  }

  /** When the value holds no `=`, the key and value come back unchanged. */
  lemma KvRoundTrip(key: string, value: string, q: Quoting)
    requires Writable(key, value, q)
    requires '=' !in value
    ensures IntoKvTpl(Render(key, value, q)) == Some((key, value))
  {
    var s := Render(key, value, q);
    RenderedValue(key, value, q);
    PickedRendered(key, value, q);
    NoLaterEquals(key, value, q);
    KvResult(s);
    KvGreedy(s);
    var r := IntoKvTpl(s).value;
    assert |r.0| == |key|;
    assert r.0 == key && r.1 == value;
  }

  /** Where a line feed can stand in `key=rest`, given the value the or-chain picks. */
  lemma NewlineShape(s: string, key: string, rest: string, value: string, p: int)
    requires s == key + ("=" + rest) && Dotted(key)
    requires Some(value) == PickedValue(rest)
    requires 0 <= p < |s| && s[p] == '\n'
    ensures Unquoted(rest) == Some(value) && Render(key, value, Bare) == s
    ensures p == |key| + 1 || p == |s| - 1
  {
    var i := |key|;
    assert p > i by {
      assert s[..i] == key;
    }
    assert rest[p - i - 1] == '\n';
  }

  /**
   * A line feed can stand only as the first or the last character of an
   * unquoted value: `.` never matches one.
   */
  lemma KvNewline(s: string, p: int)
    requires 0 <= p < |s| && s[p] == '\n'
    requires IntoKvTpl(s).Some?
    ensures var (key, value) := IntoKvTpl(s).value;
            Render(key, value, Bare) == s && (p == |key| + 1 || p == |s| - 1)
  {
    KvResult(s);
    var (key, value) := IntoKvTpl(s).value;
    AroundEquals(s, |key|);
    NewlineShape(s, key, s[|key| + 1..], value, p);
  }

  // ---------------------------------------------------------------------
  // The cases of the unit tests
  // ---------------------------------------------------------------------

  lemma KvSingleQuoted()
    ensures IntoKvTpl("foo='bar'") == Some(("foo", "bar"))
  {
    assert Render("foo", "bar", Single) == "foo='bar'";
    KvRoundTrip("foo", "bar", Single);
  }

  lemma KvDoubleQuoted()
    ensures IntoKvTpl("foo=\"bar\"") == Some(("foo", "bar"))
  {
    assert Render("foo", "bar", Double) == "foo=\"bar\"";
    KvRoundTrip("foo", "bar", Double);
  }

  lemma KvNotQuoted()
    ensures IntoKvTpl("foo=bar") == Some(("foo", "bar"))
  {
    assert Render("foo", "bar", Bare) == "foo=bar";
    assert BareValue("bar") by { assert Inner("bar") == "a"; }
    KvRoundTrip("foo", "bar", Bare);
  }

  /** A text whose only `=` is at `i`, with no value after it, does not match. */
  lemma NoMatch(s: string, i: nat)
    requires i < |s| && s[i] == '='
    requires forall k :: 0 <= k < |s| && k != i ==> s[k] != '='
    requires !IsValue(s[i + 1..])
    ensures IntoKvTpl(s) == None
  {
  }

  lemma KvMismatchedQuotes()
    ensures IntoKvTpl("foo=\"bar'") == None
    ensures IntoKvTpl("foo='bar\"") == None
  {
    NoMatch("foo=\"bar'", 3);
    NoMatch("foo='bar\"", 3);
  }

  lemma KvShortValue()
    ensures IntoKvTpl("k=v") == None
  {
    NoMatch("k=v", 1);
  }

  /** Input without `=` never matches. */
  lemma KvNoEquals(s: string)
    requires '=' !in s
    ensures IntoKvTpl(s) == None
  {
    KvAccepts(s);
  }
}
