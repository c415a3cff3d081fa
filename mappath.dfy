/**
 * The dotted-path compiler (src/mappath.rs): a path such as `a.b.c` is split
 * on `.`, every segment becomes a `Token`, negative indices are discarded, and
 * the remaining tokens are tagged as `PathElement`s.
 */
module MapPath {
  import opened Wrappers

  const MinI64: int := -0x8000_0000_0000_0000
  const MaxI64: int := 0x7FFF_FFFF_FFFF_FFFF

  /** Rust's `i64`. */
  newtype I64 = x: int | MinI64 <= x <= MaxI64

  datatype PathElementType = ArrayIndex | HashMapKey

  datatype Token = Key(name: string) | Index(index: I64)

  datatype PathElement = PathElement(peName: Token, peType: PathElementType)

  /** `ParserError`: only its optional cause is kept; its formatting is not modelled. */
  datatype ParserError = ParserError(cause: Option<ParserError>)

  // ---------------------------------------------------------------------
  // Integer parsing (`i64::from_str`)
  // ---------------------------------------------------------------------

  predicate IsDigit(c: char) {
    '0' <= c <= '9'
  }

  predicate AllDigits(s: string) {
    forall k :: 0 <= k < |s| ==> IsDigit(s[k])
  }

  /** The value of a string of decimal digits, most significant first. */
  function DigitsValue(s: string): nat
    requires AllDigits(s)
  {
    if s == [] then 0
    else
      assert IsDigit(s[|s| - 1]);
      DigitsValue(s[..|s| - 1]) * 10 + (s[|s| - 1] as int - '0' as int)
  }

  /**
   * `i64::from_str`: an optional `+` or `-`, then at least one decimal digit,
   * and the value must fit in 64 bits; anything else is an error.
   */
  function ParseI64(s: string): (r: Option<I64>)
    ensures r.Some? ==> |s| > 0 && (IsDigit(s[0]) || s[0] == '+' || s[0] == '-')
    ensures r.Some? && s[0] == '-' ==> r.value <= 0
    ensures r.Some? && s[0] != '-' ==> r.value >= 0
  {
    if |s| == 0 then None
    else
      var negative := s[0] == '-';
      var digits := if s[0] == '-' || s[0] == '+' then s[1..] else s;
      if |digits| == 0 || !AllDigits(digits) then None
      else
        var v: int := if negative then 0 - DigitsValue(digits) as int else DigitsValue(digits);
        if MinI64 <= v <= MaxI64 then Some(v as I64) else None
  }

  // ---------------------------------------------------------------------
  // Tokens and path elements
  // ---------------------------------------------------------------------

  /** A segment that starts with `[` and ends with `]`. */
  predicate Bracketed(s: string) {
    |s| > 0 && s[0] == '[' && s[|s| - 1] == ']'
  }

  /**
   * `Token::from(String)`. A bracketed segment is handed to the integer
   * parser with its brackets still on, so the parse always fails and the
   * token is always `Index(-1)`; any other segment is a `Key` of itself.
   */
  function TokenFrom(s: string): (t: Token)
    ensures Bracketed(s) ==> t == Index(-1)
    ensures !Bracketed(s) ==> t == Key(s)
  {
    if |s| > 0 && s[0] == '[' && s[|s| - 1] == ']' then
      match ParseI64(s)
      case None => Index(-1)
      case Some(u) => Index(u)
    else
      Key(s)
  }

  /** The tag a path element must carry for its token. */
  predicate WellTagged(e: PathElement) {
    e.peType == (if e.peName.Key? then HashMapKey else ArrayIndex)
  }

  /** `Into<PathElement> for Token`: keeps the token and tags it by its kind. */
  function IntoPathElement(t: Token): (e: PathElement)
    ensures e.peName == t && WellTagged(e)
  {
    match t
    case Key(_) => PathElement(t, HashMapKey)
    case Index(_) => PathElement(t, ArrayIndex)
  }

  // ---------------------------------------------------------------------
  // Splitting on `.` and its inverse
  // ---------------------------------------------------------------------

  /** The number of `.` characters in `s`. */
  function Dots(s: string): nat {
    if s == [] then 0 else (if s[0] == '.' then 1 else 0) + Dots(s[1..])
  }

  /** `str::split(".")`: the maximal `.`-free runs of `s`, empty ones included. */
  function Split(s: string): (parts: seq<string>)
    ensures |parts| == Dots(s) + 1
    ensures forall k :: 0 <= k < |parts| ==> '.' !in parts[k]
  {
    if s == [] then [[]]
    else
      var rest := Split(s[1..]);
      assert s == [s[0]] + s[1..];
      if s[0] == '.' then [[]] + rest
      else [[s[0]] + rest[0]] + rest[1..]
  }

  /** Joins a non-empty list of segments with `.` between them. */
  function Join(parts: seq<string>): string
    requires |parts| > 0
  {
    if |parts| == 1 then parts[0] else parts[0] + "." + Join(parts[1..])
  }

  lemma {:induction false} JoinSplit(s: string)
    ensures Join(Split(s)) == s
  {
    if s != [] {
      JoinSplit(s[1..]);
      var rest := Split(s[1..]);
      if s[0] != '.' && |rest| > 1 {
        assert Join(rest) == rest[0] + "." + Join(rest[1..]);
        assert ([s[0]] + rest[0])[1..] == rest[0];
        assert ([[s[0]] + rest[0]] + rest[1..])[1..] == rest[1..];
      }
    }
  }

  /** Splitting a text that starts with `c`, in terms of splitting the rest. */
  lemma SplitCons(c: char, t: string)
    ensures Split([c] + t) == if c == '.' then [[]] + Split(t) else [[c] + Split(t)[0]] + Split(t)[1..]
  {
    assert ([c] + t)[1..] == t;
  }

  /** Splitting `p + t`, where `p` has no `.`, glues `p` onto the first part of `t`. */
  lemma {:induction false} SplitPrefix(p: string, t: string)
    requires '.' !in p
    ensures Split(p + t) == [p + Split(t)[0]] + Split(t)[1..]
  {
    var ts := Split(t);
    if p == [] {
      assert p + t == t && p + ts[0] == ts[0];
      assert ts == [ts[0]] + ts[1..];
    } else {
      var c, q := p[0], p[1..];
      assert c != '.' && '.' !in q;
      var u := q + t;
      SplitPrefix(q, t);
      SplitCons(c, u);
      var us := Split(u);
      assert us[0] == q + ts[0] && us[1..] == ts[1..];
      assert [c] + u == p + t;
      assert [c] + us[0] == p + ts[0];
    }
  }

  lemma {:induction false} SplitJoin(parts: seq<string>)
    requires |parts| > 0
    requires forall k :: 0 <= k < |parts| ==> '.' !in parts[k]
    ensures Split(Join(parts)) == parts
  {
    if |parts| == 1 {
      SplitPrefix(parts[0], []);
      assert Split([]) == [[]];
      assert parts[0] + [] == parts[0];
    } else {
      var t := Join(parts[1..]);
      SplitJoin(parts[1..]);
      SplitPrefix(parts[0], "." + t);
      assert ("." + t)[1..] == t;
      assert parts[0] + "." + t == parts[0] + ("." + t);
      assert parts[0] + [] == parts[0];
    }
  }

  // ---------------------------------------------------------------------
  // tokenize and compile
  // ---------------------------------------------------------------------

  /**
   * The closure applied to each segment in `tokenize`: a negative index is
   * an error, every other token is kept.
   */
  function CheckSegment(sub: string): (r: Result<Token, ParserError>)
    ensures r.Ok? <==> !Bracketed(sub)
    ensures r.Ok? ==> r.value == Key(sub)
  {
    var t := TokenFrom(sub);
    match t
    case Index(i) => if i < 0 then Err(ParserError(None)) else Ok(Index(i))
    case Key(_) => Ok(t)
  }

  /** `filter_map(Result::ok)`: the `Ok` values, in order. */
  function FilterOk<T, E>(rs: seq<Result<T, E>>): (r: seq<T>)
    ensures |r| <= |rs|
    ensures |r| == |rs| <==> forall k :: 0 <= k < |rs| ==> rs[k].Ok?
  {
    if rs == [] then []
    else if rs[0].Ok? then [rs[0].value] + FilterOk(rs[1..])
    else FilterOk(rs[1..])
  }

  /** The `Ok` values of a concatenation are those of each part, in turn. */
  lemma {:induction false} FilterOkAppend<T, E>(a: seq<Result<T, E>>, b: seq<Result<T, E>>)
    ensures FilterOk(a + b) == FilterOk(a) + FilterOk(b)
  {
    if a == [] {
      assert a + b == b;
    } else {
      assert (a + b)[1..] == a[1..] + b;
      FilterOkAppend(a[1..], b);
    }
  }

  /** Every `Ok` value is kept, and everything kept is an `Ok` value. */
  lemma {:induction false} FilterOkValues<T, E>(rs: seq<Result<T, E>>)
    ensures forall k :: 0 <= k < |rs| && rs[k].Ok? ==> rs[k].value in FilterOk(rs)
    ensures forall j :: 0 <= j < |FilterOk(rs)| ==>
              exists k :: 0 <= k < |rs| && rs[k].Ok? && rs[k].value == FilterOk(rs)[j]
  {
    if rs != [] {
      var tail := rs[1..];
      FilterOkValues(tail);
      var r, tr := FilterOk(rs), FilterOk(tail);
      forall k | 0 <= k < |rs| && rs[k].Ok?
        ensures rs[k].value in r
      {
        if k > 0 {
          assert rs[k] == tail[k - 1];
        }
      }
      forall j | 0 <= j < |r|
        ensures exists k :: 0 <= k < |rs| && rs[k].Ok? && rs[k].value == r[j]
      {
        if rs[0].Ok? && j == 0 {
          assert rs[0].Ok? && rs[0].value == r[j];
        } else {
          var jt := if rs[0].Ok? then j - 1 else j;
          assert r[j] == tr[jt];
          var kt :| 0 <= kt < |tail| && tail[kt].Ok? && tail[kt].value == tr[jt];
          assert rs[kt + 1] == tail[kt];
          assert rs[kt + 1].Ok? && rs[kt + 1].value == r[j];
        }
      }
    } else {
      assert FilterOk(rs) == [];
    }
  }

  /** `tokenize`: split, classify each segment, keep the `Ok` tokens. */
  function Tokenize(source: string): Result<seq<Token>, ParserError> {
    var segments := Split(source);
    Ok(FilterOk(seq(|segments|, k requires 0 <= k < |segments| => CheckSegment(segments[k]))))
  }

  /** `compile`: tokenize, then turn every token into a path element. */
  function Compile(source: string): Result<seq<PathElement>, ParserError> {
    match Tokenize(source)
    case Ok(ts) => Ok(seq(|ts|, k requires 0 <= k < |ts| => IntoPathElement(ts[k])))
    case Err(e) => Err(ParserError(Some(e)))
  }

  // ---------------------------------------------------------------------
  // What compile computes
  // ---------------------------------------------------------------------

  /** The segments that are not bracketed, in order. */
  function NonBracketed(segments: seq<string>): (r: seq<string>)
    ensures |r| <= |segments|
    ensures |r| == |segments| <==> forall k :: 0 <= k < |segments| ==> !Bracketed(segments[k])
    ensures |r| == |segments| ==> r == segments
  {
    if segments == [] then []
    else if Bracketed(segments[0]) then NonBracketed(segments[1..])
    else [segments[0]] + NonBracketed(segments[1..])
  }

  lemma {:induction false} FilterChecked(segments: seq<string>)
    ensures var ts := FilterOk(seq(|segments|, k requires 0 <= k < |segments| => CheckSegment(segments[k])));
            var ks := NonBracketed(segments);
            |ts| == |ks| && forall k :: 0 <= k < |ts| ==> ts[k] == Key(ks[k])
  {
    if segments != [] {
      var checks := seq(|segments|, k requires 0 <= k < |segments| => CheckSegment(segments[k]));
      var tail := segments[1..];
      var tailChecks := seq(|tail|, k requires 0 <= k < |tail| => CheckSegment(tail[k]));
      assert checks[1..] == tailChecks;
      FilterChecked(tail);
      var ts, tailTs := FilterOk(checks), FilterOk(tailChecks);
      var ks, tailKs := NonBracketed(segments), NonBracketed(tail);
      if Bracketed(segments[0]) {
        assert ts == tailTs && ks == tailKs;
      } else {
        assert ts == [Key(segments[0])] + tailTs;
        assert ks == [segments[0]] + tailKs;
        forall k | 0 <= k < |ts|
          ensures ts[k] == Key(ks[k])
        {
          if k > 0 {
            assert ts[k] == tailTs[k - 1] && ks[k] == tailKs[k - 1];
          }
        }
      }
    }
  }

  /** `tokenize` never fails: its tokens are the non-bracketed segments as keys. */
  lemma TokenizeKeys(source: string)
    ensures Tokenize(source).Ok?
    ensures var ts := Tokenize(source).value;
            var ks := NonBracketed(Split(source));
            |ts| == |ks| && forall k :: 0 <= k < |ts| ==> ts[k] == Key(ks[k])
  {
    FilterChecked(Split(source));
  }

  /**
   * `compile` always succeeds, and its elements are exactly the
   * non-bracketed `.`-separated segments, in order, each a `HashMapKey`.
   */
  lemma CompileKeys(source: string)
    ensures Compile(source).Ok?
    ensures var es := Compile(source).value;
            var ks := NonBracketed(Split(source));
            |es| == |ks| && forall k :: 0 <= k < |es| ==> es[k] == PathElement(Key(ks[k]), HashMapKey)
  {
    TokenizeKeys(source);
  }

  /** Every element `compile` returns is tagged `HashMapKey`. */
  lemma CompileOnlyKeys(source: string)
    ensures Compile(source).Ok?
    ensures forall e :: e in Compile(source).value ==> e.peType == HashMapKey && e.peName.Key?
  {
    CompileKeys(source);
  }

  /**
   * There are at most as many elements as segments (one more than the dots),
   * and exactly as many when no segment is bracketed.
   */
  lemma CompileLength(source: string)
    ensures Compile(source).Ok?
    ensures |Compile(source).value| <= Dots(source) + 1
    ensures |Compile(source).value| == Dots(source) + 1 <==>
            forall p :: p in Split(source) ==> !Bracketed(p)
  {
    CompileKeys(source);
  }

  /** The key names of a list of `Key` elements. */
  function KeyNames(es: seq<PathElement>): (names: seq<string>)
    requires forall k :: 0 <= k < |es| ==> es[k].peName.Key?
    ensures |names| == |es|
  {
    seq(|es|, k requires 0 <= k < |es| => es[k].peName.name)
  }

  /** With no bracketed segment, joining the compiled keys with `.` gives back the source. */
  lemma CompileRoundTrip(source: string)
    requires forall p :: p in Split(source) ==> !Bracketed(p)
    ensures Compile(source).Ok?
    ensures forall k :: 0 <= k < |Compile(source).value| ==> Compile(source).value[k].peName.Key?
    ensures Join(KeyNames(Compile(source).value)) == source
  {
    CompileKeys(source);
    var es := Compile(source).value;
    assert KeyNames(es) == Split(source);
    JoinSplit(source);
  }

  // ---------------------------------------------------------------------
  // The cases of the unit tests
  // ---------------------------------------------------------------------

  lemma CompileEmpty()
    ensures Compile("") == Ok([PathElement(Key(""), HashMapKey)])
  {
    assert Split("") == [""];
    assert !Bracketed("");
    assert NonBracketed([""]) == [""];
    CompileKeys("");
    var es := Compile("").value;
    assert |es| == 1;
    assert es[0] == PathElement(Key(""), HashMapKey);
    assert es == [PathElement(Key(""), HashMapKey)];
  }

  lemma CompileSingle()
    ensures Compile("a") == Ok([PathElement(Key("a"), HashMapKey)])
  {
    SplitJoin(["a"]);
    assert !Bracketed("a");
    assert NonBracketed(["a"]) == ["a"];
    CompileKeys("a");
    var es := Compile("a").value;
    assert |es| == 1 && es[0] == PathElement(Key("a"), HashMapKey);
    assert es == [PathElement(Key("a"), HashMapKey)];
  }

  lemma CompileNested()
    ensures Compile("a.b") == Ok([PathElement(Key("a"), HashMapKey), PathElement(Key("b"), HashMapKey)])
  {
    var segments := ["a", "b"];
    assert Join(segments[1..]) == "b";
    assert Join(segments) == "a.b";
    SplitJoin(segments);
    assert !Bracketed("a") && !Bracketed("b");
    assert NonBracketed(segments) == segments;
    CompileKeys("a.b");
    var es := Compile("a.b").value;
    assert |es| == 2;
    assert es[0] == PathElement(Key("a"), HashMapKey);
    assert es[1] == PathElement(Key("b"), HashMapKey);
    assert es == [PathElement(Key("a"), HashMapKey), PathElement(Key("b"), HashMapKey)];
  }

  lemma SplitIndexPath()
    ensures Split("a.[0].b") == ["a", "[0]", "b"]
  {
    var segments := ["a", "[0]", "b"];
    assert Join(segments[2..]) == "b";
    assert Join(segments[1..]) == "[0].b";
    assert Join(segments) == "a.[0].b";
    SplitJoin(segments);
  }

  lemma NonBracketedIndexPath()
    ensures NonBracketed(["a", "[0]", "b"]) == ["a", "b"]
  {
    var segments := ["a", "[0]", "b"];
    assert !Bracketed("a") && Bracketed("[0]") && !Bracketed("b");
    assert NonBracketed(segments[2..]) == ["b"];
    assert NonBracketed(segments[1..]) == ["b"];
  }

  /** A bracketed segment is dropped: `a.[0].b` compiles to the keys `a` and `b`. */
  lemma CompileDropsIndex()
    ensures Compile("a.[0].b") == Ok([PathElement(Key("a"), HashMapKey), PathElement(Key("b"), HashMapKey)])
  {
    SplitIndexPath();
    NonBracketedIndexPath();
    CompileKeys("a.[0].b");
    var es := Compile("a.[0].b").value;
    assert |es| == 2;
    assert es[0] == PathElement(Key("a"), HashMapKey);
    assert es[1] == PathElement(Key("b"), HashMapKey);
    assert es == [PathElement(Key("a"), HashMapKey), PathElement(Key("b"), HashMapKey)];
  }
}
