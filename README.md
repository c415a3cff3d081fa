# String and sequence utilities of playground.rs, in Dafny

This project models the three stateless helpers of the repository and proves what they compute.

- **Dotted-path compiler** (`src/mappath.rs`, module `MapPath`). `compile` splits a path such as `a.b.c` on `.`. Each segment becomes a `Token`: a `Key` holding the text, or an `Index`. Tokens with a negative index are dropped. The rest are tagged as `PathElement`s: `HashMapKey` for keys, `ArrayIndex` for indices. `Token::from` hands a bracketed segment (`[0]`) to `i64::from_str` with its brackets still on. That parse always fails, so the segment becomes `Index(-1)`, and `tokenize` then drops it. `MapPath.Tokenize` and `MapPath.Compile` model `tokenize` and `compile`; `MapPath.Split` and `MapPath.FilterOk` model the `split(".")` and `filter_map(Result::ok)` steps between them. The model keeps this behaviour and proves its consequences:
  - `compile` never fails;
  - it returns exactly the non-bracketed segments, in order, as `HashMapKey` elements.
- **Key/value splitter** (`src/kv.rs`, module `Kv`). `into_kv_tpl` matches its input against one anchored regular expression:
  - the input is `KEY=VALUE`;
  - the value is double-quoted, single-quoted, or unquoted with at least two characters and no quote at either end;
  - `.` matches anything except a line feed.

  The model does not include a regex engine. It describes the language of that expression and the match the engine returns. KEY is greedy, so the rightmost `=` that works wins (`LastSplit`). `Match` gives the named groups, and `IntoKvTpl` follows the source's `or` chain over them (`Preferred`, defined once). A separate description of the language (`Render` and `Writable`: how a key and a value are written in each quoting) is tied to the function in both directions.
- **Variant generator** (`src/variants.rs`, module `Variants`). `generate_variants` maps `f(&a, b)` over the modifiers. It is modelled as a higher-order function over `seq<B>` with a total `f: (A, B) -> C`.

`wrappers.dfy` holds the `Option` and `Result` types the three modules share.

## Model

| member | source | states |
|---|---|---|
| `MapPath.ParseI64` | src/mappath.rs:34 | `i64::from_str` succeeds only on text that starts with a digit or a sign. A result parsed after `-` is at most 0, and any other result is at least 0. |
| `MapPath.TokenFrom` | src/mappath.rs:28-44 | A segment that starts with `[` and ends with `]` always becomes `Index(-1)`. Any other segment becomes `Key` of the same text, unchanged. |
| `MapPath.IntoPathElement` | src/mappath.rs:46-65 | The element keeps the token. It is tagged `HashMapKey` for a `Key` and `ArrayIndex` for an `Index`. |
| `MapPath.Split` | src/mappath.rs:119 | Splitting on `.` gives one more part than there are dots, and no part contains a dot. |
| `MapPath.JoinSplit` | src/mappath.rs:118-121 | Joining the parts of a split with `.` gives back the original text. |
| `MapPath.SplitJoin` | src/mappath.rs:119 | Splitting the `.`-join of a non-empty list of dot-free parts gives back that list. |
| `MapPath.CheckSegment` | src/mappath.rs:120-132 | The per-segment closure returns `Ok` exactly when the segment is not bracketed, and then the value is `Key` of the segment. |
| `MapPath.FilterOk` | src/mappath.rs:133 | `filter_map(Result::ok)` keeps at most as many items as it is given. It keeps them all exactly when every item is `Ok`. |
| `MapPath.FilterOkValues` | src/mappath.rs:133 | Every `Ok` value is kept, and every kept item is the value of some `Ok` input. |
| `MapPath.FilterOkAppend` | src/mappath.rs:133 | Filtering a concatenation gives the kept items of the first part followed by those of the second, so input order is kept. |
| `MapPath.NonBracketed` | src/mappath.rs:118-134 | Keeping only the non-bracketed segments never adds segments. Nothing is lost exactly when no segment is bracketed, and then the list is unchanged. |
| `MapPath.TokenizeKeys` | src/mappath.rs:117-135 | `tokenize` never returns `Err`. Its tokens are the non-bracketed segments, in order, each as a `Key`. |
| `MapPath.CompileKeys` | src/mappath.rs:109-135 | `compile` always returns `Ok`. Its elements are the non-bracketed `.`-separated segments, in source order, each a `Key` tagged `HashMapKey`. |
| `MapPath.CompileOnlyKeys` | src/mappath.rs:109-115 | Every element `compile` returns is a `Key` tagged `HashMapKey`. |
| `MapPath.CompileLength` | src/mappath.rs:118-134 | `compile` returns at most (number of dots + 1) elements. It returns exactly that many if and only if no segment is bracketed. |
| `MapPath.CompileRoundTrip` | src/mappath.rs:118-121 | When no segment is bracketed, joining the compiled key names with `.` reproduces the source. |
| `MapPath.CompileEmpty` | src/mappath.rs:141-152 | `""` compiles to a single element: an empty `Key` tagged `HashMapKey`. |
| `MapPath.CompileSingle` | src/mappath.rs:155-166 | `"a"` compiles to `[Key a]`, tagged `HashMapKey`. |
| `MapPath.CompileNested` | src/mappath.rs:168-183 | `"a.b"` compiles to `[Key a, Key b]`, both tagged `HashMapKey`. |
| `MapPath.CompileDropsIndex` | src/mappath.rs:33-39 | The bracketed segment in `"a.[0].b"` is dropped, leaving `[Key a, Key b]`. |
| `Kv.QuotedShape` | src/kv.rs:6 | When a quoted alternative (`"…"` for DOUBLE_QVAL, `'…'` for SINGLE_QVAL) matches, the text is the quote, the captured value, and the quote again, and the value has no line feed. |
| `Kv.QuotedOf` | src/kv.rs:6 | Conversely, a line-feed-free text between two matching quotes is captured whole by that quote's alternative. |
| `Kv.Unquoted` | src/kv.rs:6 | The unquoted alternative matches exactly when the text after `=` has at least two characters, no quote at either end, and line feeds at most at its ends. The value is then that whole text. |
| `Kv.LastSplit` | src/kv.rs:6 | The position found is a `=` at which the input matches, and no position to its right matches (greedy KEY). If no position is found, no position matches. |
| `Kv.Match` | src/kv.rs:6-8 | A match exists exactly when the right-to-left search (`LastSplit`) finds a matching `=`, and the key is the input up to that `=`. Exactly one of the DOUBLE_QVAL, SINGLE_QVAL and VAL groups takes part. |
| `Kv.MatchGroups` | src/kv.rs:6 | The text after the key's `=` is `"g"` when DOUBLE_QVAL captures `g`, `'g'` when SINGLE_QVAL captures `g`, and `g` itself when VAL captures `g`. |
| `Kv.KvAccepts` | src/kv.rs:5-17 | `into_kv_tpl` returns `Some` exactly when some `=` splits the input into a line-feed-free key and a valid value. |
| `Kv.KvResult` | src/kv.rs:8-16 | On `Some((k, v))`, `k` is the text before a matching `=`, and `v` is the group the `or` chain picks from the text after it. |
| `Kv.KvGreedy` | src/kv.rs:6 | On `Some((k, v))`, no `=` to the right of `k` would also have matched: the longest key wins. |
| `Kv.KvSound` | src/kv.rs:5-17 | On `Some((k, v))`, the input is exactly `k=v`, `k="v"` or `k='v'` for a quoting whose conditions `k` and `v` meet. |
| `Kv.KvComplete` | src/kv.rs:5-17 | Every correctly written `k=v`, `k="v"` or `k='v'` is accepted, with a key at least as long as `k`. |
| `Kv.KvRoundTrip` | src/kv.rs:5-17 | When `v` holds no `=`, writing `k` and `v` in any valid quoting and splitting the result gives back `(k, v)`. |
| `Kv.KvNewline` | src/kv.rs:6 | On `Some((k, v))`, a line feed in the input can only be the first or the last character of an unquoted value. |
| `Kv.KvSingleQuoted` | src/kv.rs:23-27 | `foo='bar'` gives `("foo", "bar")`. |
| `Kv.KvDoubleQuoted` | src/kv.rs:29-33 | `foo="bar"` gives `("foo", "bar")`. |
| `Kv.KvMismatchedQuotes` | src/kv.rs:35-45 | `foo="bar'` and `foo='bar"` both give `None`. |
| `Kv.KvNotQuoted` | src/kv.rs:47-51 | `foo=bar` gives `("foo", "bar")`. |
| `Kv.KvShortValue` | src/kv.rs:6 | `k=v` gives `None`, because an unquoted value needs at least two characters. |
| `Kv.KvNoEquals` | src/kv.rs:6 | Input without `=` gives `None`. |
| `Variants.GenerateVariants` | src/variants.rs:1-7 | There is one variant per modifier. Variant `i` is `f(a, modders[i])`: the same base value goes to every call, and modifier order is kept. |
| `Variants.GenerateNone` | src/variants.rs:6 | No modifiers give no variants. |
| `Variants.GenerateAppend` | src/variants.rs:6 | The variants of `m1 + m2` are the variants of `m1` followed by those of `m2`. |

## Left out

- `src/flocking.rs` (`FSLock`) is not part of this model. It pairs `std::sync::RwLock` with operating-system advisory file locks through the foreign `fs2::FileExt` trait. Each of its methods only delegates to those libraries, and `Drop` discards the result of the unlock. None of this can be stated without modelling the thread library and the operating system.
- The `Display` and `Error` impls of `ParserError` (src/mappath.rs:73-107) are left out; they only format text. `ParserError` is kept as a value holding its optional cause. The closure in `tokenize` builds an error for every bracketed segment, but `filter_map(Result::ok)` discards it, so no error ever reaches `compile`'s result and the formatting impls are never used.
- `Regex::new(...).unwrap()` and the regex engine (src/kv.rs:7-8) are left out. The model states the language of the expression and the match the engine's leftmost-first semantics return: the longest key, then the one alternative that fits.
- `MapPath.ParseI64` models `i64::from_str` as an optional sign, at least one ASCII digit, and the 64-bit range. Its other error kinds are left out, since only success or failure matters here.
- Strings are `seq<char>`. UTF-8 byte offsets and Unicode details are not modelled: the regex `.` and `str::split` work on characters.
- `Variants.GenerateVariants`: `f` is a pure total function. Side effects of a Rust `Fn` closure, such as interior mutability or I/O, are not modelled. Passing `&a` by reference is shown by every call getting the same `a`.
- `Kv.Match` states its greedy choice through `LastSplit`. The greedy property is stated for the caller by `Kv.KvGreedy`, and the fact that a match exists by `Kv.KvAccepts`, rather than in the function's own contract.
