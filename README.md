# darksky URI builders, modelled in Dafny

The darksky crate is a client for the Dark Sky weather API. Its `utils` module builds
the request URIs the HTTP bridges send:

- `uri(token, lat, long)` formats the fixed request
  `https://api.darksky.net/forecast/<token>/<lat>,<long>?units=auto`;
- `uri_optioned(token, lat, long, time, options)` builds the request piece by piece
  in one `String`: the API origin, `/forecast/`, the token, `/`, the latitude, `,`,
  the longitude, then `,<time>` when a time is given, then `?`, then one
  `key=value&` for each option of a `HashMap`, in the order the map yields them. The
  value's bytes are appended through the string's byte vector
  (`as_mut_vec().extend`); the trailing `&` is kept.

The project is made of six modules:

- `Wrappers`: the `Option` type.
- `Utf8`: UTF-8 as RFC 3629 defines it, with an encoder, a decoder that refuses
  overlong forms, surrogates and values above U+10FFFF, and the round trips
  in both directions.
- `Strings`: the part of Rust's `String` the builder uses. `StringBuf` holds the
  byte vector and, as ghost state, the text. Its invariant is that the bytes are
  the text's UTF-8 encoding. `push_str`, `push` and `write!` keep that invariant.
  The unsafe byte append is allowed only when the appended bytes encode some text;
  this is the promise Rust leaves to the caller.
- `Utils`: the builders. `uri` is a function. `uri_optioned` is a method that fills
  a `StringBuf` with a loop over the options. It is proved to return exactly the
  bytes of `OptionedUri`, which is a plain specification of the request text.
- `UriParse`: a reference reader that splits a request at its first `?` and reads
  the `key=value&` pairs back. It is the inverse partner of the builder.
- `UriLaws`: the properties of the requests. They are proved for every order in
  which the option map may be iterated.

The options are a `map<string, string>` together with a sequence of its entries.
The predicate `IsIterationOrder` says what Rust guarantees about iterating a
`HashMap`: every entry comes from the map, no key comes twice, and every key comes.

## Model

| member | source | states |
|---|---|---|
| Utils.Uri | src/utils.rs:28-30 | the `format!` text is the location (origin, `/forecast/`, token, `/`, lat, `,`, long) followed by exactly `?units=auto`; its partners are `UriLaws.UriDocExample`, `UriLaws.OptionedAgreesWithUri` and `UriLaws.ParseUriOfUri` |
| Utils.Path | src/utils.rs:69-81 | the text before the `?`: it starts with the location and is longer by the time's length + 1 exactly when a time is given; `UriParse.PathHasNoMark` and `UriLaws.TimePlacement` are about it |
| Utils.Pair | src/utils.rs:86-98 | one option as the loop writes it: `|key| + |value| + 2` characters, `=` right after the key, `&` last; `UriLaws.PairBytes` gives its length in bytes |
| Utils.Query | src/utils.rs:85-99 | the options' pairs in the order visited, as long as the sum over the options of key + value + 2 characters; `UriParse.ParseQueryOfQuery` inverts it |
| Utils.OptionedUri | src/utils.rs:69-101 | the text `uri_optioned` builds for a given iteration order: the path, then `?` right after it; `UriParse.ParseOptionedUri` inverts it and the `UriLaws` lemmas describe its shape |
| Utils.IsIterationOrder | src/utils.rs:85 | what the `for` loop over the `HashMap` may visit: entries of the map only, no key twice, every key; `UriLaws.IterationOrderExists`, `UriLaws.OrderLength` and `UriLaws.OrdersSameEntries` show it admits every map and pins the entries down to a permutation |
| Utils.UriOptioned | src/utils.rs:62-102 | for every iteration order of the options, the bytes of the string built step by step are the UTF-8 encoding of path + `?` + the `key=value&` pairs in that order, and they decode back to that text, so the result is a well-formed `String` |
| Utils.PushPath | src/utils.rs:69-81 | on an empty string, the pushes of the origin, `/forecast/`, token, `/`, lat, `,`, long and the optional `,time` leave exactly the path text, and the string stays valid UTF-8 |
| Utils.PushOption | src/utils.rs:86-98 | one turn of the option loop appends exactly `key=value&` to the text and keeps the string valid |
| Utils.OptionedUriStep | src/utils.rs:85-99 | visiting one more option extends the request by exactly that option's pair |
| Utils.QuerySnoc | src/utils.rs:85-99 | the query after one more option is the earlier query followed by that option's `key=value&` |
| Strings.StringBuf.constructor | src/utils.rs:69 | `String::new()` holds no text and no bytes |
| Strings.StringBuf.PushStr | src/utils.rs:70-80 | `push_str` and `write!` append the argument's text and keep the bytes equal to the text's encoding |
| Strings.StringBuf.Push | src/utils.rs:73 | `push` appends one character and keeps the invariant |
| Strings.StringBuf.ExtendBytes | src/utils.rs:89-96 | when the raw bytes encode some text, extending the vector appends those bytes unaltered, appends that text, and keeps the string valid UTF-8 |
| Utf8.EncodeChar | src/utils.rs:73 | a character takes 1 to 4 bytes as RFC 3629 assigns them: a leading byte and then only continuation bytes, and ASCII is a single byte |
| Utf8.EncodeConcat | src/utils.rs:70-72 | the bytes of a concatenation are the concatenation of the bytes, so appending text appends its encoding |
| Utf8.DecodeChar | src/utils.rs:89-96 | whenever one character is read from the front of some bytes, re-encoding it gives back exactly the bytes it consumed |
| Utf8.Decode | src/utils.rs:89-96 | whenever the bytes decode, re-encoding the text gives back the same bytes |
| Utf8.DecodeEncodeChar | src/utils.rs:89-96 | any character is read back from its own encoding, whatever follows it |
| Utf8.DecodeEncode | src/utils.rs:89-96 | every text is recovered from its encoding, so the encoding of any text is valid UTF-8 |
| UriParse.IndexOf | src/utils.rs:83 | the search the reference reader uses to find the `?` pushed here: the position of the first occurrence of a character, or the length when it is absent |
| UriParse.ParseQuery | src/utils.rs:85-99 | whatever the reader accepts is a list of separable options whose written form is exactly the query it read |
| UriParse.ParseUri | src/utils.rs:83-99 | whatever the reader accepts is a text without `?`, then `?`, then the written form of the options read |
| UriParse.ParseQueryOfQuery | src/utils.rs:85-99 | reading back a query the builder wrote from separable options gives those options, in the order written |
| UriParse.ParseOptionedUri | src/utils.rs:69-101 | when token, coordinates and time hold no `?` and the options are separable, the request reads back as its path and its options, so it determines them |
| UriParse.PathHasNoMark | src/utils.rs:69-81 | the part before the query holds a `?` only when one of the inputs does |
| UriLaws.IterationOrderExists | src/utils.rs:85 | every map, the empty one included, has an iteration order, so the builder's precondition admits every `HashMap` |
| UriLaws.OrderLength | src/utils.rs:85 | iterating over a map takes exactly one step per entry |
| UriLaws.SingletonOrder | src/utils.rs:85 | a one-entry map is iterated in only one way |
| UriLaws.RemoveStep | src/utils.rs:85 | dropping one step of an iteration order gives an iteration order of the map without that key |
| UriLaws.OrdersSameEntries | src/utils.rs:85 | any two iteration orders of one map are permutations of each other |
| UriLaws.OrdersSameWeight | src/utils.rs:85-99 | any two iteration orders of one map add the same total of `key` + `value` + 2 characters |
| UriLaws.QueryConcat | src/utils.rs:85-99 | the query of two runs of options is the two queries one after the other |
| UriLaws.QueryBytes | src/utils.rs:85-99 | a query takes as many bytes as the sum over its options of the UTF-8 lengths of key and value + 2 |
| UriLaws.OptionedByteLength | src/utils.rs:62-102 | the `String` `uri_optioned` returns is as many bytes long as the path's bytes + 1 + the sum over the options of the UTF-8 lengths of key and value + 2 |
| UriLaws.StartsWithLocation | src/utils.rs:69-76 | every request starts with the origin, `/forecast/`, the token, `/`, the latitude, `,` and the longitude |
| UriLaws.TimePlacement | src/utils.rs:78-83 | right after the longitude comes `,time?` when a time is given, and `?` directly when none is |
| UriLaws.QueryMark | src/utils.rs:83-99 | when the pieces hold no `?`, the first `?` is the one after the path, and what follows it is exactly the options' pairs |
| UriLaws.ExactlyOneMark | src/utils.rs:83-99 | when no input holds `?`, the request holds exactly one `?`, whatever the options |
| UriLaws.EmptyOptions | src/utils.rs:83-101 | with an empty map the request is the path followed by a bare `?`, the last character |
| UriLaws.TrailingSeparator | src/utils.rs:98-99 | with at least one option the request ends in `&`, which is never trimmed |
| UriLaws.PairAt | src/utils.rs:85-99 | the option visited at step `i` occurs as `key=value&` right after the path, the `?` and the pairs of the earlier steps |
| UriLaws.EveryOptionAppears | src/utils.rs:85-99 | every entry of the map occurs in the request as `key=value&`, trailing `&` included, whatever the iteration order |
| UriLaws.OptionedLength | src/utils.rs:85-99 | the request's length in characters is the path's length + 1 + the sum over the options of key length + value length + 2 |
| UriLaws.LengthIndependentOfOrder | src/utils.rs:85-99 | two iteration orders of the same map give requests of the same length |
| UriLaws.RequestDeterminesOrder | src/utils.rs:85-99 | when no piece holds `?` and the options are separable, two different orders always give different requests |
| UriLaws.OrderIsObservable | src/utils.rs:85 | two iteration orders of one two-option map give two different requests, so the text depends on the map's order |
| UriLaws.SeparatorsAreNotEscaped | src/utils.rs:89-98 | values are not escaped: a value holding `&` writes the same request as two options |
| UriLaws.OptionedAgreesWithUri | src/utils.rs:28-101 | with no time and the single option `units=auto`, `uri_optioned` gives what `uri` gives followed by `&` |
| UriLaws.ParseUriOfUri | src/utils.rs:29 | the `uri` request, followed by that `&`, reads back as its location and the one option `units=auto` |
| UriLaws.UriDocExample | src/utils.rs:22-25 | token `abc` with coordinates `-7.3` and `8.17` gives `https://api.darksky.net/forecast/abc/-7.3,8.17?units=auto` |
| UriLaws.OptionedDocExample | src/utils.rs:48-57 | token `def`, coordinates `-4.13` and `14.32`, time `1450000000` and the options `{exclude: hourly}` give `https://api.darksky.net/forecast/def/-4.13,14.32,1450000000?exclude=hourly&` for every iteration order |

## Left out

- The HTTP bridges in `src/bridge/hyper.rs` and `src/bridge/reqwest.rs`. They are asynchronous network code over foreign libraries (URI parsing, the client, chunked bodies, JSON decoding), and nothing in them is visible.
- `f64` formatting: Rust's `Display` rendering of the latitude and longitude is floating-point text formatting. The builders take the rendered text as `string` parameters.
- `HashMap` hashing and its concrete iteration order: the order is a parameter constrained by `IsIterationOrder`, and every property holds for each such order.
- Utils.UriOptioned: returns the string's bytes instead of `Result<String>`. `write!` into a `String` never fails, so the error path of `?` at src/utils.rs:74, 76 and 80 cannot be taken.
- Utils.UriOptioned: the value's bytes are modelled as `Encode(value)`. Rust's `String` type guarantees this for `into_bytes()`. Ownership and the move of `v` are not modelled.
- The `Error` conversions, `Result` alias and the `Forecast` types are not part of this model.
- `API_URL` is defined in `src/constants.rs`, which is not part of this model. Its value `https://api.darksky.net` is taken from the documented examples at src/utils.rs:23 and src/utils.rs:55.
- `Options::exclude` and `Block` from the documented example are not part of this model. The example's option map is written out as `{exclude: hourly}`.
- `Utils.PushPath` and `Utils.PushOption` are not separate functions in the source. They split the body of `uri_optioned` into its prefix and one turn of its loop.
- UriParse.ParseUri: this reader is a reference partner for the builder, not the crate's code. It requires every option written with its trailing `&`, which is exactly the builder's form.
