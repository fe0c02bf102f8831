/**
  The URI builders of `src/utils.rs`.

  Latitude and longitude reach the builders as the text Rust's `Display` gives the
  `f64` values; that rendering is not part of this model, so the coordinates are
  parameters holding their rendered text. The options are a `HashMap`, whose
  iteration order Rust leaves unspecified: the builder takes the map together with
  the order in which it is visited, and everything proved holds for every such order.
 */
module Utils {
  import opened Wrappers
  import opened Utf8
  import opened Strings

  /** The API origin the crate compiles in. */
  const ApiUrl: string := "https://api.darksky.net"

  /** One query option: a key and its already formatted value. */
  type Entry = (string, string)

  /** `uri`: the request for a forecast in automatically chosen units. */
  function Uri(token: string, lat: string, long: string): (r: string)
    ensures Location(token, lat, long) <= r
    ensures r[|Location(token, lat, long)|..] == "?units=auto"
  {
    ApiUrl + "/forecast/" + token + "/" + lat + "," + long + "?units=auto"
  }

  /** The part of every request that names the location. */
  function Location(token: string, lat: string, long: string): string {
    ApiUrl + "/forecast/" + token + "/" + lat + "," + long
  }

  /** The location followed by the optional time, which a comma introduces. */
  function Path(token: string, lat: string, long: string, time: Option<string>): (r: string)
    ensures Location(token, lat, long) <= r
    ensures |r| == |Location(token, lat, long)| + (if time.Some? then |time.value| + 1 else 0)
  {
    match time
    case None => Location(token, lat, long)
    case Some(t) => Location(token, lat, long) + "," + t
  }

  /** One option as the builder writes it, separator included. */
  function Pair(e: Entry): (r: string)
    ensures |r| == |e.0| + |e.1| + 2
    ensures r[|e.0|] == '=' && r[|r| - 1] == '&'
  {
    e.0 + "=" + e.1 + "&"
  }

  /** The length the options add to a request: `|k| + |v| + 2` characters for each of them. */
  function Weight(order: seq<Entry>): nat {
    if order == [] then 0 else |order[0].0| + |order[0].1| + 2 + Weight(order[1..])
  }

  /** The options in the order visited. */
  function Query(order: seq<Entry>): (r: string)
    ensures |r| == Weight(order)
  {
    if order == [] then "" else Pair(order[0]) + Query(order[1..])
  }

  /** What `uri_optioned` builds when it visits the options in `order`. */
  function OptionedUri(token: string, lat: string, long: string, time: Option<string>, order: seq<Entry>): (r: string)
    ensures Path(token, lat, long, time) <= r
    ensures |Path(token, lat, long, time)| < |r| && r[|Path(token, lat, long, time)|] == '?'
  {
    Path(token, lat, long, time) + "?" + Query(order)
  }

  /**
    `order` is an order in which iterating over `options` may yield its entries:
    every entry comes from the map, no key comes twice, and every key comes.
   */
  predicate IsIterationOrder(options: map<string, string>, order: seq<Entry>) {
    && (forall i :: 0 <= i < |order| ==> FromMap(options, order, i))
    && (forall i, j :: 0 <= i < j < |order| ==> KeysDiffer(order, i, j))
    && (forall k :: k in options ==> Visits(order, k))
  }

  /** The entry visited at step `i` is one of the map's. */
  predicate FromMap(options: map<string, string>, order: seq<Entry>, i: int)
    requires 0 <= i < |order|
  {
    order[i].0 in options && options[order[i].0] == order[i].1
  }

  /** Steps `i` and `j` visit different keys. */
  predicate KeysDiffer(order: seq<Entry>, i: int, j: int)
    requires 0 <= i < |order| && 0 <= j < |order|
  {
    order[i].0 != order[j].0
  }

  /** Some step visits the key `k`. */
  predicate Visits(order: seq<Entry>, k: string) {
    exists i :: 0 <= i < |order| && order[i].0 == k
  }

  /**
    `uri_optioned`: builds the request in one `String`, piece by piece, then appends
    the options in the order the map yields them. The result is the string's bytes.
   */
  method UriOptioned(token: string, lat: string, long: string, time: Option<string>,
                     options: map<string, string>, order: seq<Entry>)
    returns (uri: seq<byte>)
    requires IsIterationOrder(options, order)
    ensures uri == Encode(OptionedUri(token, lat, long, time, order))
    ensures Decode(uri) == Some(OptionedUri(token, lat, long, time, order))
  {
    var buf := new StringBuf();
    PushPath(buf, token, lat, long, time);
    buf.Push('?');
    assert order[..0] == [];
    assert buf.text == OptionedUri(token, lat, long, time, []);

    var i := 0;
    while i < |order|
      invariant 0 <= i <= |order|
      invariant buf.Valid()
      invariant buf.text == OptionedUri(token, lat, long, time, order[..i])
    {
      PushOption(buf, order[i].0, order[i].1);
      OptionedUriStep(token, lat, long, time, order, i);
      i := i + 1;
    }
    assert order[..|order|] == order;
    uri := buf.bytes;
    DecodeEncode(buf.text);
  }

  /** The first part of `uri_optioned`: the location and, when given, the time. */
  method PushPath(buf: StringBuf, token: string, lat: string, long: string, time: Option<string>)
    requires buf.Valid() && buf.text == []
    modifies buf
    ensures buf.Valid() && buf.text == Path(token, lat, long, time)
  {
    buf.PushStr(ApiUrl);
    assert buf.text == ApiUrl;
    buf.PushStr("/forecast/");
    buf.PushStr(token);
    buf.Push('/');
    buf.PushStr(lat);
    buf.Push(',');
    buf.PushStr(long);
    assert buf.text == Location(token, lat, long);
    if time.Some? {
      buf.Push(',');
      buf.PushStr(time.value);
    }
  }

  /**
    One turn of the option loop: `key`, `=`, the value's bytes appended through
    the string's vector, and `&`.
   */
  method PushOption(buf: StringBuf, key: string, value: string)
    requires buf.Valid()
    modifies buf
    ensures buf.Valid() && buf.text == old(buf.text) + Pair((key, value))
  {
    ghost var before := buf.text;
    buf.PushStr(key);
    buf.Push('=');
    ghost var keyed := buf.text;
    // `value.into_bytes()` hands over the value's own bytes, unchanged
    var valueBytes := Encode(value);
    buf.ExtendBytes(valueBytes, value);
    buf.Push('&');
    assert buf.text == keyed + value + "&";
    assert keyed == before + key + "=";
  }

  /** Visiting one more option appends its pair to the request. */
  lemma OptionedUriStep(token: string, lat: string, long: string, time: Option<string>, order: seq<Entry>, i: nat)
    requires i < |order|
    ensures OptionedUri(token, lat, long, time, order[..i + 1])
         == OptionedUri(token, lat, long, time, order[..i]) + Pair(order[i])
  {
    QueryPrefix(order, i);
  }

  /** Visiting one more option appends its pair. */
  lemma QueryPrefix(order: seq<Entry>, i: nat)
    requires i < |order|
    ensures Query(order[..i + 1]) == Query(order[..i]) + Pair(order[i])
  {
    assert order[..i + 1] == order[..i] + [order[i]];
    QuerySnoc(order[..i], order[i]);
  }

  /** The query grows by one pair per visited option. */
  lemma {:induction false} QuerySnoc(order: seq<Entry>, e: Entry)
    ensures Query(order + [e]) == Query(order) + Pair(e)
    decreases |order|
  {
    if order == [] {
      assert [e][1..] == [];
    } else {
      assert (order + [e])[1..] == order[1..] + [e];
      QuerySnoc(order[1..], e);
    }
  }
}
