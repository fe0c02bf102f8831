/**
  What the two builders of `src/utils.rs` promise, proved of the model for every
  iteration order of the options.
 */
module UriLaws {
  import opened Wrappers
  import opened Utf8
  import opened Utils
  import opened UriParse

  // ---------------------------------------------------------------------------
  // Iteration orders of a map

  /** The keys an order visits. */
  function KeySet(order: seq<Entry>): set<string> {
    if order == [] then {} else {order[0].0} + KeySet(order[1..])
  }

  lemma {:induction false} KeySetVisits(order: seq<Entry>, k: string)
    ensures k in KeySet(order) <==> Visits(order, k)
    decreases |order|
  {
    if order != [] {
      KeySetVisits(order[1..], k);
      if Visits(order[1..], k) {
        var i :| 0 <= i < |order[1..]| && order[1..][i].0 == k;
        assert order[i + 1].0 == k;
      }
      if Visits(order, k) && k != order[0].0 {
        var i :| 0 <= i < |order| && order[i].0 == k;
        assert order[1..][i - 1].0 == k;
      }
    }
  }

  /** An order that never repeats a key visits as many keys as it has steps. */
  lemma {:induction false} KeySetSize(order: seq<Entry>)
    requires forall i, j :: 0 <= i < j < |order| ==> KeysDiffer(order, i, j)
    ensures |KeySet(order)| == |order|
    decreases |order|
  {
    if order != [] {
      var rest := order[1..];
      forall i, j | 0 <= i < j < |rest| ensures KeysDiffer(rest, i, j) {
        assert KeysDiffer(order, i + 1, j + 1);
      }
      KeySetSize(rest);
      assert !Visits(rest, order[0].0) by {
        forall i | 0 <= i < |rest| ensures rest[i].0 != order[0].0 {
          assert KeysDiffer(order, 0, i + 1);
        }
      }
      KeySetVisits(rest, order[0].0);
    }
  }

  /** Iterating over a map takes one step per entry. */
  lemma OrderLength(options: map<string, string>, order: seq<Entry>)
    requires IsIterationOrder(options, order)
    ensures |order| == |options|
  {
    forall k | k in options ensures k in KeySet(order) {
      KeySetVisits(order, k);
    }
    forall k | k in KeySet(order) ensures k in options {
      KeySetVisits(order, k);
      var i :| 0 <= i < |order| && order[i].0 == k;
      assert FromMap(options, order, i);
    }
    assert options.Keys == KeySet(order);
    KeySetSize(order);
  }

  /** Leaving out the step that visits one key gives an order of the map without it. */
  lemma RemoveStep(options: map<string, string>, order: seq<Entry>, j: nat)
    requires IsIterationOrder(options, order)
    requires j < |order|
    ensures IsIterationOrder(options - {order[j].0}, order[..j] + order[j + 1..])
  {
    var k := order[j].0;
    var rest := options - {k};
    var shorter := order[..j] + order[j + 1..];
    // step i of shorter is step i of order before j, and step i + 1 from j on
    assert forall i :: 0 <= i < j ==> shorter[i] == order[i];
    assert forall i :: j <= i < |shorter| ==> shorter[i] == order[i + 1];
    forall i | 0 <= i < |shorter| ensures FromMap(rest, shorter, i) {
      var o := if i < j then i else i + 1;
      assert FromMap(options, order, o);
      if o < j { assert KeysDiffer(order, o, j); } else { assert KeysDiffer(order, j, o); }
    }
    forall i, i' | 0 <= i < i' < |shorter| ensures KeysDiffer(shorter, i, i') {
      var o := if i < j then i else i + 1;
      var o' := if i' < j then i' else i' + 1;
      assert KeysDiffer(order, o, o');
    }
    forall key | key in rest ensures Visits(shorter, key) {
      assert Visits(order, key);
      var o :| 0 <= o < |order| && order[o].0 == key;
      var i := if o < j then o else o - 1;
      assert shorter[i].0 == key;
    }
  }

  /** Every map can be iterated: some order visits each of its entries once. */
  lemma {:induction false} IterationOrderExists(options: map<string, string>) returns (order: seq<Entry>)
    ensures IsIterationOrder(options, order)
    decreases |options|
  {
    if options == map[] {
      order := [];
    } else {
      var k :| k in options;
      var rest := options - {k};
      assert rest.Keys == options.Keys - {k};
      var tail := IterationOrderExists(rest);
      order := [(k, options[k])] + tail;
      forall i | 0 <= i < |order| ensures FromMap(options, order, i) {
        if i > 0 {
          assert order[i] == tail[i - 1];
          assert FromMap(rest, tail, i - 1);
        }
      }
      forall i, j | 0 <= i < j < |order| ensures KeysDiffer(order, i, j) {
        assert FromMap(rest, tail, j - 1);
        if i > 0 {
          assert KeysDiffer(tail, i - 1, j - 1);
        }
      }
      forall key | key in options ensures Visits(order, key) {
        if key == k {
          assert order[0].0 == key;
        } else {
          assert Visits(tail, key);
          var i :| 0 <= i < |tail| && tail[i].0 == key;
          assert order[i + 1].0 == key;
        }
      }
    }
  }

  /** A map with a single entry is iterated in a single way. */
  lemma SingletonOrder(k: string, v: string, order: seq<Entry>)
    requires IsIterationOrder(map[k := v], order)
    ensures order == [(k, v)]
  {
    OrderLength(map[k := v], order);
    assert FromMap(map[k := v], order, 0);
  }

  // ---------------------------------------------------------------------------
  // The query string

  lemma {:induction false} QueryConcat(a: seq<Entry>, b: seq<Entry>)
    ensures Query(a + b) == Query(a) + Query(b)
    decreases |a|
  {
    if a == [] {
      assert a + b == b;
    } else {
      assert (a + b)[1..] == a[1..] + b;
      QueryConcat(a[1..], b);
    }
  }

  lemma {:induction false} WeightConcat(a: seq<Entry>, b: seq<Entry>)
    ensures Weight(a + b) == Weight(a) + Weight(b)
    decreases |a|
  {
    if a == [] {
      assert a + b == b;
    } else {
      assert (a + b)[1..] == a[1..] + b;
      WeightConcat(a[1..], b);
    }
  }

  /** Taking step `j` out of an order takes its entry out of the bag of entries. */
  lemma MultisetRemove(s: seq<Entry>, j: nat)
    requires j < |s|
    ensures multiset(s) == multiset(s[..j] + s[j + 1..]) + multiset{s[j]}
  {
    assert s == s[..j] + [s[j]] + s[j + 1..];
  }

  /** Taking step `j` out of an order takes its length out of the weight. */
  lemma WeightRemove(s: seq<Entry>, j: nat)
    requires j < |s|
    ensures Weight(s) == Weight(s[..j] + s[j + 1..]) + |s[j].0| + |s[j].1| + 2
  {
    assert s == s[..j] + ([s[j]] + s[j + 1..]);
    WeightConcat(s[..j], [s[j]] + s[j + 1..]);
    WeightConcat(s[..j], s[j + 1..]);
    assert ([s[j]] + s[j + 1..])[1..] == s[j + 1..];
  }

  /**
    Peeling the first step off `o1` and the step that visits the same entry off `o2`
    leaves two iteration orders of the map without that entry.
   */
  lemma PeelMatching(options: map<string, string>, o1: seq<Entry>, o2: seq<Entry>) returns (j: nat)
    requires IsIterationOrder(options, o1) && IsIterationOrder(options, o2)
    requires o1 != []
    ensures j < |o2| && o2[j] == o1[0]
    ensures IsIterationOrder(options - {o1[0].0}, o1[1..])
    ensures IsIterationOrder(options - {o1[0].0}, o2[..j] + o2[j + 1..])
  {
    assert FromMap(options, o1, 0);
    assert Visits(o2, o1[0].0);
    j :| 0 <= j < |o2| && o2[j].0 == o1[0].0;
    assert FromMap(options, o2, j);
    RemoveStep(options, o1, 0);
    RemoveStep(options, o2, j);
    assert o1[..0] + o1[1..] == o1[1..];
  }

  /** Two iteration orders of one map visit the same entries: one is a permutation of the other. */
  lemma {:induction false} OrdersSameEntries(options: map<string, string>, o1: seq<Entry>, o2: seq<Entry>)
    requires IsIterationOrder(options, o1) && IsIterationOrder(options, o2)
    ensures multiset(o1) == multiset(o2)
    decreases |o1|
  {
    OrderLength(options, o1);
    OrderLength(options, o2);
    if o1 != [] {
      var j := PeelMatching(options, o1, o2);
      var r1 := o1[1..];
      var r2 := o2[..j] + o2[j + 1..];
      OrdersSameEntries(options - {o1[0].0}, r1, r2);
      MultisetRemove(o1, 0);
      MultisetRemove(o2, j);
      assert o1[..0] + o1[1..] == r1;
    }
  }

  /** Two iteration orders of one map add the same length to a request. */
  lemma {:induction false} OrdersSameWeight(options: map<string, string>, o1: seq<Entry>, o2: seq<Entry>)
    requires IsIterationOrder(options, o1) && IsIterationOrder(options, o2)
    ensures Weight(o1) == Weight(o2)
    decreases |o1|
  {
    OrderLength(options, o1);
    OrderLength(options, o2);
    if o1 != [] {
      var j := PeelMatching(options, o1, o2);
      var r1 := o1[1..];
      var r2 := o2[..j] + o2[j + 1..];
      OrdersSameWeight(options - {o1[0].0}, r1, r2);
      WeightRemove(o2, j);
    }
  }

  /** `text` occurs in `s` starting at position `p`. */
  predicate OccursAt(text: string, s: string, p: int) {
    0 <= p && p + |text| <= |s| && s[p..p + |text|] == text
  }

  // ---------------------------------------------------------------------------
  // The shape of `uri_optioned`

  /** The request starts with the API origin, the token and the coordinates. */
  lemma StartsWithLocation(token: string, lat: string, long: string, time: Option<string>, order: seq<Entry>)
    ensures ApiUrl + "/forecast/" + token + "/" + lat + "," + long <= OptionedUri(token, lat, long, time, order)
    ensures Location(token, lat, long) <= OptionedUri(token, lat, long, time, order)
  {
    var loc := Location(token, lat, long);
    var uri := OptionedUri(token, lat, long, time, order);
    assert uri == loc + uri[|loc|..];
  }

  /**
    Right after the longitude comes `,` and the time followed by `?` when a time is
    given, and `?` directly when none is.
   */
  lemma TimePlacement(token: string, lat: string, long: string, time: Option<string>, order: seq<Entry>)
    ensures var n := |Location(token, lat, long)|;
      var uri := OptionedUri(token, lat, long, time, order);
      match time
      case None => |uri| > n && uri[n] == '?'
      case Some(t) => |uri| >= n + |t| + 2 && uri[n..n + |t| + 2] == "," + t + "?"
  {
    var loc := Location(token, lat, long);
    var uri := OptionedUri(token, lat, long, time, order);
    match time
    case None =>
      assert uri == loc + "?" + Query(order);
    case Some(t) =>
      assert uri == loc + ("," + t + "?") + Query(order);
  }

  /**
    Whatever the options, the first `?` is the one after the path, unless the token,
    the coordinates or the time bring their own.
   */
  lemma QueryMark(token: string, lat: string, long: string, time: Option<string>, order: seq<Entry>)
    requires '?' !in token && '?' !in lat && '?' !in long
    requires time.Some? ==> '?' !in time.value
    ensures var uri := OptionedUri(token, lat, long, time, order);
      IndexOf(uri, '?') == |Path(token, lat, long, time)|
      && uri[..IndexOf(uri, '?')] == Path(token, lat, long, time)
      && uri[IndexOf(uri, '?') + 1..] == Query(order)
  {
    var path := Path(token, lat, long, time);
    var uri := OptionedUri(token, lat, long, time, order);
    PathHasNoMark(token, lat, long, time);
    assert uri == path + ['?'] + Query(order);
    IndexOfAfter(path, '?', Query(order));
    assert uri[..|path|] == path;
    assert uri[|path| + 1..] == Query(order);
  }

  /** Number of times `c` occurs in `s`. */
  function Count(s: string, c: char): nat {
    if s == [] then 0 else (if s[0] == c then 1 else 0) + Count(s[1..], c)
  }

  lemma {:induction false} CountConcat(a: string, b: string, c: char)
    ensures Count(a + b, c) == Count(a, c) + Count(b, c)
    decreases |a|
  {
    if a == [] {
      assert a + b == b;
    } else {
      assert (a + b)[1..] == a[1..] + b;
      CountConcat(a[1..], b, c);
    }
  }

  lemma {:induction false} CountAbsent(s: string, c: char)
    requires c !in s
    ensures Count(s, c) == 0
    decreases |s|
  {
    if s != [] {
      CountAbsent(s[1..], c);
    }
  }

  /** If no piece brings its own `?`, the request holds exactly one. */
  lemma {:induction false} ExactlyOneMark(token: string, lat: string, long: string, time: Option<string>, order: seq<Entry>)
    requires '?' !in token && '?' !in lat && '?' !in long
    requires time.Some? ==> '?' !in time.value
    requires forall i :: 0 <= i < |order| ==> '?' !in order[i].0 && '?' !in order[i].1
    ensures Count(OptionedUri(token, lat, long, time, order), '?') == 1
  {
    var path := Path(token, lat, long, time);
    PathHasNoMark(token, lat, long, time);
    CountAbsent(path, '?');
    CountConcat(path, "?", '?');
    CountConcat(path + "?", Query(order), '?');
    QueryHasNoMark(order);
  }

  lemma {:induction false} QueryHasNoMark(order: seq<Entry>)
    requires forall i :: 0 <= i < |order| ==> '?' !in order[i].0 && '?' !in order[i].1
    ensures Count(Query(order), '?') == 0
    decreases |order|
  {
    if order != [] {
      var e := order[0];
      assert '?' !in e.0 && '?' !in e.1;
      CountAbsent(e.0, '?');
      CountAbsent(e.1, '?');
      CountConcat(e.0, "=", '?');
      CountConcat(e.0 + "=", e.1, '?');
      CountConcat(e.0 + "=" + e.1, "&", '?');
      CountConcat(Pair(e), Query(order[1..]), '?');
      QueryHasNoMark(order[1..]);
    }
  }

  /** With no options the request ends in a bare `?`: nothing, and no `&`, follows it. */
  lemma EmptyOptions(token: string, lat: string, long: string, time: Option<string>, order: seq<Entry>)
    requires IsIterationOrder(map[], order)
    ensures OptionedUri(token, lat, long, time, order) == Path(token, lat, long, time) + "?"
    ensures var uri := OptionedUri(token, lat, long, time, order); uri[|uri| - 1] == '?'
  {
    OrderLength(map[], order);
  }

  /** With at least one option the request ends in the `&` the last option leaves. */
  lemma TrailingSeparator(token: string, lat: string, long: string, time: Option<string>,
                          options: map<string, string>, order: seq<Entry>)
    requires IsIterationOrder(options, order) && |options| > 0
    ensures var uri := OptionedUri(token, lat, long, time, order); uri[|uri| - 1] == '&'
  {
    OrderLength(options, order);
    var n := |order| - 1;
    assert order == order[..n] + [order[n]];
    QueryConcat(order[..n], [order[n]]);
    assert Query([order[n]]) == Pair(order[n]);
  }

  /** After the `?` the options follow one by one, each as `key=value&`, in the order visited. */
  lemma PairAt(token: string, lat: string, long: string, time: Option<string>, order: seq<Entry>, i: nat)
    requires i < |order|
    ensures OccursAt(Pair(order[i]), OptionedUri(token, lat, long, time, order),
                     |Path(token, lat, long, time)| + 1 + |Query(order[..i])|)
  {
    PairAfter(Path(token, lat, long, time) + "?", order, i);
  }

  /** The same, after any text `head` in front of the query. */
  lemma PairAfter(head: string, order: seq<Entry>, i: nat)
    requires i < |order|
    ensures OccursAt(Pair(order[i]), head + Query(order), |head| + |Query(order[..i])|)
  {
    QuerySplit(order, i);
    OccursBetween(head + Query(order[..i]), Pair(order[i]), Query(order[i + 1..]), head + Query(order));
  }

  /** The query around the option visited at step `i`. */
  lemma {:induction false} QuerySplit(order: seq<Entry>, i: nat)
    requires i < |order|
    ensures Query(order) == Query(order[..i]) + Pair(order[i]) + Query(order[i + 1..])
    decreases i
  {
    if i == 0 {
      assert order[..0] == [];
      assert order[1..] == order[i + 1..];
    } else {
      var rest := order[1..];
      QuerySplit(rest, i - 1);
      assert order[..i][1..] == rest[..i - 1];
      assert rest[i - 1] == order[i];
      assert rest[i..] == order[i + 1..];
    }
  }

  lemma OccursBetween(a: string, text: string, b: string, s: string)
    requires s == a + text + b
    ensures OccursAt(text, s, |a|)
  {
    assert s[|a|..|a| + |text|] == text;
  }

  /**
    Every option of the map appears in the request as `key=value&`, trailing `&`
    included, whatever order the map is iterated in.
   */
  lemma EveryOptionAppears(token: string, lat: string, long: string, time: Option<string>,
                           options: map<string, string>, order: seq<Entry>)
    requires IsIterationOrder(options, order)
    ensures forall k :: k in options ==>
      exists p :: OccursAt(k + "=" + options[k] + "&", OptionedUri(token, lat, long, time, order), p)
  {
    forall k | k in options
      ensures exists p :: OccursAt(k + "=" + options[k] + "&", OptionedUri(token, lat, long, time, order), p)
    {
      assert Visits(order, k);
      var i :| 0 <= i < |order| && order[i].0 == k;
      assert FromMap(options, order, i);
      PairAt(token, lat, long, time, order, i);
    }
  }

  /** The request is as long as its path, the `?`, and `|k| + |v| + 2` per option. */
  lemma OptionedLength(token: string, lat: string, long: string, time: Option<string>, order: seq<Entry>)
    ensures |OptionedUri(token, lat, long, time, order)| == |Path(token, lat, long, time)| + 1 + Weight(order)
  {
  }

  /** The bytes an option adds to the request: `|k| + |v| + 2` in UTF-8 for each of them. */
  function ByteWeight(order: seq<Entry>): nat {
    if order == [] then 0
    else |Encode(order[0].0)| + |Encode(order[0].1)| + 2 + ByteWeight(order[1..])
  }

  /** An ASCII character is stored as the one byte of its code. */
  lemma EncodeAscii(c: char)
    requires c as int < 0x80
    ensures Encode([c]) == [(c as int) as byte]
  {
    assert [c][1..] == [];
  }

  lemma PairBytes(e: Entry)
    ensures |Encode(Pair(e))| == |Encode(e.0)| + |Encode(e.1)| + 2
  {
    EncodeConcat(e.0 + "=" + e.1, "&");
    EncodeConcat(e.0 + "=", e.1);
    EncodeConcat(e.0, "=");
    EncodeAscii('=');
    EncodeAscii('&');
  }

  lemma {:induction false} QueryBytes(order: seq<Entry>)
    ensures |Encode(Query(order))| == ByteWeight(order)
    decreases |order|
  {
    if order != [] {
      EncodeConcat(Pair(order[0]), Query(order[1..]));
      PairBytes(order[0]);
      QueryBytes(order[1..]);
    }
  }

  /**
    The length of the `String` `uri_optioned` returns, which Rust counts in bytes: the
    bytes of the path, one for `?`, and the UTF-8 length of each key and value plus two.
   */
  lemma OptionedByteLength(token: string, lat: string, long: string, time: Option<string>, order: seq<Entry>)
    ensures |Encode(OptionedUri(token, lat, long, time, order))|
         == |Encode(Path(token, lat, long, time))| + 1 + ByteWeight(order)
  {
    var path := Path(token, lat, long, time);
    EncodeConcat(path + "?", Query(order));
    EncodeConcat(path, "?");
    EncodeAscii('?');
    QueryBytes(order);
  }

  /** The order the map happens to be iterated in changes where options go, never the length. */
  lemma LengthIndependentOfOrder(token: string, lat: string, long: string, time: Option<string>,
                                 options: map<string, string>, o1: seq<Entry>, o2: seq<Entry>)
    requires IsIterationOrder(options, o1) && IsIterationOrder(options, o2)
    ensures |OptionedUri(token, lat, long, time, o1)| == |OptionedUri(token, lat, long, time, o2)|
  {
    OptionedLength(token, lat, long, time, o1);
    OptionedLength(token, lat, long, time, o2);
    OrdersSameWeight(options, o1, o2);
  }

  /**
    When no piece holds a `?` and the options are separable, the request determines the
    order: two different orders, of one map or not, never give the same request.
   */
  lemma RequestDeterminesOrder(token: string, lat: string, long: string, time: Option<string>,
                               o1: seq<Entry>, o2: seq<Entry>)
    requires '?' !in token && '?' !in lat && '?' !in long
    requires time.Some? ==> '?' !in time.value
    requires forall i :: 0 <= i < |o1| ==> Separable(o1[i])
    requires forall i :: 0 <= i < |o2| ==> Separable(o2[i])
    ensures OptionedUri(token, lat, long, time, o1) == OptionedUri(token, lat, long, time, o2) ==> o1 == o2
  {
    ParseOptionedUri(token, lat, long, time, o1);
    ParseOptionedUri(token, lat, long, time, o2);
  }

  /** The order is observable in the bytes: two orders of one map can give two requests. */
  lemma OrderIsObservable()
    ensures var options := map["exclude" := "hourly", "lang" := "de"];
      var o1 := [("exclude", "hourly"), ("lang", "de")];
      var o2 := [("lang", "de"), ("exclude", "hourly")];
      IsIterationOrder(options, o1) && IsIterationOrder(options, o2)
      && OptionedUri("t", "1", "2", None, o1) != OptionedUri("t", "1", "2", None, o2)
  {
    var options := map["exclude" := "hourly", "lang" := "de"];
    var o1 := [("exclude", "hourly"), ("lang", "de")];
    var o2 := [("lang", "de"), ("exclude", "hourly")];
    assert o1[0].0 == "exclude" && o1[1].0 == "lang";
    assert o2[1].0 == "exclude" && o2[0].0 == "lang";
    assert FromMap(options, o1, 0) && FromMap(options, o1, 1) && KeysDiffer(o1, 0, 1);
    assert FromMap(options, o2, 0) && FromMap(options, o2, 1) && KeysDiffer(o2, 0, 1);
    var n := |Path("t", "1", "2", None)| + 1;
    assert OptionedUri("t", "1", "2", None, o1)[n] == 'e';
    assert OptionedUri("t", "1", "2", None, o2)[n] == 'l';
  }

  /**
    Nothing is escaped: a value holding `&` gives the same request as two options,
    which is why reading a request back needs separable options.
   */
  lemma SeparatorsAreNotEscaped()
    ensures OptionedUri("t", "1", "2", None, [("lang", "de&units=si")])
         == OptionedUri("t", "1", "2", None, [("lang", "de"), ("units", "si")])
  {
  }

  // ---------------------------------------------------------------------------
  // `uri` and `uri_optioned` together

  /**
    Without a time and with the single option `units=auto`, `uri_optioned` gives what
    `uri` gives, followed by the trailing `&`.
   */
  lemma OptionedAgreesWithUri(token: string, lat: string, long: string, order: seq<Entry>)
    requires IsIterationOrder(map["units" := "auto"], order)
    ensures OptionedUri(token, lat, long, None, order) == Uri(token, lat, long) + "&"
  {
    SingletonOrder("units", "auto", order);
    assert Query(order) == "units=auto&";
  }

  /** `uri`, with the `&` that `uri_optioned` would add, reads back as its location and `units=auto`. */
  lemma ParseUriOfUri(token: string, lat: string, long: string)
    requires '?' !in token && '?' !in lat && '?' !in long
    ensures ParseUri(Uri(token, lat, long) + "&") == Some((Location(token, lat, long), [("units", "auto")]))
  {
    var order := [("units", "auto")];
    assert order[0].0 == "units" && FromMap(map["units" := "auto"], order, 0);
    OptionedAgreesWithUri(token, lat, long, order);
    assert Separable(order[0]);
    ParseOptionedUri(token, lat, long, None, order);
  }

  /** The example in the documentation of `uri`. */
  lemma UriDocExample()
    ensures Uri("abc", "-7.3", "8.17") == "https://api.darksky.net/forecast/abc/-7.3,8.17?units=auto"
  {
    UriDocLocation();
  }

  lemma UriDocLocation()
    ensures Location("abc", "-7.3", "8.17") == "https://api.darksky.net/forecast/abc/-7.3,8.17"
  {
    assert ApiUrl + "/forecast/" == "https://api.darksky.net/forecast/";
  }

  /** The example in the documentation of `uri_optioned`, for the map `{exclude: hourly}`. */
  lemma OptionedDocExample(order: seq<Entry>)
    requires IsIterationOrder(map["exclude" := "hourly"], order)
    ensures OptionedUri("def", "-4.13", "14.32", Some("1450000000"), order)
         == "https://api.darksky.net/forecast/def/-4.13,14.32,1450000000?exclude=hourly&"
  {
    SingletonOrder("exclude", "hourly", order);
    assert Query(order) == "exclude=hourly&";
    DocExamplePath();
  }

  /** The path of the example in the documentation of `uri_optioned`. */
  lemma DocExamplePath()
    ensures Path("def", "-4.13", "14.32", Some("1450000000"))
         == "https://api.darksky.net/forecast/def/-4.13,14.32,1450000000"
  {
    DocExampleLocation();
  }

  lemma DocExampleLocation()
    ensures Location("def", "-4.13", "14.32") == "https://api.darksky.net/forecast/def/-4.13,14.32"
  {
    assert ApiUrl + "/forecast/" == "https://api.darksky.net/forecast/";
  }
}
