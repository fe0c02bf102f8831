/**
  A reference reader for the requests the builders produce: it splits a request at its
  first `?` and reads the query back as `key=value&` pairs. It is the inverse of the
  builders on every input whose pieces do not contain the separators, which shows that
  the built text determines the location, the time and the options that went into it.
 */
module UriParse {
  import opened Wrappers
  import opened Utils

  /** Position of the first `c` in `s`, or `|s|` when there is none. */
  function IndexOf(s: string, c: char): (r: nat)
    ensures r <= |s|
    ensures forall i :: 0 <= i < r ==> s[i] != c
    ensures r < |s| ==> s[r] == c
  {
    if s == [] then 0
    else if s[0] == c then 0
    else 1 + IndexOf(s[1..], c)
  }

  /** An option the reader can tell apart: its key holds no `=` and no `&`, its value no `&`. */
  predicate Separable(e: Entry) {
    '=' !in e.0 && '&' !in e.0 && '&' !in e.1
  }

  /** Reads a query of `key=value&` pairs; the final pair must end in `&` too. */
  function ParseQuery(q: string): (r: Option<seq<Entry>>)
    ensures r.Some? ==> Query(r.value) == q
    ensures r.Some? ==> forall i :: 0 <= i < |r.value| ==> Separable(r.value[i])
    decreases |q|
  {
    if q == [] then Some([])
    else
      var amp := IndexOf(q, '&');
      if amp == |q| then None
      else
        var pair := q[..amp];
        var eq := IndexOf(pair, '=');
        if eq == |pair| then None
        else
          match ParseQuery(q[amp + 1..])
          case None => None
          case Some(rest) =>
            var e := (q[..eq], q[eq + 1..amp]);
            SplitPair(q, amp, eq);
            assert ([e] + rest)[1..] == rest;
            Some([e] + rest)
  }

  /** The pair in front of the first `&`, split at its first `=`, is separable and rebuilds the query. */
  lemma SplitPair(q: string, amp: nat, eq: nat)
    requires amp < |q| && q[amp] == '&' && forall i :: 0 <= i < amp ==> q[i] != '&'
    requires eq < amp && q[eq] == '=' && forall i :: 0 <= i < eq ==> q[i] != '='
    ensures Separable((q[..eq], q[eq + 1..amp]))
    ensures q == Pair((q[..eq], q[eq + 1..amp])) + q[amp + 1..]
  {
    var e := (q[..eq], q[eq + 1..amp]);
    assert q == e.0 + "=" + e.1 + "&" + q[amp + 1..];
    assert '=' !in e.0 by {
      forall i | 0 <= i < |e.0| ensures e.0[i] != '=' { assert e.0[i] == q[i]; }
    }
    assert '&' !in e.0 by {
      forall i | 0 <= i < |e.0| ensures e.0[i] != '&' { assert e.0[i] == q[i]; }
    }
    assert '&' !in e.1 by {
      forall i | 0 <= i < |e.1| ensures e.1[i] != '&' { assert e.1[i] == q[eq + 1 + i]; }
    }
  }

  /** Splits a request into the text before its first `?` and the options after it. */
  function ParseUri(uri: string): (r: Option<(string, seq<Entry>)>)
    ensures r.Some? ==> '?' !in r.value.0 && uri == r.value.0 + "?" + Query(r.value.1)
  {
    var mark := IndexOf(uri, '?');
    if mark == |uri| then None
    else
      match ParseQuery(uri[mark + 1..])
      case None => None
      case Some(options) =>
        assert uri == uri[..mark] + "?" + uri[mark + 1..];
        Some((uri[..mark], options))
  }

  /** The first `c` in `a + [c] + b` is the one after `a` when `a` holds none. */
  lemma {:induction false} IndexOfAfter(a: string, c: char, b: string)
    requires c !in a
    ensures IndexOf(a + [c] + b, c) == |a|
    decreases |a|
  {
    if a != [] {
      assert (a + [c] + b)[1..] == a[1..] + [c] + b;
      IndexOfAfter(a[1..], c, b);
    }
  }

  /** Where the reader cuts a separable pair written in front of `rest`. */
  lemma ReadPair(e: Entry, rest: string, q: string)
    requires Separable(e) && q == Pair(e) + rest
    ensures var amp := |e.0| + |e.1| + 1;
      && IndexOf(q, '&') == amp && IndexOf(q[..amp], '=') == |e.0|
      && q[..|e.0|] == e.0 && q[|e.0| + 1..amp] == e.1 && q[amp + 1..] == rest
  {
    var amp := |e.0| + |e.1| + 1;
    assert q == (e.0 + "=" + e.1) + ['&'] + rest;
    assert '&' !in e.0 + "=" + e.1;
    IndexOfAfter(e.0 + "=" + e.1, '&', rest);
    assert q[..amp] == e.0 + ['='] + e.1;
    IndexOfAfter(e.0, '=', e.1);
  }

  /** Reading back the query the builder wrote gives the options in the order written. */
  lemma {:induction false} ParseQueryOfQuery(order: seq<Entry>)
    requires forall i :: 0 <= i < |order| ==> Separable(order[i])
    ensures ParseQuery(Query(order)) == Some(order)
    decreases |order|
  {
    if order != [] {
      var e := order[0];
      assert Separable(e);
      ReadPair(e, Query(order[1..]), Query(order));
      ParseQueryOfQuery(order[1..]);
      assert [e] + order[1..] == order;
    }
  }

  /**
    When neither the token, the coordinates nor the time contain `?`, and every option
    is separable, the request built by `uri_optioned` reads back as its path and its
    options, in the order they were visited.
   */
  lemma ParseOptionedUri(token: string, lat: string, long: string, time: Option<string>, order: seq<Entry>)
    requires '?' !in token && '?' !in lat && '?' !in long
    requires time.Some? ==> '?' !in time.value
    requires forall i :: 0 <= i < |order| ==> Separable(order[i])
    ensures ParseUri(OptionedUri(token, lat, long, time, order))
         == Some((Path(token, lat, long, time), order))
  {
    var path := Path(token, lat, long, time);
    var uri := OptionedUri(token, lat, long, time, order);
    PathHasNoMark(token, lat, long, time);
    assert uri == path + ['?'] + Query(order);
    IndexOfAfter(path, '?', Query(order));
    assert uri[..|path|] == path;
    assert uri[|path| + 1..] == Query(order);
    ParseQueryOfQuery(order);
  }

  /** Nothing in front of the query holds a `?` unless one of the inputs does. */
  lemma PathHasNoMark(token: string, lat: string, long: string, time: Option<string>)
    requires '?' !in token && '?' !in lat && '?' !in long
    requires time.Some? ==> '?' !in time.value
    ensures '?' !in Path(token, lat, long, time)
  {
    var a := ApiUrl + "/forecast/";
    var b := a + token + "/";
    var c := b + lat + ",";
    var d := c + long;
    assert Location(token, lat, long) == d;
    forall i | 0 <= i < |d| ensures d[i] != '?' {
      if i < |a| {
      } else if i < |a| + |token| {
        assert d[i] == token[i - |a|];
      } else if i < |b| {
      } else if i < |b| + |lat| {
        assert d[i] == lat[i - |b|];
      } else if i < |c| {
      } else {
        assert d[i] == long[i - |c|];
      }
    }
    if time.Some? {
      var p := d + "," + time.value;
      forall i | |d| < i < |p| ensures p[i] != '?' {
        assert p[i] == time.value[i - |d| - 1];
      }
    }
  }
}
