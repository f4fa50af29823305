/**
 * url.Values as the client uses it (one value per key, written with Set)
 * and url.Values.Encode, the canonical query string that is signed: keys
 * in ascending byte order, each as `QueryEscape(k)=QueryEscape(v)`, joined
 * by '&'. A reference parser, reading a query back into its pairs, is the
 * partner the encoding is proved against.
 */
module Query {
  import opened Wrappers
  import opened ByteStrings
  import opened UrlEscape
  import opened ByteOrder

  /** A url.Values map whose every key holds a single value. */
  class Values {
    var entries: map<Bytes, Bytes>

    /** url.Values{}: no keys. */
    constructor ()
      ensures entries == map[]
    {
      entries := map[];
    }

    /** Values.Set: the key now holds `value`, replacing what it held; no
        other key changes. */
    method Set(key: Bytes, value: Bytes)
      modifies this
      ensures entries == old(entries)[key := value]
    {
      entries := entries[key := value];
    }

    /** Values.Encode: the canonical query string of the entries. */
    function Encode(): (s: Bytes)
      reads this
      ensures |s| == 0 <==> |entries| == 0
    {
      EncodeEntries(entries)
    }
  }

  /** A key and its value. */
  type Pair = (Bytes, Bytes)

  function KeysOf(ps: seq<Pair>): (ks: seq<Bytes>)
    ensures |ks| == |ps| && forall i | 0 <= i < |ps| :: ks[i] == ps[i].0
  {
    seq(|ps|, i requires 0 <= i < |ps| => ps[i].0)
  }

  /** The entries of `m` in the order Encode visits them: every key once,
      ascending, each with its value. */
  function Pairs(m: map<Bytes, Bytes>): (ps: seq<Pair>)
    ensures |ps| == |m|
    ensures forall k :: k in KeysOf(ps) <==> k in m
    ensures StrictlySorted(KeysOf(ps))
    ensures forall i | 0 <= i < |ps| :: ps[i].0 in m && ps[i].1 == m[ps[i].0]
  {
    var ks := SortedKeys(m.Keys);
    var ps := seq(|ks|, i requires 0 <= i < |ks| => (ks[i], m[ks[i]]));
    assert KeysOf(ps) == ks;
    ps
  }

  /** One `k=v` item, both sides query-escaped. */
  function EncodePair(p: Pair): (r: Bytes)
    ensures r != [] && '&' !in r
  {
    var r := QueryEscape(p.0) + "=" + QueryEscape(p.1);
    assert forall i | 0 <= i < |r| :: r[i] != '&';
    r
  }

  function EncodePairs(ps: seq<Pair>): (items: seq<Bytes>)
    ensures |items| == |ps|
    ensures forall i | 0 <= i < |items| :: items[i] != [] && '&' !in items[i]
  {
    if ps == [] then [] else [EncodePair(ps[0])] + EncodePairs(ps[1..])
  }

  /** url.Values.Encode; "" exactly when there are no keys. */
  function EncodeEntries(m: map<Bytes, Bytes>): (s: Bytes)
    ensures |s| == 0 <==> |m| == 0
  {
    Join(EncodePairs(Pairs(m)), '&')
  }

  /** The canonical query string holds only unreserved bytes, '%', '+'
      and the delimiters '=' and '&'. */
  lemma EncodeEntriesAlphabet(m: map<Bytes, Bytes>)
    ensures forall i | 0 <= i < |EncodeEntries(m)| ::
      IsUnreserved(EncodeEntries(m)[i]) || EncodeEntries(m)[i] in {'%', '+', '=', '&'}
  {
    var items := EncodePairs(Pairs(m));
    var allowed := set b: Byte | IsUnreserved(b) || b in {'%', '+', '=', '&'};
    forall i, j | 0 <= i < |items| && 0 <= j < |items[i]|
      ensures items[i][j] in allowed
    {
      EncodePairsAlphabet(Pairs(m), i, j);
    }
    JoinWithin(items, '&', allowed);
  }

  lemma {:induction false} EncodePairsAlphabet(ps: seq<Pair>, i: int, j: int)
    requires 0 <= i < |ps| && 0 <= j < |EncodePairs(ps)[i]|
    ensures IsUnreserved(EncodePairs(ps)[i][j]) || EncodePairs(ps)[i][j] in {'%', '+', '='}
    decreases |ps|
  {
    if i == 0 {
      var ek, ev := QueryEscape(ps[0].0), QueryEscape(ps[0].1);
      var r := ek + "=" + ev;
      assert EncodePairs(ps)[0] == r;
      if j < |ek| {
        assert r[j] == ek[j];
      } else if j > |ek| {
        assert r[j] == ev[j - |ek| - 1];
      }
    } else {
      EncodePairsAlphabet(ps[1..], i - 1, j);
      assert EncodePairs(ps)[i] == EncodePairs(ps[1..])[i - 1];
    }
  }

  /** One segment of a query read back: the text up to the first '=' is
      the key, the rest the value (none when there is no '='), both
      unescaped. */
  function ParseSegment(seg: Bytes): (p: Option<Pair>)
  {
    match IndexOf(seg, '=')
    case None =>
      (match Unescape(seg)
       case None => None
       case Some(k) => Some((k, [])))
    case Some(i) =>
      match (Unescape(seg[..i]), Unescape(seg[i + 1..]))
      case (Some(k), Some(v)) => Some((k, v))
      case _ => None
  }

  /** The segments of a query in order, empty segments skipped; None when
      one of them is not validly escaped. */
  function ParseSegments(segs: seq<Bytes>): (ps: Option<seq<Pair>>)
  {
    if segs == [] then Some([])
    else
      match ParseSegments(segs[1..])
      case None => None
      case Some(rest) =>
        if segs[0] == [] then Some(rest)
        else
          match ParseSegment(segs[0])
          case None => None
          case Some(p) => Some([p] + rest)
  }

  /** url.ParseQuery, keeping the pairs in the order they are written. */
  function ParseQuery(s: Bytes): (ps: Option<seq<Pair>>)
  {
    ParseSegments(Split(s, '&'))
  }

  /** A non-empty segment without '&' in front of a query adds its pair in
      front of the query's pairs. */
  lemma ParseQueryCons(seg: Bytes, q: Bytes, p: Pair, ps: seq<Pair>)
    requires seg != [] && '&' !in seg
    requires ParseSegment(seg) == Some(p) && ParseQuery(q) == Some(ps)
    ensures ParseQuery(seg + ['&'] + q) == Some([p] + ps)
  {
    SplitAtFirst(seg, '&', q);
    ParseSegmentsCons(seg, Split(q, '&'), p, ps);
  }

  /** `k=e&q`, for a key and an escaped value without '&', reads back as
      the key and the decoded value followed by the pairs of `q`. */
  lemma ParseKeyedQuery(k: Bytes, e: Bytes, q: Bytes, v: Bytes, ps: seq<Pair>)
    requires '=' !in k && '&' !in k && Unescape(k) == Some(k)
    requires '&' !in e && Unescape(e) == Some(v)
    requires ParseQuery(q) == Some(ps)
    ensures ParseQuery(k + ['='] + e + ['&'] + q) == Some([(k, v)] + ps)
  {
    var seg := k + ['='] + e;
    assert '&' !in seg;
    ParseKeyValue(k, e, v);
    ParseQueryCons(seg, q, (k, v), ps);
  }

  /** A non-empty segment in front of others adds its pair in front. */
  lemma ParseSegmentsCons(seg: Bytes, segs: seq<Bytes>, p: Pair, ps: seq<Pair>)
    requires seg != [] && ParseSegment(seg) == Some(p) && ParseSegments(segs) == Some(ps)
    ensures ParseSegments([seg] + segs) == Some([p] + ps)
  {
    assert ([seg] + segs)[1..] == segs;
  }

  /** Last pair for a key wins when pairs are folded into a map from the
      back, so the first pair for a key wins here, as Values.Get reads it. */
  function ToMap(ps: seq<Pair>): (m: map<Bytes, Bytes>)
    ensures forall k :: k in m <==> k in KeysOf(ps)
  {
    if ps == [] then map[]
    else
      assert KeysOf(ps) == [ps[0].0] + KeysOf(ps[1..]);
      ToMap(ps[1..])[ps[0].0 := ps[0].1]
  }

  /** A pair in front is written over the map of the pairs after it. */
  lemma ToMapCons(p: Pair, ps: seq<Pair>)
    ensures ToMap([p] + ps) == ToMap(ps)[p.0 := p.1]
  {
    assert ([p] + ps)[1..] == ps;
  }

  /** A key without '=' that unescapes to itself, '=' and a validly
      escaped value read back as that key and the decoded value. */
  lemma ParseKeyValue(k: Bytes, e: Bytes, v: Bytes)
    requires '=' !in k && Unescape(k) == Some(k)
    requires Unescape(e) == Some(v)
    ensures ParseSegment(k + ['='] + e) == Some((k, v))
  {
    var seg := k + ['='] + e;
    IndexOfAfterFreePrefix(k, '=', e);
    assert seg[..|k|] == k && seg[|k| + 1..] == e;
  }

  /** A segment produced by EncodePair reads back as its pair. */
  lemma ParseEncodedPair(p: Pair)
    ensures EncodePair(p) != []
    ensures ParseSegment(EncodePair(p)) == Some(p)
  {
    var ek, ev := QueryEscape(p.0), QueryEscape(p.1);
    assert forall i | 0 <= i < |ek| :: ek[i] != '=';
    var seg := ek + ['='] + ev;
    assert EncodePair(p) == seg;
    IndexOfAfterFreePrefix(ek, '=', ev);
    assert seg[..|ek|] == ek;
    assert seg[|ek| + 1..] == ev;
    QueryEscapeRoundTrip(p.0);
    QueryEscapeRoundTrip(p.1);
  }

  lemma {:induction false} ParseEncodedPairs(ps: seq<Pair>)
    ensures ParseSegments(EncodePairs(ps)) == Some(ps)
    decreases |ps|
  {
    if ps != [] {
      ParseEncodedPairs(ps[1..]);
      ParseEncodedPair(ps[0]);
      ParseSegmentsCons(EncodePair(ps[0]), EncodePairs(ps[1..]), ps[0], ps[1..]);
      assert ps == [ps[0]] + ps[1..];
    }
  }

  /** Reading the canonical query string back gives every entry of the map,
      once each, in ascending key order. */
  lemma EncodeParse(m: map<Bytes, Bytes>)
    ensures ParseQuery(EncodeEntries(m)) == Some(Pairs(m))
  {
    var items := EncodePairs(Pairs(m));
    ParseEncodedPairs(Pairs(m));
    if items == [] {
      assert EncodeEntries(m) == [];
      assert IndexOf([], '&') == None;
    } else {
      SplitJoin(items, '&');
    }
  }

  /** Pairs that agree with a map give back that map on their own keys. */
  lemma {:induction false} ToMapAgrees(ps: seq<Pair>, m: map<Bytes, Bytes>)
    requires forall i | 0 <= i < |ps| :: ps[i].0 in m && ps[i].1 == m[ps[i].0]
    ensures forall k | k in ToMap(ps) :: k in m && ToMap(ps)[k] == m[k]
    decreases |ps|
  {
    if ps != [] {
      ToMapAgrees(ps[1..], m);
      assert forall i | 0 <= i < |ps[1..]| :: ps[1..][i] == ps[i + 1];
    }
  }

  /** Folding the sorted pairs back into a map gives the map. */
  lemma ToMapPairs(m: map<Bytes, Bytes>)
    ensures ToMap(Pairs(m)) == m
  {
    ToMapAgrees(Pairs(m), m);
  }

  /** The canonical query string determines the map it was made from. */
  lemma EncodeInjective(m1: map<Bytes, Bytes>, m2: map<Bytes, Bytes>)
    requires EncodeEntries(m1) == EncodeEntries(m2)
    ensures m1 == m2
  {
    EncodeParse(m1);
    EncodeParse(m2);
    ToMapPairs(m1);
    ToMapPairs(m2);
  }
}
