/**
 * Percent-encoding: Go's url.QueryEscape (a library routine, modelled by
 * its documented behaviour), the client's SpecialURLEncode built on it, the
 * strict encoding of section 2 of RFC 3986 that SpecialURLEncode is meant to
 * produce, and the decoder that undoes both.
 */
module UrlEscape {
  import opened Wrappers
  import opened ByteStrings

  predicate IsAlnum(b: Byte)
  {
    'a' <= b <= 'z' || 'A' <= b <= 'Z' || '0' <= b <= '9'
  }

  /** The unreserved characters of section 2.3 of RFC 3986. */
  predicate IsUnreserved(b: Byte)
  {
    IsAlnum(b) || b == '-' || b == '_' || b == '.' || b == '~'
  }

  predicate IsHexDigit(c: Byte)
  {
    '0' <= c <= '9' || 'A' <= c <= 'F' || 'a' <= c <= 'f'
  }

  /** The value of a hexadecimal digit of either case. */
  function HexValue(c: Byte): (v: int)
    requires IsHexDigit(c)
    ensures 0 <= v < 16
  {
    if '0' <= c <= '9' then c as int - '0' as int
    else if 'A' <= c <= 'F' then c as int - 'A' as int + 10
    else c as int - 'a' as int + 10
  }

  /** The upper-case hexadecimal digit for `d`. */
  function HexDigit(d: int): (c: Byte)
    requires 0 <= d < 16
    ensures IsAlnum(c) && IsHexDigit(c) && HexValue(c) == d
  {
    if d < 10 then ('0' as int + d) as char else ('A' as int + d - 10) as char
  }

  /** The escape `%XX` of a byte (section 2.1 of RFC 3986), with upper-case
      digits that give back the byte. */
  function PercentTriple(b: Byte): (r: Bytes)
    ensures |r| == 3 && r[0] == '%' && IsAlnum(r[1]) && IsAlnum(r[2])
    ensures IsHexDigit(r[1]) && IsHexDigit(r[2])
    ensures HexValue(r[1]) * 16 + HexValue(r[2]) == b as int
  {
    ['%', HexDigit(b as int / 16), HexDigit(b as int % 16)]
  }

  /** The patterns and replacements of SpecialURLEncode's rewrites. */
  const Plus: Bytes := "+"
  const EncodedSpace: Bytes := "%20"
  const Star: Bytes := "*"
  const EncodedStar: Bytes := "%2A"
  const EncodedTilde: Bytes := "%7E"
  const Tilde: Bytes := "~"
  const RootPath: Bytes := "/"
  const EncodedRootPath: Bytes := "%2F"

  lemma EscapedSpace()
    ensures PercentTriple(' ') == EncodedSpace
  {
  }

  /** url.QueryEscape on one byte: unreserved bytes pass, a space becomes
      '+', every other byte becomes `%XX`. */
  function QueryEscapeByte(b: Byte): (r: Bytes)
  {
    if IsUnreserved(b) then [b] else if b == ' ' then Plus else PercentTriple(b)
  }

  /** url.QueryEscape, byte by byte. Its output holds only unreserved bytes,
      '%' and '+', so in particular no '&' and no '='. */
  function QueryEscape(s: Bytes): (r: Bytes)
    ensures |r| >= |s|
    ensures forall i | 0 <= i < |r| :: IsUnreserved(r[i]) || r[i] == '%' || r[i] == '+'
    decreases |s|
  {
    if s == [] then [] else QueryEscapeByte(s[0]) + QueryEscape(s[1..])
  }

  /** The strict encoding of one byte: unreserved bytes pass, every other
      byte, space included, becomes `%XX`. */
  function StrictEscapeByte(b: Byte): (r: Bytes)
  {
    if IsUnreserved(b) then [b] else PercentTriple(b)
  }

  /** The strict percent-encoding of section 2 of RFC 3986. Its output holds
      only unreserved bytes and '%'. */
  function StrictEscape(s: Bytes): (r: Bytes)
    ensures |r| >= |s|
    ensures forall i | 0 <= i < |r| :: IsUnreserved(r[i]) || r[i] == '%'
    decreases |s|
  {
    if s == [] then [] else StrictEscapeByte(s[0]) + StrictEscape(s[1..])
  }

  function Prepend(b: Byte, r: Option<Bytes>): (p: Option<Bytes>)
    ensures p.Some? <==> r.Some?
  {
    match r
    case None => None
    case Some(t) => Some([b] + t)
  }

  /** Percent-decoding as url.QueryUnescape does it: `%XX` with hexadecimal
      digits of either case gives that byte, '+' gives a space, every other
      byte stands for itself; a '%' without two hexadecimal digits after it
      is an error. */
  function Unescape(s: Bytes): (r: Option<Bytes>)
    ensures r.Some? ==> |r.value| <= |s|
    decreases |s|
  {
    if s == [] then Some([])
    else if s[0] == '%' then
      if |s| >= 3 && IsHexDigit(s[1]) && IsHexDigit(s[2]) then
        Prepend((HexValue(s[1]) * 16 + HexValue(s[2])) as char, Unescape(s[3..]))
      else None
    else Prepend(if s[0] == '+' then ' ' else s[0], Unescape(s[1..]))
  }

  /** Decoding one escaped byte in front of the rest. */
  lemma UnescapeChunk(b: Byte, t: Bytes)
    ensures Unescape(QueryEscapeByte(b) + t) == Prepend(b, Unescape(t))
    ensures Unescape(StrictEscapeByte(b) + t) == Prepend(b, Unescape(t))
  {
    var p := PercentTriple(b);
    assert (p + t)[0] == '%' && (p + t)[1] == p[1] && (p + t)[2] == p[2];
    assert (p + t)[3..] == t;
    assert ([b] + t)[0] == b && ([b] + t)[1..] == t;
    var plus: Bytes := Plus;
    assert (plus + t)[0] == '+' && (plus + t)[1..] == t;
  }

  /** Unreserved text holds neither of the query delimiters '=' and '&'. */
  lemma UnreservedNoDelimiters(s: Bytes)
    requires forall i | 0 <= i < |s| :: IsUnreserved(s[i])
    ensures '=' !in s && '&' !in s
  {
    forall i | 0 <= i < |s|
      ensures s[i] != '=' && s[i] != '&'
    {
      assert IsUnreserved(s[i]);
    }
  }

  /** Text made only of unreserved bytes decodes to itself. */
  lemma {:induction false} UnescapeUnreserved(s: Bytes)
    requires forall i | 0 <= i < |s| :: IsUnreserved(s[i])
    ensures Unescape(s) == Some(s)
    decreases |s|
  {
    if s != [] {
      UnescapeUnreserved(s[1..]);
      assert s == [s[0]] + s[1..];
    }
  }

  /** Decoding undoes url.QueryEscape. */
  lemma {:induction false} QueryEscapeRoundTrip(s: Bytes)
    ensures Unescape(QueryEscape(s)) == Some(s)
    decreases |s|
  {
    if s != [] {
      UnescapeChunk(s[0], QueryEscape(s[1..]));
      QueryEscapeRoundTrip(s[1..]);
      assert s == [s[0]] + s[1..];
    }
  }

  /** Decoding undoes the strict encoding. */
  lemma {:induction false} StrictEscapeRoundTrip(s: Bytes)
    ensures Unescape(StrictEscape(s)) == Some(s)
    decreases |s|
  {
    if s != [] {
      UnescapeChunk(s[0], StrictEscape(s[1..]));
      StrictEscapeRoundTrip(s[1..]);
      assert s == [s[0]] + s[1..];
    }
  }

  /** The strict encoding works byte by byte. */
  lemma {:induction false} StrictEscapeAppend(a: Bytes, b: Bytes)
    ensures StrictEscape(a + b) == StrictEscape(a) + StrictEscape(b)
    decreases |a|
  {
    if a == [] {
      assert a + b == b;
    } else {
      assert (a + b)[0] == a[0];
      assert (a + b)[1..] == a[1..] + b;
      StrictEscapeAppend(a[1..], b);
    }
  }

  /** The first rewrite, "+" to "%20", turns url.QueryEscape into the strict
      encoding: the only '+' in its output stands for a space. */
  lemma {:induction false} PlusRewrite(s: Bytes)
    ensures ReplaceAll(QueryEscape(s), Plus, EncodedSpace) == StrictEscape(s)
    decreases |s|
  {
    if s != [] {
      var t := QueryEscape(s[1..]);
      PlusRewrite(s[1..]);
      if s[0] == ' ' {
        ReplaceAtFront(t, Plus, EncodedSpace);
        EscapedSpace();
      } else {
        var c := QueryEscapeByte(s[0]);
        assert c == StrictEscapeByte(s[0]);
        assert '+' !in c;
        ReplaceAfterFreePrefix(c, t, Plus, EncodedSpace);
      }
    }
  }

  /** The third rewrite, "%7E" to "~", finds nothing in the strict encoding,
      because '~' is unreserved and never escaped. */
  lemma {:induction false} TildeRewrite(s: Bytes)
    ensures ReplaceAll(StrictEscape(s), EncodedTilde, Tilde) == StrictEscape(s)
    decreases |s|
  {
    if s != [] {
      var c := StrictEscapeByte(s[0]);
      var t := StrictEscape(s[1..]);
      TildeRewrite(s[1..]);
      if IsUnreserved(s[0]) {
        ReplaceAfterFreePrefix(c, t, EncodedTilde, Tilde);
      } else {
        var u := c + t;
        assert u[..3] == c;
        assert c != EncodedTilde;
        ReplaceAfterFreePrefix(c[1..], t, EncodedTilde, Tilde);
        assert u[0] == '%' && u[1..] == c[1..] + t;
        assert c == [c[0]] + c[1..];
      }
    }
  }

  /** Every '%' begins an escape whose two digits are not "7E". */
  ghost predicate NoTildeEscapes(r: Bytes)
  {
    forall i | 0 <= i < |r| && r[i] == '%' :: i + 2 < |r| && !(r[i + 1] == '7' && r[i + 2] == 'E')
  }

  lemma NoTildeEscapesAppend(c: Bytes, t: Bytes)
    requires NoTildeEscapes(c) && NoTildeEscapes(t)
    ensures NoTildeEscapes(c + t)
  {
    var r := c + t;
    forall i | 0 <= i < |r| && r[i] == '%'
      ensures i + 2 < |r| && !(r[i + 1] == '7' && r[i + 2] == 'E')
    {
      if i < |c| {
        assert c[i] == '%';
      } else {
        assert t[i - |c|] == '%';
      }
    }
  }

  lemma {:induction false} StrictEscapeNoTildeEscapes(s: Bytes)
    ensures NoTildeEscapes(StrictEscape(s))
    decreases |s|
  {
    if s != [] {
      var c := StrictEscapeByte(s[0]);
      StrictEscapeNoTildeEscapes(s[1..]);
      assert NoTildeEscapes(c);
      NoTildeEscapesAppend(c, StrictEscape(s[1..]));
    }
  }

  lemma TildeEscapeAt(r: Bytes, i: int)
    requires OccursAt(r, EncodedTilde, i)
    ensures r[i] == '%' && r[i + 1] == '7' && r[i + 2] == 'E'
  {
    var w := r[i..i + 3];
    assert w[0] == r[i] && w[1] == r[i + 1] && w[2] == r[i + 2];
  }

  /** No "%7E" appears in the strict encoding. */
  lemma NoEscapedTilde(s: Bytes)
    ensures !Contains(StrictEscape(s), EncodedTilde)
  {
    var r := StrictEscape(s);
    StrictEscapeNoTildeEscapes(s);
    forall i | OccursAt(r, EncodedTilde, i)
      ensures false
    {
      TildeEscapeAt(r, i);
    }
  }

  /** The three rewrites of SpecialURLEncode, applied to the output of
      url.QueryEscape, give the strict encoding. */
  lemma RewritesGiveStrict(str: Bytes)
    ensures ReplaceAll(ReplaceAll(ReplaceAll(QueryEscape(str), Plus, EncodedSpace), Star, EncodedStar), EncodedTilde, Tilde)
            == StrictEscape(str)
  {
    PlusRewrite(str);
    StrictEscapeNoPlusStar(str);
    TildeRewrite(str);
  }

  /** The strict encoding holds no '+' and no '*'. */
  lemma StrictEscapeNoPlusStar(s: Bytes)
    ensures '+' !in StrictEscape(s) && '*' !in StrictEscape(s)
  {
    var r := StrictEscape(s);
    assert forall i | 0 <= i < |r| :: r[i] != '+' && r[i] != '*';
  }

  /** SpecialURLEncode: url.QueryEscape followed by the rewrites "+" to
      "%20", "*" to "%2A" and "%7E" to "~". The result is exactly the strict
      encoding: no '+', no '*', no "%7E", and decoding gives the input back. */
  function SpecialURLEncode(str: Bytes): (r: Bytes)
    ensures r == StrictEscape(str)
  {
    RewritesGiveStrict(str);
    var encoded := QueryEscape(str);
    var encoded1 := ReplaceAll(encoded, Plus, EncodedSpace);
    var encoded2 := ReplaceAll(encoded1, Star, EncodedStar);
    ReplaceAll(encoded2, EncodedTilde, Tilde)
  }

  /** SpecialURLEncode maps each byte on its own: the encoding of a
      concatenation is the concatenation of the encodings. */
  lemma SpecialURLEncodeAppend(a: Bytes, b: Bytes)
    ensures SpecialURLEncode(a + b) == SpecialURLEncode(a) + SpecialURLEncode(b)
  {
    StrictEscapeAppend(a, b);
  }

  /** How SpecialURLEncode maps one byte: a space to "%20", an unreserved
      byte to itself, every other byte to an upper-case `%XX`. */
  lemma SpecialURLEncodeByte(b: Byte)
    ensures b == ' ' ==> SpecialURLEncode([b]) == EncodedSpace
    ensures IsUnreserved(b) ==> SpecialURLEncode([b]) == [b]
    ensures !IsUnreserved(b) ==> SpecialURLEncode([b]) == PercentTriple(b)
  {
    assert [b][1..] == [];
    assert StrictEscape([b]) == StrictEscapeByte(b) + StrictEscape([]);
    assert StrictEscapeByte(b) + [] == StrictEscapeByte(b);
    EscapedSpace();
  }

  /** The escaped root path: url.QueryEscape("/") is "%2F". */
  lemma EscapedRootPath()
    ensures QueryEscape(RootPath) == EncodedRootPath
  {
    assert RootPath[1..] == [];
    assert PercentTriple('/') == EncodedRootPath;
  }

  lemma StrictEscapeCons(b: Byte, s: Bytes)
    ensures StrictEscape([b] + s) == StrictEscapeByte(b) + StrictEscape(s)
  {
    assert ([b] + s)[0] == b && ([b] + s)[1..] == s;
  }

  /** The escape of '%' itself. */
  lemma EscapedPercent()
    ensures PercentTriple('%') == "%25"
  {
  }

  /** Encoding is not idempotent: a '%' already in the text is escaped
      again, as "%25", so escaped text is escaped a second time. */
  lemma SpecialURLEncodeEscapesPercent(s: Bytes)
    ensures SpecialURLEncode(['%'] + s) == "%25" + SpecialURLEncode(s)
  {
    StrictEscapeCons('%', s);
    EscapedPercent();
  }

  /** An escape `%XY` already in the text is escaped again as `%25XY`:
      the escaped space "%20", for instance, becomes "%2520". */
  lemma SpecialURLEncodeEncodesAgain(x: Byte, y: Byte)
    requires IsHexDigit(x) && IsHexDigit(y)
    ensures SpecialURLEncode(['%', x, y]) == ['%', '2', '5', x, y]
  {
    var digits := [x, y];
    assert IsUnreserved(x) && IsUnreserved(y);
    SpecialURLEncodeEscapesPercent(digits);
    UnreservedUnchanged(digits);
    assert ['%', x, y] == ['%'] + digits;
  }

  /** Unreserved text is its own encoding. */
  lemma {:induction false} UnreservedUnchanged(s: Bytes)
    requires forall i | 0 <= i < |s| :: IsUnreserved(s[i])
    ensures StrictEscape(s) == s
    decreases |s|
  {
    if s != [] {
      UnreservedUnchanged(s[1..]);
      assert s == [s[0]] + s[1..];
    }
  }

  /** What SpecialURLEncode's output never holds, and that decoding it gives
      the input back. */
  lemma SpecialURLEncodeProperties(str: Bytes)
    ensures '+' !in SpecialURLEncode(str)
    ensures '*' !in SpecialURLEncode(str)
    ensures !Contains(SpecialURLEncode(str), EncodedTilde)
    ensures Unescape(SpecialURLEncode(str)) == Some(str)
  {
    StrictEscapeNoPlusStar(str);
    NoEscapedTilde(str);
    StrictEscapeRoundTrip(str);
  }
}
