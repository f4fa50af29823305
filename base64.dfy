/**
 * Base64 with the standard alphabet and '=' padding (section 4 of RFC 4648),
 * as Go's base64.StdEncoding.EncodeToString produces it, and a decoder that
 * undoes it.
 */
module Base64 {
  import opened Wrappers
  import opened ByteStrings

  /** The 64 symbols of the alphabet of section 4 of RFC 4648. */
  predicate IsSymbol(c: Byte)
  {
    'A' <= c <= 'Z' || 'a' <= c <= 'z' || '0' <= c <= '9' || c == '+' || c == '/'
  }

  /** The symbol for a 6-bit value. */
  function Symbol(v: int): (c: Byte)
    requires 0 <= v < 64
    ensures IsSymbol(c)
  {
    if v < 26 then ('A' as int + v) as char
    else if v < 52 then ('a' as int + v - 26) as char
    else if v < 62 then ('0' as int + v - 52) as char
    else if v == 62 then '+'
    else '/'
  }

  /** The 6-bit value of a symbol. */
  function SymbolValue(c: Byte): (v: int)
    requires IsSymbol(c)
    ensures 0 <= v < 64 && Symbol(v) == c
  {
    if 'A' <= c <= 'Z' then c as int - 'A' as int
    else if 'a' <= c <= 'z' then c as int - 'a' as int + 26
    else if '0' <= c <= '9' then c as int - '0' as int + 52
    else if c == '+' then 62
    else 63
  }

  lemma SymbolValueOfSymbol(v: int)
    requires 0 <= v < 64
    ensures SymbolValue(Symbol(v)) == v
  {
  }

  /** Three bytes as four symbols, six bits each, most significant first. */
  function EncodeGroup(b0: Byte, b1: Byte, b2: Byte): (r: Bytes)
    ensures |r| == 4 && forall i | 0 <= i < 4 :: IsSymbol(r[i])
  {
    var x0, x1, x2 := b0 as int, b1 as int, b2 as int;
    [Symbol(x0 / 4), Symbol(x0 % 4 * 16 + x1 / 16), Symbol(x1 % 16 * 4 + x2 / 64), Symbol(x2 % 64)]
  }

  /** One byte left over: two symbols and "==". */
  function EncodeOneLeft(b0: Byte): (r: Bytes)
    ensures |r| == 4 && IsSymbol(r[0]) && IsSymbol(r[1]) && r[2] == '=' && r[3] == '='
  {
    var x0 := b0 as int;
    [Symbol(x0 / 4), Symbol(x0 % 4 * 16), '=', '=']
  }

  /** Two bytes left over: three symbols and "=". */
  function EncodeTwoLeft(b0: Byte, b1: Byte): (r: Bytes)
    ensures |r| == 4 && IsSymbol(r[0]) && IsSymbol(r[1]) && IsSymbol(r[2]) && r[3] == '='
  {
    var x0, x1 := b0 as int, b1 as int;
    [Symbol(x0 / 4), Symbol(x0 % 4 * 16 + x1 / 16), Symbol(x1 % 16 * 4), '=']
  }

  /** base64.StdEncoding.EncodeToString: whole groups of three bytes first,
      then one or two bytes left over are padded with "==" or "=". The
      output is four symbols for every three bytes begun, all from the
      alphabet except the padding at the very end. */
  function Encode(src: Bytes): (r: Bytes)
    ensures |r| == 0 <==> |src| == 0
    decreases |src|
  {
    if |src| == 0 then []
    else if |src| == 1 then EncodeOneLeft(src[0])
    else if |src| == 2 then EncodeTwoLeft(src[0], src[1])
    else
      EncodeGroup(src[0], src[1], src[2]) + Encode(src[3..])
  }

  /** Four symbols for every three bytes begun. */
  lemma {:induction false} EncodeLength(src: Bytes)
    ensures |Encode(src)| == (|src| + 2) / 3 * 4
    decreases |src|
  {
    if |src| >= 3 {
      EncodeLength(src[3..]);
      assert |Encode(src)| == 4 + |Encode(src[3..])|;
      GroupsBegun(|src|);
    }
  }

  /** Three more bytes begin one more group. */
  lemma GroupsBegun(n: int)
    requires n >= 3
    ensures (n + 2) / 3 * 4 == (n - 3 + 2) / 3 * 4 + 4
  {
    assert (n + 2) / 3 == (n - 3 + 2) / 3 + 1;
  }

  /** Every output byte is from the alphabet except the padding, which is
      only ever in the last two places. */
  lemma {:induction false} EncodeAlphabet(src: Bytes)
    ensures forall i | 0 <= i < |Encode(src)| ::
      IsSymbol(Encode(src)[i]) || (Encode(src)[i] == '=' && i >= |Encode(src)| - 2)
    decreases |src|
  {
    if |src| >= 3 {
      EncodeAlphabet(src[3..]);
      var g, rest := EncodeGroup(src[0], src[1], src[2]), Encode(src[3..]);
      var r := g + rest;
      assert Encode(src) == r;
      forall i | 0 <= i < |r|
        ensures IsSymbol(r[i]) || (r[i] == '=' && i >= |r| - 2)
      {
        if i < 4 {
          assert r[i] == g[i];
        } else {
          assert r[i] == rest[i - 4];
          assert IsSymbol(rest[i - 4]) || (rest[i - 4] == '=' && i - 4 >= |rest| - 2);
        }
      }
    }
  }

  /** The padding: none when the input length is a multiple of three, "=="
      after one byte left over, a symbol then "=" after two. */
  lemma {:induction false} EncodePadding(src: Bytes)
    ensures |src| % 3 == 0 ==> '=' !in Encode(src)
    ensures |src| % 3 == 1 ==> Encode(src)[|Encode(src)| - 2..] == "=="
    ensures |src| % 3 == 2 ==> Encode(src)[|Encode(src)| - 2] != '=' && Encode(src)[|Encode(src)| - 1] == '='
    decreases |src|
  {
    if |src| >= 3 {
      EncodePadding(src[3..]);
      SameResidue(|src|);
      if |src| % 3 == 0 {
        var g := EncodeGroup(src[0], src[1], src[2]);
        assert Encode(src) == g + Encode(src[3..]);
        assert '=' !in g;
      } else {
        EncodeLastTwo(src);
      }
    }
  }

  lemma SameResidue(n: int)
    requires n >= 3
    ensures (n - 3) % 3 == n % 3
  {
  }

  /** Past the first group the last two bytes are those of the rest. */
  lemma EncodeLastTwo(src: Bytes)
    requires |src| >= 4
    ensures var r, rest := Encode(src), Encode(src[3..]);
      |rest| >= 2 && r[|r| - 2..] == rest[|rest| - 2..] &&
      r[|r| - 2] == rest[|rest| - 2] && r[|r| - 1] == rest[|rest| - 1]
  {
    var rest := Encode(src[3..]);
    EncodeLength(src[3..]);
    assert |rest| >= 4;
    var r := EncodeGroup(src[0], src[1], src[2]) + rest;
    assert Encode(src) == r;
    assert r[|r| - 2..] == rest[|rest| - 2..];
  }

  /** Four symbols back to three bytes. */
  function DecodeGroup(c0: Byte, c1: Byte, c2: Byte, c3: Byte): (r: Option<Bytes>)
    ensures r.Some? ==> |r.value| == 3
  {
    if IsSymbol(c0) && IsSymbol(c1) && IsSymbol(c2) && IsSymbol(c3) then
      var v0, v1, v2, v3 := SymbolValue(c0), SymbolValue(c1), SymbolValue(c2), SymbolValue(c3);
      Some([(v0 * 4 + v1 / 16) as char, (v1 % 16 * 16 + v2 / 4) as char, (v2 % 4 * 64 + v3) as char])
    else None
  }

  /** The last four symbols, which may end in padding. */
  function DecodeLastGroup(c0: Byte, c1: Byte, c2: Byte, c3: Byte): (r: Option<Bytes>)
  {
    if c3 != '=' then DecodeGroup(c0, c1, c2, c3)
    else if c2 == '=' then
      if IsSymbol(c0) && IsSymbol(c1) then
        Some([(SymbolValue(c0) * 4 + SymbolValue(c1) / 16) as char])
      else None
    else if IsSymbol(c0) && IsSymbol(c1) && IsSymbol(c2) then
      var v0, v1, v2 := SymbolValue(c0), SymbolValue(c1), SymbolValue(c2);
      Some([(v0 * 4 + v1 / 16) as char, (v1 % 16 * 16 + v2 / 4) as char])
    else None
  }

  /** Decoding of padded standard base64; None for text that is not. */
  function Decode(t: Bytes): (r: Option<Bytes>)
    decreases |t|
  {
    if |t| == 0 then Some([])
    else if |t| < 4 then None
    else if |t| == 4 then DecodeLastGroup(t[0], t[1], t[2], t[3])
    else
      match DecodeGroup(t[0], t[1], t[2], t[3])
      case None => None
      case Some(g) =>
        match Decode(t[4..])
        case None => None
        case Some(rest) => Some(g + rest)
  }

  /** The bit arithmetic of one group is undone by the decoder's. */
  lemma GroupArithmetic(x0: int, x1: int, x2: int)
    requires 0 <= x0 < 256 && 0 <= x1 < 256 && 0 <= x2 < 256
    ensures x0 / 4 * 4 + (x0 % 4 * 16 + x1 / 16) / 16 == x0
    ensures (x0 % 4 * 16 + x1 / 16) % 16 * 16 + (x1 % 16 * 4 + x2 / 64) / 4 == x1
    ensures (x1 % 16 * 4 + x2 / 64) % 4 * 64 + x2 % 64 == x2
  {
    var q1 := x1 / 16;
    assert 0 <= q1 < 16;
    assert (x0 % 4 * 16 + q1) / 16 == x0 % 4;
    assert (x0 % 4 * 16 + q1) % 16 == q1;
    var q2 := x2 / 64;
    assert 0 <= q2 < 4;
    assert (x1 % 16 * 4 + q2) / 4 == x1 % 16;
    assert (x1 % 16 * 4 + q2) % 4 == q2;
  }

  lemma DecodeEncodeGroup(b0: Byte, b1: Byte, b2: Byte)
    ensures var g := EncodeGroup(b0, b1, b2); DecodeGroup(g[0], g[1], g[2], g[3]) == Some([b0, b1, b2])
  {
    var x0, x1, x2 := b0 as int, b1 as int, b2 as int;
    var v0, v1, v2, v3 := x0 / 4, x0 % 4 * 16 + x1 / 16, x1 % 16 * 4 + x2 / 64, x2 % 64;
    GroupArithmetic(x0, x1, x2);
    var g := EncodeGroup(b0, b1, b2);
    assert g[0] == Symbol(v0) && g[1] == Symbol(v1) && g[2] == Symbol(v2) && g[3] == Symbol(v3);
    DecodeSymbols(v0, v1, v2, v3, b0, b1, b2);
  }

  /** Four symbols decode to the bytes their values spell. */
  lemma DecodeSymbols(v0: int, v1: int, v2: int, v3: int, b0: Byte, b1: Byte, b2: Byte)
    requires 0 <= v0 < 64 && 0 <= v1 < 64 && 0 <= v2 < 64 && 0 <= v3 < 64
    requires v0 * 4 + v1 / 16 == b0 as int
    requires v1 % 16 * 16 + v2 / 4 == b1 as int
    requires v2 % 4 * 64 + v3 == b2 as int
    ensures DecodeGroup(Symbol(v0), Symbol(v1), Symbol(v2), Symbol(v3)) == Some([b0, b1, b2])
  {
    SymbolValueOfSymbol(v0);
    SymbolValueOfSymbol(v1);
    SymbolValueOfSymbol(v2);
    SymbolValueOfSymbol(v3);
  }

  lemma DecodeLastOne(b0: Byte)
    ensures var g := EncodeOneLeft(b0); DecodeLastGroup(g[0], g[1], g[2], g[3]) == Some([b0])
  {
    var x0 := b0 as int;
    var g := EncodeOneLeft(b0);
    assert g[0] == Symbol(x0 / 4) && g[1] == Symbol(x0 % 4 * 16);
    SymbolValueOfSymbol(x0 / 4);
    SymbolValueOfSymbol(x0 % 4 * 16);
  }

  lemma DecodeLastTwo(b0: Byte, b1: Byte)
    ensures var g := EncodeTwoLeft(b0, b1); DecodeLastGroup(g[0], g[1], g[2], g[3]) == Some([b0, b1])
  {
    var x0, x1 := b0 as int, b1 as int;
    var g := EncodeTwoLeft(b0, b1);
    assert g[0] == Symbol(x0 / 4) && g[1] == Symbol(x0 % 4 * 16 + x1 / 16) && g[2] == Symbol(x1 % 16 * 4);
    SymbolValueOfSymbol(x0 / 4);
    SymbolValueOfSymbol(x0 % 4 * 16 + x1 / 16);
    SymbolValueOfSymbol(x1 % 16 * 4);
    GroupArithmetic(x0, x1, 0);
  }

  lemma DecodeEncodeOne(src: Bytes)
    requires |src| == 1
    ensures Decode(Encode(src)) == Some(src)
  {
    assert src == [src[0]];
    DecodeFour(EncodeOneLeft(src[0]));
    DecodeLastOne(src[0]);
  }

  lemma DecodeEncodeTwo(src: Bytes)
    requires |src| == 2
    ensures Decode(Encode(src)) == Some(src)
  {
    assert src == [src[0], src[1]];
    DecodeFour(EncodeTwoLeft(src[0], src[1]));
    DecodeLastTwo(src[0], src[1]);
  }

  /** Four bytes of text are the last group. */
  lemma DecodeFour(e: Bytes)
    requires |e| == 4
    ensures Decode(e) == DecodeLastGroup(e[0], e[1], e[2], e[3])
  {
  }

  /** A group of four symbols in front of more text decodes on its own. */
  lemma DecodeGroupThenRest(g: Bytes, t: Bytes, a: Bytes, b: Bytes)
    requires |g| == 4 && |t| > 0
    requires DecodeGroup(g[0], g[1], g[2], g[3]) == Some(a) && Decode(t) == Some(b)
    ensures Decode(g + t) == Some(a + b)
  {
    var r := g + t;
    assert r[0] == g[0] && r[1] == g[1] && r[2] == g[2] && r[3] == g[3];
    assert r[4..] == t;
  }

  lemma DecodeEncodeMore(src: Bytes)
    requires |src| >= 3
    requires Decode(Encode(src[3..])) == Some(src[3..])
    ensures Decode(Encode(src)) == Some(src)
  {
    var g := EncodeGroup(src[0], src[1], src[2]);
    var rest := Encode(src[3..]);
    assert Encode(src) == g + rest;
    DecodeEncodeGroup(src[0], src[1], src[2]);
    FirstThree(src);
    if |src| == 3 {
      DecodeLastFullGroup(g, [src[0], src[1], src[2]]);
      assert src[3..] == [] && rest == [];
      assert g + rest == g;
      assert src == [src[0], src[1], src[2]];
    } else {
      DecodeGroupThenRest(g, rest, [src[0], src[1], src[2]], src[3..]);
    }
  }

  lemma FirstThree(s: Bytes)
    requires |s| >= 3
    ensures s == [s[0], s[1], s[2]] + s[3..]
  {
  }

  lemma DecodeLastFullGroup(g: Bytes, a: Bytes)
    requires |g| == 4 && DecodeGroup(g[0], g[1], g[2], g[3]) == Some(a)
    ensures Decode(g) == Some(a)
  {
  }

  /** Decoding undoes encoding. */
  lemma {:induction false} DecodeEncode(src: Bytes)
    ensures Decode(Encode(src)) == Some(src)
    decreases |src|
  {
    if |src| == 1 {
      DecodeEncodeOne(src);
    } else if |src| == 2 {
      DecodeEncodeTwo(src);
    } else if |src| >= 3 {
      DecodeEncode(src[3..]);
      DecodeEncodeMore(src);
    }
  }
}
