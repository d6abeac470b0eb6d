// Base64 as section 4 of RFC 4648 defines it: three octets become four symbols, '=' pads the end.
module Base64 {
  import opened Bytes

  type sextet = x: int | 0 <= x < 64

  predicate IsSymbol(c: char) {
    'A' <= c <= 'Z' || 'a' <= c <= 'z' || '0' <= c <= '9' || c == '+' || c == '/'
  }

  function Symbol(i: sextet): (c: char)
    ensures IsSymbol(c)
  {
    if i < 26 then (i + 65) as char
    else if i < 52 then (i + 71) as char
    else if i < 62 then (i - 4) as char
    else if i == 62 then '+' else '/'
  }

  /** The value of a symbol; characters outside the alphabet read as 0. */
  function Value(c: char): (r: sextet) {
    if 'A' <= c <= 'Z' then c as int - 65
    else if 'a' <= c <= 'z' then c as int - 71
    else if '0' <= c <= '9' then c as int + 4
    else if c == '+' then 62
    else if c == '/' then 63
    else 0
  }

  function Quad(a: byte, b: byte, c: byte): (q: string)
    ensures |q| == 4
  {
    [Symbol(a / 4), Symbol(a % 4 * 16 + b / 16), Symbol(b % 16 * 4 + c / 64), Symbol(c % 64)]
  }

  function Encode(data: seq<byte>): (s: string) {
    if |data| == 0 then ""
    else if |data| == 1 then var q := Quad(data[0], 0, 0); [q[0], q[1], '=', '=']
    else if |data| == 2 then var q := Quad(data[0], data[1], 0); [q[0], q[1], q[2], '=']
    else Quad(data[0], data[1], data[2]) + Encode(data[3..])
  }

  /** Reads symbols four at a time until the input or its padding ends. */
  function Decode(text: string): (data: seq<byte>) {
    if |text| < 4 then [] else
    var v0, v1, v2, v3 := Value(text[0]), Value(text[1]), Value(text[2]), Value(text[3]);
    if text[2] == '=' then [v0 * 4 + v1 / 16]
    else if text[3] == '=' then [v0 * 4 + v1 / 16, v1 % 16 * 16 + v2 / 4]
    else [v0 * 4 + v1 / 16, v1 % 16 * 16 + v2 / 4, v2 % 4 * 64 + v3] + Decode(text[4..])
  }

  /** Table 1 of RFC 4648. */
  lemma SymbolTable(i: sextet)
    ensures Symbol(0) == 'A' && Symbol(26) == 'a' && Symbol(52) == '0' && Symbol(62) == '+' && Symbol(63) == '/'
    ensures 0 < i < 62 && i != 26 && i != 52 ==> Symbol(i) as int == Symbol(i - 1) as int + 1
  {
  }

  /** Test vectors of section 10 of RFC 4648. */
  lemma EncodeVectors()
    ensures Encode([0x66]) == "Zg==" && Encode([0x66, 0x6f]) == "Zm8=" && Encode([0x66, 0x6f, 0x6f]) == "Zm9v"
  {
    assert [0x66, 0x6f, 0x6f][3..] == [];
  }

  lemma SymbolRoundTrip(i: sextet)
    ensures Value(Symbol(i)) == i
  {
  }

  /** Four symbols for every three octets, a partial group counting as a whole one. */
  lemma {:induction false} EncodeLength(data: seq<byte>)
    ensures |Encode(data)| == (|data| + 2) / 3 * 4
  {
    hide *;
    if |data| < 3 {
      ShortLength(data);
    } else {
      EncodeLength(data[3..]);
      EncodeStep(data[..3], data[3..]);
      assert data == data[..3] + data[3..];
    }
  }

  lemma ShortLength(data: seq<byte>)
    requires |data| < 3
    ensures |Encode(data)| == if |data| == 0 then 0 else 4
  {
    hide Quad;
  }

  lemma EncodeStep(head: seq<byte>, rest: seq<byte>)
    requires |head| == 3
    ensures Encode(head + rest) == Quad(head[0], head[1], head[2]) + Encode(rest)
  {
    hide Quad;
    assert (head + rest)[3..] == rest;
  }

  lemma CodecEmpty()
    ensures Encode([]) == "" && Decode("") == []
  {
  }

  /** Pieces whose length is a multiple of three encode independently. */
  lemma {:induction false} EncodeConcat(a: seq<byte>, b: seq<byte>)
    requires |a| % 3 == 0
    ensures Encode(a + b) == Encode(a) + Encode(b)
  {
    hide *;
    if |a| == 0 {
      CodecEmpty();
      assert a == [] && a + b == b;
    } else {
      var head, tail := a[..3], a[3..];
      EncodeConcat(tail, b);
      EncodeStep(head, tail);
      EncodeStep(head, tail + b);
      assert a == head + tail && a + b == head + (tail + b);
    }
  }

  /** Padding stands only in the last two places, and nothing else leaves the alphabet. */
  lemma {:induction false} EncodeAlphabet(data: seq<byte>, k: nat)
    requires k < |Encode(data)|
    ensures IsSymbol(Encode(data)[k]) || (Encode(data)[k] == '=' && k + 2 >= |Encode(data)| && |data| % 3 != 0)
  {
    if |data| >= 3 {
      hide Encode, Symbol;
      var head, tail := data[..3], data[3..];
      EncodeStep(head, tail);
      assert data == head + tail;
      if k >= 4 {
        EncodeAlphabet(tail, k - 4);
      }
    }
  }

  lemma QuadRoundTrip(a: byte, b: byte, c: byte)
    ensures var q := Quad(a, b, c); var v0, v1, v2, v3 := Value(q[0]), Value(q[1]), Value(q[2]), Value(q[3]);
      v0 * 4 + v1 / 16 == a && v1 % 16 * 16 + v2 / 4 == b && v2 % 4 * 64 + v3 == c && q[2] != '=' && q[3] != '='
  {
    SymbolRoundTrip(a / 4);
    SymbolRoundTrip(a % 4 * 16 + b / 16);
    SymbolRoundTrip(b % 16 * 4 + c / 64);
    SymbolRoundTrip(c % 64);
  }

  lemma DecodeStep(head: string, rest: string)
    requires |head| == 4 && head[2] != '=' && head[3] != '='
    ensures var v0, v1, v2, v3 := Value(head[0]), Value(head[1]), Value(head[2]), Value(head[3]);
      Decode(head + rest) == [v0 * 4 + v1 / 16, v1 % 16 * 16 + v2 / 4, v2 % 4 * 64 + v3] + Decode(rest)
  {
    assert (head + rest)[4..] == rest;
  }

  lemma {:induction false} RoundTrip(data: seq<byte>)
    ensures Decode(Encode(data)) == data
  {
    hide *;
    if |data| < 3 {
      ShortRoundTrip(data);
    } else {
      var head, tail := data[..3], data[3..];
      var quad := Quad(head[0], head[1], head[2]);
      QuadRoundTrip(head[0], head[1], head[2]);
      DecodeStep(quad, Encode(tail));
      EncodeStep(head, tail);
      RoundTrip(tail);
      assert data == head + tail;
    }
  }

  lemma DecodePadded(a: char, b: char, c: char)
    ensures Decode([a, b, '=', '=']) == [Value(a) * 4 + Value(b) / 16]
    ensures c != '=' ==> Decode([a, b, c, '=']) == [Value(a) * 4 + Value(b) / 16, Value(b) % 16 * 16 + Value(c) / 4]
  {
    hide Value;
  }

  lemma EncodePadded(a: byte, b: byte)
    ensures var q := Quad(a, 0, 0); Encode([a]) == [q[0], q[1], '=', '=']
    ensures var q := Quad(a, b, 0); Encode([a, b]) == [q[0], q[1], q[2], '=']
  {
    hide Quad;
  }

  lemma ShortRoundTrip(data: seq<byte>)
    requires |data| < 3
    ensures Decode(Encode(data)) == data
  {
    hide *;
    if |data| == 0 {
      CodecEmpty();
      assert data == [];
    } else if |data| == 1 {
      var q := Quad(data[0], 0, 0);
      QuadRoundTrip(data[0], 0, 0);
      EncodePadded(data[0], 0);
      DecodePadded(q[0], q[1], q[2]);
      assert data == [data[0]];
    } else {
      var q := Quad(data[0], data[1], 0);
      QuadRoundTrip(data[0], data[1], 0);
      EncodePadded(data[0], data[1]);
      DecodePadded(q[0], q[1], q[2]);
      assert data == [data[0], data[1]];
    }
  }
}
