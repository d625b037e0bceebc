// Base64 as the WebSocket handshake and the mail sender print it, against the
// decoder of RFC 4648 section 4.

module Base64 {
  import opened Options
  import opened Bytes

  /** The alphabet: A-Z, a-z, 0-9, + and /. */
  function Symbol(v: nat): (c: char)
    requires v < 64
    ensures c != '='
  {
    if v < 26 then (65 + v) as char
    else if v < 52 then (97 + v - 26) as char
    else if v < 62 then (48 + v - 52) as char
    else if v == 62 then '+' else '/'
  }

  function SymbolValue(c: char): (v: Option<nat>)
    ensures v.Some? ==> v.value < 64 && Symbol(v.value) == c
  {
    if 'A' <= c <= 'Z' then Some(c as int - 65)
    else if 'a' <= c <= 'z' then Some(26 + c as int - 97)
    else if '0' <= c <= '9' then Some(52 + c as int - 48)
    else if c == '+' then Some(62) else if c == '/' then Some(63) else None
  }

  lemma SymbolRoundTrip(v: nat)
    requires v < 64
    ensures SymbolValue(Symbol(v)) == Some(v)
  {
  }

  const ALPHABET := "ABCDEFGHIJKLMNOP" + "QRSTUVWXYZabcdef" + "ghijklmnopqrstuv" + "wxyz0123456789+/"

  lemma Alphabet0(v: nat)
    requires 0 <= v < 16
    ensures Symbol(v) == ALPHABET[v]
  {
    match v
    case 0 => case 1 => case 2 => case 3 => case 4 => case 5 => case 6 => case 7 =>
    case 8 => case 9 => case 10 => case 11 => case 12 => case 13 => case 14 => case 15 =>
  }

  lemma Alphabet16(v: nat)
    requires 16 <= v < 32
    ensures Symbol(v) == ALPHABET[v]
  {
    match v
    case 16 => case 17 => case 18 => case 19 => case 20 => case 21 => case 22 => case 23 =>
    case 24 => case 25 => case 26 => case 27 => case 28 => case 29 => case 30 => case 31 =>
  }

  lemma Alphabet32(v: nat)
    requires 32 <= v < 48
    ensures Symbol(v) == ALPHABET[v]
  {
    match v
    case 32 => case 33 => case 34 => case 35 => case 36 => case 37 => case 38 => case 39 =>
    case 40 => case 41 => case 42 => case 43 => case 44 => case 45 => case 46 => case 47 =>
  }

  lemma Alphabet48(v: nat)
    requires 48 <= v < 64
    ensures Symbol(v) == ALPHABET[v]
  {
    match v
    case 48 => case 49 => case 50 => case 51 => case 52 => case 53 => case 54 => case 55 =>
    case 56 => case 57 => case 58 => case 59 => case 60 => case 61 => case 62 => case 63 =>
  }

  /** The symbols are those of RFC 4648 section 4, in their order. */
  lemma Alphabet(v: nat)
    requires v < 64
    ensures Symbol(v) == ALPHABET[v]
  {
    hide Symbol;
    if v < 16 {
      Alphabet0(v);
    } else if v < 32 {
      Alphabet16(v);
    } else if v < 48 {
      Alphabet32(v);
    } else {
      Alphabet48(v);
    }
  }

  /** Three octets as one 24-bit number. */
  function Pack24(x: int, y: int, z: int): int {
    65536 * x + 256 * y + z
  }

  /** The four symbols of up to three octets. */
  function Quad(data: seq<byte>): (q: seq<char>)
    requires 1 <= |data| <= 3
    ensures |q| == 4
  {
    var v := Pack24(data[0], if |data| > 1 then data[1] else 0, if |data| > 2 then data[2] else 0);
    [Symbol(v / 262144 % 64), Symbol(v / 4096 % 64),
     if |data| > 1 then Symbol(v / 64 % 64) else '=', if |data| > 2 then Symbol(v % 64) else '=']
  }

  function Encode(data: seq<byte>): seq<char> {
    if data == [] then []
    else if |data| <= 3 then Quad(data)
    else Quad(data[..3]) + Encode(data[3..])
  }

  /** One group of four symbols; padding is accepted only where `last`, and only after zero bits. */
  function DecodeQuad(q: seq<char>, last: bool): (d: Option<seq<byte>>)
    requires |q| == 4
  {
    match (SymbolValue(q[0]), SymbolValue(q[1]), SymbolValue(q[2]), SymbolValue(q[3]))
    case (Some(a), Some(b), Some(c), Some(d)) =>
      Some([4 * a + b / 16, 16 * (b % 16) + c / 4, 64 * (c % 4) + d])
    case (Some(a), Some(b), Some(c), None) =>
      if last && q[3] == '=' && c % 4 == 0 then Some([4 * a + b / 16, 16 * (b % 16) + c / 4]) else None
    case (Some(a), Some(b), None, None) =>
      if last && q[2] == '=' && q[3] == '=' && b % 16 == 0 then Some([4 * a + b / 16]) else None
    case _ => None
  }

  function Decode(s: seq<char>): Option<seq<byte>> {
    if s == [] then Some([])
    else if |s| < 4 then None
    else match (DecodeQuad(s[..4], |s| == 4), Decode(s[4..]))
      case (Some(d), Some(rest)) => Some(d + rest)
      case _ => None
  }

  // ---- Regrouping 24 bits between eights and sixes ----

  lemma SextetsOf(v: nat)
    requires v < 16777216
    ensures v == 262144 * (v / 262144 % 64) + 4096 * (v / 4096 % 64) + 64 * (v / 64 % 64) + v % 64
  {
    assert v == 64 * (v / 64) + v % 64;
    assert v / 64 == 64 * (v / 4096) + v / 64 % 64;
    assert v / 4096 == 64 * (v / 262144) + v / 4096 % 64;
  }

  lemma HighOctet(x: nat, low: nat)
    requires low < 65536
    ensures (65536 * x + low) / 65536 == x
  {
  }

  lemma LowOctet(high: nat, z: nat)
    requires z < 256
    ensures (256 * high + z) / 256 == high && (256 * high + z) % 256 == z
  {
  }

  lemma OctetsOf(x: nat, y: nat, z: nat)
    requires x < 256 && y < 256 && z < 256
    ensures var v := Pack24(x, y, z); v < 16777216 && v / 65536 == x && v / 256 % 256 == y && v % 256 == z
  {
    HighOctet(x, 256 * y + z);
    LowOctet(256 * x + y, z);
    LowOctet(x, y);
  }

  lemma OctetsOfSextets(a: nat, b: nat, c: nat, d: nat)
    requires a < 64 && b < 64 && c < 64 && d < 64
    ensures var v := 262144 * a + 4096 * b + 64 * c + d;
            v / 65536 == 4 * a + b / 16 && v / 256 % 256 == 16 * (b % 16) + c / 4 && v % 256 == 64 * (c % 4) + d
  {
    assert b == 16 * (b / 16) + b % 16 && c == 4 * (c / 4) + c % 4;
    OctetsOf(4 * a + b / 16, 16 * (b % 16) + c / 4, 64 * (c % 4) + d);
  }

  lemma Regroup(x: nat, y: nat, z: nat)
    requires x < 256 && y < 256 && z < 256
    ensures var v := Pack24(x, y, z);
            var a, b, c, d := v / 262144 % 64, v / 4096 % 64, v / 64 % 64, v % 64;
            x == 4 * a + b / 16 && y == 16 * (b % 16) + c / 4 && z == 64 * (c % 4) + d
  {
    hide Pack24;
    var v := Pack24(x, y, z);
    OctetsOf(x, y, z);
    SextetsOf(v);
    OctetsOfSextets(v / 262144 % 64, v / 4096 % 64, v / 64 % 64, v % 64);
  }

  lemma Quotients(a: nat, b: nat, c: nat, d: nat)
    requires a < 64 && b < 64 && c < 64 && d < 64
    ensures var v := 262144 * a + 4096 * b + 64 * c + d;
            v / 262144 == a && v / 4096 == 64 * a + b && v / 64 == 4096 * a + 64 * b + c && v % 64 == d
  {
  }

  lemma RegroupBack(a: nat, b: nat, c: nat, d: nat)
    requires a < 64 && b < 64 && c < 64 && d < 64
    ensures var v := Pack24(4 * a + b / 16, 16 * (b % 16) + c / 4, 64 * (c % 4) + d);
            v / 262144 % 64 == a && v / 4096 % 64 == b && v / 64 % 64 == c && v % 64 == d
  {
    Quotients(a, b, c, d);
  }

  lemma QuadRoundTrip(data: seq<byte>, last: bool)
    requires 1 <= |data| <= 3 && (last || |data| == 3)
    ensures DecodeQuad(Quad(data), last) == Some(data)
  {
    hide SymbolValue, Symbol, Pack24;
    var y, z := if |data| > 1 then data[1] else 0, if |data| > 2 then data[2] else 0;
    var v := Pack24(data[0], y, z);
    Regroup(data[0], y, z);
    SymbolRoundTrip(v / 262144 % 64);
    SymbolRoundTrip(v / 4096 % 64);
    SymbolRoundTrip(v / 64 % 64);
    SymbolRoundTrip(v % 64);
    PaddingHasNoValue();
    assert data == if |data| == 1 then [data[0]] else if |data| == 2 then [data[0], y] else [data[0], y, z];
  }

  lemma PaddingHasNoValue()
    ensures SymbolValue('=') == None
  {
  }

  /** A group that decodes was printed from what it decodes to. */
  lemma QuadCanonical(q: seq<char>, last: bool)
    requires |q| == 4 && DecodeQuad(q, last).Some?
    ensures var d := DecodeQuad(q, last).value; 1 <= |d| <= 3 && (last || |d| == 3) && Quad(d) == q
  {
    hide Symbol, SymbolValue, Pack24;
    var data := DecodeQuad(q, last).value;
    var a, b := SymbolValue(q[0]).value, SymbolValue(q[1]).value;
    var c := if |data| > 1 then SymbolValue(q[2]).value else 0;
    var d := if |data| > 2 then SymbolValue(q[3]).value else 0;
    RegroupBack(a, b, c, d);
  }

  /** The decoder accepts exactly the encoder's outputs and inverts them. */
  lemma {:induction false} DecodeIffEncode(s: seq<char>, data: seq<byte>)
    ensures Decode(s) == Some(data) <==> s == Encode(data)
  {
    DecodeEncode(data);
    if Decode(s) == Some(data) {
      EncodeDecode(s);
    }
  }

  lemma {:induction false} DecodeEncode(data: seq<byte>)
    ensures Decode(Encode(data)) == Some(data)
    decreases |data|
  {
    hide Quad, DecodeQuad;
    if data != [] {
      var head, rest := if |data| <= 3 then data else data[..3], if |data| <= 3 then [] else data[3..];
      QuadRoundTrip(head, |data| <= 3);
      DecodeEncode(rest);
      assert Encode(data) == Quad(head) + Encode(rest);
      assert Encode(data)[..4] == Quad(head) && Encode(data)[4..] == Encode(rest);
      assert head + rest == data;
    }
  }

  lemma {:induction false} EncodeDecode(s: seq<char>)
    requires Decode(s).Some?
    ensures Encode(Decode(s).value) == s
  {
    hide Quad, DecodeQuad;
    if s != [] {
      QuadCanonical(s[..4], |s| == 4);
      EncodeDecode(s[4..]);
      var d, rest := DecodeQuad(s[..4], |s| == 4).value, Decode(s[4..]).value;
      assert s == s[..4] + s[4..];
      if |s| > 4 {
        assert rest != [];
        assert (d + rest)[..3] == d && (d + rest)[3..] == rest;
      } else {
        assert s[4..] == [] && d + rest == d;
      }
    }
  }

  /** Four symbols for every three octets begun. */
  lemma {:induction false} EncodeLength(data: seq<byte>)
    ensures |Encode(data)| == 4 * ((|data| + 2) / 3)
  {
    hide Quad;
    if |data| > 3 {
      EncodeLength(data[3..]);
    }
  }

  // ---- The two encoding loops ----

  lemma EncodeStep(data: seq<byte>, i: nat)
    requires i < |data| && i % 3 == 0
    ensures var next := if i + 3 <= |data| then i + 3 else |data|;
            Encode(data[..next]) == Encode(data[..i]) + Quad(data[i..next])
    decreases i
  {
    hide Quad;
    var next := if i + 3 <= |data| then i + 3 else |data|;
    if i == 0 {
      assert data[0..next] == data[..next];
    } else {
      EncodeStep(data[3..], i - 3);
      assert data[3..][..next - 3] == data[..next][3..] && data[3..][..i - 3] == data[..i][3..];
      assert data[3..][i - 3..next - 3] == data[i..next];
      assert data[..next][..3] == data[..i][..3] == data[..3];
      if i == 3 {
        assert data[..3][3..] == [];
      }
    }
  }

  /** The encoder of the WebSocket handshake. */
  method WebSocketEncode(data: seq<byte>) returns (out: seq<char>)
    ensures out == Encode(data)
  {
    hide Encode, Symbol, Pack24;
    EncodeNothing();
    out := [];
    var i, len := 0, |data|;
    while i < len
      invariant 0 <= i && i % 3 == 0
      invariant out == Encode(data[..if i <= len then i else len])
    {
      var v := Pack24(data[i], if i + 1 < len then data[i + 1] else 0, if i + 2 < len then data[i + 2] else 0);
      ghost var next := if i + 3 <= len then i + 3 else len;
      ghost var group := data[i..next];
      EncodeStep(data, i);
      ghost var before := out;
      out := out + [Symbol(v / 262144 % 64)] + [Symbol(v / 4096 % 64)];
      out := out + [if i + 1 < len then Symbol(v / 64 % 64) else '='];
      out := out + [if i + 2 < len then Symbol(v % 64) else '='];
      assert out == before + Quad(group);
      i := i + 3;
    }
    assert data[..len] == data;
  }

  lemma EncodeNothing()
    ensures Encode([]) == []
  {
  }

  /** The encoder of the mail sender, which writes the same symbols. */
  method MailEncode(data: seq<byte>) returns (out: seq<char>)
    ensures out == Encode(data)
  {
    hide Encode, Symbol, Pack24;
    EncodeNothing();
    out := [];
    var i, len := 0, |data|;
    while i < len
      invariant 0 <= i && i % 3 == 0
      invariant out == Encode(data[..if i <= len then i else len])
    {
      var b := Pack24(data[i], if i + 1 < len then data[i + 1] else 0, if i + 2 < len then data[i + 2] else 0);
      ghost var next := if i + 3 <= len then i + 3 else len;
      EncodeStep(data, i);
      ghost var before := out;
      out := out + [Symbol(b / 262144 % 64)] + [Symbol(b / 4096 % 64)];
      out := out + (if i + 1 < len then [Symbol(b / 64 % 64)] else "=");
      out := out + (if i + 2 < len then [Symbol(b % 64)] else "=");
      assert out == before + Quad(data[i..next]);
      i := i + 3;
    }
    assert data[..len] == data;
  }

  lemma ExampleEnds()
    ensures Quad([102]) == "Zg==" && Quad([102, 111]) == "Zm8="
  {
  }

  lemma ExampleFoo()
    ensures Quad([102, 111, 111]) == "Zm9v"
  {
  }

  lemma ExampleBar()
    ensures Quad([98, 97, 114]) == "YmFy"
  {
  }

  /** The examples of RFC 4648 section 10: f, fo, foo and foobar. */
  lemma StandardExamples()
    ensures Encode([102]) == "Zg==" && Encode([102, 111]) == "Zm8=" && Encode([102, 111, 111]) == "Zm9v"
    ensures Encode([102, 111, 111, 98, 97, 114]) == "Zm9v" + "YmFy"
  {
    hide Quad;
    ExampleEnds();
    ExampleFoo();
    ExampleBar();
    var data: seq<byte> := [102, 111, 111, 98, 97, 114];
    assert data[..3] == [102, 111, 111] && data[3..] == [98, 97, 114];
  }
}
