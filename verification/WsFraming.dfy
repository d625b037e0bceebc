// WebSocket text frames as the log stream sends them, against a parser of
// RFC 6455 section 5.2.

module WsFraming {
  import opened Options
  import opened Bytes

  const TWO_63: nat := 0x8000_0000_0000_0000

  lemma WideEnough()
    ensures Pow256(2) == 65536
    ensures TWO_63 < Pow256(8)
  {
    assert Pow256(4) == 0x1_0000_0000;
    assert Pow256(6) == 65536 * Pow256(4);
  }

  /** The length field: one octet, or a marker and two or eight octets. */
  function LengthField(n: nat): (f: seq<byte>)
    ensures |f| == if n < 126 then 1 else if n < 65536 then 3 else 9
  {
    if n < 126 then [n] else if n < 65536 then [126] + BigEndian(n, 2) else [127] + BigEndian(n, 8)
  }

  /** One unmasked, final text frame. */
  function Frame(msg: seq<byte>): seq<byte> {
    [0x81] + LengthField(|msg|) + msg
  }

  function Stream(msgs: seq<seq<byte>>): seq<byte> {
    if msgs == [] then [] else Frame(msgs[0]) + Stream(msgs[1..])
  }

  /** A length field and how many octets it took; only the shortest form is legal. */
  function ParseLength(s: seq<byte>): (r: Option<(nat, nat)>)
    ensures r.Some? ==> r.value.1 <= |s|
  {
    if |s| < 1 then None
    else if s[0] < 126 then Some((s[0], 1))
    else if s[0] == 126 then
      if |s| < 3 || FromBigEndian(s[1..3]) < 126 then None else Some((FromBigEndian(s[1..3]), 3))
    else if s[0] == 127 then
      if |s| < 9 || !(65536 <= FromBigEndian(s[1..9]) < TWO_63) then None else Some((FromBigEndian(s[1..9]), 9))
    else None
  }

  /** A complete unmasked text frame at the front of `s`, and what follows it. */
  function ParseFrame(s: seq<byte>): (r: Option<(seq<byte>, seq<byte>)>)
    ensures r.Some? ==> |r.value.1| < |s|
  {
    if |s| == 0 || s[0] != 0x81 then None
    else match ParseLength(s[1..])
      case None => None
      case Some((n, used)) =>
        if |s| < 1 + used + n then None else Some((s[1 + used..1 + used + n], s[1 + used + n..]))
  }

  function ParseStream(s: seq<byte>): Option<seq<seq<byte>>> {
    if s == [] then Some([])
    else match ParseFrame(s)
      case None => None
      case Some((msg, rest)) =>
        match ParseStream(rest)
        case None => None
        case Some(msgs) => Some([msg] + msgs)
  }

  lemma LengthRoundTrip(n: nat, rest: seq<byte>)
    requires n < TWO_63
    ensures ParseLength(LengthField(n) + rest) == Some((n, |LengthField(n)|))
  {
    WideEnough();
    var s := LengthField(n) + rest;
    if 126 <= n < 65536 {
      BigEndianRoundTrip(n, 2);
      assert s[1..3] == BigEndian(n, 2);
    } else if 65536 <= n {
      BigEndianRoundTrip(n, 8);
      assert s[1..9] == BigEndian(n, 8);
    }
  }

  lemma LengthCanonical(s: seq<byte>)
    requires ParseLength(s).Some?
    ensures var (n, used) := ParseLength(s).value; n < TWO_63 && s[..used] == LengthField(n)
  {
    WideEnough();
    if s[0] == 126 {
      FromBigEndianBound(s[1..3]);
    } else if s[0] == 127 {
      FromBigEndianBound(s[1..9]);
    }
  }

  lemma FrameRoundTrip(msg: seq<byte>, rest: seq<byte>)
    requires |msg| < TWO_63
    ensures ParseFrame(Frame(msg) + rest) == Some((msg, rest))
  {
    hide ParseLength, LengthField;
    var s := Frame(msg) + rest;
    var field := LengthField(|msg|);
    LengthRoundTrip(|msg|, msg + rest);
    assert s[1..] == field + (msg + rest);
  }

  lemma FrameCanonical(s: seq<byte>)
    requires ParseFrame(s).Some?
    ensures var (msg, rest) := ParseFrame(s).value; |msg| < TWO_63 && s == Frame(msg) + rest
  {
    hide ParseLength, LengthField;
    LengthCanonical(s[1..]);
    var (n, used) := ParseLength(s[1..]).value;
    assert s == [s[0]] + s[1..][..used] + s[1 + used..1 + used + n] + s[1 + used + n..];
  }

  /** Frames sent one after another are told apart: the stream reads back as the messages sent. */
  lemma {:induction false} StreamRoundTrip(msgs: seq<seq<byte>>)
    requires forall i :: 0 <= i < |msgs| ==> |msgs[i]| < TWO_63
    ensures ParseStream(Stream(msgs)) == Some(msgs)
  {
    hide ParseFrame, Frame;
    if msgs != [] {
      StreamRoundTrip(msgs[1..]);
      FrameRoundTrip(msgs[0], Stream(msgs[1..]));
      FrameNotEmpty(msgs[0]);
      assert msgs == [msgs[0]] + msgs[1..];
    }
  }

  lemma FrameNotEmpty(msg: seq<byte>)
    ensures Frame(msg) != []
  {
  }

  /** And nothing else reads as those messages. */
  lemma {:induction false} StreamCanonical(s: seq<byte>)
    requires ParseStream(s).Some?
    ensures s == Stream(ParseStream(s).value)
    decreases |s|
  {
    hide ParseFrame, Frame;
    if s != [] {
      var (msg, rest) := ParseFrame(s).value;
      FrameCanonical(s);
      StreamCanonical(rest);
    }
  }

  /** The frame builder. */
  method BuildFrame(msg: seq<byte>) returns (frame: seq<byte>)
    requires |msg| < Pow256(8)
    ensures frame == Frame(msg)
  {
    WideEnough();
    frame := [0x81];
    var len := |msg|;
    if len < 126 {
      frame := frame + [len];
    } else if len < 65536 {
      frame := frame + [126];
      TwoOctets(len);
      frame := frame + [len / 256 % 256];
      frame := frame + [len % 256];
    } else {
      frame := frame + [127];
      frame := AppendBigEndian(frame, len, 8);
    }
    frame := frame + msg;
  }

  lemma TwoOctets(n: nat)
    ensures BigEndian(n, 2) == [n / 256 % 256, n % 256]
  {
    assert BigEndian(n / 256, 1) == BigEndian(n / 256 / 256, 0) + [n / 256 % 256];
  }
}
