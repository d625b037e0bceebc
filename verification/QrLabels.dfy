// Which labels look alike: when two symbols are the same, and what that means for
// the address an item label carries.

module QrLabels {
  import opened CodeDistance
  import opened GaloisField
  import opened Options
  import opened QrBits
  import opened QrLayout
  import opened QrMatrix
  import opened QrScanner
  import opened ReedSolomon

  ghost predicate SameModules(m: array2<Cell>, n: array2<Cell>)
    requires IsSquare(m) && IsSquare(n)
    reads m, n
  {
    forall r: nat, c: nat :: r < SIZE && c < SIZE ==> m[r, c] == n[r, c]
  }

  /** One text leaves no choice of codeword. */
  lemma FullUnique(full: seq<bv8>, other: seq<bv8>, s: seq<bv8>, t: seq<bv8>)
    requires IsFull(full, s) && IsFull(other, t)
    ensures full == other <==> DataCodewords(s) == DataCodewords(t)
  {
    hide IsCodeword, DataCodewords;
    assert full == full[..19] + full[19..] && other == other[..19] + other[19..];
    if DataCodewords(s) == DataCodewords(t) {
      EccUnique(full[..19], full[19..], other[19..], 7);
    }
  }

  /** A symbol shows one run of bits only. */
  lemma OneReading(m: array2<Cell>, bits: seq<bool>, other: seq<bool>)
    requires IsSquare(m) && |bits| == |other| == 208
    requires Holds(m, bits, 10, 0, 0) && Holds(m, other, 10, 0, 0)
    ensures bits == other
  {
    hide Holds, ReadBits, BitsBefore;
    ReadPlaced(m, bits, 10);
    ReadPlaced(m, other, 10);
    Capacity();
    assert bits[..208] == bits && other[..208] == other;
  }

  lemma SameHolds(m: array2<Cell>, n: array2<Cell>, bits: seq<bool>)
    requires IsSquare(m) && IsSquare(n) && Holds(m, bits, 10, 0, 0)
    ensures Holds(n, bits, 10, 0, 0) <==> SameModules(m, n)
  {
    hide Drawn;
  }

  /** Two labels are the same symbol exactly when the bytes they carry are the same. */
  lemma SameLabelIff(m: array2<Cell>, n: array2<Cell>, s: seq<bv8>, t: seq<bv8>)
    requires IsLabel(m, s) && IsLabel(n, t)
    ensures SameModules(m, n) <==> s[..Carried(s)] == t[..Carried(t)]
  {
    hide Holds, IsFull, DataCodewords, Unpack, SameModules, Carried;
    var full :| IsFull(full, s) && Holds(m, Unpack(full), 10, 0, 0);
    var other :| IsFull(other, t) && Holds(n, Unpack(other), 10, 0, 0);
    FullLength(full, s);
    FullLength(other, t);
    FullUnique(full, other, s, t);
    CodewordsTellCarried(s, t);
    SameHolds(m, n, Unpack(full));
    if SameModules(m, n) {
      OneReading(n, Unpack(full), Unpack(other));
      PackUnpack(full);
      PackUnpack(other);
    }
  }

  lemma FullLength(full: seq<bv8>, bytes: seq<bv8>)
    requires IsFull(full, bytes)
    ensures |full| == 26 && |Unpack(full)| == 208
  {
  }

  // ---- What a label says of its text ----

  type Text = seq<bv16>

  function Wide(b: bv8): bv16 {
    b as bv16
  }

  /** A reader that takes each byte for a code unit. */
  function Widened(bytes: seq<bv8>): (text: Text)
    ensures |text| == |bytes|
  {
    seq(|bytes|, i requires 0 <= i < |bytes| => Wide(bytes[i]))
  }

  predicate OneByteUnits(text: Text) {
    forall i :: 0 <= i < |text| ==> text[i] < 0x100
  }

  lemma WidenNarrow(x: bv16)
    ensures Wide(Narrow(x)) == x <==> x < 0x100
  {
  }

  lemma WidenedIff(text: Text, n: nat)
    requires n <= |text|
    ensures Widened(LowBytes(text)[..n]) == text <==> n == |text| && OneByteUnits(text)
  {
    hide Narrow, Wide;
    var read := Widened(LowBytes(text)[..n]);
    forall i | 0 <= i < n ensures read[i] == text[i] <==> text[i] < 0x100 {
      WidenNarrow(text[i]);
    }
  }

  /** What a scanner reads from a symbol. */
  function ReadLabel(m: array2<Cell>): Option<Text>
    requires IsSquare(m)
    reads m
  {
    match ReadCodewords(m)
    case None => None
    case Some(full) =>
      match ReadText(full)
      case None => None
      case Some(bytes) => Some(Widened(bytes))
  }

  /** A label reads as its text exactly when that has at most 17 code units, all of one byte. */
  lemma LabelReadsIff(m: array2<Cell>, text: Text)
    requires IsLabel(m, LowBytes(text))
    ensures ReadLabel(m) == Some(text) <==> |text| <= 17 && OneByteUnits(text)
  {
    hide DataCodewords, IsCodeword, Holds, ReadCodewords, ReadText, Unpack, LowBytes, Widened;
    var bytes := LowBytes(text);
    var full :| IsFull(full, bytes) && Holds(m, Unpack(full), 10, 0, 0);
    ReadSymbol(m, full);
    assert full == full[..19] + full[19..];
    ReadBack(bytes, full[19..]);
    WidenedIff(text, Carried(bytes));
  }

  /** For one: the euro sign comes back as its low byte. */
  lemma EuroSignLost(m: array2<Cell>)
    requires IsLabel(m, LowBytes([0x20AC]))
    ensures ReadLabel(m) == Some([0xAC])
  {
    hide DataCodewords, IsCodeword, Holds, ReadCodewords, ReadText, Unpack;
    var bytes := LowBytes([0x20AC]);
    var full :| IsFull(full, bytes) && Holds(m, Unpack(full), 10, 0, 0);
    ReadSymbol(m, full);
    assert full == full[..19] + full[19..];
    ReadBack(bytes, full[19..]);
    assert bytes == [0xAC] && bytes[..1] == bytes && Widened([0xAC]) == [0xAC];
  }

  // ---- Item labels ----

  /** Two slashes. */
  const SLASHES: Text := [0x2F, 0x2F]

  /** The text /shop.html?listing= */
  const LISTING: Text := [0x2F, 0x73, 0x68, 0x6F, 0x70, 0x2E, 0x68, 0x74, 0x6D, 0x6C,
                          0x3F, 0x6C, 0x69, 0x73, 0x74, 0x69, 0x6E, 0x67, 0x3D]

  /** The address an item label should lead to. */
  function ItemUrl(protocol: Text, host: Text, id: Text): Text {
    protocol + SLASHES + host + LISTING + id
  }

  /** Whatever the server's address, it fills the symbol before the item begins. */
  lemma IdNotCarried(protocol: Text, host: Text, id: Text)
    ensures var url := LowBytes(ItemUrl(protocol, host, id));
            && Carried(url) == 17
            && url[..17] == LowBytes(protocol + SLASHES + host + LISTING)[..17]
  {
    hide Narrow;
    var front := protocol + SLASHES + host + LISTING;
    assert ItemUrl(protocol, host, id)[..|front|] == front;
    assert LowBytes(ItemUrl(protocol, host, id))[..|front|] == LowBytes(front);
  }

  /** All item labels of one server are the same symbol. */
  lemma ItemLabelsAlike(m: array2<Cell>, n: array2<Cell>, protocol: Text, host: Text, id: Text, other: Text)
    requires IsLabel(m, LowBytes(ItemUrl(protocol, host, id)))
    requires IsLabel(n, LowBytes(ItemUrl(protocol, host, other)))
    ensures SameModules(m, n)
  {
    hide IsLabel, SameModules, Carried, LowBytes;
    IdNotCarried(protocol, host, id);
    IdNotCarried(protocol, host, other);
    SameLabelIff(m, n, LowBytes(ItemUrl(protocol, host, id)), LowBytes(ItemUrl(protocol, host, other)));
  }
}
