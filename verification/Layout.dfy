/** The bytes of the encoder's two forms.  The general form is a list of units that are never split,
    packed in order into packets of 32 bytes, each as full as it can be. */
module Layout {
  import opened Wire

  /** Bytes that stay in one packet, or the end of a packet. */
  datatype Unit = Together(bytes: seq<Byte>) | Break

  /** Whole packets, and the packet being filled without its END. */
  datatype Packed = Packed(full: seq<Byte>, current: seq<Byte>)

  const NOTHING_PACKED := Packed([], [0xaa])

  function Zeros(n: nat): seq<Byte> {
    seq(n, _ => 0)
  }

  /** A packet ends in zeros: the END and the padding. */
  function Seal(p: Packed): Packed {
    Packed(p.full + (p.current + Zeros(if |p.current| < 32 then 32 - |p.current| else 0)), [0xaa])
  }

  function Place(p: Packed, u: Unit): Packed {
    match u
    case Break => Seal(p)
    case Together(bytes) =>
      var q := if |p.current| + |bytes| + 1 > 32 then Seal(p) else p;
      q.(current := q.current + bytes)
  }

  function PlaceAll(p: Packed, units: seq<Unit>): Packed
    decreases |units|
  {
    if units == [] then p else PlaceAll(Place(p, units[0]), units[1..])
  }

  lemma {:induction false} PlaceAllConcat(p: Packed, a: seq<Unit>, b: seq<Unit>)
    ensures PlaceAll(p, a + b) == PlaceAll(PlaceAll(p, a), b)
    decreases |a|
  {
    if a == [] {
      assert a + b == b;
    } else {
      Cons(a, b);
      PlaceAllConcat(Place(p, a[0]), a[1..], b);
    }
  }

  lemma PlaceOne(p: Packed, u: Unit)
    ensures PlaceAll(p, [u]) == Place(p, u)
  {
    assert [u][1..] == [];
  }

  // ---------------------------------------------------------------- the general form

  /** Every data byte in a write of its own. */
  function DataUnits(data: seq<Byte>): seq<Unit> {
    if data == [] then [] else [Together([0x80, data[0]])] + DataUnits(data[1..])
  }

  /** START and address, and the data: the address is written in a block of its own when no data follow. */
  function StartUnits(address: Byte, data: seq<Byte>): seq<Unit> {
    if data == [] then [Together([0x74, 0x81, address])]
    else [Together([0x74, 0x80, address])] + DataUnits(data)
  }

  /** Blocks of 32 acknowledged bytes that each end a packet, then the rest and the last byte. */
  function ReadUnits(n: nat): seq<Unit> {
    if n > 32 then [Together([0xe0]), Break] + ReadUnits(n - 32)
    else if n > 1 then [Together([0xc0 + n - 1]), Together([0xc0])]
    else [Together([0xc0])]
  }

  function GeneralUnits(address: Byte, data: seq<Byte>, readLength: nat): seq<Unit>
    requires address <= 0x7f
  {
    (if data == [] then [] else StartUnits(address * 2, data)) +
    (if readLength == 0 then [] else StartUnits(address * 2 + 1, []) + ReadUnits(readLength)) +
    [Together([0x75])]
  }

  function GeneralBytes(address: Byte, data: seq<Byte>, readLength: nat): seq<Byte>
    requires address <= 0x7f
  {
    var p := PlaceAll(NOTHING_PACKED, GeneralUnits(address, data, readLength));
    p.full + (p.current + [0x00])
  }

  // ---------------------------------------------------------------- the one-packet form

  function EachWritten(data: seq<Byte>): seq<Byte> {
    if data == [] then [] else [0x80, data[0]] + EachWritten(data[1..])
  }

  function ShortBytes(address: Byte, data: seq<Byte>, readLength: nat): seq<Byte>
    requires address <= 0x7f && readLength <= 32
  {
    [0xaa] +
    (if data == [] then [] else [0x74, 0x80, address * 2] + EachWritten(data)) +
    ShortRead(address, readLength) +
    [0x75, 0x00]
  }

  function ShortRead(address: Byte, readLength: nat): seq<Byte>
    requires address <= 0x7f && readLength <= 32
  {
    if readLength == 0 then []
    else if readLength == 1 then [0x74, 0x80, address * 2 + 1, 0xc0]
    else [0x74, 0x80, address * 2 + 1, 0xc0 + readLength - 1, 0xc0]
  }

  /** A write of one byte and a read of two in one packet, and a read of 33 bytes in two. */
  lemma LayoutExamples()
    ensures ShortBytes(0x11, [0x30], 2) ==
      [0xaa, 0x74, 0x80, 0x22, 0x80, 0x30, 0x74, 0x80, 0x23, 0xc1, 0xc0, 0x75, 0x00]
    ensures GeneralBytes(0x11, [], 33) == [0xaa, 0x74, 0x81, 0x23, 0xe0] + Zeros(27) + [0xaa, 0xc0, 0x75, 0x00]
  {
    assert EachWritten([0x30]) == [0x80, 0x30] + EachWritten([]);
    ReadOf33();
  }

  lemma ReadOf33()
    ensures GeneralBytes(0x11, [], 33) == [0xaa, 0x74, 0x81, 0x23, 0xe0] + Zeros(27) + [0xaa, 0xc0, 0x75, 0x00]
  {
    var units := GeneralUnits(0x11, [], 33);
    var start, block, last, stop := Together([0x74, 0x81, 0x23]), Together([0xe0]), Together([0xc0]), Together([0x75]);
    assert ReadUnits(1) == [last] && ReadUnits(33) == [block, Break] + ReadUnits(1);
    assert units == [start, block, Break, last, stop];
    var p := NOTHING_PACKED;
    PlaceFive(p, start, block, Break, last, stop);
    var q := Place(Place(p, start), block);
    assert q == Packed([], [0xaa] + [0x74, 0x81, 0x23] + [0xe0]);
    assert Place(Place(Place(q, Break), last), stop).current == [0xaa] + [0xc0] + [0x75];
  }

  lemma PlaceFive(p: Packed, a: Unit, b: Unit, c: Unit, d: Unit, e: Unit)
    ensures PlaceAll(p, [a, b, c, d, e]) == Place(Place(Place(Place(Place(p, a), b), c), d), e)
  {
    hide Place;
    assert [a, b, c, d, e] == [a] + ([b] + ([c] + ([d] + [e])));
    PlaceAllConcat(p, [a], [b] + ([c] + ([d] + [e])));
    PlaceOne(p, a);
    var p1 := Place(p, a);
    PlaceAllConcat(p1, [b], [c] + ([d] + [e]));
    PlaceOne(p1, b);
    var p2 := Place(p1, b);
    PlaceAllConcat(p2, [c], [d] + [e]);
    PlaceOne(p2, c);
    var p3 := Place(p2, c);
    PlaceAllConcat(p3, [d], [e]);
    PlaceOne(p3, d);
    PlaceOne(Place(p3, d), e);
  }
}
