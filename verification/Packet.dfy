/** The Universal Data Packet: a length byte, the data, and an inverted CRC-16 seeded with the
    physical page number, low byte first. */
module Packet {
  import opened Bytes
  import opened CrcUtil
  import opened CrcLaws
  import opened Splices
  import opened Wrappers

  const PAGE := 32
  const MAX_DATA := PAGE - 3

  /** The seed of the packets of a page. */
  function PageSeed(page: nat): (s: Word)
    ensures s as nat == page % 0x10000
  {
    WordOf(page % 0x10000)
  }

  /** What the packet writer stores. */
  function Encode(seed: Word, data: seq<Byte>): (frame: seq<Byte>)
    requires |data| <= MAX_DATA
    ensures |frame| == |data| + 3 && frame[0] as nat == |data| && frame[1..|data| + 1] == data
  {
    var body := [OctetOf(|data|)] + data;
    var crc := Inverted(Crc16(seed, body));
    body + [LowOf(crc), HighOf(crc)]
  }

  /** That byte by byte: the length, the data, and the CRC of both with all bits inverted, low byte first. */
  lemma EncodeByIndex(seed: Word, data: seq<Byte>)
    requires |data| <= 29
    ensures var frame, n, c := Encode(seed, data), |data|, Crc16(seed, [OctetOf(|data|)] + data);
            && |frame| == n + 3 && frame[0] as nat == n && (forall i | 0 <= i < n :: frame[1 + i] == data[i])
            && frame[n + 1] == ((c ^ 0xFFFF) & 0xFF) as Byte && frame[n + 2] == ((c ^ 0xFFFF) >> 8) as Byte
  {
    var c := Crc16(seed, [OctetOf(|data|)] + data);
    InvertedBytes(c);
    var frame := Encode(seed, data);
    forall i | 0 <= i < |data|
      ensures frame[1 + i] == data[i]
    {
      assert frame[1..|data| + 1][i] == frame[1 + i];
    }
  }

  lemma InvertedBytes(c: Word)
    ensures LowOf(Inverted(c)) == ((c ^ 0xFFFF) & 0xFF) as Byte && HighOf(Inverted(c)) == ((c ^ 0xFFFF) >> 8) as Byte
  {
  }

  /** What the packet reader makes of a page. */
  function Decode(seed: Word, page: seq<Byte>): (d: Option<seq<Byte>>)
    requires |page| == PAGE
  {
    var n := page[0] as nat;
    if n > MAX_DATA || n <= 0 then None
    else if Crc16(seed, page[..n + 3]) == 0xB001 then Some(page[1..n + 1])
    else None
  }

  /** A byte is determined by its number. */
  lemma SameByte(x: Byte, n: nat)
    requires n < 256 && x as nat == n
    ensures x == OctetOf(n)
  {
  }

  /** A frame with the right length byte has residue 0xB001 exactly when it is the encoding of its data. */
  lemma ResidueIffEncoding(seed: Word, frame: seq<Byte>, data: seq<Byte>)
    requires |data| <= MAX_DATA && |frame| == |data| + 3 && frame[0] == OctetOf(|data|) && frame[1..|data| + 1] == data
    ensures Crc16(seed, frame) == 0xB001 <==> frame == Encode(seed, data)
  {
    var body, lo, hi := [OctetOf(|data|)] + data, frame[|data| + 1], frame[|data| + 2];
    assert frame == body + [lo, hi];
    ResidueIffInvertedCrc(seed, body, lo, hi);
  }

  lemma EncodingIsAccepted(seed: Word, page: seq<Byte>, data: seq<Byte>)
    requires |page| == PAGE && 1 <= |data| <= MAX_DATA && page[..|data| + 3] == Encode(seed, data)
    ensures Decode(seed, page) == Some(data)
  {
    var frame := page[..|data| + 3];
    assert page[0] == frame[0];
    SliceOfPrefix(page, |data| + 3, 1, |data| + 1);
    SameByte(frame[0], |data|);
    ResidueIffEncoding(seed, frame, data);
  }

  lemma AcceptedIsEncoding(seed: Word, page: seq<Byte>)
    requires |page| == PAGE && Decode(seed, page).Some?
    ensures var data := Decode(seed, page).value; 1 <= |data| <= MAX_DATA && page[..|data| + 3] == Encode(seed, data)
  {
    var n := page[0] as nat;
    var frame := page[..n + 3];
    SameByte(page[0], n);
    SliceOfPrefix(page, n + 3, 1, n + 1);
    ResidueIffEncoding(seed, frame, page[1..n + 1]);
  }

  /** The reader accepts exactly the pages that begin with the encoding of one to 29 bytes. */
  lemma AcceptsExactlyEncodings(seed: Word, page: seq<Byte>, data: seq<Byte>)
    requires |page| == PAGE
    ensures Decode(seed, page) == Some(data) <==> 1 <= |data| <= 29 && page[..|data| + 3] == Encode(seed, data)
  {
    if Decode(seed, page) == Some(data) {
      AcceptedIsEncoding(seed, page);
    }
    if 1 <= |data| <= MAX_DATA && page[..|data| + 3] == Encode(seed, data) {
      EncodingIsAccepted(seed, page, data);
    }
  }

  /** Reading back what was written gives the data again, except that an empty packet, which the
      writer stores without complaint, is refused by the reader. */
  lemma RoundTrip(seed: Word, page: seq<Byte>, data: seq<Byte>)
    requires |page| == 32 && |data| <= 29
    ensures Decode(seed, Splice(page, 0, Encode(seed, data))) == if data == [] then None else Some(data)
  {
    var stored := Splice(page, 0, Encode(seed, data));
    assert stored[..|data| + 3] == Encode(seed, data);
    AcceptsExactlyEncodings(seed, stored, data);
  }

  /** A page accepted under one seed is refused under every other. */
  lemma SeedBindsPacket(s: Word, t: Word, page: seq<Byte>)
    requires |page| == PAGE && s != t && Decode(s, page).Some?
    ensures Decode(t, page) == None
  {
    SeedBinding(s, t, page[..page[0] as nat + 3]);
  }

  /** Page binding: a packet valid on one page is refused on any page whose number differs modulo 2^16. */
  lemma PageBinding(p: nat, q: nat, page: seq<Byte>)
    requires |page| == PAGE && Decode(PageSeed(p), page).Some?
    ensures Decode(PageSeed(q), page) == if p % 0x10000 == q % 0x10000 then Decode(PageSeed(p), page) else None
  {
    if PageSeed(p) != PageSeed(q) {
      SeedBindsPacket(PageSeed(p), PageSeed(q), page);
    } else {
      assert PageSeed(p) as nat == PageSeed(q) as nat;
    }
  }

  /** Damage inside sixteen consecutive bits behind the length byte is never read as data. */
  lemma DamagedPacketIsRefused(seed: Word, data: seq<Byte>, page: seq<Byte>, j: nat)
    requires 1 <= |data| <= MAX_DATA && |page| == PAGE && page[0] as nat == |data|
    requires page[..|data| + 3] != Encode(seed, data) && DifferWithin(Encode(seed, data), page[..|data| + 3], j)
    ensures Decode(seed, page) == None
  {
    var frame := Encode(seed, data);
    SameByte(frame[0], |data|);
    ResidueIffEncoding(seed, frame, data);
    BurstIsDetected(seed, frame, page[..|data| + 3], j);
  }

  // ----- damage of any kind, the length byte included

  /** A page with the bits of e inverted is accepted exactly when its length byte is one of a packet, and
      the residue of what has the new length on the old page, with that of e from a seed of 0, makes up
      the one accepted. */
  lemma DamagedIsAccepted(seed: Word, page: seq<Byte>, e: seq<Byte>)
    requires |page| == |e| == PAGE
    ensures var n := XorBytes(page, e)[0] as nat;
            Decode(seed, XorBytes(page, e)).Some?
            <==> 1 <= n <= MAX_DATA && Xor(Crc16(seed, page[..n + 3]), Crc16(0, e[..n + 3])) == 0xB001
  {
    var damaged := XorBytes(page, e);
    var n := damaged[0] as nat;
    if n <= MAX_DATA {
      assert damaged[..n + 3] == XorBytes(page[..n + 3], e[..n + 3]);
      XorZero(seed, 0);
      Crc16IsLinear(seed, 0, page[..n + 3], e[..n + 3]);
    }
  }

  /** Data that goes on, behind its first byte, with the CRC of the packet of that byte alone: inverting one
      bit of the length byte leaves that packet. */
  lemma OneBitMisread(seed: Word, x: Byte, page: seq<Byte>)
    requires |page| == PAGE
    requires page[..6] == Encode(seed, Encode(seed, [x])[1..])
    ensures Decode(seed, page) == Some(Encode(seed, [x])[1..])
    ensures page[0] == 3 && Decode(seed, page[0 := 1]) == Some([x])
  {
    var data, frame := Encode(seed, [x])[1..], Encode(seed, Encode(seed, [x])[1..]);
    AcceptsExactlyEncodings(seed, page, data);
    SameByte(frame[0], 3);
    assert page[0] == page[..6][0];
    var damaged := page[0 := 1];
    assert damaged[1..4] == page[..6][1..4] == data;
    assert damaged[..4] == [1] + data;
    SameByte(Encode(seed, [x])[0], 1);
    assert Encode(seed, [x]) == [1] + data;
    AcceptsExactlyEncodings(seed, damaged, [x]);
  }
}
