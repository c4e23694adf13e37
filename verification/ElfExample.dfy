// A file whose program header table is not right after its header: stripping
// it loses its only segment.
module ElfExample {
  import opened ElfBytes
  import opened Elf
  import opened Sstrip

  // A 32-bit executable, little end first. The header says that there is one
  // entry at offset 84; the 32 bytes after the header are zero.
  function SampleByte(i: nat): byte {
    match i
    case 0 => 0x7f
    case 1 => 69
    case 2 => 76
    case 3 => 70
    case 4 => 1
    case 5 => 1
    case 16 => 2
    case 28 => 84
    case 40 => 52
    case 42 => 32
    case 44 => 1
    case 84 => 1
    case 115 => 1
    case _ => 0
  }

  const Sample: seq<byte> := seq(116, i requires i >= 0 => SampleByte(i))

  lemma Decode2(b: seq<byte>)
    requires |b| == 2
    ensures Decode(b) == b[0] as int + 256 * b[1] as int
  {
    assert Decode(b[1..]) == b[1] as int + 256 * Decode(b[1..][1..]);
  }

  lemma Decode4(b: seq<byte>)
    requires |b| == 4
    ensures Decode(b) == b[0] as int + 256 * b[1] as int + 65536 * Decode(b[2..])
    ensures Decode(b[2..]) == b[2] as int + 256 * b[3] as int
  {
    assert b[1..][1..] == b[2..];
    Decode2(b[2..]);
  }

  lemma SegmentLost(e: Endian)
    requires e == Endian(Lsb, false)
    ensures Recognised(Lsb, Sample) && CanStrip(Class32, e, Sample, 116, 116)
    ensures PhNumOf(Class32, e, Sample) == 1 && PhOffOf(Class32, e, Sample) == 84
    ensures var out := Stripped(Class32, e, Sample, 116);
            && |out| >= 116 && PhNumOf(Class32, e, out) == 1 && PhOffOf(Class32, e, out) == 84
            && SegmentOf(Class32, e, EntriesAt(Class32, Sample, 84, 1)[0]).kind == 1
            && SegmentOf(Class32, e, EntriesAt(Class32, out, 84, 1)[0]).kind == PT_NULL
  {
    var h := Sample[..52];
    forall i | 0 <= i < 52 ensures h[i] == SampleByte(i) {}
    Decode2(h[16..18]);
    Decode4(h[28..32]);
    Decode2(h[40..42]);
    Decode2(h[42..44]);
    Decode2(h[44..46]);
    assert Get(e, h, Class32.PhOff()) == 84;
    assert Get(e, h, Class32.PhNum()) == 1;
    SampleTable(e);
    KindFromBehindHeader(Class32, e, Sample, 116, 116, 0);
    TableOverwritten(Class32, e, Sample, 116, 116);
  }

  lemma SampleTable(e: Endian)
    requires e == Endian(Lsb, false)
    requires PhNumOf(Class32, e, Sample) == 1
    ensures SegmentOf(Class32, e, EntriesAt(Class32, Sample, 84, 1)[0]).kind == 1
    ensures SegmentOf(Class32, e, TableRead(Class32, e, Sample)[0]) == Segment(PT_NULL, 0, 0, 0)
  {
    var was, read := Sample[84..116], Sample[52..84];
    assert was[..32] == was && read[..32] == read;
    assert EntriesAt(Class32, Sample, 84, 1)[0] == was;
    assert EntriesAt(Class32, Sample, 52, 1)[0] == read;
    OwnEntry(e, was);
    ZeroEntry(e, read);
  }

  lemma OwnEntry(e: Endian, b: seq<byte>)
    requires e == Endian(Lsb, false) && |b| == 32 && b == Sample[84..116]
    ensures SegmentOf(Class32, e, b).kind == 1
  {
    forall i | 0 <= i < 32 ensures b[i] == SampleByte(84 + i) {}
    Decode4(b[0..4]);
    assert Class32.SegType() == Field(0, 4);
  }

  lemma ZeroEntry(e: Endian, b: seq<byte>)
    requires e == Endian(Lsb, false) && |b| == 32 && forall i :: 0 <= i < 32 ==> b[i] == 0
    ensures SegmentOf(Class32, e, b) == Segment(PT_NULL, 0, 0, 0)
  {
    Decode4(b[0..4]);
    Decode4(b[4..8]);
    Decode4(b[16..20]);
    Decode4(b[20..24]);
  }

  // ---- The same table, but another image ----

  // Here the two entries differ in their file size only: the one after the
  // header has none, the one in the table has four bytes, at the end.
  function DisplacedByte(i: nat): byte {
    if i == 56 || i == 88 then 116
    else if i == 72 || i == 100 || i == 104 then 4
    else if i == 52 || i == 83 || i >= 116 then 1
    else SampleByte(i)
  }

  const Displaced: seq<byte> := seq(120, i requires i >= 0 => DisplacedByte(i))

  // The adjusted entries are the same, so the table is as it should be; but
  // the image of its segment is lost.
  lemma ImageLost(e: Endian)
    requires e == Endian(Lsb, false)
    ensures Recognised(Lsb, Displaced) && CanStrip(Class32, e, Displaced, 116, 116)
    ensures PhNumOf(Class32, e, Displaced) == 1 && PhOffOf(Class32, e, Displaced) == 84
    ensures AdjustAll(Class32, e, TableRead(Class32, e, Displaced), 116) ==
            AdjustAll(Class32, e, EntriesAt(Class32, Displaced, 84, 1), 116)
    ensures var out := Stripped(Class32, e, Displaced, 116);
            && |out| >= 116
            && !SameImage(Class32, e, Displaced, out, SegmentOf(Class32, e, EntriesAt(Class32, Displaced, 84, 1)[0]),
                          SegmentOf(Class32, e, EntriesAt(Class32, out, 84, 1)[0]))
  {
    DisplacedHeader(e);
    DisplacedTable(e);
    DisplacedCovered(e);
    var own, read := Displaced[84..116], Displaced[52..84];
    SameAdjusted(e, read, own);
    OwnImageExact(Class32, e, Displaced, 116, 116, SegmentOf(Class32, e, own), 0);
    FirstByteDiffers(e);
  }

  lemma DisplacedCovered(e: Endian)
    requires e == Endian(Lsb, false)
    requires PhNumOf(Class32, e, Displaced) == 1 && PhOffOf(Class32, e, Displaced) == 84
    requires SegmentOf(Class32, e, TableRead(Class32, e, Displaced)[0]) == Segment(1, 116, 0, 4)
    ensures CanStrip(Class32, e, Displaced, 116, 116)
  {
    LastByte();
    assert Displaced[115] == DisplacedByte(115);
  }

  lemma LastByte()
    ensures DisplacedByte(115) == 1
  {
    assert SampleByte(115) == 1;
  }

  lemma FirstByteDiffers(e: Endian)
    requires e == Endian(Lsb, false)
    requires PhNumOf(Class32, e, Displaced) == 1 && PhOffOf(Class32, e, Displaced) == 84
    ensures !SameBytes(Class32, e, Displaced, Segment(1, 116, 4, 4), Segment(1, 116, 0, 4))
  {
    var own, read := Segment(1, 116, 4, 4), Segment(1, 116, 0, 4);
    assert !InHeaders(Class32, e, Displaced, own.offset + 0);
    assert Displaced[116] == DisplacedByte(116);
    assert ImageByte(Displaced, own, 0) == Displaced[116] == 1;
    assert ImageByte(Displaced, read, 0) == 0;
  }

  lemma DisplacedHeader(e: Endian)
    requires e == Endian(Lsb, false)
    ensures Recognised(Lsb, Displaced)
    ensures PhNumOf(Class32, e, Displaced) == 1 && PhOffOf(Class32, e, Displaced) == 84
  {
    var h := Displaced[..52];
    forall i | 0 <= i < 52 ensures h[i] == SampleByte(i) {}
    Decode2(h[16..18]);
    Decode4(h[28..32]);
    Decode2(h[40..42]);
    Decode2(h[42..44]);
    Decode2(h[44..46]);
    assert Get(e, h, Class32.PhOff()) == 84;
    assert Get(e, h, Class32.PhNum()) == 1;
  }

  lemma DisplacedTable(e: Endian)
    requires e == Endian(Lsb, false)
    requires PhNumOf(Class32, e, Displaced) == 1
    ensures EntriesAt(Class32, Displaced, 84, 1)[0] == Displaced[84..116]
    ensures TableRead(Class32, e, Displaced)[0] == Displaced[52..84]
    ensures SegmentOf(Class32, e, Displaced[84..116]) == Segment(1, 116, 4, 4)
    ensures SegmentOf(Class32, e, Displaced[52..84]) == Segment(1, 116, 0, 4)
  {
    var own, read := Displaced[84..116], Displaced[52..84];
    assert own[..32] == own && read[..32] == read;
    forall i | 0 <= i < 32 ensures own[i] == DisplacedByte(84 + i) && read[i] == DisplacedByte(52 + i) {}
    EntryWords(e, own);
    EntryWords(e, read);
    assert own[0] == DisplacedByte(84) && own[4] == DisplacedByte(88);
    assert own[16] == DisplacedByte(100) && own[20] == DisplacedByte(104);
    assert read[0] == DisplacedByte(52) && read[4] == DisplacedByte(56);
    assert read[16] == DisplacedByte(68) && read[20] == DisplacedByte(72);
  }

  // A little-end entry whose words are all less than 256.
  lemma EntryWords(e: Endian, b: seq<byte>)
    requires e == Endian(Lsb, false) && |b| == 32
    requires forall i :: 0 <= i < 24 && i % 4 != 0 ==> b[i] == 0
    ensures SegmentOf(Class32, e, b) == Segment(b[0], b[4], b[16], b[20])
  {
    Decode4(b[0..4]);
    Decode4(b[4..8]);
    Decode4(b[16..20]);
    Decode4(b[20..24]);
  }

  lemma SameAdjusted(e: Endian, a: seq<byte>, b: seq<byte>)
    requires e == Endian(Lsb, false) && a == Displaced[52..84] && b == Displaced[84..116]
    requires SegmentOf(Class32, e, a) == Segment(1, 116, 0, 4) && SegmentOf(Class32, e, b) == Segment(1, 116, 4, 4)
    ensures Adjust(Class32, e, a, 116) == Adjust(Class32, e, b, 116)
  {
    var o, f := Class32.Offset(), Class32.FileSize();
    var a1, b1 := Put(e, a, o, 116), Put(e, b, o, 116);
    var a2, b2 := Put(e, a1, f, 0), Put(e, b1, f, 0);
    forall i | 0 <= i < 32 ensures a2[i] == b2[i] {
      EntriesAgree(a, b, i);
      if !f.Holds(i) {
        PutAgree(e, a, b, o, 116, i);
      }
      PutAgree(e, a1, b1, f, 0, i);
    }
    assert a2 == b2;
  }

  lemma EntriesAgree(a: seq<byte>, b: seq<byte>, i: nat)
    requires a == Displaced[52..84] && b == Displaced[84..116] && i < 32
    ensures Class32.FileSize().Holds(i) || a[i] == b[i]
  {
    assert a[i] == DisplacedByte(52 + i) && b[i] == DisplacedByte(84 + i);
  }
}
