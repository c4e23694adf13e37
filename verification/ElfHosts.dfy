// Which files are stripped, and to what, is a matter of the file alone: a host
// of either byte order does the same to a file of either byte order.
module ElfHosts {
  import opened ElfBytes
  import opened Elf
  import opened Sstrip

  // The number in a field, in the given byte order.
  function Number(o: Order, b: seq<byte>, f: Field): nat
    requires f.End() <= |b|
  {
    Load(o, b[f.off..f.End()])
  }

  // An ELF file that can be handled, in terms of its bytes: the signature, the
  // class, the byte order, the sizes of header and entries, an executable or a
  // shared library, and a table of program headers.
  predicate Strippable(file: seq<byte>) {
    && |file| >= 16 && file[..4] == [0x7f, 69, 76, 70]
    && file[4] in {1, 2} && file[5] in {1, 2}
    && var c, o := if file[4] == 1 then Class32 else Class64, if file[5] == 1 then Lsb else Msb;
       && |file| >= c.EhdrSize()
       && Number(o, file, c.EhSize()) == c.EhdrSize() && Number(o, file, c.PhEntSize()) == c.PhdrSize()
       && Number(o, file, c.Type()) in {2, 3}
       && Number(o, file, c.PhOff()) > 0 && Number(o, file, c.PhNum()) > 0
       && c.EhdrSize() + Number(o, file, c.PhNum()) * c.PhdrSize() <= |file|
  }

  lemma FieldInFile(c: Class, e: Endian, file: seq<byte>, f: Field)
    requires |file| >= c.EhdrSize() >= f.End()
    ensures Get(e, file[..c.EhdrSize()], f) == Number(e.File(), file, f)
  {
    assert file[..c.EhdrSize()][f.off..f.End()] == file[f.off..f.End()];
    EgetIsFileOrder(e, file[f.off..f.End()]);
  }

  // These are the files that are recognised, on every host.
  lemma RecognisedExact(host: Order, file: seq<byte>)
    ensures Recognised(host, file) <==> Strippable(file)
  {
    if |file| >= 16 && file[4] in {1, 2} && file[5] in {1, 2} {
      var c := if file[4] == 1 then Class32 else Class64;
      if HasMagic(file) && |file| >= c.EhdrSize() {
        var e := EndianOf(host, file);
        OrderOfFile(host, file);
        FieldInFile(c, e, file, c.EhSize());
        FieldInFile(c, e, file, c.PhEntSize());
        FieldInFile(c, e, file, c.Type());
        FieldInFile(c, e, file, c.PhOff());
        FieldInFile(c, e, file, c.PhNum());
      }
    }
  }

  // Every host takes the file for what it says.
  lemma OrderOfFile(host: Order, file: seq<byte>)
    requires IdentOk(file)
    ensures EndianOf(host, file).File() == if file[5] == 1 then Lsb else Msb
  {
  }

  // ---- The same on hosts of both orders ----

  lemma SameGet(e: Endian, e': Endian, b: seq<byte>, f: Field)
    requires e.File() == e'.File() && f.End() <= |b|
    ensures Get(e, b, f) == Get(e', b, f)
  {
    EgetIsFileOrder(e, b[f.off..f.End()]);
    EgetIsFileOrder(e', b[f.off..f.End()]);
  }

  lemma SamePut(e: Endian, e': Endian, b: seq<byte>, f: Field, v: nat)
    requires e.File() == e'.File() && f.End() <= |b|
    ensures Put(e, b, f, v) == Put(e', b, f, v)
  {
    EsetIsFileOrder(e, f.width, v);
    EsetIsFileOrder(e', f.width, v);
  }

  lemma SameSegment(c: Class, e: Endian, e': Endian, entry: seq<byte>)
    requires e.File() == e'.File() && |entry| == c.PhdrSize()
    ensures SegmentOf(c, e, entry) == SegmentOf(c, e', entry)
  {
    SameGet(e, e', entry, c.SegType());
    SameGet(e, e', entry, c.Offset());
    SameGet(e, e', entry, c.FileSize());
    SameGet(e, e', entry, c.MemSize());
  }

  lemma SameAdjust(c: Class, e: Endian, e': Endian, entry: seq<byte>, newsize: nat)
    requires e.File() == e'.File() && |entry| == c.PhdrSize()
    ensures Adjust(c, e, entry, newsize) == Adjust(c, e', entry, newsize)
  {
    SameSegment(c, e, e', entry);
    var s := SegmentOf(c, e, entry);
    if s.offset >= newsize {
      SamePut(e, e', entry, c.Offset(), newsize);
      SamePut(e, e', Put(e, entry, c.Offset(), newsize), c.FileSize(), 0);
    } else if s.End() > newsize {
      SamePut(e, e', entry, c.FileSize(), newsize - s.offset);
    }
  }

  lemma SameHeader(c: Class, e: Endian, e': Endian, h: seq<byte>, newsize: nat)
    requires e.File() == e'.File() && |h| == c.EhdrSize()
    ensures AdjustHeader(c, e, h, newsize) == AdjustHeader(c, e', h, newsize)
  {
    var h1 := Put(e, h, c.ShOff(), 0);
    var h2 := Put(e, h1, c.ShNum(), 0);
    var h3 := Put(e, h2, c.ShEntSize(), 0);
    SameGet(e, e', h, c.ShOff());
    SamePut(e, e', h, c.ShOff(), 0);
    SamePut(e, e', h1, c.ShNum(), 0);
    SamePut(e, e', h2, c.ShEntSize(), 0);
    SamePut(e, e', h3, c.ShStrNdx(), 0);
  }

  lemma {:induction false} SameNeeded(c: Class, e: Endian, e': Endian, t: seq<seq<byte>>, least: nat)
    requires e.File() == e'.File() && IsTable(c, t)
    ensures Needed(c, e, t, least) == Needed(c, e', t, least)
  {
    if t != [] {
      SameSegment(c, e, e', t[|t| - 1]);
      SameNeeded(c, e, e', t[..|t| - 1], least);
    }
  }

  lemma SameTable(c: Class, e: Endian, e': Endian, file: seq<byte>)
    requires e.File() == e'.File() && |file| >= c.EhdrSize()
    ensures PhOffOf(c, e, file) == PhOffOf(c, e', file) && PhNumOf(c, e, file) == PhNumOf(c, e', file)
  {
    SameGet(e, e', file[..c.EhdrSize()], c.PhOff());
    SameGet(e, e', file[..c.EhdrSize()], c.PhNum());
  }

  lemma SameAdjustAll(c: Class, e: Endian, e': Endian, t: seq<seq<byte>>, newsize: nat)
    requires e.File() == e'.File() && IsTable(c, t)
    ensures AdjustAll(c, e, t, newsize) == AdjustAll(c, e', t, newsize)
  {
    forall i | 0 <= i < |t| ensures Adjust(c, e, t[i], newsize) == Adjust(c, e', t[i], newsize) {
      SameAdjust(c, e, e', t[i], newsize);
    }
  }

  lemma SameTableRead(c: Class, e: Endian, e': Endian, file: seq<byte>)
    requires e.File() == e'.File() && HasTable(c, e, file, c.EhdrSize())
    ensures HasTable(c, e', file, c.EhdrSize()) && TableRead(c, e, file) == TableRead(c, e', file)
  {
    SameTable(c, e, e', file);
  }

  // The size to keep depends on the file's order only, ...
  lemma SameSizeOnEveryHost(c: Class, e: Endian, e': Endian, file: seq<byte>)
    requires e.File() == e'.File() && HasTable(c, e, file, c.EhdrSize()) && HasTable(c, e', file, c.EhdrSize())
    ensures NeededSize(c, e, file) == NeededSize(c, e', file)
  {
    var t, least := TableRead(c, e, file), HeadersEnd(c, e, file);
    SameTableRead(c, e, e', file);
    SameHeadersEnd(c, e, e', file);
    SameNeeded(c, e, e', t, least);
  }

  lemma SameHeadersEnd(c: Class, e: Endian, e': Endian, file: seq<byte>)
    requires e.File() == e'.File() && |file| >= c.EhdrSize()
    ensures HeadersEnd(c, e, file) == HeadersEnd(c, e', file)
  {
    SameTable(c, e, e', file);
  }

  // ... and so does the stripped file.
  lemma SameOnEveryHost(c: Class, e: Endian, e': Endian, file: seq<byte>, newsize: nat)
    requires e.File() == e'.File() && HasTable(c, e, file, c.EhdrSize()) && HasTable(c, e', file, c.EhdrSize())
    ensures Stripped(c, e, file, newsize) == Stripped(c, e', file, newsize)
  {
    SameTable(c, e, e', file);
    SameTableRead(c, e, e', file);
    SameHeader(c, e, e', file[..c.EhdrSize()], newsize);
    SameAdjustAll(c, e, e', TableRead(c, e, file), newsize);
  }
}
