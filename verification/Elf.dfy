// ELF headers, program header tables and memory images; what stripping a file
// to a new size does to them.
module Elf {
  import opened ElfBytes

  datatype Class = Class32 | Class64
  {
    // The width of addresses and offsets, and the layout of the headers.
    function Word(): nat { if Class32? then 4 else 8 }
    function EhdrSize(): nat { if Class32? then 52 else 64 }
    function PhdrSize(): nat { if Class32? then 32 else 56 }

    function Type(): Field { Field(16, 2) }
    function PhOff(): Field { Field(if Class32? then 28 else 32, Word()) }
    function ShOff(): Field { Field(if Class32? then 32 else 40, Word()) }
    function EhSize(): Field { Field(if Class32? then 40 else 52, 2) }
    function PhEntSize(): Field { Field(if Class32? then 42 else 54, 2) }
    function PhNum(): Field { Field(if Class32? then 44 else 56, 2) }
    function ShEntSize(): Field { Field(if Class32? then 46 else 58, 2) }
    function ShNum(): Field { Field(if Class32? then 48 else 60, 2) }
    function ShStrNdx(): Field { Field(if Class32? then 50 else 62, 2) }

    function SegType(): Field { Field(0, 4) }
    function Offset(): Field { Field(if Class32? then 4 else 8, Word()) }
    function FileSize(): Field { Field(if Class32? then 16 else 32, Word()) }
    function MemSize(): Field { Field(if Class32? then 20 else 40, Word()) }
  }

  // The fields lie one behind the other, to the end of the header; between
  // these there are only the entry point, the flags, and the addresses and
  // alignment of a segment.
  lemma HeaderLayout(c: Class)
    ensures c.Type().off == 16
    ensures c.PhOff().off == c.Type().End() + 2 + 4 + c.Word() && c.ShOff().off == c.PhOff().End()
    ensures c.EhSize().off == c.ShOff().End() + 4 && c.PhEntSize().off == c.EhSize().End()
    ensures c.PhNum().off == c.PhEntSize().End() && c.ShEntSize().off == c.PhNum().End()
    ensures c.ShNum().off == c.ShEntSize().End() && c.ShStrNdx().off == c.ShNum().End()
    ensures c.ShStrNdx().End() == c.EhdrSize()
    ensures c.SegType().off == 0 && c.Offset().off == c.SegType().End() + (if c.Class64? then 4 else 0)
    ensures c.FileSize().off == c.Offset().End() + 2 * c.Word() && c.MemSize().off == c.FileSize().End()
    ensures c.MemSize().End() + (if c.Class32? then 4 else 0) + c.Word() == c.PhdrSize()
    ensures 8 * c.Word() == if c.Class32? then 32 else 64
  {
  }

  const PT_NULL := 0

  // unsigned long is 64 bits wide
  const ULong := 0x1_0000_0000_0000_0000

  // off_t is signed
  const MaxOffset := 0x8000_0000_0000_0000

  predicate IsTable(c: Class, t: seq<seq<byte>>) {
    forall i :: 0 <= i < |t| ==> |t[i]| == c.PhdrSize()
  }

  // ---- The table in the file ----

  function Flatten(t: seq<seq<byte>>): seq<byte> {
    if t == [] then [] else t[0] + Flatten(t[1..])
  }

  function Chunks(c: Class, b: seq<byte>, n: nat): seq<seq<byte>>
    requires |b| == n * c.PhdrSize()
  {
    if n == 0 then [] else [b[..c.PhdrSize()]] + Chunks(c, b[c.PhdrSize()..], n - 1)
  }

  lemma {:induction false} ChunksIsTable(c: Class, b: seq<byte>, n: nat)
    requires |b| == n * c.PhdrSize()
    ensures IsTable(c, Chunks(c, b, n)) && |Chunks(c, b, n)| == n
  {
    if n > 0 {
      ChunksIsTable(c, b[c.PhdrSize()..], n - 1);
    }
  }

  lemma {:induction false} ChunksOfFlatten(c: Class, t: seq<seq<byte>>)
    requires IsTable(c, t)
    ensures |Flatten(t)| == |t| * c.PhdrSize()
    ensures Chunks(c, Flatten(t), |t|) == t
  {
    if t != [] {
      ChunksOfFlatten(c, t[1..]);
      assert Flatten(t)[c.PhdrSize()..] == Flatten(t[1..]);
    }
  }

  // ---- Changing the headers ----

  // What an entry says of its segment.
  datatype Segment = Segment(kind: nat, offset: nat, filesz: nat, memsz: nat)
  {
    function End(): nat {
      (offset + filesz) % ULong
    }

    predicate NoWrap() {
      offset + filesz < ULong
    }

    // The segment in a file that ends at newsize.
    function Cut(newsize: nat): Segment {
      if offset >= newsize then this.(offset := newsize, filesz := 0)
      else if End() > newsize then this.(filesz := newsize - offset)
      else this
    }
  }

  function SegmentOf(c: Class, e: Endian, entry: seq<byte>): Segment
    requires |entry| == c.PhdrSize()
  {
    Segment(Get(e, entry, c.SegType()), Get(e, entry, c.Offset()), Get(e, entry, c.FileSize()), Get(e, entry, c.MemSize()))
  }

  lemma SegmentBound(c: Class, e: Endian, entry: seq<byte>)
    requires |entry| == c.PhdrSize()
    ensures var s := SegmentOf(c, e, entry);
            s.offset < Pow(c.Word()) && s.filesz < Pow(c.Word())
  {
    GetBound(e, entry, c.Offset());
    GetBound(e, entry, c.FileSize());
  }

  lemma NoWrapIn32(e: Endian, entry: seq<byte>)
    requires |entry| == Class32.PhdrSize()
    ensures SegmentOf(Class32, e, entry).NoWrap()
  {
    SegmentBound(Class32, e, entry);
    Pows();
  }

  function Adjust(c: Class, e: Endian, entry: seq<byte>, newsize: nat): (r: seq<byte>)
    requires |entry| == c.PhdrSize()
    ensures |r| == c.PhdrSize()
  {
    var o := Get(e, entry, c.Offset());
    if o >= newsize then Put(e, Put(e, entry, c.Offset(), newsize), c.FileSize(), 0)
    else if SegmentOf(c, e, entry).End() > newsize then Put(e, entry, c.FileSize(), newsize - o)
    else entry
  }

  function AdjustAll(c: Class, e: Endian, t: seq<seq<byte>>, newsize: nat): (r: seq<seq<byte>>)
    requires IsTable(c, t)
    ensures IsTable(c, r) && |r| == |t|
  {
    seq(|t|, i requires 0 <= i < |t| => Adjust(c, e, t[i], newsize))
  }

  function AdjustHeader(c: Class, e: Endian, h: seq<byte>, newsize: nat): (r: seq<byte>)
    requires |h| == c.EhdrSize()
    ensures |r| == c.EhdrSize()
  {
    if Get(e, h, c.ShOff()) >= newsize then
      Put(e, Put(e, Put(e, Put(e, h, c.ShOff(), 0), c.ShNum(), 0), c.ShEntSize(), 0), c.ShStrNdx(), 0)
    else h
  }

  // The header keeps everything but the reference to the section headers,
  // which is removed exactly if they began beyond the new size.
  lemma HeaderAdjusted(c: Class, e: Endian, h: seq<byte>, newsize: nat, f: Field)
    requires |h| == c.EhdrSize() && f.End() <= |h|
    requires Apart(f, c.ShOff()) && Apart(f, c.ShNum()) && Apart(f, c.ShEntSize()) && Apart(f, c.ShStrNdx())
    ensures Get(e, AdjustHeader(c, e, h, newsize), f) == Get(e, h, f)
    ensures newsize > 0 ==> Get(e, AdjustHeader(c, e, h, newsize), c.ShOff()) < newsize
  {
    var h1 := Put(e, h, c.ShOff(), 0);
    var h2 := Put(e, h1, c.ShNum(), 0);
    var h3 := Put(e, h2, c.ShEntSize(), 0);
    PutElsewhere(e, h, c.ShOff(), 0, f);
    PutElsewhere(e, h1, c.ShNum(), 0, f);
    PutElsewhere(e, h2, c.ShEntSize(), 0, f);
    PutElsewhere(e, h3, c.ShStrNdx(), 0, f);
    PutGet(e, h, c.ShOff(), 0);
    PutElsewhere(e, h1, c.ShNum(), 0, c.ShOff());
    PutElsewhere(e, h2, c.ShEntSize(), 0, c.ShOff());
    PutElsewhere(e, h3, c.ShStrNdx(), 0, c.ShOff());
  }

  // If the section headers began beyond the new size, all four fields that
  // refer to them are zero; else the header is as it was.
  lemma HeaderCleared(c: Class, e: Endian, h: seq<byte>, newsize: nat)
    requires |h| == c.EhdrSize()
    ensures var r := AdjustHeader(c, e, h, newsize);
            if Get(e, h, c.ShOff()) >= newsize then
              Get(e, r, c.ShOff()) == Get(e, r, c.ShNum()) == Get(e, r, c.ShEntSize()) == Get(e, r, c.ShStrNdx()) == 0
            else r == h
  {
    var h1 := Put(e, h, c.ShOff(), 0);
    var h2 := Put(e, h1, c.ShNum(), 0);
    var h3 := Put(e, h2, c.ShEntSize(), 0);
    ZeroStays(e, h, c.ShOff(), c.ShNum());
    ZeroStays(e, h1, c.ShNum(), c.ShEntSize());
    ZeroStays(e, h2, c.ShEntSize(), c.ShStrNdx());
    PutGet(e, h3, c.ShStrNdx(), 0);
    PutElsewhere(e, h2, c.ShEntSize(), 0, c.ShOff());
    PutElsewhere(e, h3, c.ShStrNdx(), 0, c.ShOff());
    PutElsewhere(e, h3, c.ShStrNdx(), 0, c.ShNum());
  }

  // A field that is zero is still zero after another one is cleared.
  lemma ZeroStays(e: Endian, b: seq<byte>, f: Field, g: Field)
    requires f.End() <= |b| && g.End() <= |b| && Apart(f, g)
    ensures var b1 := Put(e, b, f, 0);
            Get(e, b1, f) == 0 == Get(e, Put(e, b1, g, 0), f)
  {
    PutGet(e, b, f, 0);
    PutElsewhere(e, Put(e, b, f, 0), g, 0, f);
  }

  lemma PutOffset(c: Class, e: Endian, entry: seq<byte>, v: nat)
    requires |entry| == c.PhdrSize() && v < Pow(c.Word())
    ensures SegmentOf(c, e, Put(e, entry, c.Offset(), v)) == SegmentOf(c, e, entry).(offset := v)
  {
    PutGet(e, entry, c.Offset(), v);
    PutElsewhere(e, entry, c.Offset(), v, c.SegType());
    PutElsewhere(e, entry, c.Offset(), v, c.FileSize());
    PutElsewhere(e, entry, c.Offset(), v, c.MemSize());
  }

  lemma PutFileSize(c: Class, e: Endian, entry: seq<byte>, v: nat)
    requires |entry| == c.PhdrSize() && v < Pow(c.Word())
    ensures SegmentOf(c, e, Put(e, entry, c.FileSize(), v)) == SegmentOf(c, e, entry).(filesz := v)
  {
    PutGet(e, entry, c.FileSize(), v);
    PutElsewhere(e, entry, c.FileSize(), v, c.SegType());
    PutElsewhere(e, entry, c.FileSize(), v, c.Offset());
    PutElsewhere(e, entry, c.FileSize(), v, c.MemSize());
  }

  // The new values fit the fields.
  lemma EntryAdjusted(c: Class, e: Endian, entry: seq<byte>, newsize: nat)
    requires |entry| == c.PhdrSize()
    ensures SegmentOf(c, e, Adjust(c, e, entry, newsize)) == SegmentOf(c, e, entry).Cut(newsize)
  {
    var s := SegmentOf(c, e, entry);
    SegmentBound(c, e, entry);
    if s.offset >= newsize {
      PutOffset(c, e, entry, newsize);
      PutFileSize(c, e, Put(e, entry, c.Offset(), newsize), 0);
    } else if s.End() > newsize {
      PutFileSize(c, e, entry, newsize - s.offset);
    }
  }

  // All else in the entry is kept.
  lemma EntryKept(c: Class, e: Endian, entry: seq<byte>, newsize: nat, i: nat)
    requires |entry| == c.PhdrSize() && i < |entry| && !c.Offset().Holds(i) && !c.FileSize().Holds(i)
    ensures Adjust(c, e, entry, newsize)[i] == entry[i]
  {
  }

  // An adjusted segment is within the new size, unless it began there and its
  // end wraps around to no more than the new size.
  lemma CutWithin(s: Segment, newsize: nat)
    requires newsize < ULong && s.offset < ULong && s.filesz < ULong
    ensures s.Cut(newsize).offset + s.Cut(newsize).filesz <= newsize <==>
            (s.NoWrap() || s.offset >= newsize || s.End() > newsize)
  {
  }

  // A segment that is cut ends at the new size; one that need not be is kept.
  lemma CutEnds(s: Segment, newsize: nat)
    requires newsize < ULong
    ensures var r := s.Cut(newsize);
            && r.kind == s.kind && r.memsz == s.memsz
            && (s.offset >= newsize || s.End() > newsize ==> r.offset + r.filesz == newsize)
            && (s.offset < newsize ==> r.offset == s.offset)
            && (s.offset < newsize && s.End() <= newsize ==> r == s)
  {
  }

  // ---- The file ----

  // Writing at a position; a gap before it is filled with zeros.
  function Overwrite(file: seq<byte>, at: nat, b: seq<byte>): seq<byte> {
    var padded := if at <= |file| then file else file + seq(at - |file|, _ => 0 as byte);
    padded[..at] + b + (if at + |b| <= |file| then file[at + |b|..] else [])
  }

  function Resize(file: seq<byte>, size: nat): (r: seq<byte>)
    ensures |r| == size
  {
    if size <= |file| then file[..size] else file + seq(size - |file|, _ => 0 as byte)
  }

  function Max(a: nat, b: nat): nat {
    if a > b then a else b
  }

  function Min(a: nat, b: nat): nat {
    if a < b then a else b
  }

  function PhNumOf(c: Class, e: Endian, file: seq<byte>): nat
    requires |file| >= c.EhdrSize()
  {
    Get(e, file[..c.EhdrSize()], c.PhNum())
  }

  function PhOffOf(c: Class, e: Endian, file: seq<byte>): nat
    requires |file| >= c.EhdrSize()
  {
    Get(e, file[..c.EhdrSize()], c.PhOff())
  }

  function TableSize(c: Class, e: Endian, file: seq<byte>): nat
    requires |file| >= c.EhdrSize()
  {
    PhNumOf(c, e, file) * c.PhdrSize()
  }

  predicate HasTable(c: Class, e: Endian, file: seq<byte>, at: nat) {
    |file| >= c.EhdrSize() && at + TableSize(c, e, file) <= |file|
  }

  // n entries from a position on.
  function EntriesAt(c: Class, file: seq<byte>, at: nat, n: nat): (t: seq<seq<byte>>)
    requires at + n * c.PhdrSize() <= |file|
    ensures IsTable(c, t) && |t| == n
  {
    ChunksIsTable(c, file[at..at + n * c.PhdrSize()], n);
    Chunks(c, file[at..at + n * c.PhdrSize()], n)
  }

  // The program reads the table right after the header, wherever the header
  // says it is, but writes it where the header says.
  function TableRead(c: Class, e: Endian, file: seq<byte>): (t: seq<seq<byte>>)
    requires HasTable(c, e, file, c.EhdrSize())
    ensures IsTable(c, t) && |t| == PhNumOf(c, e, file)
  {
    EntriesAt(c, file, c.EhdrSize(), PhNumOf(c, e, file))
  }

  predicate Reaches(s: Segment, size: nat) {
    s.kind != PT_NULL ==> s.End() <= size
  }

  // size covers the header, the table and all segments.
  predicate Covers(c: Class, e: Endian, file: seq<byte>, size: nat)
    requires HasTable(c, e, file, c.EhdrSize())
  {
    && c.EhdrSize() <= size && PhOffOf(c, e, file) + TableSize(c, e, file) <= size
    && forall i :: 0 <= i < PhNumOf(c, e, file) ==> Reaches(SegmentOf(c, e, TableRead(c, e, file)[i]), size)
  }

  // The greatest of the given size and the ends of the segments.
  function Needed(c: Class, e: Endian, t: seq<seq<byte>>, least: nat): nat
    requires IsTable(c, t)
  {
    if t == [] then least
    else
      var s := SegmentOf(c, e, t[|t| - 1]);
      var n := Needed(c, e, t[..|t| - 1], least);
      if s.kind == PT_NULL then n else Max(n, s.End())
  }

  // For the first i segments.
  function NeededUpTo(c: Class, e: Endian, t: seq<seq<byte>>, i: nat, least: nat): nat
    requires IsTable(c, t) && i <= |t|
  {
    Needed(c, e, t[..i], least)
  }

  lemma NeededStep(c: Class, e: Endian, t: seq<seq<byte>>, i: nat, least: nat)
    requires IsTable(c, t) && i < |t|
    ensures var s, n := SegmentOf(c, e, t[i]), NeededUpTo(c, e, t, i, least);
            NeededUpTo(c, e, t, i + 1, least) == if s.kind == PT_NULL then n else Max(n, s.End())
  {
    assert t[..i + 1][..i] == t[..i];
  }

  lemma {:induction false} NeededIs(c: Class, e: Endian, t: seq<seq<byte>>, least: nat)
    requires IsTable(c, t)
    ensures var n := Needed(c, e, t, least);
            && least <= n && (forall i :: 0 <= i < |t| ==> Reaches(SegmentOf(c, e, t[i]), n))
            && (n == least || exists i :: 0 <= i < |t| && SegmentOf(c, e, t[i]).kind != PT_NULL && SegmentOf(c, e, t[i]).End() == n)
  {
    if t != [] {
      NeededIs(c, e, t[..|t| - 1], least);
    }
  }

  function HeadersEnd(c: Class, e: Endian, file: seq<byte>): nat
    requires |file| >= c.EhdrSize()
  {
    Max((PhOffOf(c, e, file) + TableSize(c, e, file)) % ULong, c.EhdrSize())
  }

  function NeededSize(c: Class, e: Endian, file: seq<byte>): nat
    requires HasTable(c, e, file, c.EhdrSize())
  {
    Needed(c, e, TableRead(c, e, file), HeadersEnd(c, e, file))
  }

  // If the table's offset is one that can be seeked to, the needed size covers
  // everything.
  lemma NeededCovers(c: Class, e: Endian, file: seq<byte>)
    requires HasTable(c, e, file, c.EhdrSize()) && PhOffOf(c, e, file) < MaxOffset
    ensures Covers(c, e, file, NeededSize(c, e, file))
  {
    NeededIs(c, e, TableRead(c, e, file), HeadersEnd(c, e, file));
    TableIsSmall(c, e, file);
  }

  // No smaller size does.
  lemma NeededIsLeast(c: Class, e: Endian, file: seq<byte>, size: nat)
    requires HasTable(c, e, file, c.EhdrSize()) && Covers(c, e, file, size)
    ensures NeededSize(c, e, file) <= size
  {
    NeededIs(c, e, TableRead(c, e, file), HeadersEnd(c, e, file));
  }

  lemma TableIsSmall(c: Class, e: Endian, file: seq<byte>)
    requires |file| >= c.EhdrSize()
    ensures TableSize(c, e, file) <= 0x1_0000 * 56
  {
    GetBound(e, file[..c.EhdrSize()], c.PhNum());
    Pows();
  }

  // newsize is what is left of size without the zeros at the end.
  predicate ZerosCut(file: seq<byte>, size: nat, newsize: nat) {
    && 0 < newsize <= size <= |file| && file[newsize - 1] != 0
    && forall i :: newsize <= i < size ==> file[i] == 0
  }

  predicate CanStrip(c: Class, e: Endian, file: seq<byte>, size: nat, newsize: nat) {
    HasTable(c, e, file, c.EhdrSize()) && Covers(c, e, file, size) && ZerosCut(file, size, newsize)
  }

  function Stripped(c: Class, e: Endian, file: seq<byte>, newsize: nat): seq<byte>
    requires HasTable(c, e, file, c.EhdrSize())
  {
    var header := AdjustHeader(c, e, file[..c.EhdrSize()], newsize);
    var table := Flatten(AdjustAll(c, e, TableRead(c, e, file), newsize));
    var phoff := PhOffOf(c, e, file);
    Resize(Overwrite(Overwrite(file, 0, header), phoff, table), Max(newsize, phoff + TableSize(c, e, file)))
  }

  // The bytes of the header and of the table.
  predicate InHeaders(c: Class, e: Endian, file: seq<byte>, i: nat)
    requires |file| >= c.EhdrSize()
  {
    i < c.EhdrSize() || PhOffOf(c, e, file) <= i < PhOffOf(c, e, file) + TableSize(c, e, file)
  }

  lemma TableSizeIs(c: Class, e: Endian, file: seq<byte>, newsize: nat)
    requires HasTable(c, e, file, c.EhdrSize())
    ensures |Flatten(AdjustAll(c, e, TableRead(c, e, file), newsize))| == TableSize(c, e, file)
  {
    ChunksOfFlatten(c, AdjustAll(c, e, TableRead(c, e, file), newsize));
  }

  lemma Overwritten(file: seq<byte>, at: nat, b: seq<byte>)
    requires at + |b| <= |file|
    ensures var r := Overwrite(file, at, b);
            && |r| == |file| && r[at..at + |b|] == b
            && (forall i :: 0 <= i < |file| && !(at <= i < at + |b|) ==> r[i] == file[i])
            && (forall i, j :: 0 <= i <= j <= |file| && (j <= at || at + |b| <= i) ==> r[i..j] == file[i..j])
  {
  }

  // The new file is no longer than the size before the zeros were cut, has
  // the adjusted headers, and is else the same as far as it goes.
  lemma StrippedBytes(c: Class, e: Endian, file: seq<byte>, size: nat, newsize: nat)
    requires CanStrip(c, e, file, size, newsize)
    ensures var out := Stripped(c, e, file, newsize);
            var phoff := PhOffOf(c, e, file);
            && newsize <= |out| == Max(newsize, phoff + TableSize(c, e, file)) <= size
            && (forall i :: 0 <= i < |out| && !InHeaders(c, e, file, i) ==> out[i] == file[i])
            && out[phoff..phoff + TableSize(c, e, file)] == Flatten(AdjustAll(c, e, TableRead(c, e, file), newsize))
            && (var kept := Min(phoff, c.EhdrSize());
                out[..kept] == AdjustHeader(c, e, file[..c.EhdrSize()], newsize)[..kept])
  {
    var header := AdjustHeader(c, e, file[..c.EhdrSize()], newsize);
    var table := Flatten(AdjustAll(c, e, TableRead(c, e, file), newsize));
    TableSizeIs(c, e, file, newsize);
    Written(file, header, table, PhOffOf(c, e, file), Max(newsize, PhOffOf(c, e, file) + TableSize(c, e, file)));
  }

  lemma Written(file: seq<byte>, header: seq<byte>, table: seq<byte>, at: nat, length: nat)
    requires |header| <= |file| && at + |table| <= length <= |file|
    ensures var out := Resize(Overwrite(Overwrite(file, 0, header), at, table), length);
            && (forall i :: |header| <= i < length && !(at <= i < at + |table|) ==> out[i] == file[i])
            && out[at..at + |table|] == table
            && (var kept := Min(at, |header|);
                out[..kept] == header[..kept])
  {
    var first := Overwrite(file, 0, header);
    Overwritten(file, 0, header);
    Overwritten(first, at, table);
    var out := Resize(Overwrite(first, at, table), length);
    assert out[at..at + |table|] == Overwrite(first, at, table)[at..at + |table|];
    var kept := Min(at, |header|);
    assert out[0..kept] == Overwrite(first, at, table)[0..kept] == first[0..kept];
    assert first[0..kept] == header[..kept];
  }

  // ---- Memory images ----

  // Byte k of the image of a segment: from the file, or zero beyond the part
  // that is in the file.
  function ImageByte(file: seq<byte>, s: Segment, k: nat): byte {
    if k < s.filesz && s.offset + k < |file| then file[s.offset + k] else 0
  }

  // The cut segment has the same image in the new file as the segment had in
  // the old one, but for bytes of the headers; and it is within the new file.
  ghost predicate SameImage(c: Class, e: Endian, file: seq<byte>, out: seq<byte>, was: Segment, now: Segment)
    requires |file| >= c.EhdrSize()
  {
    && now.kind == was.kind && now.memsz == was.memsz && now.offset + now.filesz <= |out|
    && forall k: nat :: InHeaders(c, e, file, was.offset + k) || ImageByte(out, now, k) == ImageByte(file, was, k)
  }

  lemma CutKeepsImage(c: Class, e: Endian, file: seq<byte>, size: nat, newsize: nat, out: seq<byte>, s: Segment)
    requires |file| >= c.EhdrSize() && ZerosCut(file, size, newsize) && newsize <= |out| <= size
    requires forall i :: 0 <= i < |out| && !InHeaders(c, e, file, i) ==> out[i] == file[i]
    requires s.NoWrap() && s.End() <= size
    ensures SameImage(c, e, file, out, s, s.Cut(newsize))
  {
    EndIs(s);
    var now := s.Cut(newsize);
    forall k: nat | !InHeaders(c, e, file, s.offset + k) ensures ImageByte(out, now, k) == ImageByte(file, s, k) {
      var i := s.offset + k;
      CutKeepsByte(file, size, newsize, out, s, k, i);
    }
  }

  lemma EndIs(s: Segment)
    requires s.NoWrap()
    ensures s.End() == s.offset + s.filesz
  {
  }

  // One byte: within the new size it is the same, beyond it is zero.
  lemma CutKeepsByte(file: seq<byte>, size: nat, newsize: nat, out: seq<byte>, s: Segment, k: nat, i: nat)
    requires ZerosCut(file, size, newsize) && newsize <= |out| <= size && i == s.offset + k
    requires s.End() == s.offset + s.filesz <= size
    requires i < |out| ==> out[i] == file[i]
    ensures ImageByte(out, s.Cut(newsize), k) == ImageByte(file, s, k)
  {
    if k < s.filesz && i >= newsize {
      assert file[i] == 0;
    }
  }

  // A segment whose end wraps around cannot be cut right: it keeps its image
  // only if it begins beyond the new size, where all of the file is zero.
  lemma WrappedImage(c: Class, e: Endian, file: seq<byte>, size: nat, newsize: nat, out: seq<byte>, s: Segment)
    requires |file| >= c.EhdrSize() && ZerosCut(file, size, newsize) && newsize <= |out| <= size
    requires forall i: nat :: InHeaders(c, e, file, i) ==> i < size
    requires |file| < MaxOffset && s.offset < ULong && s.filesz < ULong && !s.NoWrap()
    ensures SameImage(c, e, file, out, s, s.Cut(newsize)) <==> s.offset >= newsize && ZeroFrom(file, Max(size, s.offset))
  {
    var now := s.Cut(newsize);
    if s.offset < newsize {
      assert now == s;
    } else if ZeroFrom(file, Max(size, s.offset)) {
      assert forall i :: s.offset <= i < |file| ==> file[i] == 0;
    } else {
      var i :| Max(size, s.offset) <= i < |file| && file[i] != 0;
      var k: nat := i - s.offset;
      assert !InHeaders(c, e, file, s.offset + k) && ImageByte(out, now, k) != ImageByte(file, s, k);
    }
  }

  predicate ZeroFrom(file: seq<byte>, at: nat) {
    forall j :: at <= j < |file| ==> file[j] == 0
  }

  // So a segment of the table that was read keeps its image exactly if its end
  // does not wrap around, or it is such a one.
  lemma ImageExact(c: Class, e: Endian, file: seq<byte>, size: nat, newsize: nat, i: nat)
    requires CanStrip(c, e, file, size, newsize) && i < PhNumOf(c, e, file) && |file| < MaxOffset
    requires SegmentOf(c, e, TableRead(c, e, file)[i]).kind != PT_NULL
    ensures var s := SegmentOf(c, e, TableRead(c, e, file)[i]);
            SameImage(c, e, file, Stripped(c, e, file, newsize), s,
                      SegmentOf(c, e, AdjustAll(c, e, TableRead(c, e, file), newsize)[i])) <==>
            s.NoWrap() || (s.offset >= newsize && ZeroFrom(file, Max(size, s.offset)))
  {
    var entry := TableRead(c, e, file)[i];
    var s := SegmentOf(c, e, entry);
    if s.NoWrap() {
      ImagePreserved(c, e, file, size, newsize, i);
    } else {
      EntryAdjusted(c, e, entry, newsize);
      StrippedBytes(c, e, file, size, newsize);
      SegmentBound(c, e, entry);
      Pows();
      WrappedImage(c, e, file, size, newsize, Stripped(c, e, file, newsize), s);
    }
  }

  // In a 32-bit file no end wraps around.
  lemma ImagePreserved32(e: Endian, file: seq<byte>, size: nat, newsize: nat, i: nat)
    requires CanStrip(Class32, e, file, size, newsize) && i < PhNumOf(Class32, e, file)
    requires SegmentOf(Class32, e, TableRead(Class32, e, file)[i]).kind != PT_NULL
    ensures SameImage(Class32, e, file, Stripped(Class32, e, file, newsize), SegmentOf(Class32, e, TableRead(Class32, e, file)[i]),
                      SegmentOf(Class32, e, AdjustAll(Class32, e, TableRead(Class32, e, file), newsize)[i]))
  {
    NoWrapIn32(e, TableRead(Class32, e, file)[i]);
    ImagePreserved(Class32, e, file, size, newsize, i);
  }

  // For every segment in the table that was read.
  lemma ImagePreserved(c: Class, e: Endian, file: seq<byte>, size: nat, newsize: nat, i: nat)
    requires CanStrip(c, e, file, size, newsize) && i < PhNumOf(c, e, file)
    requires SegmentOf(c, e, TableRead(c, e, file)[i]).kind != PT_NULL
    requires SegmentOf(c, e, TableRead(c, e, file)[i]).NoWrap()
    ensures SameImage(c, e, file, Stripped(c, e, file, newsize), SegmentOf(c, e, TableRead(c, e, file)[i]),
                      SegmentOf(c, e, AdjustAll(c, e, TableRead(c, e, file), newsize)[i]))
  {
    var s := SegmentOf(c, e, TableRead(c, e, file)[i]);
    EntryAdjusted(c, e, TableRead(c, e, file)[i], newsize);
    StrippedBytes(c, e, file, size, newsize);
    assert Reaches(s, size);
    CutKeepsImage(c, e, file, size, newsize, Stripped(c, e, file, newsize), s);
  }

  lemma HeaderKept(c: Class, e: Endian, file: seq<byte>, size: nat, newsize: nat)
    requires CanStrip(c, e, file, size, newsize) && PhOffOf(c, e, file) >= c.EhdrSize()
    ensures var out := Stripped(c, e, file, newsize);
            |out| >= c.EhdrSize() && PhNumOf(c, e, out) == PhNumOf(c, e, file) && PhOffOf(c, e, out) == PhOffOf(c, e, file)
  {
    var header := AdjustHeader(c, e, file[..c.EhdrSize()], newsize);
    StrippedBytes(c, e, file, size, newsize);
    assert header[..c.EhdrSize()] == header;
    HeaderAdjusted(c, e, file[..c.EhdrSize()], newsize, c.PhNum());
    HeaderAdjusted(c, e, file[..c.EhdrSize()], newsize, c.PhOff());
  }

  // So it is in the new file, if the table is not written over the header.
  lemma SectionsForgotten(c: Class, e: Endian, file: seq<byte>, size: nat, newsize: nat)
    requires CanStrip(c, e, file, size, newsize) && PhOffOf(c, e, file) >= c.EhdrSize()
    ensures var out, h := Stripped(c, e, file, newsize), file[..c.EhdrSize()];
            && |out| >= c.EhdrSize()
            && (if Get(e, h, c.ShOff()) >= newsize then
                  Get(e, out, c.ShOff()) == Get(e, out, c.ShNum()) == Get(e, out, c.ShEntSize()) == Get(e, out, c.ShStrNdx()) == 0
                else out[..c.EhdrSize()] == h)
  {
    var out, h := Stripped(c, e, file, newsize), file[..c.EhdrSize()];
    HeaderKept(c, e, file, size, newsize);
    StrippedBytes(c, e, file, size, newsize);
    var r := AdjustHeader(c, e, h, newsize);
    assert out[..c.EhdrSize()] == r[..c.EhdrSize()] == r;
    HeaderCleared(c, e, h, newsize);
    FieldOfPrefix(e, out, c.EhdrSize(), c.ShOff());
    FieldOfPrefix(e, out, c.EhdrSize(), c.ShNum());
    FieldOfPrefix(e, out, c.EhdrSize(), c.ShEntSize());
    FieldOfPrefix(e, out, c.EhdrSize(), c.ShStrNdx());
  }

  lemma FieldOfPrefix(e: Endian, b: seq<byte>, n: nat, f: Field)
    requires f.End() <= n <= |b|
    ensures Get(e, b, f) == Get(e, b[..n], f)
  {
    assert b[..n][f.off..f.End()] == b[f.off..f.End()];
  }

  // Where the header says the table is there are afterwards the adjusted bytes
  // from after the header, whatever was there before. If that is not inside
  // the header, the header still says the same.
  lemma TableOverwritten(c: Class, e: Endian, file: seq<byte>, size: nat, newsize: nat)
    requires CanStrip(c, e, file, size, newsize)
    ensures var out, phoff, n := Stripped(c, e, file, newsize), PhOffOf(c, e, file), PhNumOf(c, e, file);
            && phoff + n * c.PhdrSize() <= |out|
            && EntriesAt(c, out, phoff, n) == AdjustAll(c, e, TableRead(c, e, file), newsize)
            && (phoff >= c.EhdrSize() ==>
                  |out| >= c.EhdrSize() && PhNumOf(c, e, out) == n && PhOffOf(c, e, out) == phoff)
  {
    StrippedBytes(c, e, file, size, newsize);
    EntriesOfFlatten(c, Stripped(c, e, file, newsize), PhOffOf(c, e, file), AdjustAll(c, e, TableRead(c, e, file), newsize));
    if PhOffOf(c, e, file) >= c.EhdrSize() {
      HeaderKept(c, e, file, size, newsize);
    }
  }

  lemma EntriesOfFlatten(c: Class, file: seq<byte>, at: nat, t: seq<seq<byte>>)
    requires IsTable(c, t) && at + |t| * c.PhdrSize() <= |file|
    requires file[at..at + |t| * c.PhdrSize()] == Flatten(t)
    ensures EntriesAt(c, file, at, |t|) == t
  {
    ChunksOfFlatten(c, t);
  }

  // So the old table, adjusted, is there exactly if the bytes after the header,
  // adjusted, are the same.
  lemma TableKeptExactly(c: Class, e: Endian, file: seq<byte>, size: nat, newsize: nat)
    requires CanStrip(c, e, file, size, newsize)
    ensures var out, phoff, n := Stripped(c, e, file, newsize), PhOffOf(c, e, file), PhNumOf(c, e, file);
            && phoff + n * c.PhdrSize() <= |out| && phoff + n * c.PhdrSize() <= |file|
            && (EntriesAt(c, out, phoff, n) == AdjustAll(c, e, EntriesAt(c, file, phoff, n), newsize) <==>
                AdjustAll(c, e, TableRead(c, e, file), newsize) == AdjustAll(c, e, EntriesAt(c, file, phoff, n), newsize))
  {
    TableOverwritten(c, e, file, size, newsize);
  }

  // A table that begins inside the header is written over it: the fields under
  // the table become bytes of the adjusted entries, ...
  lemma FieldUnderTable(c: Class, e: Endian, file: seq<byte>, size: nat, newsize: nat, f: Field)
    requires CanStrip(c, e, file, size, newsize)
    requires PhOffOf(c, e, file) <= f.off && f.End() <= PhOffOf(c, e, file) + TableSize(c, e, file)
    ensures var out, phoff := Stripped(c, e, file, newsize), PhOffOf(c, e, file);
            var table := Flatten(AdjustAll(c, e, TableRead(c, e, file), newsize));
            && |table| == TableSize(c, e, file) && f.End() <= |out|
            && Get(e, out, f) == Get(e, table, Field(f.off - phoff, f.width))
  {
    var out, phoff := Stripped(c, e, file, newsize), PhOffOf(c, e, file);
    StrippedBytes(c, e, file, size, newsize);
    TableSizeIs(c, e, file, newsize);
    FieldInSlice(e, out, phoff, Flatten(AdjustAll(c, e, TableRead(c, e, file), newsize)), f);
  }

  lemma FieldInSlice(e: Endian, b: seq<byte>, at: nat, t: seq<byte>, f: Field)
    requires at + |t| <= |b| && b[at..at + |t|] == t && at <= f.off && f.End() <= at + |t|
    ensures Get(e, b, f) == Get(e, t, Field(f.off - at, f.width))
  {
    SliceOfSlice(b, at, at + |t|, f.off, f.End());
  }

  // ... and only those before the table are what they should be.
  lemma FieldBeforeTable(c: Class, e: Endian, file: seq<byte>, size: nat, newsize: nat, f: Field)
    requires CanStrip(c, e, file, size, newsize) && f.End() <= PhOffOf(c, e, file) && f.End() <= c.EhdrSize()
    ensures var out := Stripped(c, e, file, newsize);
            f.End() <= |out| && Get(e, out, f) == Get(e, AdjustHeader(c, e, file[..c.EhdrSize()], newsize), f)
  {
    var out, kept := Stripped(c, e, file, newsize), Min(PhOffOf(c, e, file), c.EhdrSize());
    StrippedBytes(c, e, file, size, newsize);
    SliceOfSlice(out, 0, kept, f.off, f.End());
    SliceOfSlice(AdjustHeader(c, e, file[..c.EhdrSize()], newsize), 0, kept, f.off, f.End());
  }

  lemma SliceOfSlice<T>(s: seq<T>, i: nat, j: nat, k: nat, l: nat)
    requires i <= k <= l <= j <= |s|
    ensures s[i..j][k - i..l - i] == s[k..l]
  {
    var a, b := s[i..j][k - i..l - i], s[k..l];
    assert |a| == |b| && forall m :: 0 <= m < |a| ==> a[m] == b[m];
  }

  // In particular each entry's type becomes what the bytes after the header
  // say.
  lemma KindFromBehindHeader(c: Class, e: Endian, file: seq<byte>, size: nat, newsize: nat, i: nat)
    requires CanStrip(c, e, file, size, newsize) && i < PhNumOf(c, e, file)
    ensures var out, phoff, n := Stripped(c, e, file, newsize), PhOffOf(c, e, file), PhNumOf(c, e, file);
            && phoff + n * c.PhdrSize() <= |out|
            && SegmentOf(c, e, EntriesAt(c, out, phoff, n)[i]).kind == SegmentOf(c, e, TableRead(c, e, file)[i]).kind
  {
    TableOverwritten(c, e, file, size, newsize);
    EntryAdjusted(c, e, TableRead(c, e, file)[i], newsize);
  }

  // So if the table is not inside the header, and the bytes after the header
  // are its entries, as they are if it is right there, each segment of the new
  // file has the image of the same segment of the old file.
  lemma OwnImagesPreserved(c: Class, e: Endian, file: seq<byte>, size: nat, newsize: nat, i: nat)
    requires CanStrip(c, e, file, size, newsize) && PhOffOf(c, e, file) >= c.EhdrSize()
    requires EntriesAt(c, file, PhOffOf(c, e, file), PhNumOf(c, e, file)) == TableRead(c, e, file)
    requires i < PhNumOf(c, e, file)
    requires SegmentOf(c, e, TableRead(c, e, file)[i]).kind != PT_NULL
    requires SegmentOf(c, e, TableRead(c, e, file)[i]).NoWrap()
    ensures var out, phoff, n := Stripped(c, e, file, newsize), PhOffOf(c, e, file), PhNumOf(c, e, file);
            && |out| >= c.EhdrSize() && PhNumOf(c, e, out) == n && PhOffOf(c, e, out) == phoff
            && phoff + n * c.PhdrSize() <= |out|
            && SameImage(c, e, file, out, SegmentOf(c, e, EntriesAt(c, file, phoff, n)[i]),
                         SegmentOf(c, e, EntriesAt(c, out, phoff, n)[i]))
  {
    TableOverwritten(c, e, file, size, newsize);
    ImagePreserved(c, e, file, size, newsize, i);
  }

  // In general the new file's segment i is the cut segment of the entry after
  // the header. It has the image of the old file's own segment at the same
  // offset exactly if the two entries say the same of type, memory and image.
  lemma OwnImageExact(c: Class, e: Endian, file: seq<byte>, size: nat, newsize: nat, own: Segment, i: nat)
    requires CanStrip(c, e, file, size, newsize) && i < PhNumOf(c, e, file)
    requires SegmentOf(c, e, TableRead(c, e, file)[i]).kind != PT_NULL
    requires SegmentOf(c, e, TableRead(c, e, file)[i]).NoWrap()
    requires own.offset == SegmentOf(c, e, TableRead(c, e, file)[i]).offset
    ensures var out, read := Stripped(c, e, file, newsize), SegmentOf(c, e, TableRead(c, e, file)[i]);
            && PhOffOf(c, e, file) + PhNumOf(c, e, file) * c.PhdrSize() <= |out|
            && (SameImage(c, e, file, out, own,
                          SegmentOf(c, e, EntriesAt(c, out, PhOffOf(c, e, file), PhNumOf(c, e, file))[i])) <==>
                own.kind == read.kind && own.memsz == read.memsz && SameBytes(c, e, file, own, read))
  {
    TableOverwritten(c, e, file, size, newsize);
    ImagePreserved(c, e, file, size, newsize, i);
    var out, read := Stripped(c, e, file, newsize), SegmentOf(c, e, TableRead(c, e, file)[i]);
    var now := SegmentOf(c, e, AdjustAll(c, e, TableRead(c, e, file), newsize)[i]);
    SameImageBetween(c, e, file, out, own, read, now);
  }

  ghost predicate SameBytes(c: Class, e: Endian, file: seq<byte>, a: Segment, b: Segment)
    requires |file| >= c.EhdrSize()
  {
    forall k: nat :: InHeaders(c, e, file, a.offset + k) || ImageByte(file, a, k) == ImageByte(file, b, k)
  }

  lemma SameImageBetween(c: Class, e: Endian, file: seq<byte>, out: seq<byte>, own: Segment, read: Segment, now: Segment)
    requires |file| >= c.EhdrSize() && SameImage(c, e, file, out, read, now) && own.offset == read.offset
    ensures SameImage(c, e, file, out, own, now) <==>
            own.kind == read.kind && own.memsz == read.memsz && SameBytes(c, e, file, own, read)
  {
    forall k: nat | !InHeaders(c, e, file, own.offset + k)
      ensures ImageByte(out, now, k) == ImageByte(file, own, k) <==> ImageByte(file, own, k) == ImageByte(file, read, k)
    {
    }
  }
}
