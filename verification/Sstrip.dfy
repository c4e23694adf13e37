// Stripping an ELF file in place: everything behind what the program headers
// refer to is cut off, with the zeros before it.
module Sstrip {
  import opened ElfBytes
  import opened Elf

  // An open file, with its position.
  class File {
    var data: seq<byte>
    var pos: nat

    constructor (data: seq<byte>)
      ensures this.data == data && pos == 0
    {
      this.data, pos := data, 0;
    }

    method Seek(offset: nat) returns (ok: bool)
      modifies `pos
      ensures ok <==> offset < MaxOffset
      ensures pos == if ok then offset else old(pos)
    {
      ok := offset < MaxOffset;
      if ok {
        pos := offset;
      }
    }

    // At most n bytes, as many as there are.
    method Read(n: nat) returns (b: seq<byte>)
      modifies `pos
      ensures old(pos) + n <= |data| ==> b == data[old(pos)..old(pos) + n]
      ensures old(pos) + n > |data| && n > 0 ==> |b| < n
      ensures pos == old(pos) + |b|
    {
      b := if pos + n <= |data| then data[pos..pos + n] else if pos <= |data| then data[pos..] else [];
      pos := pos + |b|;
    }

    method Write(b: seq<byte>)
      modifies this
      ensures data == Overwrite(old(data), old(pos), b) && pos == old(pos) + |b|
    {
      data, pos := Overwrite(data, pos, b), pos + |b|;
    }

    method Truncate(size: nat)
      modifies `data
      ensures data == Resize(old(data), size)
    {
      data := Resize(data, size);
    }
  }

  // ---- truncatezeros ----

  const ChunkSize := 1024

  // What the inner loop leaves: the size without the zeros at the end of the
  // chunk, and the index where it stopped.
  ghost predicate ChunkScanned(b: seq<byte>, size: nat, size': nat, n: nat) {
    if exists i :: 0 <= i < |b| && b[i] != 0 then
      n < |b| && b[n] != 0 && (forall i :: n < i < |b| ==> b[i] == 0) && size' == size - (|b| - 1 - n)
    else
      n == 0 && size' == size - |b|
  }

  method ScanChunk(b: seq<byte>, size0: nat) returns (size: nat, n: nat)
    requires |b| <= size0
    ensures ChunkScanned(b, size0, size, n)
  {
    size, n := size0, |b|;
    while n != 0
      invariant n <= |b| && size == size0 - (|b| - n)
      invariant forall i :: n <= i < |b| ==> b[i] == 0
    {
      n := n - 1;
      if b[n] != 0 {
        return;
      }
      size := size - 1;
    }
  }

  // Only the first byte is not zero.
  ghost predicate OnlyFirst(data: seq<byte>, size: nat) {
    0 < size <= |data| && data[0] != 0 && forall i :: 1 <= i < size ==> data[i] == 0
  }

  // The outer loop would go on with the same size exactly in the state where
  // only the first byte is left and is not zero.
  lemma NoProgress(data: seq<byte>, size: nat, size': nat, n: nat)
    requires 0 < size <= |data|
    requires ChunkScanned(data[size - (if ChunkSize > size then size else ChunkSize)..size], size, size', n)
    ensures size' != 0 && n == 0 && size' == size <==> size == 1 && OnlyFirst(data, size)
  {
    var start := size - (if ChunkSize > size then size else ChunkSize);
    assert forall i :: start <= i < size ==> data[start..size][i - start] == data[i];
    assert data[start..size][|data[start..size]| - 1] == data[size - 1];
  }

  // What one chunk tells of the file.
  lemma ChunkCut(data: seq<byte>, start: nat, size: nat, size': nat, n: nat)
    requires start <= size <= |data| && ChunkScanned(data[start..size], size, size', n)
    ensures start <= size' <= size && forall i :: size' <= i < size ==> data[i] == 0
    ensures n != 0 ==> size' > 0 && data[size' - 1] != 0
    ensures n == 0 ==> size' == start || size' == start + 1
  {
    var b := data[start..size];
    assert forall i :: start <= i < size ==> b[i - start] == data[i];
  }

  method TruncateZeros(f: File, newsize: nat) returns (ok: bool, size: nat)
    requires |f.data| < MaxOffset && !OnlyFirst(f.data, newsize)
    modifies f`pos
    ensures ok <==> newsize <= |f.data| && exists i :: 0 <= i < newsize && f.data[i] != 0
    ensures ok ==> ZerosCut(f.data, newsize, size)
  {
    size := newsize;
    while true
      invariant size <= newsize && (size < newsize ==> newsize <= |f.data|)
      invariant newsize <= |f.data| ==> forall i :: size <= i < newsize ==> f.data[i] == 0
      decreases size
    {
      var n := if ChunkSize > size then size else ChunkSize;
      ghost var start, before := size - n, size;
      ok := f.Seek(size - n);
      if !ok {
        return;
      }
      var contents := f.Read(n);
      if |contents| != n {
        return false, size;
      }
      size, n := ScanChunk(contents, size);
      ChunkCut(f.data, start, before, size, n);
      if before > 0 {
        NoProgress(f.data, before, size, n);
      }
      if size == 0 || n != 0 {
        break;
      }
    }
    ok := size != 0;
  }

  // ---- readelfheaderident, readelfheader ----

  const EiNident := 16
  const EtExec := 2
  const EtDyn := 3

  predicate HasMagic(b: seq<byte>) {
    |b| >= EiNident && b[0] == 0x7f && b[1] == 'E' as int && b[2] == 'L' as int && b[3] == 'F' as int
  }

  predicate IdentOk(b: seq<byte>) {
    HasMagic(b) && (b[5] == 1 || b[5] == 2) && (b[4] == 1 || b[4] == 2)
  }

  function ClassOf(b: seq<byte>): Class
    requires HasMagic(b)
  {
    if b[4] == 1 then Class32 else Class64
  }

  function EndianOf(host: Order, b: seq<byte>): Endian
    requires HasMagic(b)
  {
    Endian(host, (b[5] == 1) != host.Lsb?)
  }

  // The header of a file that can be handled.
  predicate HeaderOk(c: Class, e: Endian, h: seq<byte>)
    requires |h| == c.EhdrSize()
  {
    && Get(e, h, c.EhSize()) == c.EhdrSize() && Get(e, h, c.PhEntSize()) == c.PhdrSize()
    && (Get(e, h, c.Type()) == EtExec || Get(e, h, c.Type()) == EtDyn)
  }

  predicate Recognised(host: Order, file: seq<byte>) {
    IdentOk(file)
    && var c, e := ClassOf(file), EndianOf(host, file);
       && |file| >= c.EhdrSize() && HeaderOk(c, e, file[..c.EhdrSize()])
       && PhOffOf(c, e, file) != 0 && PhNumOf(c, e, file) != 0
       && HasTable(c, e, file, c.EhdrSize())
  }

  method ReadIdent(f: File, host: Order) returns (ok: bool, c: Class, e: Endian, ident: seq<byte>)
    requires f.pos == 0
    modifies f`pos
    ensures ok <==> IdentOk(f.data)
    ensures ok ==> ident == f.data[..EiNident] && f.pos == EiNident && c == ClassOf(f.data) && e == EndianOf(host, f.data)
  {
    c, e := Class64, Endian(host, false);
    ident := f.Read(EiNident);
    if |ident| != EiNident || !HasMagic(ident) || (ident[5] != 1 && ident[5] != 2) {
      return false, c, e, ident;
    }
    e := EndianOf(host, ident);
    if ident[4] != 1 && ident[4] != 2 {
      return false, c, e, ident;
    }
    return true, ClassOf(ident), e, ident;
  }

  method ReadHeader(f: File, c: Class, e: Endian, ident: seq<byte>) returns (ok: bool, ehdr: array<byte>)
    requires |ident| == EiNident <= |f.data| && ident == f.data[..EiNident] && f.pos == EiNident
    modifies f`pos
    ensures fresh(ehdr) && ehdr.Length == c.EhdrSize()
    ensures ok <==> |f.data| >= c.EhdrSize() && HeaderOk(c, e, f.data[..c.EhdrSize()])
    ensures ok ==> ehdr[..] == f.data[..c.EhdrSize()] && f.pos == c.EhdrSize()
  {
    ehdr := new byte[c.EhdrSize()](_ => 0);
    var rest := f.Read(c.EhdrSize() - EiNident);
    if |rest| != c.EhdrSize() - EiNident {
      return false, ehdr;
    }
    var h := ident + rest;
    assert h == f.data[..c.EhdrSize()];
    forall i | 0 <= i < |h| {
      ehdr[i] := h[i];
    }
    assert ehdr[..] == h;
    ok := HeaderOk(c, e, ehdr[..]);
  }

  // ---- readphdrtable ----

  method ReadTable(f: File, c: Class, e: Endian, ehdr: array<byte>) returns (ok: bool, phdrs: array<seq<byte>>)
    requires ehdr.Length == c.EhdrSize() <= |f.data| && ehdr[..] == f.data[..c.EhdrSize()] && f.pos == c.EhdrSize()
    modifies f`pos
    ensures fresh(phdrs)
    ensures ok <==> PhOffOf(c, e, f.data) != 0 && PhNumOf(c, e, f.data) != 0 && HasTable(c, e, f.data, c.EhdrSize())
    ensures ok ==> phdrs[..] == TableRead(c, e, f.data)
  {
    phdrs := new seq<byte>[0];
    var phnum := Get(e, ehdr[..], c.PhNum());
    if Get(e, ehdr[..], c.PhOff()) == 0 || phnum == 0 {
      return false, phdrs;
    }
    var size := phnum * c.PhdrSize();
    var b := f.Read(size);
    if |b| != size {
      return false, phdrs;
    }
    var t := TableRead(c, e, f.data);
    assert t == Chunks(c, b, phnum);
    phdrs := new seq<byte>[phnum](i requires 0 <= i < |t| => t[i]);
    assert phdrs[..] == t;
    ok := true;
  }

  // ---- getmemorysize ----

  method GetMemorySize(c: Class, e: Endian, ehdr: array<byte>, phdrs: array<seq<byte>>, ghost file: seq<byte>) returns (size: nat)
    requires HasTable(c, e, file, c.EhdrSize())
    requires ehdr[..] == file[..c.EhdrSize()] && phdrs[..] == TableRead(c, e, file)
    ensures size == NeededSize(c, e, file)
  {
    var phnum := Get(e, ehdr[..], c.PhNum());
    size := (Get(e, ehdr[..], c.PhOff()) + phnum * c.PhdrSize()) % ULong;
    if size < c.EhdrSize() {
      size := c.EhdrSize();
    }
    size := CoverSegments(c, e, phdrs, phnum, size);
  }

  // The loop over the entries.
  method CoverSegments(c: Class, e: Endian, phdrs: array<seq<byte>>, phnum: nat, least: nat) returns (size: nat)
    requires IsTable(c, phdrs[..]) && phnum == phdrs.Length
    ensures size == Needed(c, e, phdrs[..], least)
  {
    ghost var t := phdrs[..];
    size := least;
    var i := 0;
    while i < phnum
      invariant 0 <= i <= phnum
      invariant size == NeededUpTo(c, e, t, i, least)
    {
      NeededStep(c, e, t, i, least);
      var s := SegmentOf(c, e, phdrs[i]);
      if s.kind != PT_NULL {
        var n := (s.offset + s.filesz) % ULong;
        if n > size {
          size := n;
        }
      }
      i := i + 1;
    }
    assert t[..i] == t;
  }

  // ---- modifyheaders ----

  method Set(e: Endian, a: array<byte>, f: Field, v: nat)
    requires f.End() <= a.Length
    modifies a
    ensures a[..] == Put(e, old(a[..]), f, v)
  {
    var b := Eset(e, f.width, v);
    forall i | 0 <= i < f.width {
      a[f.off + i] := b[i];
    }
  }

  method ModifyHeaders(c: Class, e: Endian, ehdr: array<byte>, phdrs: array<seq<byte>>, newsize: nat)
    requires ehdr.Length == c.EhdrSize() && IsTable(c, phdrs[..])
    requires phdrs.Length == Get(e, ehdr[..], c.PhNum())
    modifies ehdr, phdrs
    ensures ehdr[..] == AdjustHeader(c, e, old(ehdr[..]), newsize)
    ensures phdrs[..] == AdjustAll(c, e, old(phdrs[..]), newsize)
  {
    if Get(e, ehdr[..], c.ShOff()) >= newsize {
      Set(e, ehdr, c.ShOff(), 0);
      Set(e, ehdr, c.ShNum(), 0);
      Set(e, ehdr, c.ShEntSize(), 0);
      Set(e, ehdr, c.ShStrNdx(), 0);
    }
    HeaderAdjusted(c, e, old(ehdr[..]), newsize, c.PhNum());
    var i := 0;
    while i < Get(e, ehdr[..], c.PhNum())
      invariant 0 <= i <= phdrs.Length == Get(e, ehdr[..], c.PhNum())
      invariant ehdr[..] == AdjustHeader(c, e, old(ehdr[..]), newsize)
      invariant forall j :: 0 <= j < i ==> phdrs[j] == Adjust(c, e, old(phdrs[..])[j], newsize)
      invariant forall j :: i <= j < phdrs.Length ==> phdrs[j] == old(phdrs[..])[j]
    {
      ModifyEntry(c, e, phdrs, i, newsize);
      i := i + 1;
    }
  }

  method ModifyEntry(c: Class, e: Endian, phdrs: array<seq<byte>>, i: nat, newsize: nat)
    requires i < phdrs.Length && |phdrs[i]| == c.PhdrSize()
    modifies phdrs
    ensures phdrs[i] == Adjust(c, e, old(phdrs[i]), newsize)
    ensures forall j :: 0 <= j < phdrs.Length && j != i ==> phdrs[j] == old(phdrs[j])
  {
    var s := SegmentOf(c, e, phdrs[i]);
    if s.offset >= newsize {
      phdrs[i] := Put(e, phdrs[i], c.Offset(), newsize);
      phdrs[i] := Put(e, phdrs[i], c.FileSize(), 0);
    } else if (s.offset + s.filesz) % ULong > newsize {
      phdrs[i] := Put(e, phdrs[i], c.FileSize(), newsize - s.offset);
    }
  }

  // ---- commitchanges ----

  method CommitChanges(f: File, c: Class, e: Endian, ehdr: array<byte>, phdrs: array<seq<byte>>, newsize: nat)
    returns (ok: bool)
    requires ehdr.Length == c.EhdrSize() <= |f.data|
    requires |Flatten(phdrs[..])| == Get(e, ehdr[..], c.PhNum()) * c.PhdrSize()
    modifies f
    ensures ok <==> Get(e, ehdr[..], c.PhOff()) < MaxOffset
    ensures var phoff := Get(e, ehdr[..], c.PhOff());
            ok ==> f.data == Resize(Overwrite(Overwrite(old(f.data), 0, ehdr[..]), phoff, Flatten(phdrs[..])),
                                    Max(newsize, phoff + Get(e, ehdr[..], c.PhNum()) * c.PhdrSize()))
  {
    ok := f.Seek(0);
    f.Write(ehdr[..]);
    var phoff := Get(e, ehdr[..], c.PhOff());
    ok := f.Seek(phoff);
    if !ok {
      return;
    }
    var n := Get(e, ehdr[..], c.PhNum()) * c.PhdrSize();
    f.Write(Flatten(phdrs[..]));
    f.Truncate(if newsize < phoff + n then phoff + n else newsize);
  }

  // ---- One file ----

  datatype Outcome =
    | Done(size: nat, newsize: nat)
    | Refused
    | Corrupted

  // The file is stripped if it is recognised, the table's offset can be seeked
  // to, and all it refers to is there. It is left as it was if it is not
  // recognised or not complete.
  method Strip(f: File, host: Order) returns (r: Outcome)
    requires f.pos == 0 && |f.data| < MaxOffset
    modifies f
    ensures var file := old(f.data);
            r.Refused? <==> !Recognised(host, file) || NeededSize(ClassOf(file), EndianOf(host, file), file) > |file|
    ensures r.Refused? ==> f.data == old(f.data)
    ensures r.Corrupted? ==> PhOffOf(ClassOf(old(f.data)), EndianOf(host, old(f.data)), old(f.data)) >= MaxOffset
    ensures r.Done? ==>
              var file := old(f.data);
              var c, e := ClassOf(file), EndianOf(host, file);
              && CanStrip(c, e, file, r.size, r.newsize) && r.size == NeededSize(c, e, file)
              && f.data == Stripped(c, e, file, r.newsize)
  {
    ghost var file := f.data;
    var ok, c, e, ident := ReadIdent(f, host);
    if !ok {
      return Refused;
    }
    var ehdr, phdrs, size, newsize;
    ok, ehdr := ReadHeader(f, c, e, ident);
    if !ok {
      return Refused;
    }
    ok, phdrs := ReadTable(f, c, e, ehdr);
    if !ok {
      return Refused;
    }
    size := GetMemorySize(c, e, ehdr, phdrs, file);
    NeededIs(c, e, TableRead(c, e, file), HeadersEnd(c, e, file));
    assert file[1] != 0 && size >= EiNident;
    ok, newsize := TruncateZeros(f, size);
    if !ok {
      return Refused;
    }
    ok := ApplyChanges(f, c, e, ehdr, phdrs, newsize);
    if !ok {
      return Corrupted;
    }
    NeededCovers(c, e, file);
    return Done(size, newsize);
  }

  // The headers changed in memory, then written back.
  method ApplyChanges(f: File, c: Class, e: Endian, ehdr: array<byte>, phdrs: array<seq<byte>>, newsize: nat) returns (ok: bool)
    requires HasTable(c, e, f.data, c.EhdrSize()) && ehdr.Length == c.EhdrSize()
    requires ehdr[..] == f.data[..c.EhdrSize()] && phdrs[..] == TableRead(c, e, f.data)
    modifies f, ehdr, phdrs
    ensures ok <==> PhOffOf(c, e, old(f.data)) < MaxOffset
    ensures ok ==> f.data == Stripped(c, e, old(f.data), newsize)
  {
    ghost var file := f.data;
    TableSizeIs(c, e, file, newsize);
    HeaderAdjusted(c, e, file[..c.EhdrSize()], newsize, c.PhNum());
    HeaderAdjusted(c, e, file[..c.EhdrSize()], newsize, c.PhOff());
    ModifyHeaders(c, e, ehdr, phdrs, newsize);
    ok := CommitChanges(f, c, e, ehdr, phdrs, newsize);
  }
}
