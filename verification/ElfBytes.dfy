// Numbers in ELF headers: reading and writing them in either byte order, on a
// host of either byte order.
module ElfBytes {
  type byte = x: int | 0 <= x < 256

  datatype Order = Lsb | Msb

  // The host's byte order, and whether the file's is the other one.
  datatype Endian = Endian(host: Order, reverse: bool)
  {
    function File(): Order {
      if reverse then (if host.Lsb? then Msb else Lsb) else host
    }
  }

  function Pow(w: nat): (p: nat)
    ensures p > 0
  {
    if w == 0 then 1 else 256 * Pow(w - 1)
  }

  lemma Pows()
    ensures Pow(2) == 0x1_0000 && Pow(4) == 0x1_0000_0000 && Pow(8) == 0x1_0000_0000_0000_0000
  {
    assert Pow(4) == 256 * 256 * Pow(2);
    assert Pow(8) == 256 * 256 * 256 * 256 * Pow(4);
  }

  function Decode(b: seq<byte>): nat {
    if b == [] then 0 else b[0] + 256 * Decode(b[1..])
  }

  function Encode(w: nat, v: nat): (b: seq<byte>)
    ensures |b| == w
  {
    if w == 0 then [] else [v % 256] + Encode(w - 1, v / 256)
  }

  function Reverse(b: seq<byte>): (r: seq<byte>)
    ensures |r| == |b|
  {
    if b == [] then [] else Reverse(b[1..]) + [b[0]]
  }

  lemma {:induction false} DecodeBound(b: seq<byte>)
    ensures Decode(b) < Pow(|b|)
  {
    if b != [] {
      DecodeBound(b[1..]);
    }
  }

  lemma {:induction false} DecodeEncode(w: nat, v: nat)
    requires v < Pow(w)
    ensures Decode(Encode(w, v)) == v
  {
    if w > 0 {
      DecodeEncode(w - 1, v / 256);
      assert Encode(w, v)[1..] == Encode(w - 1, v / 256);
    }
  }

  lemma {:induction false} EncodeDecode(b: seq<byte>)
    ensures Encode(|b|, Decode(b)) == b
  {
    if b != [] {
      EncodeDecode(b[1..]);
      assert Decode(b) % 256 == b[0] && Decode(b) / 256 == Decode(b[1..]);
    }
  }

  lemma {:induction false} ReverseAppend(b: seq<byte>, x: byte)
    ensures Reverse(b + [x]) == [x] + Reverse(b)
  {
    if b == [] {
      assert b + [x] == [x];
    } else {
      ReverseAppend(b[1..], x);
      assert (b + [x])[1..] == b[1..] + [x];
    }
  }

  lemma {:induction false} ReverseTwice(b: seq<byte>)
    ensures Reverse(Reverse(b)) == b
  {
    if b != [] {
      ReverseTwice(b[1..]);
      ReverseAppend(Reverse(b[1..]), b[0]);
    }
  }

  // The number a host of the given order sees in the bytes, and back.
  function Load(o: Order, b: seq<byte>): nat {
    if o.Lsb? then Decode(b) else Decode(Reverse(b))
  }

  function Store(o: Order, w: nat, v: nat): (b: seq<byte>)
    ensures |b| == w
  {
    if o.Lsb? then Encode(w, v) else Reverse(Encode(w, v))
  }

  lemma LoadStore(o: Order, w: nat, v: nat)
    requires v < Pow(w)
    ensures Load(o, Store(o, w, v)) == v
  {
    DecodeEncode(w, v);
    ReverseTwice(Encode(w, v));
  }

  lemma LoadBound(o: Order, b: seq<byte>)
    ensures Load(o, b) < Pow(|b|)
  {
    DecodeBound(b);
    DecodeBound(Reverse(b));
  }

  // bswap_16, bswap_32, bswap_64
  function Bswap(w: nat, v: nat): nat {
    Decode(Reverse(Encode(w, v)))
  }

  lemma {:induction false} BswapTwice(w: nat, v: nat)
    requires v < Pow(w)
    ensures Bswap(w, v) < Pow(w) && Bswap(w, Bswap(w, v)) == v
  {
    var b := Reverse(Encode(w, v));
    DecodeBound(b);
    EncodeDecode(b);
    ReverseTwice(Encode(w, v));
    DecodeEncode(w, v);
  }

  // EGET
  function Eget(e: Endian, b: seq<byte>): nat {
    if !e.reverse || |b| == 1 then Load(e.host, b) else Bswap(|b|, Load(e.host, b))
  }

  // ESET, with the truncation to the width of the field
  function Eset(e: Endian, w: nat, v: nat): (b: seq<byte>)
    ensures |b| == w
  {
    var v := v % Pow(w);
    if !e.reverse || w == 1 then Store(e.host, w, v) else Store(e.host, w, Bswap(w, v))
  }

  lemma {:induction false} OtherOrder(b: seq<byte>)
    ensures Bswap(|b|, Load(Lsb, b)) == Load(Msb, b)
    ensures Bswap(|b|, Load(Msb, b)) == Load(Lsb, b)
    ensures |b| == 1 ==> Load(Msb, b) == Load(Lsb, b)
  {
    EncodeDecode(b);
    EncodeDecode(Reverse(b));
    ReverseTwice(b);
    if |b| == 1 {
      assert b == [b[0]] && Reverse(b) == b;
    }
  }

  // On every host they read and write the file's own byte order.
  lemma EgetIsFileOrder(e: Endian, b: seq<byte>)
    ensures Eget(e, b) == Load(e.File(), b)
  {
    OtherOrder(b);
  }

  lemma EsetIsFileOrder(e: Endian, w: nat, v: nat)
    ensures Eset(e, w, v) == Store(e.File(), w, v % Pow(w))
  {
    var u := v % Pow(w);
    var b := Encode(w, u);
    DecodeEncode(w, u);
    OtherOrder(b);
    EncodeDecode(Reverse(b));
    ReverseTwice(b);
    if w == 1 {
      assert b == [b[0]] && Reverse(b) == b;
    }
  }

  lemma EgetEset(e: Endian, w: nat, v: nat)
    ensures Eget(e, Eset(e, w, v)) == v % Pow(w)
  {
    EsetIsFileOrder(e, w, v);
    EgetIsFileOrder(e, Eset(e, w, v));
    LoadStore(e.File(), w, v % Pow(w));
  }

  lemma NotTruncated(e: Endian, w: nat, v: nat)
    requires v < Pow(w)
    ensures Eget(e, Eset(e, w, v)) == v
  {
    EgetEset(e, w, v);
    SmallMod(v, Pow(w));
  }

  lemma SmallMod(v: nat, p: nat)
    requires v < p
    ensures v % p == v
  {
  }

  // ---- Fields of a header ----

  datatype Field = Field(off: nat, width: nat)
  {
    function End(): nat {
      off + width
    }

    predicate Holds(i: nat) {
      off <= i < End()
    }
  }

  function Get(e: Endian, b: seq<byte>, f: Field): nat
    requires f.End() <= |b|
  {
    Eget(e, b[f.off..f.End()])
  }

  function Put(e: Endian, b: seq<byte>, f: Field, v: nat): (r: seq<byte>)
    requires f.End() <= |b|
    ensures |r| == |b|
  {
    b[..f.off] + Eset(e, f.width, v) + b[f.End()..]
  }

  predicate Apart(f: Field, g: Field) {
    f.End() <= g.off || g.End() <= f.off
  }

  lemma GetBound(e: Endian, b: seq<byte>, f: Field)
    requires f.End() <= |b|
    ensures Get(e, b, f) < Pow(f.width)
  {
    EgetIsFileOrder(e, b[f.off..f.End()]);
    LoadBound(e.File(), b[f.off..f.End()]);
  }

  // A value that fits the field is read back.
  lemma PutGet(e: Endian, b: seq<byte>, f: Field, v: nat)
    requires f.End() <= |b| && v < Pow(f.width)
    ensures Get(e, Put(e, b, f, v), f) == v
  {
    assert Put(e, b, f, v)[f.off..f.End()] == Eset(e, f.width, v);
    NotTruncated(e, f.width, v);
  }

  // After the same value is put, bytes agree that did, and those of the field.
  lemma PutAgree(e: Endian, a: seq<byte>, b: seq<byte>, f: Field, v: nat, i: nat)
    requires |a| == |b| && f.End() <= |a| && i < |a| && (f.Holds(i) || a[i] == b[i])
    ensures Put(e, a, f, v)[i] == Put(e, b, f, v)[i]
  {
  }

  lemma PutElsewhere(e: Endian, b: seq<byte>, f: Field, v: nat, g: Field)
    requires f.End() <= |b| && g.End() <= |b| && Apart(f, g)
    ensures Get(e, Put(e, b, f, v), g) == Get(e, b, g)
  {
    assert Put(e, b, f, v)[g.off..g.End()] == b[g.off..g.End()];
  }
}
