// The C library functions the engine reads and prints numbers with: strtoll,
// strtoull and sprintf, with their limits.
module Numerals {
  const MaxLong := 0x7fff_ffff_ffff_ffff
  const TwoTo64 := 0x1_0000_0000_0000_0000

  predicate LongLong(v: int) {
    -MaxLong - 1 <= v <= MaxLong
  }

  // ---- Reading ----

  function DigitOf(c: char): nat {
    if '0' <= c <= '9' then c as int - '0' as int
    else if 'a' <= c <= 'z' then c as int - 'a' as int + 10
    else if 'A' <= c <= 'Z' then c as int - 'A' as int + 10
    else 36
  }

  predicate IsSpace(c: char) {
    c == ' ' || '\t' <= c <= '\r'
  }

  function Spaces(s: string): (n: nat)
    ensures n <= |s|
  {
    if s != "" && IsSpace(s[0]) then 1 + Spaces(s[1..]) else 0
  }

  // How many digits a string begins with.
  function Digits(s: string, base: nat): (n: nat)
    ensures n <= |s|
  {
    if s != "" && DigitOf(s[0]) < base then 1 + Digits(s[1..], base) else 0
  }

  function ValueOf(s: string, base: nat): nat {
    if s == "" then 0 else ValueOf(s[..|s| - 1], base) * base + DigitOf(s[|s| - 1])
  }

  predicate Signed(s: string) {
    s != "" && (s[0] == '-' || s[0] == '+')
  }

  predicate HexPrefixed(s: string) {
    |s| >= 2 && s[0] == '0' && (s[1] == 'x' || s[1] == 'X')
  }

  // A prefix counts only if a digit follows.
  predicate SkipsPrefix(s: string, base: nat) {
    (base == 0 || base == 16) && HexPrefixed(s) && |s| > 2 && DigitOf(s[2]) < 16
  }

  // What is found in a string: the sign, the number, how many characters it
  // took, none if there is no number.
  datatype Found = Found(negative: bool, magnitude: nat, length: nat)

  function Scan(s: string, base: nat): (r: Found)
    ensures r.length <= |s|
  {
    var i := Spaces(s);
    var t := s[i..];
    var r := Unsigned(if Signed(t) then t[1..] else t, base);
    Found(Signed(t) && t[0] == '-', r.magnitude, if r.length == 0 then 0 else i + (if Signed(t) then 1 else 0) + r.length)
  }

  function Unsigned(s: string, base: nat): (r: Found)
    ensures r.length <= |s|
  {
    if SkipsPrefix(s, base) then
      var n := Digits(s[2..], 16);
      Found(false, ValueOf(s[2..][..n], 16), 2 + n)
    else
      var b := if base != 0 then base else if s != "" && s[0] == '0' then 8 else 10;
      var n := Digits(s, b);
      Found(false, ValueOf(s[..n], b), n)
  }

  // strtoll: out of range, it gives the nearest number there is.
  function Strtoll(s: string, base: nat): (v: int)
    ensures LongLong(v)
  {
    var r := Scan(s, base);
    var v := (if r.negative then -1 else 1) * r.magnitude;
    if v > MaxLong then MaxLong else if v < -MaxLong - 1 then -MaxLong - 1 else v
  }

  // strtoull: a minus negates in unsigned arithmetic.
  function Strtoull(s: string, base: nat): (v: nat)
    ensures v < TwoTo64
  {
    var r := Scan(s, base);
    if r.magnitude >= TwoTo64 then TwoTo64 - 1
    else if r.negative then (TwoTo64 - r.magnitude) % TwoTo64
    else r.magnitude
  }

  // ---- Printing ----

  function DigitChar(d: nat): char
    requires d < 16
  {
    if d < 10 then '0' + d as char else 'a' + (d - 10) as char
  }

  function Print(v: nat, base: nat): (s: string)
    requires 2 <= base <= 16
    ensures s != ""
  {
    if v < base then [DigitChar(v)] else Print(v / base, base) + [DigitChar(v % base)]
  }

  // sprintf with "%lld" or "0x%llx", which prints a negative number as the
  // unsigned number with the same bits.
  function Show(v: int, hex: bool): string {
    if hex then "0x" + Print(v % TwoTo64, 16)
    else if v < 0 then "-" + Print(-v, 10)
    else Print(v, 10)
  }

  // ---- Reading what was printed ----

  lemma {:induction false} AllDigits(s: string, base: nat)
    requires forall i :: 0 <= i < |s| ==> DigitOf(s[i]) < base
    ensures Digits(s, base) == |s|
  {
    if s != "" {
      AllDigits(s[1..], base);
    }
  }

  lemma {:induction false} PrintsDigits(v: nat, base: nat)
    requires base == 10 || base == 16
    ensures forall i :: 0 <= i < |Print(v, base)| ==> DigitOf(Print(v, base)[i]) < base
  {
    if v >= base {
      PrintsDigits(v / base, base);
    }
  }

  lemma DivMod(v: nat, base: nat)
    requires base > 0
    ensures (v / base) * base + v % base == v
  {
  }

  lemma ValueOfSnoc(s: string, c: char, base: nat)
    ensures ValueOf(s + [c], base) == ValueOf(s, base) * base + DigitOf(c)
  {
    assert (s + [c])[..|s|] == s;
  }

  lemma DigitOfChar(d: nat)
    requires d < 16
    ensures DigitOf(DigitChar(d)) == d
  {
  }

  lemma {:induction false} ValueOfPrint(v: nat, base: nat)
    requires base == 10 || base == 16
    ensures ValueOf(Print(v, base), base) == v
  {
    if v < base {
      ValueOfSnoc("", DigitChar(v), base);
      assert "" + [DigitChar(v)] == [DigitChar(v)];
      DigitOfChar(v);
    } else {
      var q, r := v / base, v % base;
      DivMod(v, base);
      ValueOfPrint(q, base);
      PrintSnoc(v, q, r, base);
    }
  }

  lemma PrintSnoc(v: nat, q: nat, r: nat, base: nat)
    requires 2 <= base <= 16 && v >= base && q == v / base && r == v % base
    requires ValueOf(Print(q, base), base) == q
    ensures ValueOf(Print(v, base), base) == q * base + r
  {
    ValueOfSnoc(Print(q, base), DigitChar(r), base);
    DigitOfChar(r);
  }

  lemma AllDigitsFound(s: string, base: nat)
    requires s != "" && (base == 10 || base == 16) && forall i :: 0 <= i < |s| ==> DigitOf(s[i]) < base
    ensures !HexPrefixed(s) && Unsigned(s, base) == Found(false, ValueOf(s, base), |s|)
    ensures !IsSpace(s[0]) && !Signed(s)
  {
    AllDigits(s, base);
    assert s[..|s|] == s;
  }

  lemma PrefixedFound(s: string)
    requires s != "" && forall i :: 0 <= i < |s| ==> DigitOf(s[i]) < 16
    ensures Unsigned("0x" + s, 16) == Found(false, ValueOf(s, 16), 2 + |s|)
  {
    AllDigits(s, 16);
    assert ("0x" + s)[2..] == s && s[..|s|] == s;
  }

  lemma ScanUnsigned(s: string, base: nat)
    requires s != "" && !IsSpace(s[0]) && !Signed(s) && Unsigned(s, base).length > 0
    ensures Scan(s, base) == Unsigned(s, base).(negative := false)
  {
    assert s[0..] == s;
  }

  lemma ScanNegative(s: string, base: nat)
    requires Unsigned(s, base).length > 0
    ensures Scan("-" + s, base) == Found(true, Unsigned(s, base).magnitude, 1 + Unsigned(s, base).length)
  {
    var t := "-" + s;
    assert t[0..] == t && t[1..] == s;
  }

  // ---- The laws ----

  lemma DecimalReadsBack(v: int)
    requires LongLong(v)
    ensures Strtoll(Show(v, false), 10) == v
  {
    var m := if v < 0 then -v else v;
    var s := Print(m, 10);
    PrintsDigits(m, 10);
    ValueOfPrint(m, 10);
    AllDigitsFound(s, 10);
    if v < 0 {
      ScanNegative(s, 10);
    } else {
      ScanUnsigned(s, 10);
    }
  }

  // A negative number printed in hexadecimal is read as the greatest number.
  lemma HexReadsBack(v: int)
    requires LongLong(v)
    ensures Strtoll(Show(v, true), 16) == if v < 0 then MaxLong else v
  {
    ScanShownHex(v);
  }

  lemma ScanShownHex(v: int)
    ensures Scan(Show(v, true), 16) == Found(false, v % TwoTo64, |Show(v, true)|)
  {
    var m := v % TwoTo64;
    var s := Print(m, 16);
    PrintsDigits(m, 16);
    ValueOfPrint(m, 16);
    PrefixedFound(s);
    ScanUnsigned("0x" + s, 16);
  }

  lemma ShowInjective(v: int, w: int, hex: bool)
    requires LongLong(v) && LongLong(w) && Show(v, hex) == Show(w, hex)
    ensures v == w
  {
    if hex {
      ScanShownHex(v);
      ScanShownHex(w);
    } else {
      DecimalReadsBack(v);
      DecimalReadsBack(w);
    }
  }

  // Putting 0x before digits does not change what is read.
  lemma PrefixIgnored(s: string)
    requires s != "" && forall i :: 0 <= i < |s| ==> DigitOf(s[i]) < 16
    ensures Strtoll("0x" + s, 16) == Strtoll(s, 16)
  {
    PrefixedFound(s);
    AllDigitsFound(s, 16);
    ScanUnsigned("0x" + s, 16);
    ScanUnsigned(s, 16);
  }

  // ---- What whole strings are read as ----

  // A printed number is found as a whole, in its own base and in base 0.
  lemma ShownIsFound(v: int)
    ensures Scan(Show(v, false), 10) == Found(v < 0, if v < 0 then -v else v, |Show(v, false)|) == Scan(Show(v, false), 0)
  {
    var m := if v < 0 then -v else v;
    var s := Print(m, 10);
    PrintsDigits(m, 10);
    ValueOfPrint(m, 10);
    AllDigitsFound(s, 10);
    DecimalInBaseZero(m);
    if v < 0 {
      ScanNegative(s, 10);
      ScanNegative(s, 0);
    } else {
      ScanUnsigned(s, 10);
      ScanUnsigned(s, 0);
    }
  }

  // A printed number does not begin with 0, unless it is that.
  lemma {:induction false} NoLeadingZero(v: nat)
    ensures Print(v, 10)[0] == '0' ==> v == 0
  {
    if v >= 10 {
      NoLeadingZero(v / 10);
    }
  }

  lemma DecimalInBaseZero(v: nat)
    ensures Unsigned(Print(v, 10), 0) == Unsigned(Print(v, 10), 10)
  {
    var s := Print(v, 10);
    NoLeadingZero(v);
    PrintsDigits(v, 10);
    AllDigitsFound(s, 10);
    if v == 0 {
      assert s == "0" && s[1..] == "" && s[..1] == s && s[..0] == "";
      assert Digits(s, 8) == 1 && Digits(s, 10) == 1;
      assert ValueOf(s, 8) == ValueOf(s[..0], 8) * 8 + 0 && ValueOf(s, 10) == ValueOf(s[..0], 10) * 10 + 0;
    }
  }

  // A number out of range is read as the nearest one in range.
  lemma Saturates(v: int)
    ensures Strtoll(Show(v, false), 10) == if v > MaxLong then MaxLong else if v < -MaxLong - 1 then -MaxLong - 1 else v
  {
    ShownIsFound(v);
  }

  // Base 0 takes the base from the prefix; blanks and a sign may come before
  // the digits, anything after them is left.
  lemma Samples()
    ensures Scan("0x1f", 0) == Found(false, 31, 4) && Scan("017", 0) == Found(false, 15, 3)
    ensures Scan(" +7a", 10) == Found(false, 7, 3) && Scan("a", 10).length == 0
  {
    SampleHex();
    SampleOctal();
    SampleSigned();
  }

  lemma SampleHex()
    ensures Scan("0x1f", 0) == Found(false, 31, 4)
  {
    var s, t := "0x1f", "1f";
    assert s[0..] == s && s[2..] == t && t[1..] == "f" && t[2..] == "" && t[..2] == t && t[..1] == "1" && t[..0] == "";
    assert Digits("f", 16) == 1 + Digits("f"[1..], 16);
    assert Digits(t, 16) == 2;
    assert ValueOf("1", 16) == ValueOf("1"[..0], 16) * 16 + 1 == 1;
    assert ValueOf(t, 16) == 31;
  }

  lemma SampleOctal()
    ensures Scan("017", 0) == Found(false, 15, 3)
  {
    var s := "017";
    assert s[0..] == s && s[1..] == "17" && "17"[1..] == "7" && "7"[1..] == "";
    assert Digits("7", 8) == 1 && Digits("17", 8) == 2 && Digits(s, 8) == 3;
    assert s[..3] == s && s[..2] == "01" && "01"[..1] == "0" && "0"[..0] == "";
    assert ValueOf("0", 8) == 0 && ValueOf("01", 8) == 1 && ValueOf(s, 8) == 15;
  }

  lemma SampleSigned()
    ensures Scan(" +7a", 10) == Found(false, 7, 3) && Scan("a", 10).length == 0
  {
    var s := " +7a";
    assert s[1..] == "+7a" && "+7a"[1..] == "7a" && "7a"[1..] == "a" && "7a"[..1] == "7" && "7"[..0] == "";
    assert Spaces("+7a") == 0 && Spaces(s) == 1;
    assert Digits("a", 10) == 0 && Digits("7a", 10) == 1 && ValueOf("7", 10) == 7;
    assert "a"[0..] == "a" && Spaces("a") == 0;
  }
}
