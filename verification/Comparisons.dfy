// How two symbols are compared: by their strings, read as numbers where their
// types and the strings allow it.
module Comparisons {
  import opened Tristate
  import opened Exprs
  import opened Numerals

  datatype Parsed =
    | AsString
    | AsSigned(value: int)
    | AsUnsigned(number: nat)
    | Invalid

  function TriName(t: Tri): string {
    if t == NO then "n" else if t == MOD then "m" else "y"
  }

  // The whole string is a number, and errno is not set.
  predicate IsNumber(s: string, base: nat) {
    var r := Scan(s, base);
    r.length > 0 && r.length == |s| && r.magnitude <= MaxLong + if r.negative then 1 else 0
  }

  predicate IsUnsignedNumber(s: string, base: nat) {
    var r := Scan(s, base);
    r.length > 0 && r.length == |s| && r.magnitude < TwoTo64
  }

  // expr_parse_string
  function ParseString(s: string, ty: SymType): Parsed {
    match ty
    case Boolean => AsSigned(LetterValue(s))
    case Tristate => AsSigned(LetterValue(s))
    case Int => if IsNumber(s, 10) then AsSigned(Strtoll(s, 10)) else AsString
    case Hex => if IsUnsignedNumber(s, 16) then AsUnsigned(Strtoull(s, 16)) else AsString
    case String => if IsNumber(s, 0) then AsSigned(Strtoll(s, 0)) else AsString
    case Unknown => if IsNumber(s, 0) then AsSigned(Strtoll(s, 0)) else AsString
    case Other => Invalid
  }

  function LetterValue(s: string): int {
    if s == "n" then 0 else if s == "m" then 1 else if s == "y" then 2 else -1
  }

  // strcmp
  function StrCmp(a: string, b: string): int {
    if a == "" then (if b == "" then 0 else -1)
    else if b == "" then 1
    else if a[0] != b[0] then (if a[0] < b[0] then -1 else 1)
    else StrCmp(a[1..], b[1..])
  }

  function Sign(a: int, b: int): int {
    if a > b then 1 else if a < b then -1 else 0
  }

  // The bits of the number, taken as an unsigned number.
  function Bits(p: Parsed): nat
    requires p.AsSigned? || p.AsUnsigned?
  {
    if p.AsSigned? then p.value % TwoTo64 else p.number
  }

  // The comparison in expr_calc_value.
  function Compare(ta: SymType, a: string, tb: SymType, b: string): Comparison {
    if ta.String? && tb.String? then Comparison(StrCmp(a, b), true)
    else CompareParsed(ParseString(a, ta), a, ParseString(b, tb), b)
  }

  function CompareParsed(k1: Parsed, a: string, k2: Parsed, b: string): Comparison {
    if k1.AsString? || k2.AsString? then Comparison(StrCmp(a, b), true)
    else if k1.Invalid? || k2.Invalid? then Comparison(StrCmp(a, b), false)
    else if k1.AsUnsigned? || k2.AsUnsigned? then Comparison(Sign(Bits(k1), Bits(k2)), true)
    else Comparison(Sign(k1.value, k2.value), true)
  }

  lemma {:induction false} StrCmpEqual(a: string, b: string)
    ensures StrCmp(a, b) == 0 <==> a == b
  {
    if a != "" && b != "" {
      StrCmpEqual(a[1..], b[1..]);
      assert a == [a[0]] + a[1..] && b == [b[0]] + b[1..];
    }
  }

  // ---- Order ----

  // The outcome tells how v and w compare.
  predicate Orders(c: Comparison, v: int, w: int) {
    c.ordered && (c.res < 0 <==> v < w) && (c.res > 0 <==> v > w)
  }

  lemma ParseShown(v: int)
    requires LongLong(v)
    ensures ParseString(Show(v, false), Int) == AsSigned(v) == ParseString(Show(v, false), Unknown)
  {
    ShownIsFound(v);
  }

  lemma ParseShownHex(v: nat)
    requires v < TwoTo64
    ensures ParseString(Show(v, true), Hex) == AsUnsigned(v)
  {
    ScanShownHex(v);
  }

  // Strings that are numbers compare by them.
  lemma WholeNumbersOrder(a: string, b: string)
    ensures IsNumber(a, 10) && IsNumber(b, 10) ==> Orders(Compare(Int, a, Int, b), Strtoll(a, 10), Strtoll(b, 10))
    ensures IsNumber(a, 10) && IsNumber(b, 0) ==> Orders(Compare(Int, a, Unknown, b), Strtoll(a, 10), Strtoll(b, 0))
  {
  }

  // Printed numbers compare as numbers: two int symbols, and an int symbol and
  // a constant, which is read in base 0.
  lemma NumbersOrder(v: int, w: int)
    requires LongLong(v) && LongLong(w)
    ensures Orders(Compare(Int, Show(v, false), Int, Show(w, false)), v, w)
    ensures Orders(Compare(Int, Show(v, false), Unknown, Show(w, false)), v, w)
    ensures Orders(Compare(Unknown, Show(v, false), Int, Show(w, false)), v, w)
  {
    ParseShown(v);
    ParseShown(w);
  }

  // Hexadecimal numbers compare as unsigned numbers.
  lemma HexNumbersOrder(v: nat, w: nat)
    requires v < TwoTo64 && w < TwoTo64
    ensures Orders(Compare(Hex, Show(v, true), Hex, Show(w, true)), v, w)
  {
    ParseShownHex(v);
    ParseShownHex(w);
  }

  // An int and a hexadecimal number compare as unsigned numbers too, so that a
  // negative one is greater than all others.
  lemma MixedNumbersOrder(v: int, w: nat)
    requires LongLong(v) && w < TwoTo64
    ensures Orders(Compare(Int, Show(v, false), Hex, Show(w, true)), if v < 0 then v + TwoTo64 else v, w)
  {
    ParseShown(v);
    ParseShownHex(w);
    BitsOf(v);
  }

  lemma BitsOf(v: int)
    requires LongLong(v)
    ensures v % TwoTo64 == if v < 0 then v + TwoTo64 else v
  {
  }

  // Strings compare by their first different character, one that has ended
  // coming first.
  lemma {:induction false} StringsOrder(p: string, x: char, a: string, y: char, b: string)
    requires x < y
    ensures var c := Compare(String, p + [x] + a, String, p + [y] + b); c.ordered && c.res < 0
    ensures var c := Compare(String, p + [y] + b, String, p + [x] + a); c.ordered && c.res > 0
    ensures var c := Compare(String, p, String, p + [y] + b); c.ordered && c.res < 0
    ensures var c := Compare(String, p + [y] + b, String, p); c.ordered && c.res > 0
  {
    if p == "" {
      assert p + [x] + a == [x] + a && p + [y] + b == [y] + b;
    } else {
      StringsOrder(p[1..], x, a, y, b);
      assert (p + [x] + a)[1..] == p[1..] + [x] + a && (p + [y] + b)[1..] == p[1..] + [y] + b;
    }
  }

  // Bool and tristate symbols compare by their values; but with one of the
  // constants by the letters, m before n before y.
  lemma TristatesOrder(t: Tri, u: Tri, ta: SymType, tb: SymType)
    requires ta in {Boolean, Tristate} && tb in {Boolean, Tristate}
    ensures Orders(Compare(ta, TriName(t), tb, TriName(u)), t, u)
    ensures Orders(Compare(ta, TriName(t), Unknown, TriName(u)), LetterRank(t), LetterRank(u))
    ensures Orders(Compare(Unknown, TriName(t), tb, TriName(u)), LetterRank(t), LetterRank(u))
  {
    LetterValues(t);
    LetterValues(u);
    LetterIsNoNumber(t);
    LetterIsNoNumber(u);
    LettersOrder(t, u);
  }

  lemma LettersOrder(t: Tri, u: Tri)
    ensures Orders(Comparison(StrCmp(TriName(t), TriName(u)), true), LetterRank(t), LetterRank(u))
  {
    assert "n"[0] == 'n' && "m"[0] == 'm' && "y"[0] == 'y';
    assert TriName(t)[1..] == "" == TriName(u)[1..];
  }

  function LetterRank(t: Tri): int {
    if t == MOD then 0 else if t == NO then 1 else 2
  }

  // A symbol of any other type is compared as a string; and unless the other
  // side is a string that is no number, there is no order.
  lemma OtherUnordered(a: string, t: SymType, b: string)
    ensures var c := Compare(Other, a, t, b);
            (c.res == 0 <==> a == b) && (c.ordered <==> ParseString(b, t).AsString?)
    ensures var c := Compare(t, b, Other, a);
            (c.res == 0 <==> a == b) && (c.ordered <==> ParseString(b, t).AsString?)
  {
    StrCmpEqual(a, b);
    StrCmpEqual(b, a);
  }

  // All six relations between two int symbols, or an int symbol and a
  // constant, are those of the numbers.
  lemma RelationsOfNumbers(a: Sym, b: Sym, env: Env, v: int, w: int)
    requires Orders(env.cmp(a, b), v, w)
    ensures Eval(Cmp(Eq, a, b), env) == FromBool(v == w) && Eval(Cmp(Neq, a, b), env) == FromBool(v != w)
    ensures Eval(Cmp(Lt, a, b), env) == FromBool(v < w) && Eval(Cmp(Le, a, b), env) == FromBool(v <= w)
    ensures Eval(Cmp(Gt, a, b), env) == FromBool(v > w) && Eval(Cmp(Ge, a, b), env) == FromBool(v >= w)
  {
  }

  // ---- Constants ----

  // The constant of this name equals a bool or tristate symbol of value t.
  predicate Matches(name: string, t: Tri) {
    if IsNumber(name, 0) then Strtoll(name, 0) == t else name == TriName(t)
  }

  lemma LetterValues(t: Tri)
    ensures LetterValue(TriName(t)) == t
    ensures forall u: Tri :: TriName(t) == TriName(u) <==> t == u
  {
    assert "n"[0] != "m"[0] && "n"[0] != "y"[0] && "m"[0] != "y"[0];
  }

  lemma LetterIsNoNumber(t: Tri)
    ensures !IsNumber(TriName(t), 0)
  {
    var s := TriName(t);
    assert s[0..] == s;
    assert Spaces(s) == 0 && !Signed(s) && !SkipsPrefix(s, 0) && Digits(s, 10) == 0;
  }

  // A constant equals a bool or tristate symbol exactly if it matches the
  // symbol's value.
  lemma EqualsConstant(ty: SymType, t: Tri, name: string)
    requires ty.Boolean? || ty.Tristate?
    ensures Compare(ty, TriName(t), Unknown, name).res == 0 <==> Matches(name, t)
  {
    LetterValues(t);
    StrCmpEqual(TriName(t), name);
  }

  // The letters match nothing but their own values.
  lemma LetterMatches(t: Tri, u: Tri)
    ensures Matches(TriName(u), t) <==> t == u
  {
    LetterIsNoNumber(u);
    LetterValues(t);
  }
}
