// Setting strings and numbers: which are accepted, and what becomes of them.
module StringSettings {
  import opened Tristate
  import opened Exprs
  import opened Numerals
  import opened Symbols
  import opened SymbolLaws
  import opened Quoting

  // sym_string_within_range, for symbols that are not bool or tristate
  predicate StringWithinRange(k: Kconfig, s: Sym, str: string, view: View) {
    match s.Type()
    case String => true
    case Int => ValidInt(str) && NumberWithinRange(k, s, str, view)
    case Hex => ValidHex(str) && NumberWithinRange(k, s, str, view)
    case _ => false
  }

  predicate NumberWithinRange(k: Kconfig, s: Sym, str: string, view: View) {
    match FirstRange(DeclOf(k, s).ranges, view.env)
    case None => true
    case Some(r) =>
      RangeValue(k, r.lo, Base(s), view) <= Strtoll(str, Base(s)) <= RangeValue(k, r.hi, Base(s), view)
  }

  lemma WithinSupport(k: Kconfig, s: Sym, str: string, v: View, w: View)
    requires Agree(v, w, (t: Sym) => true)
    ensures StringWithinRange(k, s, str, v) <==> StringWithinRange(k, s, str, w)
  {
    RangesSupport(DeclOf(k, s).ranges, v, w, (t: Sym) => true);
    match FirstRange(DeclOf(k, s).ranges, v.env)
    case None =>
    case Some(r) => assert v.str(r.lo) == w.str(r.lo) && v.str(r.hi) == w.str(r.hi);
  }

  // A hexadecimal number is stored with its prefix.
  function StoredString(s: Sym, str: string): string {
    if s.Type().Hex? && !HexPrefixed(str) then "0x" + str else str
  }

  lemma StoredHasPrefix(s: Sym, str: string)
    ensures var r := StoredString(s, str);
            if s.Type().Hex? && !("0x" <= str) && !("0X" <= str) then r == "0x" + str && HexPrefixed(r) else r == str
  {
  }

  lemma StoredReadsAlike(s: Sym, str: string)
    requires ValidString(s.Type(), str) && (s.Type().Int? || s.Type().Hex?)
    ensures Strtoll(StoredString(s, str), Base(s)) == Strtoll(str, Base(s))
  {
    if s.Type().Hex? && !HexPrefixed(str) {
      assert !("0x" <= str) && !("0X" <= str);
      PrefixIgnored(str);
    }
  }

  // ---- Clamping to the range in force ----

  // The bounds of the range, if one is in force.
  function BoundsOf(k: Kconfig, s: Sym, view: View): Option<(int, int)> {
    if !s.Type().Int? && !s.Type().Hex? then None
    else
      match FirstRange(DeclOf(k, s).ranges, view.env)
      case None => None
      case Some(r) => Some((RangeValue(k, r.lo, Base(s), view), RangeValue(k, r.hi, Base(s), view)))
  }

  // What a printed bound is read as: a negative one in hexadecimal is printed
  // as a number too great to be read.
  function Reread(s: Sym, v: int): int {
    if s.Type().Hex? && v < 0 then MaxLong else v
  }

  lemma ShownReadsBack(s: Sym, v: int)
    requires LongLong(v)
    ensures Strtoll(Show(v, s.Type().Hex?), Base(s)) == Reread(s, v)
  {
    if s.Type().Hex? {
      HexReadsBack(v);
    } else {
      DecimalReadsBack(v);
    }
  }

  // The upper bound is negative, and the string is what it is printed as.
  predicate IsPrintedBound(k: Kconfig, s: Sym, str: string, view: View) {
    match BoundsOf(k, s, view)
    case None => false
    case Some((lo, hi)) => s.Type().Hex? && hi < 0 && str == Show(hi, true)
  }

  function Clamped(s: Sym, str: string, lo: int, hi: int): string {
    var v := Strtoll(str, Base(s));
    if v < lo then Show(lo, s.Type().Hex?) else if v > hi then Show(hi, s.Type().Hex?) else str
  }

  lemma ClampIs(k: Kconfig, s: Sym, str: string, lo: int, hi: int, view: View)
    requires BoundsOf(k, s, view) == Some((lo, hi))
    ensures Clamp(k, s, str, view) == Clamped(s, str, lo, hi) && LongLong(lo) && LongLong(hi)
  {
  }

  // Clamping keeps exactly the numbers within range, and a printed negative
  // bound, which counts as greater than the bound.
  lemma ClampExact(k: Kconfig, s: Sym, str: string, view: View)
    requires s.Type().Int? || s.Type().Hex? || s.Type().String?
    ensures Clamp(k, s, str, view) == str <==>
            s.Type().String? || NumberWithinRange(k, s, str, view) || IsPrintedBound(k, s, str, view)
  {
    match BoundsOf(k, s, view)
    case None =>
    case Some((lo, hi)) =>
      ClampIs(k, s, str, lo, hi, view);
      ShownReadsBack(s, lo);
      ShownReadsBack(s, hi);
  }

  // A valid string set for a visible symbol is its value exactly if it was
  // within range, or the printed bound; for an invisible symbol it has no
  // effect.
  lemma StringSticks(k: Kconfig, rank: Rank, users: Users, s: Sym, str: string)
    requires Acyclic(k, rank)
    requires s.Type().String? || s.Type().Int? || s.Type().Hex?
    requires ValidString(s.Type(), str)
    ensures var view, stored := Full(k, rank, users), StoredString(s, str);
            var after := Den(k, rank, users[s := Value(NO, stored)], s).str;
            if AttributesIn(k, rank, users, s).visible != NO then
              after == stored <==> StringWithinRange(k, s, str, view) || IsPrintedBound(k, s, stored, view)
            else
              after == Den(k, rank, users, s).str
  {
    var stored := StoredString(s, str);
    SettingKeepsAttributes(k, rank, users, s, Value(NO, stored));
    DenUnfolds(k, rank, users, s);
    if !s.Type().String? {
      StoredReadsAlike(s, str);
    }
    ClampExact(k, s, stored, Full(k, rank, users));
  }

  // The range keeps what it has clamped once: for a number below it, the lower
  // bound as it is read again; for one above it, the upper bound.
  predicate RangeStable(k: Kconfig, s: Sym, str: string, view: View) {
    match BoundsOf(k, s, view)
    case None => true
    case Some((lo, hi)) =>
      var v := Strtoll(str, Base(s));
      if v < lo then Reread(s, lo) <= hi || lo == hi
      else v > hi ==> lo <= Reread(s, hi)
  }

  lemma ClampTwice(k: Kconfig, s: Sym, str: string, view: View)
    ensures Clamp(k, s, Clamp(k, s, str, view), view) == Clamp(k, s, str, view) <==> RangeStable(k, s, str, view)
  {
    match BoundsOf(k, s, view)
    case None =>
    case Some((lo, hi)) =>
      ClampIs(k, s, str, lo, hi, view);
      ClampIs(k, s, Clamp(k, s, str, view), lo, hi, view);
      ClampedTwice(s, str, lo, hi);
  }

  lemma ClampedTwice(s: Sym, str: string, lo: int, hi: int)
    requires LongLong(lo) && LongLong(hi)
    ensures var v := Strtoll(str, Base(s));
            Clamped(s, Clamped(s, str, lo, hi), lo, hi) == Clamped(s, str, lo, hi) <==>
            if v < lo then Reread(s, lo) <= hi || lo == hi else v > hi ==> lo <= Reread(s, hi)
  {
    ShownReadsBack(s, lo);
    ShownReadsBack(s, hi);
    if Show(lo, s.Type().Hex?) == Show(hi, s.Type().Hex?) {
      ShowInjective(lo, hi, s.Type().Hex?);
    }
  }

  predicate RangeNotEmpty(k: Kconfig, s: Sym, view: View) {
    match BoundsOf(k, s, view)
    case None => true
    case Some((lo, hi)) => lo <= hi
  }

  // No bound is a negative hexadecimal number.
  predicate BoundsReadBack(k: Kconfig, s: Sym, view: View) {
    match BoundsOf(k, s, view)
    case None => true
    case Some((lo, hi)) => s.Type().Hex? ==> lo >= 0 && hi >= 0
  }

  // Then being stable means not being empty, whatever the number is.
  lemma StableIsNotEmpty(k: Kconfig, s: Sym, str: string, view: View)
    requires BoundsReadBack(k, s, view)
    ensures RangeStable(k, s, str, view) <==> RangeNotEmpty(k, s, view)
  {
  }
}
