// String values in configuration files: quoting, undoing it in place, and the
// strings a symbol of each type accepts.
module Quoting {
  import opened Exprs
  import opened Numerals

  const NUL := '\0'

  predicate Special(c: char) {
    c == '"' || c == '\\'
  }

  function EscapeBody(s: string): string {
    if s == "" then ""
    else (if Special(s[0]) then ['\\', s[0]] else [s[0]]) + EscapeBody(s[1..])
  }

  function Escape(s: string): string {
    "\"" + EscapeBody(s) + "\""
  }

  // What is between the quotes: s is the text after the opening one.
  function Unescape(s: string): Option<string> {
    if s == "" then None
    else if s[0] == '"' then Some("")
    else if s[0] == '\\' then
      if |s| == 1 then None else Cons(s[1], Unescape(s[2..]))
    else Cons(s[0], Unescape(s[1..]))
  }

  function Cons(c: char, s: Option<string>): Option<string> {
    if s.Some? then Some([c] + s.value) else None
  }

  function Prepend(t: string, s: Option<string>): Option<string> {
    if s.Some? then Some(t + s.value) else None
  }

  lemma {:induction false} UnescapeEscape(s: string, t: string)
    ensures Unescape(EscapeBody(s) + "\"" + t) == Some(s)
  {
    if s == "" {
      assert EscapeBody(s) + "\"" + t == "\"" + t;
    } else {
      var rest := EscapeBody(s[1..]) + "\"" + t;
      UnescapeEscape(s[1..], t);
      var whole := EscapeBody(s) + "\"" + t;
      if Special(s[0]) {
        assert whole == ['\\', s[0]] + rest;
        assert whole[2..] == rest;
      } else {
        assert whole == [s[0]] + rest;
        assert whole[1..] == rest;
      }
      assert [s[0]] + s[1..] == s;
    }
  }

  lemma {:induction false} EscapeKeepsChars(s: string, c: char)
    requires c !in s && !Special(c)
    ensures c !in EscapeBody(s)
  {
    if s != "" {
      EscapeKeepsChars(s[1..], c);
    }
  }

  lemma {:induction false} UnescapeAddsNoChars(s: string, c: char)
    requires Unescape(s).Some? && c in Unescape(s).value
    ensures c in s
  {
    if s[0] == '\\' {
      if c != s[1] {
        UnescapeAddsNoChars(s[2..], c);
      }
    } else if c != s[0] {
      UnescapeAddsNoChars(s[1..], c);
    }
  }

  // Only quotes and backslashes are escaped.
  lemma {:induction false} PlainEscape(s: string)
    requires '"' !in s && '\\' !in s
    ensures Escape(s) == "\"" + s + "\""
  {
    PlainBody(s);
  }

  lemma {:induction false} PlainBody(s: string)
    requires '"' !in s && '\\' !in s
    ensures EscapeBody(s) == s
  {
    if s != "" {
      assert s[0] in s && s == [s[0]] + s[1..];
      PlainBody(s[1..]);
    }
  }

  // The text is read up to the first quote; a text without one is refused.
  lemma {:induction false} UnescapePlain(p: string, t: string)
    requires '"' !in p && '\\' !in p
    ensures Unescape(p + "\"" + t) == Some(p)
    ensures Unescape(p) == None
  {
    if p == "" {
      assert p + "\"" + t == "\"" + t;
    } else {
      assert p[0] in p && p == [p[0]] + p[1..];
      UnescapePlain(p[1..], t);
      assert (p + "\"" + t)[1..] == p[1..] + "\"" + t;
    }
  }

  // A backslash stands for the character after it, whatever that is.
  lemma {:induction false} UnescapeBackslash(p: string, c: char, t: string)
    requires '"' !in p && '\\' !in p
    ensures Unescape(p + ['\\', c] + t) == Prepend(p + [c], Unescape(t))
  {
    var whole := p + ['\\', c] + t;
    if p == "" {
      assert whole == ['\\', c] + t && whole[2..] == t;
      assert p + [c] == [c];
    } else {
      assert p[0] in p && p == [p[0]] + p[1..];
      UnescapeBackslash(p[1..], c, t);
      assert whole[1..] == p[1..] + ['\\', c] + t;
      if Unescape(t).Some? {
        assert [p[0]] + (p[1..] + [c] + Unescape(t).value) == p + [c] + Unescape(t).value;
      }
    }
  }

  // ---- sym_escape_string_value ----

  function Specials(s: string): nat {
    if s == "" then 0 else (if Special(s[0]) then 1 else 0) + Specials(s[1..])
  }

  lemma {:induction false} EscapeBodyLength(s: string)
    ensures |EscapeBody(s)| == |s| + Specials(s)
  {
    if s != "" {
      EscapeBodyLength(s[1..]);
    }
  }

  predicate Plain(s: string, p: nat, q: nat)
    requires q <= |s|
  {
    forall i :: p <= i < q ==> !Special(s[i])
  }

  lemma {:induction false} PlainPrefix(s: string, l: nat)
    requires l <= |s| && Plain(s, 0, l)
    ensures Specials(s) == Specials(s[l..])
    ensures EscapeBody(s) == s[..l] + EscapeBody(s[l..])
    ensures Unescape(s) == Prepend(s[..l], Unescape(s[l..]))
  {
    if l == 0 {
      assert s[l..] == s && s[..l] == "";
      assert Unescape(s).Some? ==> "" + Unescape(s).value == Unescape(s).value;
    } else {
      var t := s[1..];
      PlainPrefix(t, l - 1);
      assert t[l - 1..] == s[l..] && s[..l] == [s[0]] + t[..l - 1];
      assert !Special(s[0]);
      assert EscapeBody(s) == s[..l] + EscapeBody(s[l..]) by {
        assert [s[0]] + (t[..l - 1] + EscapeBody(s[l..])) == s[..l] + EscapeBody(s[l..]);
      }
      if Unescape(s[l..]).Some? {
        var v := Unescape(s[l..]).value;
        assert [s[0]] + (t[..l - 1] + v) == s[..l] + v;
      }
    }
  }

  // strcspn(s + p, "\"\\")
  method Span(s: string, p: nat) returns (l: nat)
    requires p <= |s|
    ensures p + l <= |s| && Plain(s, p, p + l)
    ensures p + l < |s| ==> Special(s[p + l])
  {
    l := 0;
    while p + l < |s| && !Special(s[p + l])
      invariant p + l <= |s| && Plain(s, p, p + l)
    {
      l := l + 1;
    }
  }

  // strcat to the string of length n
  method Append(a: array<char>, n: nat, s: string)
    requires n + |s| < a.Length
    modifies a
    ensures a[..n + |s|] == old(a[..n]) + s && a[n + |s|] == NUL
  {
    forall i | 0 <= i < |s| {
      a[n + i] := s[i];
    }
    a[n + |s|] := NUL;
  }

  // The size of the result, with its terminator.
  method EscapedSize(s: string) returns (reslen: nat)
    ensures reslen == |Escape(s)| + 1
  {
    reslen := |s| + 2 + 1;
    var p := 0;
    while true
      invariant p <= |s| && reslen + Specials(s[p..]) == |s| + 3 + Specials(s)
      decreases |s| - p
    {
      var l := Span(s, p);
      SkipPlain(s, p, p + l);
      p := p + l;
      if p == |s| {
        break;
      }
      assert s[p..][1..] == s[p + 1..];
      reslen := reslen + 1;
      p := p + 1;
    }
    EscapeBodyLength(s);
  }

  lemma SkipPlain(s: string, p: nat, q: nat)
    requires p <= q <= |s| && Plain(s, p, q)
    ensures Specials(s[p..]) == Specials(s[q..])
    ensures EscapeBody(s[p..]) == s[p..q] + EscapeBody(s[q..])
  {
    PlainPrefix(s[p..], q - p);
    assert s[p..][..q - p] == s[p..q] && s[p..][q - p..] == s[q..];
  }

  // out holds what the first p characters of s contribute.
  ghost predicate EscapedUpTo(s: string, p: nat, out: string) {
    p <= |s| && out != "" && out + EscapeBody(s[p..]) + "\"" == Escape(s)
  }

  lemma EscapedPlain(s: string, p: nat, q: nat, out: string)
    requires EscapedUpTo(s, p, out) && p <= q <= |s| && Plain(s, p, q)
    ensures EscapedUpTo(s, q, out + s[p..q]) && |out| + (q - p) < |Escape(s)|
  {
    SkipPlain(s, p, q);
    assert out + (s[p..q] + EscapeBody(s[q..])) + "\"" == out + s[p..q] + EscapeBody(s[q..]) + "\"";
  }

  lemma EscapedSpecial(s: string, p: nat, out: string)
    requires EscapedUpTo(s, p, out) && p < |s| && Special(s[p])
    ensures EscapedUpTo(s, p + 1, out + "\\" + [s[p]]) && |out| + 2 < |Escape(s)|
  {
    assert s[p..][1..] == s[p + 1..];
    assert EscapeBody(s[p..]) == ['\\', s[p]] + EscapeBody(s[p + 1..]);
    assert out + (['\\', s[p]] + EscapeBody(s[p + 1..])) + "\"" == out + "\\" + [s[p]] + EscapeBody(s[p + 1..]) + "\"";
  }

  lemma EscapedNone(s: string, out: string)
    requires out == "\""
    ensures EscapedUpTo(s, 0, out)
  {
    assert s[0..] == s;
  }

  lemma EscapedAll(s: string, out: string)
    requires EscapedUpTo(s, |s|, out)
    ensures out + "\"" == Escape(s)
  {
    assert s[|s|..] == "" && out + "" == out;
  }

  method AppendPlain(s: string, p: nat, q: nat, res: array<char>, n: nat)
    requires n < res.Length == |Escape(s)| + 1 && EscapedUpTo(s, p, res[..n])
    requires p <= q <= |s| && Plain(s, p, q)
    modifies res
    ensures n + (q - p) < res.Length && EscapedUpTo(s, q, res[..n + (q - p)])
  {
    EscapedPlain(s, p, q, res[..n]);
    Append(res, n, s[p..q]);
  }

  method AppendSpecial(s: string, p: nat, res: array<char>, n: nat)
    requires n < res.Length == |Escape(s)| + 1 && EscapedUpTo(s, p, res[..n])
    requires p < |s| && Special(s[p])
    modifies res
    ensures n + 2 < res.Length && EscapedUpTo(s, p + 1, res[..n + 2])
  {
    EscapedSpecial(s, p, res[..n]);
    Append(res, n, "\\");
    Append(res, n + 1, [s[p]]);
  }

  // The result with its terminator fills the space allocated for it.
  method EscapeStringValue(s: string) returns (res: array<char>)
    ensures fresh(res) && res[..] == Escape(s) + [NUL]
  {
    var reslen := EscapedSize(s);
    res := new char[reslen];
    Append(res, 0, "\"");
    EscapedNone(s, res[..1]);
    var n := AppendEscaped(s, res, 1);
    CloseQuote(s, res, n);
  }

  method AppendEscaped(s: string, res: array<char>, n0: nat) returns (n: nat)
    requires n0 < res.Length == |Escape(s)| + 1 && EscapedUpTo(s, 0, res[..n0])
    modifies res
    ensures n < res.Length && EscapedUpTo(s, |s|, res[..n])
  {
    var p: nat := 0;
    n := n0;
    while true
      invariant n < res.Length && EscapedUpTo(s, p, res[..n])
      decreases |s| - p
    {
      var l := Span(s, p);
      AppendPlain(s, p, p + l, res, n);
      n, p := n + l, p + l;
      if p == |s| {
        break;
      }
      AppendSpecial(s, p, res, n);
      n, p := n + 2, p + 1;
    }
  }

  method CloseQuote(s: string, res: array<char>, n: nat)
    requires n < res.Length == |Escape(s)| + 1 && EscapedUpTo(s, |s|, res[..n])
    modifies res
    ensures res[..] == Escape(s) + [NUL]
  {
    EscapedAll(s, res[..n]);
    Append(res, n, "\"");
    assert res[..] == res[..n + 1] + [NUL];
  }

  // ---- conf_set_sym_val: undoing it in place ----

  // The string in a buffer from p on, up to its terminator.
  function Text(b: seq<char>, p: nat): string
    requires p <= |b|
    decreases |b| - p
  {
    if p == |b| || b[p] == NUL then "" else [b[p]] + Text(b, p + 1)
  }

  predicate NoNul(b: seq<char>, p: nat, n: nat)
    requires n <= |b|
  {
    forall i :: p <= i < n ==> b[i] != NUL
  }

  lemma {:induction false} TextIs(b: seq<char>, p: nat, n: nat)
    requires p <= n <= |b| && NoNul(b, p, n) && (n < |b| ==> b[n] == NUL)
    ensures Text(b, p) == b[p..n]
    decreases n - p
  {
    if p < n {
      assert b[p..n] == [b[p]] + b[p + 1..n];
      TextIs(b, p + 1, n);
    }
  }

  lemma {:induction false} TextEnd(b: seq<char>, p: nat) returns (n: nat)
    requires p <= |b|
    ensures p <= n <= |b| && NoNul(b, p, n) && (n < |b| ==> b[n] == NUL) && Text(b, p) == b[p..n]
    decreases |b| - p
  {
    if p == |b| || b[p] == NUL {
      n := p;
    } else {
      n := TextEnd(b, p + 1);
      assert b[p..n] == [b[p]] + b[p + 1..n];
    }
  }

  // strpbrk(b + p, "\"\\"), the terminator standing for NULL
  method Strpbrk(a: array<char>, p: nat, ghost n: nat) returns (q: nat)
    requires p <= n < a.Length && a[n] == NUL && NoNul(a[..], p, n)
    ensures p <= q <= n && Plain(a[..], p, q)
    ensures if q == n then a[q] == NUL else Special(a[q])
  {
    q := p;
    while a[q] != NUL && !Special(a[q])
      invariant p <= q <= n && Plain(a[..], p, q)
      decreases n - q
    {
      q := q + 1;
    }
  }

  // What is done so far: src was the text; p2 is where to go on, n is where
  // the text ends now. A backslash at the very end leaves p2 beyond it.
  ghost predicate Partly(src: string, b: seq<char>, p: nat, p2: nat, n: nat) {
    && p <= p2 <= n + 1 && p <= n < |b| && b[n] == NUL && NoNul(b, p, n)
    && (p2 <= n ==> Unescape(src) == Prepend(b[p..p2], Unescape(b[p2..n])))
    && (p2 > n ==> p2 < |b| && b[p2] == NUL && Unescape(src).None?)
  }

  lemma PartlyPlain(src: string, b: seq<char>, p: nat, p2: nat, n: nat, q: nat)
    requires Partly(src, b, p, p2, n) && p2 <= q <= n && Plain(b, p2, q)
    ensures Partly(src, b, p, q, n)
  {
    var t := b[p2..n];
    assert t[..q - p2] == b[p2..q] && t[q - p2..] == b[q..n];
    PlainPrefix(t, q - p2);
    assert b[p..p2] + b[p2..q] == b[p..q];
    PrependTwice(b[p..p2], b[p2..q], Unescape(b[q..n]));
  }

  lemma PrependTwice(s: string, t: string, r: Option<string>)
    ensures Prepend(s, Prepend(t, r)) == Prepend(s + t, r)
  {
    if r.Some? {
      assert s + (t + r.value) == s + t + r.value;
    }
  }

  lemma PartlyQuote(src: string, b: seq<char>, p: nat, q: nat, n: nat)
    requires Partly(src, b, p, q, n) && q < n && b[q] == '"'
    ensures Unescape(src) == Some(Text(b[q := NUL], p))
  {
    var c := b[q := NUL];
    assert c[p..q] == b[p..q];
    TextIs(c, p, q);
    assert b[p..q] + "" == b[p..q];
  }

  // b with the character at p removed, up to the terminator at n.
  ghost predicate MovedDown(b: seq<char>, c: seq<char>, p: nat, n: nat)
    requires p <= n < |b|
  {
    && |c| == |b|
    && (forall i :: 0 <= i < p || n <= i < |b| ==> c[i] == b[i])
    && (forall i :: p <= i < n ==> c[i] == b[i + 1])
  }

  lemma PartlyBackslash(src: string, b: seq<char>, c: seq<char>, p: nat, q: nat, n: nat)
    requires Partly(src, b, p, q, n) && q < n && b[q] == '\\' && MovedDown(b, c, q, n)
    ensures Partly(src, c, p, q + 1, n - 1)
  {
    if q + 1 < n {
      assert b[q..n][2..] == b[q + 2..n] == c[q + 1..n - 1];
      assert c[p..q + 1] == b[p..q] + [b[q + 1]];
      if Unescape(b[q + 2..n]).Some? {
        var v := Unescape(b[q + 2..n]).value;
        assert b[p..q] + ([b[q + 1]] + v) == c[p..q + 1] + v;
      }
    }
  }

  // memmove(b + p, b + p + 1, strlen(b + p))
  method MoveDown(a: array<char>, p: nat, ghost n: nat)
    requires p < n < a.Length && a[n] == NUL && NoNul(a[..], p, n)
    modifies a
    ensures MovedDown(old(a[..]), a[..], p, n)
  {
    ghost var b := a[..];
    var i := p;
    while a[i] != NUL
      invariant p <= i <= n
      invariant forall j :: 0 <= j < p || i <= j < a.Length ==> a[j] == b[j]
      invariant forall j :: p <= j < i ==> a[j] == b[j + 1]
      decreases n - i
    {
      a[i] := a[i + 1];
      i := i + 1;
    }
  }

  lemma PartlyBegun(src: string, b: seq<char>, p: nat, n: nat)
    requires p <= n < |b| && b[n] == NUL && NoNul(b, p, n) && b[p..n] == src
    ensures Partly(src, b, p, p, n)
  {
    assert b[p..p] == "";
    assert Unescape(src).Some? ==> "" + Unescape(src).value == Unescape(src).value;
  }

  method UnescapeInPlace(a: array<char>, p: nat) returns (ok: bool)
    requires p <= a.Length && NUL in a[p..]
    modifies a
    ensures a[..p] == old(a[..p])
    ensures ok <==> Unescape(old(Text(a[..], p))).Some?
    ensures ok ==> Text(a[..], p) == Unescape(old(Text(a[..], p))).value
  {
    ghost var src := Text(a[..], p);
    ghost var n: nat := TextEnd(a[..], p);
    assert n < a.Length;
    PartlyBegun(src, a[..], p, n);
    var p2: nat := p;
    while true
      invariant Partly(src, a[..], p, p2, n) && a[..p] == old(a[..p])
      decreases n + 1 - p2
    {
      var q := Strpbrk(a, p2, if p2 <= n then n else p2);
      if a[q] == NUL {
        if p2 <= n {
          PartlyPlain(src, a[..], p, p2, n, q);
        }
        return false;
      }
      PartlyPlain(src, a[..], p, p2, n, q);
      if a[q] == '"' {
        PartlyQuote(src, a[..], p, q, n);
        a[q] := NUL;
        return true;
      }
      ghost var b := a[..];
      MoveDown(a, q, n);
      PartlyBackslash(src, b, a[..], p, q, n);
      n, p2 := n - 1, q + 1;
    }
  }

  // ---- sym_string_valid ----

  predicate IsDigit(c: char) {
    '0' <= c <= '9'
  }

  predicate IsHexDigit(c: char) {
    IsDigit(c) || 'a' <= c <= 'f' || 'A' <= c <= 'F'
  }

  predicate AllDigits(s: string) {
    forall i :: 0 <= i < |s| ==> IsDigit(s[i])
  }

  predicate AllHexDigits(s: string) {
    forall i :: 0 <= i < |s| ==> IsHexDigit(s[i])
  }

  predicate ValidInt(s: string) {
    var t := if "-" <= s then s[1..] else s;
    t != "" && AllDigits(t) && (t[0] == '0' ==> |t| == 1)
  }

  predicate ValidHex(s: string) {
    var t := if "0x" <= s || "0X" <= s then s[2..] else s;
    t != "" && AllHexDigits(t)
  }

  predicate ValidString(ty: SymType, s: string) {
    match ty
    case String => true
    case Int => ValidInt(s)
    case Hex => ValidHex(s)
    case Boolean => s != "" && s[0] in "yYmMnN"
    case Tristate => s != "" && s[0] in "yYmMnN"
    case _ => false
  }

  // The character at i of a string with its terminator.
  function At(s: string, i: nat): char {
    if i < |s| then s[i] else NUL
  }

  method StringValid(ty: SymType, s: string) returns (ok: bool)
    requires NUL !in s
    ensures ok == ValidString(ty, s)
  {
    match ty {
      case String =>
        return true;
      case Int =>
        ok := IntValid(s);
      case Hex =>
        ok := HexValid(s);
      case Boolean | Tristate =>
        return At(s, 0) in "yYmMnN";
      case _ =>
        return false;
    }
  }

  method IntValid(s: string) returns (ok: bool)
    requires NUL !in s
    ensures ok == ValidInt(s)
  {
    var ch, i := At(s, 0), 1;
    ghost var t := s;
    if ch == '-' {
      ch, i := At(s, 1), 2;
      t := s[1..];
    }
    ghost var start := i - 1;
    assert t == if "-" <= s then s[1..] else s;
    if !IsDigit(ch) {
      assert t != "" ==> !IsDigit(t[0]);
      return false;
    }
    if ch == '0' && At(s, i) != NUL {
      assert t[0] == '0' && |t| > 1;
      return false;
    }
    ch, i := At(s, i), i + 1;
    while ch != NUL
      invariant start + 2 <= i <= |s| + 1 && ch == At(s, i - 1)
      invariant forall j :: 0 <= j < i - 1 - start ==> IsDigit(t[j])
      decreases |s| + 1 - i
    {
      if !IsDigit(ch) {
        assert t[i - 1 - start] == ch;
        return false;
      }
      ch, i := At(s, i), i + 1;
    }
    return true;
  }

  method HexValid(s: string) returns (ok: bool)
    requires NUL !in s
    ensures ok == ValidHex(s)
  {
    var i := 0;
    ghost var t := s;
    if At(s, 0) == '0' && (At(s, 1) == 'x' || At(s, 1) == 'X') {
      i := 2;
      t := s[2..];
    }
    ghost var start := i;
    assert t == if "0x" <= s || "0X" <= s then s[2..] else s;
    var ch := At(s, i);
    i := i + 1;
    while true
      invariant start < i <= |s| + 1 && ch == At(s, i - 1) && (i == start + 1 || ch != NUL)
      invariant forall j :: 0 <= j < i - 1 - start ==> IsHexDigit(t[j])
      decreases |s| + 1 - i
    {
      if !IsHexDigit(ch) {
        assert i <= |s| ==> t[i - 1 - start] == ch;
        return false;
      }
      ch, i := At(s, i), i + 1;
      if ch == NUL {
        break;
      }
    }
    return true;
  }

  // ---- What is valid ----

  // The valid integers are the printed ones, and minus zero.
  lemma ValidIntExact(s: string)
    ensures ValidInt(s) <==> s == "-0" || exists v: int :: s == Show(v, false)
  {
    if ValidInt(s) && s != "-0" {
      var t := if "-" <= s then s[1..] else s;
      DigitsArePrinted(t);
      var v: int := ValueOf(t, 10);
      if "-" <= s {
        assert s == "-" + t;
        assert s == Show(-v, false);
      } else {
        assert s == Show(v, false);
      }
    }
    if s == "-0" {
      assert s[1..] == "0" && AllDigits("0");
    }
    if exists v: int :: s == Show(v, false) {
      var v: int :| s == Show(v, false);
      ShownIsValid(v);
    }
  }

  lemma ShownIsValid(v: int)
    ensures ValidInt(Show(v, false))
  {
    var m := if v < 0 then -v else v;
    PrintsDigits(m, 10);
    NoLeadingZero(m);
    var p := Print(m, 10);
    forall i | 0 <= i < |p| ensures IsDigit(p[i]) {
      assert DigitOf(p[i]) < 10;
    }
    if v < 0 {
      assert Show(v, false)[1..] == p;
    }
  }

  // Digits without a leading zero are what their value is printed as.
  lemma {:induction false} DigitsArePrinted(t: string)
    requires t != "" && AllDigits(t) && (t[0] == '0' ==> |t| == 1)
    ensures Print(ValueOf(t, 10), 10) == t
    ensures ValueOf(t, 10) == 0 ==> t == "0"
    decreases |t|
  {
    var n := |t| - 1;
    var init, last := t[..n], t[n];
    assert t == init + [last];
    assert IsDigit(last);
    if n == 0 {
      assert init == "";
      assert ValueOf(t, 10) == DigitOf(last) && DigitChar(DigitOf(last)) == last;
    } else {
      assert init[0] == t[0];
      assert forall i :: 0 <= i < n ==> init[i] == t[i];
      DigitsArePrinted(init);
      LastDigit(ValueOf(init, 10), DigitOf(last));
      assert DigitChar(DigitOf(last)) == last;
    }
  }

  lemma LastDigit(q: nat, r: nat)
    requires r < 10 && q > 0
    ensures q * 10 + r >= 10 && (q * 10 + r) / 10 == q && (q * 10 + r) % 10 == r
  {
  }

  // The valid hexadecimal numbers are the non-empty strings of these digits,
  // with or without a prefix.
  lemma ValidHexExact(s: string)
    ensures ValidHex(s) <==> exists t :: HexDigits(t) && (s == t || s == "0x" + t || s == "0X" + t)
  {
    HexDigitChars();
    if ValidHex(s) {
      var t := if "0x" <= s || "0X" <= s then s[2..] else s;
      assert HexDigits(t);
      if "0x" <= s {
        assert s == "0x" + t;
      } else if "0X" <= s {
        assert s == "0X" + t;
      }
    }
    if t :| HexDigits(t) && (s == t || s == "0x" + t || s == "0X" + t) {
      HexIsValid(s, t);
    }
  }

  // One or more hexadecimal digits.
  predicate HexDigits(t: string) {
    t != "" && forall c :: c in t ==> c in "0123456789abcdefABCDEF"
  }

  lemma HexIsValid(s: string, t: string)
    requires HexDigits(t) && (s == t || s == "0x" + t || s == "0X" + t)
    ensures ValidHex(s)
  {
    HexDigitChars();
    assert AllHexDigits(t);
    if s == t {
      assert "0x"[1] == 'x' && !IsHexDigit('x') && "0X"[1] == 'X' && !IsHexDigit('X');
      assert |s| > 1 ==> s[1] in t;
    } else {
      assert s[2..] == t;
    }
  }

  lemma HexDigitChars()
    ensures forall c :: IsHexDigit(c) <==> c in "0123456789abcdefABCDEF"
  {
    var digits := "0123456789abcdefABCDEF";
    forall c | IsHexDigit(c) ensures c in digits {
      var i := if IsDigit(c) then c as int - '0' as int
               else if 'a' <= c <= 'f' then c as int - 'a' as int + 10
               else c as int - 'A' as int + 16;
      assert digits[i] == c;
    }
  }
}
