// The text of a configuration file: the line written for a symbol, and reading
// the lines back.
module ConfText {
  import opened Tristate
  import opened Exprs
  import opened Comparisons
  import opened Symbols
  import opened SymbolLaws
  import opened Quoting

  // The prefix before every symbol's name, and the symbols by their names.
  datatype Names = Names(prefix: string, table: map<string, Sym>)

  // A name that stands in a line as itself.
  predicate Named(names: Names, s: Sym) {
    && s.Config? && s.name in names.table && names.table[s.name] == s
    && ' ' !in s.name && '=' !in s.name && '\n' !in s.name && '\n' !in names.prefix
    && !("#" <= names.prefix + s.name)
  }

  // ---- conf_write_symbol, kconfig_print_symbol ----

  const NotSet := "is not set"

  function ValueLine(prefix: string, s: Sym, value: string): string
    requires s.Config?
  {
    prefix + (s.name + "=" + (value + "\n"))
  }

  function UnsetLine(prefix: string, s: Sym): string
    requires s.Config?
  {
    "# " + (prefix + (s.name + " " + (NotSet + "\n")))
  }

  // The value is what sym_get_string_value returns.
  function SymbolLine(prefix: string, s: Sym, value: string): string
    requires s.Config?
  {
    match s.ty
    case Other => ""
    case Unknown => ""
    case String => ValueLine(prefix, s, Escape(value))
    case Boolean => if "n" <= value then UnsetLine(prefix, s) else ValueLine(prefix, s, value)
    case Tristate => if "n" <= value then UnsetLine(prefix, s) else ValueLine(prefix, s, value)
    case _ => ValueLine(prefix, s, value)
  }

  // ---- conf_set_sym_val, for the user's settings ----

  function SetSymVal(def: Users, s: Sym, p: string): Users {
    match s.Type()
    case Tristate => if "m" <= p then def[s := Value(MOD, "")] else SetBoolVal(def, s, p)
    case Boolean => SetBoolVal(def, s, p)
    case Other => if "\"" <= p then SetQuoted(def, s, p[1..]) else def[s := Value(NO, p)]
    case String => if "\"" <= p then SetQuoted(def, s, p[1..]) else def
    case Unknown => def
    case _ => SetValid(def, s, p)
  }

  // The checks at the end refuse every quoted value of a symbol without a
  // declared type.
  function SetValid(def: Users, s: Sym, p: string): Users {
    if ValidString(s.Type(), p) then def[s := Value(NO, p)] else def
  }

  function SetBoolVal(def: Users, s: Sym, p: string): Users {
    if "y" <= p then def[s := Value(YES, "")] else if "n" <= p then def[s := Value(NO, "")] else def
  }

  function SetQuoted(def: Users, s: Sym, p: string): Users {
    match Unescape(p)
    case None => def
    case Some(v) => SetValid(def, s, v)
  }

  // The value is in a buffer from p on, and its quotes are undone there.
  method SetSymValInPlace(def: Users, s: Sym, a: array<char>, p: nat) returns (r: Users)
    requires p < a.Length && NUL in a[p..]
    modifies a
    ensures r == SetSymVal(def, s, old(Text(a[..], p)))
  {
    r := def;
    ghost var text := Text(a[..], p);
    TextStart(a[..], p);
    var ty := s.Type();
    if ty.Tristate? && a[p] == 'm' {
      r := def[s := Value(MOD, "")];
    } else if s.IsLogical() {
      if a[p] == 'y' {
        r := def[s := Value(YES, "")];
      } else if a[p] == 'n' {
        r := def[s := Value(NO, "")];
      }
    } else if ty.Other? && a[p] != '"' {
      r := def[s := Value(NO, Text(a[..], p))];
    } else if ty.Other? || ty.String? {
      if a[p] == '"' {
        r := SetQuotedInPlace(def, s, a, p + 1);
      }
    } else if ty.Int? || ty.Hex? {
      r := SetValidInPlace(def, s, a, p);
    }
  }

  method SetValidInPlace(def: Users, s: Sym, a: array<char>, p: nat) returns (r: Users)
    requires p <= a.Length
    ensures r == SetValid(def, s, Text(a[..], p))
  {
    TextHasNoNul(a[..], p);
    var ok := StringValid(s.Type(), Text(a[..], p));
    r := if ok then def[s := Value(NO, Text(a[..], p))] else def;
  }

  method SetQuotedInPlace(def: Users, s: Sym, a: array<char>, p: nat) returns (r: Users)
    requires p <= a.Length && NUL in a[p..]
    modifies a
    ensures r == SetQuoted(def, s, old(Text(a[..], p)))
  {
    var ok := UnescapeInPlace(a, p);
    r := def;
    if ok {
      r := SetValidInPlace(def, s, a, p);
    }
  }

  lemma TextStart(b: seq<char>, p: nat)
    requires p < |b| && NUL in b[p..]
    ensures b[p] == NUL ==> Text(b, p) == ""
    ensures b[p] != NUL ==>
              && Text(b, p) != "" && Text(b, p)[0] == b[p] && Text(b, p)[1..] == Text(b, p + 1)
              && NUL in b[p + 1..]
    ensures forall c :: [c] <= Text(b, p) <==> b[p] == c != NUL
  {
    assert b[p..] == [b[p]] + b[p + 1..];
  }

  lemma TextHasNoNul(b: seq<char>, p: nat)
    requires p <= |b|
    ensures NUL !in Text(b, p)
  {
    var n := TextEnd(b, p);
  }

  // ---- conf_read_simple: one line ----

  // strchr, the length of s standing for NULL
  function IndexOf(s: string, c: char): (i: nat)
    ensures i <= |s| && (forall j :: 0 <= j < i ==> s[j] != c) && (i < |s| ==> s[i] == c)
  {
    if s == "" || s[0] == c then 0 else IndexOf(s[1..], c) + 1
  }

  lemma IndexIs(s: string, c: char, i: nat)
    requires i < |s| && s[i] == c && forall j :: 0 <= j < i ==> s[j] != c
    ensures IndexOf(s, c) == i
  {
  }

  // The value without the end of the line.
  function Chopped(p: string): string {
    var j := IndexOf(p, '\n');
    if j == |p| then p
    else if j > 0 && p[j - 1] == '\r' then p[..j - 1]
    else p[..j]
  }

  function ReadLine(names: Names, def: Users, line: string): Users {
    if line == "" then def
    else if line[0] == '#' then
      if |line| >= 2 && names.prefix <= line[2..] then ReadUnset(names, def, line[2..][|names.prefix|..]) else def
    else if names.prefix <= line then ReadSetting(names, def, line[|names.prefix|..])
    else def
  }

  function ReadUnset(names: Names, def: Users, rest: string): Users {
    var i := IndexOf(rest, ' ');
    if i == |rest| || !(NotSet <= rest[i + 1..]) || rest[..i] !in names.table then def
    else
      var s := names.table[rest[..i]];
      if s.IsLogical() then def[s := Value(NO, "")] else def
  }

  function ReadSetting(names: Names, def: Users, rest: string): Users {
    var i := IndexOf(rest, '=');
    if i == |rest| || rest[..i] !in names.table then def
    else SetSymVal(def, names.table[rest[..i]], Chopped(rest[i + 1..]))
  }

  // A text split at the first c.
  lemma SplitAt(a: string, c: char, t: string)
    requires c !in a
    ensures var s := a + [c] + t;
            IndexOf(s, c) == |a| && s[..|a|] == a && s[|a| + 1..] == t
  {
    IndexIs(a + [c] + t, c, |a|);
  }

  lemma Dropped(p: string, t: string)
    ensures p <= p + t && (p + t)[|p|..] == t
  {
  }

  lemma ReadsUnset(names: Names, def: Users, s: Sym)
    requires Named(names, s)
    ensures ReadLine(names, def, UnsetLine(names.prefix, s)) == if s.IsLogical() then def[s := Value(NO, "")] else def
  {
    var tail := NotSet + "\n";
    var rest := s.name + " " + tail;
    Dropped("# ", names.prefix + rest);
    Dropped(names.prefix, rest);
    SplitAt(s.name, ' ', tail);
  }

  lemma ReadsValue(names: Names, def: Users, s: Sym, value: string)
    requires Named(names, s) && '\n' !in value
    requires value != "" ==> value[|value| - 1] != '\r'
    ensures ReadLine(names, def, ValueLine(names.prefix, s, value)) == SetSymVal(def, s, value)
  {
    var rest := s.name + "=" + (value + "\n");
    NoHash(names.prefix, s.name, "=" + (value + "\n"));
    Dropped(names.prefix, rest);
    assert ReadLine(names, def, names.prefix + rest) == ReadSetting(names, def, rest);
    SplitAt(s.name, '=', value + "\n");
    ChopsEnd(value);
  }

  lemma NoHash(prefix: string, name: string, t: string)
    requires !("#" <= prefix + name) && t != "" && t[0] != '#'
    ensures (prefix + (name + t))[0] != '#'
  {
    assert prefix != "" ==> (prefix + (name + t))[0] == prefix[0] == (prefix + name)[0];
    assert prefix == "" && name != "" ==> (prefix + (name + t))[0] == name[0] == (prefix + name)[0];
  }

  lemma ChopsEnd(value: string)
    requires '\n' !in value && (value != "" ==> value[|value| - 1] != '\r')
    ensures Chopped(value + "\n") == value
  {
    assert value + "\n" == value + ['\n'] + "";
    SplitAt(value, '\n', "");
  }

  // ---- Which values survive ----

  // What can be a setting read from a file.
  predicate Readable(s: Sym, v: Value) {
    match s.Type()
    case Boolean => v.tri != MOD
    case Tristate => true
    case Int => ValidInt(v.str)
    case Hex => ValidHex(v.str)
    case _ => '\n' !in v.str
  }

  // The values written so that they can be read: a string without an end of
  // line, a valid number, m only for a tristate symbol and with modules.
  predicate Writable(k: Kconfig, s: Sym, v: Value) {
    && Readable(s, v)
    && !s.Type().Unknown? && !s.Type().Other?
    && (s.IsLogical() && v.tri == MOD ==> k.modules != NO)
  }

  // What is kept of a value in the user's settings.
  function Stored(s: Sym, v: Value): Value {
    if s.IsLogical() then Value(v.tri, "") else Value(NO, v.str)
  }

  function LineOf(k: Kconfig, names: Names, s: Sym, v: Value): string
    requires s.Config?
  {
    SymbolLine(names.prefix, s, StringOf(k, s, v))
  }

  lemma LineReadsBack(k: Kconfig, names: Names, def: Users, s: Sym, v: Value)
    requires Named(names, s) && Writable(k, s, v)
    ensures ReadLine(names, def, LineOf(k, names, s, v)) == def[s := Stored(s, v)]
  {
    if s.IsLogical() {
      TristateReadsBack(k, names, def, s, v);
    } else if s.Type().String? {
      StringReadsBack(names, def, s, v.str);
    } else {
      NumberReadsBack(names, def, s, v);
    }
  }

  lemma TristateReadsBack(k: Kconfig, names: Names, def: Users, s: Sym, v: Value)
    requires Named(names, s) && s.IsLogical()
    requires v.tri == MOD ==> s.Type().Tristate? && k.modules != NO
    ensures ReadLine(names, def, LineOf(k, names, s, v)) == def[s := Value(v.tri, "")]
  {
    LetterReadsBack(names, def, s, v.tri);
    assert StringOf(k, s, v) == TriName(v.tri);
  }

  lemma LetterReadsBack(names: Names, def: Users, s: Sym, t: Tri)
    requires Named(names, s) && s.IsLogical() && (t == MOD ==> s.Type().Tristate?)
    ensures ReadLine(names, def, SymbolLine(names.prefix, s, TriName(t))) == def[s := Value(t, "")]
  {
    if t == NO {
      ReadsUnset(names, def, s);
    } else {
      SetLetter(def, s, t);
      ReadsValue(names, def, s, TriName(t));
    }
  }

  lemma SetLetter(def: Users, s: Sym, t: Tri)
    requires s.IsLogical() && t != NO && (t == MOD ==> s.Type().Tristate?)
    ensures SetSymVal(def, s, TriName(t)) == def[s := Value(t, "")]
    ensures |TriName(t)| == 1 && TriName(t)[0] !in "\r\n" && !("n" <= TriName(t))
  {
    LettersDiffer();
  }

  lemma LettersDiffer()
    ensures !("n" <= "y") && !("n" <= "m") && !("m" <= "y")
  {
    assert "y"[0] != 'n' && "m"[0] != 'n' && "y"[0] != 'm';
  }

  lemma StringReadsBack(names: Names, def: Users, s: Sym, str: string)
    requires Named(names, s) && s.Type().String? && '\n' !in str
    ensures ReadLine(names, def, SymbolLine(names.prefix, s, str)) == def[s := Value(NO, str)]
  {
    EscapeKeepsChars(str, '\n');
    ReadsValue(names, def, s, Escape(str));
    SetEscaped(def, s, str);
  }

  lemma SetEscaped(def: Users, s: Sym, str: string)
    requires s.Type().String?
    ensures SetSymVal(def, s, Escape(str)) == def[s := Value(NO, str)]
  {
    UnescapeEscape(str, "");
    assert Escape(str)[1..] == EscapeBody(str) + "\"" + "";
  }

  lemma NumberReadsBack(names: Names, def: Users, s: Sym, v: Value)
    requires Named(names, s) && Readable(s, v) && (s.Type().Int? || s.Type().Hex?)
    ensures ReadLine(names, def, SymbolLine(names.prefix, s, v.str)) == def[s := Value(NO, v.str)]
  {
    NumberChars(s, v);
    ReadsValue(names, def, s, v.str);
  }

  lemma NumberChars(s: Sym, v: Value)
    requires Readable(s, v) && (s.Type().Int? || s.Type().Hex?)
    ensures v.str != "" && '\n' !in v.str && '\r' !in v.str
  {
    assert forall i :: 0 <= i < |v.str| ==> IsHexDigit(v.str[i]) || v.str[i] in "-xX" by {
      var t := if s.Type().Int? then (if "-" <= v.str then v.str[1..] else v.str)
               else if "0x" <= v.str || "0X" <= v.str then v.str[2..] else v.str;
      forall i | 0 <= i < |v.str| ensures IsHexDigit(v.str[i]) || v.str[i] in "-xX" {
        var d := |v.str| - |t|;
        if i >= d {
          assert v.str[i] == t[i - d];
        }
      }
    }
  }

  // The text of the line is one line, so it is read as such.
  predicate OneLine(line: string) {
    line != "" && IndexOf(line, '\n') == |line| - 1
  }

  lemma EndsLine(head: string)
    requires '\n' !in head
    ensures OneLine(head + "\n")
  {
    SplitAt(head, '\n', "");
    assert head + ['\n'] + "" == head + "\n";
  }

  lemma ValueLineIsOneLine(prefix: string, s: Sym, value: string)
    requires s.Config? && '\n' !in prefix && '\n' !in s.name && '\n' !in value
    ensures OneLine(ValueLine(prefix, s, value))
  {
    var head := prefix + (s.name + "=" + value);
    EndsLine(head);
    assert (s.name + "=") + (value + "\n") == (s.name + "=" + value) + "\n";
    assert ValueLine(prefix, s, value) == head + "\n";
  }

  lemma UnsetLineIsOneLine(prefix: string, s: Sym)
    requires s.Config? && '\n' !in prefix && '\n' !in s.name
    ensures OneLine(UnsetLine(prefix, s))
  {
    var head := "# " + (prefix + (s.name + " " + NotSet));
    EndsLine(head);
    assert (s.name + " ") + (NotSet + "\n") == (s.name + " " + NotSet) + "\n";
    assert UnsetLine(prefix, s) == head + "\n";
  }

  lemma LineIsOneLine(k: Kconfig, names: Names, s: Sym, v: Value)
    requires Named(names, s) && Writable(k, s, v)
    ensures OneLine(LineOf(k, names, s, v))
  {
    if s.Type().String? {
      EscapeKeepsChars(v.str, '\n');
      ValueLineIsOneLine(names.prefix, s, Escape(v.str));
    } else if s.IsLogical() && v.tri == NO {
      UnsetLineIsOneLine(names.prefix, s);
    } else {
      if s.IsLogical() {
        LettersDiffer();
      } else {
        NumberChars(s, v);
      }
      ValueLineIsOneLine(names.prefix, s, StringOf(k, s, v));
    }
  }

  // ---- The whole file ----

  // The length of the next line, with its end.
  function LineLength(text: string): (n: nat)
    requires text != ""
    ensures 0 < n <= |text|
  {
    var i := IndexOf(text, '\n');
    if i == |text| then i else i + 1
  }

  function ReadText(names: Names, def: Users, text: string): Users
    decreases |text|
  {
    if text == "" then def
    else
      var n := LineLength(text);
      ReadText(names, ReadLine(names, def, text[..n]), text[n..])
  }

  // The settings at the end if def are those made before position at.
  function Resume(names: Names, def: Users, text: string, at: nat): Users
    requires at <= |text|
  {
    ReadText(names, def, text[at..])
  }

  // Reading line by line, each one taken character by character.
  method ReadSimple(names: Names, text: string) returns (def: Users)
    ensures def == ReadText(names, map[], text)
  {
    def := map[];
    var at := 0;
    assert text[0..] == text;
    while at < |text|
      invariant at <= |text| && Resume(names, def, text, at) == Resume(names, map[], text, 0)
    {
      var n := Getline(text, at);
      ReadStep(names, def, text, at, n);
      def := ReadLine(names, def, text[at..at + n]);
      at := at + n;
    }
  }

  lemma ReadStep(names: Names, def: Users, text: string, at: nat, n: nat)
    requires at < |text| && n == LineLength(text[at..])
    ensures Resume(names, def, text, at) == Resume(names, ReadLine(names, def, text[at..at + n]), text, at + n)
  {
    var rest := text[at..];
    assert rest[..n] == text[at..at + n] && rest[n..] == text[at + n..];
  }

  // compat_getline
  method Getline(text: string, at: nat) returns (n: nat)
    requires at < |text|
    ensures n == LineLength(text[at..])
  {
    n := 0;
    while at + n < |text| && text[at + n] != '\n'
      invariant at + n <= |text| && forall j :: at <= j < at + n ==> text[j] != '\n'
    {
      n := n + 1;
    }
    ghost var rest := text[at..];
    if at + n < |text| {
      IndexIs(rest, '\n', n);
      n := n + 1;
    }
  }

  // Text that ends with its last line.
  predicate WholeLines(text: string) {
    text != "" ==> text[|text| - 1] == '\n'
  }

  lemma {:induction false} ReadConcat(names: Names, def: Users, t: string, u: string)
    requires WholeLines(t)
    ensures ReadText(names, def, t + u) == ReadText(names, ReadText(names, def, t), u)
    decreases |t|
  {
    if t == "" {
      assert t + u == u;
    } else {
      var i := IndexOf(t, '\n');
      assert i < |t| by {
        assert t[|t| - 1] == '\n';
      }
      IndexIs(t + u, '\n', i);
      assert (t + u)[..i + 1] == t[..i + 1] && (t + u)[i + 1..] == t[i + 1..] + u;
      ReadFirst(names, def, t + u, i + 1);
      ReadFirst(names, def, t, i + 1);
      ReadConcat(names, ReadLine(names, def, t[..i + 1]), t[i + 1..], u);
    }
  }

  lemma ReadAfter(k: Kconfig, names: Names, text: string, s: Sym, v: Value)
    requires WholeLines(text) && Named(names, s) && Writable(k, s, v)
    ensures var line := LineOf(k, names, s, v);
            && WholeLines(text + line)
            && ReadText(names, map[], text + line) == ReadText(names, map[], text)[s := Stored(s, v)]
  {
    var def := ReadText(names, map[], text);
    LineIsOneLine(k, names, s, v);
    ReadOneLine(names, def, LineOf(k, names, s, v));
    ReadConcat(names, map[], text, LineOf(k, names, s, v));
    LineReadsBack(k, names, def, s, v);
  }

  lemma ReadOneLine(names: Names, def: Users, line: string)
    requires OneLine(line)
    ensures ReadText(names, def, line) == ReadLine(names, def, line) && line[|line| - 1] == '\n'
  {
    ReadFirst(names, def, line, |line|);
    assert line[..|line|] == line && line[|line|..] == "";
  }

  lemma ReadFirst(names: Names, def: Users, text: string, n: nat)
    requires text != "" && n == LineLength(text)
    ensures ReadText(names, def, text) == ReadText(names, ReadLine(names, def, text[..n]), text[n..])
  {
  }

  // ---- Only those survive ----

  predicate AllReadable(def: Users) {
    forall s :: s in def ==> Readable(s, def[s])
  }

  lemma ReadLineIsReadable(names: Names, def: Users, line: string)
    requires AllReadable(def)
    ensures AllReadable(ReadLine(names, def, line))
  {
    if line != "" && line[0] != '#' && names.prefix <= line {
      ReadSettingIsReadable(names, def, line[|names.prefix|..]);
    }
  }

  lemma ReadSettingIsReadable(names: Names, def: Users, rest: string)
    requires AllReadable(def)
    ensures AllReadable(ReadSetting(names, def, rest))
  {
    var i := IndexOf(rest, '=');
    if i < |rest| && rest[..i] in names.table {
      SetIsReadable(def, names.table[rest[..i]], Chopped(rest[i + 1..]));
    }
  }

  lemma SetIsReadable(def: Users, s: Sym, p: string)
    requires AllReadable(def) && '\n' !in p
    ensures AllReadable(SetSymVal(def, s, p))
  {
    if "\"" <= p && Unescape(p[1..]).Some? {
      var v := Unescape(p[1..]).value;
      if '\n' in v {
        UnescapeAddsNoChars(p[1..], '\n');
      }
    }
  }

  // Whatever the file says, the settings read from it are readable values.
  lemma {:induction false} ReadIsReadable(names: Names, def: Users, text: string)
    requires AllReadable(def)
    ensures AllReadable(ReadText(names, def, text))
    decreases |text|
  {
    if text != "" {
      var n := LineLength(text);
      ReadLineIsReadable(names, def, text[..n]);
      ReadIsReadable(names, ReadLine(names, def, text[..n]), text[n..]);
    }
  }

  // A character that is nowhere in the text is in none of the settings.
  predicate NoneHas(def: Users, c: char) {
    forall s :: s in def ==> c !in def[s].str
  }

  lemma SetAddsNoChars(def: Users, s: Sym, p: string, c: char)
    requires NoneHas(def, c) && c !in p
    ensures NoneHas(SetSymVal(def, s, p), c)
  {
    if "\"" <= p && Unescape(p[1..]).Some? && c in Unescape(p[1..]).value {
      UnescapeAddsNoChars(p[1..], c);
    }
  }

  lemma LineAddsNoChars(names: Names, def: Users, line: string, c: char)
    requires NoneHas(def, c) && c !in line
    ensures NoneHas(ReadLine(names, def, line), c)
  {
    if line != "" && line[0] != '#' && names.prefix <= line {
      SettingAddsNoChars(names, def, line[|names.prefix|..], c);
    }
  }

  lemma SettingAddsNoChars(names: Names, def: Users, rest: string, c: char)
    requires NoneHas(def, c) && c !in rest
    ensures NoneHas(ReadSetting(names, def, rest), c)
  {
    var i := IndexOf(rest, '=');
    if i < |rest| && rest[..i] in names.table {
      SetAddsNoChars(def, names.table[rest[..i]], Chopped(rest[i + 1..]), c);
    }
  }

  lemma {:induction false} ReadAddsNoChars(names: Names, def: Users, text: string, c: char)
    requires NoneHas(def, c) && c !in text
    ensures NoneHas(ReadText(names, def, text), c)
    decreases |text|
  {
    if text != "" {
      var n := LineLength(text);
      ReadFirst(names, def, text, n);
      LineAddsNoChars(names, def, text[..n], c);
      ReadAddsNoChars(names, ReadLine(names, def, text[..n]), text[n..], c);
    }
  }

  // A line gives back its value exactly if the value is a writable one.
  lemma LineRoundTrip(k: Kconfig, names: Names, s: Sym, v: Value)
    requires Named(names, s)
    ensures ReadText(names, map[], LineOf(k, names, s, v)) == map[s := Stored(s, v)] <==> Writable(k, s, v)
  {
    var line := LineOf(k, names, s, v);
    if Writable(k, s, v) {
      assert "" + line == line;
      ReadAfter(k, names, "", s, v);
    } else if Readable(s, v) {
      if s.IsLogical() {
        var n := Value(NO, "n");
        assert line == LineOf(k, names, s, n);
        assert "" + line == line;
        ReadAfter(k, names, "", s, n);
        assert map[s := Stored(s, v)][s] != map[s := Stored(s, n)][s];
      } else {
        assert line == "" && s in map[s := Stored(s, v)];
      }
    } else {
      ReadIsReadable(names, map[], line);
      assert s in map[s := Stored(s, v)];
    }
  }

  // ---- The lines themselves ----

  const Flag := Config("FLAG", Boolean, false)
  const Name := Config("NAME", String, false)
  const Count := Config("COUNT", Int, false)

  // A few lines as they stand in a file.
  lemma SampleLines()
    ensures SymbolLine("CONFIG_", Flag, "n") == "# CONFIG_FLAG is not set\n"
    ensures SymbolLine("CONFIG_", Flag, "y") == "CONFIG_FLAG=y\n"
    ensures SymbolLine("", Count, "-3") == "COUNT=-3\n"
    ensures SymbolLine("", Name, "a b") == "NAME=\"a b\"\n"
  {
    LettersDiffer();
    PlainEscape("a b");
  }

  // Of the value of a bool or tristate symbol only the first letter counts.
  lemma FirstLetterCounts(def: Users, s: Sym, c: char, t: string)
    requires s.IsLogical()
    ensures SetSymVal(def, s, [c] + t) ==
            if c == 'y' then def[s := Value(YES, "")]
            else if c == 'n' then def[s := Value(NO, "")]
            else if c == 'm' && s.Type().Tristate? then def[s := Value(MOD, "")]
            else def
    ensures SetSymVal(def, s, "") == def
  {
    assert ([c] + t)[0] == c;
  }

  // A value that is not well-formed for its symbol changes nothing.
  lemma IllFormedIgnored(def: Users, s: Sym, p: string)
    requires (s.Type().Int? && !ValidInt(p)) || (s.Type().Hex? && !ValidHex(p)) || s.Type().Unknown?
             || (s.Type().String? && (!("\"" <= p) || Unescape(p[1..]).None?))
    ensures SetSymVal(def, s, p) == def
  {
  }

  // A line that is neither a comment nor begins with the prefix, or has no =
  // sign after it, or an unknown name before that, changes nothing.
  lemma OtherLinesIgnored(names: Names, def: Users, line: string, rest: string, t: string)
    requires line != "" && line[0] != '#'
    ensures !(names.prefix <= line) ==> ReadLine(names, def, line) == def
    ensures line == names.prefix + rest && '=' !in rest ==> ReadLine(names, def, line) == def
    ensures line == names.prefix + (rest + "=" + t) && '=' !in rest && rest !in names.table ==> ReadLine(names, def, line) == def
  {
    if line == names.prefix + rest && '=' !in rest {
      Dropped(names.prefix, rest);
      assert IndexOf(rest, '=') == |rest|;
    }
    if line == names.prefix + (rest + "=" + t) && '=' !in rest {
      Dropped(names.prefix, rest + "=" + t);
      SplitAt(rest, '=', t);
    }
  }

  // A comment is one of these lines only if the known name of a bool or
  // tristate symbol and the words follow the prefix.
  lemma OtherCommentsIgnored(names: Names, def: Users, name: string, t: string)
    requires ' ' !in name
    requires name !in names.table || !names.table[name].IsLogical() || !(NotSet <= t)
    ensures ReadLine(names, def, "# " + (names.prefix + (name + " " + t))) == def
  {
    Dropped("# ", names.prefix + (name + " " + t));
    Dropped(names.prefix, name + " " + t);
    SplitAt(name, ' ', t);
  }

  // A line may end with a carriage return and a line feed.
  lemma CarriageReturnDropped(value: string)
    requires '\n' !in value
    ensures Chopped(value + "\r\n") == value
  {
    var p := value + "\r";
    assert value + "\r\n" == p + ['\n'] + "";
    SplitAt(p, '\n', "");
    assert p[..|p| - 1] == value;
  }
}
