/** Loading what was printed gives the same sections and configs. */
module ConfigRoundTrip {
  import opened Chars
  import opened ConfigSpec
  import opened IntegerText
  import opened LexShape
  import opened LexSpec

  // ----- Tokens of printed text -----

  ghost predicate At(text: string, pos: nat, s: string) {
    pos + |s| <= |text| && text[pos..pos + |s|] == s
  }

  lemma AtParts(text: string, pos: nat, a: string, b: string)
    requires At(text, pos, a + b)
    ensures At(text, pos, a) && At(text, pos + |a|, b)
  {
    assert text[pos..pos + |a|] == text[pos..pos + |a + b|][..|a|];
    assert text[pos + |a|..pos + |a| + |b|] == text[pos..pos + |a + b|][|a|..];
  }

  lemma AtChars(text: string, pos: nat, s: string)
    requires At(text, pos, s)
    ensures forall i :: 0 <= i < |s| ==> text[pos + i] == s[i]
  {
    forall i | 0 <= i < |s| ensures text[pos + i] == s[i] {
      assert text[pos..pos + |s|][i] == s[i];
    }
  }

  /** A run over the rest of a piece of text, up to what comes after it. */
  lemma {:induction false} RunIs(text: string, pos: nat, k: nat, s: string, sort: char -> bool)
    requires At(text, pos, s) && k <= |s| <= WINDOW && forall i :: k <= i < |s| ==> sort(s[i])
    requires |s| < WINDOW && pos + |s| < |text| ==> !sort(text[pos + |s|])
    ensures Run(text, pos, k, sort) == |s|
    decreases |s| - k
  {
    if k < |s| {
      AtChars(text, pos, s);
      assert sort(s[k]) && text[pos + k] == s[k];
      RunIs(text, pos, k + 1, s, sort);
    }
  }

  predicate IsName(s: string) {
    IsWord(s) && |s| <= WINDOW
  }

  lemma LexName(text: string, pos: nat, name: string)
    requires At(text, pos, name) && IsName(name) && pos + |name| < |text| && !IsIdent(text[pos + |name|])
    ensures Lex(text, pos) == Token(Alnum, name, pos + |name|)
  {
    hide Run;
    AtChars(text, pos, name);
    RunIs(text, pos, 1, name, IsIdent);
  }

  lemma LexSymbol(text: string, pos: nat)
    requires pos < |text| && (text[pos] == '[' || text[pos] == ']' || text[pos] == '=')
    ensures Lex(text, pos) == Token(Symbol, [text[pos]], pos + 1)
  {
    assert text[pos..pos + 1] == [text[pos]];
  }

  /** At a quote a literal is read, whose string is the run up to the next quote. */
  lemma LexQuote(text: string, pos: nat)
    requires pos < |text| && text[pos] == '"'
    ensures Lex(text, pos) == LiteralAt(text, pos + 1)
  {
    hide LiteralAt;
  }

  lemma LiteralFits(text: string, pos: nat, str: string)
    requires At(text, pos, str) && At(text, pos + |str|, "\"") && '"' !in str && |str| < WINDOW
    ensures LiteralAt(text, pos) == Token(Literal, str, pos + |str| + 1)
  {
    hide Run;
    AtChars(text, pos + |str|, "\"");
    RunIs(text, pos, 0, str, InLiteral);
  }

  lemma LiteralOnly(text: string, pos: nat, str: string)
    requires pos <= |text| && LiteralAt(text, pos) == Token(Literal, str, pos + |str| + 1)
    ensures '"' !in str && |str| < WINDOW
  {
    hide Run;
    assert Run(text, pos, 0, InLiteral) == |str|;
    forall i | 0 <= i < |str| ensures str[i] != '"' {
      assert Ahead(text, pos, i, InLiteral);
      assert text[pos..pos + |str|][i] == str[i];
    }
  }

  /** A quoted string is one literal token if and only if it has no quote in it and fits the window. */
  lemma LexLiteral(text: string, pos: nat, str: string)
    requires At(text, pos, "\"") && At(text, pos + 1, str) && At(text, pos + 1 + |str|, "\"")
    ensures Lex(text, pos) == Token(Literal, str, pos + |str| + 2) <==> '"' !in str && |str| < WINDOW
  {
    hide Lex, LiteralAt;
    AtChars(text, pos, "\"");
    LexQuote(text, pos);
    if '"' !in str && |str| < WINDOW { LiteralFits(text, pos + 1, str); }
    if Lex(text, pos) == Token(Literal, str, pos + |str| + 2) { LiteralOnly(text, pos + 1, str); }
  }

  lemma LexNewline(text: string, pos: nat)
    requires pos < |text| && text[pos] == '\n'
    ensures Lex(text, pos) == Lex(text, pos + 1)
  {
  }

  // ----- Integers -----

  /** How long the sign of a number is. */
  function SignLength(s: string): (k: nat) {
    if s != "" && s[0] == '-' then 1 else 0
  }

  /** A sign, digits up to position `p`, and a point with more digits or nothing. */
  predicate NumeralTo(s: string, p: nat) {
    && SignLength(s) < p <= |s| && AllDigits(s, SignLength(s), p)
    && (p < |s| ==> s[p] == '.' && p + 1 < |s| && AllDigits(s, p + 1, |s|))
  }

  /** A decimal integer or fraction. */
  predicate IsNumeral(s: string) {
    exists p: nat :: p <= |s| && NumeralTo(s, p)
  }

  lemma DecimalIsNumeral(i: int)
    requires Fits32(i)
    ensures IsNumeral(Decimal(i)) && |Decimal(i)| < WINDOW && !IsHexText(Decimal(i))
  {
    hide Decimal;
    DecimalShort(i);
    DecimalDigits(i);
    assert NumeralTo(Decimal(i), |Decimal(i)|);
  }

  lemma DecimalDigits(i: int)
    ensures SignLength(Decimal(i)) < |Decimal(i)| && AllDigits(Decimal(i), SignLength(Decimal(i)), |Decimal(i)|)
  {
    var k := if i < 0 then 1 else 0;
    var n := if i < 0 then -i else i;
    NaturalStart(n);
    assert Decimal(i)[k..] == Natural(n);
    forall j | k <= j < |Decimal(i)| ensures IsDigit(Decimal(i)[j]) { assert Decimal(i)[j] == Natural(n)[j - k]; }
  }

  /** Digits that go on to a position with something else behind them. */
  lemma DigitsAre(text: string, pos: nat, k: nat, s: string)
    requires At(text, pos, s) && k < |s| < WINDOW && AllDigits(s, k, |s|)
    requires pos + |s| < |text| ==> !IsDigit(text[pos + |s|])
    ensures Digits(text, pos, k) == |s|
  {
    hide Run;
    AtChars(text, pos, s);
    assert IsDigit(s[k]) && text[pos + k] == s[k];
    RunIs(text, pos, k + 1, s, IsDigit);
  }

  lemma MantissaIs(text: string, pos: nat, s: string, p: nat)
    requires At(text, pos, s) && NumeralTo(s, p) && |s| < WINDOW && pos + |s| < |text| && text[pos + |s|] == '\n'
    ensures Mantissa(text, pos) == (true, |s|) && Exponent(text, pos, |s|) == |s|
  {
    hide Run, Digits;
    var k := SignLength(s);
    AtChars(text, pos, s);
    assert text[pos + 0] == s[0] && IsDigit(s[k]) && text[pos + k] == s[k];
    AtStart(text, pos, s, p);
    if p < |s| {
      assert text[pos + p] == s[p] && IsDigit(s[p + 1]);
      DigitsAre(text, pos, k, s[..p]);
      DigitsAre(text, pos, p + 1, s);
    } else {
      assert s[..p] == s;
      DigitsAre(text, pos, k, s);
      NoDigits(text, pos, |s|);
    }
  }

  lemma AtStart(text: string, pos: nat, s: string, p: nat)
    requires At(text, pos, s) && p <= |s|
    ensures At(text, pos, s[..p])
  {
    assert s == s[..p] + s[p..];
    AtParts(text, pos, s[..p], s[p..]);
  }

  lemma NoDigits(text: string, pos: nat, k: nat)
    requires pos + k < |text| && text[pos + k] == '\n'
    ensures Digits(text, pos, k) == k
  {
    hide Run;
  }

  /** A numeral at the end of a line is one number token. */
  lemma LexNumeral(text: string, pos: nat, s: string)
    requires At(text, pos, s) && IsNumeral(s) && |s| < WINDOW && pos + |s| < |text| && text[pos + |s|] == '\n'
    ensures Lex(text, pos) == Token(Number, s, pos + |s|)
  {
    hide Run, Mantissa, Exponent;
    var p: nat :| p <= |s| && NumeralTo(s, p);
    AtChars(text, pos, s);
    assert text[pos + 0] == s[0];
    MantissaIs(text, pos, s, p);
    assert SignLength(s) == 0 ==> IsDigit(s[0]);
    assert |s| >= 2 ==> text[pos + 1] == s[1];
    assert SignLength(s) == 0 && |s| >= 2 ==> IsDigit(s[1]) || s[1] == '.';
  }

  // ----- Statements of printed text -----

  lemma LexDecimal(text: string, pos: nat, i: int)
    requires Fits32(i) && At(text, pos, Decimal(i)) && pos + |Decimal(i)| < |text| && text[pos + |Decimal(i)|] == '\n'
    ensures Lex(text, pos) == Token(Number, Decimal(i), pos + |Decimal(i)|)
  {
    hide Decimal, Lex;
    DecimalIsNumeral(i);
    LexNumeral(text, pos, Decimal(i));
  }

  /** A config whose value is a string without quotes that fits the window, an
      integer, or a floating-point number that is printed as a numeral. */
  predicate Printable(c: Config, lib: Libc) {
    && IsName(c.name)
    && match c.kind {
         case D => IsNumeral(lib.showF(c.d)) && |lib.showF(c.d)| < WINDOW
         case I32 => Fits32(c.i32)
         case Str => '"' !in c.str && |c.str| < WINDOW && Plain(c.str)
       }
  }

  /** The string of the value that is loaded. */
  function ValueString(c: Config, lib: Libc): (r: string) {
    match c.kind
    case D => lib.showF(c.d)
    case I32 => Decimal(c.i32)
    case Str => c.str
  }

  /** The config that comes back: what the printed value stands for, where a
      number is one of any kind. */
  function Reloaded(c: Config, lib: Libc): (r: Config) {
    var t := FromText(c.name, ValueString(c, lib), lib);
    if c.kind == Str then t else t.(kind := D)
  }

  /** What is kept: strings as they were set; integers; and the value of a
      number exactly when the C library reads its text as this value. */
  lemma ReloadedKeeps(c: Config, lib: Libc)
    requires Printable(c, lib)
    ensures c.kind == Str && c == FromText(c.name, c.str, lib) ==> Reloaded(c, lib) == c
    ensures c.kind == I32 ==> Reloaded(c, lib).i32 == c.i32 && Reloaded(c, lib).str == Decimal(c.i32)
    ensures c.kind != Str ==> (Reloaded(c, lib).d == c.d <==> lib.strtod(ValueString(c, lib)) == c.d)
  {
    hide Decimal, IntegerOf;
    if c.kind == I32 {
      DecimalRead(c.i32);
      DecimalIsNumeral(c.i32);
    } else if c.kind == D {
      NumeralIsNoHex(lib.showF(c.d));
    }
  }

  lemma NumeralIsNoHex(s: string)
    requires IsNumeral(s)
    ensures !IsHexText(s)
  {
    var p: nat :| p <= |s| && NumeralTo(s, p);
    assert |s| >= 2 && SignLength(s) == 0 ==> IsDigit(s[1]) || s[1] == '.';
  }

  /** From any place the text goes on as from one where the same token comes next. */
  lemma SameFrom(text: string, a: nat, b: nat, sections: seq<Section>, lib: Libc)
    requires a <= |text| && b <= |text| && Lex(text, a) == Lex(text, b)
    ensures LoadFrom(text, a, sections, lib) == LoadFrom(text, b, sections, lib)
  {
    hide Lex;
  }

  function ValueText(c: Config, lib: Libc): (r: string) {
    if c.kind == Str then Quoted(c.str) else ValueString(c, lib)
  }

  lemma OneAt(text: string, pos: nat, c: char)
    requires At(text, pos, [c])
    ensures pos < |text| && text[pos] == c
  {
    AtChars(text, pos, [c]);
  }

  function Quoted(str: string): (q: string)
    ensures |q| == |str| + 2
  {
    "\"" + str + "\""
  }

  lemma QuotedRead(text: string, pos: nat, str: string)
    requires At(text, pos, Quoted(str)) && '"' !in str && |str| < WINDOW
    ensures Lex(text, pos) == Token(Literal, str, pos + |str| + 2)
  {
    hide Lex, At;
    AtParts(text, pos, "\"" + str, "\"");
    AtParts(text, pos, "\"", str);
    LexLiteral(text, pos, str);
  }

  /** The token of a value, and the line end behind it. */
  lemma ValueRead(text: string, pos: nat, c: Config, lib: Libc)
    requires Printable(c, lib) && At(text, pos, ValueText(c, lib)) && At(text, pos + |ValueText(c, lib)|, "\n")
    ensures pos <= |text|
    ensures Lex(text, pos) ==
      Token(if c.kind == Str then Literal else Number, ValueString(c, lib), pos + |ValueText(c, lib)|)
  {
    hide Lex, Decimal, At, IsName, IsNumeral, Quoted, Plain;
    OneAt(text, pos + |ValueText(c, lib)|, '\n');
    match c.kind {
      case D => LexNumeral(text, pos, lib.showF(c.d));
      case I32 => LexDecimal(text, pos, c.i32);
      case Str => QuotedRead(text, pos, c.str);
    }
  }

  lemma ValueLoaded(text: string, pos: nat, c: Config, sections: seq<Section>, lib: Libc)
    requires Printable(c, lib) && At(text, pos, ValueText(c, lib)) && At(text, pos + |ValueText(c, lib)|, "\n") && sections != []
    ensures
      LoadValue(text, pos, sections, c.name, lib)
      == Next(WithConfig(sections, Reloaded(c, lib)), pos + |ValueText(c, lib)|)
  {
    hide Lex, At, ValueText, ValueString, FromText, WithConfig, Printable;
    ValueRead(text, pos, c, lib);
  }

  lemma LineIs(c: Config, lib: Libc)
    ensures PrintedConfig(c, lib) == c.name + ("=" + (ValueText(c, lib) + "\n"))
    ensures |PrintedConfig(c, lib)| == |c.name| + 1 + |ValueText(c, lib)| + 1
  {
    hide Decimal;
  }

  lemma LineParts(text: string, pos: nat, c: Config, lib: Libc)
    requires At(text, pos, PrintedConfig(c, lib))
    ensures At(text, pos, c.name) && At(text, pos + |c.name|, "=")
    ensures At(text, pos + |c.name| + 1, ValueText(c, lib)) && At(text, pos + |c.name| + 1 + |ValueText(c, lib)|, "\n")
    ensures |PrintedConfig(c, lib)| == |c.name| + 1 + |ValueText(c, lib)| + 1
  {
    hide At, PrintedConfig, ValueText;
    var v := ValueText(c, lib);
    LineIs(c, lib);
    AtParts(text, pos, c.name, "=" + (v + "\n"));
    AtParts(text, pos + |c.name|, "=", v + "\n");
    AtParts(text, pos + |c.name| + 1, v, "\n");
  }

  /** The statement of a printed config, up to the line end. */
  lemma ConfigRead(text: string, pos: nat, c: Config, lib: Libc, sections: seq<Section>)
    requires Printable(c, lib) && At(text, pos, PrintedConfig(c, lib))
    requires sections != [] && !HasConfig(sections[|sections| - 1].configs, c.name)
    ensures
      var at := pos + |PrintedConfig(c, lib)| - 1;
      at < |text| && text[at] == '\n' && LoadStatement(text, pos, sections, lib) == Next(WithConfig(sections, Reloaded(c, lib)), at)
  {
    hide At, Lex, PrintedConfig, ValueText, Reloaded, LoadValue, WithConfig, HasConfig;
    var n, v := |c.name|, |ValueText(c, lib)|;
    LineParts(text, pos, c, lib);
    OneAt(text, pos + n, '=');
    OneAt(text, pos + n + 1 + v, '\n');
    LexName(text, pos, c.name);
    LexSymbol(text, pos + n);
    ValueLoaded(text, pos + n + 1, c, sections, lib);
  }

  /** A printed config is loaded as one more in the last section. */
  lemma ConfigLoaded(text: string, pos: nat, c: Config, lib: Libc, sections: seq<Section>)
    requires Printable(c, lib) && At(text, pos, PrintedConfig(c, lib))
    requires sections != [] && !HasConfig(sections[|sections| - 1].configs, c.name)
    ensures
      LoadFrom(text, pos, sections, lib)
      == LoadFrom(text, pos + |PrintedConfig(c, lib)|, WithConfig(sections, Reloaded(c, lib)), lib)
  {
    hide At, Lex, PrintedConfig, Reloaded, LoadStatement, WithConfig, HasConfig;
    ConfigRead(text, pos, c, lib, sections);
    var at := pos + |PrintedConfig(c, lib)| - 1;
    LexNewline(text, at);
    SameFrom(text, at, at + 1, WithConfig(sections, Reloaded(c, lib)), lib);
  }

  function ReloadedAll(configs: seq<Config>, lib: Libc): (r: seq<Config>)
    ensures |r| == |configs|
  {
    seq(|configs|, i requires 0 <= i < |configs| => Reloaded(configs[i], lib))
  }

  ghost predicate PrintableAll(configs: seq<Config>, lib: Libc) {
    (forall i :: 0 <= i < |configs| ==> Printable(configs[i], lib)) && UniqueConfigs(configs)
  }

  /** Configs that are in the section already, and those that come after them. */
  ghost predicate Apart(before: seq<Config>, rest: seq<Config>) {
    forall i, j :: 0 <= i < |before| && 0 <= j < |rest| ==> before[i].name != rest[j].name
  }

  lemma OneConfigLess(before: seq<Config>, rest: seq<Config>, lib: Libc)
    requires rest != [] && PrintableAll(rest, lib) && Apart(before, rest)
    ensures Printable(rest[0], lib) && !HasConfig(before, rest[0].name)
    ensures PrintableAll(rest[1..], lib) && Apart(before + [Reloaded(rest[0], lib)], rest[1..])
  {
    hide Printable;
  }

  lemma SectionGrows(done: seq<Section>, name: string, before: seq<Config>, c: Config)
    ensures WithConfig(done + [Section(name, before)], c) == done + [Section(name, before + [c])]
  {
    var s := done + [Section(name, before)];
    assert s[..|s| - 1] == done;
  }

  lemma {:induction false} ConfigsLoaded(text: string, pos: nat, rest: seq<Config>, lib: Libc,
                                         done: seq<Section>, name: string, before: seq<Config>)
    requires At(text, pos, PrintedConfigs(rest, lib)) && PrintableAll(rest, lib) && Apart(before, rest)
    ensures
      LoadFrom(text, pos, done + [Section(name, before)], lib)
      == LoadFrom(text, pos + |PrintedConfigs(rest, lib)|, done + [Section(name, before + ReloadedAll(rest, lib))], lib)
    decreases |rest|
  {
    hide PrintedConfig, Printable, PrintableAll, Reloaded, LoadFrom, At, Apart, ReloadedAll, HasConfig, WithConfig;
    if rest == [] {
      NoneReloaded(before, lib);
    } else {
      var c := Reloaded(rest[0], lib);
      AtParts(text, pos, PrintedConfig(rest[0], lib), PrintedConfigs(rest[1..], lib));
      OneConfigLess(before, rest, lib);
      OneConfigLoaded(text, pos, rest[0], lib, done, name, before);
      ConfigsLoaded(text, pos + |PrintedConfig(rest[0], lib)|, rest[1..], lib, done, name, before + [c]);
      OneReloaded(before, rest, lib);
    }
  }

  lemma OneConfigLoaded(text: string, pos: nat, c: Config, lib: Libc,
                        done: seq<Section>, name: string, before: seq<Config>)
    requires Printable(c, lib) && At(text, pos, PrintedConfig(c, lib)) && !HasConfig(before, c.name)
    ensures pos + |PrintedConfig(c, lib)| <= |text|
    ensures
      LoadFrom(text, pos, done + [Section(name, before)], lib)
      == LoadFrom(text, pos + |PrintedConfig(c, lib)|, done + [Section(name, before + [Reloaded(c, lib)])], lib)
  {
    hide PrintedConfig, Printable, Reloaded, LoadFrom, HasConfig, WithConfig;
    ConfigLoaded(text, pos, c, lib, done + [Section(name, before)]);
    SectionGrows(done, name, before, Reloaded(c, lib));
  }

  lemma NoneReloaded(before: seq<Config>, lib: Libc)
    ensures before + ReloadedAll([], lib) == before
  {
  }

  lemma OneReloaded(before: seq<Config>, rest: seq<Config>, lib: Libc)
    requires rest != []
    ensures before + ReloadedAll(rest, lib) == before + [Reloaded(rest[0], lib)] + ReloadedAll(rest[1..], lib)
  {
  }

  lemma HeaderParts(text: string, pos: nat, name: string, tail: string)
    requires At(text, pos, "[" + name + "]\n" + tail)
    ensures At(text, pos, "[") && At(text, pos + 1, name) && At(text, pos + 1 + |name|, "]")
    ensures At(text, pos + 2 + |name|, "\n") && At(text, pos + 3 + |name|, tail)
    ensures |"[" + name + "]\n" + tail| == |name| + 3 + |tail|
  {
    assert "[" + name + "]\n" + tail == "[" + (name + ("]" + ("\n" + tail)));
    AtParts(text, pos, "[", name + ("]" + ("\n" + tail)));
    AtParts(text, pos + 1, name, "]" + ("\n" + tail));
    AtParts(text, pos + 1 + |name|, "]", "\n" + tail);
    AtParts(text, pos + 2 + |name|, "\n", tail);
  }

  /** A printed section name is loaded as a new section. */
  lemma HeaderLoaded(text: string, pos: nat, name: string, done: seq<Section>, lib: Libc)
    requires At(text, pos, "[") && At(text, pos + 1, name) && At(text, pos + 1 + |name|, "]") && At(text, pos + 2 + |name|, "\n")
    requires IsName(name) && !HasSection(done, name)
    ensures LoadFrom(text, pos, done, lib) == LoadFrom(text, pos + 3 + |name|, done + [Section(name, [])], lib)
  {
    hide Lex, HasSection;
    AtChars(text, pos, "[");
    AtChars(text, pos + 1 + |name|, "]");
    AtChars(text, pos + 2 + |name|, "\n");
    LexSymbol(text, pos);
    LexName(text, pos + 1, name);
    LexSymbol(text, pos + 1 + |name|);
    LexNewline(text, pos + 2 + |name|);
    SameFrom(text, pos + 2 + |name|, pos + 3 + |name|, done + [Section(name, [])], lib);
  }

  function ReloadedSections(sections: seq<Section>, lib: Libc): (r: seq<Section>)
    ensures |r| == |sections|
  {
    seq(|sections|, i requires 0 <= i < |sections| => Section(sections[i].name, ReloadedAll(sections[i].configs, lib)))
  }

  ghost predicate PrintableSections(sections: seq<Section>, lib: Libc) {
    && (forall i :: 0 <= i < |sections| ==> IsName(sections[i].name) && PrintableAll(sections[i].configs, lib))
    && (forall i, j :: 0 <= i < j < |sections| ==> sections[i].name != sections[j].name)
  }

  ghost predicate ApartSections(done: seq<Section>, rest: seq<Section>) {
    forall i, j :: 0 <= i < |done| && 0 <= j < |rest| ==> done[i].name != rest[j].name
  }

  lemma OneSectionLess(done: seq<Section>, rest: seq<Section>, s: Section, lib: Libc)
    requires rest != [] && PrintableSections(rest, lib) && ApartSections(done, rest) && s.name == rest[0].name
    ensures IsName(rest[0].name) && PrintableAll(rest[0].configs, lib) && !HasSection(done, rest[0].name)
    ensures PrintableSections(rest[1..], lib) && ApartSections(done + [s], rest[1..])
  {
    hide PrintableAll, IsName;
  }

  /** A printed section is loaded whole. */
  lemma SectionLoaded(text: string, pos: nat, s: Section, lib: Libc, done: seq<Section>)
    requires At(text, pos, PrintedSection(s, lib)) && IsName(s.name) && PrintableAll(s.configs, lib) && !HasSection(done, s.name)
    ensures
      LoadFrom(text, pos, done, lib)
      == LoadFrom(text, pos + |PrintedSection(s, lib)|, done + [Section(s.name, ReloadedAll(s.configs, lib))], lib)
  {
    hide LoadFrom, PrintedConfigs, PrintableAll, IsName, HasSection, ReloadedAll;
    HeaderParts(text, pos, s.name, PrintedConfigs(s.configs, lib));
    HeaderLoaded(text, pos, s.name, done, lib);
    ConfigsLoaded(text, pos + 3 + |s.name|, s.configs, lib, done, s.name, []);
    assert [] + ReloadedAll(s.configs, lib) == ReloadedAll(s.configs, lib);
  }

  lemma {:induction false} SectionsLoaded(text: string, pos: nat, rest: seq<Section>, lib: Libc,
                                          done: seq<Section>)
    requires At(text, pos, PrintedSections(rest, lib)) && pos + |PrintedSections(rest, lib)| == |text|
    requires PrintableSections(rest, lib) && ApartSections(done, rest)
    ensures LoadFrom(text, pos, done, lib) == Done(done + ReloadedSections(rest, lib))
    decreases |rest|
  {
    hide PrintedSection, PrintableAll, PrintableSections, IsName, ReloadedAll, ApartSections, HasSection, ReloadedSections, LoadFrom;
    if rest == [] {
      EndLoaded(text, done, lib);
    } else {
      var s := Section(rest[0].name, ReloadedAll(rest[0].configs, lib));
      AtParts(text, pos, PrintedSection(rest[0], lib), PrintedSections(rest[1..], lib));
      OneSectionLess(done, rest, s, lib);
      SectionLoaded(text, pos, rest[0], lib, done);
      SectionsLoaded(text, pos + |PrintedSection(rest[0], lib)|, rest[1..], lib, done + [s]);
      OneSectionReloaded(done, rest, lib);
    }
  }

  lemma EndLoaded(text: string, done: seq<Section>, lib: Libc)
    ensures LoadFrom(text, |text|, done, lib) == Done(done + ReloadedSections([], lib))
  {
    assert done + ReloadedSections([], lib) == done;
  }

  lemma OneSectionReloaded(done: seq<Section>, rest: seq<Section>, lib: Libc)
    requires rest != []
    ensures
      done + ReloadedSections(rest, lib)
      == done + [Section(rest[0].name, ReloadedAll(rest[0].configs, lib))] + ReloadedSections(rest[1..], lib)
  {
    hide ReloadedAll;
  }

  /** A time as it is written: one line, with the end of it. */
  predicate IsTime(time: string) {
    && Plain(time) && time != [] && time[|time| - 1] == '\n' && '\n' !in time[..|time| - 1]
  }

  lemma {:induction false} LineEndIs(text: string, pos: nat, end: nat)
    requires pos <= end < |text| && text[end] == '\n' && '\n' !in text[pos..end]
    ensures LineEnd(text, pos) == end
    decreases end - pos
  {
    if pos < end {
      assert text[pos] == text[pos..end][0] && text[pos + 1..end] == text[pos..end][1..];
      LineEndIs(text, pos + 1, end);
    }
  }

  /** Loading a printed collection gives the same sections and configs in order:
      strings as they were, integers with the same value. */
  lemma RoundTrip(sections: seq<Section>, time: string, lib: Libc)
    requires PrintableSections(sections, lib) && IsTime(time)
    ensures LoadFrom(Printed(sections, time, lib), 0, [], lib) == Done(ReloadedSections(sections, lib))
  {
    hide Lex, LoadFrom, PrintedSections, PrintableSections, ReloadedSections;
    var text := Printed(sections, time, lib);
    var line := "# Created " + time;
    assert text == line + "\n" + PrintedSections(sections, lib);
    CommentSkipped(text, line, PrintedSections(sections, lib));
    SameFrom(text, 0, |line| + 1, [], lib);
    assert At(text, |line| + 1, PrintedSections(sections, lib));
    SectionsLoaded(text, |line| + 1, sections, lib, []);
    assert [] + ReloadedSections(sections, lib) == ReloadedSections(sections, lib);
  }

  lemma CommentSkipped(text: string, line: string, rest: string)
    requires text == line + "\n" + rest && |line| > 1 && line[0] == '#' && IsTime(line)
    ensures Lex(text, 0) == Lex(text, |line| + 1)
  {
    var end := |line| - 1;
    assert text[1..end] == line[..end][1..];
    assert text[0] == '#' && text[end] == '\n' && text[end + 1] == '\n';
    LineEndIs(text, 1, end);
    assert SkipBlank(text, 0) == SkipBlank(text, end);
    LexNewline(text, end);
    LexNewline(text, end + 1);
  }

  // ----- The printed text is one that the lexer is for -----

  lemma PlainConcat(a: string, b: string)
    requires Plain(a) && Plain(b)
    ensures Plain(a + b)
  {
  }

  lemma NumeralIsPlain(s: string)
    requires IsNumeral(s)
    ensures Plain(s)
  {
    var p: nat :| p <= |s| && NumeralTo(s, p);
    forall i | 0 <= i < |s| ensures 0 < s[i] as int < 128 {
      assert IsDigit(s[i]) || s[i] == '-' || s[i] == '.';
    }
  }

  lemma NameIsPlain(s: string)
    requires IsName(s)
    ensures Plain(s)
  {
    forall i | 0 <= i < |s| ensures 0 < s[i] as int < 128 {
      assert IsIdent(s[i]);
    }
  }

  lemma ConfigPlain(c: Config, lib: Libc)
    requires Printable(c, lib)
    ensures Plain(PrintedConfig(c, lib))
  {
    hide Decimal, IsName, IsNumeral, PrintedConfig;
    LineIs(c, lib);
    NameIsPlain(c.name);
    if c.kind == I32 { DecimalIsNumeral(c.i32); }
    if c.kind != Str { NumeralIsPlain(ValueString(c, lib)); }
  }

  lemma {:induction false} ConfigsPlain(configs: seq<Config>, lib: Libc)
    requires PrintableAll(configs, lib)
    ensures Plain(PrintedConfigs(configs, lib))
  {
    hide PrintedConfig, Printable, Plain;
    if configs == [] {
      NothingPlain();
    } else {
      ConfigPlain(configs[0], lib);
      ConfigsPlain(configs[1..], lib);
      PlainConcat(PrintedConfig(configs[0], lib), PrintedConfigs(configs[1..], lib));
    }
  }

  lemma NothingPlain()
    ensures Plain("")
  {
  }

  lemma SectionPlain(s: Section, lib: Libc)
    requires IsName(s.name) && PrintableAll(s.configs, lib)
    ensures Plain(PrintedSection(s, lib))
  {
    hide IsName, PrintableAll, PrintedConfigs;
    NameIsPlain(s.name);
    ConfigsPlain(s.configs, lib);
    PlainConcat("[" + s.name + "]\n", PrintedConfigs(s.configs, lib));
  }

  lemma {:induction false} SectionsPlain(sections: seq<Section>, lib: Libc)
    requires PrintableSections(sections, lib)
    ensures Plain(PrintedSections(sections, lib))
  {
    hide PrintedSection, PrintableAll, IsName, Plain;
    if sections == [] {
      NothingPlain();
    } else {
      SectionPlain(sections[0], lib);
      SectionsPlain(sections[1..], lib);
      PlainConcat(PrintedSection(sections[0], lib), PrintedSections(sections[1..], lib));
    }
  }

  /** What is printed has only characters that the lexer is for. */
  lemma PrintedPlain(sections: seq<Section>, time: string, lib: Libc)
    requires PrintableSections(sections, lib) && IsTime(time)
    ensures Plain(Printed(sections, time, lib))
  {
    hide PrintedSections, PrintableSections;
    SectionsPlain(sections, lib);
    PlainConcat("# Created " + time + "\n", PrintedSections(sections, lib));
  }
}
