/** Configuration files on their text: what is printed for sections and
    configs, and what is loaded from any text. */
module ConfigSpec {
  import opened Chars
  import opened IntegerText
  import opened LexShape
  import opened LexSpec

  // ----- Sections and configs -----

  datatype ConfigType = D | I32 | Str

  /** The pattern of a double. */
  type Double = bv64

  /** What the C library computes of doubles: the value of a text and of an
      integer, the integer of a value, and its texts with "%g" and "%f". */
  datatype Libc = Libc(strtod: string -> Double, ofInt: int -> Double, toInt: Double -> int,
                       showG: Double -> string, showF: Double -> string)

  datatype Config = Config(name: string, kind: ConfigType, str: string, i32: int, d: Double)

  datatype Section = Section(name: string, configs: seq<Config>)

  predicate HasSection(sections: seq<Section>, name: string) {
    exists i :: 0 <= i < |sections| && sections[i].name == name
  }

  predicate HasConfig(configs: seq<Config>, name: string) {
    exists i :: 0 <= i < |configs| && configs[i].name == name
  }

  /** The sections with one more config in the last of them. */
  function WithConfig(sections: seq<Section>, c: Config): (s: seq<Section>)
    requires sections != []
    ensures |s| == |sections|
  {
    var k := |sections| - 1;
    sections[..k] + [sections[k].(configs := sections[k].configs + [c])]
  }

  function FromText(name: string, str: string, lib: Libc): (r: Config) {
    Config(name, Str, str, IntegerOf(str), if IsHexText(str) then lib.ofInt(IntegerOf(str)) else lib.strtod(str))
  }

  /** The text with the integer that it stands for and the value that the C library reads. */
  ghost predicate IsTextConfig(c: Config, name: string, kind: ConfigType, str: string, lib: Libc) {
    && c.name == name && c.kind == kind && c.str == str
    && StandsFor(str, c.i32) && c.d == if "0x" <= str then lib.ofInt(c.i32) else lib.strtod(str)
  }

  lemma TextConfig(name: string, str: string, lib: Libc)
    ensures IsTextConfig(FromText(name, str, lib), name, Str, str, lib)
  {
    hide StandsFor, IntegerOf;
    IntegerExactly(str, IntegerOf(str));
    HexTextStarts(str);
  }

  lemma TextConfigIs(c: Config, name: string, kind: ConfigType, str: string, lib: Libc)
    requires IsTextConfig(c, name, kind, str, lib)
    ensures c == FromText(name, str, lib).(kind := kind)
  {
    hide StandsFor, IntegerOf;
    IntegerExactly(str, c.i32);
    HexTextStarts(str);
  }

  /** One config of a section is `c`, which was changed or put behind the
      others; all else is as before. */
  ghost predicate IsReplaced(before: seq<Section>, after: seq<Section>, s: nat, i: nat, c: Config) {
    && s < |before| == |after| && i <= |before[s].configs|
    && (forall k :: 0 <= k < |before| && k != s ==> after[k] == before[k])
    && after[s].name == before[s].name
    && |after[s].configs| == (if i < |before[s].configs| then |before[s].configs| else i + 1)
    && (forall j :: 0 <= j < |before[s].configs| && j != i ==> after[s].configs[j] == before[s].configs[j])
    && after[s].configs[i] == c
  }

  /** One more config in the last section is all that changes. */
  lemma WithConfigExactly(before: seq<Section>, after: seq<Section>, c: Config)
    requires before != []
    ensures
      var last := |before| - 1;
      after == WithConfig(before, c) <==> IsReplaced(before, after, last, |before[last].configs|, c)
  {
    var last := |before| - 1;
    if IsReplaced(before, after, last, |before[last].configs|, c) {
      assert after[last].configs == before[last].configs + [c];
    }
  }

  // ----- What is loaded -----

  datatype Outcome = Done(sections: seq<Section>) | Failed | Unread

  predicate StartsWith(str: string, c: char) {
    str != [] && str[0] == c
  }

  /** What a statement gives: the sections after it, and where it ends. */
  datatype Statement = Next(sections: seq<Section>, at: nat) | Last | Bad | TooFar

  function LoadBracket(text: string, pos: nat, sections: seq<Section>): (s: Statement)
    requires pos <= |text|
    ensures s.Next? ==> pos <= s.at <= |text| && s.sections == sections
  {
    match Lex(text, pos)
    case TooLong => TooFar
    case End(_) => Bad
    case Error(_, _) => Bad
    case Token(_, close, at) =>
      if StartsWith(close, ']') then Next(sections, at) else Bad
  }

  function LoadHeader(text: string, pos: nat, sections: seq<Section>): (s: Statement)
    requires pos <= |text|
    ensures s.Next? ==> pos <= s.at <= |text|
  {
    match Lex(text, pos)
    case TooLong => TooFar
    case End(_) => Bad
    case Error(_, _) => Bad
    case Token(kind, name, next) =>
      if kind != Alnum || HasSection(sections, name) then Bad
      else LoadBracket(text, next, sections + [Section(name, [])])
  }

  function LoadValue(text: string, pos: nat, sections: seq<Section>, name: string, lib: Libc): (s: Statement)
    requires pos <= |text| && sections != []
    ensures s.Next? ==> pos <= s.at <= |text|
  {
    match Lex(text, pos)
    case TooLong => TooFar
    case End(_) => Bad
    case Error(_, _) => Bad
    case Token(kind, value, at) =>
      var c := FromText(name, value, lib);
      Next(WithConfig(sections, if kind == Number then c.(kind := D) else c), at)
  }

  function LoadConfig(text: string, pos: nat, sections: seq<Section>, name: string, lib: Libc): (s: Statement)
    requires pos <= |text|
    ensures s.Next? ==> pos <= s.at <= |text|
  {
    if sections == [] || HasConfig(sections[|sections| - 1].configs, name) then Bad
    else
      match Lex(text, pos)
      case TooLong => TooFar
      case End(_) => Bad
      case Error(_, _) => Bad
      case Token(_, equals, next) =>
        if !StartsWith(equals, '=') then Bad else LoadValue(text, next, sections, name, lib)
  }

  function LoadStatement(text: string, pos: nat, sections: seq<Section>, lib: Libc): (s: Statement)
    requires pos <= |text|
    ensures s.Next? ==> pos < s.at <= |text|
  {
    match Lex(text, pos)
    case TooLong => TooFar
    case End(_) => Last
    case Error(_, _) => Bad
    case Token(kind, str, next) =>
      if StartsWith(str, '[') then LoadHeader(text, next, sections)
      else if kind == Alnum then LoadConfig(text, next, sections, str, lib)
      else Bad
  }

  /** The sections of the text from a position on, after those before it. */
  function LoadFrom(text: string, pos: nat, sections: seq<Section>, lib: Libc): (r: Outcome)
    requires pos <= |text|
    decreases |text| - pos
  {
    match LoadStatement(text, pos, sections, lib)
    case TooFar => Unread
    case Last => Done(sections)
    case Bad => Failed
    case Next(more, at) => LoadFrom(text, at, more, lib)
  }

  // ----- Statements by their tokens -----

  predicate StartsToken(l: Lexed, c: char) {
    l.Token? && StartsWith(l.str, c)
  }

  /** "[", a name that no section has, and "]". */
  ghost predicate IsHeader(text: string, pos: nat, before: seq<Section>, after: seq<Section>, next: nat)
    requires pos <= |text|
  {
    var open := Lex(text, pos);
    StartsToken(open, '[') &&
    var name := Lex(text, open.next);
    name.Token? && name.kind == Alnum && (forall k :: 0 <= k < |before| ==> before[k].name != name.str) &&
    var close := Lex(text, name.next);
    StartsToken(close, ']') && next == close.next && after == before + [Section(name.str, [])]
  }

  /** A name that no config of the last section has, "=" and a value. */
  ghost predicate IsConfigLine(
      text: string, pos: nat, before: seq<Section>, after: seq<Section>, next: nat, lib: Libc)
    requires pos <= |text|
  {
    var name := Lex(text, pos);
    name.Token? && name.kind == Alnum && before != [] &&
    var last, configs := |before| - 1, before[|before| - 1].configs;
    (forall j :: 0 <= j < |configs| ==> configs[j].name != name.str) &&
    var equals := Lex(text, name.next);
    StartsToken(equals, '=') &&
    var value := Lex(text, equals.next);
    value.Token? && next == value.next &&
    exists c ::
      && IsReplaced(before, after, last, |configs|, c)
      && IsTextConfig(c, name.str, if value.kind == Number then D else Str, value.str, lib)
  }

  ghost predicate IsStatement(
      text: string, pos: nat, before: seq<Section>, after: seq<Section>, next: nat, lib: Libc) {
    pos <= |text| && (IsHeader(text, pos, before, after, next) || IsConfigLine(text, pos, before, after, next, lib))
  }

  /** The text ends, or is wrong, before a token that starts with a character. */
  predicate Lacks(text: string, pos: nat, c: char)
    requires pos <= |text|
  {
    var l := Lex(text, pos);
    l.End? || l.Error? || (l.Token? && !StartsWith(l.str, c))
  }

  /** After "[": no name, the name of a section that is there, or no "]". */
  ghost predicate IsBadHeader(text: string, pos: nat, before: seq<Section>)
    requires pos <= |text|
  {
    var name := Lex(text, pos);
    || name.End? || name.Error? || (name.Token? && name.kind != Alnum)
    || (name.Token? && exists k :: 0 <= k < |before| && before[k].name == name.str)
    || (name.Token? && Lacks(text, name.next, ']'))
  }

  /** After a name: no section yet, the name of a config that is there, no "=" or no value. */
  ghost predicate IsBadConfig(text: string, pos: nat, before: seq<Section>, name: string)
    requires pos <= |text|
  {
    || before == []
    || (var configs := before[|before| - 1].configs; exists j :: 0 <= j < |configs| && configs[j].name == name)
    || Lacks(text, pos, '=')
    || var equals := Lex(text, pos);
       equals.Token? && var value := Lex(text, equals.next); value.End? || value.Error?
  }

  /** A statement that is refused. */
  ghost predicate IsRefused(text: string, pos: nat, before: seq<Section>) {
    pos <= |text| &&
    var first := Lex(text, pos);
    || first.Error?
    || (first.Token? && StartsWith(first.str, '[') && IsBadHeader(text, first.next, before))
    || (first.Token? && first.kind == Alnum && IsBadConfig(text, first.next, before, first.str))
    || (first.Token? && !StartsWith(first.str, '[') && first.kind != Alnum)
  }

  lemma NameIsNoBracket(text: string, pos: nat)
    requires pos <= |text| && Lex(text, pos).Token? && Lex(text, pos).kind == Alnum
    ensures !StartsWith(Lex(text, pos).str, '[')
  {
    hide Lex;
    NextExactly(text, pos, Lex(text, pos));
  }

  /** What a statement gives is what its tokens say, and nothing else is. */
  lemma StatementExactly(text: string, pos: nat, before: seq<Section>, after: seq<Section>, next: nat, lib: Libc)
    requires pos <= |text|
    ensures LoadStatement(text, pos, before, lib) == Next(after, next) <==>
      IsStatement(text, pos, before, after, next, lib)
  {
    hide Lex, IsTextConfig, IsReplaced, WithConfig, FromText;
    var first := Lex(text, pos);
    if first.Token? && first.kind == Alnum {
      NameIsNoBracket(text, pos);
      ConfigLineExactly(text, pos, before, after, next, lib);
    }
  }

  lemma ConfigLineExactly(text: string, pos: nat, before: seq<Section>, after: seq<Section>, next: nat, lib: Libc)
    requires pos <= |text| && Lex(text, pos).Token? && Lex(text, pos).kind == Alnum
    ensures LoadConfig(text, Lex(text, pos).next, before, Lex(text, pos).str, lib) == Next(after, next) <==>
      IsConfigLine(text, pos, before, after, next, lib)
  {
    hide Lex, IsTextConfig, IsReplaced, WithConfig, IntegerOf;
    var name := Lex(text, pos);
    var equals := Lex(text, name.next);
    if before != [] && StartsToken(equals, '=') {
      var value := Lex(text, equals.next);
      if value.Token? {
        var kind := if value.kind == Number then D else Str;
        LoadedConfig(before, after, name.str, kind, value.str, lib);
      }
    }
  }

  lemma LoadedConfig(
      before: seq<Section>, after: seq<Section>, name: string, kind: ConfigType, str: string, lib: Libc)
    requires before != []
    ensures
      var last := |before| - 1;
      after == WithConfig(before, FromText(name, str, lib).(kind := kind)) <==>
        exists c :: IsReplaced(before, after, last, |before[last].configs|, c) && IsTextConfig(c, name, kind, str, lib)
  {
    hide IsReplaced, WithConfig, StandsFor, IntegerOf;
    var last := |before| - 1;
    var t := FromText(name, str, lib).(kind := kind);
    TextConfig(name, str, lib);
    WithConfigExactly(before, after, t);
    if c :| IsReplaced(before, after, last, |before[last].configs|, c) && IsTextConfig(c, name, kind, str, lib) {
      TextConfigIs(c, name, kind, str, lib);
    }
  }

  /** Exactly those statements are refused. */
  lemma RefusedExactly(text: string, pos: nat, before: seq<Section>, lib: Libc)
    requires pos <= |text| && LoadStatement(text, pos, before, lib) != TooFar
    ensures LoadStatement(text, pos, before, lib) == Bad <==> IsRefused(text, pos, before)
  {
    hide Lex, WithConfig, FromText;
    var first := Lex(text, pos);
    if first.Token? && first.kind == Alnum { NameIsNoBracket(text, pos); }
  }

  /** Statement after statement, with the position and the sections before each of them. */
  ghost predicate IsRun(text: string, run: seq<(nat, seq<Section>)>, lib: Libc) {
    && run != []
    && forall k :: 0 <= k < |run| - 1 ==> IsStatement(text, run[k].0, run[k].1, run[k + 1].1, run[k + 1].0, lib)
  }

  ghost predicate LoadsTo(
      text: string, pos: nat, before: seq<Section>, at: nat, after: seq<Section>, lib: Libc) {
    exists run :: IsRun(text, run, lib) && run[0] == (pos, before) && run[|run| - 1] == (at, after)
  }

  /** Statements up to the end of the text. */
  ghost predicate IsLoaded(text: string, pos: nat, before: seq<Section>, all: seq<Section>, lib: Libc) {
    exists at: nat :: LoadsTo(text, pos, before, at, all, lib) && at <= |text| && Lex(text, at).End?
  }

  /** Statements up to one that is refused. */
  ghost predicate IsRefusedText(text: string, pos: nat, before: seq<Section>, lib: Libc) {
    exists at: nat, mid :: LoadsTo(text, pos, before, at, mid, lib) && IsRefused(text, at, mid)
  }

  lemma NothingLoaded(text: string, pos: nat, before: seq<Section>, lib: Libc)
    ensures LoadsTo(text, pos, before, pos, before, lib)
  {
    var run: seq<(nat, seq<Section>)> := [(pos, before)];
    assert IsRun(text, run, lib);
  }

  lemma StatementBefore(
      text: string, pos: nat, before: seq<Section>, next: nat, more: seq<Section>,
      at: nat, after: seq<Section>, lib: Libc)
    requires IsStatement(text, pos, before, more, next, lib) && LoadsTo(text, next, more, at, after, lib)
    ensures LoadsTo(text, pos, before, at, after, lib)
  {
    hide IsStatement;
    var rest: seq<(nat, seq<Section>)> :|
      IsRun(text, rest, lib) && rest[0] == (next, more) && rest[|rest| - 1] == (at, after);
    var run: seq<(nat, seq<Section>)> := [(pos, before)] + rest;
    forall k | 0 <= k < |run| - 1 ensures IsStatement(text, run[k].0, run[k].1, run[k + 1].1, run[k + 1].0, lib) {
      if k > 0 {
        assert IsStatement(text, rest[k - 1].0, rest[k - 1].1, rest[k].1, rest[k].0, lib);
        assert run[k] == rest[k - 1] && run[k + 1] == rest[k];
      }
    }
    assert IsRun(text, run, lib);
  }

  /** Loading goes on behind statements. */
  lemma {:induction false} RunLoads(text: string, run: seq<(nat, seq<Section>)>, lib: Libc)
    requires IsRun(text, run, lib) && run[0].0 <= |text|
    ensures
      var last := run[|run| - 1];
      last.0 <= |text| && LoadFrom(text, run[0].0, run[0].1, lib) == LoadFrom(text, last.0, last.1, lib)
    decreases |run|
  {
    hide IsStatement, LoadStatement;
    if |run| > 1 {
      var rest := run[1..];
      assert IsStatement(text, run[0].0, run[0].1, run[1].1, run[1].0, lib);
      StatementExactly(text, run[0].0, run[0].1, run[1].1, run[1].0, lib);
      forall k | 0 <= k < |rest| - 1
        ensures IsStatement(text, rest[k].0, rest[k].1, rest[k + 1].1, rest[k + 1].0, lib)
      {
        assert IsStatement(text, run[k + 1].0, run[k + 1].1, run[k + 2].1, run[k + 2].0, lib);
      }
      RunLoads(text, rest, lib);
    }
  }

  lemma LoadsOn(text: string, pos: nat, before: seq<Section>, at: nat, after: seq<Section>, lib: Libc)
    requires pos <= |text| && LoadsTo(text, pos, before, at, after, lib)
    ensures at <= |text| && LoadFrom(text, pos, before, lib) == LoadFrom(text, at, after, lib)
  {
    hide LoadFrom, IsStatement;
    var run :| IsRun(text, run, lib) && run[0] == (pos, before) && run[|run| - 1] == (at, after);
    RunLoads(text, run, lib);
  }

  lemma LastAtEnd(text: string, pos: nat, before: seq<Section>, lib: Libc)
    requires pos <= |text|
    ensures LoadStatement(text, pos, before, lib) == Last <==> Lex(text, pos).End?
  {
    hide Lex, WithConfig, FromText;
  }

  lemma {:induction false} LoadedMeans(text: string, pos: nat, before: seq<Section>, lib: Libc)
    requires pos <= |text|
    ensures
      match LoadFrom(text, pos, before, lib)
      case Done(all) => IsLoaded(text, pos, before, all, lib)
      case Failed => IsRefusedText(text, pos, before, lib)
      case Unread => true
    decreases |text| - pos
  {
    hide IsStatement, IsRefused, LoadsTo, LoadStatement;
    NothingLoaded(text, pos, before, lib);
    var s := LoadStatement(text, pos, before, lib);
    LastAtEnd(text, pos, before, lib);
    if s != TooFar { RefusedExactly(text, pos, before, lib); }
    if s.Next? {
      StatementExactly(text, pos, before, s.sections, s.at, lib);
      LoadedMeans(text, s.at, s.sections, lib);
      match LoadFrom(text, s.at, s.sections, lib) {
        case Done(all) =>
          var at: nat :| LoadsTo(text, s.at, s.sections, at, all, lib) && at <= |text| && Lex(text, at).End?;
          StatementBefore(text, pos, before, s.at, s.sections, at, all, lib);
        case Failed =>
          var at: nat, mid :| LoadsTo(text, s.at, s.sections, at, mid, lib) && IsRefused(text, at, mid);
          StatementBefore(text, pos, before, s.at, s.sections, at, mid, lib);
        case Unread =>
      }
    }
  }

  /** Whatever the text is, what is loaded is what its statements make up to its
      end, and nothing is loaded if and only if one of them is refused. */
  lemma LoadedExactly(text: string, pos: nat, before: seq<Section>, all: seq<Section>, lib: Libc)
    requires pos <= |text| && LoadFrom(text, pos, before, lib) != Unread
    ensures LoadFrom(text, pos, before, lib) == Done(all) <==> IsLoaded(text, pos, before, all, lib)
    ensures LoadFrom(text, pos, before, lib) == Failed <==> IsRefusedText(text, pos, before, lib)
  {
    hide IsStatement, LoadsTo, IsRefused, LoadFrom, LoadStatement;
    LoadedMeans(text, pos, before, lib);
    if at: nat :| LoadsTo(text, pos, before, at, all, lib) && at <= |text| && Lex(text, at).End? {
      LoadsOn(text, pos, before, at, all, lib);
      EndLoaded(text, at, all, lib);
    }
    if at: nat, mid :| LoadsTo(text, pos, before, at, mid, lib) && IsRefused(text, at, mid) {
      LoadsOn(text, pos, before, at, mid, lib);
      RefusedFails(text, at, mid, lib);
    }
  }

  lemma EndLoaded(text: string, pos: nat, before: seq<Section>, lib: Libc)
    requires pos <= |text| && Lex(text, pos).End?
    ensures LoadFrom(text, pos, before, lib) == Done(before)
  {
    hide Lex, LoadHeader, LoadConfig;
  }

  lemma RefusedFails(text: string, pos: nat, before: seq<Section>, lib: Libc)
    requires pos <= |text| && IsRefused(text, pos, before) && LoadFrom(text, pos, before, lib) != Unread
    ensures LoadFrom(text, pos, before, lib) == Failed
  {
    hide LoadStatement, IsRefused;
    RefusedExactly(text, pos, before, lib);
  }

  ghost predicate Unique(sections: seq<Section>) {
    && (forall i, j :: 0 <= i < j < |sections| ==> sections[i].name != sections[j].name)
    && (forall i :: 0 <= i < |sections| ==> UniqueConfigs(sections[i].configs))
  }

  ghost predicate UniqueConfigs(configs: seq<Config>) {
    forall i, j :: 0 <= i < j < |configs| ==> configs[i].name != configs[j].name
  }

  /** No statement brings in a second section or config of a name. */
  lemma StatementUnique(text: string, pos: nat, sections: seq<Section>, lib: Libc)
    requires pos <= |text| && Unique(sections)
    ensures LoadStatement(text, pos, sections, lib).Next? ==> Unique(LoadStatement(text, pos, sections, lib).sections)
  {
    hide Lex, IntegerOf;
  }

  /** Whatever the text is, no name is loaded twice. */
  lemma {:induction false} LoadedUnique(text: string, pos: nat, sections: seq<Section>, lib: Libc)
    requires pos <= |text| && Unique(sections)
    ensures LoadFrom(text, pos, sections, lib).Done? ==> Unique(LoadFrom(text, pos, sections, lib).sections)
    decreases |text| - pos
  {
    hide LoadStatement;
    StatementUnique(text, pos, sections, lib);
    var s := LoadStatement(text, pos, sections, lib);
    if s.Next? { LoadedUnique(text, s.at, s.sections, lib); }
  }

  // ----- What is printed -----

  /** A line for a config. */
  function PrintedConfig(c: Config, lib: Libc): (r: string) {
    match c.kind
    case D => c.name + "=" + lib.showF(c.d) + "\n"
    case I32 => c.name + "=" + Decimal(c.i32) + "\n"
    case Str => c.name + "=\"" + c.str + "\"\n"
  }

  function PrintedConfigs(configs: seq<Config>, lib: Libc): (r: string) {
    if configs == [] then "" else PrintedConfig(configs[0], lib) + PrintedConfigs(configs[1..], lib)
  }

  function PrintedSection(s: Section, lib: Libc): (r: string) {
    "[" + s.name + "]\n" + PrintedConfigs(s.configs, lib)
  }

  function PrintedSections(sections: seq<Section>, lib: Libc): (r: string) {
    if sections == [] then "" else PrintedSection(sections[0], lib) + PrintedSections(sections[1..], lib)
  }

  /** The file: the time, on a line of its own, and all sections. */
  function Printed(sections: seq<Section>, time: string, lib: Libc): (r: string) {
    "# Created " + time + "\n" + PrintedSections(sections, lib)
  }
}
