/** Collections of sections and configs: loaded with the lexer, searched,
    added to, changed and written. */
module ConfigFile {
  import opened ConfigRoundTrip
  import opened ConfigSpec
  import opened IntegerText
  import opened LexSpec
  import opened Lexer
  import opened Sequences

  class Collection {
    var sections: seq<Section>

    ghost predicate Valid()
      reads this
    {
      Unique(sections)
    }

    constructor ()
      ensures Valid() && sections == []
    {
      sections := [];
    }

    /** The place of the section of a name; the number of sections if there is none. */
    method FindSection(name: string) returns (i: nat)
      ensures if HasSection(sections, name) then i < |sections| && sections[i].name == name else i == |sections|
    {
      i := 0;
      while i < |sections|
        invariant i <= |sections| && forall k :: 0 <= k < i ==> sections[k].name != name
      {
        if sections[i].name == name {
          return;
        }
        i := i + 1;
      }
    }

    /** The place of the config of a name in a section. */
    method FindConfig(s: nat, name: string) returns (i: nat)
      requires s < |sections|
      ensures
        var configs := sections[s].configs;
        if HasConfig(configs, name) then i < |configs| && configs[i].name == name else i == |configs|
    {
      i := 0;
      var configs := sections[s].configs;
      while i < |configs|
        invariant i <= |configs| && forall k :: 0 <= k < i ==> configs[k].name != name
      {
        if configs[i].name == name {
          return;
        }
        i := i + 1;
      }
    }

    /** The section of a name, which is made if there is none. */
    method GetSection(name: string) returns (i: nat)
      requires Valid()
      modifies this
      ensures Valid() && i < |sections| && sections[i].name == name
      ensures sections == if HasSection(old(sections), name) then old(sections) else old(sections) + [Section(name, [])]
    {
      i := FindSection(name);
      if i == |sections| {
        sections := sections + [Section(name, [])];
      }
    }

    /** Puts a config at a place of a section, or behind its last one. */
    method PutConfig(s: nat, i: nat, c: Config)
      requires Valid() && s < |sections| && i <= |sections[s].configs|
      requires if i < |sections[s].configs| then c.name == sections[s].configs[i].name else !HasConfig(sections[s].configs, c.name)
      modifies this
      ensures Valid() && IsReplaced(old(sections), sections, s, i, c)
    {
      var configs := sections[s].configs;
      var more := if i < |configs| then configs[i := c] else configs + [c];
      assert UniqueConfigs(more);
      sections := sections[s := sections[s].(configs := more)];
    }

    /** Puts a config behind the others of the last section. */
    method AddConfig(c: Config)
      requires Valid() && sections != [] && !HasConfig(sections[|sections| - 1].configs, c.name)
      modifies this
      ensures Valid() && sections == WithConfig(old(sections), c)
    {
      hide IsReplaced, WithConfig;
      var last := |sections| - 1;
      PutConfig(last, |sections[last].configs|, c);
      WithConfigExactly(old(sections), sections, c);
    }

    /** The string config of a name, which is made with a default if there is none. */
    method GetString(s: nat, name: string, default: string, lib: Libc) returns (i: nat)
      requires Valid() && s < |sections|
      modifies this
      ensures Valid() && |sections| == |old(sections)| && i < |sections[s].configs| && sections[s].configs[i].name == name
      ensures
        if HasConfig(old(sections[s].configs), name) then sections == old(sections)
        else
          && i == |old(sections)[s].configs|
          && IsReplaced(old(sections), sections, s, i, sections[s].configs[i])
          && IsTextConfig(sections[s].configs[i], name, Str, default, lib)
    {
      i := FindConfig(s, name);
      if i == |sections[s].configs| {
        PutConfig(s, i, FromText(name, default, lib));
        TextConfig(name, default, lib);
      }
    }

    /** The integer config of a name, which is made with a default if there is none. */
    method GetInteger(s: nat, name: string, default: int, lib: Libc) returns (i: nat)
      requires Valid() && s < |sections| && Fits32(default)
      modifies this
      ensures Valid() && |sections| == |old(sections)| && i < |sections[s].configs| && sections[s].configs[i].name == name
      ensures
        if HasConfig(old(sections[s].configs), name) then sections == old(sections)
        else
          && i == |old(sections)[s].configs|
          && IsReplaced(old(sections), sections, s, i, sections[s].configs[i])
          && IsIntegerConfig(sections[s].configs[i], name, default, lib)
    {
      i := FindConfig(s, name);
      if i == |sections[s].configs| {
        DecimalExactly(Decimal(default), default);
        PutConfig(s, i, FromInteger(name, default, lib));
      }
    }

    /** The floating-point config of a name, which is made with a default if there is none. */
    method GetDouble(s: nat, name: string, default: Double, lib: Libc) returns (i: nat)
      requires Valid() && s < |sections| && |lib.showG(default)| < 24
      modifies this
      ensures Valid() && |sections| == |old(sections)| && i < |sections[s].configs| && sections[s].configs[i].name == name
      ensures
        if HasConfig(old(sections[s].configs), name) then sections == old(sections)
        else
          && i == |old(sections)[s].configs|
          && IsReplaced(old(sections), sections, s, i, Config(name, D, lib.showG(default), lib.toInt(default), default))
    {
      i := FindConfig(s, name);
      if i == |sections[s].configs| {
        PutConfig(s, i, FromDouble(name, default, lib));
      }
    }

    method SetDouble(s: nat, i: nat, d: Double, lib: Libc)
      requires Valid() && s < |sections| && i < |sections[s].configs| && |lib.showG(d)| < 24
      modifies this
      ensures Valid()
      ensures
        var name := old(sections[s].configs[i].name);
        IsReplaced(old(sections), sections, s, i, Config(name, D, lib.showG(d), lib.toInt(d), d))
    {
      PutConfig(s, i, FromDouble(sections[s].configs[i].name, d, lib));
    }

    method SetString(s: nat, i: nat, str: string, lib: Libc)
      requires Valid() && s < |sections| && i < |sections[s].configs|
      modifies this
      ensures Valid() && |sections| == |old(sections)| && i < |sections[s].configs|
      ensures IsReplaced(old(sections), sections, s, i, sections[s].configs[i])
      ensures IsTextConfig(sections[s].configs[i], old(sections[s].configs[i].name), Str, str, lib)
    {
      TextConfig(sections[s].configs[i].name, str, lib);
      PutConfig(s, i, FromText(sections[s].configs[i].name, str, lib));
    }

    method SetInteger(s: nat, i: nat, n: int, lib: Libc)
      requires Valid() && s < |sections| && i < |sections[s].configs| && Fits32(n)
      modifies this
      ensures Valid() && |sections| == |old(sections)| && i < |sections[s].configs|
      ensures IsReplaced(old(sections), sections, s, i, sections[s].configs[i])
      ensures IsIntegerConfig(sections[s].configs[i], old(sections[s].configs[i].name), n, lib)
    {
      DecimalExactly(Decimal(n), n);
      DecimalShort(n);
      assert 16 > |Decimal(n)|;
      PutConfig(s, i, FromInteger(sections[s].configs[i].name, n, lib));
    }

    /** The text of the file; `time` is the time of day. */
    method Write(time: string, lib: Libc) returns (text: string)
      ensures text == Printed(sections, time, lib)
    {
      text := "# Created " + time + "\n";
      ghost var all := Printed(sections, time, lib);
      assert sections[0..] == sections;
      var i := 0;
      while i < |sections|
        invariant i <= |sections| && text + PrintedSections(sections[i..], lib) == all
      {
        assert sections[i..][1..] == sections[i + 1..];
        ghost var before := text;
        var lines := WriteSection(sections[i], lib);
        text := text + lines;
        Regroup(before, lines, PrintedSections(sections[i + 1..], lib));
        i := i + 1;
      }
      assert text + "" == text;
    }
  }

  method WriteConfig(c: Config, lib: Libc) returns (line: string)
    ensures line == PrintedConfig(c, lib)
  {
    match c.kind {
      case D => line := c.name + "=" + lib.showF(c.d) + "\n";
      case I32 => line := c.name + "=" + Decimal(c.i32) + "\n";
      case Str => line := c.name + "=\"" + c.str + "\"\n";
    }
  }

  method WriteSection(s: Section, lib: Libc) returns (text: string)
    ensures text == PrintedSection(s, lib)
  {
    hide PrintedConfig;
    text := "[" + s.name + "]\n";
    ghost var all := PrintedSection(s, lib);
    assert s.configs[0..] == s.configs;
    var i := 0;
    while i < |s.configs|
      invariant i <= |s.configs| && text + PrintedConfigs(s.configs[i..], lib) == all
    {
      assert s.configs[i..][1..] == s.configs[i + 1..];
      ghost var before := text;
      var line := WriteConfig(s.configs[i], lib);
      text := text + line;
      Regroup(before, line, PrintedConfigs(s.configs[i + 1..], lib));
      i := i + 1;
    }
    assert text + "" == text;
  }

  function FromInteger(name: string, n: int, lib: Libc): (r: Config) {
    Config(name, I32, Decimal(n), n, lib.ofInt(n))
  }

  function FromDouble(name: string, d: Double, lib: Libc): (r: Config) {
    Config(name, D, lib.showG(d), lib.toInt(d), d)
  }

  /** An integer with its value and its decimal text. */
  predicate IsIntegerConfig(c: Config, name: string, n: int, lib: Libc) {
    c.name == name && c.kind == I32 && c.i32 == n && c.d == lib.ofInt(n) && IsDecimal(c.str, n)
  }

  // ----- Loading -----

  /** Reads the rest of a section's header. */
  method ReadHeader(lexer: Lexer, coll: Collection) returns (ok: bool)
    requires lexer.Valid() && coll.Valid() && LoadHeader(lexer.source.text, lexer.ofs, coll.sections) != TooFar
    modifies coll, lexer, lexer.buf, lexer.source
    ensures lexer.Valid() && coll.Valid()
    ensures
      var s := LoadHeader(lexer.source.text, old(lexer.ofs), old(coll.sections));
      if s.Next? then ok && coll.sections == s.sections && lexer.ofs == s.at else !ok && s == Bad
  {
    hide Lex;
    var token := lexer.TokenGet();
    if !token.Token? || token.kind != Alnum {
      return false;
    }
    var i := coll.FindSection(token.str);
    if i < |coll.sections| {
      return false;
    }
    coll.sections := coll.sections + [Section(token.str, [])];
    token := lexer.TokenGet();
    ok := token.Token? && StartsWith(token.str, ']');
  }

  /** Reads the rest of a config, after its name. */
  method ReadConfig(lexer: Lexer, coll: Collection, name: string, lib: Libc) returns (ok: bool)
    requires lexer.Valid() && coll.Valid() && LoadConfig(lexer.source.text, lexer.ofs, coll.sections, name, lib) != TooFar
    modifies coll, lexer, lexer.buf, lexer.source
    ensures lexer.Valid() && coll.Valid()
    ensures
      var s := LoadConfig(lexer.source.text, old(lexer.ofs), old(coll.sections), name, lib);
      if s.Next? then ok && coll.sections == s.sections && lexer.ofs == s.at else !ok && s == Bad
  {
    hide Lex, IntegerOf, IsReplaced, WithConfig;
    if coll.sections == [] {
      return false;
    }
    var last := |coll.sections| - 1;
    var i := coll.FindConfig(last, name);
    if i < |coll.sections[last].configs| {
      return false;
    }
    var token := lexer.TokenGet();
    if !token.Token? || !StartsWith(token.str, '=') {
      return false;
    }
    token := lexer.TokenGet();
    if !token.Token? {
      return false;
    }
    var c := FromText(name, token.str, lib);
    c := if token.kind == Number then c.(kind := D) else c;
    coll.AddConfig(c);
    ok := true;
  }

  /** Loads a collection from the rest of a text, or nothing if the text is wrong. */
  method Load(lexer: Lexer, lib: Libc) returns (coll: Collection?)
    requires lexer.Valid() && LoadFrom(lexer.source.text, lexer.ofs, [], lib) != Unread
    modifies lexer, lexer.buf, lexer.source
    ensures coll != null ==> fresh(coll) && coll.Valid()
    ensures coll != null ==> IsLoaded(lexer.source.text, old(lexer.ofs), [], coll.sections, lib)
    ensures coll == null <==> IsRefusedText(lexer.source.text, old(lexer.ofs), [], lib)
    ensures
      match LoadFrom(lexer.source.text, old(lexer.ofs), [], lib)
      case Done(sections) => coll != null && coll.sections == sections
      case _ => coll == null
  {
    hide Lex, LoadHeader, LoadConfig, Unique, IsLoaded, IsRefusedText;
    var c := new Collection();
    ghost var all := LoadFrom(lexer.source.text, lexer.ofs, [], lib);
    LoadedExactly(lexer.source.text, lexer.ofs, [], if all.Done? then all.sections else [], lib);
    while true
      invariant lexer.Valid() && c.Valid() && fresh(c)
      invariant LoadFrom(lexer.source.text, lexer.ofs, c.sections, lib) == all
      decreases |lexer.source.text| - lexer.ofs
    {
      var token := lexer.TokenGet();
      if token.End? {
        return c;
      }
      if token.Error? {
        return null;
      }
      var ok := false;
      if StartsWith(token.str, '[') {
        ok := ReadHeader(lexer, c);
      } else if token.kind == Alnum {
        ok := ReadConfig(lexer, c, token.str, lib);
      }
      if !ok {
        return null;
      }
    }
  }

  /** Writes a collection and loads what was written, with the lexer: the same
      sections and configs come back. */
  method WriteAndLoad(coll: Collection, time: string, lib: Libc) returns (back: Collection?)
    requires PrintableSections(coll.sections, lib) && IsTime(time)
    ensures back != null && fresh(back) && back.Valid() && back.sections == ReloadedSections(coll.sections, lib)
  {
    hide LoadFrom, Printed, PrintableSections, ReloadedSections, Plain, IsTime, Unique;
    var text := coll.Write(time, lib);
    PrintedPlain(coll.sections, time, lib);
    RoundTrip(coll.sections, time, lib);
    var source := new Source(text);
    var lexer := new Lexer(source);
    back := Load(lexer, lib);
  }
}
