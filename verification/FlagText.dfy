/** The flags of a line of text, and lines that read back as the flags that
    were written. */
module FlagText {
  import opened Chars

  predicate AllBlank(line: string, i: nat, e: nat) {
    i <= e <= |line| && forall k :: i <= k < e ==> IsBlank(line[k])
  }

  function SkipBlanks(line: string, i: nat): (e: nat)
    requires i <= |line|
    ensures i <= e <= |line|
    ensures AllBlank(line, i, e) && (e < |line| ==> !IsBlank(line[e]))
    decreases |line| - i
  {
    if i < |line| && IsBlank(line[i]) then SkipBlanks(line, i + 1) else i
  }

  /** The end of a word, in which a backslash keeps a blank. */
  function WordEnd(line: string, i: nat): (e: nat)
    requires i <= |line|
    ensures i <= e <= |line|
    decreases |line| - i
  {
    if i == |line| || IsBlank(line[i]) then i
    else if line[i] == '\\' && i + 1 < |line| && IsBlank(line[i + 1]) then WordEnd(line, i + 2)
    else WordEnd(line, i + 1)
  }

  const FRAMEWORK: string := "-framework"

  /** What reading a flag gives, and where it ends.  A framework flag without a
      blank is an error; a hyphen that ends the text is not read. */
  datatype Reading = Flag(str: string, next: nat) | NoMore | Funny | Broken

  /** The name of the flag that starts at a position: where it ends, and whether a value may follow. */
  datatype Name = Name(end: nat, valued: bool) | FunnyName | BrokenName

  function NameAt(line: string, i: nat): (n: Name)
    requires i < |line|
    ensures n.Name? ==> i <= n.end <= |line|
  {
    if FRAMEWORK <= line[i..] then
      if i + 10 < |line| && IsBlank(line[i + 10]) then Name(i + 11, true) else FunnyName
    else if line[i] == '-' then
      if i + 1 == |line| then BrokenName
      else Name(i + 2, !(line[i + 1] == 'W' && (i + 2 == |line| || IsBlank(line[i + 2]))))
    else Name(i, true)
  }

  function ReadFlag(line: string, i: nat): (r: Reading)
    requires i <= |line|
    ensures r.Flag? ==> i < r.next <= |line|
  {
    var start := SkipBlanks(line, i);
    if start == |line| then NoMore
    else
      match NameAt(line, start)
      case FunnyName => Funny
      case BrokenName => Broken
      case Name(end, valued) =>
        if !valued then Flag(line[start..end], end)
        else
          var v := SkipBlanks(line, end);
          var e := WordEnd(line, v);
          Flag(line[start..end] + line[v..e], e)
  }

  datatype Outcome = Flags(flags: seq<string>) | Stop | Unread

  /** All flags of a line, from a position on. */
  function ReadFlags(line: string, i: nat): (r: Outcome)
    requires i <= |line|
    decreases |line| - i
  {
    match ReadFlag(line, i)
    case NoMore => Flags([])
    case Funny => Stop
    case Broken => Unread
    case Flag(str, next) =>
      var rest := ReadFlags(line, next);
      if rest.Flags? then Flags([str] + rest.flags) else rest
  }

  // ----- Flags by their characters -----

  /** A word has only blanks that a backslash of the word comes before, and ends
      at one that none comes before, or with the line. */
  predicate IsWordAt(line: string, i: nat, e: nat) {
    && i <= e <= |line|
    && (forall k :: i <= k < e && IsBlank(line[k]) ==> i < k && line[k - 1] == '\\')
    && (e < |line| ==> IsBlank(line[e]) && !(i < e && line[e - 1] == '\\'))
  }

  /** A framework flag without a blank after its name. */
  predicate IsFunnyAt(line: string, i: nat) {
    i < |line| && "-framework" <= line[i..] && !(i + 10 < |line| && IsBlank(line[i + 10]))
  }

  /** A hyphen that ends the line. */
  predicate IsBrokenAt(line: string, i: nat) {
    i + 1 == |line| && line[i] == '-'
  }

  /** The name is "-framework" and a blank, or a hyphen and a character, or nothing. */
  predicate IsNameAt(line: string, i: nat, end: nat) {
    && i < |line| && !IsBlank(line[i]) && i <= end <= |line|
    && !IsFunnyAt(line, i)
    && end == if "-framework" <= line[i..] then i + 11 else if line[i] == '-' then i + 2 else i
  }

  /** The ancient "-W" stands alone. */
  predicate IsAncient(line: string, i: nat, end: nat) {
    end <= |line| && i + 2 == end && line[i..end] == "-W" && (end < |line| ==> IsBlank(line[end]))
  }

  /** After blanks comes a name, and then, after other blanks, a value that is a word. */
  predicate HasParts(line: string, i: nat, start: nat, end: nat, value: nat, str: string, next: nat) {
    && AllBlank(line, i, start) && IsNameAt(line, start, end)
    && if IsAncient(line, start, end) then value == next == end && str == line[start..end]
       else
         && AllBlank(line, end, value) && (value < |line| ==> !IsBlank(line[value]))
         && IsWordAt(line, value, next) && str == line[start..end] + line[value..next]
  }

  ghost predicate IsFlag(line: string, i: nat, str: string, next: nat) {
    exists start: nat, end: nat, value: nat :: HasParts(line, i, start, end, value, str, next)
  }

  /** The flags from one position up to another, where each one starts at which the one before it ends. */
  ghost predicate AreFlags(line: string, i: nat, flags: seq<string>, last: nat) {
    exists ends: seq<nat> ::
      && |ends| == |flags| + 1 && ends[0] == i && ends[|flags|] == last
      && forall k :: 0 <= k < |flags| ==> IsFlag(line, ends[k], flags[k], ends[k + 1])
  }

  /** Flags and then nothing but blanks. */
  ghost predicate IsLineOf(line: string, i: nat, flags: seq<string>) {
    exists last: nat :: AreFlags(line, i, flags, last) && AllBlank(line, last, |line|)
  }

  /** After some flags comes a framework flag without a blank. */
  ghost predicate IsFunnyLine(line: string, i: nat) {
    exists flags, last: nat, start: nat ::
      AreFlags(line, i, flags, last) && AllBlank(line, last, start) && IsFunnyAt(line, start)
  }

  lemma {:induction false} WordEndIsWord(line: string, i: nat)
    requires i <= |line|
    ensures IsWordAt(line, i, WordEnd(line, i))
    decreases |line| - i
  {
    if i < |line| && !IsBlank(line[i]) {
      WordEndIsWord(line, if line[i] == '\\' && i + 1 < |line| && IsBlank(line[i + 1]) then i + 2 else i + 1);
    }
  }

  lemma OneWord(line: string, i: nat, e: nat, e': nat)
    requires IsWordAt(line, i, e) && IsWordAt(line, i, e')
    ensures e == e'
  {
  }

  /** The end of a word is the only place that a word ends at. */
  lemma WordEndExactly(line: string, i: nat, e: nat)
    requires i <= |line|
    ensures e == WordEnd(line, i) <==> IsWordAt(line, i, e)
  {
    hide WordEnd, IsWordAt;
    WordEndIsWord(line, i);
    if IsWordAt(line, i, e) { OneWord(line, i, e, WordEnd(line, i)); }
  }

  lemma SkipExactly(line: string, i: nat, e: nat)
    requires i <= |line|
    ensures e == SkipBlanks(line, i) <==> AllBlank(line, i, e) && (e < |line| ==> !IsBlank(line[e]))
  {
  }

  lemma NameExactly(line: string, i: nat, end: nat)
    requires i < |line| && !IsBlank(line[i])
    ensures IsNameAt(line, i, end) <==> NameAt(line, i).Name? && NameAt(line, i).end == end
    ensures IsNameAt(line, i, end) ==> (NameAt(line, i).valued <==> !IsAncient(line, i, end))
    ensures NameAt(line, i) == FunnyName <==> IsFunnyAt(line, i)
    ensures NameAt(line, i) == BrokenName <==> IsBrokenAt(line, i)
  {
    if FRAMEWORK <= line[i..] {
      assert FRAMEWORK[0] == line[i..][0] == line[i] && |line[i..]| >= 10;
    }
    if end <= |line| && end == i + 2 {
      assert line[i..end] == [line[i], line[i + 1]];
    }
  }

  lemma PartsRead(line: string, i: nat, start: nat, end: nat, value: nat, str: string, next: nat)
    requires HasParts(line, i, start, end, value, str, next)
    ensures ReadFlag(line, i) == Flag(str, next)
  {
    hide WordEnd, SkipBlanks, NameAt;
    SkipExactly(line, i, start);
    NameExactly(line, start, end);
    if !IsAncient(line, start, end) {
      SkipExactly(line, end, value);
      WordEndExactly(line, value, next);
    }
  }

  lemma ReadHasParts(line: string, i: nat)
    requires i <= |line| && ReadFlag(line, i).Flag?
    ensures IsFlag(line, i, ReadFlag(line, i).str, ReadFlag(line, i).next)
  {
    hide WordEnd, SkipBlanks, NameAt, IsWordAt, IsNameAt, IsAncient, AllBlank;
    var start := SkipBlanks(line, i);
    var end := NameAt(line, start).end;
    SkipExactly(line, i, start);
    NameExactly(line, start, end);
    var r := ReadFlag(line, i);
    if !NameAt(line, start).valued {
      assert HasParts(line, i, start, end, end, r.str, r.next);
    } else {
      var value := SkipBlanks(line, end);
      SkipExactly(line, end, value);
      WordEndExactly(line, value, WordEnd(line, value));
      assert HasParts(line, i, start, end, value, r.str, r.next);
    }
  }

  /** What is read as a flag is one by its characters, and nothing else is. */
  lemma FlagExactly(line: string, i: nat, str: string, next: nat)
    requires i <= |line|
    ensures ReadFlag(line, i) == Flag(str, next) <==> IsFlag(line, i, str, next)
  {
    hide ReadFlag, HasParts;
    if ReadFlag(line, i) == Flag(str, next) { ReadHasParts(line, i); }
    if start: nat, end: nat, value: nat :| HasParts(line, i, start, end, value, str, next) {
      PartsRead(line, i, start, end, value, str, next);
    }
  }

  /** When no flag is read there are only blanks, or what stops the program. */
  lemma NoFlagExactly(line: string, i: nat)
    requires i <= |line|
    ensures ReadFlag(line, i) == NoMore <==> AllBlank(line, i, |line|)
    ensures ReadFlag(line, i) == Funny <==> exists start: nat :: AllBlank(line, i, start) && IsFunnyAt(line, start)
  {
    hide WordEnd, SkipBlanks, NameAt;
    var start := SkipBlanks(line, i);
    SkipExactly(line, i, start);
    SkipExactly(line, i, |line|);
    if start < |line| { NameExactly(line, start, start); }
    if start': nat :| AllBlank(line, i, start') && IsFunnyAt(line, start') {
      assert line[start'..][0] == line[start'] == '-';
      SkipExactly(line, i, start');
    }
  }

  lemma NoFlags(line: string, i: nat)
    ensures AreFlags(line, i, [], i)
    ensures forall last: nat :: AreFlags(line, i, [], last) ==> last == i
  {
    assert [i][0] == i;
  }

  lemma FlagBefore(line: string, i: nat, str: string, next: nat, flags: seq<string>, last: nat)
    requires IsFlag(line, i, str, next) && AreFlags(line, next, flags, last)
    ensures AreFlags(line, i, [str] + flags, last)
  {
    hide IsFlag;
    var ends: seq<nat> :|
      && |ends| == |flags| + 1 && ends[0] == next && ends[|flags|] == last
      && forall k :: 0 <= k < |flags| ==> IsFlag(line, ends[k], flags[k], ends[k + 1]);
    var all: seq<nat> := [i] + ends;
    forall k | 0 <= k < |[str] + flags| ensures IsFlag(line, all[k], ([str] + flags)[k], all[k + 1]) {
      if k > 0 { assert IsFlag(line, ends[k - 1], flags[k - 1], ends[k]); }
    }
    assert all[0] == i && all[|flags| + 1] == last;
  }

  lemma FirstFlag(line: string, i: nat, flags: seq<string>, last: nat) returns (next: nat)
    requires flags != [] && AreFlags(line, i, flags, last)
    ensures IsFlag(line, i, flags[0], next) && AreFlags(line, next, flags[1..], last)
  {
    hide IsFlag;
    var ends: seq<nat> :|
      && |ends| == |flags| + 1 && ends[0] == i && ends[|flags|] == last
      && forall k :: 0 <= k < |flags| ==> IsFlag(line, ends[k], flags[k], ends[k + 1]);
    next := ends[1];
    var rest, tail: seq<nat> := flags[1..], ends[1..];
    forall k | 0 <= k < |rest| ensures IsFlag(line, tail[k], rest[k], tail[k + 1]) {
      assert IsFlag(line, ends[k + 1], flags[k + 1], ends[k + 2]);
    }
  }

  /** Reading goes on behind flags. */
  lemma {:induction false} ReadPast(line: string, i: nat, flags: seq<string>, last: nat)
    requires i <= |line| && AreFlags(line, i, flags, last)
    ensures last <= |line| && ReadFlags(line, i) == Behind(flags, ReadFlags(line, last))
    decreases |flags|
  {
    hide ReadFlag, IsFlag, AreFlags;
    if flags == [] {
      NoFlags(line, i);
      BehindNone(ReadFlags(line, i));
    } else {
      var next := FirstFlag(line, i, flags, last);
      FlagExactly(line, i, flags[0], next);
      ReadPast(line, next, flags[1..], last);
      OneRead(line, i, flags[0], next);
      OneMore([flags[0]], flags[1..], ReadFlags(line, last));
    }
  }

  /** The flags that are read are those of the line, and an error is a framework flag without a blank. */
  lemma {:induction false} ReadMeans(line: string, i: nat)
    requires i <= |line|
    ensures ReadFlags(line, i).Flags? ==> IsLineOf(line, i, ReadFlags(line, i).flags)
    ensures ReadFlags(line, i).Stop? ==> IsFunnyLine(line, i)
    decreases |line| - i
  {
    hide ReadFlag, IsFlag, AreFlags, AllBlank, IsFunnyAt;
    NoFlagExactly(line, i);
    NoFlags(line, i);
    var r := ReadFlag(line, i);
    if r.Flag? {
      FlagExactly(line, i, r.str, r.next);
      ReadMeans(line, r.next);
      var rest := ReadFlags(line, r.next);
      if rest.Flags? {
        var last: nat :| AreFlags(line, r.next, rest.flags, last) && AllBlank(line, last, |line|);
        FlagBefore(line, i, r.str, r.next, rest.flags, last);
      } else if rest.Stop? {
        var flags, last: nat, start: nat :|
          AreFlags(line, r.next, flags, last) && AllBlank(line, last, start) && IsFunnyAt(line, start);
        FlagBefore(line, i, r.str, r.next, flags, last);
      }
    }
  }

  /** A line is read as given flags if and only if it has them by its characters,
      and stops the program if and only if it has a framework flag without a blank. */
  lemma LineExactly(line: string, flags: seq<string>)
    ensures ReadFlags(line, 0) == Flags(flags) <==> IsLineOf(line, 0, flags)
    ensures ReadFlags(line, 0) == Stop <==> IsFunnyLine(line, 0)
  {
    hide ReadFlag, IsFlag, AreFlags, AllBlank, IsFunnyAt;
    ReadMeans(line, 0);
    if last: nat :| AreFlags(line, 0, flags, last) && AllBlank(line, last, |line|) {
      ReadPast(line, 0, flags, last);
      NoFlagExactly(line, last);
      assert flags + [] == flags;
    }
    if fs, last: nat, start: nat :|
      AreFlags(line, 0, fs, last) && AllBlank(line, last, start) && IsFunnyAt(line, start)
    {
      ReadPast(line, 0, fs, last);
      NoFlagExactly(line, last);
    }
  }

  // ----- Reading -----

  method PastBlanks(line: string, i: nat) returns (p: nat)
    requires i <= |line|
    ensures p == SkipBlanks(line, i)
  {
    p := i;
    while p < |line| && IsBlank(line[p])
      invariant i <= p <= |line| && SkipBlanks(line, p) == SkipBlanks(line, i)
    {
      p := p + 1;
    }
  }

  method PastWord(line: string, i: nat) returns (p: nat)
    requires i <= |line|
    ensures p == WordEnd(line, i)
  {
    p := i;
    while p < |line| && !IsBlank(line[p])
      invariant i <= p <= |line| && WordEnd(line, p) == WordEnd(line, i)
    {
      if '\\' == line[p] && p + 1 < |line| && IsBlank(line[p + 1]) {
        p := p + 1;
      }
      p := p + 1;
    }
  }

  /** Reads one flag. */
  method ReadOne(line: string, i: nat) returns (r: Reading)
    requires i <= |line| && ReadFlag(line, i) != Broken
    ensures r == ReadFlag(line, i)
  {
    hide WordEnd;
    var p := PastBlanks(line, i);
    if p == |line| {
      return NoMore;
    }
    var start, valued := p, true;
    if FRAMEWORK <= line[p..] {
      p := p + 10;
      if !(p < |line| && IsBlank(line[p])) {
        return Funny;
      }
      p := p + 1;
    } else if '-' == line[p] {
      valued := !(p + 1 < |line| && line[p + 1] == 'W' && (p + 2 == |line| || IsBlank(line[p + 2])));
      p := p + 2;
    }
    var str := line[start..p];
    if valued {
      var v := PastBlanks(line, p);
      p := PastWord(line, v);
      str := str + line[v..p];
    }
    r := Flag(str, p);
  }

  /** Reads the flags of a line one after the other. */
  method ReadLine(line: string) returns (o: Outcome)
    requires ReadFlags(line, 0) != Unread
    ensures o == ReadFlags(line, 0)
    ensures o.Flags? || o.Stop?
    ensures o.Flags? ==> IsLineOf(line, 0, o.flags)
    ensures o.Stop? <==> IsFunnyLine(line, 0)
  {
    hide ReadFlag, IsLineOf, IsFunnyLine;
    ghost var all := ReadFlags(line, 0);
    LineExactly(line, if all.Flags? then all.flags else []);
    var flags := [];
    var p := 0;
    while true
      invariant p <= |line| && ReadFlags(line, 0) == Behind(flags, ReadFlags(line, p))
      decreases |line| - p
    {
      var r := ReadOne(line, p);
      if r == NoMore {
        assert flags + [] == flags;
        return Flags(flags);
      }
      if r == Funny {
        return Stop;
      }
      OneMore(flags, [r.str], ReadFlags(line, r.next));
      flags := flags + [r.str];
      p := r.next;
    }
  }

  /** An outcome with flags in front of it. */
  function Behind(flags: seq<string>, o: Outcome): (r: Outcome) {
    if o.Flags? then Flags(flags + o.flags) else o
  }

  lemma OneMore(flags: seq<string>, more: seq<string>, o: Outcome)
    ensures Behind(flags, Behind(more, o)) == Behind(flags + more, o)
  {
    if o.Flags? { assert flags + (more + o.flags) == flags + more + o.flags; }
  }

  lemma BehindNone(o: Outcome)
    ensures Behind([], o) == o
  {
    if o.Flags? { assert [] + o.flags == o.flags; }
  }

  // ----- Lines that read back as they were written -----

  /** Every flag followed by a space. */
  function Joined(s: seq<string>): (r: string) {
    if s == [] then "" else s[0] + " " + Joined(s[1..])
  }

  /** A word that ends where a space comes after it. */
  predicate IsWord(v: string) {
    v != [] && !IsBlank(v[0]) && WordEnd(v, 0) == |v| && v[|v| - 1] != '\\'
  }

  /** How long the name of a flag is, if it has one and a value after it. */
  function NameLength(t: string): (r: nat) {
    if FRAMEWORK <= t then 11 else if t != [] && t[0] == '-' then 2 else 0
  }

  /** A flag with a value that is a word, or "-W". */
  predicate Settled(t: string) {
    || t == "-W"
    || (NameLength(t) < |t| && (FRAMEWORK <= t ==> IsBlank(t[10])) && IsWord(t[NameLength(t)..]))
  }

  /** The text has a flag at a position and a space after it. */
  ghost predicate Stands(line: string, i: nat, t: string) {
    i + |t| < |line| && line[i..i + |t|] == t && line[i + |t|] == ' '
  }

  lemma {:induction false} WordWithin(line: string, i: nat, v: string, k: nat)
    requires Stands(line, i, v) && k <= |v| && v != []
    ensures WordEnd(line, i + k) == i + |v| <==> WordEnd(v, k) == |v| && (k < |v| ==> v[|v| - 1] != '\\')
    decreases |v| - k
  {
    assert forall j :: 0 <= j < |v| ==> line[i + j] == v[j] by {
      forall j | 0 <= j < |v| ensures line[i + j] == v[j] { assert line[i..i + |v|][j] == v[j]; }
    }
    if k < |v| && !IsBlank(v[k]) {
      if k + 1 == |v| {
        assert v[k] == '\\' ==> WordEnd(line, i + k) > i + |v|;
      } else if v[k] == '\\' && IsBlank(v[k + 1]) {
        WordWithin(line, i, v, k + 2);
      } else {
        WordWithin(line, i, v, k + 1);
      }
    }
  }

  lemma StandsChars(line: string, i: nat, t: string)
    requires Stands(line, i, t)
    ensures forall j :: 0 <= j < |t| ==> line[i + j] == t[j]
  {
    forall j | 0 <= j < |t| ensures line[i + j] == t[j] { assert line[i..i + |t|][j] == t[j]; }
  }

  lemma FrameworkStarts(line: string, i: nat, t: string)
    requires Stands(line, i, t)
    ensures FRAMEWORK <= line[i..] <==> FRAMEWORK <= t
  {
    StandsChars(line, i, t);
    if |t| >= 10 {
      assert forall j :: 0 <= j < 10 ==> line[i..][j] == t[j];
    } else {
      assert line[i..][|t|] == ' ' && FRAMEWORK[|t|] != ' ';
    }
  }

  /** The name of a flag that stands in a line. */
  lemma NameStands(line: string, i: nat, t: string)
    requires Stands(line, i, t) && t != [] && !IsBlank(t[0])
    ensures FRAMEWORK <= t && |t| > 10 ==> NameAt(line, i) == if IsBlank(t[10]) then Name(i + 11, true) else FunnyName
    ensures FRAMEWORK <= t && |t| == 10 ==> NameAt(line, i) == Name(i + 11, true)
    ensures !(FRAMEWORK <= t) && t[0] == '-' && |t| == 1 ==> NameAt(line, i) == Name(i + 2, true)
    ensures !(FRAMEWORK <= t) && t[0] == '-' && |t| >= 2 ==>
      NameAt(line, i) == Name(i + 2, !(t[1] == 'W' && (|t| == 2 || IsBlank(t[2]))))
    ensures !(FRAMEWORK <= t) && t[0] != '-' ==> NameAt(line, i) == Name(i, true)
  {
    StandsChars(line, i, t);
    FrameworkStarts(line, i, t);
    assert line[i + 0] == t[0];
  }

  /** A value ends with its flag if and only if it is a word that starts right after the name. */
  lemma ValueStands(line: string, i: nat, t: string, n: nat)
    requires Stands(line, i, t) && n <= |t|
    ensures
      var v := SkipBlanks(line, i + n);
      v == i + n && WordEnd(line, v) == i + |t| <==> n < |t| && IsWord(t[n..])
  {
    StandsChars(line, i, t);
    var w := t[n..];
    if n < |t| {
      assert line[i + n..i + n + |w|] == line[i..i + |t|][n..];
      assert Stands(line, i + n, w);
      assert line[i + n] == t[n] == w[0];
      WordWithin(line, i + n, w, 0);
    }
  }

  /** What is read for a name with a value is the flag if and only if the value is right after the name. */
  lemma ValuedReading(line: string, i: nat, t: string, end: nat)
    requires Stands(line, i, t) && i <= end <= |line|
    ensures
      var v := SkipBlanks(line, end);
      var e := WordEnd(line, v);
      line[i..end] + line[v..e] == t && e == i + |t| <==> v == end && e == i + |t|
  {
    var v := SkipBlanks(line, end);
    var e := WordEnd(line, v);
    if line[i..end] + line[v..e] == t && e == i + |t| {
      assert |line[i..end] + line[v..e]| == end - i + e - v;
    }
    if v == end && e == i + |t| {
      assert line[i..end] + line[end..e] == line[i..e];
    }
  }

  lemma NoSkip(line: string, i: nat)
    requires i < |line| && !IsBlank(line[i])
    ensures SkipBlanks(line, i) == i
  {
  }

  /** A name that a value would follow: two characters, or the framework name with its blank. */
  predicate JustName(t: string) {
    t != "" && t != "-W" && NameLength(t) == |t| && (FRAMEWORK <= t ==> IsBlank(t[10]))
  }

  predicate Proper(t: string) {
    t != "" && !IsBlank(t[0])
  }

  lemma SettledStarts(t: string)
    requires Settled(t) || JustName(t)
    ensures Proper(t)
  {
    hide WordEnd;
    if NameLength(t) == 0 && t != "-W" { assert t[0..] == t; }
  }

  /** What a flag is when it is read where `t` stands: `t` with the position
      after it, or a name that nothing follows. */
  lemma ReadAs(line: string, i: nat, t: string)
    requires Stands(line, i, t) && Proper(t)
    ensures
      var r := ReadFlag(line, i);
      r.Flag? && r.str == t <==> r == Flag(t, i + |t|) || (JustName(t) && SkipBlanks(line, i + |t|) == |line|)
    ensures JustName(t) && SkipBlanks(line, i + |t|) == |line| ==> ReadFlag(line, i) == Flag(t, |line|)
  {
    hide SkipBlanks, IsWord, WordEnd, NameAt, AllBlank;
    StandsChars(line, i, t);
    assert line[i + 0] == t[0];
    NoSkip(line, i);
    NameStands(line, i, t);
    var n := NameLength(t);
    WordEnds(line);
    if n < |t| && i + n <= |line| {
      ValueIs(line, i, t, n);
    } else if n == |t| {
      NoValue(line, i, t);
    }
  }

  lemma WordEnds(line: string)
    ensures WordEnd(line, |line|) == |line|
  {
  }

  /** A value that is read is not empty, unless the line ends. */
  lemma ValueIs(line: string, i: nat, t: string, n: nat)
    requires Stands(line, i, t) && n < |t|
    ensures
      var v := SkipBlanks(line, i + n);
      var e := WordEnd(line, v);
      line[i..i + n] + line[v..e] == t ==> e == i + |t|
  {
    hide WordEnd;
    StandsChars(line, i, t);
    var v := SkipBlanks(line, i + n);
    var e := WordEnd(line, v);
    var s := line[i..i + n] + line[v..e];
    if s == t {
      assert s[n] == line[v] && line[i + n] == t[n];
      NoSkip(line, i + n);
    }
  }

  lemma NoValue(line: string, i: nat, t: string)
    requires Stands(line, i, t)
    ensures
      var v := SkipBlanks(line, i + |t|);
      var e := WordEnd(line, v);
      line[i..i + |t|] + line[v..e] == t <==> v == |line|
  {
    var v := SkipBlanks(line, i + |t|);
    var e := WordEnd(line, v);
    assert |line[i..i + |t|] + line[v..e]| == |t| + e - v;
    if v == |line| { assert line[i..i + |t|] + line[v..e] == t; }
  }

  lemma SkipOne(line: string, i: nat)
    requires i < |line| && IsBlank(line[i])
    ensures SkipBlanks(line, i) == SkipBlanks(line, i + 1)
  {
  }

  /** A flag that is written and followed by a space is read back, and reading
      goes on right after it, if and only if it is settled: a backslash at the
      end would keep the space, and a name with no value takes what comes next.
      Only a name that nothing but blanks follows is read back as well. */
  lemma SettledExactly(line: string, i: nat, t: string)
    requires Stands(line, i, t) && Proper(t)
    ensures ReadFlag(line, i) == Flag(t, i + |t|) <==> Settled(t)
    ensures
      var r := ReadFlag(line, i);
      r.Flag? && r.str == t <==> Settled(t) || (JustName(t) && SkipBlanks(line, i + |t|) == |line|)
    ensures JustName(t) && SkipBlanks(line, i + |t|) == |line| ==> ReadFlag(line, i) == Flag(t, |line|)
  {
    hide WordEnd, SkipBlanks, IsWord, NameAt, AllBlank;
    StandsChars(line, i, t);
    assert line[i + 0] == t[0];
    NoSkip(line, i);
    NameStands(line, i, t);
    ReadAs(line, i, t);
    var n := NameLength(t);
    if n <= |t| {
      ValueStands(line, i, t, n);
      ValuedReading(line, i, t, i + n);
    }
  }

  lemma ReadsOn(line: string, i: nat)
    requires i < |line| && IsBlank(line[i])
    ensures ReadFlags(line, i) == ReadFlags(line, i + 1)
  {
    hide NameAt, WordEnd;
    assert ReadFlag(line, i) == ReadFlag(line, i + 1);
  }

  /** Every flag is settled, but the last one may be just a name. */
  predicate LineSettled(flags: seq<string>) {
    forall k :: 0 <= k < |flags| ==> Settled(flags[k]) || (k == |flags| - 1 && JustName(flags[k]))
  }

  /** Every flag that is read is one that can be read back: it is not empty and starts with no blank. */
  lemma {:induction false} ReadIsProper(line: string, i: nat)
    requires i <= |line| && ReadFlags(line, i).Flags?
    ensures forall k :: 0 <= k < |ReadFlags(line, i).flags| ==> Proper(ReadFlags(line, i).flags[k])
    decreases |line| - i
  {
    hide ReadFlag;
    var r := ReadFlag(line, i);
    if r.Flag? {
      OneIsProper(line, i);
      ReadIsProper(line, r.next);
    }
  }

  lemma OneIsProper(line: string, i: nat)
    requires i <= |line| && ReadFlag(line, i).Flag?
    ensures Proper(ReadFlag(line, i).str)
  {
    hide WordEnd;
    var start := SkipBlanks(line, i);
    var r := ReadFlag(line, i);
    var n := NameAt(line, start);
    if n.end > start {
      assert r.str[0] == line[start];
    } else {
      WordStarts(line, start);
      assert r.str[0] == line[start];
    }
  }

  lemma WordStarts(line: string, i: nat)
    requires i < |line| && !IsBlank(line[i])
    ensures WordEnd(line, i) > i
  {
  }

  /** The end of a line: with a newline, or at the end of the text without one. */
  predicate IsEnd(end: string) {
    end == "" || end == "\n"
  }

  /** A line reads back as the flags that were written into it if and only if
      every flag is settled, but the last one may be just a name. */
  lemma {:induction false} JoinedReads(line: string, i: nat, flags: seq<string>, end: string)
    requires i <= |line| && line[i..] == Joined(flags) + end && IsEnd(end)
    ensures ReadFlags(line, i) == Flags(flags) <==> LineSettled(flags)
    decreases |flags|
  {
    hide Settled, JustName, ReadFlag, Proper, ReadFlags, IsEnd;
    if flags == [] {
      EndReads(line, i, end);
    } else {
      var t, rest := flags[0], Joined(flags[1..]);
      assert t + " " + rest + end == t + " " + (rest + end);
      FirstStands(line, i, t, rest + end);
      FirstReads(line, i, flags, end);
      FirstAndRest(flags);
      JoinedReads(line, i + |t| + 1, flags[1..], end);
    }
  }

  lemma EndReads(line: string, i: nat, end: string)
    requires i <= |line| && line[i..] == end && IsEnd(end)
    ensures ReadFlags(line, i) == Flags([])
  {
    NothingRead(line);
    if end == "\n" {
      assert line[i] == line[i..][0];
      ReadsOn(line, i);
    }
  }

  /** A line of flags reads back if the first one does and the rest does. */
  lemma FirstReads(line: string, i: nat, flags: seq<string>, end: string)
    requires i <= |line| && flags != [] && Stands(line, i, flags[0]) && IsEnd(end)
    requires line[i + |flags[0]| + 1..] == Joined(flags[1..]) + end
    ensures ReadFlags(line, i) == Flags(flags) <==>
      || (Settled(flags[0]) && ReadFlags(line, i + |flags[0]| + 1) == Flags(flags[1..]))
      || (JustName(flags[0]) && |flags| == 1)
  {
    hide Settled, JustName, ReadFlag, Proper, IsEnd;
    var t, rest := flags[0], flags[1..];
    if ReadFlags(line, i) == Flags(flags) {
      ReadIsProper(line, i);
      assert forall k :: 0 <= k < |rest| ==> rest[k] == flags[k + 1];
    }
    if Settled(t) || JustName(t) {
      SettledStarts(t);
    }
    if Proper(t) {
      SettledExactly(line, i, t);
      ReadsOn(line, i + |t|);
      EndsAfterLast(line, i + |t|, rest, end);
      NothingRead(line);
      assert [t] + rest == flags;
    }
  }

  lemma FirstAndRest(flags: seq<string>)
    requires flags != []
    ensures LineSettled(flags) <==> (Settled(flags[0]) || (|flags| == 1 && JustName(flags[0]))) && LineSettled(flags[1..])
  {
    hide Settled, JustName;
    if LineSettled(flags[1..]) {
      assert forall k :: 1 <= k < |flags| ==> flags[k] == flags[1..][k - 1];
    }
  }

  /** After a flag only blanks follow if it is the last one, and only then if the next one is proper. */
  lemma EndsAfterLast(line: string, i: nat, rest: seq<string>, end: string)
    requires i < |line| && line[i] == ' ' && line[i + 1..] == Joined(rest) + end && IsEnd(end)
    ensures rest == [] ==> SkipBlanks(line, i) == |line|
    ensures rest != [] && Proper(rest[0]) ==> SkipBlanks(line, i) == i + 1 < |line|
  {
    if rest == [] {
      assert line[i + 1..] == end;
      if end == "\n" { assert line[i + 1] == line[i + 1..][0]; }
    } else if Proper(rest[0]) {
      assert line[i + 1] == line[i + 1..][0] == rest[0][0];
    }
  }

  lemma NothingRead(line: string)
    ensures ReadFlags(line, |line|) == Flags([])
  {
  }

  lemma FirstStands(line: string, i: nat, t: string, rest: string)
    requires i <= |line| && line[i..] == t + " " + rest
    ensures Stands(line, i, t) && line[i + |t| + 1..] == rest
  {
    assert line[i..][..|t|] == t && line[i..][|t|] == ' ' && line[i..][|t| + 1..] == rest;
  }

  /** A name with another flag after it takes that flag as its value. */
  lemma NameTakesNext(t: string, u: string, end: string)
    requires JustName(t) && IsWord(u) && IsEnd(end)
    ensures ReadFlags(Joined([t, u]) + end, 0) == Flags([t + u])
  {
    hide ReadFlag, JustName, IsWord, IsEnd, ReadFlags;
    var line := Joined([t, u]) + end;
    assert Joined([u]) == u + " ";
    assert line == t + " " + (u + " " + end);
    TakenValue(line, t, u, end);
    OneRead(line, 0, t + u, |t| + 1 + |u|);
    ReadsOn(line, |t| + 1 + |u|);
    EndReads(line, |t| + 1 + |u| + 1, end);
  }

  lemma OneRead(line: string, i: nat, str: string, next: nat)
    requires i <= |line| && ReadFlag(line, i) == Flag(str, next)
    ensures ReadFlags(line, i) == Behind([str], ReadFlags(line, next))
  {
    hide ReadFlag;
  }

  lemma TakenValue(line: string, t: string, u: string, end: string)
    requires JustName(t) && IsWord(u) && line == t + " " + (u + " " + end)
    ensures
      var at := |t| + 1 + |u|;
      ReadFlag(line, 0) == Flag(t + u, at) && at < |line| && line[at] == ' ' && line[at + 1..] == end
  {
    hide WordEnd, NameAt, SkipBlanks, AllBlank;
    var v := |t| + 1;
    FirstStands(line, 0, t, u + " " + end);
    FirstStands(line, v, u, end);
    StandsChars(line, v, u);
    SettledStarts(t);
    NameStands(line, 0, t);
    NoSkip(line, 0);
    assert line[v + 0] == u[0];
    NoSkip(line, v);
    SkipOne(line, |t|);
    WordWithin(line, v, u, 0);
  }

  /** The name "-I" is read back when it is alone, but not with "-Da=1" after it. */
  lemma NameAlone()
    ensures ReadFlags(Joined(["-I"]) + "\n", 0) == Flags(["-I"])
    ensures ReadFlags(Joined(["-I", "-Da=1"]) + "\n", 0) == Flags(["-I-Da=1"])
  {
    JoinedReads(Joined(["-I"]) + "\n", 0, ["-I"], "\n");
    NameTakesNext("-I", "-Da=1", "\n");
    assert "-I" + "-Da=1" == "-I-Da=1";
  }
}
