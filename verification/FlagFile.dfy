/** Files of flags: their lines as they are read, their merging, and files that
    read back as the flags that were written. */
module FlagFile {
  import opened FlagMerge
  import opened FlagPolicy
  import opened FlagSpec
  import FlagText
  import opened Sequences

  // ----- The lines of a text -----

  /** How many characters of a line are read at once. */
  const MOST: nat := 65535

  /** Where the line that goes on at position `k` ends: behind its newline, or
      when it is full. */
  function LineStop(text: string, k: nat): (n: nat)
    requires k <= |text| && k <= MOST
    ensures k <= n <= |text| && n <= MOST && (k < |text| && k < MOST ==> k < n)
    decreases |text| - k
  {
    if k == |text| || k == MOST then k
    else if text[k] == '\n' then k + 1
    else LineStop(text, k + 1)
  }

  function LinesOf(text: string): (lines: seq<string>)
    ensures text != "" <==> lines != []
  {
    if text == "" then []
    else
      var n := LineStop(text, 0);
      [text[..n]] + LinesOf(text[n..])
  }

  /** Nothing, or text with a newline at its end. */
  predicate Ended(text: string) {
    text == "" || text[|text| - 1] == '\n'
  }

  lemma {:induction false} StopWithin(a: string, rest: string, k: nat)
    requires a != "" && Ended(a) && k < |a| && k < MOST
    ensures LineStop(a + rest, k) == LineStop(a, k)
    decreases |a| - k
  {
    assert (a + rest)[k] == a[k];
    if a[k] != '\n' && k + 1 < MOST {
      StopWithin(a, rest, k + 1);
    }
  }

  /** What comes after a newline is on other lines. */
  lemma {:induction false} LinesConcat(a: string, rest: string)
    requires Ended(a)
    ensures LinesOf(a + rest) == LinesOf(a) + LinesOf(rest)
    decreases |a|
  {
    if a == "" {
      assert a + rest == rest && LinesOf(a) + LinesOf(rest) == LinesOf(rest);
    } else {
      var n := LineStop(a, 0);
      StopWithin(a, rest, 0);
      assert (a + rest)[..n] == a[..n] && (a + rest)[n..] == a[n..] + rest;
      LinesConcat(a[n..], rest);
      Regroup([a[..n]], LinesOf(a[n..]), LinesOf(rest));
    }
  }

  /** A text that is one line together with the newline behind it. */
  predicate Fits(s: string) {
    '\n' !in s && |s| < MOST
  }

  lemma {:induction false} StopAtNewline(text: string, k: nat, p: nat)
    requires k <= p < |text| && k <= MOST && text[p] == '\n'
    ensures LineStop(text, k) <= p + 1
    ensures '\n' !in text[k..p] && p < MOST ==> LineStop(text, k) == p + 1
    decreases p - k
  {
    if k < p && k < MOST {
      StopAtNewline(text, k + 1, p);
      assert text[k..p] == [text[k]] + text[k + 1..p];
    }
  }

  /** A text with a newline behind it is one line if and only if it fits. */
  lemma OneLineExactly(s: string)
    ensures |LinesOf(s + "\n")| == 1 <==> Fits(s)
    ensures Fits(s) <==> '\n' !in s && |s| < 65535
    ensures Fits(s) ==> LinesOf(s + "\n") == [s + "\n"]
  {
    var line := s + "\n";
    var n := LineStop(line, 0);
    assert line[0..|s|] == s;
    StopAtNewline(line, 0, |s|);
    if Fits(s) {
      assert line[..n] == line;
    } else {
      if '\n' in s {
        var p :| 0 <= p < |s| && s[p] == '\n';
        StopAtNewline(line, 0, p);
      }
      assert line[n..] != "";
    }
  }

  predicate IsLine(line: string) {
    0 < |line| <= MOST && '\n' !in line[..|line| - 1]
  }

  /** Lines end behind their newline or when they are full; only the last one may end before. */
  ghost predicate AreLines(lines: seq<string>) {
    && (forall k :: 0 <= k < |lines| ==> IsLine(lines[k]))
    && (forall k :: 0 <= k < |lines| - 1 ==> Ended(lines[k]) || |lines[k]| == MOST)
  }

  lemma {:induction false} StopExactly(text: string, k: nat, n: nat)
    requires k < n <= |text| && n <= MOST && '\n' !in text[k..n - 1]
    requires n == |text| || n == MOST || text[n - 1] == '\n'
    ensures LineStop(text, k) == n
    decreases n - k
  {
    if k + 1 < n {
      assert text[k..n - 1] == [text[k]] + text[k + 1..n - 1];
      StopExactly(text, k + 1, n);
    }
  }

  lemma {:induction false} StopMeans(text: string, k: nat)
    requires k < |text| && k < MOST
    ensures
      var n := LineStop(text, k);
      k < n && '\n' !in text[k..n - 1] && (n == |text| || n == MOST || text[n - 1] == '\n')
    decreases |text| - k
  {
    var n := LineStop(text, k);
    if text[k] != '\n' && k + 1 < |text| && k + 1 < MOST {
      StopMeans(text, k + 1);
      assert text[k..n - 1] == [text[k]] + text[k + 1..n - 1];
    }
  }

  /** The lines of a text are the only ones that make it up. */
  lemma {:induction false} LinesExactly(text: string, lines: seq<string>)
    ensures lines == LinesOf(text) <==> Flattened(lines) == text && AreLines(lines)
    decreases |text|
  {
    if text != "" {
      var n := LineStop(text, 0);
      StopMeans(text, 0);
      if lines != [] {
        var rest := lines[1..];
        assert lines == [lines[0]] + rest;
        if lines[0] == text[..n] {
          LinesExactly(text[n..], rest);
          LinesFrom(text, n, lines);
        } else if Flattened(lines) == text && AreLines(lines) {
          FirstLine(text, lines);
        }
      }
    }
  }

  lemma LinesFrom(text: string, n: nat, lines: seq<string>)
    requires 0 < n <= |text| && lines != [] && lines[0] == text[..n] && n == LineStop(text, 0)
    ensures Flattened(lines) == text <==> Flattened(lines[1..]) == text[n..]
    ensures Flattened(lines) == text ==> (AreLines(lines) <==> AreLines(lines[1..]))
  {
    hide AreLines, LineStop;
    StopMeans(text, 0);
    assert text == text[..n] + text[n..];
    assert Flattened(lines)[n..] == Flattened(lines[1..]);
    assert lines[0][..n - 1] == text[0..n - 1];
    if Flattened(lines) == text {
      MoreLines(lines);
      if n == |text| { assert Flattened(lines[1..]) == ""; }
    }
  }

  lemma MoreLines(lines: seq<string>)
    requires lines != [] && IsLine(lines[0])
    requires Flattened(lines[1..]) == "" || Ended(lines[0]) || |lines[0]| == MOST
    ensures AreLines(lines) <==> AreLines(lines[1..])
  {
    var rest := lines[1..];
    if AreLines(lines) {
      forall k | 0 <= k < |rest| ensures IsLine(rest[k]) { assert rest[k] == lines[k + 1]; }
      forall k | 0 <= k < |rest| - 1 ensures Ended(rest[k]) || |rest[k]| == MOST { assert rest[k] == lines[k + 1]; }
    }
    if AreLines(rest) {
      forall k | 0 <= k < |lines| ensures IsLine(lines[k]) { assert k > 0 ==> lines[k] == rest[k - 1]; }
      forall k | 0 <= k < |lines| - 1 ensures Ended(lines[k]) || |lines[k]| == MOST {
        assert k > 0 ==> lines[k] == rest[k - 1];
        assert IsLine(rest[0]);
      }
    }
  }

  lemma FirstLine(text: string, lines: seq<string>)
    requires lines != [] && Flattened(lines) == text && AreLines(lines)
    ensures lines[0] == text[..LineStop(text, 0)]
  {
    var n := |lines[0]|;
    assert text[0..n - 1] == lines[0][..n - 1] && text[..n] == lines[0] && text[n - 1] == lines[0][n - 1];
    if lines[1..] == [] { assert text == lines[0]; }
    StopExactly(text, 0, n);
  }

  // ----- What is read of a file -----

  /** Five lines of flags, or the program stops with an error.  A lone hyphen at
      the end of the text is not read. */
  datatype Reading = Read(flags: Flags) | Stop | Unread

  /** The flags of the first lines, no more than `n`; or what else comes first. */
  datatype Several = All(flags: seq<seq<string>>) | Wrong | Never

  function SeveralFlags(lines: seq<string>, n: nat): (s: Several)
    ensures s.All? ==> |s.flags| == if |lines| < n then |lines| else n
    ensures s.All? <==> forall k :: 0 <= k < |lines| && k < n ==> FlagText.ReadFlags(lines[k], 0).Flags?
    ensures s.All? ==> forall k :: 0 <= k < |s.flags| ==> FlagText.ReadFlags(lines[k], 0) == FlagText.Flags(s.flags[k])
  {
    if n == 0 || lines == [] then All([])
    else
      match FlagText.ReadFlags(lines[0], 0)
      case Stop => Wrong
      case Unread => Never
      case Flags(flags) =>
        var rest := SeveralFlags(lines[1..], n - 1);
        if rest.All? then All([flags] + rest.flags) else rest
  }

  function FileFlags(lines: seq<string>): (r: Reading) {
    match SeveralFlags(lines, 5)
    case Wrong => Stop
    case Never => Unread
    case All(s) => if |lines| == 5 then Read(Flags(s[0], s[1], s[2], s[3], s[4])) else Stop
  }

  function TextFlags(text: string): (r: Reading) {
    FileFlags(LinesOf(text))
  }

  /** A file is read if it has five lines of flags, one for each variable. */
  lemma ReadExactly(text: string, f: Flags)
    ensures
      var lines := LinesOf(text);
      TextFlags(text) == Read(f) <==>
        && |lines| == 5
        && FlagText.ReadFlags(lines[0], 0) == FlagText.Flags(f.cc)
        && FlagText.ReadFlags(lines[1], 0) == FlagText.Flags(f.cppflags)
        && FlagText.ReadFlags(lines[2], 0) == FlagText.Flags(f.cflags)
        && FlagText.ReadFlags(lines[3], 0) == FlagText.Flags(f.ldflags)
        && FlagText.ReadFlags(lines[4], 0) == FlagText.Flags(f.libs)
  {
    hide FlagText.ReadFlags, LinesOf;
  }

  /** What is read with lines that were read before. */
  function After(read: seq<seq<string>>, s: Several): (r: Several) {
    if s.All? then All(read + s.flags) else s
  }

  lemma LineRead(read: seq<seq<string>>, flags: seq<string>, lines: seq<string>, n: nat)
    requires lines != [] && n > 0 && FlagText.ReadFlags(lines[0], 0) == FlagText.Flags(flags)
    ensures After(read, SeveralFlags(lines, n)) == After(read + [flags], SeveralFlags(lines[1..], n - 1))
  {
    hide FlagText.ReadFlags;
    var rest := SeveralFlags(lines[1..], n - 1);
    if rest.All? { Regroup(read, [flags], rest.flags); }
  }

  lemma NextLine(text: string)
    requires text != ""
    ensures
      var n := LineStop(text, 0);
      0 < n && LinesOf(text)[0] == text[..n] && LinesOf(text)[1..] == LinesOf(text[n..])
  {
  }

  lemma NoMoreRead(read: seq<seq<string>>, lines: seq<string>, n: nat)
    requires lines == [] || n == 0
    ensures After(read, SeveralFlags(lines, n)) == All(read)
  {
    assert read + [] == read;
  }

  lemma WrongRead(read: seq<seq<string>>, lines: seq<string>, n: nat)
    requires lines != [] && n > 0 && !FlagText.ReadFlags(lines[0], 0).Flags?
    ensures After(read, SeveralFlags(lines, n)) == if FlagText.ReadFlags(lines[0], 0).Stop? then Wrong else Never
  {
    hide FlagText.ReadFlags;
  }

  /** Reads a file line by line. */
  method ReadFile(text: string) returns (r: Reading)
    requires TextFlags(text) != Unread
    ensures r == TextFlags(text)
  {
    hide FlagText.ReadFlags, LineStop, LinesOf, SeveralFlags;
    var read: seq<seq<string>> := [];
    var rest := text;
    var i := 0;
    ghost var all := SeveralFlags(LinesOf(text), 5);
    assert all.All? ==> [] + all.flags == all.flags;
    while true
      invariant i == |read| && i <= 5 && i + |LinesOf(rest)| == |LinesOf(text)|
      invariant all == After(read, SeveralFlags(LinesOf(rest), 5 - i))
      decreases |rest|
    {
      if rest == "" {
        break;
      }
      var n := LineStop(rest, 0);
      if i == 5 {
        NoMoreRead(read, LinesOf(rest), 0);
        i := i + 1;
        break;
      }
      NextLine(rest);
      if !FlagText.ReadFlags(rest[..n], 0).Flags? {
        WrongRead(read, LinesOf(rest), 5 - i);
      }
      var line := FlagText.ReadLine(rest[..n]);
      if line.Stop? {
        return Stop;
      }
      LineRead(read, line.flags, LinesOf(rest), 5 - i);
      read := read + [line.flags];
      rest := rest[n..];
      i := i + 1;
    }
    if i != 5 {
      NoMoreRead(read, LinesOf(rest), if i > 5 then 0 else 5 - i);
      return Stop;
    }
    NoMoreRead(read, LinesOf(rest), 0);
    r := Read(Flags(read[0], read[1], read[2], read[3], read[4]));
  }

  // ----- Merging files -----

  ghost function FilesFlags(texts: seq<string>): (r: seq<Flags>)
    requires forall i :: 0 <= i < |texts| ==> TextFlags(texts[i]).Read?
  {
    seq(|texts|, i requires 0 <= i < |texts| => TextFlags(texts[i]).flags)
  }

  /** No file is one that the code reads past the end of, unless it stops before that. */
  ghost predicate ReadUntilStop(texts: seq<string>) {
    forall i :: 0 <= i < |texts| && TextFlags(texts[i]).Unread? ==> exists j :: 0 <= j < i && TextFlags(texts[j]).Stop?
  }

  /** Every line of the bucket has the flags of its variable, each followed by a space. */
  ghost predicate IsBucketOf(files: seq<Flags>, b: Bucket) {
    exists out :: IsMerged(files, out)
      && b == Bucket(FlagText.Joined(out.cc), FlagText.Joined(out.cppflags), FlagText.Joined(out.cflags),
                     FlagText.Joined(out.ldflags), FlagText.Joined(out.libs))
  }

  /** Merges files: either one of them is wrong and the program stops, or the flags of all are merged. */
  method MergeFiles(texts: seq<string>) returns (ok: bool, bucket: Bucket)
    requires ReadUntilStop(texts)
    ensures ok <==> forall i :: 0 <= i < |texts| ==> TextFlags(texts[i]).Read?
    ensures ok ==> bucket == Written(Merged(FilesFlags(texts))) && IsBucketOf(FilesFlags(texts), bucket)
  {
    hide TextFlags, Merged, IsMerged;
    bucket := Bucket("", "", "", "", "");
    var read := [];
    var idx := 0;
    while idx < |texts|
      invariant 0 <= idx <= |texts| && |read| == idx
      invariant forall i :: 0 <= i < idx ==> TextFlags(texts[i]) == Read(read[i])
    {
      var r := ReadFile(texts[idx]);
      if r.Stop? {
        return false, bucket;
      }
      read := read + [r.flags];
      idx := idx + 1;
    }
    assert read == FilesFlags(texts);
    ok := true;
    bucket := MergeFlags(read);
    MergedIs(read);
  }

  /** A line for each variable. */
  function BucketText(b: Bucket): (text: string) {
    b.cc + "\n" + (b.cppflags + "\n" + (b.cflags + "\n" + (b.ldflags + "\n" + (b.libs + "\n"))))
  }

  /** The text of the file that is written for flags. */
  function FileText(f: Flags): (text: string) {
    BucketText(Written(f))
  }

  /** The merging program: from the texts of files to the text that it prints. */
  method MergeTexts(texts: seq<string>) returns (ok: bool, text: string)
    requires ReadUntilStop(texts)
    ensures ok <==> forall i :: 0 <= i < |texts| ==> TextFlags(texts[i]).Read?
    ensures ok ==> text == FileText(Merged(FilesFlags(texts)))
    ensures ok ==>
      exists b ::
        && IsBucketOf(FilesFlags(texts), b)
        && text == b.cc + "\n" + (b.cppflags + "\n" + (b.cflags + "\n" + (b.ldflags + "\n" + (b.libs + "\n"))))
  {
    hide TextFlags, Merged, Written, IsBucketOf;
    var bucket;
    ok, bucket := MergeFiles(texts);
    text := BucketText(bucket);
  }

  // ----- Files that read back as the flags that were written -----

  /** The flags of each line are settled, but the last one may be just a name. */
  predicate AllSettled(f: Flags) {
    && FlagText.LineSettled(f.cc) && FlagText.LineSettled(f.cppflags) && FlagText.LineSettled(f.cflags)
    && FlagText.LineSettled(f.ldflags) && FlagText.LineSettled(f.libs)
  }

  /** No flag has a newline in it, and the line of all is not too long. */
  predicate LineFits(flags: seq<string>) {
    (forall k :: 0 <= k < |flags| ==> '\n' !in flags[k]) && |FlagText.Joined(flags)| < MOST
  }

  predicate AllFit(f: Flags) {
    LineFits(f.cc) && LineFits(f.cppflags) && LineFits(f.cflags) && LineFits(f.ldflags) && LineFits(f.libs)
  }

  lemma {:induction false} JoinedNewline(flags: seq<string>)
    ensures '\n' in FlagText.Joined(flags) <==> exists k :: 0 <= k < |flags| && '\n' in flags[k]
  {
    if flags != [] {
      JoinedNewline(flags[1..]);
      if k :| 0 <= k < |flags| && '\n' in flags[k] {
        assert k > 0 ==> flags[1..][k - 1] == flags[k];
      }
      if k :| 0 <= k < |flags[1..]| && '\n' in flags[1..][k] {
        assert flags[k + 1] == flags[1..][k];
      }
    }
  }

  /** The lines of text after text, each with a newline behind it. */
  lemma LinesCons(s: string, rest: string)
    ensures LinesOf(s + "\n" + rest) == LinesOf(s + "\n") + LinesOf(rest)
    ensures |LinesOf(s + "\n")| >= 1
    ensures Fits(s) ==> LinesOf(s + "\n" + rest) == [s + "\n"] + LinesOf(rest)
  {
    LinesConcat(s + "\n", rest);
    OneLineExactly(s);
  }

  /** Five texts with newlines are five lines if and only if each of them fits. */
  lemma FiveLines(b: Bucket)
    ensures |LinesOf(BucketText(b))| == 5 <==>
      Fits(b.cc) && Fits(b.cppflags) && Fits(b.cflags) && Fits(b.ldflags) && Fits(b.libs)
    ensures |LinesOf(BucketText(b))| == 5 ==>
      LinesOf(BucketText(b)) == [b.cc + "\n", b.cppflags + "\n", b.cflags + "\n", b.ldflags + "\n", b.libs + "\n"]
    ensures |LinesOf(BucketText(b))| >= 5
  {
    hide LinesOf, Fits;
    var t4 := b.libs + "\n";
    var t3 := b.ldflags + "\n" + t4;
    var t2 := b.cflags + "\n" + t3;
    var t1 := b.cppflags + "\n" + t2;
    LinesCons(b.cc, t1);
    LinesCons(b.cppflags, t2);
    LinesCons(b.cflags, t3);
    LinesCons(b.ldflags, t4);
    OneLineExactly(b.cc);
    OneLineExactly(b.cppflags);
    OneLineExactly(b.cflags);
    OneLineExactly(b.ldflags);
    OneLineExactly(b.libs);
    LinesCons(b.libs, "");
  }

  lemma FitsExactly(flags: seq<string>)
    ensures Fits(FlagText.Joined(flags)) <==> LineFits(flags)
  {
    JoinedNewline(flags);
  }

  lemma LineReads(flags: seq<string>)
    ensures FlagText.ReadFlags(FlagText.Joined(flags) + "\n", 0) == FlagText.Flags(flags) <==> FlagText.LineSettled(flags)
  {
    var line := FlagText.Joined(flags) + "\n";
    assert line[0..] == line;
    FlagText.JoinedReads(line, 0, flags, "\n");
  }

  /** The file that was written reads back as the flags that were written if and
      only if no flag has a newline in it, no line is too long, and every flag
      is settled, but the last one of a line may be just a name. */
  lemma WrittenReads(f: Flags)
    ensures TextFlags(FileText(f)) == Read(f) <==> AllSettled(f) && AllFit(f)
  {
    hide FlagText.ReadFlags, FlagText.Joined, FlagText.LineSettled, LinesOf, Fits, LineFits;
    FiveLines(Written(f));
    FitsExactly(f.cc);
    FitsExactly(f.cppflags);
    FitsExactly(f.cflags);
    FitsExactly(f.ldflags);
    FitsExactly(f.libs);
    LineReads(f.cc);
    LineReads(f.cppflags);
    LineReads(f.cflags);
    LineReads(f.ldflags);
    LineReads(f.libs);
  }

  /** A merged file that reads back, merged alone, is written the same again. */
  lemma MergedFileAgain(files: seq<Flags>)
    requires AllSettled(Merged(files)) && AllFit(Merged(files))
    ensures
      var text := FileText(Merged(files));
      TextFlags(text).Read? && FileText(Merged([TextFlags(text).flags])) == text
  {
    hide Merged, Written, TextFlags, AllSettled, AllFit;
    WrittenReads(Merged(files));
    MergedTwice(files);
  }

  lemma BlankLineReads(line: string)
    requires line == "\n" || line == " \n"
    ensures FlagText.ReadFlags(line, 0) == FlagText.Flags([])
  {
    assert line[0..] == FlagText.Joined([]) + line;
    FlagText.NothingRead(line);
    FlagText.ReadsOn(line, |line| - 1);
    if |line| == 2 { FlagText.ReadsOn(line, 0); }
  }

  lemma KeptReads(line: string)
    requires line == "a\\\n" || line == "-\n"
    ensures FlagText.ReadFlags(line, 0) == FlagText.Flags([line]) && FlagText.LineSettled([line])
  {
    FlagText.NothingRead(line);
    if line == "-\n" {
      assert line[0..2] + line[2..2] == line;
      assert FlagText.NameAt(line, 0) == FlagText.Name(2, true);
    } else {
      KeptWord(line);
      assert line[0..0] + line[0..3] == line && line[0..] == line;
    }
    assert FlagText.ReadFlag(line, 0) == FlagText.Flag(line, |line|);
    FlagText.OneRead(line, 0, line, |line|);
  }

  lemma KeptWord(line: string)
    requires line == "a\\\n"
    ensures FlagText.WordEnd(line, 0) == 3 && FlagText.NameAt(line, 0) == FlagText.Name(0, true)
  {
    assert FlagText.WordEnd(line, 3) == 3;
    assert FlagText.WordEnd(line, 1) == 3;
  }

  lemma SingleLine(line: string)
    requires line != "" && Ended(line) && Fits(line[..|line| - 1])
    ensures LinesOf(line) == [line]
  {
    hide LinesOf, Fits;
    var s := line[..|line| - 1];
    assert line == s + "\n";
    OneLineExactly(s);
  }

  lemma FourLines()
    ensures LinesOf("\n\n\n\n") == ["\n", "\n", "\n", "\n"]
  {
    SingleLine("\n");
    LinesConcat("\n", "\n");
    LinesConcat("\n", "\n\n");
    LinesConcat("\n", "\n\n\n");
    assert "\n" + "\n" == "\n\n" && "\n" + "\n\n" == "\n\n\n" && "\n" + "\n\n\n" == "\n\n\n\n";
  }

  lemma LineAndMore(flag: string, tail: string)
    requires |flag| < MOST && flag != "" && Ended(flag) && '\n' !in flag[..|flag| - 1]
    ensures LinesOf(flag + tail) == [flag] + LinesOf(tail)
  {
    hide LinesOf;
    SingleLine(flag);
    LinesConcat(flag, tail);
  }

  lemma SixLines(flag: string, tail: string)
    requires |flag| < MOST && flag != "" && Ended(flag) && '\n' !in flag[..|flag| - 1]
    ensures LinesOf(flag + tail) == [flag] + LinesOf(tail)
    ensures LinesOf(flag + " \n" + tail) == [flag] + ([" \n"] + LinesOf(tail))
  {
    hide LinesOf;
    LineAndMore(flag, tail);
    LineAndMore(" \n", tail);
    LineAndMore(flag, " \n" + tail);
    Regroup(flag, " \n", tail);
  }

  lemma MergedAlone(flag: string)
    ensures Merged([Flags([flag], [], [], [], [])]) == Flags([flag], [], [], [], [])
  {
    hide Surviving;
    var f := Flags([flag], [], [], [], []);
    OneLine(f, CcOf);
    OneLine(f, CppflagsOf);
    OneLine(f, CflagsOf);
    OneLine(f, LdflagsOf);
    OneLine(f, LibsOf);
    FirstOnlyOfDistinct([flag]);
    FirstOnlyOfDistinct<string>([]);
    LastOnlyOfDistinct<string>([]);
    AllSurvive([], 0);
    assert Numbered([])[..0] == [];
  }

  lemma OneFlagText(flag: string)
    ensures FileText(Flags([flag], [], [], [], [])) == flag + " \n" + "\n\n\n\n"
  {
    assert FlagText.Joined([flag]) == flag + " ";
    assert FlagText.Joined([]) == "";
  }

  /** A backslash or a lone hyphen at the end of a line keeps the newline in the
      flag: such a file is read, and merged alone it is written as six lines,
      with which the program stops. */
  lemma NewlineKept(flag: string)
    requires flag == "a\\\n" || flag == "-\n"
    ensures
      var f := Flags([flag], [], [], [], []);
      && TextFlags(flag + "\n\n\n\n") == Read(f) && Merged([f]) == f && AllSettled(f)
      && TextFlags(FileText(f)) == Stop
  {
    hide FlagText.ReadFlags, LinesOf, Merged, FileText;
    var f := Flags([flag], [], [], [], []);
    KeptReads(flag);
    BlankLineReads("\n");
    BlankLineReads(" \n");
    FourLines();
    SixLines(flag, "\n\n\n\n");
    MergedAlone(flag);
    OneFlagText(flag);
  }
}
