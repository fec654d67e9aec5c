/** What a user can rely on at the keyboard: the meaning of every line the shell is given, and of
    the keys that type it, said without the parser, the editor and the file system's own terms. */
module ShellCommands {
  import opened Strings
  import opened RamFs
  import opened LineEditor
  import opened Shell
  import Command
  import ShellRuns

  // ----- names and words -----

  /** One to 31 letters, digits, dots, underscores and hyphens, other than the two dot names. */
  predicate PlainName(n: string) {
    && 1 <= |n| <= 31 && n != "." && n != ".."
    && forall i :: 0 <= i < |n| ==>
         'a' <= n[i] <= 'z' || 'A' <= n[i] <= 'Z' || '0' <= n[i] <= '9' || n[i] == '.' || n[i] == '_' || n[i] == '-'
  }

  lemma {:induction false} ValidIsPlain(n: string)
    ensures ValidName(n) <==> PlainName(n)
  {
  }

  predicate Spaces(gap: string) {
    forall i :: 0 <= i < |gap| ==> gap[i] == ' ' || gap[i] == '\t'
  }

  predicate OneWord(t: string) {
    t != "" && forall i :: 0 <= i < |t| ==> t[i] != ' ' && t[i] != '\t'
  }

  predicate WordsOnly(ts: seq<string>) {
    forall i :: 0 <= i < |ts| ==> OneWord(ts[i])
  }

  /** At most nine words of at most 31 characters. */
  predicate Fitting(ts: seq<string>) {
    |ts| <= 9 && forall i :: 0 <= i < |ts| ==> |ts[i]| <= 31
  }

  // ----- command names -----

  function NameOf(kind: Command.Kind): string
    requires kind != Command.Unknown
  {
    match kind
    case Help => "help"
    case Clear => "clear"
    case Echo => "echo"
    case Ls => "ls"
    case Cat => "cat"
    case Touch => "touch"
    case Write => "write"
    case Append => "append"
    case Rm => "rm"
    case Status => "status"
    case About => "about"
  }

  /** Eleven commands, each with one name; nothing else is a command. */
  lemma {:induction false} NamesAreUnique(name: string, kind: Command.Kind)
    ensures kind != Command.Unknown ==> (Command.KindOf(name) == kind <==> name == NameOf(kind))
  {
    assert "help"[0] == 'h' && "clear"[1] == 'l' && "echo"[0] == 'e' && "ls"[0] == 'l' && "cat"[1] == 'a';
    assert "touch"[0] == 't' && "write"[0] == 'w' && "append"[1] == 'p' && "rm"[0] == 'r' && "status"[0] == 's';
    assert "about"[1] == 'b';
  }

  // ----- the meaning of a line -----

  /** The words of append's text, after a space if the file has content already. */
  function Extended(content: string, words: seq<string>): string {
    if content == "" then Command.Join(words) else content + " " + Command.Join(words)
  }

  /** What a line of these words does to the files. */
  function Meaning(fs: Files, ts: seq<string>): Files {
    if ts == [] || !Fitting(ts) then fs
    else if ts[0] == "touch" && |ts| == 2 then
      if PlainName(ts[1]) && ts[1] !in fs && |fs| < 16 then fs[ts[1] := ""] else fs
    else if ts[0] == "rm" && |ts| == 2 then fs - {ts[1]}
    else if ts[0] == "write" && |ts| >= 3 then
      if ts[1] in fs then fs[ts[1] := Command.Join(ts[2..])] else fs
    else if ts[0] == "append" && |ts| >= 3 then
      if ts[1] in fs && |Extended(fs[ts[1]], ts[2..])| <= 512 then fs[ts[1] := Extended(fs[ts[1]], ts[2..])] else fs
    else fs
  }

  lemma {:induction false} VerdictIsFitting(ts: seq<string>)
    ensures Command.Verdict(ts) == Command.Parsed <==> ts != [] && Fitting(ts)
  {
    if Command.Verdict(ts) == Command.Parsed {
      assert !Command.SomeLong(ts, 9);
    }
  }

  lemma {:induction false} NoChange(fs: Files, line: string, ts: seq<string>)
    requires Command.Tokens(line) == ts && (ts == [] || !Fitting(ts))
    ensures RunLine(fs, line) == fs
  {
    VerdictIsFitting(ts);
  }

  lemma {:induction false} RunsAs(fs: Files, line: string, ts: seq<string>, kind: Command.Kind)
    requires Command.Tokens(line) == ts && ts != [] && Fitting(ts) && Command.KindOf(ts[0]) == kind
    ensures RunLine(fs, line)
            == if Command.HasValidArity(kind, |ts| - 1) then Execute(fs, kind, ts[1..]) else fs
  {
    VerdictIsFitting(ts);
  }

  lemma {:induction false} RunTouch(fs: Files, line: string, ts: seq<string>)
    requires FilesOk(fs) && Command.Tokens(line) == ts && ts != [] && Fitting(ts) && ts[0] == "touch"
    ensures RunLine(fs, line) == Meaning(fs, ts)
  {
    NamesAreUnique(ts[0], Command.Touch);
    RunsAs(fs, line, ts, Command.Touch);
    if |ts| == 2 {
      ValidIsPlain(ts[1]);
    }
  }

  lemma {:induction false} RunRm(fs: Files, line: string, ts: seq<string>)
    requires FilesOk(fs) && Command.Tokens(line) == ts && ts != [] && Fitting(ts) && ts[0] == "rm"
    ensures RunLine(fs, line) == Meaning(fs, ts)
  {
    NamesAreUnique(ts[0], Command.Rm);
    RunsAs(fs, line, ts, Command.Rm);
    if |ts| == 2 {
      RemovedIsWithout(fs, ts[1]);
    }
  }

  lemma {:induction false} RemovedIsWithout(fs: Files, n: string)
    requires FilesOk(fs)
    ensures Removed(fs, n) == fs - {n}
  {
    if n !in fs {
      assert fs - {n} == fs;
    }
  }

  lemma {:induction false} RunWrite(fs: Files, line: string, ts: seq<string>)
    requires FilesOk(fs) && Command.Tokens(line) == ts && ts != [] && Fitting(ts) && ts[0] == "write"
    ensures RunLine(fs, line) == Meaning(fs, ts)
  {
    NamesAreUnique(ts[0], Command.Write);
    RunsAs(fs, line, ts, Command.Write);
    if |ts| >= 3 {
      assert ts[1..][1..] == ts[2..];
      Command.JoinLength(ts[2..]);
    }
  }

  lemma {:induction false} RunAppend(fs: Files, line: string, ts: seq<string>)
    requires FilesOk(fs) && Command.Tokens(line) == ts && ts != [] && Fitting(ts) && ts[0] == "append"
    ensures RunLine(fs, line) == Meaning(fs, ts)
  {
    NamesAreUnique(ts[0], Command.Append);
    RunsAs(fs, line, ts, Command.Append);
    if |ts| >= 3 && ts[1] in fs {
      assert ts[1..][1..] == ts[2..];
      AppendExtends(fs, ts[1], ts[2..]);
    }
  }

  lemma {:induction false} AppendExtends(fs: Files, name: string, words: seq<string>)
    requires name in fs
    ensures fs[name] + AppendText(fs, name, words) == Extended(fs[name], words)
  {
  }

  lemma {:induction false} RunOther(fs: Files, line: string, ts: seq<string>)
    requires Command.Tokens(line) == ts && ts != [] && ts[0] !in {"touch", "rm", "write", "append"}
    ensures RunLine(fs, line) == fs
  {
    VerdictIsFitting(ts);
    NamesAreUnique(ts[0], Command.Touch);
    NamesAreUnique(ts[0], Command.Rm);
    NamesAreUnique(ts[0], Command.Write);
    NamesAreUnique(ts[0], Command.Append);
  }

  lemma {:induction false} TokensMean(fs: Files, line: string, ts: seq<string>)
    requires FilesOk(fs) && Command.Tokens(line) == ts
    ensures RunLine(fs, line) == Meaning(fs, ts)
  {
    if ts == [] || !Fitting(ts) {
      NoChange(fs, line, ts);
    } else if ts[0] == "touch" {
      RunTouch(fs, line, ts);
    } else if ts[0] == "rm" {
      RunRm(fs, line, ts);
    } else if ts[0] == "write" {
      RunWrite(fs, line, ts);
    } else if ts[0] == "append" {
      RunAppend(fs, line, ts);
    } else {
      RunOther(fs, line, ts);
    }
  }

  /** A line is words with spaces and tabs around them; however it is spaced it does what its
      words mean, to any files. */
  lemma {:induction false} EveryLineMeans(fs: Files, gaps: seq<string>, ts: seq<string>)
    requires FilesOk(fs) && |gaps| == |ts| + 1 && WordsOnly(ts)
    requires (forall i :: 0 <= i < |gaps| ==> Spaces(gaps[i])) && forall i :: 0 < i < |gaps| - 1 ==> gaps[i] != ""
    ensures RunLine(fs, Command.Weave(gaps, ts)) == Meaning(fs, ts)
  {
    forall i | 0 <= i < |gaps| ensures Command.Blank(gaps[i]) {
      assert Spaces(gaps[i]);
    }
    forall i | 0 <= i < |ts| ensures Command.Unbroken(ts[i]) {
      assert OneWord(ts[i]);
    }
    Command.TokensOfWeave(gaps, ts);
    TokensMean(fs, Command.Weave(gaps, ts), ts);
  }

  lemma {:induction false} JoinedMeans(fs: Files, ts: seq<string>)
    requires FilesOk(fs) && WordsOnly(ts) && forall i :: 0 <= i < |ts| ==> NUL !in ts[i]
    ensures RunLine(fs, Command.Join(ts)) == Meaning(fs, ts)
  {
    forall i | 0 <= i < |ts| ensures Command.Legal(ts[i]) {
      assert OneWord(ts[i]);
    }
    Command.TokensOfJoin(ts);
    TokensMean(fs, Command.Join(ts), ts);
  }

  // ----- the four commands that change files -----

  lemma {:induction false} TouchLine(fs: Files, n: string)
    requires FilesOk(fs) && OneWord(n) && NUL !in n
    ensures RunLine(fs, "touch " + n) == if PlainName(n) && n !in fs && |fs| < 16 then fs[n := ""] else fs
  {
    var ts := ["touch", n];
    assert Command.Join(ts) == "touch" + " " + Command.Join(ts[1..]) && ts[1..] == [n];
    assert "touch" + " " + n == "touch " + n;
    JoinedMeans(fs, ts);
  }

  lemma {:induction false} RmLine(fs: Files, n: string)
    requires FilesOk(fs) && OneWord(n) && NUL !in n
    ensures RunLine(fs, "rm " + n) == fs - {n}
  {
    var ts := ["rm", n];
    assert Command.Join(ts) == "rm" + " " + Command.Join(ts[1..]) && ts[1..] == [n];
    assert "rm" + " " + n == "rm " + n;
    JoinedMeans(fs, ts);
    if |n| > 31 {
      assert n !in fs;
      assert fs - {n} == fs;
    }
  }

  /** The words of a text, as the shell is given them. */
  predicate TextWords(words: seq<string>) {
    |words| >= 1 && WordsOnly(words) && forall i :: 0 <= i < |words| ==> NUL !in words[i]
  }

  lemma {:induction false} WriteLine(fs: Files, n: string, words: seq<string>)
    requires FilesOk(fs) && OneWord(n) && NUL !in n && TextWords(words)
    ensures RunLine(fs, "write " + n + " " + Command.Join(words))
            == if n in fs && Fitting(words) && |words| <= 7 then fs[n := Command.Join(words)] else fs
  {
    JoinThree("write", n, words);
    assert "write" + " " + n == "write " + n;
    JoinedMeans(fs, ["write", n] + words);
    WriteMeans(fs, n, words);
  }

  lemma {:induction false} WriteMeans(fs: Files, n: string, words: seq<string>)
    requires FilesOk(fs) && words != []
    ensures Meaning(fs, ["write", n] + words)
            == if n in fs && Fitting(words) && |words| <= 7 then fs[n := Command.Join(words)] else fs
  {
    FittingThree("write", n, words);
  }

  lemma {:induction false} AppendLine(fs: Files, n: string, words: seq<string>)
    requires FilesOk(fs) && OneWord(n) && NUL !in n && TextWords(words)
    ensures RunLine(fs, "append " + n + " " + Command.Join(words))
            == if n in fs && Fitting(words) && |words| <= 7 && |Extended(fs[n], words)| <= 512
               then fs[n := Extended(fs[n], words)] else fs
  {
    JoinThree("append", n, words);
    assert "append" + " " + n == "append " + n;
    JoinedMeans(fs, ["append", n] + words);
    AppendMeans(fs, n, words);
  }

  lemma {:induction false} AppendMeans(fs: Files, n: string, words: seq<string>)
    requires FilesOk(fs) && words != []
    ensures Meaning(fs, ["append", n] + words)
            == if n in fs && Fitting(words) && |words| <= 7 && |Extended(fs[n], words)| <= 512
               then fs[n := Extended(fs[n], words)] else fs
  {
    FittingThree("append", n, words);
  }

  lemma {:induction false} JoinThree(c: string, n: string, words: seq<string>)
    requires words != []
    ensures Command.Join([c, n] + words) == c + " " + n + " " + Command.Join(words)
  {
    var ts := [c, n] + words;
    assert ts[1..] == [n] + words && ts[1..][1..] == words;
    assert c + " " + (n + " " + Command.Join(words)) == c + " " + n + " " + Command.Join(words);
  }

  lemma {:induction false} FittingThree(c: string, n: string, words: seq<string>)
    requires |c| <= 31
    ensures Fitting([c, n] + words) <==> |n| <= 31 && |words| <= 7 && Fitting(words)
    ensures ([c, n] + words)[2..] == words
  {
    var ts := [c, n] + words;
    assert ts[0] == c && ts[1] == n && forall i :: 0 <= i < |words| ==> ts[i + 2] == words[i];
  }

  /** Any other first word leaves the files alone, and so does a line without words. */
  lemma {:induction false} OtherLine(fs: Files, gaps: seq<string>, ts: seq<string>)
    requires FilesOk(fs) && |gaps| == |ts| + 1 && WordsOnly(ts)
    requires (forall i :: 0 <= i < |gaps| ==> Spaces(gaps[i])) && forall i :: 0 < i < |gaps| - 1 ==> gaps[i] != ""
    requires ts == [] || (ts[0] != "touch" && ts[0] != "rm" && ts[0] != "write" && ts[0] != "append")
    ensures RunLine(fs, Command.Weave(gaps, ts)) == fs
  {
    EveryLineMeans(fs, gaps, ts);
  }

  // ----- from the keyboard -----

  predicate Printable(t: string) {
    forall i :: 0 <= i < |t| ==> ' ' <= t[i] <= '~'
  }

  /** What one more key makes of the line typed so far. */
  lemma {:induction false} TypedOneMore(keys: seq<char>, c: char)
    ensures var t := Typed(keys);
            Typed(keys + [c]) ==
            if c == '\U{0008}' then (if t == "" then "" else t[..|t| - 1])
            else if ' ' <= c <= '~' && |t| < 127 then t + [c]
            else t
  {
    assert (keys + [c])[..|keys|] == keys;
  }

  /** Printable keys stand on the line as typed, as long as they fit. */
  lemma {:induction false} TypedVerbatim(t: string)
    requires |t| <= 127 && Printable(t)
    ensures Typed(t) == t
  {
    if t != "" {
      var last := |t| - 1;
      TypedVerbatim(t[..last]);
      TypedOneMore(t[..last], t[last]);
      assert t[..last] + [t[last]] == t;
    }
  }

  lemma {:induction false} TypingShows(s: State, t: string)
    requires s.text == "" && |t| <= 127 && Printable(t)
    ensures OnChars(s, t) == State(t, s.files)
  {
    if t != "" {
      var last := |t| - 1;
      TypingShows(s, t[..last]);
      assert t[..last] + [t[last]] == t;
    }
  }

  /** A printable line of at most 127 characters and Enter, as newline or carriage return: the
      prompt is empty again and the files are what the line makes of them. */
  lemma {:induction false} TypedLineRuns(fs: Files, t: string, end: char)
    requires |t| <= 127 && Printable(t) && (end == '\n' || end == '\r')
    ensures OnChars(State("", fs), t + [end]) == State("", RunLine(fs, t))
  {
    TypingShows(State("", fs), t);
    assert (t + [end])[..|t|] == t;
  }

  /** Typing a command: from any files, the keys of each of the four commands and Enter. */
  lemma {:induction false} TypedWrite(fs: Files, n: string, words: seq<string>, end: char)
    requires FilesOk(fs) && OneWord(n) && NUL !in n && TextWords(words) && (end == '\n' || end == '\r')
    requires var t := "write " + n + " " + Command.Join(words); |t| <= 127 && Printable(t)
    ensures OnChars(State("", fs), "write " + n + " " + Command.Join(words) + [end])
            == State("", if n in fs && Fitting(words) && |words| <= 7 then fs[n := Command.Join(words)] else fs)
  {
    WriteLine(fs, n, words);
    TypedLineRuns(fs, "write " + n + " " + Command.Join(words), end);
  }

  lemma {:induction false} TypedAppend(fs: Files, n: string, words: seq<string>, end: char)
    requires FilesOk(fs) && OneWord(n) && NUL !in n && TextWords(words) && (end == '\n' || end == '\r')
    requires var t := "append " + n + " " + Command.Join(words); |t| <= 127 && Printable(t)
    ensures OnChars(State("", fs), "append " + n + " " + Command.Join(words) + [end])
            == State("", if n in fs && Fitting(words) && |words| <= 7 && |Extended(fs[n], words)| <= 512
                         then fs[n := Extended(fs[n], words)] else fs)
  {
    AppendLine(fs, n, words);
    TypedLineRuns(fs, "append " + n + " " + Command.Join(words), end);
  }

  lemma {:induction false} TypedTouch(fs: Files, n: string, end: char)
    requires FilesOk(fs) && OneWord(n) && Printable(n) && |n| <= 121 && (end == '\n' || end == '\r')
    ensures OnChars(State("", fs), "touch " + n + [end])
            == State("", if PlainName(n) && n !in fs && |fs| < 16 then fs[n := ""] else fs)
  {
    TouchLine(fs, n);
    TypedLineRuns(fs, "touch " + n, end);
  }

  lemma {:induction false} TypedRm(fs: Files, n: string, end: char)
    requires FilesOk(fs) && OneWord(n) && Printable(n) && |n| <= 124 && (end == '\n' || end == '\r')
    ensures OnChars(State("", fs), "rm " + n + [end]) == State("", fs - {n})
  {
    RmLine(fs, n);
    TypedLineRuns(fs, "rm " + n, end);
  }

  // ----- whole sessions -----

  lemma {:induction false} KeysInTwoParts(s: State, a: seq<char>, b: seq<char>)
    ensures OnChars(s, a + b) == OnChars(OnChars(s, a), b)
  {
    if b == [] {
      assert a + b == a;
    } else {
      var last := |b| - 1;
      KeysInTwoParts(s, a, b[..last]);
      assert (a + b)[..|a + b| - 1] == a + b[..last];
    }
  }

  /** A line as the keyboard delivers it: words that can be typed on one line. */
  predicate Typeable(ts: seq<string>) {
    && WordsOnly(ts) && (forall i :: 0 <= i < |ts| ==> NUL !in ts[i])
    && |Command.Join(ts)| <= 127 && Printable(Command.Join(ts))
  }

  /** The keys of a session: each line with single spaces, then Enter. */
  function Keys(lines: seq<seq<string>>): seq<char> {
    if lines == [] then [] else Command.Join(lines[0]) + ['\n'] + Keys(lines[1..])
  }

  function SessionMeaning(fs: Files, lines: seq<seq<string>>): Files
    decreases |lines|
  {
    if lines == [] then fs else SessionMeaning(Meaning(fs, lines[0]), lines[1..])
  }

  lemma {:induction false} MeaningKeepsFilesOk(fs: Files, ts: seq<string>)
    requires FilesOk(fs) && Typeable(ts)
    ensures FilesOk(Meaning(fs, ts))
  {
    JoinedMeans(fs, ts);
    ShellRuns.CharKeepsOk(State(Command.Join(ts), fs), '\n');
  }

  /** A whole session at the keyboard does what its lines mean, one after the other. */
  lemma {:induction false} SessionRuns(fs: Files, lines: seq<seq<string>>)
    requires FilesOk(fs) && forall i :: 0 <= i < |lines| ==> Typeable(lines[i])
    ensures OnChars(State("", fs), Keys(lines)) == State("", SessionMeaning(fs, lines))
    decreases |lines|
  {
    if lines != [] {
      var first := Command.Join(lines[0]);
      TypedLineRuns(fs, first, '\n');
      JoinedMeans(fs, lines[0]);
      MeaningKeepsFilesOk(fs, lines[0]);
      KeysInTwoParts(State("", fs), first + ['\n'], Keys(lines[1..]));
      SessionRuns(Meaning(fs, lines[0]), lines[1..]);
    }
  }
}
