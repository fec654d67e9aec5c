/** kernel/shell/command.c: splitting a command line into a name and at most eight arguments. */
module Command {
  import opened Strings

  const MAX_ARGS: nat := 8
  const ARG_MAX: nat := 31

  datatype Kind = Help | Clear | Echo | Ls | Cat | Touch | Write | Append | Rm | Status | About | Unknown

  datatype ParseResult = Parsed | Empty | TooManyArguments | ArgumentTooLong

  datatype Command = Command(kind: Kind, name: string, arguments: seq<string>)

  predicate IsSeparator(c: char) {
    c == ' ' || c == '\t'
  }

  function KindOf(name: string): Kind {
    if name == "help" then Help else if name == "clear" then Clear else if name == "echo" then Echo
    else if name == "ls" then Ls else if name == "cat" then Cat else if name == "touch" then Touch
    else if name == "write" then Write else if name == "append" then Append else if name == "rm" then Rm
    else if name == "status" then Status else if name == "about" then About else Unknown
  }

  function HasValidArity(kind: Kind, count: nat): bool {
    match kind
    case Help | Clear | Ls | Status | About => count == 0
    case Cat | Touch | Rm => count == 1
    case Write | Append => 2 <= count <= MAX_ARGS
    case Echo => count <= MAX_ARGS
    case Unknown => false
  }

  // ----- tokens -----

  function SkipBlanks(s: string): string {
    if s != "" && IsSeparator(s[0]) then SkipBlanks(s[1..]) else s
  }

  function Word(s: string): string {
    if s == "" || IsSeparator(s[0]) then "" else [s[0]] + Word(s[1..])
  }

  /** The maximal runs of non-separators, left to right. */
  function Tokens(s: string): seq<string>
    decreases |s|
  {
    SkipIsSuffix(s);
    var t := SkipBlanks(s);
    if t == "" then [] else
      WordIsPrefix(t);
      [Word(t)] + Tokens(t[|Word(t)|..])
  }

  lemma {:induction false} SkipIsSuffix(s: string)
    ensures |SkipBlanks(s)| <= |s| && SkipBlanks(s) == s[|s| - |SkipBlanks(s)|..]
    ensures SkipBlanks(s) != "" ==> !IsSeparator(SkipBlanks(s)[0])
  {
    if s != "" && IsSeparator(s[0]) {
      SkipIsSuffix(s[1..]);
    }
  }

  lemma {:induction false} WordIsPrefix(s: string)
    ensures |Word(s)| <= |s| && Word(s) == s[..|Word(s)|]
    ensures |Word(s)| < |s| ==> IsSeparator(s[|Word(s)|])
    ensures s != "" && !IsSeparator(s[0]) ==> |Word(s)| > 0
    ensures forall i :: 0 <= i < |Word(s)| ==> !IsSeparator(Word(s)[i])
  {
    if s != "" && !IsSeparator(s[0]) {
      WordIsPrefix(s[1..]);
    }
  }

  /** A token: not empty, and free of separators and NULs. */
  predicate Legal(t: string) {
    t != "" && forall i :: 0 <= i < |t| ==> !IsSeparator(t[i]) && t[i] != NUL
  }

  predicate AllLegal(ts: seq<string>) {
    forall i :: 0 <= i < |ts| ==> Legal(ts[i])
  }

  lemma {:induction false} TokensAreLegal(s: string)
    requires NUL !in s
    ensures AllLegal(Tokens(s))
    decreases |s|
  {
    SkipIsSuffix(s);
    var t := SkipBlanks(s);
    if t != "" {
      WordIsPrefix(t);
      TokensAreLegal(t[|Word(t)|..]);
    }
  }

  // ----- what the tokens of a line are -----

  /** gaps[0] ts[0] gaps[1] ts[1] ... gaps[n]. */
  function Weave(gaps: seq<string>, ts: seq<string>): string
    requires |gaps| == |ts| + 1
  {
    gaps[0] + if ts == [] then "" else ts[0] + Weave(gaps[1..], ts[1..])
  }

  /** Gaps are separators only, and only the first and the last may be empty. */
  predicate Gaps(gaps: seq<string>) {
    && (forall i :: 0 <= i < |gaps| ==> Blank(gaps[i]))
    && forall i :: 0 < i < |gaps| - 1 ==> gaps[i] != ""
  }

  predicate Blank(gap: string) {
    forall i :: 0 <= i < |gap| ==> IsSeparator(gap[i])
  }

  predicate Unbroken(t: string) {
    t != "" && forall i :: 0 <= i < |t| ==> !IsSeparator(t[i])
  }

  lemma {:induction false} SkipOverGap(gap: string, rest: string)
    requires Blank(gap) && (rest != "" ==> !IsSeparator(rest[0]))
    ensures SkipBlanks(gap + rest) == rest
  {
    if gap != "" {
      assert (gap + rest)[1..] == gap[1..] + rest;
      SkipOverGap(gap[1..], rest);
    } else {
      assert gap + rest == rest;
    }
  }

  lemma {:induction false} WordOfLegal(t: string, rest: string)
    requires (forall i :: 0 <= i < |t| ==> !IsSeparator(t[i])) && (rest != "" ==> IsSeparator(rest[0]))
    ensures Word(t + rest) == t
  {
    if t != "" {
      assert (t + rest)[1..] == t[1..] + rest;
      WordOfLegal(t[1..], rest);
    } else {
      assert t + rest == rest;
    }
  }

  /** However the tokens are spaced, splitting finds exactly them. */
  lemma {:induction false} TokensOfWeave(gaps: seq<string>, ts: seq<string>)
    requires |gaps| == |ts| + 1 && Gaps(gaps) && forall i :: 0 <= i < |ts| ==> Unbroken(ts[i])
    ensures Tokens(Weave(gaps, ts)) == ts
    decreases |ts|
  {
    if ts == [] {
      SkipOverGap(gaps[0], "");
    } else {
      var tail := Weave(gaps[1..], ts[1..]);
      assert Blank(gaps[0]) && Blank(gaps[1]) && Unbroken(ts[0]);
      TailStartsBlank(gaps[1..], ts[1..]);
      SkipOverGap(gaps[0], ts[0] + tail);
      WordOfLegal(ts[0], tail);
      assert (ts[0] + tail)[|ts[0]|..] == tail;
      TokensOfWeave(gaps[1..], ts[1..]);
    }
  }

  lemma TailStartsBlank(gaps: seq<string>, ts: seq<string>)
    requires |gaps| == |ts| + 1 && Blank(gaps[0]) && (ts != [] ==> gaps[0] != "")
    ensures Weave(gaps, ts) != "" ==> IsSeparator(Weave(gaps, ts)[0])
  {
  }

  /** Every line is its tokens with gaps between them, so the splitting above is the only one. */
  lemma {:induction false} EveryLineIsWoven(s: string) returns (gaps: seq<string>)
    ensures |gaps| == |Tokens(s)| + 1 && Gaps(gaps) && s == Weave(gaps, Tokens(s))
    ensures s != "" && IsSeparator(s[0]) ==> gaps[0] != ""
    decreases |s|
  {
    var gap, word, tail := SplitLine(s);
    if word == "" {
      gaps := [gap];
    } else {
      var rest := EveryLineIsWoven(tail);
      gaps := [gap] + rest;
      InnerGaps(gap, rest, tail);
      WeaveOneMore(gap, word, rest, Tokens(tail));
    }
  }

  /** A line is a gap, a token and a tail that starts with a separator if it is not empty. */
  lemma SplitLine(s: string) returns (gap: string, word: string, tail: string)
    ensures s == gap + (word + tail) && Blank(gap) && (s != "" && IsSeparator(s[0]) ==> gap != "")
    ensures word == "" ==> Tokens(s) == [] && s == gap
    ensures word != "" ==> Tokens(s) == [word] + Tokens(tail) && |tail| < |s| && (tail != "" ==> IsSeparator(tail[0]))
  {
    SkipIsSuffix(s);
    GapIsBlank(s);
    var t := SkipBlanks(s);
    WordIsPrefix(t);
    gap, word, tail := s[..|s| - |t|], Word(t), t[|Word(t)|..];
  }

  lemma WeaveOneMore(gap: string, t: string, gaps: seq<string>, ts: seq<string>)
    requires |gaps| == |ts| + 1
    ensures Weave([gap] + gaps, [t] + ts) == gap + (t + Weave(gaps, ts))
  {
    assert ([gap] + gaps)[1..] == gaps && ([t] + ts)[1..] == ts;
  }

  lemma {:induction false} GapIsBlank(s: string)
    ensures |SkipBlanks(s)| <= |s| && Blank(s[..|s| - |SkipBlanks(s)|])
    ensures s != "" && IsSeparator(s[0]) ==> |SkipBlanks(s)| < |s|
  {
    SkipIsSuffix(s);
    if s != "" && IsSeparator(s[0]) {
      SkipIsSuffix(s[1..]);
      GapIsBlank(s[1..]);
      var k := |s| - |SkipBlanks(s)|;
      assert s[..k] == [s[0]] + s[1..][..k - 1];
    }
  }

  lemma InnerGaps(gap: string, rest: seq<string>, tail: string)
    requires Blank(gap) && Gaps(rest) && |rest| == |Tokens(tail)| + 1
    requires tail != "" ==> IsSeparator(tail[0]) && rest[0] != ""
    requires tail == "" ==> |rest| == 1
    ensures Gaps([gap] + rest)
  {
    var gaps := [gap] + rest;
    forall i | 0 < i < |gaps| - 1 ensures gaps[i] != "" {
      assert gaps[i] == rest[i - 1];
    }
  }

  // ----- the verdict on a token list -----

  ghost predicate SomeLong(ts: seq<string>, limit: nat) {
    exists i :: 0 <= i < |ts| && i < limit && |ts[i]| > ARG_MAX
  }

  /** Errors in left-to-right order: a long token among the first nine comes before the tenth
      token; a long tenth token is too many. */
  ghost function Verdict(ts: seq<string>): ParseResult {
    if ts == [] then Empty
    else if SomeLong(ts, MAX_ARGS + 1) then ArgumentTooLong
    else if |ts| > MAX_ARGS + 1 then TooManyArguments
    else Parsed
  }

  /** The same as a scan from left to right, with so many tokens already taken. */
  function FirstError(ts: seq<string>, seen: nat): ParseResult {
    if ts == [] then (if seen == 0 then Empty else Parsed)
    else if seen == 9 then TooManyArguments
    else if |ts[0]| > 31 then ArgumentTooLong
    else FirstError(ts[1..], seen + 1)
  }

  lemma {:induction false} VerdictFrom(ts: seq<string>, seen: nat)
    requires seen <= |ts| && seen <= 9 && forall i :: 0 <= i < seen ==> |ts[i]| <= 31
    ensures Verdict(ts) == FirstError(ts[seen..], seen)
    decreases |ts| - seen
  {
    if seen < |ts| && seen < 9 && |ts[seen]| <= 31 {
      assert ts[seen..][1..] == ts[seen + 1..];
      VerdictFrom(ts, seen + 1);
    }
  }

  /** The verdict is the first error a left-to-right scan meets. */
  lemma VerdictIsFirstError(ts: seq<string>)
    ensures Verdict(ts) == FirstError(ts, 0)
  {
    assert ts[0..] == ts;
    VerdictFrom(ts, 0);
  }

  function CommandOf(ts: seq<string>): Command
    requires ts != []
  {
    Command(KindOf(ts[0]), ts[0], ts[1..])
  }

  // ----- the parser -----

  lemma SkipAt(text: string, k: nat)
    requires k <= |text|
    ensures SkipBlanks(text[k..]) == if k < |text| && IsSeparator(text[k]) then SkipBlanks(text[k + 1..]) else text[k..]
  {
    assert k < |text| ==> text[k..][0] == text[k] && text[k..][1..] == text[k + 1..];
  }

  lemma WordAt(text: string, k: nat)
    requires k <= |text|
    ensures Word(text[k..]) == if k < |text| && !IsSeparator(text[k]) then [text[k]] + Word(text[k + 1..]) else ""
  {
    assert k < |text| ==> text[k..][0] == text[k] && text[k..][1..] == text[k + 1..];
  }

  method SkipSeparators(line: seq<char>, start: nat) returns (cursor: nat)
    requires Terminated(line) && start <= |Text(line)|
    ensures start <= cursor <= |Text(line)| && Text(line)[cursor..] == SkipBlanks(Text(line)[start..])
  {
    ghost var text := Text(line);
    cursor := start;
    CharAt(line, cursor);
    while IsSeparator(line[cursor])
      invariant start <= cursor <= |text| && Reads(line, cursor)
      invariant SkipBlanks(text[start..]) == SkipBlanks(text[cursor..])
      decreases |text| - cursor
    {
      SkipAt(text, cursor);
      cursor := cursor + 1;
      CharAt(line, cursor);
    }
    SkipAt(text, cursor);
  }

  /** Copies one token of at most 31 characters. */
  method CopyToken(line: seq<char>, start: nat) returns (ok: bool, token: string, cursor: nat)
    requires Terminated(line) && start <= |Text(line)|
    ensures ok <==> |Word(Text(line)[start..])| <= ARG_MAX
    ensures ok ==> token == Word(Text(line)[start..]) && cursor == start + |token| <= |Text(line)|
  {
    ghost var text := Text(line);
    ghost var whole := Word(text[start..]);
    token, cursor := "", start;
    CharAt(line, cursor);
    while line[cursor] != NUL && !IsSeparator(line[cursor])
      invariant start <= cursor <= |text| && Reads(line, cursor)
      invariant cursor == start + |token| && |token| <= ARG_MAX
      invariant IsRest(whole, token, text, cursor)
      decreases |text| - cursor
    {
      TokenGoesOn(whole, token, text, cursor);
      if |token| >= ARG_MAX {
        return false, token, cursor;
      }
      token := token + [line[cursor]];
      cursor := cursor + 1;
      CharAt(line, cursor);
    }
    TokenEnds(whole, token, text, cursor);
    return true, token, cursor;
  }

  /** The part of a token before the cursor, and what is left of it. */
  ghost predicate IsRest(whole: string, token: string, text: string, cursor: nat)
    requires cursor <= |text|
  {
    whole == token + Word(text[cursor..])
  }

  lemma TokenGoesOn(whole: string, token: string, text: string, cursor: nat)
    requires cursor < |text| && !IsSeparator(text[cursor]) && IsRest(whole, token, text, cursor)
    ensures IsRest(whole, token + [text[cursor]], text, cursor + 1) && |whole| > |token|
  {
    WordAt(text, cursor);
    assert token + ([text[cursor]] + Word(text[cursor + 1..])) == (token + [text[cursor]]) + Word(text[cursor + 1..]);
  }

  lemma TokenEnds(whole: string, token: string, text: string, cursor: nat)
    requires cursor <= |text| && (cursor < |text| ==> IsSeparator(text[cursor])) && IsRest(whole, token, text, cursor)
    ensures whole == token
  {
    WordAt(text, cursor);
  }

  /** A line gives the command of its tokens, or the first error in token order with the
      caller's command untouched. */
  method Parse(line: seq<char>, output: Command) returns (result: ParseResult, command: Command)
    requires Terminated(line)
    ensures result == Verdict(Tokens(Text(line)))
    ensures command == if result == Parsed then CommandOf(Tokens(Text(line))) else output
  {
    ghost var text := Text(line);
    command := output;
    var cursor := SkipSeparators(line, 0);
    assert text[0..] == text;
    TokensFrom(text, 0, cursor);
    CharAt(line, cursor);
    if line[cursor] == NUL {
      return Empty, command;
    }
    var ok, name;
    ok, name, cursor := CopyToken(line, cursor);
    if !ok {
      assert Tokens(text) == [] + Tokens(text);
      LongIsFirstError([], Tokens(text));
      return ArgumentTooLong, command;
    }
    var arguments;
    result, arguments := ParseArguments(line, cursor, name);
    if result == Parsed {
      command := Command(KindOf(name), name, arguments);
    }
  }

  /** The argument loop. */
  method ParseArguments(line: seq<char>, start: nat, ghost name: string)
    returns (result: ParseResult, arguments: seq<string>)
    requires Terminated(line) && start <= |Text(line)| && |name| <= ARG_MAX
    ensures result == Verdict([name] + Tokens(Text(line)[start..]))
    ensures result == Parsed ==> arguments == Tokens(Text(line)[start..])
  {
    ghost var text := Text(line);
    arguments := [];
    var cursor := start;
    while true
      invariant start <= cursor <= |text| && |arguments| <= MAX_ARGS && Short(arguments)
      invariant Tokens(text[start..]) == arguments + Tokens(text[cursor..])
      decreases |text| - cursor
    {
      ghost var seen, rest := [name] + arguments, Tokens(text[cursor..]);
      assert [name] + (arguments + rest) == seen + rest;
      var turn, token, next := NextArgument(line, cursor, |arguments|);
      match turn {
        case Ended =>
          NoError(seen);
          return Parsed, arguments;
        case Full =>
          TenthIsTooMany(seen, rest);
          return TooManyArguments, arguments;
        case Long =>
          LongIsFirstError(seen, rest);
          return ArgumentTooLong, arguments;
        case Token =>
          Regroup(arguments, token, Tokens(text[next..]));
          arguments := arguments + [token];
          cursor := next;
      }
    }
  }

  /** What one turn of the argument loop meets. */
  datatype Turn = Ended | Full | Long | Token

  method NextArgument(line: seq<char>, start: nat, count: nat) returns (turn: Turn, token: string, next: nat)
    requires Terminated(line) && start <= |Text(line)|
    ensures var rest := Tokens(Text(line)[start..]);
            match turn
            case Ended => rest == []
            case Full => rest != [] && count >= MAX_ARGS
            case Long => rest != [] && count < MAX_ARGS && |rest[0]| > ARG_MAX
            case Token =>
              && count < MAX_ARGS && |token| <= ARG_MAX && start < next <= |Text(line)|
              && rest == [token] + Tokens(Text(line)[next..])
  {
    token := "";
    next := SkipSeparators(line, start);
    TokensFrom(Text(line), start, next);
    CharAt(line, next);
    if line[next] == NUL {
      return Ended, token, next;
    }
    if count >= MAX_ARGS {
      return Full, token, next;
    }
    var ok;
    ok, token, next := CopyToken(line, next);
    turn := if ok then Token else Long;
  }

  predicate Short(ts: seq<string>) {
    forall i :: 0 <= i < |ts| ==> |ts[i]| <= ARG_MAX
  }

  lemma Regroup(seen: seq<string>, token: string, rest: seq<string>)
    ensures seen + ([token] + rest) == (seen + [token]) + rest
  {
  }

  /** Tokens unfolded at a cursor position. */
  lemma TokensFrom(text: string, before: nat, cursor: nat)
    requires before <= cursor <= |text| && text[cursor..] == SkipBlanks(text[before..])
    ensures cursor == |text| ==> Tokens(text[before..]) == []
    ensures cursor < |text| ==> 0 < |Word(text[cursor..])| <= |text| - cursor
    ensures cursor < |text| ==>
            Tokens(text[before..]) == [Word(text[cursor..])] + Tokens(text[cursor + |Word(text[cursor..])|..])
  {
    SkipIsSuffix(text[before..]);
    if cursor < |text| {
      WordIsPrefix(text[cursor..]);
      assert text[cursor..][|Word(text[cursor..])|..] == text[cursor + |Word(text[cursor..])|..];
    }
  }

  lemma NoError(seen: seq<string>)
    requires 0 < |seen| <= MAX_ARGS + 1 && Short(seen)
    ensures Verdict(seen + []) == Parsed
  {
    assert seen + [] == seen;
  }

  lemma TenthIsTooMany(seen: seq<string>, rest: seq<string>)
    requires |seen| == MAX_ARGS + 1 && rest != [] && Short(seen)
    ensures Verdict(seen + rest) == TooManyArguments
  {
    assert forall i :: 0 <= i < |seen| ==> (seen + rest)[i] == seen[i];
  }

  lemma LongIsFirstError(seen: seq<string>, rest: seq<string>)
    requires |seen| <= MAX_ARGS && rest != [] && |rest[0]| > ARG_MAX
    ensures Verdict(seen + rest) == ArgumentTooLong
  {
    assert (seen + rest)[|seen|] == rest[0];
  }

  // ----- joining and parsing again -----

  /** Tokens joined with single spaces. */
  function Join(ts: seq<string>): string {
    if |ts| == 0 then "" else if |ts| == 1 then ts[0] else ts[0] + " " + Join(ts[1..])
  }

  /** Any legal token list joined with single spaces splits back into itself. */
  lemma {:induction false} TokensOfJoin(ts: seq<string>)
    requires AllLegal(ts)
    ensures Tokens(Join(ts)) == ts
  {
    if |ts| == 1 {
      WordOfLegal(ts[0], "");
      assert ts[0] + "" == ts[0];
      assert Tokens("") == [];
    } else if |ts| > 1 {
      var rest := " " + Join(ts[1..]);
      assert Join(ts) == ts[0] + rest;
      WordOfLegal(ts[0], rest);
      TokensOfJoin(ts[1..]);
      assert (ts[0] + rest)[|ts[0]|..] == rest && rest[1..] == Join(ts[1..]);
      assert Legal(ts[0]);
    }
  }

  lemma {:induction false} JoinHasNoNul(ts: seq<string>)
    requires AllLegal(ts)
    ensures NUL !in Join(ts)
  {
    if |ts| > 1 {
      JoinHasNoNul(ts[1..]);
    }
    assert |ts| > 0 ==> Legal(ts[0]);
  }

  /** Printing an accepted line's command and parsing that gives the same verdict and command. */
  lemma ReparseGivesTheSame(line: seq<char>)
    requires Verdict(Tokens(Text(line))) == Parsed
    ensures var ts := Tokens(Text(line)); var again := Text(CString(Join(ts)));
            Tokens(again) == ts && Verdict(Tokens(again)) == Parsed && CommandOf(Tokens(again)) == CommandOf(ts)
  {
    TextIsPrefix(line);
    var ts := Tokens(Text(line));
    TokensAreLegal(Text(line));
    TokensOfJoin(ts);
    JoinHasNoNul(ts);
    TextOfCString(Join(ts));
  }

  lemma {:induction false} JoinLength(ts: seq<string>)
    requires forall i :: 0 <= i < |ts| ==> |ts[i]| <= ARG_MAX
    ensures |ts| > 0 ==> |Join(ts)| <= ARG_MAX * |ts| + |ts| - 1
    ensures |ts| == 0 ==> |Join(ts)| == 0
  {
    if |ts| > 1 {
      JoinLength(ts[1..]);
    }
  }

  lemma {:induction false} JoinOfLongest(ts: seq<string>)
    requires |ts| > 0 && forall i :: 0 <= i < |ts| ==> |ts[i]| == ARG_MAX
    ensures |Join(ts)| == ARG_MAX * |ts| + |ts| - 1
  {
    if |ts| > 1 {
      JoinOfLongest(ts[1..]);
    }
  }

  lemma {:induction false} JoinOfConcat(a: seq<string>, b: seq<string>)
    requires a != [] && b != []
    ensures Join(a + b) == Join(a) + " " + Join(b)
  {
    if |a| == 1 {
      assert (a + b)[1..] == b;
    } else {
      assert (a + b)[1..] == a[1..] + b;
      JoinOfConcat(a[1..], b);
    }
  }

  lemma JoinSnoc(ts: seq<string>, t: string)
    ensures Join(ts + [t]) == Join(ts) + ((if ts == [] then "" else " ") + t)
  {
    if ts == [] {
      assert ts + [t] == [t];
    } else {
      JoinOfConcat(ts, [t]);
      assert Join(ts) + " " + t == Join(ts) + (" " + t);
    }
  }
}
