/** kernel/shell/runtime.c: the shell over the line editor, the parser and the RAM file system.
    Console output is not modelled. */
module Shell {
  import opened Strings
  import opened RamFs
  import opened LineEditor
  import Command

  const TEXT_CAPACITY: nat := 256

  // ----- the interpreter the shell refines -----

  /** A started shell: the line being typed, and the files as a map. */
  datatype State = State(text: string, files: Files)

  function AppendText(files: Files, name: string, words: seq<string>): string {
    Space(name in files && files[name] != "") + Command.Join(words)
  }

  function Execute(files: Files, kind: Command.Kind, arguments: seq<string>): Files
    requires Command.HasValidArity(kind, |arguments|)
  {
    match kind
    case Touch => Created(files, arguments[0])
    case Write => Written(files, arguments[0], Command.Join(arguments[1..]))
    case Append => Appended(files, arguments[0], AppendText(files, arguments[0], arguments[1..]))
    case Rm => Removed(files, arguments[0])
    case _ => files
  }

  /** A submitted line changes the files only if it parses and has the right number of arguments. */
  ghost function RunLine(files: Files, line: string): Files {
    var tokens := Command.Tokens(line);
    if Command.Verdict(tokens) != Command.Parsed then files
    else if !Command.HasValidArity(Command.KindOf(tokens[0]), |tokens| - 1) then files
    else Execute(files, Command.KindOf(tokens[0]), tokens[1..])
  }

  ghost function OnChar(s: State, c: char): State {
    if EndsLine(c) then State("", RunLine(s.files, s.text)) else State(Edit(s.text, c), s.files)
  }

  ghost function OnChars(s: State, stream: seq<char>): State {
    if stream == [] then s else OnChar(OnChars(s, stream[..|stream| - 1]), stream[|stream| - 1])
  }

  // ----- joining arguments -----

  /** The buffer holds a text: its characters, then a NUL. */
  ghost predicate HoldsText(buffer: array<char>, length: nat, text: string) reads buffer {
    length == |text| < buffer.Length && buffer[..length] == text && buffer[length] == NUL
  }

  /** As much of a text as a buffer of that capacity holds besides its NUL. */
  function Clipped(text: string, capacity: nat): string
    requires capacity > 0
  {
    if |text| < capacity then text else text[..capacity - 1]
  }

  /** The buffer stays NUL-terminated at its length; a character for which there is no room is
      refused and leaves the text as it was. */
  method BufferAppendChar(buffer: array<char>, length: nat, c: char, ghost text: string) returns (ok: bool, end: nat)
    requires HoldsText(buffer, length, text)
    modifies buffer
    ensures ok <==> |text| + 1 < buffer.Length
    ensures HoldsText(buffer, end, if ok then text + [c] else text)
  {
    if length + 1 >= buffer.Length {
      return false, length;
    }
    buffer[length] := c;
    end := length + 1;
    buffer[end] := NUL;
    assert buffer[..end] == text + [c];
    return true, end;
  }

  /** One argument, character by character: all of it, or as much as fits. */
  method AppendWord(buffer: array<char>, length: nat, word: string, ghost text: string) returns (ok: bool, end: nat)
    requires HoldsText(buffer, length, text)
    modifies buffer
    ensures ok <==> |text + word| < buffer.Length
    ensures HoldsText(buffer, end, Clipped(text + word, buffer.Length))
  {
    end := length;
    var character := 0;
    while character < |word|
      invariant 0 <= character <= |word| && HoldsText(buffer, end, text + word[..character])
    {
      ok, end := BufferAppendChar(buffer, end, word[character], text + word[..character]);
      if !ok {
        assert text + word[..character] == (text + word)[..buffer.Length - 1];
        return;
      }
      assert text + word[..character] + [word[character]] == text + word[..character + 1];
      character := character + 1;
    }
    assert word[..|word|] == word;
    ok := true;
  }

  function Space(wanted: bool): string {
    if wanted then " " else ""
  }

  method AppendSpaced(buffer: array<char>, length: nat, spaced: bool, word: string, ghost text: string)
    returns (ok: bool, end: nat)
    requires HoldsText(buffer, length, text)
    modifies buffer
    ensures ok <==> |text + (Space(spaced) + word)| < buffer.Length
    ensures HoldsText(buffer, end, Clipped(text + (Space(spaced) + word), buffer.Length))
  {
    end := length;
    if spaced {
      ok, end := BufferAppendChar(buffer, length, ' ', text);
      if !ok {
        assert (text + (" " + word))[..buffer.Length - 1] == text;
        return;
      }
    }
    assert text + Space(spaced) + word == text + (Space(spaced) + word);
    ok, end := AppendWord(buffer, end, word, text + Space(spaced));
  }

  /** What has been written before an argument. */
  function WrittenBefore(lead: string, arguments: seq<string>, first: nat, argument: nat): string
    requires first <= argument <= |arguments|
  {
    lead + Command.Join(arguments[first..argument])
  }

  lemma WrittenIsPrefix(lead: string, arguments: seq<string>, first: nat, argument: nat)
    requires first <= argument <= |arguments|
    ensures WrittenBefore(lead, arguments, first, argument) <= lead + Command.Join(arguments[first..])
  {
    assert arguments[first..] == arguments[first..argument] + arguments[argument..];
    if argument == |arguments| {
      assert arguments[first..argument] == arguments[first..];
    } else if first < argument {
      Command.JoinOfConcat(arguments[first..argument], arguments[argument..]);
    }
  }

  lemma WrittenOneMore(lead: string, arguments: seq<string>, first: nat, argument: nat)
    requires first <= argument < |arguments|
    ensures WrittenBefore(lead, arguments, first, argument) + (Space(argument != first) + arguments[argument])
            == WrittenBefore(lead, arguments, first, argument + 1)
  {
    var done := arguments[first..argument];
    assert arguments[first..argument + 1] == done + [arguments[argument]];
    Command.JoinSnoc(done, arguments[argument]);
  }

  /** Once a prefix no longer fits, what fits of it is what fits of the whole. */
  lemma ClipsLike(part: string, whole: string, capacity: nat)
    requires part <= whole && capacity > 0
    ensures |part| >= capacity ==> |whole| >= capacity && Clipped(part, capacity) == Clipped(whole, capacity)
  {
  }

  /** The space-join of the arguments, cut off where the buffer ends; it succeeds exactly when the
      joined text and its NUL fit. */
  method JoinArguments(arguments: seq<string>, first: nat, leadingSpace: bool, buffer: array<char>, output: nat)
    returns (ok: bool, length: nat)
    modifies buffer
    ensures var goal := JoinedText(arguments, first, leadingSpace);
            if buffer.Length == 0 || first > |arguments| then !ok && length == output && buffer[..] == old(buffer[..])
            else (ok <==> |goal| < buffer.Length) && HoldsText(buffer, length, Clipped(goal, buffer.Length))
  {
    length := output;
    if buffer.Length == 0 || first > |arguments| {
      return false, length;
    }
    length := 0;
    buffer[0] := NUL;
    ok, length := AppendSpaced(buffer, length, leadingSpace, "", "");
    ghost var lead := Space(leadingSpace);
    assert "" + (lead + "") == lead;
    ClipsLike(lead, JoinedText(arguments, first, leadingSpace), buffer.Length);
    if ok {
      ok, length := JoinRest(arguments, first, lead, buffer, length);
    }
  }

  /** The argument loop. */
  method JoinRest(arguments: seq<string>, first: nat, ghost lead: string, buffer: array<char>, start: nat)
    returns (ok: bool, length: nat)
    requires first <= |arguments| && HoldsText(buffer, start, lead)
    modifies buffer
    ensures var goal := lead + Command.Join(arguments[first..]);
            (ok <==> |goal| < buffer.Length) && HoldsText(buffer, length, Clipped(goal, buffer.Length))
  {
    length := start;
    assert lead + Command.Join([]) == lead && arguments[first..first] == [];
    var argument := first;
    while argument < |arguments|
      invariant first <= argument <= |arguments|
      invariant HoldsText(buffer, length, WrittenBefore(lead, arguments, first, argument))
    {
      ok, length := JoinOne(arguments, first, argument, lead, buffer, length);
      if !ok {
        return;
      }
      argument := argument + 1;
    }
    assert arguments[first..|arguments|] == arguments[first..];
    ok := true;
  }

  /** One turn of the argument loop. */
  method JoinOne(arguments: seq<string>, first: nat, argument: nat, ghost lead: string, buffer: array<char>, start: nat)
    returns (ok: bool, length: nat)
    requires first <= argument < |arguments|
    requires HoldsText(buffer, start, WrittenBefore(lead, arguments, first, argument))
    modifies buffer
    ensures ok ==> HoldsText(buffer, length, WrittenBefore(lead, arguments, first, argument + 1))
    ensures !ok ==> var goal := lead + Command.Join(arguments[first..]);
                    |goal| >= buffer.Length && HoldsText(buffer, length, Clipped(goal, buffer.Length))
  {
    ghost var text := WrittenBefore(lead, arguments, first, argument);
    ok, length := AppendSpaced(buffer, start, argument != first, arguments[argument], text);
    WrittenOneMore(lead, arguments, first, argument);
    WrittenIsPrefix(lead, arguments, first, argument + 1);
    ClipsLike(WrittenBefore(lead, arguments, first, argument + 1), lead + Command.Join(arguments[first..]),
        buffer.Length);
  }

  function JoinedText(arguments: seq<string>, first: nat, leadingSpace: bool): string {
    Space(leadingSpace) + if first <= |arguments| then Command.Join(arguments[first..]) else ""
  }

  ghost predicate Bounded(arguments: seq<string>) {
    |arguments| <= Command.MAX_ARGS && forall i :: 0 <= i < |arguments| ==> |arguments[i]| <= Command.ARG_MAX
  }

  /** Eight arguments of 31 characters and seven spaces are 255 characters: a parsed command
      always fits. */
  lemma ParsedArgumentsFit(arguments: seq<string>, first: nat, leadingSpace: bool)
    requires Bounded(arguments) && first <= |arguments| && (leadingSpace ==> first > 0)
    ensures |JoinedText(arguments, first, leadingSpace)| < TEXT_CAPACITY
  {
    Command.JoinLength(arguments[first..]);
  }

  /** And not one byte of the buffer could be spared. */
  lemma LongestArgumentsFillTheBuffer(arguments: seq<string>)
    requires |arguments| == Command.MAX_ARGS && forall i :: 0 <= i < |arguments| ==> |arguments[i]| == Command.ARG_MAX
    ensures Bounded(arguments) && |JoinedText(arguments, 0, false)| + 1 == TEXT_CAPACITY
  {
    assert arguments[0..] == arguments;
    Command.JoinOfLongest(arguments);
  }

  lemma ParsedIsBounded(tokens: seq<string>)
    requires Command.Verdict(tokens) == Command.Parsed
    ensures tokens != [] && Bounded(tokens[1..])
  {
    forall i | 0 <= i < |tokens| - 1 ensures |tokens[1..][i]| <= Command.ARG_MAX {
      assert !Command.SomeLong(tokens, Command.MAX_ARGS + 1);
      assert tokens[1..][i] == tokens[i + 1];
    }
  }

  // ----- looking files up -----

  /** No file listed before index has this name. */
  ghost predicate NotListedBefore(view: seq<Entry>, name: string, index: nat) {
    forall k: nat :: k < |view| && view[k].File? && Rank(view, k) < index ==> view[k].name != name
  }

  lemma NotListedStep(view: seq<Entry>, name: string, index: nat, slot: nat)
    requires NotListedBefore(view, name, index) && slot < |view| && view[slot].File? && Rank(view, slot) == index
    requires view[slot].name != name
    ensures NotListedBefore(view, name, index + 1)
  {
    forall k: nat | k < |view| && view[k].File? && Rank(view, k) < index + 1 ensures view[k].name != name {
      ListingIsOneToOne(view, k, slot);
    }
  }

  lemma NotListedIsAbsent(view: seq<Entry>, files: Files, home: map<string, nat>, name: string)
    requires Represents(view, files, home) && NotListedBefore(view, name, |files|)
    ensures name !in files
  {
    if name in home {
      ListingIsOneToOne(view, home[name], home[name]);
    }
  }

  /** Walks the listing for a name; the caller's size is left alone when there is none. */
  method FileSize(ramfs: FileTable, name: string, output: nat) returns (found: bool, size: nat)
    requires ramfs.Valid()
    ensures found <==> name in ramfs.files
    ensures size == if found then |ramfs.files[name]| else output
  {
    ghost var view := View(ramfs.slots[..]);
    found, size := false, output;
    var count := ramfs.liveCount;
    var index := 0;
    while index < count
      invariant 0 <= index <= count && NotListedBefore(view, name, index)
    {
      var ok, info, slot := ramfs.GetInfo(index, FileInfo([], 0));
      if !ok {
        return;
      }
      if Text(info.name) == name {
        return true, info.size;
      }
      NotListedStep(view, name, index, slot);
      index := index + 1;
    }
    NotListedIsAbsent(view, ramfs.files, ramfs.home, name);
  }

  /** ls: every file exactly once, with its size. */
  method ExecuteLs(ramfs: FileTable) returns (ok: bool, listing: seq<(string, nat)>)
    requires ramfs.Valid()
    ensures ok && |listing| == |ramfs.files|
    ensures Sizes(ramfs.files, listing)
    ensures forall i, j :: 0 <= i < j < |listing| ==> listing[i].0 != listing[j].0
    ensures forall n :: n in ramfs.files ==> exists i :: 0 <= i < |listing| && listing[i].0 == n
  {
    ghost var view := View(ramfs.slots[..]);
    ghost var places: seq<nat> := [];
    var count := ramfs.liveCount;
    listing := [];
    while |listing| < count
      invariant |listing| <= count && Listed(view, listing, places) && Sizes(ramfs.files, listing)
    {
      var info;
      ghost var slot;
      ok, info, slot := ramfs.GetInfo(|listing|, FileInfo([], 0));
      if !ok {
        return;
      }
      ListedStep(view, ramfs.files, listing, places, Text(info.name), info.size, slot);
      listing := listing + [(Text(info.name), info.size)];
      places := places + [slot];
    }
    EachListedOnce(view, ramfs.files, ramfs.home, listing, places);
    ok := true;
  }

  /** The i-th line of the listing is the file of rank i. */
  ghost predicate Listed(view: seq<Entry>, listing: seq<(string, nat)>, places: seq<nat>) {
    |places| == |listing| && forall i :: 0 <= i < |listing| ==>
      places[i] < |view| && view[places[i]].File? && view[places[i]].name == listing[i].0 && Rank(view, places[i]) == i
  }

  /** Each line names a file and its size. */
  ghost predicate Sizes(files: Files, listing: seq<(string, nat)>) {
    forall i :: 0 <= i < |listing| ==> listing[i].0 in files && listing[i].1 == |files[listing[i].0]|
  }

  lemma ListedStep(view: seq<Entry>, files: Files, listing: seq<(string, nat)>, places: seq<nat>, name: string,
                   size: nat, slot: nat)
    requires Listed(view, listing, places) && slot < |view| && view[slot].File? && view[slot].name == name
    requires Rank(view, slot) == |listing|
    requires Sizes(files, listing) && name in files && size == |files[name]|
    ensures Listed(view, listing + [(name, size)], places + [slot]) && Sizes(files, listing + [(name, size)])
  {
  }

  lemma EachListedOnce(view: seq<Entry>, files: Files, home: map<string, nat>, listing: seq<(string, nat)>,
                       places: seq<nat>)
    requires Represents(view, files, home) && Listed(view, listing, places) && |listing| == |files|
    ensures forall i, j :: 0 <= i < j < |listing| ==> listing[i].0 != listing[j].0
    ensures forall n :: n in files ==> exists i :: 0 <= i < |listing| && listing[i].0 == n
  {
    forall i, j | 0 <= i < j < |listing| ensures listing[i].0 != listing[j].0 {
      assert home[view[places[i]].name] == places[i] && home[view[places[j]].name] == places[j];
    }
    forall n | n in files ensures exists i :: 0 <= i < |listing| && listing[i].0 == n {
      assert n in home;
      var r := Rank(view, home[n]);
      ListingIsOneToOne(view, home[n], home[n]);
      ListingIsOneToOne(view, home[n], places[r]);
      assert listing[r].0 == n;
    }
  }
}
