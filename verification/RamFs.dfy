/** kernel/fs/ramfs.c: sixteen file slots refining a finite map from names to contents. */
module RamFs {
  import opened Strings

  const MAX_FILES: nat := 16
  const NAME_MAX: nat := 31
  const FILE_MAX_BYTES: nat := 512

  datatype Result = Ok | InvalidName | NotFound | AlreadyExists | NoSpace | TooLarge

  // ----- names -----

  predicate Allowed(c: char) {
    'a' <= c <= 'z' || 'A' <= c <= 'Z' || '0' <= c <= '9' || c == '.' || c == '_' || c == '-'
  }

  predicate ValidName(name: string) {
    0 < |name| <= NAME_MAX && (forall i :: 0 <= i < |name| ==> Allowed(name[i])) && name != "." && name != ".."
  }

  /** Enough characters to decide: a terminator, or more than a name may have. */
  predicate Readable(s: seq<char>) {
    Terminated(s) || |s| > NAME_MAX
  }

  method NameIsValid(name: seq<char>) returns (ok: bool)
    requires Readable(name)
    ensures ok <==> ValidName(Text(name))
  {
    var length := 0;
    TextIsPrefix(name);
    while length <= NAME_MAX
      invariant 0 <= length <= NAME_MAX + 1 && length <= |name|
      invariant forall i :: 0 <= i < length ==> name[i] != NUL && Allowed(name[i])
    {
      var character := name[length];
      if character == NUL {
        TextIs(name, length);
        if length == 0 || (length == 1 && name[0] == '.') || (length == 2 && name[0] == '.' && name[1] == '.') {
          return false;
        }
        return true;
      }
      if !Allowed(character) {
        assert Text(name)[length] == character;
        return false;
      }
      length := length + 1;
    }
    return false;
  }

  method NamesEqual(left: seq<char>, right: seq<char>) returns (same: bool)
    requires Readable(left) && Readable(right)
    ensures same <==> Text(left) == Text(right) && |Text(left)| <= NAME_MAX
  {
    var index := 0;
    TextIsPrefix(left);
    TextIsPrefix(right);
    while index <= NAME_MAX
      invariant 0 <= index <= NAME_MAX + 1 && index <= |Text(left)| && index <= |Text(right)|
      invariant left[..index] == right[..index]
    {
      if left[index] != right[index] {
        assert Text(left) == Text(right) ==> |Text(left)| > index;
        return false;
      }
      if left[index] == NUL {
        return true;
      }
      index := index + 1;
    }
    return false;
  }

  // ----- the file system as a map -----

  type Files = map<string, string>

  predicate FilesOk(fs: Files) {
    |fs| <= MAX_FILES && forall n :: n in fs ==> ValidName(n) && |fs[n]| <= FILE_MAX_BYTES
  }

  function CreateResult(fs: Files, name: string): Result {
    if !ValidName(name) then InvalidName
    else if name in fs then AlreadyExists
    else if |fs| >= MAX_FILES then NoSpace
    else Ok
  }

  function Created(fs: Files, name: string): Files {
    if CreateResult(fs, name) == Ok then fs[name := ""] else fs
  }

  function WriteResult(fs: Files, name: string, data: string): Result {
    if !ValidName(name) then InvalidName
    else if name !in fs then NotFound
    else if |data| > FILE_MAX_BYTES then TooLarge
    else Ok
  }

  function Written(fs: Files, name: string, data: string): Files {
    if WriteResult(fs, name, data) == Ok then fs[name := data] else fs
  }

  function AppendResult(fs: Files, name: string, data: string): Result {
    if !ValidName(name) then InvalidName
    else if name !in fs then NotFound
    else if |fs[name]| + |data| > FILE_MAX_BYTES then TooLarge
    else Ok
  }

  function Appended(fs: Files, name: string, data: string): Files {
    if AppendResult(fs, name, data) == Ok then fs[name := fs[name] + data] else fs
  }

  function ReadResult(fs: Files, name: string, capacity: nat): Result {
    if !ValidName(name) then InvalidName
    else if name !in fs then NotFound
    else if capacity < |fs[name]| then TooLarge
    else Ok
  }

  function RemoveResult(fs: Files, name: string): Result {
    if !ValidName(name) then InvalidName else if name !in fs then NotFound else Ok
  }

  function Removed(fs: Files, name: string): Files {
    if RemoveResult(fs, name) == Ok then fs - {name} else fs
  }

  lemma PutSize(fs: Files, name: string, data: string)
    ensures |fs[name := data]| == if name in fs then |fs| else |fs| + 1
  {
    if name in fs {
      assert fs[name := data].Keys == fs.Keys;
    } else {
      assert fs[name := data].Keys == fs.Keys + {name};
    }
  }

  lemma RemoveSize(fs: Files, name: string)
    requires name in fs
    ensures |fs - {name}| == |fs| - 1
  {
    assert fs.Keys == (fs - {name}).Keys + {name};
  }

  lemma PutKeepsFilesOk(fs: Files, name: string, data: string)
    requires FilesOk(fs) && ValidName(name) && |data| <= FILE_MAX_BYTES && (name in fs || |fs| < MAX_FILES)
    ensures FilesOk(fs[name := data])
  {
    PutSize(fs, name, data);
  }

  lemma RemoveKeepsFilesOk(fs: Files, name: string)
    requires FilesOk(fs)
    ensures FilesOk(Removed(fs, name))
  {
    if name in fs {
      RemoveSize(fs, name);
    }
  }

  // ----- slots -----

  /** One slot: a 32-character name buffer, a 512-byte data buffer and the length in use.
      Bytes are written as characters. */
  datatype Slot = Slot(alive: bool, name: seq<char>, data: seq<char>, length: nat)

  function Zeros(n: nat): seq<char> {
    seq(n, _ => NUL)
  }

  function FreeSlot(): Slot {
    Slot(false, Zeros(NAME_MAX + 1), Zeros(FILE_MAX_BYTES), 0)
  }

  /** A slot is blank when dead; alive, its name is legal and its length in range. */
  predicate SlotOk(s: Slot) {
    && |s.name| == NAME_MAX + 1 && |s.data| == FILE_MAX_BYTES
    && if s.alive then ValidName(Text(s.name)) && s.length <= FILE_MAX_BYTES else s == FreeSlot()
  }

  ghost predicate SlotsOk(slots: seq<Slot>) {
    |slots| == MAX_FILES && forall i :: 0 <= i < |slots| ==> SlotOk(slots[i])
  }

  /** What a slot says: nothing, or a file. */
  datatype Entry = Dead | File(name: string, content: string)

  function EntryOf(s: Slot): Entry {
    if s.alive && s.length <= |s.data| then File(Text(s.name), s.data[..s.length]) else Dead
  }

  ghost function View(slots: seq<Slot>): (view: seq<Entry>)
    ensures |view| == |slots| && forall i :: 0 <= i < |slots| ==> view[i] == EntryOf(slots[i])
  {
    seq(|slots|, i requires 0 <= i < |slots| => EntryOf(slots[i]))
  }

  lemma ViewAfterUpdate(slots: seq<Slot>, i: nat, s: Slot)
    requires i < |slots|
    ensures View(slots[i := s]) == View(slots)[i := EntryOf(s)]
  {
  }

  function CountFiles(view: seq<Entry>): nat {
    if view == [] then 0 else CountFiles(view[..|view| - 1]) + if view[|view| - 1].File? then 1 else 0
  }

  lemma {:induction false} CountAfterUpdate(view: seq<Entry>, i: nat, e: Entry)
    requires i < |view|
    ensures CountFiles(view[i := e]) == CountFiles(view) - (if view[i].File? then 1 else 0) + (if e.File? then 1 else 0)
  {
    var last := |view| - 1;
    if i < last {
      CountAfterUpdate(view[..last], i, e);
      assert view[i := e][..last] == view[..last][i := e];
    } else {
      assert view[i := e][..last] == view[..last];
    }
  }

  lemma {:induction false} CountIsFullIff(view: seq<Entry>)
    ensures CountFiles(view) <= |view|
    ensures CountFiles(view) == |view| <==> forall i :: 0 <= i < |view| ==> view[i].File?
  {
    if view != [] {
      CountIsFullIff(view[..|view| - 1]);
      assert forall i :: 0 <= i < |view| - 1 ==> view[..|view| - 1][i] == view[i];
    }
  }

  /** Each file sits in exactly one slot, its home, and each slot in use is a file. */
  ghost predicate Represents(view: seq<Entry>, files: Files, home: map<string, nat>) {
    && home.Keys == files.Keys
    && (forall n :: n in home ==> home[n] < |view| && view[home[n]] == File(n, files[n]))
    && (forall i :: 0 <= i < |view| && view[i].File? ==> view[i].name in home && home[view[i].name] == i)
    && |files| == CountFiles(view)
  }

  lemma NewFileRepresents(view: seq<Entry>, files: Files, home: map<string, nat>, i: nat, name: string)
    requires Represents(view, files, home) && i < |view| && view[i] == Dead && name !in files
    ensures Represents(view[i := File(name, "")], files[name := ""], home[name := i])
  {
    CountAfterUpdate(view, i, File(name, ""));
    PutSize(files, name, "");
  }

  lemma NewContentRepresents(view: seq<Entry>, files: Files, home: map<string, nat>, i: nat, name: string,
                             content: string)
    requires Represents(view, files, home) && i < |view| && view[i].File? && view[i].name == name
    ensures name in files && view[i].content == files[name]
    ensures Represents(view[i := File(name, content)], files[name := content], home)
  {
    CountAfterUpdate(view, i, File(name, content));
    PutSize(files, name, content);
  }

  lemma NoFileRepresents(view: seq<Entry>, files: Files, home: map<string, nat>, i: nat, name: string)
    requires Represents(view, files, home) && i < |view| && view[i].File? && view[i].name == name
    ensures name in files && Represents(view[i := Dead], files - {name}, home - {name})
  {
    CountAfterUpdate(view, i, Dead);
    RemoveSize(files, name);
  }

  lemma FullIffSixteen(view: seq<Entry>, files: Files, home: map<string, nat>)
    requires Represents(view, files, home)
    ensures |files| <= |view| && (|files| == |view| <==> forall i :: 0 <= i < |view| ==> view[i].File?)
  {
    CountIsFullIff(view);
  }

  // ----- copying buffers -----

  /** The name loop of ramfs_create, into a cleared buffer. */
  method CopyName(name: seq<char>) returns (buffer: seq<char>)
    requires Terminated(name) && |Text(name)| <= NAME_MAX
    ensures |buffer| == NAME_MAX + 1 && Text(buffer) == Text(name)
  {
    buffer := Zeros(NAME_MAX + 1);
    TextIsPrefix(name);
    var index := 0;
    while index <= NAME_MAX && name[index] != NUL
      invariant 0 <= index <= |Text(name)| && |buffer| == NAME_MAX + 1
      invariant forall k :: 0 <= k < NAME_MAX + 1 ==> buffer[k] == if k < index then name[k] else NUL
    {
      buffer := buffer[index := name[index]];
      index := index + 1;
    }
    TextIs(buffer, index);
    assert buffer[..index] == name[..index];
  }

  /** The data loop of ramfs_write: new bytes, then zeros. */
  method OverwriteData(data: seq<char>, source: seq<char>) returns (result: seq<char>)
    requires |data| == FILE_MAX_BYTES && |source| <= FILE_MAX_BYTES
    ensures result == source + Zeros(FILE_MAX_BYTES - |source|)
  {
    result := data;
    var index := 0;
    while index < FILE_MAX_BYTES
      invariant 0 <= index <= FILE_MAX_BYTES && |result| == FILE_MAX_BYTES
      invariant forall k :: 0 <= k < index ==> result[k] == if k < |source| then source[k] else NUL
    {
      result := result[index := if index < |source| then source[index] else NUL];
      index := index + 1;
    }
    assert result == source + Zeros(FILE_MAX_BYTES - |source|);
  }

  /** The data loop of ramfs_append. */
  method ExtendData(data: seq<char>, length: nat, source: seq<char>) returns (result: seq<char>)
    requires |data| == FILE_MAX_BYTES && length + |source| <= FILE_MAX_BYTES
    ensures |result| == FILE_MAX_BYTES && result[..length + |source|] == data[..length] + source
  {
    result := data;
    var index := 0;
    while index < |source|
      invariant 0 <= index <= |source| && |result| == FILE_MAX_BYTES
      invariant result[..length + index] == data[..length] + source[..index]
    {
      result := result[length + index := source[index]];
      index := index + 1;
    }
    assert source[..|source|] == source;
  }

  // ----- the table -----

  datatype FileInfo = FileInfo(name: seq<char>, size: nat)

  class FileTable {
    const slots: array<Slot>
    var liveCount: nat
    ghost var files: Files
    ghost var home: map<string, nat>

    ghost predicate Valid() reads this, slots {
      slots.Length == MAX_FILES && TableOk(slots[..], liveCount, files, home)
    }

    constructor ()
      ensures Valid() && files == map[] && fresh(slots)
    {
      slots := new Slot[MAX_FILES](_ => FreeSlot());
      liveCount := 0;
      files, home := map[], map[];
      new;
      EmptyRepresents(slots[..]);
    }

    method Init()
      requires slots.Length == MAX_FILES
      modifies this, slots
      ensures Valid() && files == map[]
    {
      var index := 0;
      while index < MAX_FILES
        invariant 0 <= index <= MAX_FILES
        invariant forall k :: 0 <= k < index ==> slots[k] == FreeSlot()
      {
        slots[index] := FreeSlot();
        index := index + 1;
      }
      liveCount := 0;
      files, home := map[], map[];
      EmptyRepresents(slots[..]);
    }

    /** The two checks every operation starts with: a legal name, and its slot if it has one. */
    method Locate(name: seq<char>) returns (valid: bool, i: nat)
      requires Valid() && Terminated(name)
      ensures valid <==> ValidName(Text(name))
      ensures valid ==> i <= MAX_FILES && (i < MAX_FILES <==> Text(name) in files)
      ensures valid && i < MAX_FILES ==> HeldAt(i, Text(name))
    {
      i := MAX_FILES;
      valid := NameIsValid(name);
      if valid {
        i := FindSlot(slots[..], name);
        FoundIff(View(slots[..]), files, home, Text(name), i);
        if i < MAX_FILES {
          SlotFacts(slots[..], i);
          Present(View(slots[..]), files, home, i);
        }
      }
    }

    /** Slot i is the file of this name. */
    ghost predicate HeldAt(i: nat, name: string) reads this, slots {
      && i < slots.Length && slots[i].alive && SlotOk(slots[i]) && Text(slots[i].name) == name
      && name in files && files[name] == slots[i].data[..slots[i].length]
    }

    /** Refuses illegal and existing names, and a seventeenth file; otherwise adds an empty one. */
    method Create(name: seq<char>) returns (result: Result)
      requires Valid() && Terminated(name)
      modifies this, slots
      ensures Valid() && result == CreateResult(old(files), Text(name)) && files == Created(old(files), Text(name))
      ensures match result
              case Ok => files == old(files)[Text(name) := ""] && Text(name) !in old(files) && old(|files|) < 16
              case InvalidName => files == old(files) && !ValidName(Text(name))
              case AlreadyExists => files == old(files) && Text(name) in old(files)
              case NoSpace =>
                files == old(files) && ValidName(Text(name)) && Text(name) !in old(files) && old(|files|) == 16
              case _ => false
    {
      var valid, i := Locate(name);
      if !valid {
        return InvalidName;
      }
      if i < MAX_FILES {
        return AlreadyExists;
      }
      var e := FindEmptySlot(slots[..]);
      FullIffSixteen(View(slots[..]), files, home);
      if e == MAX_FILES {
        return NoSpace;
      }
      Occupy(e, name);
      return Ok;
    }

    /** One slot, the count and what they now stand for. */
    method StoreSlot(i: nat, slot: Slot, count: nat, ghost files': Files, ghost home': map<string, nat>)
      requires i < slots.Length == MAX_FILES && TableOk(slots[..][i := slot], count, files', home')
      modifies this, slots
      ensures Valid() && files == files'
    {
      ghost var after := slots[..][i := slot];
      slots[i] := slot;
      assert slots[..] == after;
      liveCount := count;
      files, home := files', home';
    }

    method Occupy(e: nat, name: seq<char>)
      requires Valid() && e < MAX_FILES && View(slots[..])[e] == Dead
      requires Terminated(name) && ValidName(Text(name)) && Text(name) !in files
      modifies this, slots
      ensures Valid() && files == old(files)[Text(name) := ""]
    {
      var buffer := CopyName(name);
      var slot := FreeSlot().(name := buffer, alive := true);
      OccupyKeepsTable(slots[..], liveCount, files, home, e, slot, Text(name));
      StoreSlot(e, slot, liveCount + 1, files[Text(name) := ""], home[Text(name) := e]);
    }

    method Write(name: seq<char>, data: seq<char>) returns (result: Result)
      requires Valid() && Terminated(name)
      modifies this, slots
      ensures Valid() && result == WriteResult(old(files), Text(name), data)
      ensures files == Written(old(files), Text(name), data)
      ensures match result
              case Ok => files == old(files)[Text(name) := data] && Text(name) in old(files) && |data| <= 512
              case InvalidName => files == old(files) && !ValidName(Text(name))
              case NotFound => files == old(files) && ValidName(Text(name)) && Text(name) !in old(files)
              case TooLarge => files == old(files) && Text(name) in old(files) && |data| > 512
              case _ => false
    {
      var valid, i := Locate(name);
      if !valid {
        return InvalidName;
      }
      if i == MAX_FILES {
        return NotFound;
      }
      if |data| > FILE_MAX_BYTES {
        return TooLarge;
      }
      var bytes := OverwriteData(slots[i].data, data);
      Refill(i, slots[i].(data := bytes, length := |data|), Text(name), data);
      return Ok;
    }

    /** A slot in use gets new content under the same name. */
    method Refill(i: nat, slot: Slot, ghost name: string, ghost content: string)
      requires Valid() && i < MAX_FILES && slots[i].alive && Text(slots[i].name) == name
      requires slot.alive && slot.name == slots[i].name && SlotOk(slot) && slot.data[..slot.length] == content
      modifies this, slots
      ensures Valid() && files == old(files)[name := content]
    {
      RefillKeepsTable(slots[..], liveCount, files, home, i, slot, name, content);
      StoreSlot(i, slot, liveCount, files[name := content], home);
    }

    method Append(name: seq<char>, data: seq<char>) returns (result: Result)
      requires Valid() && Terminated(name)
      modifies this, slots
      ensures Valid() && result == AppendResult(old(files), Text(name), data)
      ensures files == Appended(old(files), Text(name), data)
      ensures match result
              case Ok =>
                && Text(name) in old(files) && old(|files[Text(name)]|) + |data| <= 512
                && files == old(files)[Text(name) := old(files[Text(name)]) + data]
              case InvalidName => files == old(files) && !ValidName(Text(name))
              case NotFound => files == old(files) && ValidName(Text(name)) && Text(name) !in old(files)
              case TooLarge =>
                files == old(files) && Text(name) in old(files) && old(|files[Text(name)]|) + |data| > 512
              case _ => false
    {
      var valid, i := Locate(name);
      if !valid {
        return InvalidName;
      }
      if i == MAX_FILES {
        return NotFound;
      }
      if |data| > FILE_MAX_BYTES - slots[i].length {
        return TooLarge;
      }
      var bytes := ExtendData(slots[i].data, slots[i].length, data);
      Refill(i, slots[i].(data := bytes, length := slots[i].length + |data|), Text(name), files[Text(name)] + data);
      return Ok;
    }

    /** The whole content at the front of the buffer, when it fits; otherwise nothing moves. */
    method Read(name: seq<char>, buffer: seq<char>, output: nat) returns (result: Result, data: seq<char>, length: nat)
      requires Valid() && Terminated(name)
      ensures result == ReadResult(files, Text(name), |buffer|)
      ensures result == Ok ==> length == |files[Text(name)]| && data == files[Text(name)] + buffer[length..]
      ensures result != Ok ==> data == buffer && length == output
      ensures match result
              case Ok => Text(name) in files && |files[Text(name)]| <= |buffer|
              case InvalidName => !ValidName(Text(name))
              case NotFound => ValidName(Text(name)) && Text(name) !in files
              case TooLarge => Text(name) in files && |files[Text(name)]| > |buffer|
              case _ => false
    {
      data, length := buffer, output;
      var valid, i := Locate(name);
      if !valid {
        return InvalidName, data, length;
      }
      if i == MAX_FILES {
        return NotFound, data, length;
      }
      if |buffer| < slots[i].length {
        return TooLarge, data, length;
      }
      length := slots[i].length;
      data := CopyOut(slots[i].data[..length], buffer);
      return Ok, data, length;
    }

    method Remove(name: seq<char>) returns (result: Result)
      requires Valid() && Terminated(name)
      modifies this, slots
      ensures Valid() && result == RemoveResult(old(files), Text(name)) && files == Removed(old(files), Text(name))
      ensures match result
              case Ok => Text(name) in old(files) && files == old(files) - {Text(name)}
              case InvalidName => files == old(files) && !ValidName(Text(name))
              case NotFound => files == old(files) && ValidName(Text(name)) && Text(name) !in old(files)
              case _ => false
    {
      var valid, i := Locate(name);
      if !valid {
        return InvalidName;
      }
      if i == MAX_FILES {
        return NotFound;
      }
      Vacate(i, Text(name));
      return Ok;
    }

    /** The files held are always legal. */
    lemma FilesAreOk()
      requires Valid()
      ensures FilesOk(files)
    {
      FullIffSixteen(View(slots[..]), files, home);
      forall n | n in files ensures ValidName(n) && |files[n]| <= FILE_MAX_BYTES {
        assert n in home;
        SlotFacts(slots[..], home[n]);
      }
    }

    /** The index-th file in slot order, for every index below the number of files; otherwise the
        caller's record is left alone. */
    method GetInfo(index: nat, output: FileInfo) returns (ok: bool, info: FileInfo, ghost slot: nat)
      requires Valid()
      ensures ok <==> index < |files|
      ensures ok ==> |info.name| == NAME_MAX + 1 && Text(info.name) in files && info.size == |files[Text(info.name)]|
      ensures ok ==> ListedAt(index, slot, Text(info.name))
      ensures !ok ==> info == output
    {
      info := output;
      var i;
      ok, i := NthFile(slots[..], index);
      slot := i;
      if ok {
        SlotFacts(slots[..], i);
        Present(View(slots[..]), files, home, i);
        info := FileInfo(slots[i].name, slots[i].length);
      }
    }

    /** The file of this name sits in that slot, with index files before it. */
    ghost predicate ListedAt(index: nat, slot: nat, name: string) reads this, slots {
      var view := View(slots[..]);
      slot < |view| && view[slot].File? && view[slot].name == name && Rank(view, slot) == index
    }

    method IsValid() returns (ok: bool)
      requires Valid()
      ensures ok
    {
      RepresentsIsWellFormed(slots[..], files, home);
      assert forall i :: 0 <= i < MAX_FILES ==> SlotOk(slots[..][i]);
      ok := Validate(slots[..], liveCount);
    }

    method Vacate(i: nat, ghost name: string)
      requires Valid() && i < MAX_FILES && slots[i].alive && Text(slots[i].name) == name
      modifies this, slots
      ensures Valid() && name in old(files) && files == old(files) - {name}
    {
      VacateKeepsTable(slots[..], liveCount, files, home, i, name);
      StoreSlot(i, FreeSlot(), liveCount - 1, files - {name}, home - {name});
    }
  }

  // ----- listing -----

  /** How many files sit before slot i. */
  function Rank(view: seq<Entry>, i: nat): nat
    requires i <= |view|
  {
    CountFiles(view[..i])
  }

  lemma RankStep(view: seq<Entry>, i: nat)
    requires i < |view|
    ensures Rank(view, i + 1) == Rank(view, i) + if view[i].File? then 1 else 0
  {
    assert view[..i + 1][..i] == view[..i];
  }

  lemma {:induction false} RankGrows(view: seq<Entry>, i: nat, j: nat)
    requires i < j <= |view|
    ensures Rank(view, i) <= Rank(view, j) && (view[i].File? ==> Rank(view, i) < Rank(view, j))
    decreases j
  {
    RankStep(view, j - 1);
    if i < j - 1 {
      RankGrows(view, i, j - 1);
    }
  }

  lemma RankOfAll(view: seq<Entry>)
    ensures Rank(view, |view|) == CountFiles(view)
  {
    assert view[..|view|] == view;
  }

  /** No two files have the same place in the listing, and every file has one. */
  lemma ListingIsOneToOne(view: seq<Entry>, i: nat, j: nat)
    requires i < |view| && j < |view| && view[i].File? && view[j].File?
    ensures Rank(view, i) == Rank(view, j) <==> i == j
    ensures Rank(view, i) < CountFiles(view)
  {
    RankOfAll(view);
    RankGrows(view, i, |view|);
    if i < j {
      RankGrows(view, i, j);
    } else if j < i {
      RankGrows(view, j, i);
    }
  }

  /** ramfs_get_info: the slot of the file with that many files before it. */
  method NthFile(slots: seq<Slot>, index: nat) returns (ok: bool, i: nat)
    requires SlotsOk(slots)
    ensures ok <==> index < CountFiles(View(slots))
    ensures ok ==> i < MAX_FILES && slots[i].alive && View(slots)[i].File? && Rank(View(slots), i) == index
  {
    ghost var view := View(slots);
    RankOfAll(view);
    i := 0;
    var liveIndex := 0;
    while i < MAX_FILES
      invariant 0 <= i <= MAX_FILES && liveIndex == Rank(view, i) <= index
    {
      SlotFacts(slots, i);
      RankStep(view, i);
      if slots[i].alive {
        if liveIndex == index {
          ListingIsOneToOne(view, i, i);
          return true, i;
        }
        liveIndex := liveIndex + 1;
      }
      i := i + 1;
    }
    return false, i;
  }

  // ----- validation -----

  ghost predicate Distinct(slots: seq<Slot>, i: nat, j: nat)
    requires i < |slots| && j < |slots|
  {
    slots[i].alive && slots[j].alive && i != j ==> Text(slots[i].name) != Text(slots[j].name)
  }

  /** What ramfs_validate decides, on arbitrary slots. */
  ghost predicate WellFormed(slots: seq<Slot>, liveCount: nat) {
    && SlotsOk(slots) && liveCount == CountFiles(View(slots))
    && forall i: nat, j: nat :: i < j < |slots| ==> Distinct(slots, i, j)
  }

  predicate Sized(s: Slot) {
    |s.name| == NAME_MAX + 1 && |s.data| == FILE_MAX_BYTES
  }

  method AllZero(s: seq<char>) returns (ok: bool)
    ensures ok <==> s == Zeros(|s|)
  {
    var index := 0;
    while index < |s|
      invariant 0 <= index <= |s| && forall k :: 0 <= k < index ==> s[k] == NUL
    {
      if s[index] != NUL {
        assert Zeros(|s|)[index] == NUL;
        return false;
      }
      index := index + 1;
    }
    assert s == Zeros(|s|);
    return true;
  }

  /** The checks on one slot by itself. */
  method CheckSlot(slot: Slot) returns (ok: bool)
    requires Sized(slot)
    ensures ok <==> SlotOk(slot)
  {
    if !slot.alive {
      var name := AllZero(slot.name);
      var data := AllZero(slot.data);
      return slot.length == 0 && name && data;
    }
    var valid := NameIsValid(slot.name);
    return valid && slot.length <= FILE_MAX_BYTES;
  }

  /** The inner loop: no later slot in use has the same name. */
  method NoTwin(slots: seq<Slot>, index: nat) returns (ok: bool)
    requires index < |slots| == MAX_FILES && (forall i :: 0 <= i < |slots| ==> Sized(slots[i])) && SlotOk(slots[index])
    requires slots[index].alive
    ensures ok <==> forall j: nat :: index < j < |slots| ==> Distinct(slots, index, j)
  {
    var other := index + 1;
    while other < MAX_FILES
      invariant index < other <= MAX_FILES
      invariant forall j: nat :: index < j < other ==> Distinct(slots, index, j)
    {
      if slots[other].alive {
        var same := NamesEqual(slots[index].name, slots[other].name);
        if same {
          assert !Distinct(slots, index, other);
          return false;
        }
      }
      other := other + 1;
    }
    return true;
  }

  /** The slots before index are well formed and distinct from everything after them. */
  ghost predicate CheckedUpTo(slots: seq<Slot>, index: nat) {
    && (forall i: nat :: i < index && i < |slots| ==> SlotOk(slots[i]))
    && forall i: nat, j: nat :: i < index && i < j < |slots| ==> Distinct(slots, i, j)
  }

  /** Decides well-formedness of any contents of the table. */
  method Validate(slots: seq<Slot>, liveCount: nat) returns (ok: bool)
    requires |slots| == MAX_FILES && forall i :: 0 <= i < |slots| ==> Sized(slots[i])
    ensures ok <==> WellFormed(slots, liveCount)
  {
    ghost var view := View(slots);
    CountIsFullIff(view);
    RankOfAll(view);
    if liveCount > MAX_FILES {
      return false;
    }
    var aliveCount, index := 0, 0;
    while index < MAX_FILES
      invariant 0 <= index <= MAX_FILES && aliveCount == Rank(view, index) && CheckedUpTo(slots, index)
    {
      var good := CheckSlot(slots[index]);
      if !good {
        return false;
      }
      RankStep(view, index);
      if slots[index].alive {
        aliveCount := aliveCount + 1;
        var single := NoTwin(slots, index);
        if !single {
          return false;
        }
      }
      index := index + 1;
    }
    return aliveCount == liveCount;
  }

  /** A table that represents some files is well formed, so validation never fails on it. */
  lemma RepresentsIsWellFormed(slots: seq<Slot>, files: Files, home: map<string, nat>)
    requires SlotsOk(slots) && Represents(View(slots), files, home)
    ensures WellFormed(slots, |files|)
  {
    forall i: nat, j: nat | i < j < |slots| ensures Distinct(slots, i, j) {
      SlotFacts(slots, i);
      SlotFacts(slots, j);
      assert View(slots)[i].File? && View(slots)[j].File? ==>
          home[View(slots)[i].name] == i && home[View(slots)[j].name] == j;
    }
  }

  /** The slots, the count and the files they stand for. */
  ghost predicate TableOk(slots: seq<Slot>, count: nat, files: Files, home: map<string, nat>) {
    SlotsOk(slots) && Represents(View(slots), files, home) && count == |files|
  }

  lemma OccupyKeepsTable(slots: seq<Slot>, count: nat, files: Files, home: map<string, nat>, e: nat, slot: Slot,
                         name: string)
    requires TableOk(slots, count, files, home) && e < MAX_FILES && View(slots)[e] == Dead && name !in files
    requires slot.alive && SlotOk(slot) && Text(slot.name) == name && slot.length == 0
    ensures TableOk(slots[e := slot], count + 1, files[name := ""], home[name := e])
  {
    assert EntryOf(slot) == File(name, "");
    ViewAfterUpdate(slots, e, slot);
    NewFileRepresents(View(slots), files, home, e, name);
    PutSize(files, name, "");
    SlotsStayOk(slots, e, slot);
  }

  lemma RefillKeepsTable(slots: seq<Slot>, count: nat, files: Files, home: map<string, nat>, i: nat, slot: Slot,
                         name: string, content: string)
    requires TableOk(slots, count, files, home) && i < MAX_FILES && slots[i].alive && Text(slots[i].name) == name
    requires slot.alive && SlotOk(slot) && Text(slot.name) == name && slot.data[..slot.length] == content
    ensures TableOk(slots[i := slot], count, files[name := content], home)
  {
    SlotFacts(slots, i);
    assert EntryOf(slot) == File(name, content);
    ViewAfterUpdate(slots, i, slot);
    NewContentRepresents(View(slots), files, home, i, name, content);
    PutSize(files, name, content);
    SlotsStayOk(slots, i, slot);
  }

  lemma VacateKeepsTable(slots: seq<Slot>, count: nat, files: Files, home: map<string, nat>, i: nat, name: string)
    requires TableOk(slots, count, files, home) && i < MAX_FILES && slots[i].alive && Text(slots[i].name) == name
    ensures name in files && count > 0 && TableOk(slots[i := FreeSlot()], count - 1, files - {name}, home - {name})
  {
    SlotFacts(slots, i);
    ViewAfterUpdate(slots, i, FreeSlot());
    NoFileRepresents(View(slots), files, home, i, name);
    RemoveSize(files, name);
    SlotsStayOk(slots, i, FreeSlot());
  }

  /** The slot of a name, or MAX_FILES when no slot in use has it. */
  method FindSlot(slots: seq<Slot>, name: seq<char>) returns (i: nat)
    requires SlotsOk(slots) && Terminated(name) && ValidName(Text(name))
    ensures i <= MAX_FILES && NotBefore(View(slots), Text(name), i)
    ensures i < MAX_FILES ==>
            slots[i].alive && Text(slots[i].name) == Text(name)
                && View(slots)[i] == File(Text(name), slots[i].data[..slots[i].length])
  {
    ghost var view := View(slots);
    i := 0;
    while i < MAX_FILES
      invariant 0 <= i <= MAX_FILES && NotBefore(view, Text(name), i)
    {
      SlotFacts(slots, i);
      if slots[i].alive {
        var same := NamesEqual(slots[i].name, name);
        if same {
          return;
        }
      }
      i := i + 1;
    }
  }

  /** The first dead slot, or MAX_FILES when all are in use. */
  method FindEmptySlot(slots: seq<Slot>) returns (i: nat)
    requires SlotsOk(slots)
    ensures i <= MAX_FILES && forall k :: 0 <= k < i ==> View(slots)[k].File?
    ensures i < MAX_FILES ==> View(slots)[i] == Dead
  {
    ghost var view := View(slots);
    i := 0;
    while i < MAX_FILES
      invariant 0 <= i <= MAX_FILES && forall k :: 0 <= k < i ==> view[k].File?
    {
      SlotFacts(slots, i);
      if !slots[i].alive {
        return;
      }
      i := i + 1;
    }
  }

  /** No slot before i holds this name. */
  ghost predicate NotBefore(view: seq<Entry>, name: string, i: nat) {
    forall k :: 0 <= k < i && k < |view| && view[k].File? ==> view[k].name != name
  }

  lemma SlotFacts(slots: seq<Slot>, i: nat)
    requires SlotsOk(slots) && i < |slots|
    ensures |slots[i].name| == NAME_MAX + 1 && |slots[i].data| == FILE_MAX_BYTES
    ensures View(slots)[i] == if slots[i].alive then File(Text(slots[i].name), slots[i].data[..slots[i].length])
            else Dead
    ensures slots[i].alive ==> ValidName(Text(slots[i].name)) && slots[i].length <= FILE_MAX_BYTES
  {
    assert SlotOk(slots[i]);
  }

  lemma Present(view: seq<Entry>, files: Files, home: map<string, nat>, i: nat)
    requires Represents(view, files, home) && i < |view| && view[i].File?
    ensures view[i].name in files && files[view[i].name] == view[i].content
  {
  }

  lemma FoundIff(view: seq<Entry>, files: Files, home: map<string, nat>, name: string, i: nat)
    requires Represents(view, files, home) && i <= |view| && NotBefore(view, name, i)
    requires (i < |view| ==> view[i].File? && view[i].name == name)
    ensures i < |view| <==> name in files
  {
    assert name in files ==> home[name] < |view|;
  }

  lemma SlotsStayOk(slots: seq<Slot>, i: nat, s: Slot)
    requires SlotsOk(slots) && i < |slots| && SlotOk(s)
    ensures SlotsOk(slots[i := s])
  {
    var after := slots[i := s];
    forall k | 0 <= k < |slots| ensures SlotOk(after[k]) {
      assert SlotOk(slots[k]);
    }
  }

  lemma EmptyRepresents(slots: seq<Slot>)
    requires |slots| == MAX_FILES && forall i :: 0 <= i < MAX_FILES ==> slots[i] == FreeSlot()
    ensures SlotsOk(slots) && Represents(View(slots), map[], map[])
  {
    NoFiles(View(slots));
  }

  lemma {:induction false} NoFiles(view: seq<Entry>)
    requires forall i :: 0 <= i < |view| ==> view[i] == Dead
    ensures CountFiles(view) == 0
  {
    if view != [] {
      NoFiles(view[..|view| - 1]);
    }
  }
}
