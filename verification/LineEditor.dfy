/** kernel/shell/line_editor.c: one line of at most 127 printable characters. */
module LineEditor {
  import opened Words
  import opened Strings

  const LINE_MAX: nat := 127

  datatype LineEvent = NoEvent | EchoChar | EraseChar | LineReady | LineFull

  predicate IsPrintable(c: char) {
    0x20 <= c as int <= 0x7E
  }

  predicate EndsLine(c: char) {
    c == '\n' || c == '\r'
  }

  /** The line after one more character, as long as it is not submitted. */
  function Edit(text: string, c: char): string {
    if c == BACKSPACE then (if text == "" then "" else text[..|text| - 1])
    else if IsPrintable(c) && |text| < LINE_MAX then text + [c]
    else text
  }

  predicate LineOk(text: string) {
    |text| <= LINE_MAX && forall i :: 0 <= i < |text| ==> IsPrintable(text[i])
  }

  lemma EditKeepsLineOk(text: string, c: char)
    requires LineOk(text)
    ensures LineOk(Edit(text, c)) && NUL !in text
  {
  }

  /** What a whole sequence of keys leaves on the line. */
  function Typed(keys: seq<char>): string {
    if keys == [] then "" else Edit(Typed(keys[..|keys| - 1]), keys[|keys| - 1])
  }

  /** A character followed by a backspace leaves a line as it was, unless the line was full. */
  lemma BackspaceUndoes(text: string, c: char)
    requires LineOk(text) && IsPrintable(c) && c != BACKSPACE
    ensures Edit(Edit(text, c), BACKSPACE) == text <==> |text| < LINE_MAX
  {
    if |text| < LINE_MAX {
      assert (text + [c])[..|text|] == text;
    }
  }

  class Editor {
    const buffer: array<char>
    var length: nat
    var overflowCount: word
    var ready: bool

    ghost predicate Valid() reads this, buffer {
      && buffer.Length == LINE_MAX + 1 && length <= LINE_MAX
      && (forall i :: length <= i < buffer.Length ==> buffer[i] == NUL)
      && LineOk(Line())
    }

    ghost function Line(): string
      reads this, buffer
    {
      if length <= buffer.Length then buffer[..length] else ""
    }

    constructor ()
      ensures Valid() && Line() == "" && !ready && overflowCount == 0 && fresh(buffer)
    {
      buffer := new char[LINE_MAX + 1](_ => NUL);
      length, overflowCount, ready := 0, 0, false;
    }

    method ClearLineBuffer()
      requires buffer.Length == LINE_MAX + 1
      modifies this`length, this`ready, buffer
      ensures Valid() && Line() == "" && !ready
    {
      var index := 0;
      while index <= LINE_MAX
        invariant 0 <= index <= LINE_MAX + 1
        invariant forall i :: 0 <= i < index ==> buffer[i] == NUL
      {
        buffer[index] := NUL;
        index := index + 1;
      }
      length, ready := 0, false;
    }

    method Init()
      requires buffer.Length == LINE_MAX + 1
      modifies this, buffer
      ensures Valid() && Line() == "" && !ready && overflowCount == 0
    {
      ClearLineBuffer();
      overflowCount := 0;
    }

    /** One key: the line is edited, submitted, or, once submitted, left alone. */
    method Feed(c: char) returns (event: LineEvent)
      requires Valid()
      modifies this, buffer
      ensures Valid()
      ensures Line() == if old(ready) || EndsLine(c) then old(Line()) else Edit(old(Line()), c)
      ensures ready <==> old(ready) || EndsLine(c)
      ensures event == LineReady <==> !old(ready) && EndsLine(c)
      ensures event == EchoChar <==> !old(ready) && Line() == old(Line()) + [c]
      ensures event == EraseChar <==> !old(ready) && c == BACKSPACE && old(Line()) != ""
      ensures event == LineFull <==> !old(ready) && IsPrintable(c) && |old(Line())| == LINE_MAX
      ensures overflowCount == if event == LineFull then Add32(old(overflowCount), 1) else old(overflowCount)
    {
      if ready {
        return NoEvent;
      }
      if c == BACKSPACE {
        if length == 0 {
          return NoEvent;
        }
        length := length - 1;
        buffer[length] := NUL;
        assert Line() == old(Line())[..length];
        return EraseChar;
      }
      if c == '\n' || c == '\r' {
        ready := true;
        return LineReady;
      }
      if !IsPrintable(c) {
        return NoEvent;
      }
      if length >= LINE_MAX {
        overflowCount := Add32(overflowCount, 1);
        return LineFull;
      }
      buffer[length] := c;
      length := length + 1;
      buffer[length] := NUL;
      assert Line() == old(Line()) + [c];
      return EchoChar;
    }

    /** Puts a submitted line into the caller's buffer as a C string and starts the next one;
        otherwise neither the editor nor the buffer moves. */
    method Take(output: seq<char>) returns (ok: bool, line: seq<char>)
      requires Valid()
      modifies this`length, this`ready, buffer
      ensures Valid() && (ok <==> old(ready) && |output| > |old(Line())|)
      ensures ok ==> line == CString(old(Line())) + output[|old(Line())| + 1..] && Line() == "" && !ready
      ensures !ok ==> line == output && Line() == old(Line()) && ready == old(ready)
    {
      line := output;
      if !ready || length > LINE_MAX || |output| <= length {
        return false, line;
      }
      assert buffer[..length + 1] == CString(Line());
      line := CopyOut(buffer[..length + 1], output);
      ClearLineBuffer();
      return true, line;
    }
  }
}
