/** C strings: a sequence of characters read up to its first NUL. */
module Strings {

  const NUL: char := '\0'
  const BACKSPACE: char := '\U{0008}'

  /** The text of a buffer: everything before its first NUL. */
  function Text(s: seq<char>): string {
    if s == [] || s[0] == NUL then "" else [s[0]] + Text(s[1..])
  }

  predicate Terminated(s: seq<char>) {
    NUL in s
  }

  /** A text as the C string that holds it. */
  function CString(t: string): seq<char> {
    t + [NUL]
  }

  lemma {:induction false} TextIs(s: seq<char>, k: nat)
    requires k <= |s| && (forall i :: 0 <= i < k ==> s[i] != NUL) && (k < |s| ==> s[k] == NUL)
    ensures Text(s) == s[..k]
  {
    if k > 0 {
      TextIs(s[1..], k - 1);
      assert s[..k] == [s[0]] + s[1..][..k - 1];
    }
  }

  lemma {:induction false} TextIsPrefix(s: seq<char>)
    ensures var k := |Text(s)|; k <= |s| && Text(s) == s[..k] && NUL !in Text(s) && (k < |s| ==> s[k] == NUL)
    ensures Terminated(s) ==> |Text(s)| < |s|
  {
    if s != [] && s[0] != NUL {
      TextIsPrefix(s[1..]);
      assert Terminated(s) ==> Terminated(s[1..]);
    }
  }

  predicate Reads(s: seq<char>, k: nat) {
    && k < |s| && k <= |Text(s)|
    && if k < |Text(s)| then s[k] == Text(s)[k] != NUL else s[k] == NUL
  }

  /** What a cursor into a C string reads: its text, then the terminator. */
  lemma CharAt(s: seq<char>, k: nat)
    requires Terminated(s) && k <= |Text(s)|
    ensures Reads(s, k)
  {
    TextIsPrefix(s);
  }

  /** Whatever follows the terminator does not belong to the text. */
  lemma TextOfBuffer(t: string, rest: seq<char>)
    requires NUL !in t
    ensures Text(CString(t) + rest) == t && Terminated(CString(t) + rest)
  {
    var s := CString(t) + rest;
    assert s[|t|] == NUL;
    TextIs(s, |t|);
  }

  lemma TextOfCString(t: string)
    requires NUL !in t
    ensures Text(CString(t)) == t && Terminated(CString(t))
  {
    TextIs(CString(t), |t|);
  }

  /** Copying a text or file into the front of a buffer, character by character. */
  method CopyOut(content: seq<char>, buffer: seq<char>) returns (result: seq<char>)
    requires |content| <= |buffer|
    ensures result == content + buffer[|content|..]
  {
    result := buffer;
    var index := 0;
    while index < |content|
      invariant 0 <= index <= |content| && |result| == |buffer|
      invariant forall k :: 0 <= k < |buffer| ==> result[k] == if k < index then content[k] else buffer[k]
    {
      result := result[index := content[index]];
      index := index + 1;
    }
    assert result == content + buffer[|content|..];
  }
}
