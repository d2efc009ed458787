/** An opened text file as the iterator uses it: the lines `readline` returns,
    and a read cursor. */
module Streams {
  import opened Text

  datatype Stream = Stream(lines: seq<string>, pos: nat) {

    /** The cursor lies within the file and no line is the empty string, which
        `readline` reserves for the end of the file. */
    predicate Valid() {
      pos <= |lines| && forall j :: 0 <= j < |lines| ==> lines[j] != []
    }

    predicate AtEnd() {
      pos >= |lines|
    }

    /** How many more lines `readline` will return before the end of file. */
    function Remaining(): (n: nat)
      ensures pos <= |lines| ==> pos + n == |lines|
    {
      if pos <= |lines| then |lines| - pos else 0
    }
  }

  /** Opening a file: its lines, cursor at the start. */
  function Open(text: string): (s: Stream)
    ensures s.Valid() && s.pos == 0
    ensures Concat(s.lines) == text
  {
    ConcatSplitLines(text);
    Stream(SplitLines(text), 0)
  }

  /** `readline`: the next line and the advanced stream, or "" and the same
      stream at the end of file. */
  function ReadLine(s: Stream): (r: (string, Stream))
    requires s.Valid()
    ensures r.1.Valid() && r.1.lines == s.lines
    ensures r.0 == "" <==> s.AtEnd()
    ensures !s.AtEnd() ==> r.0 == s.lines[s.pos] && r.1.pos == s.pos + 1
    ensures s.AtEnd() ==> r.1 == s
  {
    if s.pos < |s.lines| then (s.lines[s.pos], s.(pos := s.pos + 1)) else ("", s)
  }

  /** `seek(0)`. */
  function Rewind(s: Stream): (r: Stream)
    ensures r.lines == s.lines && r.pos == 0
    ensures s.Valid() ==> r.Valid()
  {
    s.(pos := 0)
  }
}
