/** The text half of `read_ddl`: the file's contents are walked one character
    at a time and every line break is dropped, so that a statement spread over
    several lines becomes one line. Reading the file is not modelled; the
    contents arrive as a parameter. */
module Normalizer {
  import opened PyStrings

  /** `for line in input_file.read(): ddl += line.replace("\n", "")`.
      The result is the text with exactly its line breaks deleted. */
  method JoinLines(text: string) returns (ddl: string)
    ensures ddl == RemoveChar(text, '\n')
  {
    ddl := "";
    var i := 0;
    while i < |text|
      invariant 0 <= i <= |text|
      invariant ddl == RemoveChar(text[..i], '\n')
    {
      var line := [text[i]];
      assert text[..i + 1] == text[..i] + line;
      RemoveCharAppend(text[..i], line, '\n');
      ddl := ddl + RemoveChar(line, '\n');
      i := i + 1;
    }
    assert text[..|text|] == text;
  }

  /** Joining lines deletes exactly the line breaks: none is left, every other
      character keeps its count, the order of the rest is kept (the text is
      the concatenation of its lines), and joining again changes nothing. */
  lemma {:induction false} JoinLinesFacts(text: string)
    ensures '\n' !in RemoveChar(text, '\n')
    ensures multiset(RemoveChar(text, '\n')) == multiset(text)['\n' := 0]
    ensures RemoveChar(text, '\n') == Concat(Split(text, '\n'))
    ensures RemoveChar(RemoveChar(text, '\n'), '\n') == RemoveChar(text, '\n')
  {
    RemoveCharCounts(text, '\n');
    RemoveCharIsConcatOfSplit(text, '\n');
    RemoveCharIdempotent(text, '\n');
  }
}
