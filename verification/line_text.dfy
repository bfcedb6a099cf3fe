/**
 The text layer under the record format: the file is the lines of the
 dictionary each followed by a newline, and the loader reads it back line by
 line the way a `getline` loop does.
 */
module LineText {
  import opened Wrappers

  /** The line terminator written after every record. */
  const Newline: char := '\n'

  /** Position of the first occurrence of `c` in `s`, as a string search
      reports it; `None` when `c` does not occur. */
  function IndexOf(s: string, c: char): (r: Option<nat>)
    ensures r.None? <==> c !in s
    ensures r.Some? ==> r.value < |s| && s[r.value] == c
    ensures r.Some? ==> forall j :: 0 <= j < r.value ==> s[j] != c
  {
    if s == [] then None
    else if s[0] == c then Some(0)
    else match IndexOf(s[1..], c)
      case None => None
      case Some(i) => Some(i + 1)
  }

  /** Searching `u + [c] + v` finds the `c` right after `u` when `u` holds none. */
  lemma {:induction false} IndexOfAfter(u: string, c: char, v: string)
    requires c !in u
    ensures IndexOf(u + [c] + v, c) == Some(|u|)
    decreases |u|
  {
    if u == [] {
      assert (u + [c] + v)[0] == c;
    } else {
      assert (u + [c] + v)[1..] == u[1..] + [c] + v;
      IndexOfAfter(u[1..], c, v);
    }
  }

  /** The file contents: every line followed by a newline. The text is empty
      exactly when there are no lines, and otherwise ends with a newline. */
  function Join(lines: seq<string>): (text: string)
    ensures text == [] <==> lines == []
    ensures lines != [] ==> text[|text| - 1] == Newline
  {
    if lines == [] then [] else lines[0] + [Newline] + Join(lines[1..])
  }

  /** Writing one more line in front of lines that give back `tail`, with or
      without a final newline, gives back that line, a newline and `tail`. */
  lemma JoinPrepend(a: string, rest: seq<string>, tail: string)
    requires Join(rest) == tail || Join(rest) == tail + [Newline]
    ensures Join([a] + rest) == a + [Newline] + tail ||
            Join([a] + rest) == a + [Newline] + tail + [Newline]
  {
    assert ([a] + rest)[1..] == rest;
  }

  /** A character absent from the joined text is absent from every line. */
  lemma {:induction false} JoinOmits(lines: seq<string>, c: char)
    requires c !in Join(lines)
    ensures forall i :: 0 <= i < |lines| ==> c !in lines[i]
    decreases |lines|
  {
    if lines != [] {
      assert Join(lines) == lines[0] + ([Newline] + Join(lines[1..]));
      JoinOmits(lines[1..], c);
      forall i | 1 <= i < |lines|
        ensures c !in lines[i]
      {
        assert lines[i] == lines[1..][i - 1];
      }
    }
  }

  /** The lines a `getline` loop reads from `text`: text up to each newline,
      and a last line without a newline if any text remains after the final
      one. No line read holds a newline, and writing the lines back gives the
      text, with a final newline added when the text lacked one. */
  function SplitLines(text: string): (lines: seq<string>)
    ensures forall i :: 0 <= i < |lines| ==> Newline !in lines[i]
    ensures text == [] <==> lines == []
    ensures Join(lines) == text || Join(lines) == text + [Newline]
    ensures text != [] && text[|text| - 1] == Newline ==> Join(lines) == text
    ensures text != [] && text[|text| - 1] != Newline ==> Join(lines) == text + [Newline]
    decreases |text|
  {
    if text == [] then []
    else
      var found := IndexOf(text, Newline);
      if found.None? then
        JoinPrepend(text, [], []);
        [text]
      else
        var i := found.value;
        var rest := SplitLines(text[i + 1..]);
        SplitStep(text, i, rest);
        [text[..i]] + rest
  }

  /** One step of the line reader: the line before the first newline, followed
      by the lines read from the text after it. */
  lemma SplitStep(text: string, i: nat, rest: seq<string>)
    requires i < |text| && text[i] == Newline && Newline !in text[..i]
    requires forall j :: 0 <= j < |rest| ==> Newline !in rest[j]
    requires Join(rest) == text[i + 1..] || Join(rest) == text[i + 1..] + [Newline]
    ensures forall j :: 0 <= j < |[text[..i]] + rest| ==> Newline !in ([text[..i]] + rest)[j]
    ensures Join([text[..i]] + rest) == text || Join([text[..i]] + rest) == text + [Newline]
    ensures Join(rest) == text[i + 1..] ==> Join([text[..i]] + rest) == text
  {
    assert text == text[..i] + [Newline] + text[i + 1..];
    JoinPrepend(text[..i], rest, text[i + 1..]);
    forall j | 0 <= j < |[text[..i]] + rest|
      ensures Newline !in ([text[..i]] + rest)[j]
    {
      if j > 0 {
        assert ([text[..i]] + rest)[j] == rest[j - 1];
      }
    }
  }

  /** Reading back the file written from `lines` yields `lines`, as long as no
      line holds a newline itself. */
  lemma {:induction false} SplitJoin(lines: seq<string>)
    requires forall i :: 0 <= i < |lines| ==> Newline !in lines[i]
    ensures SplitLines(Join(lines)) == lines
    decreases |lines|
  {
    if lines != [] {
      var text := Join(lines);
      IndexOfAfter(lines[0], Newline, Join(lines[1..]));
      assert text[..|lines[0]|] == lines[0];
      assert text[|lines[0]| + 1..] == Join(lines[1..]);
      SplitJoin(lines[1..]);
      assert lines == [lines[0]] + lines[1..];
    }
  }

  /** A newline inside a line splits it in two when the file is read back. */
  lemma NewlineSplitsLine(a: string, b: string)
    requires Newline !in a && Newline !in b
    ensures SplitLines(Join([a + [Newline] + b])) == [a, b]
  {
    assert [a, b][1..] == [b] && [b][1..] == [];
    assert Join([a + [Newline] + b]) == Join([a, b]);
    SplitJoin([a, b]);
  }
}
