/**
 Saving the dictionary to its text file and loading it back: the record lines
 joined with newlines, and the `getline` loop feeding each line to the
 decoder. Opening and closing the file are left to the caller.
 */
module Persistence {
  import opened Wrappers
  import opened TrieStore
  import opened LineText
  import opened FlatFileCodec

  /** The text the save routine writes for `t`: empty exactly when `t` stores
      no word. */
  function Save(t: Trie): (text: string)
    ensures text == [] <==> forall w :: Lookup(t, w) == None
  {
    EncodeEmpty(t);
    Join(Encode(t))
  }

  /** The dictionary the startup routine loads from `text`. Text without a
      separator loads no word, and no key holding a separator is ever found. */
  function Load(text: string): (t: Trie)
    ensures Separator !in text ==> forall w :: Lookup(t, w) == None
    ensures forall w :: Separator in w ==> Lookup(t, w) == None
  {
    var lines := SplitLines(text);
    assert Separator !in text ==> forall w :: Lookup(Decode(lines), w) == None by {
      if Separator !in text {
        assert Separator !in Join(lines);
        JoinOmits(lines, Separator);
        DecodeWithoutRecords(lines);
      }
    }
    assert forall w :: Separator in w ==> Lookup(Decode(lines), w) == None by {
      forall w | Separator in w
        ensures Lookup(Decode(lines), w) == None
      {
        DecodedWordsHaveNoSeparator(lines, w);
      }
    }
    Decode(lines)
  }

  /** No stored word or definition holds the line terminator. */
  ghost predicate NoNewlines(t: Trie) {
    forall w :: Lookup(t, w).Some? ==> Newline !in w && Newline !in Lookup(t, w).value
  }

  /** Saving and loading back preserves every lookup, provided no word holds
      a separator and no word or definition holds a newline: neither
      character is escaped in the file. */
  lemma FileRoundTrip(t: Trie)
    requires NoSeparatorInWords(t) && NoNewlines(t)
    ensures forall w :: Lookup(Load(Save(t)), w) == Lookup(t, w)
  {
    var lines := Encode(t);
    SavedLinesHaveNoNewline(t, lines);
    SplitJoin(lines);
    assert Load(Save(t)) == Decode(lines);
    RoundTrip(t);
  }

  /** When no word or definition holds a newline, neither does a saved line. */
  lemma SavedLinesHaveNoNewline(t: Trie, lines: seq<string>)
    requires NoNewlines(t)
    requires forall i :: 0 <= i < |lines| ==> IsStoredRecord(t, lines[i])
    ensures forall i :: 0 <= i < |lines| ==> Newline !in lines[i]
  {
    forall i | 0 <= i < |lines|
      ensures Newline !in lines[i]
    {
      assert IsStoredRecord(t, lines[i]);
      var w :| Lookup(t, w).Some? && lines[i] == Record(w, Lookup(t, w).value);
      assert lines[i] == w + [Separator] + Lookup(t, w).value;
    }
  }

  /** The record of a definition holding a newline reads back as two lines:
      the record up to the newline, then the rest of the definition. */
  lemma RecordSplitsAtNewline(w: string, d1: string, d2: string)
    requires Newline !in w && Newline !in d1 && Newline !in d2
    ensures Load(Join([Record(w, d1 + [Newline] + d2)])) == Decode([Record(w, d1), d2])
  {
    var first := Record(w, d1);
    var text := Join([Record(w, d1 + [Newline] + d2)]);
    assert Record(w, d1 + [Newline] + d2) == first + [Newline] + d2;
    assert Newline !in first by {
      assert first == w + [Separator] + d1;
    }
    NewlineSplitsLine(first, d2);
  }

  /** A newline inside a definition cuts it short: the file holds the record
      up to the newline, then a line without a separator that is skipped. */
  lemma NewlineInDefinitionTruncates(w: string, d1: string, d2: string)
    requires Separator !in w && Separator !in d2
    requires Newline !in w && Newline !in d1 && Newline !in d2
    ensures Lookup(Load(Join([Record(w, d1 + [Newline] + d2)])), w) == Some(d1)
    ensures forall k :: k != w ==> Lookup(Load(Join([Record(w, d1 + [Newline] + d2)])), k) == None
  {
    var first := Record(w, d1);
    RecordSplitsAtNewline(w, d1, d2);
    var lines := [first, d2];
    ParseRecord(w, d1);
    assert ParseLine(d2) == None;
    assert lines[..1] == [first] && [first][..0] == [];
    assert LastDef([first], w) == Some(d1);
    assert LastDef(lines, w) == Some(d1);
    DecodeSkipsMalformed([first], d2);
    forall k | k != w
      ensures LastDef([first], k) == None
    {
    }
  }

  /** When the part of a definition after a newline is itself a record, it
      loads as a word of its own: the file gains a word that was never added,
      and the first word keeps only the text before the newline. */
  lemma NewlineInDefinitionAddsWord(w: string, d1: string, x: string, y: string)
    requires Separator !in w && Separator !in x && w != x
    requires Newline !in w && Newline !in d1 && Newline !in x && Newline !in y
    ensures var t := Load(Join([Record(w, d1 + [Newline] + Record(x, y))]));
      Lookup(t, w) == Some(d1) && Lookup(t, x) == Some(y)
  {
    var first := Record(w, d1);
    var second := Record(x, y);
    assert Newline !in second by {
      assert second == x + [Separator] + y;
    }
    RecordSplitsAtNewline(w, d1, second);
    DecodeTwoRecords(w, d1, x, y);
  }

  /** Loading the records of two different comma-free words stores both. */
  lemma DecodeTwoRecords(w: string, d1: string, x: string, y: string)
    requires Separator !in w && Separator !in x && w != x
    ensures var t := Decode([Record(w, d1), Record(x, y)]);
      Lookup(t, w) == Some(d1) && Lookup(t, x) == Some(y)
  {
    var first := Record(w, d1);
    var lines := [first, Record(x, y)];
    ParseRecord(w, d1);
    ParseRecord(x, y);
    assert lines[..1] == [first] && [first][..0] == [];
    assert LastDef([first], w) == Some(d1);
  }

  /** Two words stored one after the other into an empty dictionary: both
      are found, every other key is not, and a save and load keeps it so,
      provided neither word holds a separator or newline and neither
      definition holds a newline. */
  lemma TwoWordSession(a: string, da: string, b: string, db: string, k: string)
    requires a != b && k != a && k != b
    requires Separator !in a && Separator !in b
    requires Newline !in a && Newline !in b && Newline !in da && Newline !in db
    ensures var t := Insert(Insert(Empty(), a, da), b, db);
      && Lookup(t, a) == Some(da) && Lookup(t, b) == Some(db) && Lookup(t, k) == None
      && Lookup(Load(Save(t)), a) == Some(da) && Lookup(Load(Save(t)), b) == Some(db)
      && Lookup(Load(Save(t)), k) == None
  {
    var t1 := Insert(Empty(), a, da);
    var t := Insert(t1, b, db);
    forall w | Lookup(t, w).Some?
      ensures w == a || w == b
    {
      if w != b {
        assert Lookup(t, w) == Lookup(t1, w);
      }
    }
    FileRoundTrip(t);
  }

  /** A session that stores "hello" and "help", which share a prefix: "hello"
      is found, "hel" and "helpful" are not, and "help" is still found after
      a save and load. The keys are passed as parameters bound to those
      strings. */
  lemma HelloHelpScenario(hello: string, hel: string, help: string, helpful: string)
    requires hello == "hello" && hel == "hel" && help == "help" && helpful == "helpful"
    ensures var t := Insert(Insert(Empty(), hello, "a greeting"), help, "assistance");
      && Lookup(t, hello) == Some("a greeting")
      && Lookup(t, hel) == None
      && Lookup(t, helpful) == None
      && Lookup(Load(Save(t)), help) == Some("assistance")
  {
    assert |hello| == 5 && |hel| == 3 && |help| == 4 && |helpful| == 7;
    TwoWordSession(hello, "a greeting", help, "assistance", hel);
    TwoWordSession(hello, "a greeting", help, "assistance", helpful);
  }
}
