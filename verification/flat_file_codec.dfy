/**
 The flat-file record format of the dictionary: one line `word,definition`
 per stored word, written by a depth-first walk of the tree and read back by
 splitting each line at its first comma.
 */
module FlatFileCodec {
  import opened Wrappers
  import opened TrieStore
  import opened LineText

  /** The field separator between word and definition. */
  const Separator: char := ','

  /** The record written for one stored word. It holds a separator, and when
      the word holds none the first separator is the one right after it. */
  function Record(w: string, d: string): (line: string)
    ensures Separator in line
    ensures Separator !in w ==> IndexOf(line, Separator) == Some(|w|)
  {
    var line := w + [Separator] + d;
    assert line[|w|] == Separator;
    assert Separator !in w ==> IndexOf(line, Separator) == Some(|w|) by {
      if Separator !in w {
        IndexOfAfter(w, Separator, d);
      }
    }
    line
  }

  /** Splits a line at its first separator into word and definition; a line
      without a separator yields `None` and is skipped by the loader. */
  function ParseLine(line: string): (r: Option<(string, string)>)
    ensures r.None? <==> Separator !in line
    ensures r.Some? ==> line == Record(r.value.0, r.value.1) && Separator !in r.value.0
  {
    match IndexOf(line, Separator)
    case None => None
    case Some(i) =>
      assert line == line[..i] + [Separator] + line[i + 1..];
      Some((line[..i], line[i + 1..]))
  }

  /** A line splits into a word without a separator and a definition in at
      most one way. */
  lemma RecordUnique(w1: string, d1: string, w2: string, d2: string)
    requires Record(w1, d1) == Record(w2, d2)
    requires Separator !in w1 && Separator !in w2
    ensures w1 == w2 && d1 == d2
  {
    var line := Record(w1, d1);
    assert w1 == line[..|w1|] == w2;
    assert d1 == line[|w1| + 1..] == d2;
  }

  /** Reading back the record of `(w, d)` gives `(w, d)` exactly when the word
      holds no separator; the definition may hold any number of them. */
  lemma ParseRecord(w: string, d: string)
    ensures ParseLine(Record(w, d)) == Some((w, d)) <==> Separator !in w
  {
    var r := ParseLine(Record(w, d));
    if Separator !in w {
      RecordUnique(w, d, r.value.0, r.value.1);
    }
  }

  /** The smallest character of a non-empty set. */
  function MinChar(s: set<char>): (m: char)
    requires s != {}
    ensures m in s && forall c :: c in s ==> m <= c
  {
    MinCharExists(s);
    var m :| m in s && forall c :: c in s ==> m <= c;
    m
  }

  /** Every non-empty finite set of characters has a least element. */
  lemma MinCharExists(s: set<char>)
    requires s != {}
    ensures exists m :: m in s && forall c :: c in s ==> m <= c
  {
    var m := LeastChar(s);
  }

  /** A least element of a non-empty finite set of characters. */
  lemma {:induction false} LeastChar(s: set<char>) returns (m: char)
    requires s != {}
    ensures m in s && forall c :: c in s ==> m <= c
    decreases |s|
  {
    var x :| x in s;
    var rest := s - {x};
    if rest == {} {
      m := x;
    } else {
      var m' := LeastChar(rest);
      m := if x < m' then x else m';
    }
    forall c | c in s
      ensures m <= c
    {
      if c != x {
        assert c in rest;
      }
    }
  }

  /** No two pairs share a word. */
  predicate DistinctWords(es: seq<(string, string)>) {
    forall i, j :: 0 <= i < j < |es| ==> es[i].0 != es[j].0
  }

  /** The `(word, definition)` pairs a depth-first walk from `t` reports, where
      `prefix` spells the path to `t`: the node's own pair first when it is
      terminal, then those of its subtrees. The walk visits siblings in
      ascending character order, one of the orders a hash map may yield.
      Every pair names a word below `prefix` that `t` stores with that
      definition, and no word is reported twice. */
  function Entries(t: Trie, prefix: string): (es: seq<(string, string)>)
    ensures forall e :: e in es ==>
      IsPrefix(prefix, e.0) && Lookup(t, e.0[|prefix|..]) == Some(e.1)
    ensures DistinctWords(es)
    decreases t, 1, 0
  {
    var own: seq<(string, string)> := if t.isEnd then [(prefix, t.def)] else [];
    var rest := ChildEntries(t, t.children.Keys, prefix);
    assert prefix[|prefix|..] == [];
    DistinctConcat(own, rest);
    own + rest
  }

  /** The pairs reported by the subtrees of `t` under the edges in `keys`:
      each names a stored word that continues `prefix` with one of those
      edges, and no word is reported twice. */
  function ChildEntries(t: Trie, keys: set<char>, prefix: string): (es: seq<(string, string)>)
    requires keys <= t.children.Keys
    ensures forall e :: e in es ==>
      |prefix| < |e.0| && IsPrefix(prefix, e.0) && e.0[|prefix|] in keys &&
      Lookup(t, e.0[|prefix|..]) == Some(e.1)
    ensures DistinctWords(es)
    decreases t, 0, |keys|
  {
    if keys == {} then []
    else
      var k := MinChar(keys);
      var p := prefix + [k];
      var a := Entries(t.children[k], p);
      var b := ChildEntries(t, keys - {k}, prefix);
      assert forall e :: e in a ==>
        |prefix| < |e.0| && IsPrefix(prefix, e.0) && e.0[|prefix|] == k &&
        Lookup(t, e.0[|prefix|..]) == Some(e.1) by {
        forall e | e in a
          ensures |prefix| < |e.0| && IsPrefix(prefix, e.0) && e.0[|prefix|] == k
          ensures Lookup(t, e.0[|prefix|..]) == Some(e.1)
        {
          assert e.0[..|p|] == p;
          assert e.0[|prefix|] == p[|prefix|] == k;
          assert e.0[..|prefix|] == p[..|prefix|] == prefix;
          assert e.0[|prefix|..][1..] == e.0[|p|..];
        }
      }
      DistinctConcat(a, b);
      a + b
  }

  /** `line` is the record of some word `t` stores, with its definition. */
  ghost predicate IsStoredRecord(t: Trie, line: string) {
    exists w :: Lookup(t, w).Some? && line == Record(w, Lookup(t, w).value)
  }

  /** `lines` holds exactly one record per listed pair, the pairs are the
      words `t` stores with their definitions, each listed once. */
  ghost predicate OneRecordPerWord(t: Trie, lines: seq<string>) {
    exists es: seq<(string, string)> ::
      DistinctWords(es) && |es| == |lines| &&
      (forall i :: 0 <= i < |es| ==>
        lines[i] == Record(es[i].0, es[i].1) && Lookup(t, es[i].0) == Some(es[i].1)) &&
      forall w :: Lookup(t, w).Some? ==> (w, Lookup(t, w).value) in es
  }

  /** The lines the save routine writes for `t`: each is the record of a word
      `t` stores, every stored word has its record among them, and no word is
      written twice. */
  function Encode(t: Trie): (lines: seq<string>)
    ensures forall i :: 0 <= i < |lines| ==> IsStoredRecord(t, lines[i])
    ensures forall w :: Lookup(t, w).Some? ==> Record(w, Lookup(t, w).value) in lines
    ensures OneRecordPerWord(t, lines)
  {
    var es := Entries(t, []);
    var lines := seq(|es|, i requires 0 <= i < |es| => Record(es[i].0, es[i].1));
    EncodedLinesSound(t, es, lines);
    EncodedLinesComplete(t, es, lines);
    EncodedLinesOnce(t, es, lines);
    lines
  }

  /** The save routine writes no line exactly when no word is stored. */
  lemma EncodeEmpty(t: Trie)
    ensures Encode(t) == [] <==> forall w :: Lookup(t, w) == None
  {
    if Encode(t) != [] {
      assert IsStoredRecord(t, Encode(t)[0]);
      var w :| Lookup(t, w).Some? && Encode(t)[0] == Record(w, Lookup(t, w).value);
      assert Lookup(t, w) != None;
    } else {
      forall w
        ensures Lookup(t, w) == None
      {
      }
    }
  }

  /** Each record written from the walk's pairs is that of a stored word. */
  lemma EncodedLinesSound(t: Trie, es: seq<(string, string)>, lines: seq<string>)
    requires es == Entries(t, [])
    requires |lines| == |es| && forall i :: 0 <= i < |es| ==> lines[i] == Record(es[i].0, es[i].1)
    ensures forall i :: 0 <= i < |lines| ==> IsStoredRecord(t, lines[i])
  {
    forall i | 0 <= i < |lines|
      ensures IsStoredRecord(t, lines[i])
    {
      assert es[i] in es;
      assert es[i].0[0..] == es[i].0;
      assert Lookup(t, es[i].0) == Some(es[i].1);
    }
  }

  /** The records written from the walk's pairs list each stored word once. */
  lemma EncodedLinesOnce(t: Trie, es: seq<(string, string)>, lines: seq<string>)
    requires es == Entries(t, [])
    requires |lines| == |es| && forall i :: 0 <= i < |es| ==> lines[i] == Record(es[i].0, es[i].1)
    ensures OneRecordPerWord(t, lines)
  {
    forall i | 0 <= i < |es|
      ensures Lookup(t, es[i].0) == Some(es[i].1)
    {
      assert es[i] in es;
      assert es[i].0[0..] == es[i].0;
    }
    EntriesComplete(t, []);
    forall w | Lookup(t, w).Some?
      ensures (w, Lookup(t, w).value) in es
    {
      assert [] + w == w;
    }
  }

  /** Every stored word has its record among those written from the walk. */
  lemma EncodedLinesComplete(t: Trie, es: seq<(string, string)>, lines: seq<string>)
    requires es == Entries(t, [])
    requires |lines| == |es| && forall i :: 0 <= i < |es| ==> lines[i] == Record(es[i].0, es[i].1)
    ensures forall w :: Lookup(t, w).Some? ==> Record(w, Lookup(t, w).value) in lines
  {
    EntriesComplete(t, []);
    forall w | Lookup(t, w).Some?
      ensures Record(w, Lookup(t, w).value) in lines
    {
      assert [] + w == w;
      var i :| 0 <= i < |es| && es[i] == (w, Lookup(t, w).value);
      assert lines[i] == Record(w, Lookup(t, w).value);
    }
  }

  /** Every word `t` stores is reported, below `prefix`, with its definition. */
  lemma {:induction false} EntriesComplete(t: Trie, prefix: string)
    ensures forall w :: Lookup(t, w).Some? ==> (prefix + w, Lookup(t, w).value) in Entries(t, prefix)
    decreases t, 1, 0
  {
    ChildEntriesComplete(t, t.children.Keys, prefix);
    forall w | Lookup(t, w).Some?
      ensures (prefix + w, Lookup(t, w).value) in Entries(t, prefix)
    {
      if w == [] {
        assert prefix + w == prefix;
      }
    }
  }

  /** Every stored word whose first edge is in `keys` is reported. */
  lemma {:induction false} ChildEntriesComplete(t: Trie, keys: set<char>, prefix: string)
    requires keys <= t.children.Keys
    ensures forall w :: w != [] && w[0] in keys && Lookup(t, w).Some? ==>
      (prefix + w, Lookup(t, w).value) in ChildEntries(t, keys, prefix)
    decreases t, 0, |keys|
  {
    if keys != {} {
      var k := MinChar(keys);
      var p := prefix + [k];
      EntriesComplete(t.children[k], p);
      ChildEntriesComplete(t, keys - {k}, prefix);
      forall w | w != [] && w[0] in keys && Lookup(t, w).Some?
        ensures (prefix + w, Lookup(t, w).value) in ChildEntries(t, keys, prefix)
      {
        if w[0] == k {
          assert p + w[1..] == prefix + w;
        }
      }
    }
  }

  /** Joining two lists with distinct words and no word in common keeps the
      words distinct. */
  lemma DistinctConcat(a: seq<(string, string)>, b: seq<(string, string)>)
    requires DistinctWords(a) && DistinctWords(b)
    requires forall x, y :: x in a && y in b ==> x.0 != y.0
    ensures DistinctWords(a + b)
  {
  }

  /** One iteration of the load loop: a line without a separator is skipped;
      the record of a word without a separator stores that word with its
      definition and leaves every other key as it was. */
  function Apply(t: Trie, line: string): (r: Trie)
    ensures Separator !in line ==> r == t
    ensures forall w, d :: line == Record(w, d) && Separator !in w ==> Lookup(r, w) == Some(d)
    ensures forall w, d, k :: line == Record(w, d) && Separator !in w && k != w ==>
      Lookup(r, k) == Lookup(t, k)
  {
    match ParseLine(line)
    case None => t
    case Some((w', d')) =>
      assert forall w, d :: line == Record(w, d) && Separator !in w ==> w == w' && d == d' by {
        forall w, d | line == Record(w, d) && Separator !in w
          ensures w == w' && d == d'
        {
          RecordUnique(w, d, w', d');
        }
      }
      Insert(t, w', d')
  }

  /** The dictionary the load loop builds from `lines`, read first to last
      into a fresh tree: searching any key yields the definition on the last
      well-formed line for that key, and not found when there is none. */
  function Decode(lines: seq<string>): (t: Trie)
    ensures forall w :: Lookup(t, w) == LastDef(lines, w)
    decreases |lines|
  {
    if lines == [] then Empty()
    else Apply(Decode(lines[..|lines| - 1]), lines[|lines| - 1])
  }

  /** The definition given to `w` by the last well-formed line for `w`, if any:
      the value a later line for the same word leaves in place. */
  function LastDef(lines: seq<string>, w: string): Option<string>
    decreases |lines|
  {
    if lines == [] then None
    else
      var parsed := ParseLine(lines[|lines| - 1]);
      if parsed.Some? && parsed.value.0 == w then Some(parsed.value.1)
      else LastDef(lines[..|lines| - 1], w)
  }

  /** A line without a separator inserts nothing. */
  lemma DecodeSkipsMalformed(lines: seq<string>, line: string)
    requires Separator !in line
    ensures Decode(lines + [line]) == Decode(lines)
  {
  }

  /** Loading a single record stores its word with everything after the first
      separator, later separators included, as the definition. */
  lemma DecodeRecord(w: string, d: string)
    requires Separator !in w
    ensures Lookup(Decode([Record(w, d)]), w) == Some(d)
  {
    ParseRecord(w, d);
    assert [Record(w, d)][..0] == [];
  }

  /** A key holding a separator is never found after loading: the loader cuts
      every word at its first separator. */
  lemma DecodedWordsHaveNoSeparator(lines: seq<string>, w: string)
    requires Separator in w
    ensures Lookup(Decode(lines), w) == None
  {
  }

  /** The value `LastDef` reports comes from some line that parses to it. */
  lemma {:induction false} LastDefSound(lines: seq<string>, w: string) returns (i: nat)
    requires LastDef(lines, w).Some?
    ensures i < |lines| && ParseLine(lines[i]) == Some((w, LastDef(lines, w).value))
    decreases |lines|
  {
    var n := |lines| - 1;
    var parsed := ParseLine(lines[n]);
    if parsed.Some? && parsed.value.0 == w {
      i := n;
    } else {
      i := LastDefSound(lines[..n], w);
    }
  }

  /** A word that some line parses to has a last definition. */
  lemma {:induction false} LastDefDefined(lines: seq<string>, w: string, i: nat)
    requires i < |lines| && ParseLine(lines[i]).Some? && ParseLine(lines[i]).value.0 == w
    ensures LastDef(lines, w).Some?
    decreases |lines|
  {
    var n := |lines| - 1;
    if i < n && !(ParseLine(lines[n]).Some? && ParseLine(lines[n]).value.0 == w) {
      LastDefDefined(lines[..n], w, i);
    }
  }

  /** No stored word holds the field separator. */
  ghost predicate NoSeparatorInWords(t: Trie) {
    forall w :: Lookup(t, w).Some? ==> Separator !in w
  }

  /** Loading any arrangement of the saved lines, reordered or repeated,
      rebuilds the same lookups, provided no word holds a separator. */
  lemma DecodeSavedLines(t: Trie, lines: seq<string>)
    requires NoSeparatorInWords(t)
    requires forall l :: l in lines <==> l in Encode(t)
    ensures forall w :: Lookup(Decode(lines), w) == Lookup(t, w)
  {
    forall w
      ensures Lookup(Decode(lines), w) == Lookup(t, w)
    {
      if LastDef(lines, w).Some? {
        var i := LastDefSound(lines, w);
        assert lines[i] in Encode(t);
        var j :| 0 <= j < |Encode(t)| && Encode(t)[j] == lines[i];
        assert IsStoredRecord(t, Encode(t)[j]);
        var w' :| Lookup(t, w').Some? && Encode(t)[j] == Record(w', Lookup(t, w').value);
        ParseRecord(w', Lookup(t, w').value);
      }
      if Lookup(t, w).Some? {
        var line := Record(w, Lookup(t, w).value);
        var i :| 0 <= i < |lines| && lines[i] == line;
        ParseRecord(w, Lookup(t, w).value);
        LastDefDefined(lines, w, i);
      }
    }
  }

  /** Round trip: loading the lines saved from `t` gives back every lookup of
      `t`, provided no word holds a separator. */
  lemma RoundTrip(t: Trie)
    requires NoSeparatorInWords(t)
    ensures forall w :: Lookup(Decode(Encode(t)), w) == Lookup(t, w)
  {
    DecodeSavedLines(t, Encode(t));
  }

  /** The round trip holds whatever order the walk visits siblings in: any
      permutation of the saved lines loads back to the same lookups. */
  lemma RoundTripAnyOrder(t: Trie, lines: seq<string>)
    requires NoSeparatorInWords(t)
    requires multiset(lines) == multiset(Encode(t))
    ensures forall w :: Lookup(Decode(lines), w) == Lookup(t, w)
  {
    forall l
      ensures l in lines <==> l in Encode(t)
    {
      assert l in lines <==> l in multiset(lines);
      assert l in Encode(t) <==> l in multiset(Encode(t));
    }
    DecodeSavedLines(t, lines);
  }

  /** Loading lines none of which holds a separator leaves every key not found. */
  lemma {:induction false} DecodeWithoutRecords(lines: seq<string>)
    requires forall i :: 0 <= i < |lines| ==> Separator !in lines[i]
    ensures forall w :: Lookup(Decode(lines), w) == None
    decreases |lines|
  {
    if lines != [] {
      var n := |lines| - 1;
      DecodeWithoutRecords(lines[..n]);
      DecodeSkipsMalformed(lines[..n], lines[n]);
      assert lines[..n] + [lines[n]] == lines;
    }
  }
}
