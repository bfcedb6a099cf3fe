# Trie dictionary: a Dafny model

This project models the core of a small word/definition dictionary. The
dictionary keeps its words in a prefix tree (trie). Each node has one child
per character, a flag saying whether the path to it spells a stored word,
and that word's definition. The dictionary is saved to a flat text file with
one line `word,definition` per stored word. At startup the file is read back
line by line, and each line is split at its first comma.

The model is functional: a tree is an immutable value, and adding a word
returns a new tree.

- `wrappers.dfy`: module `Wrappers`, the `Option` type. A search returns
  `Some(definition)` or `None`, where the program prints either the
  definition or "Word not found".
- `trie_store.dfy`: module `TrieStore`. It holds the node datatype `Trie`,
  a fresh node (`Empty`), `Insert` (addWord), `Lookup` (searchWord), `Walk`
  (follow edges without creating nodes) and `Clear`, plus the lemmas about
  them.
- `line_text.dfy`: module `LineText`. It holds the first-occurrence string
  search, joining lines with newlines as the save routine writes them, and
  `SplitLines`, which reads text back the way a `getline` loop does.
- `flat_file_codec.dfy`: module `FlatFileCodec`. It holds the record format
  (`Record`, `ParseLine`), the depth-first walk of the save helper
  (`Entries`, `ChildEntries`, `Encode`), the load loop (`Apply`, `Decode`),
  an independent reference for the load (`LastDef`: the definition on the
  last well-formed line for a word), and the round-trip theorems.
- `persistence.dfy`: module `Persistence`. It holds saving to text and
  loading from text (`Save`, `Load`), the text-level round trip, what a
  newline inside a definition does to the file, and a session that stores
  "hello" and "help", which share a prefix.

The save helper visits siblings in whatever order the hash map yields. The
model walks siblings in ascending character order, which is one possible
order. `FlatFileCodec.RoundTripAnyOrder` proves that every permutation of the
saved lines loads back to the same dictionary, so the chosen order does not
matter.

Two edge cases of the code:

- An empty word is accepted: `Insert(t, [], d)` marks the root terminal,
  because the loop over the word's characters does not run, and a line such
  as `,x` stores the empty word.
- The load loop does not test whether a line is empty. An empty line has no
  comma, so it is skipped.

## Model

| member | source | states |
|---|---|---|
| TrieStore.Empty | Main.cpp:9-15 | A new node has no children, is not terminal, and every search on it reports not found |
| TrieStore.Lookup | Main.cpp:39-55 | A search finds a definition exactly when every character has a matching edge and the node reached is terminal, and the definition found is that node's; a missing edge and a non-terminal end node both give not found |
| TrieStore.Insert | Main.cpp:26-36 | After adding `w` with `d`, searching `w` gives `d` whether or not `w` was stored before; every other key keeps its previous search result |
| TrieStore.Clear | Main.cpp:82-85 | After clearing, every search reports not found, and the root has no children and is not terminal |
| TrieStore.MissingEdgeNotFound | Main.cpp:41-45 | If the node reached by the first `i` characters has no edge for character `i`, the search reports not found |
| TrieStore.InsertPaths | Main.cpp:28-33 | After an insertion, a key has a path exactly when it had one before or is a prefix of the inserted word: nodes are created only on the insertion path |
| TrieStore.OverwriteKeepsPaths | Main.cpp:29-35 | Re-adding a word whose path already exists creates no node: the set of paths is unchanged |
| TrieStore.InsertOverwrite | Main.cpp:29-35 | Adding a word with `d1` and then with `d2` builds the same tree as adding it once with `d2` |
| TrieStore.InsertIdempotent | Main.cpp:29-35 | Adding the same word and definition twice builds the same tree as adding it once |
| TrieStore.UnaddedPrefixNotFound | Main.cpp:49-54 | A proper prefix of an inserted word that was never added has a path, yet searching it reports not found |
| LineText.IndexOf | Main.cpp:108 | The first-occurrence search returns an index holding the character with no earlier occurrence, or none exactly when the character is absent |
| LineText.IndexOfAfter | Main.cpp:108 | In `u + [c] + v` where `u` has no `c`, the first `c` is at position `|u|` |
| LineText.Join | Main.cpp:73 | The written text is empty exactly when there are no lines, and otherwise ends with a newline |
| LineText.JoinOmits | Main.cpp:73 | A character absent from the written text is absent from every line |
| LineText.SplitLines | Main.cpp:107 | Reading text line by line yields lines without newlines, none exactly when the text is empty, and writing them back gives exactly the text when it ends with a newline (so a trailing newline adds no empty line), and the text plus a final newline when it does not |
| LineText.SplitJoin | Main.cpp:107 | Reading back the text written from lines without newlines gives those lines |
| LineText.NewlineSplitsLine | Main.cpp:107 | A newline inside a written line makes it read back as two lines |
| FlatFileCodec.Record | Main.cpp:73 | A record holds a separator, and when the word holds none the first separator is the one right after the word |
| FlatFileCodec.ParseLine | Main.cpp:108-111 | A line gives a pair exactly when it holds a comma; the word has no comma, and word, comma and definition put back together give the line |
| FlatFileCodec.RecordUnique | Main.cpp:108-111 | A line splits into a comma-free word and a definition in at most one way |
| FlatFileCodec.ParseRecord | Main.cpp:108-111 | Parsing the record `w,d` gives back `(w, d)` exactly when `w` holds no comma; `d` may hold any number of commas |
| FlatFileCodec.MinChar | Main.cpp:76 | The sibling visited next is the least remaining edge character |
| FlatFileCodec.Entries | Main.cpp:71-78 | Every pair the depth-first walk reports is a word below the current path that the tree stores, with its stored definition, and no word is reported twice: one record per terminal node |
| FlatFileCodec.ChildEntries | Main.cpp:76-78 | Every pair reported under a set of edges is a stored word continuing the path through one of those edges, and subtrees under distinct edges report no word twice |
| FlatFileCodec.EntriesComplete | Main.cpp:71-78 | Every stored word is reported by the walk, with its definition |
| FlatFileCodec.ChildEntriesComplete | Main.cpp:76-78 | Every stored word whose first edge is among the visited edges is reported |
| FlatFileCodec.DistinctConcat | Main.cpp:76-78 | Joining the output of subtrees with no word in common keeps words distinct |
| FlatFileCodec.Encode | Main.cpp:71-78 | Every saved line is `word,definition` for a stored word, every stored word has its line, and the lines are one record per (word, definition) pair of a list that names every stored word exactly once, so a word is written once even when words holding commas make two records equal as text |
| FlatFileCodec.EncodedLinesSound | Main.cpp:72-74 | Each line written from the walk's pairs is the record of a stored word |
| FlatFileCodec.EncodedLinesOnce | Main.cpp:72-78 | The lines written from the walk are one record per pair; the pairs are exactly the stored words with their definitions, none listed twice |
| FlatFileCodec.EncodedLinesComplete | Main.cpp:72-74 | Every stored word has its record among the lines written from the walk |
| FlatFileCodec.EncodeEmpty | Main.cpp:71-78 | The save routine writes no line exactly when no word is stored |
| FlatFileCodec.Apply | Main.cpp:108-112 | A line without a comma leaves the tree unchanged; the record of a comma-free word stores that word with its definition and leaves every other key's search result unchanged |
| FlatFileCodec.Decode | Main.cpp:107-113 | After loading, searching a key gives the definition on the last well-formed line for that key, or not found when there is none |
| FlatFileCodec.LastDefSound | Main.cpp:107-113 | The definition the load keeps for a word comes from a line that parses to that word and definition |
| FlatFileCodec.LastDefDefined | Main.cpp:107-113 | A word that some line parses to is found after loading |
| FlatFileCodec.DecodeSkipsMalformed | Main.cpp:109 | A line without a comma inserts nothing: the loaded tree is unchanged |
| FlatFileCodec.DecodeWithoutRecords | Main.cpp:107-113 | Loading lines none of which holds a comma leaves every key not found |
| FlatFileCodec.DecodeRecord | Main.cpp:108-112 | Loading the record of a comma-free word stores it with everything after the first comma as definition |
| FlatFileCodec.DecodedWordsHaveNoSeparator | Main.cpp:108-110 | A key holding a comma is never found after loading |
| FlatFileCodec.DecodeSavedLines | Main.cpp:71-113 | Loading the saved lines in any order, with any repetition, rebuilds every search result, provided no stored word holds a comma |
| FlatFileCodec.RoundTrip | Main.cpp:71-113 | Loading the saved lines rebuilds every search result, provided no stored word holds a comma |
| FlatFileCodec.RoundTripAnyOrder | Main.cpp:71-113 | Any permutation of the saved lines loads back to the same search results, whatever order the siblings are visited in |
| Persistence.Save | Main.cpp:58-68 | The saved text is empty exactly when no word is stored |
| Persistence.Load | Main.cpp:104-114 | Text without a comma loads no word, and no key holding a comma is found after loading |
| Persistence.FileRoundTrip | Main.cpp:58-117 | Saving to text and loading back preserves every search result, provided no word holds a comma and no word or definition holds a newline |
| Persistence.SavedLinesHaveNoNewline | Main.cpp:73 | A saved line holds no newline when no stored word or definition does |
| Persistence.RecordSplitsAtNewline | Main.cpp:107 | The record of a definition holding a newline reads back as two lines: the record up to the newline, then the rest of the definition |
| Persistence.NewlineInDefinitionTruncates | Main.cpp:107-112 | A definition holding a newline, whose part after the newline holds no comma, loads back cut short at the newline; that part is skipped, so no other key is found |
| Persistence.DecodeTwoRecords | Main.cpp:107-112 | Loading the records of two different comma-free words finds each word with its own definition |
| Persistence.NewlineInDefinitionAddsWord | Main.cpp:107-112 | When the part of a definition after a newline is itself a `word,definition` record, it loads as a word that was never added, and the first word keeps only the text before the newline |
| Persistence.TwoWordSession | Main.cpp:26-55 | Two words added to an empty dictionary are both found, every other key is not, and a save and load keeps it so |
| Persistence.HelloHelpScenario | Main.cpp:26-55 | With "hello" and "help" stored, "hello" is found, "hel" and "helpful" are not, and "help" is found after a save and load |

## Left out

- The interactive menu, prompts, `cin`/`cout` and the `cin.ignore` handling (Main.cpp:122-150) are input/output glue. Printed messages become the `Option` result of `Lookup`.
- Opening, closing and error reporting for the file streams, and the fixed file name `trie_dictionary.txt` (Main.cpp:58-68, 104-105, 115-120, 153), are file-system effects. `Save` and `Load` work on the file's text instead.
- Raw pointers, `new`/`delete`, `clearHelper` and the destructor (Main.cpp:30, 88-97) are memory management. Immutable values make them unnecessary, so `Clear` returns a fresh empty node.
- The hash map's sibling iteration order (Main.cpp:76) is implementation-defined. The model fixes ascending character order, and `RoundTripAnyOrder` covers every other order.
- Windows line endings are not modelled: a trailing carriage return stays part of the line, as `getline` leaves it.
- C++ `char` is a byte; the model's `char` is a Unicode scalar value. No code point decoding is modelled, so each character stands for one byte of a key.
- `addWord` walks the word with a loop; `Insert` recurses on the rest of the word. It creates the same nodes and writes the same flag and definition.
