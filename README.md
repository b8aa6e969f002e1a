# EDN emitter of astgrep-analysis, modelled in Dafny

astgrep-analysis holds an LLVM pass and a report writer. The pass
(`astgrep_analysis/AstgrepAnalysis.cpp`) only dumps each instruction and its
MemorySSA definitions to stderr. It neither builds live sets nor calls the
writer. The writer is the `EDNEmitter` class
(`astgrep_analysis/EDNEmitter.cpp`). It receives three already-filled maps from
code that is not in this repository: instruction to live-before set,
instruction to live-after set, and value to the `llvm.dbg.declare` call that
declared it. For one instruction it writes a record in an EDN-like notation
(EDN is the extensible data notation):

```
{
:line L
:col C
:live_before [{:line l1 :col c1}{:line l2 :col c2}]
:live_after []
}
```

The writer is hand-rolled, not an EDN library. Each vector entry is the
declaration position of one live value. Entries have no separator, and values
without a usable declaration are skipped.

The project models that class and proves what its output means.

- `options.dfy`: `Option`, usable with `:-`.
- `decimal.dfy`: the decimal text a stream writes for an `unsigned`, a reader of
  digit runs, and the proof that reading gives back the number.
- `edn_text.dfy`: the data model and the exact text of an entry, a vector and a
  record, as functions. `Positions` gives the logical content of a vector: the
  declaration positions of the values that get an entry, in iteration order.
  Lemmas state the filter rules, the order, the entry count and when the
  output is empty.
- `edn_reader.dfy`: an independent reader of records, as the consumer sees
  them. The round-trip lemmas prove that every record reads back as the
  instruction's line and column and the two position lists. So the notation
  is unambiguous even though entries carry no separator.
- `edn_emitter.dfy`: the class `EdnEmitter` with the three maps as fields. Its
  methods build their text by appending, as the source does, and are proved
  equal to the functions of `edn_text.dfy`. `GetLiveInfo` also states how the
  maps change: `operator[]` adds a null entry for a missing key.

Abstractions:
- An `Instruction*` or `DbgDeclareInst*` becomes a record of what the emitter
  reads from it: identity, `hasMetadata()`, debug line and column (32-bit
  unsigned).
- A `Value*` becomes a natural-number id.
- A `ValueSet` (a pointer to a `std::set`) becomes `Null`, or `Ref` of its
  members in iteration order, with no duplicates.
- A `std::ostringstream` becomes a `string` that is appended to.

What the code does, in detail:
- The code's record has no "reaching definitions" vector. It has only
  `:live_before` and `:live_after`.
- A vector is written in the set's iteration order. Two values declared at the
  same position give two equal entries; nothing is deduplicated.
- A record is omitted when the instruction has no metadata of any kind, not
  specifically when it has no source position.
- Emptiness is tested on the set sizes, so a non-empty set whose values have no
  declaration still yields a record with `[]`.

## Model

| member | source | states |
|---|---|---|
| `Emitter.EdnEmitter.constructor` | astgrep_analysis/EDNEmitter.cpp:13-21 | the three maps are stored unchanged |
| `Emitter.EdnEmitter.GetLiveInfo` | astgrep_analysis/EDNEmitter.cpp:23-44 | needs a non-null set in both maps only when the instruction has metadata. Afterwards each live map is its old value with a null entry added for a missing key, and the declaration table is unchanged. The result is the text `LiveInfo` specifies. |
| `Emitter.EdnEmitter.GetLiveVariablesEdn` | astgrep_analysis/EDNEmitter.cpp:46-60 | the appending loop yields `[`, then the entry of each value with a declaration carrying metadata, in iteration order, then `]` |
| `Emitter.Lookup` | astgrep_analysis/EDNEmitter.cpp:25-26 | looking a key up adds it, with a null set if it was absent, and keeps every other entry |
| `Emitter.RecordEntryCounts` | astgrep_analysis/EDNEmitter.cpp:40-41 | for an instruction the emitter reports on, each vector has exactly one entry per value of its set that has a declaration with metadata, because the sets an emitter holds are duplicate-free |
| `Decimal.NatToString` | astgrep_analysis/EDNEmitter.cpp:36-37 | a number prints as a non-empty run of digits whose first digit is 0 only for zero |
| `Decimal.NatToStringRoundTrip` | astgrep_analysis/EDNEmitter.cpp:36-37 | the printed digits denote the printed number |
| `Decimal.NatToStringInjective` | astgrep_analysis/EDNEmitter.cpp:53-54 | different line or column numbers print differently |
| `Decimal.ReadNatAfterNatToString` | astgrep_analysis/EDNEmitter.cpp:36-37 | a printed number followed by a non-digit (newline, space, `}`) reads back as that number and leaves the rest |
| `EdnText.PositionsAppend` | astgrep_analysis/EDNEmitter.cpp:49-56 | entries follow the iteration order: the entries of a concatenation are the entries of each part in turn |
| `EdnText.PositionsMembers` | astgrep_analysis/EDNEmitter.cpp:50-54 | a position is reported if and only if some value of the set has a declaration with metadata at that position. The position is the declaration's, not the instruction's. |
| `EdnText.PositionsCount` | astgrep_analysis/EDNEmitter.cpp:49-56 | for a duplicate-free set, the number of entries equals the number of values that are keys of the table and whose declaration has metadata |
| `EdnText.LiveVariablesEdnEmpty` | astgrep_analysis/EDNEmitter.cpp:48-58 | the vector is `[]` if and only if no value of the set has a declaration with metadata |
| `EdnText.LiveVariablesEdnShape` | astgrep_analysis/EDNEmitter.cpp:48-58 | every vector starts with `[` and ends with `]`, and the empty set gives exactly `[]` |
| `EdnText.LiveInfoEmpty` | astgrep_analysis/EDNEmitter.cpp:28-33 | the result is empty if and only if the instruction has no metadata, or both of its sets have no elements |
| `EdnText.UndeclaredValuesStillReported` | astgrep_analysis/EDNEmitter.cpp:31-42 | when either live set is non-empty but none of the values in either set has a usable declaration, the record is still written in full, with `[]` vectors |
| `EdnReader.ReadEntryRoundTrip` | astgrep_analysis/EDNEmitter.cpp:51-55 | one `{:line L :col C}` entry reads back as its position, whatever follows it |
| `EdnReader.ReadEntriesRoundTrip` | astgrep_analysis/EDNEmitter.cpp:49-57 | entries written back to back with no separator read back as the same list |
| `EdnReader.ReadVectorRoundTrip` | astgrep_analysis/EDNEmitter.cpp:46-59 | a vector reads back as the positions of exactly the values that got an entry, in order |
| `EdnReader.ReadLiveSetsRoundTrip` | astgrep_analysis/EDNEmitter.cpp:40-42 | the `:live_before` and `:live_after` lines and the closing brace read back as the two position lists |
| `EdnReader.LiveInfoRoundTrip` | astgrep_analysis/EDNEmitter.cpp:35-43 | every non-empty record reads back as the instruction's own line and column and the positions of the declared values live before and after it |
| `EdnReader.LiveInfoInjective` | astgrep_analysis/EDNEmitter.cpp:35-43 | two non-empty records are equal only if they carry the same line, column and position lists |

## Left out

- `astgrep_analysis/AstgrepAnalysis.cpp`, the LLVM pass itself, is not part of this model. It queries MemorySSA, dumps instructions to stderr and registers the pass; none of it feeds the emitter.
- Computing live and reaching sets is not part of this model. No such code exists in the source; the emitter's maps arrive already filled.
- `sample/cert/exp34.c` is an input program for the pass, not analysis code.
- LLVM metadata is reduced to a `hasMetadata` flag plus a line and column. An instruction with metadata but no debug location (where `getDebugLoc().getLine()` would dereference null) is not modelled.
- A null `DbgDeclareInst*` stored as a value of the declaration table is not modelled. The table maps values to declaration records.
- The iteration order of a `std::set<const Value*>` is address order. The model takes the order as given in the sequence and does not derive it from addresses.
- Two instructions sharing one set object (pointer aliasing) is not modelled. The emitter only reads the sets, so sharing cannot change its output.
- Stream formatting state (locale, width, fill) is taken as the default, so numbers print as plain decimal digits.
- Dereferencing a null set, which is undefined behaviour in the source, is excluded by `GetLiveInfo`'s precondition rather than modelled.
