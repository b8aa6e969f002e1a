/**
 * The `EDNEmitter` class: it holds the per-instruction live-before and
 * live-after sets and the table from values to their `llvm.dbg.declare`
 * calls, and writes one EDN-style record per instruction.
 */
module Emitter {
  import opened Decimal
  import opened EdnText

  /** Every set a live map points to is duplicate-free, as a `std::set` is. */
  ghost predicate SetsAreSets(m: map<InstId, ValueSetRef>) {
    forall k :: k in m && m[k].Ref? ==> NoDuplicates(m[k].values)
  }

  /**
   * The map after `m[k]` has been evaluated: `operator[]` stores a null set
   * for a key it does not find and leaves every other entry alone.
   */
  function Lookup(m: map<InstId, ValueSetRef>, k: InstId): (r: map<InstId, ValueSetRef>)
    ensures r.Keys == m.Keys + {k}
    ensures forall j :: j in m ==> r[j] == m[j]
    ensures k !in m ==> r[k] == Null
  {
    if k in m then m else m[k := Null]
  }

  class EdnEmitter {
    var instLiveBefore: map<InstId, ValueSetRef>
    var instLiveAfter: map<InstId, ValueSetRef>
    var dbgDeclareInstOf: DeclTable

    ghost predicate Valid()
      reads this
    {
      SetsAreSets(instLiveBefore) && SetsAreSets(instLiveAfter)
    }

    /** Stores the three maps as given. */
    constructor (instLiveBefore: map<InstId, ValueSetRef>, instLiveAfter: map<InstId, ValueSetRef>,
                 dbgDeclareInstOf: DeclTable)
      requires SetsAreSets(instLiveBefore) && SetsAreSets(instLiveAfter)
      ensures Valid()
      ensures this.instLiveBefore == instLiveBefore
      ensures this.instLiveAfter == instLiveAfter
      ensures this.dbgDeclareInstOf == dbgDeclareInstOf
    {
      this.instLiveBefore := instLiveBefore;
      this.instLiveAfter := instLiveAfter;
      this.dbgDeclareInstOf := dbgDeclareInstOf;
    }

    /**
     * What `getLiveInfo(inst)` needs to be defined: once the metadata test has
     * passed it dereferences both sets, so both maps must hold a set for `inst`.
     */
    predicate CanGetLiveInfo(inst: Instruction)
      reads this
    {
      inst.hasMetadata ==>
        inst.id in instLiveBefore && instLiveBefore[inst.id].Ref? &&
        inst.id in instLiveAfter && instLiveAfter[inst.id].Ref?
    }

    /**
     * The record for `inst`. Looking the instruction up adds a null entry to
     * a live map that lacks it; the declaration table is never changed.
     */
    method GetLiveInfo(inst: Instruction) returns (s: string)
      requires Valid() && CanGetLiveInfo(inst)
      modifies this
      ensures Valid()
      ensures instLiveBefore == Lookup(old(instLiveBefore), inst.id)
      ensures instLiveAfter == Lookup(old(instLiveAfter), inst.id)
      ensures dbgDeclareInstOf == old(dbgDeclareInstOf)
      ensures s == LiveInfo(inst, instLiveBefore[inst.id], instLiveAfter[inst.id], dbgDeclareInstOf)
    {
      if inst.id !in instLiveBefore {
        instLiveBefore := instLiveBefore[inst.id := Null];
      }
      var liveBeforeValues := instLiveBefore[inst.id];
      if inst.id !in instLiveAfter {
        instLiveAfter := instLiveAfter[inst.id := Null];
      }
      var liveAfterValues := instLiveAfter[inst.id];

      if !inst.hasMetadata {
        return "";
      }
      if |liveBeforeValues.values| == 0 && |liveAfterValues.values| == 0 {
        return "";
      }

      ghost var l, c := NatToString(inst.line), NatToString(inst.col);
      var os := "{" + "\n";
      os := os + ":line " + NatToString(inst.line) + "\n";
      os := os + ":col " + NatToString(inst.col) + "\n";
      var before := GetLiveVariablesEdn(liveBeforeValues);
      os := os + ":live_before " + before + "\n";
      var after := GetLiveVariablesEdn(liveAfterValues);
      os := os + ":live_after " + after + "\n";
      os := os + "}" + "\n";
      WrittenRecord(l, c, before, after);
      s := os;
    }

    /**
     * The vector of `{:line L :col C}` entries for the values of a set, in
     * iteration order, one for each value whose declaration is known and
     * carries metadata.
     */
    method GetLiveVariablesEdn(valueSet: ValueSetRef) returns (s: string)
      requires valueSet.Ref?
      ensures s == LiveVariablesEdn(dbgDeclareInstOf, valueSet.values)
    {
      var values := valueSet.values;
      var os := "[";
      for i := 0 to |values|
        invariant os == "[" + EntriesEdn(Positions(dbgDeclareInstOf, values[..i]))
      {
        ghost var done := os;
        var value := values[i];
        if value in dbgDeclareInstOf && dbgDeclareInstOf[value].hasMetadata {
          os := os + "{";
          var loc := dbgDeclareInstOf[value];
          os := os + ":line " + NatToString(loc.line) + " ";
          os := os + ":col " + NatToString(loc.col);
          os := os + "}";
          WrittenEntry(done, loc.line, loc.col);
        }
        StepPositions(dbgDeclareInstOf, values, i, done, os);
      }
      assert values[..|values|] == values;
      os := os + "]";
      s := os;
    }
  }

  /**
   * For an instruction whose record `getLiveInfo` writes, each of its two
   * vectors has one entry per value of the set that has a declaration with
   * metadata: the sets an emitter holds are duplicate-free.
   */
  lemma RecordEntryCounts(e: EdnEmitter, inst: Instruction)
    requires e.Valid() && e.CanGetLiveInfo(inst) && inst.hasMetadata
    ensures |Positions(e.dbgDeclareInstOf, e.instLiveBefore[inst.id].values)|
         == |EmittingValues(e.dbgDeclareInstOf, e.instLiveBefore[inst.id].values)|
    ensures |Positions(e.dbgDeclareInstOf, e.instLiveAfter[inst.id].values)|
         == |EmittingValues(e.dbgDeclareInstOf, e.instLiveAfter[inst.id].values)|
  {
    PositionsCount(e.dbgDeclareInstOf, e.instLiveBefore[inst.id].values);
    PositionsCount(e.dbgDeclareInstOf, e.instLiveAfter[inst.id].values);
  }

  /** The text one value contributes to a vector. */
  function ValueEntryEdn(decls: DeclTable, v: ValueId): string {
    if Emits(decls, v) then EntryEdn(PositionOf(decls, v)) else ""
  }

  lemma PrefixEntries(decls: DeclTable, values: seq<ValueId>, i: nat)
    requires i < |values|
    ensures EntriesEdn(Positions(decls, values[..i + 1]))
         == EntriesEdn(Positions(decls, values[..i])) + ValueEntryEdn(decls, values[i])
  {
    assert values[..i + 1] == values[..i] + [values[i]];
    PositionsAppend(decls, values[..i], [values[i]]);
    EntriesAppend(Positions(decls, values[..i]), Positions(decls, [values[i]]));
    if Emits(decls, values[i]) {
      var p := PositionOf(decls, values[i]);
      assert EntriesEdn([p]) == EntryEdn(p) + EntriesEdn([]);
    }
  }

  /**
   * Extending the prefix walked so far by one value extends the text by that
   * value's entry, if it has one.
   */
  lemma StepPositions(decls: DeclTable, values: seq<ValueId>, i: nat, done: string, os: string)
    requires i < |values|
    requires done == "[" + EntriesEdn(Positions(decls, values[..i]))
    requires os == done + ValueEntryEdn(decls, values[i])
    ensures os == "[" + EntriesEdn(Positions(decls, values[..i + 1]))
  {
    PrefixEntries(decls, values, i);
  }

  /** The pieces the loop appends for one value make up that value's entry. */
  lemma WrittenEntry(os: string, line: nat, col: nat)
    ensures os + "{" + ":line " + NatToString(line) + " " + ":col " + NatToString(col) + "}"
         == os + EntryEdn(Position(line, col))
  {
  }

  /** The pieces `getLiveInfo` appends make up the record. */
  lemma WrittenRecord(l: string, c: string, b: string, a: string)
    ensures "{" + "\n" + ":line " + l + "\n" + ":col " + c + "\n" + ":live_before " + b + "\n"
            + ":live_after " + a + "\n" + "}" + "\n"
         == "{\n:line " + l + "\n:col " + c + "\n:live_before " + b + "\n:live_after " + a + "\n}\n"
  {
  }
}
