/**
 * The text the EDN emitter writes, stated as functions of its inputs.
 *
 * An instruction and a `llvm.dbg.declare` call are reduced to the debug facts
 * the emitter reads from them; a `Value*` is an opaque id; a
 * `std::set<const Value*>` is the sequence of its members in iteration order
 * (ascending address order in the source), which holds no duplicates.
 */
module EdnText {
  import opened Decimal

  type InstId = nat
  type ValueId = nat

  /** What the emitter reads of an `Instruction*`: its identity, `hasMetadata()` and its debug location. */
  datatype Instruction = Instruction(id: InstId, hasMetadata: bool, line: u32, col: u32)

  /** What the emitter reads of a `DbgDeclareInst*`: `hasMetadata()` and its debug location. */
  datatype DbgDeclare = DbgDeclare(hasMetadata: bool, line: u32, col: u32)

  /**
   * A `ValueSet`, that is a pointer to a set of values: `Null` is the null
   * pointer that `operator[]` stores for a key it did not find.
   */
  datatype ValueSetRef = Null | Ref(values: seq<ValueId>)

  type DeclTable = map<ValueId, DbgDeclare>

  /** A `{line, column}` pair of the report. */
  datatype Position = Position(line: nat, col: nat)

  /** No value occurs twice, as in a `std::set`. */
  predicate NoDuplicates(s: seq<ValueId>) {
    forall i, j :: 0 <= i < j < |s| ==> s[i] != s[j]
  }

  /** A value gets an entry when it has a declaration and that declaration carries metadata. */
  predicate Emits(decls: DeclTable, v: ValueId) {
    v in decls && decls[v].hasMetadata
  }

  /** The position reported for a value: that of its declaration, not of the instruction. */
  function PositionOf(decls: DeclTable, v: ValueId): Position
    requires v in decls
  {
    Position(decls[v].line, decls[v].col)
  }

  /** The logical content of a live-variable vector: the positions of the values that get an entry, in iteration order. */
  function Positions(decls: DeclTable, s: seq<ValueId>): seq<Position> {
    if s == [] then []
    else (if Emits(decls, s[0]) then [PositionOf(decls, s[0])] else []) + Positions(decls, s[1..])
  }

  /** One `{:line L :col C}` entry. */
  function EntryEdn(p: Position): string {
    "{:line " + NatToString(p.line) + " :col " + NatToString(p.col) + "}"
  }

  /** Entries written back to back, with no separator. */
  function EntriesEdn(ps: seq<Position>): string {
    if ps == [] then "" else EntryEdn(ps[0]) + EntriesEdn(ps[1..])
  }

  /** The text `getLiveVariablesEdn` returns for the values `s`. */
  function LiveVariablesEdn(decls: DeclTable, s: seq<ValueId>): string {
    "[" + EntriesEdn(Positions(decls, s)) + "]"
  }

  /** The record written for an instruction whose live sets are not both empty. */
  function RecordEdn(line: nat, col: nat, before: string, after: string): string {
    "{\n:line " + NatToString(line) + "\n:col " + NatToString(col)
      + "\n:live_before " + before + "\n:live_after " + after + "\n}\n"
  }

  /**
   * The text `getLiveInfo` returns, given the sets its two lookups found.
   * The sets are dereferenced only once the metadata test has passed.
   */
  function LiveInfo(inst: Instruction, before: ValueSetRef, after: ValueSetRef, decls: DeclTable): string
    requires inst.hasMetadata ==> before.Ref? && after.Ref?
  {
    if !inst.hasMetadata then ""
    else if |before.values| == 0 && |after.values| == 0 then ""
    else RecordEdn(inst.line, inst.col, LiveVariablesEdn(decls, before.values), LiveVariablesEdn(decls, after.values))
  }

  // ---------------------------------------------------------------------------
  // Properties of the live-variable vector

  /** Filtering distributes over concatenation: entries keep the iteration order. */
  lemma {:induction false} PositionsAppend(decls: DeclTable, a: seq<ValueId>, b: seq<ValueId>)
    ensures Positions(decls, a + b) == Positions(decls, a) + Positions(decls, b)
    decreases |a|
  {
    if a == [] {
      assert a + b == b;
    } else {
      assert (a + b)[1..] == a[1..] + b;
      PositionsAppend(decls, a[1..], b);
    }
  }

  lemma {:induction false} EntriesAppend(a: seq<Position>, b: seq<Position>)
    ensures EntriesEdn(a + b) == EntriesEdn(a) + EntriesEdn(b)
    decreases |a|
  {
    if a == [] {
      assert a + b == b;
    } else {
      assert (a + b)[1..] == a[1..] + b;
      EntriesAppend(a[1..], b);
    }
  }

  /** A position is reported exactly when some value of the set emits it. */
  lemma {:induction false} PositionsMembers(decls: DeclTable, s: seq<ValueId>, p: Position)
    ensures p in Positions(decls, s) <==> exists v :: v in s && Emits(decls, v) && p == PositionOf(decls, v)
    decreases |s|
  {
    if s != [] {
      PositionsMembers(decls, s[1..], p);
      if p in Positions(decls, s[1..]) {
        var v :| v in s[1..] && Emits(decls, v) && p == PositionOf(decls, v);
        assert v in s;
      }
      if exists v :: v in s && Emits(decls, v) && p == PositionOf(decls, v) {
        var v :| v in s && Emits(decls, v) && p == PositionOf(decls, v);
        if v != s[0] {
          assert v in s[1..];
        }
      }
    }
  }

  /** The set of values of `s` that get an entry. */
  function EmittingValues(decls: DeclTable, s: seq<ValueId>): set<ValueId> {
    set v | v in s && Emits(decls, v)
  }

  /**
   * For a duplicate-free set, the number of entries is the number of values
   * with a declaration that carries metadata.
   */
  lemma {:induction false} PositionsCount(decls: DeclTable, s: seq<ValueId>)
    requires NoDuplicates(s)
    ensures |Positions(decls, s)| == |EmittingValues(decls, s)|
    decreases |s|
  {
    if s == [] {
      assert EmittingValues(decls, s) == {};
    } else {
      var t := s[1..];
      assert NoDuplicates(t) by {
        forall i, j | 0 <= i < j < |t| ensures t[i] != t[j] {
          assert t[i] == s[i + 1] && t[j] == s[j + 1];
        }
      }
      PositionsCount(decls, t);
      assert s[0] !in t by {
        forall k | 0 <= k < |t| ensures t[k] != s[0] {
          assert t[k] == s[k + 1];
        }
      }
      if Emits(decls, s[0]) {
        assert EmittingValues(decls, s) == {s[0]} + EmittingValues(decls, t);
      } else {
        assert EmittingValues(decls, s) == EmittingValues(decls, t);
      }
    }
  }

  /** The vector is `[]` exactly when no value of the set gets an entry (in particular, for the empty set). */
  lemma {:induction false} LiveVariablesEdnEmpty(decls: DeclTable, s: seq<ValueId>)
    ensures LiveVariablesEdn(decls, s) == "[]" <==> forall v :: v in s ==> !Emits(decls, v)
    decreases |s|
  {
    if s == [] {
      assert LiveVariablesEdn(decls, s) == "[" + "" + "]";
    } else {
      LiveVariablesEdnEmpty(decls, s[1..]);
      var ps := Positions(decls, s);
      if Emits(decls, s[0]) {
        assert EntriesEdn(ps) == EntryEdn(ps[0]) + EntriesEdn(ps[1..]);
        assert LiveVariablesEdn(decls, s)[1] == '{';
      } else {
        assert ps == Positions(decls, s[1..]);
        forall v | v in s[1..] ensures v in s { }
        forall v | v in s && v != s[0] ensures v in s[1..] { }
      }
    }
  }

  /** A vector starts with `[`, ends with `]`, and is `[]` for the empty set. */
  lemma LiveVariablesEdnShape(decls: DeclTable, s: seq<ValueId>)
    ensures var r := LiveVariablesEdn(decls, s); |r| >= 2 && r[0] == '[' && r[|r| - 1] == ']'
    ensures s == [] ==> LiveVariablesEdn(decls, s) == "[]"
  {
    if s == [] {
      LiveVariablesEdnEmpty(decls, s);
    }
  }

  // ---------------------------------------------------------------------------
  // Properties of the record

  /**
   * `getLiveInfo` returns the empty string exactly when the instruction has no
   * metadata or both of its live sets are empty; sets are counted by their
   * elements, not by the entries they produce.
   */
  lemma LiveInfoEmpty(inst: Instruction, before: ValueSetRef, after: ValueSetRef, decls: DeclTable)
    requires inst.hasMetadata ==> before.Ref? && after.Ref?
    ensures LiveInfo(inst, before, after, decls) == ""
        <==> !inst.hasMetadata || (|before.values| == 0 && |after.values| == 0)
  {
    if inst.hasMetadata && (|before.values| > 0 || |after.values| > 0) {
      assert LiveInfo(inst, before, after, decls)[0] == '{';
    }
  }

  /**
   * A non-empty set none of whose values has a usable declaration still
   * yields a full record, with `[]` for its vector.
   */
  lemma UndeclaredValuesStillReported(inst: Instruction, before: seq<ValueId>, after: seq<ValueId>, decls: DeclTable)
    requires inst.hasMetadata && (|before| > 0 || |after| > 0)
    requires forall v :: v in before ==> !Emits(decls, v)
    requires forall v :: v in after ==> !Emits(decls, v)
    ensures LiveInfo(inst, Ref(before), Ref(after), decls)
         == "{\n:line " + NatToString(inst.line) + "\n:col " + NatToString(inst.col)
              + "\n:live_before []\n:live_after []\n}\n"
  {
    LiveVariablesEdnEmpty(decls, before);
    LiveVariablesEdnEmpty(decls, after);
  }
}
