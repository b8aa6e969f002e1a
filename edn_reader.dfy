/**
 * A reader for the records the EDN emitter writes, as the consumer of the
 * report sees them: a line, a column and two vectors of positions. Proving
 * that it reads back what the emitter encoded shows that the hand-written
 * notation is unambiguous, even though entries carry no separator.
 */
module EdnReader {
  import opened Options
  import opened Decimal
  import opened EdnText

  /** The logical content of one record. */
  datatype LiveRecord = LiveRecord(line: nat, col: nat, liveBefore: seq<Position>, liveAfter: seq<Position>)

  /** Consumes the literal `lit` at the start of `s`. */
  function Expect(lit: string, s: string): (r: Option<string>)
    ensures r.Some? ==> |r.value| == |s| - |lit|
  {
    if lit <= s then Some(s[|lit|..]) else None
  }

  function ReadEntry(s: string): (r: Option<(Position, string)>)
    ensures r.Some? ==> |r.value.1| < |s|
  {
    var s1 :- Expect("{:line ", s);
    var line :- ReadNat(s1);
    var s2 :- Expect(" :col ", line.1);
    var col :- ReadNat(s2);
    var s3 :- Expect("}", col.1);
    Some((Position(line.0, col.0), s3))
  }

  /** Reads entries for as long as the text continues with `{`. */
  function ReadEntries(s: string): (r: Option<(seq<Position>, string)>)
    ensures r.Some? ==> |r.value.1| <= |s|
    decreases |s|
  {
    if s != [] && s[0] == '{' then
      var e :- ReadEntry(s);
      var es :- ReadEntries(e.1);
      Some(([e.0] + es.0, es.1))
    else Some(([], s))
  }

  function ReadVector(s: string): (r: Option<(seq<Position>, string)>) {
    var s1 :- Expect("[", s);
    var es :- ReadEntries(s1);
    var s2 :- Expect("]", es.1);
    Some((es.0, s2))
  }

  /** Reads a whole record; nothing may follow it. */
  function ReadRecord(s: string): Option<LiveRecord> {
    var s1 :- Expect("{\n:line ", s);
    var line :- ReadNat(s1);
    var s2 :- Expect("\n:col ", line.1);
    var col :- ReadNat(s2);
    var sets :- ReadLiveSets(col.1);
    Some(LiveRecord(line.0, col.0, sets.0, sets.1))
  }

  /** Reads the two vectors that end a record, and its closing brace. */
  function ReadLiveSets(s: string): Option<(seq<Position>, seq<Position>)> {
    var s1 :- Expect("\n:live_before ", s);
    var before :- ReadVector(s1);
    var s2 :- Expect("\n:live_after ", before.1);
    var after :- ReadVector(s2);
    var s3 :- Expect("\n}\n", after.1);
    if s3 == [] then Some((before.0, after.0)) else None
  }

  lemma ExpectLiteral(lit: string, rest: string)
    ensures Expect(lit, lit + rest) == Some(rest)
  {
    assert (lit + rest)[..|lit|] == lit;
    assert (lit + rest)[|lit|..] == rest;
  }

  lemma ReadEntryRoundTrip(p: Position, rest: string)
    ensures ReadEntry(EntryEdn(p) + rest) == Some((p, rest))
  {
    var l, c := NatToString(p.line), NatToString(p.col);
    var t4 := "}" + rest;
    var t3 := c + t4;
    var t2 := " :col " + t3;
    var t1 := l + t2;
    assert EntryEdn(p) + rest == "{:line " + t1;
    ExpectLiteral("{:line ", t1);
    ReadNatAfterNatToString(p.line, t2);
    ExpectLiteral(" :col ", t3);
    ReadNatAfterNatToString(p.col, t4);
    ExpectLiteral("}", rest);
  }

  lemma EntriesThenRest(ps: seq<Position>, rest: string)
    requires ps != []
    ensures EntriesEdn(ps) + rest == EntryEdn(ps[0]) + (EntriesEdn(ps[1..]) + rest)
  {
  }

  /** An entry in front of readable entries is read as one more entry. */
  lemma ReadEntriesAfterEntry(p: Position, tail: string, ps: seq<Position>, rest: string)
    requires ReadEntries(tail) == Some((ps, rest))
    ensures ReadEntries(EntryEdn(p) + tail) == Some(([p] + ps, rest))
  {
    ReadEntryRoundTrip(p, tail);
    assert (EntryEdn(p) + tail)[0] == '{';
  }

  lemma {:induction false} ReadEntriesRoundTrip(ps: seq<Position>, rest: string)
    requires rest == [] || rest[0] != '{'
    ensures ReadEntries(EntriesEdn(ps) + rest) == Some((ps, rest))
    decreases |ps|
  {
    if ps == [] {
      assert EntriesEdn(ps) + rest == rest;
    } else {
      var tail := EntriesEdn(ps[1..]) + rest;
      EntriesThenRest(ps, rest);
      ReadEntriesRoundTrip(ps[1..], rest);
      ReadEntriesAfterEntry(ps[0], tail, ps[1..], rest);
      assert [ps[0]] + ps[1..] == ps;
    }
  }

  /** Reading a vector back yields the positions of exactly the values that got an entry, in order. */
  lemma ReadVectorRoundTrip(decls: DeclTable, s: seq<ValueId>, rest: string)
    ensures ReadVector(LiveVariablesEdn(decls, s) + rest) == Some((Positions(decls, s), rest))
  {
    var es := EntriesEdn(Positions(decls, s));
    var t := es + ("]" + rest);
    assert LiveVariablesEdn(decls, s) + rest == "[" + t;
    ExpectLiteral("[", t);
    ReadEntriesRoundTrip(Positions(decls, s), "]" + rest);
    ExpectLiteral("]", rest);
  }

  lemma ReadLiveSetsRoundTrip(decls: DeclTable, before: seq<ValueId>, after: seq<ValueId>)
    ensures ReadLiveSets("\n:live_before " + LiveVariablesEdn(decls, before)
                         + "\n:live_after " + LiveVariablesEdn(decls, after) + "\n}\n")
         == Some((Positions(decls, before), Positions(decls, after)))
  {
    var b, a := LiveVariablesEdn(decls, before), LiveVariablesEdn(decls, after);
    var t4 := "\n}\n";
    var t3 := a + t4;
    var t2 := "\n:live_after " + t3;
    var t1 := b + t2;
    assert "\n:live_before " + b + "\n:live_after " + a + "\n}\n" == "\n:live_before " + t1 by { assert "\n:live_before " + b + "\n:live_after " == "\n:live_before " + (b + "\n:live_after "); }
    ExpectLiteral("\n:live_before ", t1);
    ReadVectorRoundTrip(decls, before, t2);
    ExpectLiteral("\n:live_after ", t3);
    ReadVectorRoundTrip(decls, after, t4);
    ExpectLiteral("\n}\n", []);
    assert t4 + [] == t4;
  }

  /** The record text is its header followed by its two vectors. */
  lemma RecordEdnSplit(line: nat, col: nat, b: string, a: string)
    ensures RecordEdn(line, col, b, a)
         == "{\n:line " + (NatToString(line) + ("\n:col " + (NatToString(col)
              + ("\n:live_before " + b + "\n:live_after " + a + "\n}\n"))))
  {
  }

  /**
   * Every non-empty record `getLiveInfo` writes reads back as the
   * instruction's own line and column and the positions of the declared
   * live values before and after it.
   */
  lemma LiveInfoRoundTrip(inst: Instruction, before: seq<ValueId>, after: seq<ValueId>, decls: DeclTable)
    requires inst.hasMetadata && (|before| > 0 || |after| > 0)
    ensures ReadRecord(LiveInfo(inst, Ref(before), Ref(after), decls))
         == Some(LiveRecord(inst.line, inst.col, Positions(decls, before), Positions(decls, after)))
  {
    var l, c := NatToString(inst.line), NatToString(inst.col);
    var b, a := LiveVariablesEdn(decls, before), LiveVariablesEdn(decls, after);
    var t4 := "\n:live_before " + b + "\n:live_after " + a + "\n}\n";
    var t3 := c + t4;
    var t2 := "\n:col " + t3;
    var t1 := l + t2;
    RecordEdnSplit(inst.line, inst.col, b, a);
    ExpectLiteral("{\n:line ", t1);
    ReadNatAfterNatToString(inst.line, t2);
    ExpectLiteral("\n:col ", t3);
    ReadNatAfterNatToString(inst.col, t4);
    ReadLiveSetsRoundTrip(decls, before, after);
  }

  /** Records for different content are different text. */
  lemma LiveInfoInjective(i1: Instruction, b1: seq<ValueId>, a1: seq<ValueId>,
                          i2: Instruction, b2: seq<ValueId>, a2: seq<ValueId>, decls: DeclTable)
    requires i1.hasMetadata && (|b1| > 0 || |a1| > 0)
    requires i2.hasMetadata && (|b2| > 0 || |a2| > 0)
    requires LiveInfo(i1, Ref(b1), Ref(a1), decls) == LiveInfo(i2, Ref(b2), Ref(a2), decls)
    ensures i1.line == i2.line && i1.col == i2.col
    ensures Positions(decls, b1) == Positions(decls, b2) && Positions(decls, a1) == Positions(decls, a2)
  {
    LiveInfoRoundTrip(i1, b1, a1, decls);
    LiveInfoRoundTrip(i2, b2, a2, decls);
  }
}
