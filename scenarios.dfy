/**
 * Sample deliveries: a single-fragment encoding, a lone fragment, three
 * fragments out of order, and three consequences of the code as written
 * (truncation by a final fragment with a low number, the sentinel state
 * number, and a duplicate that differs only in its final flag).
 */
module Scenarios {

  import opened Bytes
  import opened Results
  import opened Instructions
  import opened Fragments
  import opened Reassembly

  /** A fragment of the template (old 1, new 2, ack 0, throwaway 0). */
  function Piece(num: uint16, final: bool, diff: seq<byte>): Instruction
  {
    Instruction(1, 2, 0, 0, num, final, diff)
  }

  /** A lone final fragment encodes to 39 bytes whose fragment word is 0x8000, and decodes back. */
  lemma SingleFragmentEncoding()
    ensures var i := Piece(0, true, [104, 101, 108, 108, 111]);
      && |Encode(i)| == 39
      && Encode(i)[32..34] == [0x80, 0x00]
      && Encode(i)[..8] == [0, 0, 0, 0, 0, 0, 0, 1]
      && Encode(i)[8..16] == [0, 0, 0, 0, 0, 0, 0, 2]
      && Encode(i)[34..] == [104, 101, 108, 108, 111]
      && Decode(Encode(i)) == Success(i)
  {
    var i := Piece(0, true, [104, 101, 108, 108, 111]);
    var r := Encode(i);
    DecodeEncode(i);
    BigEndianOfValue(r[32..34]);
    BigEndianOfValue(r[..8]);
    BigEndianOfValue(r[8..16]);
    assert r[..8] == BigEndian(1, 8);
    assert r[8..16] == BigEndian(2, 8);
  }

  lemma ConcatThree(a: Instruction, b: Instruction, c: Instruction)
    ensures Concat([a, b, c]) == a.diff + b.diff + c.diff
  {
    assert [a][..0] == [];
    assert Concat([a]) == a.diff;
    assert [a, b][..1] == [a];
    assert Concat([a, b]) == a.diff + b.diff;
    assert [a, b, c][..2] == [a, b];
  }

  /** A lone final fragment 0 completes at once and is retrieved as it came. */
  lemma SingleFragmentAssembly(diff: seq<byte>)
    ensures var step := AddStep(Initial, Piece(0, true, diff));
      && step.outcome == Success(true)
      && WellFormed(step.next)
      && Retrieve(step.next).outcome == Success(Piece(0, true, diff))
  {
    var f := Piece(0, true, diff);
    AddStepWellFormed(Initial, f);
    var t := AddStep(Initial, f).next;
    assert t.fragments[..1] == [f];
    assert Concat([f]) == diff by { assert [f][..0] == []; }
  }

  /** Three fragments delivered in the order 2, 0, 1: false, false, true, then "ABC". */
  lemma ThreeFragmentsOutOfOrder()
    ensures var frags := [Piece(0, false, [65]), Piece(1, false, [66]), Piece(2, true, [67])];
      var run := Run(Initial, [frags[2], frags[0], frags[1]]);
      && run.1 == [Success(false), Success(false), Success(true)]
      && WellFormed(run.0)
      && Retrieve(run.0).outcome.Success?
      && Retrieve(run.0).outcome.value.diff == [65, 66, 67]
  {
    var frags := [Piece(0, false, [65]), Piece(1, false, [66]), Piece(2, true, [67])];
    ThreeFragmentsRun(frags, [frags[2], frags[0], frags[1]]);
  }

  lemma ThreeFragmentsRun(frags: seq<Instruction>, insts: seq<Instruction>)
    requires frags == [Piece(0, false, [65]), Piece(1, false, [66]), Piece(2, true, [67])]
    requires insts == [frags[2], frags[0], frags[1]]
    ensures var run := Run(Initial, insts);
      && run.1 == [Success(false), Success(false), Success(true)]
      && WellFormed(run.0)
      && Retrieve(run.0).outcome.Success?
      && Retrieve(run.0).outcome.value.diff == [65, 66, 67]
  {
    assert Split(frags);
    InitialWellFormed();
    OrderIndependence(Initial, frags, insts);
    assert insts[..1] == [frags[2]] && frags[0] !in insts[..1];
    assert insts[..2] == [frags[2], frags[0]] && frags[1] !in insts[..2];
    assert insts[..3] == insts;
    assert AllDelivered(frags, insts);
    ConcatThree(frags[0], frags[1], frags[2]);
  }

  /**
   * A final fragment numbered below a stored one truncates the store but
   * not the counter: after fragments 0 and 3, the final fragment 2 reports
   * completion although slot 1 never arrived, and retrieval drops fragment
   * 3 and contributes nothing for slot 1.
   */
  lemma FinalTruncatesStore()
    ensures var s1 := AddStep(Initial, Piece(0, false, [65]));
      var s2 := AddStep(s1.next, Piece(3, false, [68]));
      var s3 := AddStep(s2.next, Piece(2, true, [67]));
      && s1.outcome == Success(false) && s2.outcome == Success(false)
      && s3.outcome == Success(true)
      && s3.next.fragments == [Piece(0, false, [65]), Blank, Piece(2, true, [67])]
      && WellFormed(s3.next)
      && Retrieve(s3.next).outcome.Success?
      && Retrieve(s3.next).outcome.value.diff == [65, 67]
  {
    var s1 := AddStep(Initial, Piece(0, false, [65]));
    var s2 := AddStep(s1.next, Piece(3, false, [68]));
    var s3 := AddStep(s2.next, Piece(2, true, [67]));
    assert s1.next.fragments == [Piece(0, false, [65])];
    assert s2.next.fragments == [Piece(0, false, [65]), Blank, Blank, Piece(3, false, [68])];
    var slots := [Piece(0, false, [65]), Blank, Piece(2, true, [67])];
    assert s3.next.fragments == slots;
    InitialWellFormed();
    AddStepWellFormed(Initial, Piece(0, false, [65]));
    AddStepWellFormed(s1.next, Piece(3, false, [68]));
    AddStepWellFormed(s2.next, Piece(2, true, [67]));
    assert slots[..3] == slots;
    ConcatThree(slots[0], slots[1], slots[2]);
  }

  /**
   * A fragment whose old state number is the sentinel is never recognised
   * as stored: delivering fragment 0 twice counts it twice, so the final
   * fragment 2 reports completion with slot 1 missing.
   */
  lemma SentinelStateCountedTwice()
    ensures var f0 := Instruction(NoState, 2, 0, 0, 0, false, [65]);
      var f2 := Instruction(NoState, 2, 0, 0, 2, true, [67]);
      var s1 := AddStep(Initial, f0);
      var s2 := AddStep(s1.next, f0);
      var s3 := AddStep(s2.next, f2);
      && s1.next.arrived == 1 && s2.next.arrived == 2
      && s2.outcome == Success(false)
      && s3.outcome == Success(true)
  {
  }

  /**
   * Equality ignores the final flag, so a copy of fragment 1 marked final
   * passes as a duplicate; it then sets the total to two while three
   * fragments are counted, which the count check refuses.
   */
  lemma FinalFlagOnDuplicate()
    ensures var s1 := AddStep(Initial, Piece(0, false, [65]));
      var s2 := AddStep(s1.next, Piece(1, false, [66]));
      var s3 := AddStep(s2.next, Piece(2, false, [67]));
      var s4 := AddStep(s3.next, Piece(1, true, [66]));
      && s3.outcome == Success(false)
      && s4.outcome == Failure(FragmentCountExceeded)
      && s4.next.arrived == 3 && s4.next.total == 2
  {
    var s1 := AddStep(Initial, Piece(0, false, [65]));
    var s2 := AddStep(s1.next, Piece(1, false, [66]));
    var s3 := AddStep(s2.next, Piece(2, false, [67]));
    assert s3.next.fragments[1] == Piece(1, false, [66]);
  }

  /** A second copy of a stored fragment with another diff is refused and changes nothing. */
  lemma MismatchedDuplicate()
    ensures var s1 := AddStep(Initial, Piece(0, false, [65]));
      var s2 := AddStep(s1.next, Piece(0, false, [90]));
      && s2 == Added(s1.next, Failure(DuplicateMismatch))
  {
  }
}
