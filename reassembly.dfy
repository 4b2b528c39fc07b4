/**
 * What reassembly achieves over a whole delivery sequence: the fragments
 * of one logical instruction, delivered in any order and any number of
 * times each, are reported complete exactly when the last missing one
 * arrives, and retrieval then yields their diffs in index order.
 */
module Reassembly {

  import opened Bytes
  import opened Results
  import opened Instructions
  import opened Fragments

  /** add_fragment applied to each instruction in turn: the final state and every reported outcome. */
  function Run(s: Assembly, insts: seq<Instruction>): (r: (Assembly, seq<Result<bool, AssemblyError>>))
    ensures |r.1| == |insts|
  {
    if insts == [] then (s, [])
    else
      var prev := Run(s, insts[..|insts| - 1]);
      var step := AddStep(prev.0, insts[|insts| - 1]);
      (step.next, prev.1 + [step.outcome])
  }

  /**
   * What the sender's splitter promises: fragments numbered 0 .. N-1 in
   * place, all of one template, `final` on the last one only, none carrying
   * the sentinel state number, and no more than fifteen bits can number.
   */
  predicate Split(frags: seq<Instruction>)
  {
    && 1 <= |frags| <= 0x8000
    && forall i :: 0 <= i < |frags| ==>
         && frags[i].fragmentNum == i
         && SameTemplate(frags[i], frags[0])
         && (frags[i].final <==> i == |frags| - 1)
         && Filled(frags[i])
  }

  /**
   * An assembly ready to receive a new logical instruction of template t:
   * it holds another template (or none), or it holds t but has been emptied
   * by a retrieval.
   */
  predicate Ready(s: Assembly, t: Instruction)
  {
    && WellFormed(s)
    && (!Matches(t, s.template) || (s.fragments == [] && s.arrived == 0 && s.total == Unknown))
  }

  /** Every fragment occurs among the deliveries. */
  predicate AllDelivered(frags: seq<Instruction>, delivered: seq<Instruction>)
  {
    forall i :: 0 <= i < |frags| ==> frags[i] in delivered
  }

  /**
   * The state after delivering `delivered`: the template is the split's,
   * slot i holds fragment i once it was delivered and is blank otherwise,
   * the store covers every delivered index, the counter is the number of
   * distinct fragments delivered, and the total is known (and the store
   * exactly N long) once the final fragment was delivered.
   */
  predicate Tracks(s: Assembly, frags: seq<Instruction>, delivered: seq<Instruction>)
    requires Split(frags)
  {
    var n := |frags|;
    && s.template.Some? && SameTemplate(s.template.value, frags[0])
    && |s.fragments| <= n
    && (forall i :: 0 <= i < |s.fragments| ==>
          s.fragments[i] == if frags[i] in delivered then frags[i] else Blank)
    && (forall i :: 0 <= i < n && frags[i] in delivered ==> i < |s.fragments|)
    && s.arrived == CountFilled(s.fragments)
    && s.total == (if frags[n - 1] in delivered then n else Unknown)
    && (frags[n - 1] in delivered ==> |s.fragments| == n)
  }

  lemma TracksWellFormed(s: Assembly, frags: seq<Instruction>, delivered: seq<Instruction>)
    requires Split(frags) && Tracks(s, frags, delivered)
    ensures WellFormed(s)
  {
    forall i | 0 <= i < |s.fragments| && Filled(s.fragments[i])
      ensures s.fragments[i].fragmentNum == i && Matches(s.fragments[i], s.template)
    {
      assert s.fragments[i] == frags[i];
    }
  }

  /** Counted completion is the same as every fragment having been delivered. */
  lemma TracksComplete(s: Assembly, frags: seq<Instruction>, delivered: seq<Instruction>)
    requires Split(frags) && Tracks(s, frags, delivered)
    ensures s.arrived == s.total <==> AllDelivered(frags, delivered)
    ensures AllDelivered(frags, delivered) ==> s.fragments == frags
  {
    var n := |frags|;
    if frags[n - 1] in delivered {
      CountFilledFull(s.fragments);
      if AllDelivered(frags, delivered) {
        assert s.fragments == frags;
      }
      if s.arrived == s.total {
        forall i | 0 <= i < n ensures frags[i] in delivered {
          assert Filled(s.fragments[i]);
        }
      }
    }
  }


  /** Delivering an already delivered fragment changes nothing. */
  lemma StepDuplicate(s: Assembly, frags: seq<Instruction>, d: seq<Instruction>, k: nat)
    requires Split(frags) && Tracks(s, frags, d) && k < |frags| && frags[k] in d
    ensures AddStep(s, frags[k]).next == s
    ensures AddStep(s, frags[k]).outcome == Success(s.arrived == s.total)
    ensures Tracks(s, frags, d + [frags[k]])
  {
    var n := |frags|;
    assert s.fragments[k] == frags[k];
    CountFilledResize(s.fragments, k + 1);
    if frags[k].final {
      assert Resize(s.fragments, k + 1) == s.fragments;
    }
    forall i | 0 <= i < n ensures (frags[i] in d + [frags[k]]) == (frags[i] in d) {
      if frags[i] == frags[k] { assert i == k; }
    }
  }

  /** Delivering a fragment for the first time stores and counts it. */
  lemma StepNew(s: Assembly, frags: seq<Instruction>, d: seq<Instruction>, k: nat)
    requires Split(frags) && Tracks(s, frags, d) && k < |frags| && frags[k] !in d
    ensures AddStep(s, frags[k]).outcome.Success?
    ensures Tracks(AddStep(s, frags[k]).next, frags, d + [frags[k]])
  {
    var x := frags[k];
    assert AddStep(s, x) == Finish(Stored(s, x), x) by {
      assert Matches(x, s.template);
      assert !(k < |s.fragments| && Filled(s.fragments[k]));
    }
    StoredTracks(s, frags, d, k);
    var n := |frags|;
    assert (frags[n - 1] in d + [x] && !x.final) == (frags[n - 1] in d) by {
      if x.final { assert k == n - 1; } else { assert frags[n - 1] != x; }
    }
    FinishTracks(Stored(s, x), frags, d + [x], k);
  }

  /** Writing an undelivered fragment into its slot tracks the longer delivery sequence. */
  lemma StoredTracks(s: Assembly, frags: seq<Instruction>, d: seq<Instruction>, k: nat)
    requires Split(frags) && Tracks(s, frags, d) && k < |frags| && frags[k] !in d
    ensures var m := Stored(s, frags[k]);
      && m.template == s.template && m.total == s.total
      && |m.fragments| <= |frags| && k < |m.fragments|
      && (forall i :: 0 <= i < |m.fragments| ==>
            m.fragments[i] == if frags[i] in d + [frags[k]] then frags[i] else Blank)
      && (forall i :: 0 <= i < |frags| && frags[i] in d + [frags[k]] ==> i < |m.fragments|)
      && m.arrived == CountFilled(m.fragments)
      && (frags[|frags| - 1] in d ==> |m.fragments| == |frags|)
  {
    var x := frags[k];
    var grown := if |s.fragments| < k + 1 then Resize(s.fragments, k + 1) else s.fragments;
    assert !(k < |s.fragments| && Filled(s.fragments[k])) by {
      if k < |s.fragments| { assert s.fragments[k] == Blank; }
    }
    assert Stored(s, x) == s.(fragments := grown[k := x], arrived := s.arrived + 1);
    assert s.arrived + 1 == CountFilled(grown[k := x]) by {
      StoreCount(s.fragments, x);
    }
    GrownSlots(s, frags, d, k);
    WrittenSlots(grown, frags, d, k);
    assert forall i :: 0 <= i < |frags| && frags[i] in d + [x] ==> i < |grown| by {
      NewDelivery(frags, d, k);
    }
  }

  /** Writing fragment k into a store that tracks `d` tracks the deliveries `d` and then k. */
  lemma WrittenSlots(grown: seq<Instruction>, frags: seq<Instruction>, d: seq<Instruction>, k: nat)
    requires Split(frags) && k < |grown| <= |frags|
    requires forall i :: 0 <= i < |grown| ==> grown[i] == if frags[i] in d then frags[i] else Blank
    ensures forall i :: 0 <= i < |grown| ==>
      grown[k := frags[k]][i] == if frags[i] in d + [frags[k]] then frags[i] else Blank
  {
    NewDelivery(frags, d, k);
  }

  /** After delivering fragment k, the delivered fragments are those delivered before and k. */
  lemma NewDelivery(frags: seq<Instruction>, d: seq<Instruction>, k: nat)
    requires Split(frags) && k < |frags|
    ensures forall i :: 0 <= i < |frags| ==> ((frags[i] in d + [frags[k]]) <==> (frags[i] in d || i == k))
  {
    forall i | 0 <= i < |frags| ensures (frags[i] in d + [frags[k]]) <==> (frags[i] in d || i == k) {
      if frags[i] == frags[k] { assert i == k; }
    }
  }

  /** Growing the store pads it with blank slots for undelivered fragments. */
  lemma GrownSlots(s: Assembly, frags: seq<Instruction>, d: seq<Instruction>, k: nat)
    requires Split(frags) && Tracks(s, frags, d) && k < |frags|
    ensures var grown := if |s.fragments| < k + 1 then Resize(s.fragments, k + 1) else s.fragments;
      && |grown| <= |frags| && k < |grown|
      && (forall i :: 0 <= i < |grown| ==> grown[i] == if frags[i] in d then frags[i] else Blank)
      && (frags[|frags| - 1] in d ==> |grown| == |frags|)
  {
    var grown := if |s.fragments| < k + 1 then Resize(s.fragments, k + 1) else s.fragments;
    forall i | 0 <= i < |grown|
      ensures grown[i] == if frags[i] in d then frags[i] else Blank
    {
      if i >= |s.fragments| {
        assert frags[i] !in d;
      }
    }
  }

  /** The final-flag step keeps the tracking once the fragment is stored. */
  lemma FinishTracks(m: Assembly, frags: seq<Instruction>, e: seq<Instruction>, k: nat)
    requires Split(frags) && k < |frags| && frags[k] in e
    requires m.template.Some? && SameTemplate(m.template.value, frags[0])
    requires |m.fragments| <= |frags| && k < |m.fragments|
    requires forall i :: 0 <= i < |m.fragments| ==>
      m.fragments[i] == if frags[i] in e then frags[i] else Blank
    requires forall i :: 0 <= i < |frags| && frags[i] in e ==> i < |m.fragments|
    requires m.arrived == CountFilled(m.fragments)
    requires m.total == (if frags[|frags| - 1] in e && !frags[k].final then |frags| else Unknown)
    requires frags[|frags| - 1] in e && !frags[k].final ==> |m.fragments| == |frags|
    ensures Finish(m, frags[k]).outcome.Success?
    ensures Tracks(Finish(m, frags[k]).next, frags, e)
  {
    var n := |frags|;
    if frags[k].final {
      assert k == n - 1;
      CountFilledResize(m.fragments, k + 1);
    }
  }

  /** The first delivery to a ready assembly. */
  lemma StepFirst(s: Assembly, frags: seq<Instruction>, k: nat)
    requires Split(frags) && Ready(s, frags[0]) && k < |frags|
    ensures AddStep(s, frags[k]).outcome == Success(AllDelivered(frags, [frags[k]]))
    ensures Tracks(AddStep(s, frags[k]).next, frags, [frags[k]])
  {
    var x := frags[k];
    if Matches(frags[0], s.template) {
      assert Tracks(s, frags, []);
      assert [] + [x] == [x];
      StepNew(s, frags, [], k);
    } else {
      StepRestart(s, frags, k);
    }
    TracksComplete(AddStep(s, x).next, frags, [x]);
  }

  /** The first fragment of a new template restarts the assembly with that one fragment. */
  lemma StepRestart(s: Assembly, frags: seq<Instruction>, k: nat)
    requires Split(frags) && k < |frags| && !Matches(frags[0], s.template)
    ensures AddStep(s, frags[k]).outcome.Success?
    ensures Tracks(AddStep(s, frags[k]).next, frags, [frags[k]])
  {
    var x := frags[k];
    assert !Matches(x, s.template);
    var padded := Resize([], k + 1);
    var m := Assembly(padded[k := x], Some(x), 1, Unknown);
    assert AddStep(s, x) == Finish(m, x);
    RestartSlots(frags, k);
    FinishTracks(m, frags, [x], k);
  }

  /** The store a restart on fragment k builds tracks the single delivery of k. */
  lemma RestartSlots(frags: seq<Instruction>, k: nat)
    requires Split(frags) && k < |frags|
    ensures var stored := Resize([], k + 1)[k := frags[k]];
      && (forall i :: 0 <= i < |stored| ==> stored[i] == if frags[i] in [frags[k]] then frags[i] else Blank)
      && (forall i :: 0 <= i < |frags| && frags[i] in [frags[k]] ==> i < |stored|)
      && CountFilled(stored) == 1
      && (frags[|frags| - 1] in [frags[k]] && !frags[k].final) == false
  {
    RestartMembership(frags, k);
    RestartCount(k, frags[k]);
  }

  /** Among the split's fragments, only fragment k is in the delivery of k alone. */
  lemma RestartMembership(frags: seq<Instruction>, k: nat)
    requires Split(frags) && k < |frags|
    ensures forall i :: 0 <= i < |frags| ==> (frags[i] in [frags[k]]) == (i == k)
    ensures (frags[|frags| - 1] in [frags[k]]) == frags[k].final
  {
    var x := frags[k];
    forall i | 0 <= i < |frags| ensures (frags[i] in [x]) == (i == k) {
      if frags[i] == x { assert i == k; }
    }
  }

  /** A blank store with one filled fragment written into it counts one filled slot. */
  lemma RestartCount(k: nat, x: Instruction)
    requires Filled(x)
    ensures CountFilled(Resize([], k + 1)[k := x]) == 1
  {
    var padded := Resize([], k + 1);
    CountFilledNone(padded);
    CountFilledUpdate(padded, k, x);
  }

  /** One delivery after the first. */
  lemma Step(s: Assembly, frags: seq<Instruction>, d: seq<Instruction>, k: nat)
    requires Split(frags) && Tracks(s, frags, d) && k < |frags|
    ensures AddStep(s, frags[k]).outcome == Success(AllDelivered(frags, d + [frags[k]]))
    ensures Tracks(AddStep(s, frags[k]).next, frags, d + [frags[k]])
  {
    if frags[k] in d {
      StepDuplicate(s, frags, d, k);
      TracksComplete(s, frags, d);
      TracksComplete(s, frags, d + [frags[k]]);
    } else {
      StepNew(s, frags, d, k);
      TracksComplete(AddStep(s, frags[k]).next, frags, d + [frags[k]]);
    }
  }

  lemma {:induction false} RunTracks(s: Assembly, frags: seq<Instruction>, insts: seq<Instruction>)
    requires Split(frags) && Ready(s, frags[0]) && |insts| >= 1
    requires forall m :: 0 <= m < |insts| ==> insts[m] in frags
    ensures Tracks(Run(s, insts).0, frags, insts)
    ensures forall j :: 0 <= j < |insts| ==> Run(s, insts).1[j] == Success(AllDelivered(frags, insts[..j + 1]))
  {
    var n := |insts|;
    var last := insts[n - 1];
    FragmentIndex(frags, last);
    var k: nat := last.fragmentNum;
    if n == 1 {
      RunFirst(s, frags, insts, k);
    } else {
      var front := insts[..n - 1];
      RunTracks(s, frags, front);
      RunLast(s, insts);
      RunExtend(Run(s, front), frags, insts, k);
    }
  }

  /** A fragment of the split sits at its own index. */
  lemma FragmentIndex(frags: seq<Instruction>, x: Instruction)
    requires Split(frags) && x in frags
    ensures x.fragmentNum < |frags| && frags[x.fragmentNum] == x
  {
  }

  /** A run of one delivery to a ready assembly is tracked. */
  lemma RunFirst(s: Assembly, frags: seq<Instruction>, insts: seq<Instruction>, k: nat)
    requires Split(frags) && Ready(s, frags[0]) && |insts| == 1 && k < |frags| && insts[0] == frags[k]
    ensures Tracks(Run(s, insts).0, frags, insts)
    ensures forall j :: 0 <= j < |insts| ==> Run(s, insts).1[j] == Success(AllDelivered(frags, insts[..j + 1]))
  {
    RunLast(s, insts);
    assert insts[..0] == [];
    assert insts == [frags[k]] && insts[..1] == insts;
    StepFirst(s, frags, k);
  }

  /** A tracked run extended by one more delivery is tracked. */
  lemma RunExtend(prev: (Assembly, seq<Result<bool, AssemblyError>>), frags: seq<Instruction>,
                  insts: seq<Instruction>, k: nat)
    requires Split(frags) && |insts| >= 2 && k < |frags| && insts[|insts| - 1] == frags[k]
    requires |prev.1| == |insts| - 1
    requires Tracks(prev.0, frags, insts[..|insts| - 1])
    requires forall j :: 0 <= j < |insts| - 1 ==>
      prev.1[j] == Success(AllDelivered(frags, insts[..|insts| - 1][..j + 1]))
    ensures Tracks(AddStep(prev.0, frags[k]).next, frags, insts)
    ensures forall j :: 0 <= j < |insts| ==>
      (prev.1 + [AddStep(prev.0, frags[k]).outcome])[j] == Success(AllDelivered(frags, insts[..j + 1]))
  {
    StepOnto(prev.0, frags, insts, k);
    OutcomesExtend(prev.1, AddStep(prev.0, frags[k]).outcome, frags, insts);
  }

  /** `Step`, for a delivery sequence that ends with fragment k. */
  lemma StepOnto(s: Assembly, frags: seq<Instruction>, insts: seq<Instruction>, k: nat)
    requires Split(frags) && |insts| >= 1 && k < |frags| && insts[|insts| - 1] == frags[k]
    requires Tracks(s, frags, insts[..|insts| - 1])
    ensures AddStep(s, frags[k]).outcome == Success(AllDelivered(frags, insts))
    ensures Tracks(AddStep(s, frags[k]).next, frags, insts)
  {
    var front := insts[..|insts| - 1];
    assert insts == front + [frags[k]];
    Step(s, frags, front, k);
  }

  /** A run ends with the step for its last delivery. */
  lemma RunLast(s: Assembly, insts: seq<Instruction>)
    requires |insts| >= 1
    ensures var prev := Run(s, insts[..|insts| - 1]);
      var step := AddStep(prev.0, insts[|insts| - 1]);
      Run(s, insts) == (step.next, prev.1 + [step.outcome])
  {
  }

  /** The outcomes of a run extended by one delivery. */
  lemma OutcomesExtend(outs: seq<Result<bool, AssemblyError>>, o: Result<bool, AssemblyError>,
                       frags: seq<Instruction>, insts: seq<Instruction>)
    requires |insts| >= 1 && |outs| == |insts| - 1
    requires forall j :: 0 <= j < |outs| ==>
      outs[j] == Success(AllDelivered(frags, insts[..|insts| - 1][..j + 1]))
    requires o == Success(AllDelivered(frags, insts))
    ensures forall j :: 0 <= j < |insts| ==>
      (outs + [o])[j] == Success(AllDelivered(frags, insts[..j + 1]))
  {
    forall j | 0 <= j < |insts|
      ensures (outs + [o])[j] == Success(AllDelivered(frags, insts[..j + 1]))
    {
      if j < |outs| {
        assert insts[..|insts| - 1][..j + 1] == insts[..j + 1];
      } else {
        assert insts[..j + 1] == insts;
      }
    }
  }

  /**
   * Order independence.  For the fragments of one logical instruction fed
   * to a ready assembly in any order, with any repetitions, add_fragment
   * reports completion exactly at the deliveries by which every fragment
   * has arrived, and never fails; once all have arrived, retrieval yields
   * the split's template with the diffs concatenated in index order.
   */
  lemma OrderIndependence(s: Assembly, frags: seq<Instruction>, insts: seq<Instruction>)
    requires Split(frags) && Ready(s, frags[0])
    requires forall m :: 0 <= m < |insts| ==> insts[m] in frags
    ensures forall j :: 0 <= j < |insts| ==>
      Run(s, insts).1[j] == Success(AllDelivered(frags, insts[..j + 1]))
    ensures AllDelivered(frags, insts) ==>
      && WellFormed(Run(s, insts).0)
      && Retrieve(Run(s, insts).0).outcome.Success?
      && SameTemplate(Retrieve(Run(s, insts).0).outcome.value, frags[0])
      && Retrieve(Run(s, insts).0).outcome.value.diff == Concat(frags)
  {
    if AllDelivered(frags, insts) {
      assert frags[0] in insts;
      RunTracks(s, frags, insts);
      var t := Run(s, insts).0;
      TracksWellFormed(t, frags, insts);
      TracksComplete(t, frags, insts);
      assert t.fragments[..t.total] == frags;
    } else if |insts| >= 1 {
      RunTracks(s, frags, insts);
    }
  }

  /**
   * The template survives retrieval: a fragment of the same template that
   * arrives afterwards is treated like the first fragment to a fresh
   * assembly, except that the kept template (with its fragment number and
   * final flag) is the one a later retrieval copies.
   */
  lemma RetrievalKeepsTemplate(s: Assembly, inst: Instruction)
    requires WellFormed(s) && Retrieve(s).outcome.Success?
    requires Matches(inst, s.template)
    ensures var after := AddStep(Retrieve(s).next, inst);
      var first := AddStep(Initial, inst);
      && after.next == first.next.(template := s.template)
      && after.outcome == first.outcome
  {
    var k: nat := inst.fragmentNum;
    var padded := Resize([], k + 1);
    assert Resize(padded, k + 1) == padded;
  }
}
