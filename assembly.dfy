/**
 * FragmentAssembly: the receiver-side reassembly of one logical instruction
 * from fragments that may arrive out of order, twice, or interleaved with
 * the fragments of a newer instruction.
 *
 * The store of fragments is a growable sequence of slots indexed by
 * fragment number.  As in `add_fragment`, a slot that was never written holds
 * a default instruction whose old_num is uint64_t(-1); a slot counts as
 * filled exactly when its old_num differs from that sentinel.
 *
 * Each operation is first given as a function on an `Assembly` value (the
 * four fields of the object), with its properties as postconditions; the
 * class at the end performs the same updates in place and promises the
 * function's result.
 */
module Fragments {

  import opened Bytes
  import opened Results
  import opened Instructions

  /** uint64_t(-1), the old_num of a slot that holds no fragment. */
  const NoState: uint64 := 0xFFFF_FFFF_FFFF_FFFF

  /** The `fragments_total` of an instruction whose final fragment has not been seen. */
  const Unknown: int := -1

  /** A default-constructed slot, as `resize` pads the store with. */
  const Blank: Instruction := Instruction(NoState, NoState, NoState, NoState, 0xFFFF, false, [])

  /** Whether a slot holds a received fragment (the sentinel test on old_num). */
  predicate Filled(slot: Instruction)
  {
    slot.oldNum != NoState
  }

  /**
   * FragmentAssembly::same_template: two instructions belong to the same
   * logical instruction when their four state numbers agree, whatever their
   * fragment number, final flag and diff.
   */
  predicate SameTemplate(a: Instruction, b: Instruction)
    ensures SameTemplate(a, b) <==>
      a.(fragmentNum := b.fragmentNum, final := b.final, diff := b.diff) == b
  {
    a.oldNum == b.oldNum && a.newNum == b.newNum
    && a.ackNum == b.ackNum && a.throwawayNum == b.throwawayNum
  }

  /** A fragment matches the current template; before any fragment there is none, and nothing matches. */
  predicate Matches(inst: Instruction, template: Option<Instruction>)
  {
    template.Some? && SameTemplate(inst, template.value)
  }

  datatype AssemblyError =
    | DuplicateMismatch      // a second copy of a stored fragment differs from it
    | FragmentCountExceeded  // more fragments counted than the final fragment announced
    | IncompleteAssembly     // retrieval before every fragment was counted

  /** The fields of a FragmentAssembly object. */
  datatype Assembly = Assembly(
    fragments: seq<Instruction>,
    template: Option<Instruction>,
    arrived: int,
    total: int)

  /** A freshly constructed assembly: no fragments, no template, nothing counted, total unknown. */
  const Initial: Assembly := Assembly([], None, 0, Unknown)

  /** std::vector::resize: truncate to n slots, or pad with blank slots up to n. */
  function Resize(s: seq<Instruction>, n: nat): (r: seq<Instruction>)
    ensures |r| == n
    ensures forall i :: 0 <= i < n ==> r[i] == if i < |s| then s[i] else Blank
  {
    if n <= |s| then s[..n] else s + seq(n - |s|, _ => Blank)
  }

  /** The number of filled slots in a store. */
  function CountFilled(s: seq<Instruction>): (c: nat)
    ensures c <= |s|
  {
    if s == [] then 0 else CountFilled(s[..|s| - 1]) + (if Filled(s[|s| - 1]) then 1 else 0)
  }

  lemma {:induction false} CountFilledAppend(a: seq<Instruction>, b: seq<Instruction>)
    ensures CountFilled(a + b) == CountFilled(a) + CountFilled(b)
  {
    if b != [] {
      assert (a + b)[..|a + b| - 1] == a + b[..|b| - 1];
      assert (a + b)[|a + b| - 1] == b[|b| - 1];
      CountFilledAppend(a, b[..|b| - 1]);
    } else {
      assert a + b == a;
    }
  }

  lemma {:induction false} CountFilledNone(s: seq<Instruction>)
    requires forall i :: 0 <= i < |s| ==> !Filled(s[i])
    ensures CountFilled(s) == 0
  {
    if s != [] {
      CountFilledNone(s[..|s| - 1]);
    }
  }

  /** A store is completely filled exactly when its count of filled slots is its length. */
  lemma {:induction false} CountFilledFull(s: seq<Instruction>)
    ensures CountFilled(s) == |s| <==> forall i :: 0 <= i < |s| ==> Filled(s[i])
  {
    if s != [] {
      var front := s[..|s| - 1];
      CountFilledFull(front);
      assert forall i :: 0 <= i < |front| ==> front[i] == s[i];
    }
  }

  /** Padding adds no filled slot; truncating removes some or none. */
  lemma CountFilledResize(s: seq<Instruction>, n: nat)
    ensures CountFilled(Resize(s, n)) <= CountFilled(s)
    ensures n >= |s| ==> CountFilled(Resize(s, n)) == CountFilled(s)
  {
    if n < |s| {
      assert Resize(s, n) == s[..n];
      CountFilledPrefix(s, n);
    } else if n == |s| {
      assert Resize(s, n) == s;
    } else {
      assert Resize(s, n) == s + seq(n - |s|, _ => Blank);
      CountFilledPadding(s, n - |s|);
    }
  }

  lemma CountFilledPrefix(s: seq<Instruction>, n: nat)
    requires n <= |s|
    ensures CountFilled(s[..n]) <= CountFilled(s)
  {
    assert s == s[..n] + s[n..];
    CountFilledAppend(s[..n], s[n..]);
  }

  lemma CountFilledPadding(s: seq<Instruction>, m: nat)
    ensures CountFilled(s + seq(m, _ => Blank)) == CountFilled(s)
  {
    var pad := seq(m, _ => Blank);
    CountFilledNone(pad);
    CountFilledAppend(s, pad);
  }

  /** Writing one slot changes the count by what leaves and what enters that slot. */
  lemma CountFilledUpdate(s: seq<Instruction>, k: nat, x: Instruction)
    requires k < |s|
    ensures CountFilled(s[k := x]) + (if Filled(s[k]) then 1 else 0)
         == CountFilled(s) + (if Filled(x) then 1 else 0)
  {
    assert s == s[..k] + [s[k]] + s[k + 1..];
    assert s[k := x] == s[..k] + [x] + s[k + 1..];
    CountFilledAppend(s[..k] + [s[k]], s[k + 1..]);
    CountFilledAppend(s[..k] + [x], s[k + 1..]);
    CountFilledAppend(s[..k], [s[k]]);
    CountFilledAppend(s[..k], [x]);
    assert CountFilled([x]) == (if Filled(x) then 1 else 0) by {
      assert [x][..0] == [];
    }
    assert CountFilled([s[k]]) == (if Filled(s[k]) then 1 else 0) by {
      assert [s[k]][..0] == [];
    }
  }

  /**
   * The invariant every operation keeps: an assembly without a template is
   * empty; a known total is at least one and at most the store's length;
   * every filled slot i holds fragment i of the current template; the
   * counter never undercounts the filled slots; and the store never holds
   * more slots than there are 16-bit fragment numbers.
   */
  predicate WellFormed(s: Assembly)
  {
    && |s.fragments| <= 0x1_0000
    && (s.template.None? ==> s.fragments == [] && s.arrived == 0 && s.total == Unknown)
    && (s.total == Unknown || 1 <= s.total <= |s.fragments|)
    && CountFilled(s.fragments) <= s.arrived
    && forall i :: 0 <= i < |s.fragments| && Filled(s.fragments[i]) ==>
         s.fragments[i].fragmentNum == i && Matches(s.fragments[i], s.template)
  }

  lemma InitialWellFormed()
    ensures WellFormed(Initial)
  {
  }

  /** The new state of an add_fragment call and what it reports. */
  datatype Added = Added(next: Assembly, outcome: Result<bool, AssemblyError>)

  /**
   * The end of add_fragment: a final fragment fixes the total at one past its
   * number and resizes the store to exactly that length (dropping any slot
   * beyond it, without adjusting the counter); once the total is known the
   * counter may not exceed it; completion is reported exactly when the
   * counter equals the total.
   */
  function Finish(s: Assembly, inst: Instruction): (r: Added)
    ensures r.next.template == s.template && r.next.arrived == s.arrived
    ensures !inst.final ==> r.next == s
    ensures inst.final ==>
      && r.next.total == inst.fragmentNum + 1
      && r.next.fragments == Resize(s.fragments, inst.fragmentNum + 1)
    ensures r.outcome.Failure? <==> r.next.total != Unknown && r.next.arrived > r.next.total
    ensures r.outcome.Failure? ==> r.outcome.error == FragmentCountExceeded
    ensures r.outcome.Success? ==> (r.outcome.value <==> r.next.arrived == r.next.total)
  {
    var t := if inst.final
      then s.(total := inst.fragmentNum + 1, fragments := Resize(s.fragments, inst.fragmentNum + 1))
      else s;
    if t.total != Unknown && t.arrived > t.total then Added(t, Failure(FragmentCountExceeded))
    else Added(t, Success(t.arrived == t.total))
  }

  /**
   * FragmentAssembly::add_fragment.  A fragment of another template discards
   * everything and starts over with it; a fragment whose slot is filled is a
   * duplicate and must equal the stored one (ignoring `final`); otherwise
   * the store grows to cover the fragment, the fragment is stored and
   * counted.  Then `Finish` handles the final flag and the completion test.
   */
  function AddStep(s: Assembly, inst: Instruction): Added
  {
    var k: nat := inst.fragmentNum;
    if !Matches(inst, s.template) then
      Finish(Assembly(Resize([], k + 1)[k := inst], Some(inst), 1, Unknown), inst)
    else if k < |s.fragments| && Filled(s.fragments[k]) then
      if Equivalent(s.fragments[k], inst) then Finish(s, inst)
      else Added(s, Failure(DuplicateMismatch))
    else
      Finish(Stored(s, inst), inst)
  }


  /** A fragment written into its slot, the store grown to cover it if needed, and counted. */
  function Stored(s: Assembly, inst: Instruction): Assembly
  {
    var k: nat := inst.fragmentNum;
    var grown := if |s.fragments| < k + 1 then Resize(s.fragments, k + 1) else s.fragments;
    s.(fragments := grown[k := inst], arrived := s.arrived + 1)
  }

  function Max(a: int, b: int): int
  {
    if a < b then b else a
  }

  /**
   * A fragment of a new template: all earlier slots are gone, only slot
   * fragment_num is filled, exactly one fragment is counted, the total is
   * unknown unless this fragment is final, and completion is immediate only
   * for a lone final fragment 0.
   */
  lemma AddStepRestart(s: Assembly, inst: Instruction)
    requires !Matches(inst, s.template)
    ensures var r := AddStep(s, inst);
      && r.next.template == Some(inst)
      && r.next.arrived == 1
      && |r.next.fragments| == inst.fragmentNum + 1
      && r.next.fragments[inst.fragmentNum] == inst
      && (forall i :: 0 <= i < inst.fragmentNum ==> r.next.fragments[i] == Blank)
      && r.next.total == (if inst.final then inst.fragmentNum + 1 else Unknown)
      && r.outcome == Success(inst.final && inst.fragmentNum == 0)
  {
    var k: nat := inst.fragmentNum;
    var padded := Resize([], k + 1);
    assert Resize(padded[k := inst], k + 1) == padded[k := inst];
  }

  /**
   * A duplicate: the store and the counter stay as they were (save for the
   * resize a final flag causes); a copy that differs from the stored
   * fragment is refused and changes nothing at all; an equal copy goes
   * straight to the final-flag step, so a retransmitted final fragment
   * truncates the store like the first one did.
   */
  lemma AddStepDuplicate(s: Assembly, inst: Instruction)
    requires Matches(inst, s.template)
    requires inst.fragmentNum < |s.fragments| && Filled(s.fragments[inst.fragmentNum])
    ensures var r := AddStep(s, inst);
      && r.next.template == s.template
      && r.next.arrived == s.arrived
      && (!Equivalent(s.fragments[inst.fragmentNum], inst) ==> r == Added(s, Failure(DuplicateMismatch)))
      && (Equivalent(s.fragments[inst.fragmentNum], inst) ==> r == Finish(s, inst))
      && (Equivalent(s.fragments[inst.fragmentNum], inst) && !inst.final ==> r.next == s)
  {
  }

  /**
   * A fragment for an unfilled slot: the store covers the fragment, holds it
   * at its index, keeps every other slot, and the counter rises by exactly
   * one.
   */
  lemma AddStepNewSlot(s: Assembly, inst: Instruction)
    requires Matches(inst, s.template)
    requires !(inst.fragmentNum < |s.fragments| && Filled(s.fragments[inst.fragmentNum]))
    ensures var r := AddStep(s, inst);
      && r.next.template == s.template
      && r.next.arrived == s.arrived + 1
      && |r.next.fragments| == (if inst.final then inst.fragmentNum + 1
                                else Max(|s.fragments|, inst.fragmentNum + 1))
      && r.next.fragments[inst.fragmentNum] == inst
      && (forall i :: 0 <= i < |r.next.fragments| && i != inst.fragmentNum ==>
            r.next.fragments[i] == if i < |s.fragments| then s.fragments[i] else Blank)
      && (!inst.final ==> r.next.total == s.total)
  {
    var k: nat := inst.fragmentNum;
    var m := Stored(s, inst);
    assert AddStep(s, inst) == Finish(m, inst);
    if inst.final {
      assert Resize(m.fragments, k + 1)[k] == inst;
    }
  }

  /**
   * The end of every path but the refused duplicate: a final fragment fixes
   * the total and the store's length; failure is reported exactly when the
   * counter exceeds a known total; completion exactly when the counter
   * reaches it, which for a well-formed state needs a total of at least 1.
   */
  lemma AddStepCompletion(s: Assembly, inst: Instruction)
    ensures var r := AddStep(s, inst);
      && (inst.final && r.outcome != Failure(DuplicateMismatch) ==>
            r.next.total == inst.fragmentNum + 1 && |r.next.fragments| == inst.fragmentNum + 1)
      && (r.outcome != Failure(DuplicateMismatch) ==>
            (r.outcome.Failure? <==> r.next.total != Unknown && r.next.arrived > r.next.total))
      && (r.outcome.Success? ==> (r.outcome.value <==> r.next.arrived == r.next.total))
      && (WellFormed(s) && r.outcome == Success(true) ==> r.next.total >= 1)
  {
  }

  /** add_fragment keeps the invariant, on its error paths too. */
  lemma AddStepWellFormed(s: Assembly, inst: Instruction)
    requires WellFormed(s)
    ensures WellFormed(AddStep(s, inst).next)
  {
    var k: nat := inst.fragmentNum;
    if !Matches(inst, s.template) {
      RestartWellFormed(inst);
      assert AddStep(s, inst) == Finish(Assembly(Resize([], k + 1)[k := inst], Some(inst), 1, Unknown), inst);
    } else if k < |s.fragments| && Filled(s.fragments[k]) {
      if Equivalent(s.fragments[k], inst) {
        FinishWellFormed(s, inst);
        assert AddStep(s, inst) == Finish(s, inst);
      }
    } else {
      StoreWellFormed(s, inst);
      assert AddStep(s, inst) == Finish(Stored(s, inst), inst);
    }
  }

  /** The state a new template starts from is well formed, and stays so after `Finish`. */
  lemma RestartWellFormed(inst: Instruction)
    ensures var k: nat := inst.fragmentNum;
      WellFormed(Assembly(Resize([], k + 1)[k := inst], Some(inst), 1, Unknown))
    ensures var k: nat := inst.fragmentNum;
      WellFormed(Finish(Assembly(Resize([], k + 1)[k := inst], Some(inst), 1, Unknown), inst).next)
  {
    var k: nat := inst.fragmentNum;
    var padded := Resize([], k + 1);
    CountFilledNone(padded);
    CountFilledUpdate(padded, k, inst);
    var m := Assembly(padded[k := inst], Some(inst), 1, Unknown);
    assert WellFormed(m);
    FinishWellFormed(m, inst);
  }

  /** Storing a fragment in an unfilled slot of its own template keeps the invariant. */
  lemma StoreWellFormed(s: Assembly, inst: Instruction)
    requires WellFormed(s) && Matches(inst, s.template)
    requires !(inst.fragmentNum < |s.fragments| && Filled(s.fragments[inst.fragmentNum]))
    ensures WellFormed(Stored(s, inst))
    ensures WellFormed(Finish(Stored(s, inst), inst).next)
  {
    StoreCount(s.fragments, inst);
    StoreSlots(s, inst);
    var m := Stored(s, inst);
    assert WellFormed(m);
    FinishWellFormed(m, inst);
  }

  /** Storing into an unfilled slot, growing the store if needed, adds one filled slot, or none for a sentinel. */
  lemma StoreCount(fragments: seq<Instruction>, inst: Instruction)
    requires !(inst.fragmentNum < |fragments| && Filled(fragments[inst.fragmentNum]))
    ensures var k := inst.fragmentNum;
      var grown := if |fragments| < k + 1 then Resize(fragments, k + 1) else fragments;
      CountFilled(grown[k := inst]) == CountFilled(fragments) + (if Filled(inst) then 1 else 0)
  {
    var k: nat := inst.fragmentNum;
    if |fragments| < k + 1 {
      PaddedStoreCount(fragments, inst);
    } else {
      CountFilledUpdate(fragments, k, inst);
    }
  }

  lemma PaddedStoreCount(fragments: seq<Instruction>, inst: Instruction)
    requires |fragments| < inst.fragmentNum + 1
    ensures CountFilled(Resize(fragments, inst.fragmentNum + 1)[inst.fragmentNum := inst])
         == CountFilled(fragments) + (if Filled(inst) then 1 else 0)
  {
    var k: nat := inst.fragmentNum;
    var grown := Resize(fragments, k + 1);
    CountFilledResize(fragments, k + 1);
    assert grown[k] == Blank;
    CountFilledUpdate(grown, k, inst);
  }

  /** Every filled slot after storing holds its own fragment of the template. */
  lemma StoreSlots(s: Assembly, inst: Instruction)
    requires WellFormed(s) && Matches(inst, s.template)
    ensures var k := inst.fragmentNum;
      var grown := if |s.fragments| < k + 1 then Resize(s.fragments, k + 1) else s.fragments;
      var stored := grown[k := inst];
      forall i :: 0 <= i < |stored| && Filled(stored[i]) ==>
        stored[i].fragmentNum == i && Matches(stored[i], s.template)
  {
    var k: nat := inst.fragmentNum;
    var grown := if |s.fragments| < k + 1 then Resize(s.fragments, k + 1) else s.fragments;
    var stored := grown[k := inst];
    forall i | 0 <= i < |stored| && Filled(stored[i])
      ensures stored[i].fragmentNum == i && Matches(stored[i], s.template)
    {
      if i != k {
        assert stored[i] == grown[i];
        assert i < |s.fragments| && grown[i] == s.fragments[i];
      }
    }
  }

  lemma FinishWellFormed(s: Assembly, inst: Instruction)
    requires WellFormed(s)
    requires s.template.Some? && inst.fragmentNum < |s.fragments| + 1
    ensures WellFormed(Finish(s, inst).next)
  {
    if inst.final {
      CountFilledResize(s.fragments, inst.fragmentNum + 1);
    }
  }

  /** The new state of a get_assembly call and what it returns. */
  datatype Retrieved = Retrieved(next: Assembly, outcome: Result<Instruction, AssemblyError>)

  /** The diffs of a run of slots, concatenated in index order. */
  function Concat(slots: seq<Instruction>): (d: seq<byte>)
  {
    if slots == [] then [] else Concat(slots[..|slots| - 1]) + slots[|slots| - 1].diff
  }

  lemma {:induction false} ConcatAppend(a: seq<Instruction>, b: seq<Instruction>)
    ensures Concat(a + b) == Concat(a) + Concat(b)
  {
    if b != [] {
      assert (a + b)[..|a + b| - 1] == a + b[..|b| - 1];
      assert (a + b)[|a + b| - 1] == b[|b| - 1];
      ConcatAppend(a, b[..|b| - 1]);
    } else {
      assert a + b == a;
    }
  }

  /** The concatenation is as long as the slots' diffs together, each in its own place. */
  lemma {:induction false} ConcatSlot(slots: seq<Instruction>, i: nat)
    requires i < |slots|
    ensures |Concat(slots[..i])| + |slots[i].diff| == |Concat(slots[..i + 1])| <= |Concat(slots)|
    ensures Concat(slots)[|Concat(slots[..i])|..|Concat(slots[..i + 1])|] == slots[i].diff
  {
    assert slots == slots[..i + 1] + slots[i + 1..];
    ConcatAppend(slots[..i + 1], slots[i + 1..]);
    assert slots[..i + 1][..i] == slots[..i];
  }

  /**
   * FragmentAssembly::get_assembly.  Unless the counter equals the total it
   * is refused and nothing changes.  Otherwise the result is the current
   * template (with that fragment's number and final flag) carrying the diffs
   * of slots 0 .. total-1 in index order; the store is emptied, the counter
   * cleared and the total unknown again, while the template stays, so a
   * second retrieval is refused.
   */
  function Retrieve(s: Assembly): (r: Retrieved)
    requires WellFormed(s)
    ensures r.outcome.Failure? <==> s.arrived != s.total
    ensures r.outcome.Failure? ==> r == Retrieved(s, Failure(IncompleteAssembly))
    ensures r.outcome.Success? ==>
      && s.template.Some? && 1 <= s.total <= |s.fragments|
      && r.next == Assembly([], s.template, 0, Unknown)
      && SameTemplate(r.outcome.value, s.template.value)
      && r.outcome.value.fragmentNum == s.template.value.fragmentNum
      && r.outcome.value.final == s.template.value.final
      && r.outcome.value.diff == Concat(s.fragments[..s.total])
    ensures WellFormed(r.next)
    ensures r.outcome.Success? ==> r.next.arrived != r.next.total
  {
    if s.arrived != s.total then Retrieved(s, Failure(IncompleteAssembly))
    else
      var next := Assembly([], s.template, 0, Unknown);
      Retrieved(next, Success(s.template.value.(diff := Concat(s.fragments[..s.total]))))
  }

  /**
   * A FragmentAssembly object.  Its methods update the four fields in place
   * and promise the results of `AddStep` and `Retrieve`.
   */
  class FragmentAssembly {
    var fragments: seq<Instruction>
    var currentTemplate: Option<Instruction>
    var fragmentsArrived: int
    var fragmentsTotal: int

    function State(): Assembly
      reads this
    {
      Assembly(fragments, currentTemplate, fragmentsArrived, fragmentsTotal)
    }

    ghost predicate Valid()
      reads this
    {
      WellFormed(State())
    }

    constructor ()
      ensures Valid() && State() == Initial
    {
      fragments := [];
      currentTemplate := None;
      fragmentsArrived := 0;
      fragmentsTotal := Unknown;
    }

    method AddFragment(inst: Instruction) returns (r: Result<bool, AssemblyError>)
      requires Valid()
      modifies this
      ensures Valid()
      ensures Added(State(), r) == AddStep(old(State()), inst)
    {
      ghost var s := State();
      var k: nat := inst.fragmentNum;
      if !Matches(inst, currentTemplate) {
        fragments := [];
        currentTemplate := Some(inst);
        fragments := Resize(fragments, k + 1);
        fragments := fragments[k := inst];
        fragmentsArrived := 1;
        fragmentsTotal := Unknown;
        assert State() == Assembly(Resize([], k + 1)[k := inst], Some(inst), 1, Unknown);
        RestartWellFormed(inst);
      } else if k < |fragments| && Filled(fragments[k]) {
        if !Equivalent(fragments[k], inst) {
          return Failure(DuplicateMismatch);
        }
      } else {
        if |fragments| < k + 1 {
          fragments := Resize(fragments, k + 1);
        }
        fragments := fragments[k := inst];
        fragmentsArrived := fragmentsArrived + 1;
        assert State() == Stored(s, inst);
        StoreWellFormed(s, inst);
      }
      ghost var m := State();
      assert AddStep(s, inst) == Finish(m, inst);
      r := FinishFragment(inst);
    }

    /**
     * The end of add_fragment: the final flag fixes the total, then the count
     * check and the completion test.  Called once a template is set and the
     * store covers the fragment's index, it keeps the invariant.
     */
    method FinishFragment(inst: Instruction) returns (r: Result<bool, AssemblyError>)
      requires Valid() && currentTemplate.Some? && inst.fragmentNum < |fragments| + 1
      modifies this
      ensures Valid()
      ensures Added(State(), r) == Finish(old(State()), inst)
    {
      FinishWellFormed(State(), inst);
      if inst.final {
        fragmentsTotal := inst.fragmentNum + 1;
        fragments := Resize(fragments, fragmentsTotal);
      }

      if fragmentsTotal != Unknown && !(fragmentsArrived <= fragmentsTotal) {
        return Failure(FragmentCountExceeded);
      }

      r := Success(fragmentsArrived == fragmentsTotal);
    }

    method GetAssembly() returns (r: Result<Instruction, AssemblyError>)
      requires Valid()
      modifies this
      ensures Valid()
      ensures Retrieved(State(), r) == Retrieve(old(State()))
    {
      if fragmentsArrived != fragmentsTotal {
        return Failure(IncompleteAssembly);
      }

      var ret := currentTemplate.value;
      ret := ret.(diff := []);

      var i := 0;
      while i < fragmentsTotal
        invariant 0 <= i <= fragmentsTotal
        invariant ret == currentTemplate.value.(diff := Concat(fragments[..i]))
      {
        assert fragments[..i + 1][..i] == fragments[..i];
        ret := ret.(diff := ret.diff + fragments[i].diff);
        i := i + 1;
      }

      fragments := [];
      fragmentsArrived := 0;
      fragmentsTotal := Unknown;
      r := Success(ret);
    }
  }
}
