/**
 * The genetically tuned controller: how a 39-gene chromosome is cut into
 * eleven breakpoint lists, the fixed nine-rule table, and the fitness that
 * folds the inference results over the five benchmark inputs.
 */
module Genetic {
  import opened Wrappers
  import opened Fuzzy
  import opened Sorting

  const ChromosomeLength: nat := 39

  /** Where one membership function's breakpoints sit in the chromosome: genes `start` up to `end`. */
  datatype Slot = Slot(term: Term, shape: Shape, start: nat, end: nat)

  /** The eleven slices cut by `initialize_membership_functions`, in the order it assigns them. */
  const Layout: seq<Slot> := [
    Slot(Term(Angle, Left), Trapezoid, 0, 4),
    Slot(Term(Angle, Center), Triangle, 4, 7),
    Slot(Term(Angle, Right), Trapezoid, 7, 11),
    Slot(Term(AngularVelocity, Left), Trapezoid, 11, 15),
    Slot(Term(AngularVelocity, Zero), Triangle, 15, 18),
    Slot(Term(AngularVelocity, Right), Trapezoid, 18, 22),
    Slot(Term(Force, StrongLeft), Trapezoid, 22, 26),
    Slot(Term(Force, LightLeft), Triangle, 26, 29),
    Slot(Term(Force, Neutral), Triangle, 29, 32),
    Slot(Term(Force, LightRight), Triangle, 32, 35),
    Slot(Term(Force, StrongRight), Trapezoid, 35, 39)
  ]

  /** The three variables as declared, before any label is assigned. */
  const DeclaredVariables: seq<Variable> := [
    Variable(Angle, -90, 90, map[]),
    Variable(AngularVelocity, -100, 100, map[]),
    Variable(Force, -100, 100, map[])
  ]

  /**
   * Each slot starts where the previous one ended (the first at gene 0) and is
   * exactly as long as its shape's breakpoint list.
   */
  ghost predicate Contiguous(slots: seq<Slot>)
  {
    && (|slots| > 0 ==> slots[0].start == 0)
    && (forall k :: 0 < k < |slots| ==> slots[k].start == slots[k - 1].end)
    && (forall k :: 0 <= k < |slots| ==> slots[k].end == slots[k].start + Arity(slots[k].shape))
  }

  ghost predicate InSlot(s: Slot, i: int)
  {
    s.start <= i < s.end
  }

  ghost predicate Covered(slots: seq<Slot>, i: int)
  {
    exists k :: 0 <= k < |slots| && InSlot(slots[k], i)
  }

  /** Later slots lie entirely after earlier ones. */
  lemma {:induction false} SlotsOrdered(slots: seq<Slot>, k: nat, k': nat)
    requires Contiguous(slots) && k < k' < |slots|
    ensures slots[k].end <= slots[k'].start
    decreases k' - k
  {
    if k + 1 < k' {
      SlotsOrdered(slots, k + 1, k');
    }
  }

  /** Every gene below the last slot's end is in exactly one slot: no gap, no overlap. */
  lemma {:induction false} CoveredExactlyOnce(slots: seq<Slot>, i: int)
    requires Contiguous(slots) && slots != []
    requires 0 <= i < slots[|slots| - 1].end
    ensures Covered(slots, i)
    ensures forall k, k' :: 0 <= k < |slots| && 0 <= k' < |slots| && InSlot(slots[k], i) && InSlot(slots[k'], i) ==> k == k'
  {
    var n := |slots|;
    if i < slots[n - 1].start {
      CoveredExactlyOnce(slots[..n - 1], i);
      var k :| 0 <= k < n - 1 && InSlot(slots[..n - 1][k], i);
      assert InSlot(slots[k], i);
    } else {
      assert InSlot(slots[n - 1], i);
    }
    forall k, k' | 0 <= k < k' < n && InSlot(slots[k], i)
      ensures !InSlot(slots[k'], i)
    {
      SlotsOrdered(slots, k, k');
    }
  }

  /** The terms the slots write, in slot order. */
  function SlotTerms(slots: seq<Slot>): seq<Term>
  {
    seq(|slots|, k requires 0 <= k < |slots| => slots[k].term)
  }

  /** No two slots write the same `variable[label]`. */
  ghost predicate DistinctTerms(slots: seq<Slot>)
  {
    forall k, k' :: 0 <= k < k' < |slots| ==> slots[k].term != slots[k'].term
  }

  /** Gene `i` lies in one slot and in no other. */
  ghost predicate CoveredOnce(slots: seq<Slot>, i: int)
  {
    && Covered(slots, i)
    && forall k, k' :: 0 <= k < |slots| && 0 <= k' < |slots| && InSlot(slots[k], i) && InSlot(slots[k'], i) ==> k == k'
  }

  /** The layout's slice lengths are 4,3,4 | 4,3,4 | 4,3,3,3,4, end to end, one per label. */
  lemma LayoutShape()
    ensures |Layout| == 11 && Contiguous(Layout) && DistinctTerms(Layout)
    ensures Layout[|Layout| - 1].end == ChromosomeLength
  {
    LayoutContiguous();
    LayoutDistinct();
  }

  lemma LayoutContiguous()
    ensures Contiguous(Layout)
  {
  }

  lemma LayoutDistinct()
    ensures DistinctTerms(Layout)
  {
  }

  /** Contiguous slots partition the genes below the last slot's end. */
  lemma ContiguousPartitions(slots: seq<Slot>)
    requires Contiguous(slots) && slots != []
    ensures forall i :: 0 <= i < slots[|slots| - 1].end ==> CoveredOnce(slots, i)
  {
    forall i | 0 <= i < slots[|slots| - 1].end ensures CoveredOnce(slots, i) {
      CoveredExactlyOnce(slots, i);
    }
  }

  /** The layout covers each of the 39 genes exactly once: no gap, no overlap. */
  lemma LayoutPartitionsChromosome()
    ensures |Layout| == 11 && Layout[|Layout| - 1].end == ChromosomeLength
    ensures forall i :: 0 <= i < ChromosomeLength ==> CoveredOnce(Layout, i)
  {
    LayoutShape();
    ContiguousPartitions(Layout);
  }

  /** Every slot lies within the first `n` genes. */
  ghost predicate Fits(slots: seq<Slot>, n: int)
  {
    forall k :: 0 <= k < |slots| ==> slots[k].start <= slots[k].end <= n
  }

  lemma ContiguousFits(slots: seq<Slot>, n: int)
    requires Contiguous(slots) && (slots != [] ==> slots[|slots| - 1].end <= n)
    ensures Fits(slots, n)
  {
    forall k | 0 <= k < |slots| - 1 ensures slots[k].end <= n {
      SlotsOrdered(slots, k, |slots| - 1);
    }
  }

  /** `sorted(chromosome[start:end])`, handed over as the slot's shape. */
  function DecodeSlot(c: seq<real>, s: Slot): (m: MembershipFunction)
    requires s.start <= s.end <= |c|
    ensures m.shape == s.shape && |m.params| == s.end - s.start && NonDecreasing(m.params)
    ensures multiset(m.params) == multiset(c[s.start..s.end])
  {
    MembershipFunction(s.shape, Sort(c[s.start..s.end]))
  }

  /** One decoded membership function per slot, in slot order. */
  function DecodeSlots(c: seq<real>, slots: seq<Slot>): (ms: seq<MembershipFunction>)
    requires Fits(slots, |c|)
    ensures |ms| == |slots|
  {
    seq(|slots|, k requires 0 <= k < |slots| => DecodeSlot(c, slots[k]))
  }

  /**
   * `initialize_membership_functions`: the eleven sorted slices. A chromosome
   * shorter than 39 genes yields a short slice, which `fuzz.trapmf` or
   * `fuzz.trimf` rejects by raising.
   */
  function Decode(c: seq<real>): (r: Option<seq<MembershipFunction>>)
    ensures r.Some? <==> |c| >= ChromosomeLength
    ensures r.Some? ==> |r.value| == |Layout| && forall k :: 0 <= k < |Layout| ==>
      && r.value[k].shape == Layout[k].shape
      && WellFormed(r.value[k])
      && multiset(r.value[k].params) == multiset(c[Layout[k].start..Layout[k].end])
  {
    if |c| < ChromosomeLength then None
    else
      LayoutShape();
      ContiguousFits(Layout, |c|);
      Some(DecodeSlots(c, Layout))
  }

  /** The breakpoint lists laid end to end. */
  function Flatten(ms: seq<MembershipFunction>): seq<real>
  {
    if ms == [] then [] else Flatten(ms[..|ms| - 1]) + ms[|ms| - 1].params
  }

  /** Genes laid end to end from in-range lists are in range. */
  lemma {:induction false} FlattenWithin(ms: seq<MembershipFunction>, lo: int, hi: int)
    requires forall k :: 0 <= k < |ms| ==> Within(ms[k].params, lo, hi)
    ensures Within(Flatten(ms), lo, hi)
  {
    if ms != [] {
      var front, last := Flatten(ms[..|ms| - 1]), ms[|ms| - 1].params;
      assert forall k :: 0 <= k < |ms| - 1 ==> ms[..|ms| - 1][k] == ms[k];
      FlattenWithin(ms[..|ms| - 1], lo, hi);
      forall i | 0 <= i < |front + last| ensures lo as real <= (front + last)[i] <= hi as real {
        if i >= |front| {
          assert (front + last)[i] == last[i - |front|];
        }
      }
    }
  }

  lemma ContiguousPrefix(slots: seq<Slot>)
    requires Contiguous(slots) && slots != []
    ensures Contiguous(slots[..|slots| - 1])
  {
  }

  lemma SliceOfConcat(a: seq<real>, b: seq<real>, lo: int, hi: int)
    requires 0 <= lo <= hi <= |a|
    ensures (a + b)[lo..hi] == a[lo..hi]
  {
  }

  /** Laying lists of the slot lengths end to end puts each list back in its slot. */
  lemma {:induction false} FlattenSlices(ms: seq<MembershipFunction>, slots: seq<Slot>)
    requires Contiguous(slots) && |ms| == |slots|
    requires forall k :: 0 <= k < |slots| ==> |ms[k].params| == slots[k].end - slots[k].start
    ensures |Flatten(ms)| == if slots == [] then 0 else slots[|slots| - 1].end
    ensures forall k :: 0 <= k < |slots| ==>
      slots[k].end <= |Flatten(ms)| && Flatten(ms)[slots[k].start..slots[k].end] == ms[k].params
  {
    if slots != [] {
      var n := |slots|;
      var front := Flatten(ms[..n - 1]);
      ContiguousPrefix(slots);
      FlattenSlices(ms[..n - 1], slots[..n - 1]);
      forall k | 0 <= k < n - 1
        ensures slots[k].end <= |front| && front[slots[k].start..slots[k].end] == ms[k].params
      {
        assert ms[..n - 1][k] == ms[k] && slots[..n - 1][k] == slots[k];
      }
      AppendSlot(front, ms, slots);
    }
  }

  /** Appending the last slot's list after the earlier slots' lists keeps those in place. */
  lemma AppendSlot(front: seq<real>, ms: seq<MembershipFunction>, slots: seq<Slot>)
    requires Contiguous(slots) && |ms| == |slots| > 0
    requires |ms[|ms| - 1].params| == slots[|slots| - 1].end - slots[|slots| - 1].start
    requires |front| == slots[|slots| - 1].start
    requires forall k :: 0 <= k < |slots| - 1 ==>
      slots[k].end <= |front| && front[slots[k].start..slots[k].end] == ms[k].params
    ensures |front + ms[|ms| - 1].params| == slots[|slots| - 1].end
    ensures forall k :: 0 <= k < |slots| ==>
      slots[k].end <= |front + ms[|ms| - 1].params| && (front + ms[|ms| - 1].params)[slots[k].start..slots[k].end] == ms[k].params
  {
    var last := ms[|ms| - 1].params;
    forall k | 0 <= k < |slots| - 1 ensures (front + last)[slots[k].start..slots[k].end] == ms[k].params {
      SliceOfConcat(front, last, slots[k].start, slots[k].end);
    }
    assert (front + last)[|front|..|front| + |last|] == last;
  }

  /** Writes decoded breakpoints back over the first 39 genes, keeping any genes after them. */
  function WriteBack(c: seq<real>, ms: seq<MembershipFunction>): seq<real>
    requires |c| >= ChromosomeLength
  {
    Flatten(ms) + c[ChromosomeLength..]
  }

  /** Over contiguous slots, writing the decoded lists back and decoding again changes nothing. */
  lemma WriteBackSlots(c: seq<real>, slots: seq<Slot>, n: nat)
    requires Contiguous(slots) && slots != [] && n == slots[|slots| - 1].end <= |c|
    ensures Fits(slots, |c|)
    ensures |Flatten(DecodeSlots(c, slots)) + c[n..]| == |c|
    ensures DecodeSlots(Flatten(DecodeSlots(c, slots)) + c[n..], slots) == DecodeSlots(c, slots)
  {
    ContiguousFits(slots, |c|);
    var ms := DecodeSlots(c, slots);
    assert forall k :: 0 <= k < |slots| ==>
      ms[k].shape == slots[k].shape && NonDecreasing(ms[k].params) && |ms[k].params| == slots[k].end - slots[k].start;
    WriteBackSorted(c, ms, slots, n);
  }

  /** Lists that are sorted and fit their slots survive being written back and decoded again. */
  lemma WriteBackSorted(c: seq<real>, ms: seq<MembershipFunction>, slots: seq<Slot>, n: nat)
    requires Contiguous(slots) && slots != [] && n == slots[|slots| - 1].end <= |c| && |ms| == |slots|
    requires forall k :: 0 <= k < |slots| ==>
      ms[k].shape == slots[k].shape && NonDecreasing(ms[k].params) && |ms[k].params| == slots[k].end - slots[k].start
    ensures |Flatten(ms) + c[n..]| == |c|
    ensures Fits(slots, |Flatten(ms) + c[n..]|)
    ensures DecodeSlots(Flatten(ms) + c[n..], slots) == ms
  {
    FlattenSlices(ms, slots);
    var c' := Flatten(ms) + c[n..];
    ContiguousFits(slots, |c'|);
    SlicesOfConcat(Flatten(ms), c[n..], slots, ms);
    RedecodeSlots(c', slots, ms);
  }

  /** Slices inside `a` are unchanged by appending `b`. */
  lemma SlicesOfConcat(a: seq<real>, b: seq<real>, slots: seq<Slot>, ms: seq<MembershipFunction>)
    requires |ms| == |slots|
    requires forall k :: 0 <= k < |slots| ==> slots[k].start <= slots[k].end <= |a| && a[slots[k].start..slots[k].end] == ms[k].params
    ensures forall k :: 0 <= k < |slots| ==> (a + b)[slots[k].start..slots[k].end] == ms[k].params
  {
    forall k | 0 <= k < |slots| ensures (a + b)[slots[k].start..slots[k].end] == ms[k].params {
      SliceOfConcat(a, b, slots[k].start, slots[k].end);
    }
  }

  /** Slots already holding sorted lists of their shape decode to those lists. */
  lemma RedecodeSlots(c: seq<real>, slots: seq<Slot>, ms: seq<MembershipFunction>)
    requires Fits(slots, |c|) && |ms| == |slots|
    requires forall k :: 0 <= k < |slots| ==>
      ms[k].shape == slots[k].shape && NonDecreasing(ms[k].params) && c[slots[k].start..slots[k].end] == ms[k].params
    ensures DecodeSlots(c, slots) == ms
  {
    forall k | 0 <= k < |slots| ensures DecodeSlots(c, slots)[k] == ms[k] {
      SortSorted(ms[k].params);
    }
  }

  /** Writing the decoded breakpoints back into the chromosome and decoding again changes nothing. */
  lemma DecodeWriteBack(c: seq<real>)
    requires |c| >= ChromosomeLength
    ensures Decode(WriteBack(c, Decode(c).value)) == Decode(c)
  {
    LayoutShape();
    WriteBackSlots(c, Layout, ChromosomeLength);
  }

  /** Over any slots, rearranging genes within each slot does not change what is decoded. */
  lemma PermutedSlots(c: seq<real>, c': seq<real>, slots: seq<Slot>)
    requires Fits(slots, |c|) && Fits(slots, |c'|)
    requires forall k :: 0 <= k < |slots| ==>
      multiset(c[slots[k].start..slots[k].end]) == multiset(c'[slots[k].start..slots[k].end])
    ensures DecodeSlots(c, slots) == DecodeSlots(c', slots)
  {
    forall k | 0 <= k < |slots| ensures DecodeSlots(c, slots)[k] == DecodeSlots(c', slots)[k] {
      SortPermutationInvariant(c[slots[k].start..slots[k].end], c'[slots[k].start..slots[k].end]);
    }
  }

  /** Rearranging genes within any of the eleven slices does not change the decode. */
  lemma DecodePermutationInvariant(c: seq<real>, c': seq<real>)
    requires |c| >= ChromosomeLength && |c'| >= ChromosomeLength
    requires forall k :: 0 <= k < |Layout| ==>
      multiset(c[Layout[k].start..Layout[k].end]) == multiset(c'[Layout[k].start..Layout[k].end])
    ensures Decode(c) == Decode(c')
  {
    LayoutShape();
    ContiguousFits(Layout, |c|);
    ContiguousFits(Layout, |c'|);
    PermutedSlots(c, c', Layout);
  }

  /** Applies `variable[label] = m` for each slot in turn. */
  function Install(vars: seq<Variable>, slots: seq<Slot>, ms: seq<MembershipFunction>): (r: seq<Variable>)
    requires |ms| == |slots|
    ensures |r| == |vars|
    ensures forall i :: 0 <= i < |vars| ==> r[i].name == vars[i].name && r[i].lo == vars[i].lo && r[i].hi == vars[i].hi
    decreases |slots|
  {
    if slots == [] then vars else Install(SetTerm(vars, slots[0].term, ms[0]), slots[1..], ms[1..])
  }

  /** Terms no slot writes read as before. */
  lemma {:induction false} InstallKeeps(vars: seq<Variable>, slots: seq<Slot>, ms: seq<MembershipFunction>, u: Term)
    requires |ms| == |slots|
    requires forall k :: 0 <= k < |slots| ==> HasVariable(vars, slots[k].term.variable)
    requires u !in SlotTerms(slots)
    ensures Lookup(Install(vars, slots, ms), u) == Lookup(vars, u)
    decreases |slots|
  {
    if slots != [] {
      var vars' := SetTerm(vars, slots[0].term, ms[0]);
      SetTermLookup(vars, slots[0].term, ms[0], u);
      assert u != SlotTerms(slots)[0];
      forall k | 0 <= k < |slots[1..]| ensures HasVariable(vars', slots[1..][k].term.variable) {
        var i :| 0 <= i < |vars| && vars[i].name == slots[k + 1].term.variable;
        assert vars'[i].name == vars[i].name;
      }
      assert SlotTerms(slots[1..]) == SlotTerms(slots)[1..];
      InstallKeeps(vars', slots[1..], ms[1..], u);
    }
  }

  /** After installing distinct slots over existing variables, each slot's term reads its function. */
  lemma {:induction false} InstallLookup(vars: seq<Variable>, slots: seq<Slot>, ms: seq<MembershipFunction>, k: nat)
    requires |ms| == |slots| && DistinctTerms(slots) && k < |slots|
    requires forall j :: 0 <= j < |slots| ==> HasVariable(vars, slots[j].term.variable)
    ensures Lookup(Install(vars, slots, ms), slots[k].term) == Some(ms[k])
    decreases |slots|
  {
    var vars' := SetTerm(vars, slots[0].term, ms[0]);
    forall j | 0 <= j < |slots[1..]| ensures HasVariable(vars', slots[1..][j].term.variable) {
      var i :| 0 <= i < |vars| && vars[i].name == slots[j + 1].term.variable;
      assert vars'[i].name == vars[i].name;
    }
    if k == 0 {
      assert slots[0].term !in SlotTerms(slots[1..]) by {
        forall j | 0 <= j < |slots[1..]| ensures SlotTerms(slots[1..])[j] != slots[0].term {
          assert slots[1..][j] == slots[j + 1];
        }
      }
      InstallKeeps(vars', slots[1..], ms[1..], slots[0].term);
      SetTermLookup(vars, slots[0].term, ms[0], slots[0].term);
    } else {
      assert DistinctTerms(slots[1..]) by {
        forall a, b | 0 <= a < b < |slots[1..]| ensures slots[1..][a].term != slots[1..][b].term {
          assert slots[1..][a] == slots[a + 1] && slots[1..][b] == slots[b + 1];
        }
      }
      InstallLookup(vars', slots[1..], ms[1..], k - 1);
    }
  }

  /** `angle[a] & angular_velocity[v]`. */
  function Antecedent(a: Label, v: Label): seq<Term>
  {
    [Term(Angle, a), Term(AngularVelocity, v)]
  }

  /** `ctrl.Rule(angle[a] & angular_velocity[v], force[f])`. */
  function R(a: Label, v: Label, f: Label): Rule
  {
    Rule(Antecedent(a, v), Term(Force, f))
  }

  /** The nine rules `evaluate_fis` builds for every chromosome. */
  const RuleTable: seq<Rule> := [
    R(Left, Left, StrongLeft),
    R(Left, Zero, LightLeft),
    R(Left, Right, Neutral),
    R(Center, Left, LightLeft),
    R(Center, Zero, Neutral),
    R(Center, Right, LightRight),
    R(Right, Left, Neutral),
    R(Right, Zero, LightRight),
    R(Right, Right, StrongRight)
  ]

  /** The nine rules the final controller is built with after the search. */
  const FinalRuleTable: seq<Rule> := [
    R(Left, Left, StrongLeft),
    R(Left, Zero, LightLeft),
    R(Left, Right, Neutral),
    R(Center, Left, LightLeft),
    R(Center, Zero, Neutral),
    R(Center, Right, LightRight),
    R(Right, Left, Neutral),
    R(Right, Zero, LightRight),
    R(Right, Right, StrongRight)
  ]

  const AngleLabels: seq<Label> := [Left, Center, Right]
  const VelocityLabels: seq<Label> := [Left, Zero, Right]

  /** The table lists the pairs in reading order: rule `i` is for `(AngleLabels[i / 3], VelocityLabels[i % 3])`. */
  lemma RuleTableOrder()
    ensures |RuleTable| == |AngleLabels| * |VelocityLabels|
    ensures forall i :: 0 <= i < |RuleTable| ==>
      RuleTable[i].antecedent == Antecedent(AngleLabels[i / 3], VelocityLabels[i % 3])
  {
  }

  /** No two of the nine rules share an (angle, angular_velocity) pair. */
  lemma RuleTableDistinct()
    ensures DistinctAntecedents(RuleTable)
  {
    RuleTableOrder();
    forall i, j | 0 <= i < j < |RuleTable| ensures RuleTable[i].antecedent != RuleTable[j].antecedent {
      if i / 3 != j / 3 {
        assert RuleTable[i].antecedent[0] != RuleTable[j].antecedent[0];
      } else {
        assert RuleTable[i].antecedent[1] != RuleTable[j].antecedent[1];
      }
    }
  }

  /** Exactly one rule for each of the nine (angle, angular_velocity) label pairs. */
  lemma RuleTableComplete()
    ensures |RuleTable| == |AngleLabels| * |VelocityLabels| && DistinctAntecedents(RuleTable)
    ensures forall a, v :: 0 <= a < |AngleLabels| && 0 <= v < |VelocityLabels| ==>
      Consequent(RuleTable, Antecedent(AngleLabels[a], VelocityLabels[v])).Some?
  {
    RuleTableOrder();
    RuleTableDistinct();
    forall a, v | 0 <= a < |AngleLabels| && 0 <= v < |VelocityLabels|
      ensures Consequent(RuleTable, Antecedent(AngleLabels[a], VelocityLabels[v])).Some?
    {
      var i := 3 * a + v;
      assert i / 3 == a && i % 3 == v;
      ConsequentOfRule(RuleTable, i);
    }
  }

  /**
   * Swapping left and right in both antecedents swaps strong_left/strong_right
   * and light_left/light_right in the consequent and keeps neutral.
   */
  lemma RuleTableMirrorSymmetric()
    ensures forall i :: 0 <= i < |RuleTable| ==>
      Consequent(RuleTable, MirrorTerms(RuleTable[i].antecedent)) == Some(MirrorTerm(RuleTable[i].consequent))
  {
    RuleTableDistinct();
    forall i | 0 <= i < |RuleTable|
      ensures Consequent(RuleTable, MirrorTerms(RuleTable[i].antecedent)) == Some(MirrorTerm(RuleTable[i].consequent))
    {
      RuleMirror(i);
      ConsequentOfRule(RuleTable, |RuleTable| - 1 - i);
    }
  }

  /** The mirror image of rule `i` is rule `8 - i`. */
  lemma RuleMirror(i: nat)
    requires i < |RuleTable|
    ensures MirrorTerms(RuleTable[i].antecedent) == RuleTable[|RuleTable| - 1 - i].antecedent
    ensures MirrorTerm(RuleTable[i].consequent) == RuleTable[|RuleTable| - 1 - i].consequent
  {
  }

  /** The controller the fitness evaluates for the decoded breakpoints `ms`. */
  function GeneticSystem(ms: seq<MembershipFunction>): ControlSystem
    requires |ms| == |Layout|
  {
    ControlSystem(Install(DeclaredVariables, Layout, ms), RuleTable)
  }

  /** Rules that only mention installed terms refer to defined labels only. */
  lemma InstalledRulesDefined(vars: seq<Variable>, slots: seq<Slot>, ms: seq<MembershipFunction>, rules: seq<Rule>)
    requires |ms| == |slots| && DistinctTerms(slots)
    requires forall k :: 0 <= k < |slots| ==> HasVariable(vars, slots[k].term.variable)
    requires RulesOver(rules, SlotTerms(slots))
    ensures RulesDefined(ControlSystem(Install(vars, slots, ms), rules))
  {
    var installed := Install(vars, slots, ms);
    forall k | 0 <= k < |slots| ensures Defined(installed, SlotTerms(slots)[k]) {
      InstallLookup(vars, slots, ms, k);
    }
    RulesOverDefined(ControlSystem(installed, rules), SlotTerms(slots));
  }

  /** Each slot writes into one of the three declared variables. */
  lemma LayoutVariablesDeclared()
    ensures forall k :: 0 <= k < |Layout| ==> HasVariable(DeclaredVariables, Layout[k].term.variable)
  {
    assert DeclaredVariables[0].name == Angle;
    assert DeclaredVariables[1].name == AngularVelocity;
    assert DeclaredVariables[2].name == Force;
  }

  /** The nine rules only mention labels the decode assigns. */
  lemma RuleTableOverLayout()
    ensures RulesOver(RuleTable, SlotTerms(Layout))
  {
    var terms := SlotTerms(Layout);
    assert terms[0] == Term(Angle, Left) && terms[1] == Term(Angle, Center) && terms[2] == Term(Angle, Right);
    assert terms[3] == Term(AngularVelocity, Left) && terms[4] == Term(AngularVelocity, Zero);
    assert terms[5] == Term(AngularVelocity, Right);
    assert terms[6] == Term(Force, StrongLeft) && terms[7] == Term(Force, LightLeft) && terms[8] == Term(Force, Neutral);
    assert terms[9] == Term(Force, LightRight) && terms[10] == Term(Force, StrongRight);
  }

  /** Every label the nine rules mention is defined, and holds the breakpoints decoded for it. */
  lemma GeneticSystemDefined(ms: seq<MembershipFunction>)
    requires |ms| == |Layout|
    ensures RulesDefined(GeneticSystem(ms))
    ensures forall k :: 0 <= k < |Layout| ==> Lookup(GeneticSystem(ms).variables, Layout[k].term) == Some(ms[k])
  {
    LayoutShape();
    LayoutVariablesDeclared();
    forall k | 0 <= k < |Layout| ensures Lookup(GeneticSystem(ms).variables, Layout[k].term) == Some(ms[k]) {
      InstallLookup(DeclaredVariables, Layout, ms, k);
    }
    RuleTableOverLayout();
    InstalledRulesDefined(DeclaredVariables, Layout, ms, RuleTable);
  }

  /** The five (angle, angular_velocity) benchmark inputs, in order. */
  const TestCases: seq<(int, int)> := [(-30, 20), (45, -10), (0, 0), (15, 5), (-45, -30)]

  /**
   * The inference engine, left abstract: the crisp force a control system
   * computes for an (angle, angular_velocity) input, or None when computing
   * raises or produces no `force` output.
   */
  type Inference = (ControlSystem, int, int) -> Option<real>

  /** The fitness of one chromosome: lower is better, `Infinite` marks a failed evaluation. */
  datatype Fitness = Finite(total: real) | Infinite

  /** What `evaluate_fis` does: raise (the decode rejects the chromosome) or return a fitness. */
  datatype Evaluation = Raised | Evaluated(fitness: Fitness)

  function Abs(x: real): (r: real)
    ensures r >= 0.0 && (r == x || r == -x)
  {
    if x < 0.0 then -x else x
  }

  /** Python's `sum`, adding from the left. */
  function Sum(xs: seq<real>): real
  {
    if xs == [] then 0.0 else Sum(xs[..|xs| - 1]) + xs[|xs| - 1]
  }

  lemma {:induction false} SumNonNegative(xs: seq<real>)
    requires forall i :: 0 <= i < |xs| ==> xs[i] >= 0.0
    ensures Sum(xs) >= 0.0
  {
    if xs != [] {
      SumNonNegative(xs[..|xs| - 1]);
    }
  }

  /** One inference call on one benchmark input. */
  function Run(sys: ControlSystem, compute: Inference, input: (int, int)): Option<real>
  {
    compute(sys, input.0, input.1)
  }

  /** The `errors` list built over `cases`, or None as soon as one case fails. */
  function CaseErrors(sys: ControlSystem, compute: Inference, cases: seq<(int, int)>): (r: Option<seq<real>>)
    ensures r.Some? <==> forall i :: 0 <= i < |cases| ==> Run(sys, compute, cases[i]).Some?
    ensures r.Some? ==> |r.value| == |cases|
    ensures r.Some? ==> forall i :: 0 <= i < |cases| ==> r.value[i] == Abs(Run(sys, compute, cases[i]).value)
    decreases |cases|
  {
    if cases == [] then Some([])
    else
      var front := cases[..|cases| - 1];
      assert forall i :: 0 <= i < |front| ==> front[i] == cases[i];
      match CaseErrors(sys, compute, front)
      case None => None
      case Some(errors) =>
        match Run(sys, compute, cases[|cases| - 1])
        case None => None
        case Some(y) => Some(errors + [Abs(y)])
  }

  /** The benchmark fold of `evaluate_fis` once the control system is built. */
  function Benchmark(sys: ControlSystem, compute: Inference): Fitness
  {
    match CaseErrors(sys, compute, TestCases)
    case None => Infinite
    case Some(errors) => Finite(Sum(errors))
  }

  /** `evaluate_fis` as a value: decode, build the control system, fold the benchmark. */
  function FitnessOf(c: seq<real>, constructs: ControlSystem -> bool, compute: Inference): Evaluation
  {
    match Decode(c)
    case None => Raised
    case Some(ms) =>
      var sys := GeneticSystem(ms);
      if !constructs(sys) then Evaluated(Infinite) else Evaluated(Benchmark(sys, compute))
  }

  /** The control system the fitness evaluates for a full-length chromosome. */
  function SystemOf(c: seq<real>): ControlSystem
    requires |c| >= ChromosomeLength
  {
    GeneticSystem(Decode(c).value)
  }

  /** The `|force|` of each benchmark case, in order (0 for a case without output). */
  function Magnitudes(sys: ControlSystem, compute: Inference): (r: seq<real>)
    ensures |r| == |TestCases|
  {
    seq(|TestCases|, i requires 0 <= i < |TestCases| =>
      match Run(sys, compute, TestCases[i])
      case Some(y) => Abs(y)
      case None => 0.0)
  }

  /**
   * The benchmark gives infinity exactly when some case fails; otherwise the
   * sum of `|force|` over the five cases in order, which is never negative.
   */
  lemma BenchmarkCases(sys: ControlSystem, compute: Inference)
    ensures Benchmark(sys, compute).Infinite? <==> exists i :: 0 <= i < |TestCases| && Run(sys, compute, TestCases[i]).None?
    ensures Benchmark(sys, compute).Finite? ==>
      Benchmark(sys, compute).total == Sum(Magnitudes(sys, compute)) && Benchmark(sys, compute).total >= 0.0
  {
    var r := CaseErrors(sys, compute, TestCases);
    if r.Some? {
      assert r.value == Magnitudes(sys, compute);
      SumNonNegative(r.value);
    }
  }

  /**
   * A full chromosome always gets a fitness: infinite exactly when the control
   * system cannot be built or some benchmark case fails, otherwise the
   * non-negative sum of `|force|` over the five cases.
   */
  lemma FitnessOfFullChromosome(c: seq<real>, constructs: ControlSystem -> bool, compute: Inference)
    requires |c| >= ChromosomeLength
    ensures FitnessOf(c, constructs, compute).Evaluated?
    ensures FitnessOf(c, constructs, compute).fitness.Infinite? <==>
      !constructs(SystemOf(c)) || exists i :: 0 <= i < |TestCases| && Run(SystemOf(c), compute, TestCases[i]).None?
    ensures FitnessOf(c, constructs, compute).fitness.Finite? ==>
      FitnessOf(c, constructs, compute).fitness.total == Sum(Magnitudes(SystemOf(c), compute)) >= 0.0
  {
    var sys := SystemOf(c);
    assert FitnessOf(c, constructs, compute) ==
      if !constructs(sys) then Evaluated(Infinite) else Evaluated(Benchmark(sys, compute));
    BenchmarkCases(sys, compute);
  }

  /** A chromosome shorter than 39 genes makes `evaluate_fis` raise rather than score it. */
  lemma FitnessRaisesOnShortChromosome(c: seq<real>, constructs: ControlSystem -> bool, compute: Inference)
    ensures FitnessOf(c, constructs, compute).Raised? <==> |c| < ChromosomeLength
  {
  }

  /** Chromosomes whose slices hold the same genes, in any order, get the same fitness. */
  lemma FitnessPermutationInvariant(c: seq<real>, c': seq<real>, constructs: ControlSystem -> bool, compute: Inference)
    requires |c| >= ChromosomeLength && |c'| >= ChromosomeLength
    requires forall k :: 0 <= k < |Layout| ==>
      multiset(c[Layout[k].start..Layout[k].end]) == multiset(c'[Layout[k].start..Layout[k].end])
    ensures FitnessOf(c, constructs, compute) == FitnessOf(c', constructs, compute)
  {
    DecodePermutationInvariant(c, c');
  }

  /**
   * The benchmark loop of `evaluate_fis`: runs the cases in order, appending
   * `|force|` to `errors`, and returns infinity at the first failing case.
   * `evaluated` is how many cases were handed to the inference engine.
   */
  method RunBenchmark(sys: ControlSystem, compute: Inference) returns (fitness: Fitness, evaluated: nat)
    ensures fitness == Benchmark(sys, compute)
    ensures 0 < evaluated <= |TestCases|
    ensures forall j :: 0 <= j < evaluated - 1 ==> Run(sys, compute, TestCases[j]).Some?
    ensures fitness.Infinite? <==> Run(sys, compute, TestCases[evaluated - 1]).None?
    ensures evaluated < |TestCases| ==> fitness.Infinite?
  {
    var errors: seq<real> := [];
    var i := 0;
    while i < |TestCases|
      invariant 0 <= i <= |TestCases|
      invariant CaseErrors(sys, compute, TestCases[..i]) == Some(errors)
      invariant forall j :: 0 <= j < i ==> Run(sys, compute, TestCases[j]).Some?
    {
      var (angle, angularVelocity) := TestCases[i];
      var output := compute(sys, angle, angularVelocity);
      if output.None? {
        assert Run(sys, compute, TestCases[i]).None?;
        return Infinite, i + 1;
      }
      assert TestCases[..i + 1][..i] == TestCases[..i];
      errors := errors + [Abs(output.value)];
      i := i + 1;
    }
    assert TestCases[..i] == TestCases;
    return Finite(Sum(errors)), |TestCases|;
  }

  /**
   * `evaluate_fis`: decodes the chromosome, builds the control system
   * (infinity if that fails) and runs the benchmark. `evaluated` is how many
   * benchmark cases reached the inference engine.
   */
  method EvaluateFis(chromosome: seq<real>, constructs: ControlSystem -> bool, compute: Inference)
    returns (result: Evaluation, evaluated: nat)
    ensures result == FitnessOf(chromosome, constructs, compute)
    ensures evaluated <= |TestCases|
    ensures evaluated == 0 <==> |chromosome| < ChromosomeLength || !constructs(SystemOf(chromosome))
    ensures evaluated > 0 ==>
      && (forall j :: 0 <= j < evaluated - 1 ==> Run(SystemOf(chromosome), compute, TestCases[j]).Some?)
      && (result == Evaluated(Infinite) <==> Run(SystemOf(chromosome), compute, TestCases[evaluated - 1]).None?)
      && (evaluated < |TestCases| ==> result == Evaluated(Infinite))
  {
    var decoded := Decode(chromosome);
    if decoded.None? {
      return Raised, 0;
    }
    var sys := GeneticSystem(decoded.value);
    assert sys == SystemOf(chromosome);
    assert FitnessOf(chromosome, constructs, compute) ==
      if !constructs(sys) then Evaluated(Infinite) else Evaluated(Benchmark(sys, compute));
    if !constructs(sys) {
      return Evaluated(Infinite), 0;
    }
    var fitness;
    fitness, evaluated := RunBenchmark(sys, compute);
    result := Evaluated(fitness);
  }

  /** The final controller: the best chromosome decoded, with the final rule table. */
  function FinalController(best: seq<real>): Option<ControlSystem>
  {
    match Decode(best)
    case None => None
    case Some(ms) => Some(ControlSystem(Install(DeclaredVariables, Layout, ms), FinalRuleTable))
  }

  /** The final controller is exactly the system whose fitness the search measured for that chromosome. */
  lemma FinalControllerIsEvaluatedSystem(best: seq<real>)
    requires |best| >= ChromosomeLength
    ensures FinalController(best) == Some(GeneticSystem(Decode(best).value))
  {
  }
}
