/**
 * The hand-tuned controller: five linguistic variables with fixed
 * breakpoints and sixteen rules, nine over angle and angular velocity (the
 * same nine the genetic search uses) and seven over cart position and
 * velocity.
 */
module HandTuned {
  import opened Wrappers
  import opened Fuzzy
  import opened Genetic

  /** `fuzz.trapmf(universe, [a, b, c, d])`. */
  function Trap(a: real, b: real, c: real, d: real): MembershipFunction
  {
    MembershipFunction(Trapezoid, [a, b, c, d])
  }

  /** `fuzz.trimf(universe, [a, b, c])`. */
  function Tri(a: real, b: real, c: real): MembershipFunction
  {
    MembershipFunction(Triangle, [a, b, c])
  }

  const AngleVariable: Variable := Variable(Angle, -90, 90, map[
    Left := Trap(-90.0, -90.0, -45.0, 0.0),
    Center := Tri(-45.0, 0.0, 45.0),
    Right := Trap(0.0, 45.0, 90.0, 90.0)])

  const AngularVelocityVariable: Variable := Variable(AngularVelocity, -100, 100, map[
    Left := Trap(-100.0, -100.0, -50.0, 0.0),
    Zero := Tri(-50.0, 0.0, 50.0),
    Right := Trap(0.0, 50.0, 100.0, 100.0)])

  const PositionVariable: Variable := Variable(Position, -10, 10, map[
    Left := Trap(-10.0, -10.0, -5.0, 0.0),
    Center := Tri(-5.0, 0.0, 5.0),
    Right := Trap(0.0, 5.0, 10.0, 10.0)])

  const VelocityVariable: Variable := Variable(Velocity, -5, 5, map[
    Left := Trap(-5.0, -5.0, -2.0, 0.0),
    Zero := Tri(-2.0, 0.0, 2.0),
    Right := Trap(0.0, 2.0, 5.0, 5.0)])

  const ForceVariable: Variable := Variable(Force, -100, 100, map[
    StrongLeft := Trap(-100.0, -100.0, -50.0, -25.0),
    LightLeft := Tri(-50.0, -25.0, 0.0),
    Neutral := Tri(-25.0, 0.0, 25.0),
    LightRight := Tri(0.0, 25.0, 50.0),
    StrongRight := Trap(25.0, 50.0, 100.0, 100.0)])

  const Variables: seq<Variable> :=
    [AngleVariable, AngularVelocityVariable, PositionVariable, VelocityVariable, ForceVariable]

  /** `position[p] & velocity[v]`. */
  function BalanceAntecedent(p: Label, v: Label): seq<Term>
  {
    [Term(Position, p), Term(Velocity, v)]
  }

  /** `ctrl.Rule(position[p] & velocity[v], force[f])`. */
  function B(p: Label, v: Label, f: Label): Rule
  {
    Rule(BalanceAntecedent(p, v), Term(Force, f))
  }

  /** The sixteen rules, in the order the controller lists them. */
  const Rules: seq<Rule> := [
    R(Left, Left, StrongLeft),
    R(Left, Zero, LightLeft),
    R(Left, Right, Neutral),
    R(Center, Left, LightLeft),
    R(Center, Zero, Neutral),
    R(Center, Right, LightRight),
    R(Right, Left, Neutral),
    R(Right, Zero, LightRight),
    R(Right, Right, StrongRight),
    B(Left, Left, StrongRight),
    B(Left, Zero, LightRight),
    B(Center, Left, LightRight),
    B(Center, Zero, Neutral),
    B(Center, Right, LightLeft),
    B(Right, Zero, LightLeft),
    B(Right, Right, StrongLeft)
  ]

  const System: ControlSystem := ControlSystem(Variables, Rules)

  const PositionLabels: seq<Label> := [Left, Center, Right]

  /**
   * The shape each label gets: trapezoids for the outermost labels, whose
   * plateau runs to the edge of the universe, triangles for the inner ones.
   */
  function OuterShape(l: Label): Shape
  {
    if l in {Left, Right, StrongLeft, StrongRight} then Trapezoid else Triangle
  }

  /** The term under `l`, if any, is a usable breakpoint list of its label's shape, inside the universe. */
  ghost predicate ValidAt(v: Variable, l: Label)
  {
    l in v.terms ==>
      && v.terms[l].shape == OuterShape(l)
      && WellFormed(v.terms[l])
      && Within(v.terms[l].params, v.lo, v.hi)
  }

  /** The term under `l`, if any, has the reflected breakpoints under the mirror label. */
  ghost predicate MirroredAt(v: Variable, l: Label)
  {
    l in v.terms ==>
      && MirrorLabel(l) in v.terms
      && v.terms[MirrorLabel(l)] == MembershipFunction(v.terms[l].shape, Reflect(v.terms[l].params))
  }

  /** Every term is a usable breakpoint list of its label's shape, inside the variable's universe. */
  ghost predicate TermsValid(v: Variable)
  {
    forall l :: ValidAt(v, l)
  }

  /**
   * The universe is symmetric about 0 and so are the terms: the mirror label
   * of each label is defined and carries the reflected breakpoints.
   */
  ghost predicate MirrorSymmetric(v: Variable)
  {
    v.lo == -v.hi && forall l :: MirroredAt(v, l)
  }

  /** An ordered trapezoid inside the universe, with its mirror image under the mirror label. */
  lemma TrapezoidTerm(v: Variable, l: Label, a: real, b: real, c: real, d: real)
    requires OuterShape(l) == Trapezoid && l in v.terms && v.terms[l] == Trap(a, b, c, d)
    requires v.lo as real <= a <= b <= c <= d <= v.hi as real
    requires MirrorLabel(l) in v.terms && v.terms[MirrorLabel(l)] == Trap(-d, -c, -b, -a)
    ensures ValidAt(v, l) && MirroredAt(v, l)
  {
    assert |Reflect([a, b, c, d])| == 4;
  }

  /** An ordered triangle inside the universe, with its mirror image under the mirror label. */
  lemma TriangleTerm(v: Variable, l: Label, a: real, b: real, c: real)
    requires OuterShape(l) == Triangle && l in v.terms && v.terms[l] == Tri(a, b, c)
    requires v.lo as real <= a <= b <= c <= v.hi as real
    requires MirrorLabel(l) in v.terms && v.terms[MirrorLabel(l)] == Tri(-c, -b, -a)
    ensures ValidAt(v, l) && MirroredAt(v, l)
  {
    assert |Reflect([a, b, c])| == 3;
  }

  /** A label and its mirror get the same shape. */
  lemma OuterShapeMirror(l: Label)
    ensures OuterShape(MirrorLabel(l)) == OuterShape(l)
  {
    match l
    case Left => case Right => case StrongLeft => case StrongRight =>
    case LightLeft => case LightRight =>
    case Center => case Zero => case Neutral =>
  }

  /**
   * On a universe symmetric about 0, a valid term whose mirror label holds its
   * reflection makes the mirror label's term valid and mirrored in turn.
   */
  lemma MirrorTermValid(v: Variable, l: Label)
    requires v.lo == -v.hi && l in v.terms && ValidAt(v, l) && MirroredAt(v, l)
    ensures ValidAt(v, MirrorLabel(l)) && MirroredAt(v, MirrorLabel(l))
  {
    MirrorValid(v, l);
    MirrorMirrored(v, l);
  }

  lemma MirrorValid(v: Variable, l: Label)
    requires v.lo == -v.hi && l in v.terms && ValidAt(v, l) && MirroredAt(v, l)
    ensures ValidAt(v, MirrorLabel(l))
  {
    var m := v.terms[l];
    OuterShapeMirror(l);
    ReflectWellFormed(m);
    ReflectWithin(m.params, v.hi);
  }

  lemma MirrorMirrored(v: Variable, l: Label)
    requires l in v.terms && MirroredAt(v, l)
    ensures MirroredAt(v, MirrorLabel(l))
  {
    var m, ml := v.terms[l], MirrorLabel(l);
    ReflectInvolution(m.params);
    assert MirrorLabel(ml) == l;
  }

  lemma AngleTerm(l: Label)
    ensures ValidAt(AngleVariable, l) && MirroredAt(AngleVariable, l)
  {
    match l
    case Left | Right =>
      TrapezoidTerm(AngleVariable, Left, -90.0, -90.0, -45.0, 0.0);
      MirrorTermValid(AngleVariable, Left);
    case Center => TriangleTerm(AngleVariable, l, -45.0, 0.0, 45.0);
    case _ =>
  }

  lemma AngularVelocityTerm(l: Label)
    ensures ValidAt(AngularVelocityVariable, l) && MirroredAt(AngularVelocityVariable, l)
  {
    match l
    case Left | Right =>
      TrapezoidTerm(AngularVelocityVariable, Left, -100.0, -100.0, -50.0, 0.0);
      MirrorTermValid(AngularVelocityVariable, Left);
    case Zero => TriangleTerm(AngularVelocityVariable, l, -50.0, 0.0, 50.0);
    case _ =>
  }

  lemma PositionTerm(l: Label)
    ensures ValidAt(PositionVariable, l) && MirroredAt(PositionVariable, l)
  {
    match l
    case Left | Right =>
      TrapezoidTerm(PositionVariable, Left, -10.0, -10.0, -5.0, 0.0);
      MirrorTermValid(PositionVariable, Left);
    case Center => TriangleTerm(PositionVariable, l, -5.0, 0.0, 5.0);
    case _ =>
  }

  lemma VelocityTerm(l: Label)
    ensures ValidAt(VelocityVariable, l) && MirroredAt(VelocityVariable, l)
  {
    match l
    case Left | Right =>
      TrapezoidTerm(VelocityVariable, Left, -5.0, -5.0, -2.0, 0.0);
      MirrorTermValid(VelocityVariable, Left);
    case Zero => TriangleTerm(VelocityVariable, l, -2.0, 0.0, 2.0);
    case _ =>
  }

  lemma ForceTerm(l: Label)
    ensures ValidAt(ForceVariable, l) && MirroredAt(ForceVariable, l)
  {
    match l
    case StrongLeft | StrongRight =>
      TrapezoidTerm(ForceVariable, StrongLeft, -100.0, -100.0, -50.0, -25.0);
      MirrorTermValid(ForceVariable, StrongLeft);
    case LightLeft | LightRight =>
      TriangleTerm(ForceVariable, LightLeft, -50.0, -25.0, 0.0);
      MirrorTermValid(ForceVariable, LightLeft);
    case Neutral => TriangleTerm(ForceVariable, l, -25.0, 0.0, 25.0);
    case _ =>
  }

  /**
   * All five variables: every term a usable breakpoint list of its label's
   * shape inside the universe, and each partition the mirror image of itself about 0.
   */
  lemma VariablesValid()
    ensures forall i :: 0 <= i < |Variables| ==> TermsValid(Variables[i]) && MirrorSymmetric(Variables[i])
  {
    forall l ensures ValidAt(AngleVariable, l) && MirroredAt(AngleVariable, l) {
      AngleTerm(l);
    }
    forall l ensures ValidAt(AngularVelocityVariable, l) && MirroredAt(AngularVelocityVariable, l) {
      AngularVelocityTerm(l);
    }
    forall l ensures ValidAt(PositionVariable, l) && MirroredAt(PositionVariable, l) {
      PositionTerm(l);
    }
    forall l ensures ValidAt(VelocityVariable, l) && MirroredAt(VelocityVariable, l) {
      VelocityTerm(l);
    }
    forall l ensures ValidAt(ForceVariable, l) && MirroredAt(ForceVariable, l) {
      ForceTerm(l);
    }
  }

  /** The first nine rules are the nine the genetic search builds its controllers with. */
  lemma AngleRulesShared()
    ensures |Rules| == 16 && Rules[..9] == RuleTable
  {
  }

  /**
   * The rules over cart position and velocity, in order: seven rules, each
   * reading one position label and one velocity label and setting the force.
   */
  function BalanceRules(): (r: seq<Rule>)
    ensures |r| == 7
    ensures forall j :: 0 <= j < |r| ==>
      |r[j].antecedent| == 2 && r[j] == B(r[j].antecedent[0].value, r[j].antecedent[1].value, r[j].consequent.value)
  {
    Rules[9..]
  }

  /** Rule `i` of the first nine reads angle first, the last seven read position first. */
  lemma RuleGroups()
    ensures forall i :: 0 <= i < |Rules| ==> |Rules[i].antecedent| == 2
    ensures forall i :: 0 <= i < 9 ==> Rules[i].antecedent[0].variable == Angle
    ensures forall i :: 9 <= i < |Rules| ==> Rules[i].antecedent[0].variable == Position
  {
  }

  /** No two of the seven position/velocity rules share a label pair. */
  lemma BalanceRulesDistinct()
    ensures DistinctAntecedents(BalanceRules())
  {
  }

  /** No two of the sixteen rules share an antecedent. */
  lemma RulesDistinct()
    ensures DistinctAntecedents(Rules)
  {
    AngleRulesShared();
    RuleTableDistinct();
    BalanceRulesDistinct();
    RuleGroups();
    forall i, j | 0 <= i < j < |Rules| ensures Rules[i].antecedent != Rules[j].antecedent {
      if j < 9 {
        assert Rules[..9][i] == Rules[i] && Rules[..9][j] == Rules[j];
      } else if i < 9 {
        assert Rules[i].antecedent[0] != Rules[j].antecedent[0];
      } else {
        assert BalanceRules()[i - 9] == Rules[i] && BalanceRules()[j - 9] == Rules[j];
      }
    }
  }

  /** Rule `i` mirrored is rule 8 - i among the first nine and rule 24 - i among the last seven. */
  function MirrorIndex(i: nat): nat
    requires i < 16
  {
    if i < 9 then 8 - i else 24 - i
  }

  lemma MirrorBalanceAntecedent(p: Label, v: Label)
    ensures MirrorTerms(BalanceAntecedent(p, v)) == BalanceAntecedent(MirrorLabel(p), MirrorLabel(v))
  {
  }

  lemma BalanceMirror(i: nat)
    requires 9 <= i < |Rules|
    ensures MirrorTerms(Rules[i].antecedent) == Rules[24 - i].antecedent
    ensures MirrorTerm(Rules[i].consequent) == Rules[24 - i].consequent
  {
    match i
    case 9 => MirrorBalanceAntecedent(Left, Left);
    case 10 => MirrorBalanceAntecedent(Left, Zero);
    case 11 => MirrorBalanceAntecedent(Center, Left);
    case 12 => MirrorBalanceAntecedent(Center, Zero);
    case 13 => MirrorBalanceAntecedent(Center, Right);
    case 14 => MirrorBalanceAntecedent(Right, Zero);
    case 15 => MirrorBalanceAntecedent(Right, Right);
  }

  lemma RulesMirror(i: nat)
    requires i < |Rules|
    ensures MirrorIndex(i) < |Rules|
    ensures MirrorTerms(Rules[i].antecedent) == Rules[MirrorIndex(i)].antecedent
    ensures MirrorTerm(Rules[i].consequent) == Rules[MirrorIndex(i)].consequent
  {
    if i < 9 {
      AngleRulesShared();
      RuleMirror(i);
      assert Rules[..9][i] == Rules[i] && Rules[..9][8 - i] == Rules[8 - i];
    } else {
      BalanceMirror(i);
    }
  }

  /**
   * All sixteen rules are left/right symmetric: mirroring a rule's
   * antecedent finds the rule whose consequent is the mirrored force.
   */
  lemma RulesMirrorSymmetric()
    ensures forall i :: 0 <= i < |Rules| ==>
      Consequent(Rules, MirrorTerms(Rules[i].antecedent)) == Some(MirrorTerm(Rules[i].consequent))
  {
    RulesDistinct();
    forall i | 0 <= i < |Rules|
      ensures Consequent(Rules, MirrorTerms(Rules[i].antecedent)) == Some(MirrorTerm(Rules[i].consequent))
    {
      RulesMirror(i);
      ConsequentOfRule(Rules, MirrorIndex(i));
    }
  }

  /**
   * Where the angle rule for the same label pair sits in the nine-rule table:
   * rules 9..15 read (left, left), (left, zero), (center, left), (center, zero),
   * (center, right), (right, zero), (right, right), which are rules 0, 1, 3, 4, 5, 7, 8 there.
   */
  function AngleIndex(i: nat): nat
    requires 9 <= i < 16
  {
    [0, 1, 3, 4, 5, 7, 8][i - 9]
  }

  lemma AngleCounterpart(i: nat)
    requires 9 <= i < |Rules|
    ensures AngleIndex(i) < |RuleTable|
    ensures RuleTable[AngleIndex(i)].antecedent == Antecedent(Rules[i].antecedent[0].value, Rules[i].antecedent[1].value)
    ensures RuleTable[AngleIndex(i)].consequent == MirrorTerm(Rules[i].consequent)
  {
  }

  /**
   * Each position/velocity rule pushes against the angle rule with the same
   * pair of labels: its force label is the mirror of that rule's.
   */
  lemma BalanceOpposesAngle()
    ensures forall i :: 9 <= i < |Rules| ==>
      Consequent(RuleTable, Antecedent(Rules[i].antecedent[0].value, Rules[i].antecedent[1].value))
        == Some(MirrorTerm(Rules[i].consequent))
  {
    RuleTableDistinct();
    forall i | 9 <= i < |Rules|
      ensures Consequent(RuleTable, Antecedent(Rules[i].antecedent[0].value, Rules[i].antecedent[1].value))
        == Some(MirrorTerm(Rules[i].consequent))
    {
      AngleCounterpart(i);
      ConsequentOfRule(RuleTable, AngleIndex(i));
    }
  }

  /** No rule reads position and velocity pointing opposite ways. */
  lemma BalanceGap(p: Label, v: Label)
    requires (p, v) == (Left, Right) || (p, v) == (Right, Left)
    ensures Consequent(Rules, BalanceAntecedent(p, v)).None?
  {
    RuleGroups();
    forall i | 0 <= i < |Rules| ensures Rules[i].antecedent != BalanceAntecedent(p, v) {
      if 9 <= i {
        assert BalanceRules()[i - 9] == Rules[i];
      }
    }
    NoRuleNoConsequent(Rules, BalanceAntecedent(p, v));
  }

  /**
   * The position/velocity rules cover every label pair except the two where
   * position and velocity point opposite ways, (left, right) and (right, left).
   */
  lemma BalanceCoverage()
    ensures forall p, v :: 0 <= p < |PositionLabels| && 0 <= v < |VelocityLabels| ==>
      (Consequent(Rules, BalanceAntecedent(PositionLabels[p], VelocityLabels[v])).Some? <==>
       (PositionLabels[p], VelocityLabels[v]) != (Left, Right) && (PositionLabels[p], VelocityLabels[v]) != (Right, Left))
  {
    forall p, v | 0 <= p < |PositionLabels| && 0 <= v < |VelocityLabels|
      ensures Consequent(Rules, BalanceAntecedent(PositionLabels[p], VelocityLabels[v])).Some? <==>
        (PositionLabels[p], VelocityLabels[v]) != (Left, Right) && (PositionLabels[p], VelocityLabels[v]) != (Right, Left)
    {
      if (p, v) == (0, 2) || (p, v) == (2, 0) {
        BalanceGap(PositionLabels[p], VelocityLabels[v]);
      } else {
        // The balance rule reading (PositionLabels[p], VelocityLabels[v]), listed by 3 * p + v;
        // the two 0s at 2 and 6 stand for the uncovered pairs and are never read.
        var i := 9 + [0, 1, 0, 2, 3, 4, 0, 5, 6][3 * p + v];
        assert Rules[i].antecedent == BalanceAntecedent(PositionLabels[p], VelocityLabels[v]);
        ConsequentFound(Rules, i);
      }
    }
  }

  /** Every `variable[label]` the controller defines, variable by variable. */
  const Terms: seq<Term> := [
    Term(Angle, Left), Term(Angle, Center), Term(Angle, Right),
    Term(AngularVelocity, Left), Term(AngularVelocity, Zero), Term(AngularVelocity, Right),
    Term(Position, Left), Term(Position, Center), Term(Position, Right),
    Term(Velocity, Left), Term(Velocity, Zero), Term(Velocity, Right),
    Term(Force, StrongLeft), Term(Force, LightLeft), Term(Force, Neutral), Term(Force, LightRight), Term(Force, StrongRight)
  ]

  lemma TermsDefined()
    ensures forall k :: 0 <= k < |Terms| ==> Defined(Variables, Terms[k])
  {
    // Terms are listed variable by variable: three each for the first four, five for the force.
    forall k | 0 <= k < 3 ensures Defined(Variables, Terms[k]) {
      LookupAt(Variables, 0, Terms[k]);
    }
    forall k | 3 <= k < 6 ensures Defined(Variables, Terms[k]) {
      LookupAt(Variables, 1, Terms[k]);
    }
    forall k | 6 <= k < 9 ensures Defined(Variables, Terms[k]) {
      LookupAt(Variables, 2, Terms[k]);
    }
    forall k | 9 <= k < 12 ensures Defined(Variables, Terms[k]) {
      LookupAt(Variables, 3, Terms[k]);
    }
    forall k | 12 <= k < |Terms| ensures Defined(Variables, Terms[k]) {
      LookupAt(Variables, 4, Terms[k]);
    }
  }

  lemma AngleRulesOverTerms(i: nat)
    requires i < 9
    ensures RuleOver(Rules[i], Terms)
  {
    assert Terms[0] == Term(Angle, Left) && Terms[1] == Term(Angle, Center) && Terms[2] == Term(Angle, Right);
    assert Terms[3] == Term(AngularVelocity, Left) && Terms[4] == Term(AngularVelocity, Zero);
    assert Terms[5] == Term(AngularVelocity, Right);
    assert Terms[12] == Term(Force, StrongLeft) && Terms[13] == Term(Force, LightLeft) && Terms[14] == Term(Force, Neutral);
    assert Terms[15] == Term(Force, LightRight) && Terms[16] == Term(Force, StrongRight);
  }

  lemma BalanceRulesOverTerms(i: nat)
    requires 9 <= i < |Rules|
    ensures RuleOver(Rules[i], Terms)
  {
    assert Terms[6] == Term(Position, Left) && Terms[7] == Term(Position, Center) && Terms[8] == Term(Position, Right);
    assert Terms[9] == Term(Velocity, Left) && Terms[10] == Term(Velocity, Zero) && Terms[11] == Term(Velocity, Right);
    assert Terms[12] == Term(Force, StrongLeft) && Terms[13] == Term(Force, LightLeft) && Terms[14] == Term(Force, Neutral);
    assert Terms[15] == Term(Force, LightRight) && Terms[16] == Term(Force, StrongRight);
  }

  lemma RulesOverTerms()
    ensures RulesOver(Rules, Terms)
  {
    forall i | 0 <= i < |Rules| ensures RuleOver(Rules[i], Terms) {
      if i < 9 {
        AngleRulesOverTerms(i);
      } else {
        BalanceRulesOverTerms(i);
      }
    }
  }

  /** Every label the sixteen rules mention is defined on its variable. */
  lemma SystemRulesDefined()
    ensures RulesDefined(System)
  {
    TermsDefined();
    RulesOverTerms();
    RulesOverDefined(System, Terms);
  }

  /**
   * The hand-tuned angle, angular velocity and force terms in the order the
   * chromosome layout assigns them.
   */
  const LayoutFunctions: seq<MembershipFunction> := [
    Trap(-90.0, -90.0, -45.0, 0.0), Tri(-45.0, 0.0, 45.0), Trap(0.0, 45.0, 90.0, 90.0),
    Trap(-100.0, -100.0, -50.0, 0.0), Tri(-50.0, 0.0, 50.0), Trap(0.0, 50.0, 100.0, 100.0),
    Trap(-100.0, -100.0, -50.0, -25.0), Tri(-50.0, -25.0, 0.0), Tri(-25.0, 0.0, 25.0),
    Tri(0.0, 25.0, 50.0), Trap(25.0, 50.0, 100.0, 100.0)
  ]

  /** Each of them is the hand-tuned controller's own term for that slot. */
  lemma LayoutFunctionsAreTerms()
    ensures |LayoutFunctions| == |Layout|
    ensures forall k :: 0 <= k < |Layout| ==> Lookup(Variables, Layout[k].term) == Some(LayoutFunctions[k])
  {
    forall k | 0 <= k < 3 ensures Lookup(Variables, Layout[k].term) == Some(LayoutFunctions[k]) {
      LookupAt(Variables, 0, Layout[k].term);
    }
    forall k | 3 <= k < 6 ensures Lookup(Variables, Layout[k].term) == Some(LayoutFunctions[k]) {
      LookupAt(Variables, 1, Layout[k].term);
    }
    forall k | 6 <= k < |Layout| ensures Lookup(Variables, Layout[k].term) == Some(LayoutFunctions[k]) {
      LookupAt(Variables, 4, Layout[k].term);
    }
  }

  /** They have the slots' shapes and lengths, are sorted, and lie in the genes' initial range. */
  lemma LayoutFunctionsFit()
    ensures |LayoutFunctions| == |Layout|
    ensures forall k :: 0 <= k < |Layout| ==>
      && LayoutFunctions[k].shape == Layout[k].shape
      && |LayoutFunctions[k].params| == Layout[k].end - Layout[k].start
      && NonDecreasing(LayoutFunctions[k].params)
      && Within(LayoutFunctions[k].params, -100, 100)
  {
  }

  /**
   * The hand-tuned angle, angular velocity and force terms are a point of the
   * genetic search space: laid out slot by slot they form a 39-gene
   * chromosome, every gene inside the initial range [-100, 100], that
   * decodes back to exactly those terms.
   */
  lemma HandTunedChromosome()
    ensures |Flatten(LayoutFunctions)| == ChromosomeLength
    ensures Within(Flatten(LayoutFunctions), -100, 100)
    ensures Decode(Flatten(LayoutFunctions)) == Some(LayoutFunctions)
  {
    LayoutShape();
    LayoutFunctionsFit();
    var c := Flatten(LayoutFunctions);
    FlattenSlices(LayoutFunctions, Layout);
    FlattenWithin(LayoutFunctions, -100, 100);
    WriteBackSorted(c, LayoutFunctions, Layout, ChromosomeLength);
    assert c + c[ChromosomeLength..] == c;
  }

  /**
   * The genetic controller built from that chromosome is the angle half of the
   * hand-tuned controller: the same nine rules, and the same term under every
   * label it defines.
   */
  lemma GeneticAtHandTuned()
    ensures GeneticSystem(LayoutFunctions).rules == Rules[..9]
    ensures forall k :: 0 <= k < |Layout| ==>
      Lookup(GeneticSystem(LayoutFunctions).variables, Layout[k].term) == Lookup(Variables, Layout[k].term)
  {
    AngleRulesShared();
    LayoutFunctionsAreTerms();
    GeneticSystemDefined(LayoutFunctions);
  }
}
