/**
 * The vocabulary both controllers share: membership functions as parameter
 * lists, linguistic variables over integer universes, terms addressed as
 * `variable[label]`, rules, and the left/right mirror used by the symmetry
 * properties.
 */
module Fuzzy {
  import opened Wrappers

  /** `fuzz.trapmf` takes four breakpoints, `fuzz.trimf` three. */
  datatype Shape = Trapezoid | Triangle

  function Arity(shape: Shape): nat
  {
    match shape
    case Trapezoid => 4
    case Triangle => 3
  }

  /** A membership function as the source hands it to skfuzzy: a shape and its breakpoint list. */
  datatype MembershipFunction = MembershipFunction(shape: Shape, params: seq<real>)

  ghost predicate NonDecreasing(s: seq<real>)
  {
    forall i, j :: 0 <= i <= j < |s| ==> s[i] <= s[j]
  }

  /** The breakpoint list is usable: right arity and a <= b <= c (<= d). */
  ghost predicate WellFormed(m: MembershipFunction)
  {
    |m.params| == Arity(m.shape) && NonDecreasing(m.params)
  }

  /** The linguistic variables of the controllers, named after the source's `'angle'`, `'angular_velocity'`, ... */
  datatype VariableName = Angle | AngularVelocity | Position | Velocity | Force

  /**
   * The labels (linguistic values) the source uses as keys: `'left'`, `'center'`,
   * `'right'`, `'zero'` for the inputs, `'strong_left'` ... `'strong_right'` for the force.
   */
  datatype Label = Left | Center | Right | Zero | StrongLeft | LightLeft | Neutral | LightRight | StrongRight

  /** A linguistic variable: `np.arange(lo, hi + 1, 1)` as universe and its labelled terms. */
  datatype Variable = Variable(name: VariableName, lo: int, hi: int, terms: map<Label, MembershipFunction>)

  /** `variable[label]`, as referenced by a rule. */
  datatype Term = Term(variable: VariableName, value: Label)

  /** `ctrl.Rule(t1 & t2 & ..., consequent)`. */
  datatype Rule = Rule(antecedent: seq<Term>, consequent: Term)

  /** The system handed to `ctrl.ControlSystem`: the variables its rules were built over and the rules. */
  datatype ControlSystem = ControlSystem(variables: seq<Variable>, rules: seq<Rule>)

  /** Resolves `variable[label]`: the first variable of that name, then its label. */
  function Lookup(vars: seq<Variable>, t: Term): Option<MembershipFunction>
  {
    if vars == [] then None
    else if vars[0].name == t.variable then
      if t.value in vars[0].terms then Some(vars[0].terms[t.value]) else None
    else Lookup(vars[1..], t)
  }

  /** Lookup goes to the first variable with the term's name. */
  lemma {:induction false} LookupAt(vars: seq<Variable>, i: nat, t: Term)
    requires i < |vars| && vars[i].name == t.variable
    requires forall j :: 0 <= j < i ==> vars[j].name != t.variable
    ensures Lookup(vars, t) == if t.value in vars[i].terms then Some(vars[i].terms[t.value]) else None
  {
    if i > 0 {
      assert forall j :: 0 <= j < i - 1 ==> vars[1..][j] == vars[j + 1];
      LookupAt(vars[1..], i - 1, t);
    }
  }

  predicate HasVariable(vars: seq<Variable>, name: VariableName)
  {
    exists i :: 0 <= i < |vars| && vars[i].name == name
  }

  /** `variable[label] = m`: updates the first variable of that name in place, leaves the rest alone. */
  function SetTerm(vars: seq<Variable>, t: Term, m: MembershipFunction): (r: seq<Variable>)
    ensures |r| == |vars|
    ensures forall i :: 0 <= i < |vars| ==> r[i].name == vars[i].name && r[i].lo == vars[i].lo && r[i].hi == vars[i].hi
  {
    if vars == [] then []
    else if vars[0].name == t.variable then [vars[0].(terms := vars[0].terms[t.value := m])] + vars[1..]
    else [vars[0]] + SetTerm(vars[1..], t, m)
  }

  /** After `t := m`, looking up `t` gives `m`, and every other term reads as before. */
  lemma {:induction false} SetTermLookup(vars: seq<Variable>, t: Term, m: MembershipFunction, u: Term)
    requires HasVariable(vars, t.variable)
    ensures Lookup(SetTerm(vars, t, m), u) == if u == t then Some(m) else Lookup(vars, u)
  {
    if vars[0].name != t.variable {
      var i :| 0 <= i < |vars| && vars[i].name == t.variable;
      assert vars[1..][i - 1].name == t.variable;
      SetTermLookup(vars[1..], t, m, u);
      assert SetTerm(vars, t, m)[1..] == SetTerm(vars[1..], t, m);
    }
  }

  /** A term is defined when its variable exists and carries that label. */
  predicate Defined(vars: seq<Variable>, t: Term)
  {
    Lookup(vars, t).Some?
  }

  /** Every antecedent and consequent term of every rule is defined. */
  predicate RulesDefined(sys: ControlSystem)
  {
    forall i :: 0 <= i < |sys.rules| ==>
      Defined(sys.variables, sys.rules[i].consequent) &&
      forall j :: 0 <= j < |sys.rules[i].antecedent| ==> Defined(sys.variables, sys.rules[i].antecedent[j])
  }

  /** Every term the rule mentions is among the given terms. */
  ghost predicate RuleOver(r: Rule, terms: seq<Term>)
  {
    r.consequent in terms && forall j :: 0 <= j < |r.antecedent| ==> r.antecedent[j] in terms
  }

  ghost predicate RulesOver(rules: seq<Rule>, terms: seq<Term>)
  {
    forall i :: 0 <= i < |rules| ==> RuleOver(rules[i], terms)
  }

  /** Rules over terms that are all defined refer to defined labels only. */
  lemma RulesOverDefined(sys: ControlSystem, terms: seq<Term>)
    requires forall k :: 0 <= k < |terms| ==> Defined(sys.variables, terms[k])
    requires RulesOver(sys.rules, terms)
    ensures RulesDefined(sys)
  {
    forall t | t in terms ensures Defined(sys.variables, t) {
      var k :| 0 <= k < |terms| && terms[k] == t;
    }
  }

  /** No two rules share an antecedent. */
  predicate DistinctAntecedents(rules: seq<Rule>)
  {
    forall i, j :: 0 <= i < j < |rules| ==> rules[i].antecedent != rules[j].antecedent
  }

  /** The consequent of the first rule with this antecedent, if any. */
  function Consequent(rules: seq<Rule>, antecedent: seq<Term>): Option<Term>
  {
    if rules == [] then None
    else if rules[0].antecedent == antecedent then Some(rules[0].consequent)
    else Consequent(rules[1..], antecedent)
  }

  /** With distinct antecedents, the consequent found for a rule's antecedent is that rule's own. */
  lemma {:induction false} ConsequentOfRule(rules: seq<Rule>, i: nat)
    requires DistinctAntecedents(rules) && i < |rules|
    ensures Consequent(rules, rules[i].antecedent) == Some(rules[i].consequent)
  {
    if i > 0 {
      assert rules[0].antecedent != rules[i].antecedent;
      assert DistinctAntecedents(rules[1..]) by {
        forall a, b | 0 <= a < b < |rules[1..]| ensures rules[1..][a].antecedent != rules[1..][b].antecedent {
          assert rules[1..][a] == rules[a + 1] && rules[1..][b] == rules[b + 1];
        }
      }
      ConsequentOfRule(rules[1..], i - 1);
    }
  }

  /** A rule's own antecedent always finds a consequent. */
  lemma {:induction false} ConsequentFound(rules: seq<Rule>, i: nat)
    requires i < |rules|
    ensures Consequent(rules, rules[i].antecedent).Some?
  {
    if i > 0 && rules[0].antecedent != rules[i].antecedent {
      assert rules[1..][i - 1] == rules[i];
      ConsequentFound(rules[1..], i - 1);
    }
  }

  /** An antecedent no rule has finds nothing. */
  lemma {:induction false} NoRuleNoConsequent(rules: seq<Rule>, antecedent: seq<Term>)
    requires forall i :: 0 <= i < |rules| ==> rules[i].antecedent != antecedent
    ensures Consequent(rules, antecedent).None?
  {
    if rules != [] {
      assert forall i :: 0 <= i < |rules[1..]| ==> rules[1..][i] == rules[i + 1];
      NoRuleNoConsequent(rules[1..], antecedent);
    }
  }

  /** A lookup that finds nothing means no rule has that antecedent: the converse of NoRuleNoConsequent, stated for completeness. */
  lemma {:induction false} NoConsequentNoRule(rules: seq<Rule>, antecedent: seq<Term>)
    requires Consequent(rules, antecedent).None?
    ensures forall i :: 0 <= i < |rules| ==> rules[i].antecedent != antecedent
  {
    if rules != [] {
      NoConsequentNoRule(rules[1..], antecedent);
      assert forall i :: 1 <= i < |rules| ==> rules[i] == rules[1..][i - 1];
    }
  }

  /** Swaps the left-hand and right-hand labels; centre, zero and neutral are fixed. */
  function MirrorLabel(l: Label): Label
  {
    match l
    case Left => Right
    case Right => Left
    case StrongLeft => StrongRight
    case StrongRight => StrongLeft
    case LightLeft => LightRight
    case LightRight => LightLeft
    case _ => l
  }

  function MirrorTerm(t: Term): Term
  {
    Term(t.variable, MirrorLabel(t.value))
  }

  function MirrorTerms(ts: seq<Term>): seq<Term>
  {
    seq(|ts|, i requires 0 <= i < |ts| => MirrorTerm(ts[i]))
  }

  /** Mirroring a list of terms twice gives it back. */
  lemma MirrorTermsInvolution(ts: seq<Term>)
    ensures MirrorTerms(MirrorTerms(ts)) == ts
  {
    forall i | 0 <= i < |ts| ensures MirrorTerms(MirrorTerms(ts))[i] == ts[i] {
      assert MirrorLabel(MirrorLabel(ts[i].value)) == ts[i].value;
    }
  }

  /**
   * The breakpoints of the mirror image of a membership function about 0:
   * negated and reversed, so `[a, b, c, d]` becomes `[-d, -c, -b, -a]`.
   */
  function Reflect(p: seq<real>): (r: seq<real>)
    ensures |r| == |p|
    ensures forall i :: 0 <= i < |p| ==> r[i] == -p[|p| - 1 - i]
  {
    if p == [] then [] else Reflect(p[1..]) + [-p[0]]
  }

  /** Reflecting twice gives back the original breakpoints. */
  lemma ReflectInvolution(p: seq<real>)
    ensures Reflect(Reflect(p)) == p
  {
    assert forall i :: 0 <= i < |p| ==> Reflect(Reflect(p))[i] == p[i];
  }

  /** The mirror image of a valid trapezoid or triangle is valid, with the same shape. */
  lemma ReflectWellFormed(m: MembershipFunction)
    requires WellFormed(m)
    ensures WellFormed(MembershipFunction(m.shape, Reflect(m.params)))
  {
    var p := m.params;
    var r := Reflect(p);
    forall i, j | 0 <= i <= j < |r| ensures r[i] <= r[j] {
      assert p[|p| - 1 - j] <= p[|p| - 1 - i];
    }
  }

  /** All breakpoints lie in the closed range [lo, hi]. */
  ghost predicate Within(p: seq<real>, lo: int, hi: int)
  {
    forall i :: 0 <= i < |p| ==> lo as real <= p[i] <= hi as real
  }

  /** On a universe symmetric about 0 the mirror image of an in-range function stays in range. */
  lemma ReflectWithin(p: seq<real>, h: int)
    requires Within(p, -h, h)
    ensures Within(Reflect(p), -h, h)
  {
    forall i | 0 <= i < |p| ensures -h as real <= Reflect(p)[i] <= h as real {
      assert -h as real <= p[|p| - 1 - i] <= h as real;
    }
  }
}
