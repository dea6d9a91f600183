# Fuzzy inverted-pendulum controllers, modelled in Dafny

The repository balances an inverted pendulum with two Mamdani fuzzy controllers built on
`skfuzzy`:

- a **hand-tuned controller** (`fis_pendulo_invertido.py`). It has five linguistic
  variables (angle, angular velocity, cart position, cart velocity, force) with fixed
  trapezoid and triangle breakpoints, and sixteen rules.
- a **genetically tuned controller** (`genetico_fuzzy_pendulo_invertido.py`). A 39-gene
  chromosome is cut into eleven slices, and each slice is sorted into the breakpoints of
  one angle, angular-velocity or force label. The controller always uses the same nine
  rules. A chromosome's fitness is the sum of `|force|` over five benchmark inputs, or
  infinity when the controller cannot be built or an input produces no force.

The model covers what the repository itself computes. The fuzzy inference is library
code and is left abstract.

- `wrappers.dfy` (`Wrappers`): `Option`.
- `fuzzy.dfy` (`Fuzzy`): the vocabulary both controllers share.
  - Membership functions are a shape plus a breakpoint list.
  - Variables are an integer universe plus a map from label to membership function.
  - Terms are `variable[label]`, and rules are a list of antecedent terms plus a consequent term.
  - The module also defines skfuzzy's `variable[label]` lookup and assignment, the first
    matching rule for an antecedent, and the left/right mirror (of labels, and of
    breakpoints: negated and reversed).
- `sorting.dfy` (`Sorting`): Python's `sorted` on a gene list, as an insertion sort. It is
  ascending and a permutation of its input, and the sorted result is unique.
- `genetic.dfy` (`Genetic`):
  - the chromosome layout and `initialize_membership_functions` as a pure decode;
  - the nine-rule table;
  - the fitness of `evaluate_fis`, both as a function and as a method with the benchmark
    loop and its early exit;
  - the final controller built from the best chromosome.
- `handtuned.dfy` (`HandTuned`): the hand-tuned variables and sixteen rules as constants,
  and the invariants they satisfy. It also shows that the hand-tuned angle, angular
  velocity and force terms are a point of the genetic search space.

Labels and variable names are enumerations named after the source's strings: `Left` is
`'left'`, `StrongLeft` is `'strong_left'`, `AngularVelocity` is `'angular_velocity'`, and
so on. The inference engine is a parameter `compute: (ControlSystem, int, int) ->
Option<real>`: the crisp force for an (angle, angular velocity) input, or `None` when
`compute()` raises or gives no `force` output. Whether `ctrl.ControlSystem(rules)` and
`ControlSystemSimulation` succeed is a parameter `constructs: ControlSystem -> bool`.

Failures to build the control system or to compute an output are caught and scored as
infinity, but the decode at `genetico_fuzzy_pendulo_invertido.py:25` runs outside both
`try` blocks. A
chromosome shorter than 39 genes gives a slice too short for `fuzz.trapmf` or
`fuzz.trimf`, which then raise, and the exception leaves `evaluate_fis`. The model
follows the code: `FitnessOf` is `Raised` exactly for such chromosomes.

## Model

| member | source | states |
|---|---|---|
| `Sorting.Sort` | genetico_fuzzy_pendulo_invertido.py:12-22 | `sorted(slice)` has the slice's length, is ascending and holds exactly the slice's genes (same multiset) |
| `Sorting.SortedUnique` | genetico_fuzzy_pendulo_invertido.py:12-22 | two ascending lists with the same genes are equal, so the sorted breakpoints are determined by the genes alone |
| `Sorting.SortPermutationInvariant` | genetico_fuzzy_pendulo_invertido.py:12-22 | sorting a rearranged slice gives the same breakpoints |
| `Sorting.SortSorted` | genetico_fuzzy_pendulo_invertido.py:12-22 | an ascending slice sorts to itself, so sorting is idempotent |
| `Fuzzy.SetTermLookup` | genetico_fuzzy_pendulo_invertido.py:12-22 | after `variable[label] = m`, that term reads `m` and every other term reads as before |
| `Fuzzy.ReflectInvolution` | fis_pendulo_invertido.py:11-31 | mirroring breakpoints twice gives them back |
| `Fuzzy.ReflectWellFormed` | fis_pendulo_invertido.py:11-31 | the mirror image of an ordered trapezoid or triangle is an ordered trapezoid or triangle |
| `Fuzzy.ReflectWithin` | fis_pendulo_invertido.py:5-9 | on a universe symmetric about 0, mirroring keeps breakpoints inside the universe |
| `Fuzzy.MirrorTermsInvolution` | genetico_fuzzy_pendulo_invertido.py:27-37 | mirroring the labels of a rule's terms twice gives the terms back |
| `Genetic.LayoutShape` | genetico_fuzzy_pendulo_invertido.py:12-22 | the eleven slices are 4,3,4,4,3,4,4,3,3,3,4 genes long, end to end from gene 0 to gene 39, each written to a different `variable[label]` |
| `Genetic.LayoutPartitionsChromosome` | genetico_fuzzy_pendulo_invertido.py:12-22 | each of genes 0..38 lies in exactly one slice: no gap, no overlap |
| `Genetic.Decode` | genetico_fuzzy_pendulo_invertido.py:11-22 | it fails exactly when the chromosome has fewer than 39 genes; otherwise it gives eleven functions with the layout's shapes, each ordered (a valid `trapmf`/`trimf` list) and a permutation of its slice |
| `Genetic.DecodeWriteBack` | genetico_fuzzy_pendulo_invertido.py:11-22 | writing the decoded breakpoints back over genes 0..38 and decoding again gives the same functions |
| `Genetic.DecodePermutationInvariant` | genetico_fuzzy_pendulo_invertido.py:11-22 | rearranging genes within slices does not change the decode |
| `Genetic.InstallLookup` | genetico_fuzzy_pendulo_invertido.py:12-22 | after the eleven assignments, each slot's `variable[label]` reads the function decoded for it |
| `Genetic.InstallKeeps` | genetico_fuzzy_pendulo_invertido.py:12-22 | a term no slot writes reads as before the assignments |
| `Genetic.RuleTableComplete` | genetico_fuzzy_pendulo_invertido.py:27-37 | nine rules with pairwise different antecedents, one for each (angle, angular_velocity) label pair |
| `Genetic.RuleTableMirrorSymmetric` | genetico_fuzzy_pendulo_invertido.py:27-37 | mirroring a rule's antecedent finds the rule whose force label is the mirrored one (strong and light left/right swapped, neutral kept) |
| `Genetic.GeneticSystemDefined` | genetico_fuzzy_pendulo_invertido.py:11-37 | every label the nine rules mention is defined once the chromosome is decoded, and holds the breakpoints decoded for it |
| `Genetic.Abs` | genetico_fuzzy_pendulo_invertido.py:62 | `abs` is non-negative and equals the value or its negation |
| `Genetic.SumNonNegative` | genetico_fuzzy_pendulo_invertido.py:67 | `sum` of non-negative errors is non-negative |
| `Genetic.CaseErrors` | genetico_fuzzy_pendulo_invertido.py:50-65 | the `errors` list exists exactly when every case produces a force, and then holds `abs(force)` of each case in order |
| `Genetic.BenchmarkCases` | genetico_fuzzy_pendulo_invertido.py:46-67 | the benchmark is infinite exactly when some case has no output; otherwise it is the sum of `abs(force)` over the five inputs in order, and not negative |
| `Genetic.FitnessOfFullChromosome` | genetico_fuzzy_pendulo_invertido.py:24-67 | a 39-gene chromosome always gets a fitness; it is infinite exactly when the system cannot be built or some case fails, otherwise the non-negative sum of `abs(force)` |
| `Genetic.FitnessRaisesOnShortChromosome` | genetico_fuzzy_pendulo_invertido.py:24-25 | `evaluate_fis` raises exactly for chromosomes shorter than 39 genes |
| `Genetic.FitnessPermutationInvariant` | genetico_fuzzy_pendulo_invertido.py:11-67 | chromosomes whose slices hold the same genes in any order get the same fitness |
| `Genetic.RunBenchmark` | genetico_fuzzy_pendulo_invertido.py:46-67 | the loop returns the benchmark fitness; it stops at the first failing case, so every case before the last one run succeeded and stopping early means infinity |
| `Genetic.EvaluateFis` | genetico_fuzzy_pendulo_invertido.py:24-67 | returns the fitness of the chromosome; no case is run when the decode raises or the system cannot be built, and otherwise the cases run in order up to the first failure |
| `Genetic.FinalControllerIsEvaluatedSystem` | genetico_fuzzy_pendulo_invertido.py:96-109 | the final controller has the variables decoded from the best chromosome and the same nine rules the fitness used |
| `HandTuned.AngleTerm` | fis_pendulo_invertido.py:11-13 | each angle term is an ordered list of its label's shape inside [-90, 90], and its mirror label carries the reflected breakpoints |
| `HandTuned.AngularVelocityTerm` | fis_pendulo_invertido.py:15-17 | the same for angular velocity, inside [-100, 100] |
| `HandTuned.PositionTerm` | fis_pendulo_invertido.py:19-21 | the same for position, inside [-10, 10] |
| `HandTuned.VelocityTerm` | fis_pendulo_invertido.py:23-25 | the same for velocity, inside [-5, 5] |
| `HandTuned.ForceTerm` | fis_pendulo_invertido.py:27-31 | the same for the five force terms, inside [-100, 100] |
| `HandTuned.MirrorTermValid` | fis_pendulo_invertido.py:11-31 | on a universe symmetric about 0, a valid term whose mirror label holds its reflection makes the mirror label's term valid and mirrored too, so each right-hand term follows from its left-hand one |
| `HandTuned.VariablesValid` | fis_pendulo_invertido.py:5-31 | all five variables: every term ordered, of its label's shape (trapezoid outside, triangle inside) and inside the universe; universes and terms mirror-symmetric about 0 |
| `HandTuned.AngleRulesShared` | fis_pendulo_invertido.py:34-42 | the first nine of the sixteen rules are exactly the genetic controller's nine |
| `HandTuned.BalanceRules` | fis_pendulo_invertido.py:43-49 | there are seven position/velocity rules, each reading one position label and one velocity label and setting a force label |
| `HandTuned.BalanceRulesDistinct` | fis_pendulo_invertido.py:43-49 | the seven position/velocity rules have pairwise different antecedents |
| `HandTuned.RulesDistinct` | fis_pendulo_invertido.py:33-50 | no two of the sixteen rules share an antecedent |
| `HandTuned.RulesMirrorSymmetric` | fis_pendulo_invertido.py:33-50 | all sixteen rules are left/right symmetric: the mirrored antecedent finds the mirrored force label |
| `HandTuned.BalanceOpposesAngle` | fis_pendulo_invertido.py:34-49 | each position/velocity rule's force label is the mirror of the angle rule's for the same label pair |
| `HandTuned.BalanceCoverage` | fis_pendulo_invertido.py:43-49 | the position/velocity rules cover every label pair except (left, right) and (right, left) |
| `HandTuned.TermsDefined` | fis_pendulo_invertido.py:11-31 | all seventeen `variable[label]` terms are defined |
| `HandTuned.SystemRulesDefined` | fis_pendulo_invertido.py:33-50 | every label the sixteen rules mention is defined on its variable |
| `HandTuned.LayoutFunctionsAreTerms` | fis_pendulo_invertido.py:11-31 | the eleven angle, angular-velocity and force terms, in chromosome-layout order, are the controller's own |
| `HandTuned.LayoutFunctionsFit` | fis_pendulo_invertido.py:11-31 | they have the layout's shapes and slice lengths, are ordered, and lie in [-100, 100] |
| `HandTuned.HandTunedChromosome` | genetico_fuzzy_pendulo_invertido.py:11-22 | laid end to end, the hand-tuned terms form a 39-gene chromosome with every gene in the initial range [-100, 100], and it decodes back to exactly those terms |
| `HandTuned.GeneticAtHandTuned` | fis_pendulo_invertido.py:11-42 | the genetic controller built from that chromosome has the hand-tuned nine angle rules and the hand-tuned term under every label it defines |

## Left out

- The fuzzy inference (`ControlSystemSimulation.compute()`) is an abstract parameter. It
  covers fuzzification, rule firing, aggregation and centroid defuzzification, all of
  which are library code. Which inputs make it fail is therefore not modelled.
- `ctrl.ControlSystem` and `ControlSystemSimulation` construction is an abstract
  predicate. What makes it raise is library code.
- The values of `fuzz.trapmf` and `fuzz.trimf` are not modelled, because they are
  library code. Only their arity and ordering requirements are stated, as `WellFormed`.
- The genetic search (`genetico_fuzzy_pendulo_invertido.py:69-94`) is not modelled. It uses
  `random.uniform`, `cxBlend`, `mutGaussian`, `selTournament`, `varAnd` and `selBest`,
  which are random and live in the DEAP library. `FinalController` takes the best
  chromosome as a parameter.
- `neuro_fuzzy_pendulo_invertido.py` is not part of this model. It generates random
  training data and trains a regressor, and its rule and term set repeat the hand-tuned
  controller.
- `comparacao.py` is not part of this model. It is a timing, printing and error-measuring
  driver.
- Not modelled: the printing in `test_fis`, `run_multiple_tests` and `test_optimized_fis`,
  and the writes into the shared `fis_simulation` object. These are I/O and library state.
- Error messages printed on failure are not modelled, because they are I/O.
- Floating-point genes and outputs are modelled as exact reals. Not-a-number and
  infinite values are not represented.
- `Genetic.Decode` is pure. The source assigns the eleven terms into module-level
  variables. Each successful decode overwrites all eleven, so earlier contents never
  reach the rules, and the model keeps only the result.
