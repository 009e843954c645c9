/**
 * checkIfVersionSufficient of cmd/construct.go: the comparison of an available
 * package version with a required one under the operators ">=" and ">".
 *
 * The source pads the shorter component list with "-1" entries, converts every
 * component with strconv.Atoi and walks an if/else ladder over at most four
 * components. This module models the ladder (LadderFrom), the padding loops as
 * written (CheckIfVersionSufficient), and relates both to a reference ordering
 * (CompareVersions): full padding with -1 and lexicographic comparison of the
 * first four components.
 */
module Versions {
  import opened Strings
  import Utils

  /** splitVersion: '.' and '-' both separate version components. */
  const VersionSeparators: set<char> := {'.', '-'}

  /** The ladder looks at no more than four components. */
  const MaxComponents: nat := 4

  /** The filler appended for a missing trailing component. */
  const Padding: string := "-1"

  /** strings.FieldsFunc(v, splitVersion): the non-empty components of `v`. */
  function Components(v: string): seq<string> {
    Fields(v, VersionSeparators)
  }

  datatype Order = Less | Equal | Greater

  /** `xs` followed by `count` copies of `filler`. */
  function Fill<T>(xs: seq<T>, count: nat, filler: T): (r: seq<T>)
    ensures |r| == |xs| + count
  {
    if count == 0 then xs else Fill(xs, count - 1, filler) + [filler]
  }

  lemma {:induction false} FillAt<T>(xs: seq<T>, count: nat, filler: T)
    ensures forall i :: 0 <= i < |xs| ==> Fill(xs, count, filler)[i] == xs[i]
    ensures forall i :: |xs| <= i < |xs| + count ==> Fill(xs, count, filler)[i] == filler
  {
    if count > 0 {
      FillAt(xs, count - 1, filler);
    }
  }

  /**
   * What the two padding loops leave behind. Each loop re-reads the length it is
   * growing, so a difference d in length is met by only (d + 1) / 2 fillers; the
   * second loop runs only when the first one did not.
   */
  function PadHalf<T>(available: seq<T>, required: seq<T>, filler: T): (seq<T>, seq<T>) {
    var r := if |available| > |required| then Fill(required, (|available| - |required| + 1) / 2, filler) else required;
    var a := if |r| > |available| then Fill(available, (|r| - |available| + 1) / 2, filler) else available;
    (a, r)
  }

  /**
   * The ladder never reads past the end of `av` (it only checks the length of `rv`
   * before descending): wherever it descends to index k, `av` has an index k too.
   */
  predicate LadderSafe(av: seq<int>, rv: seq<int>) {
    && |av| > 0 && |rv| > 0
    && forall k :: 0 < k < MaxComponents && k < |rv| && k <= |av| && av[..k] == rv[..k] ==> k < |av|
  }

  /**
   * Level k of the if/else ladder (construct.go:197-228), entered when the first k
   * components are equal: a greater component decides ">", an equal one descends
   * while `rv` has a further component and fewer than four were compared, and
   * otherwise gives "=", a smaller one decides "<".
   */
  function LadderFrom(av: seq<int>, rv: seq<int>, k: nat): Order
    requires LadderSafe(av, rv)
    requires k < MaxComponents && k < |av| && k < |rv| && av[..k] == rv[..k]
    decreases MaxComponents - k
  {
    if av[k] > rv[k] then Greater
    else if av[k] == rv[k] && k + 1 < MaxComponents && k + 1 < |rv| then
      assert av[..k + 1] == av[..k] + [av[k]] && rv[..k + 1] == rv[..k] + [rv[k]];
      LadderFrom(av, rv, k + 1)
    else if av[k] == rv[k] then Equal
    else Less
  }

  /** The final mapping of the ladder's outcome through the operator. */
  function Verdict(order: Order, op: string): (ok: bool)
    ensures ok ==> op == ">=" || op == ">"
    ensures op == ">=" ==> (ok <==> order != Less)
    ensures op == ">" ==> (ok <==> order == Greater)
  {
    (order == Greater && (op == ">=" || op == ">")) || (order == Equal && op == ">=")
  }

  /**
   * The source indexes component 0 of both lists; that panics exactly when
   * neither version string has a component and a constraint is present.
   */
  predicate Comparable(available: string, op: string, required: string) {
    (op == "" && required == "") || |Components(available)| > 0 || |Components(required)| > 0
  }

  predicate NonNegative(xs: seq<int>) {
    forall i :: 0 <= i < |xs| ==> xs[i] >= 0
  }

  /** Components never contain '-', so they never parse to a negative number. */
  lemma ComponentsNonNegative(v: string)
    ensures NonNegative(Utils.IntsOf(Components(v)))
  {
    var cs := Components(v);
    Utils.IntsOfAt(cs);
    forall i | 0 <= i < |cs| ensures Utils.IntsOf(cs)[i] >= 0 {
      assert '-' !in cs[i] by {
        forall j | 0 <= j < |cs[i]| ensures cs[i][j] != '-' {
          assert cs[i][j] !in VersionSeparators;
        }
      }
    }
  }

  lemma {:induction false} IntsOfFill(xs: seq<string>, count: nat)
    ensures Utils.IntsOf(Fill(xs, count, Padding)) == Fill(Utils.IntsOf(xs), count, -1)
  {
    if count > 0 {
      var f := Fill(xs, count - 1, Padding);
      IntsOfFill(xs, count - 1);
      assert (f + [Padding])[..|f|] == f;
      AtoiMinusOne();
    }
  }

  /** Converting after padding with "-1" is padding with -1 after converting. */
  lemma IntsOfPadHalf(available: seq<string>, required: seq<string>)
    ensures PadHalf(Utils.IntsOf(available), Utils.IntsOf(required), -1)
            == (Utils.IntsOf(PadHalf(available, required, Padding).0), Utils.IntsOf(PadHalf(available, required, Padding).1))
  {
    var ia, ir := Utils.IntsOf(available), Utils.IntsOf(required);
    if |available| > |required| {
      IntsOfFill(required, (|available| - |required| + 1) / 2);
      PadHalfAvailableLonger(available, required, Padding);
      PadHalfAvailableLonger(ia, ir, -1);
    } else if |required| > |available| {
      IntsOfFill(available, (|required| - |available| + 1) / 2);
      PadHalfRequiredLonger(available, required, Padding);
      PadHalfRequiredLonger(ia, ir, -1);
    }
  }

  lemma PadHalfAvailableLonger<T>(available: seq<T>, required: seq<T>, filler: T)
    requires |available| > |required|
    ensures PadHalf(available, required, filler) == (available, Fill(required, (|available| - |required| + 1) / 2, filler))
  {
    PadHalfShape(available, required, filler);
  }

  lemma PadHalfRequiredLonger<T>(available: seq<T>, required: seq<T>, filler: T)
    requires |required| > |available|
    ensures PadHalf(available, required, filler) == (Fill(available, (|required| - |available| + 1) / 2, filler), required)
  {
    PadHalfShape(available, required, filler);
  }

  /** Only the shorter list is padded, by half the difference rounded up. */
  lemma PadHalfShape<T>(available: seq<T>, required: seq<T>, filler: T)
    ensures PadHalf(available, required, filler) ==
      if |available| > |required| then (available, Fill(required, (|available| - |required| + 1) / 2, filler))
      else if |required| > |available| then (Fill(available, (|required| - |available| + 1) / 2, filler), required)
      else (available, required)
  {
    if |available| > |required| {
      assert |Fill(required, (|available| - |required| + 1) / 2, filler)| <= |available|;
    }
  }

  /** Half padding of non-negative lists (not both empty) keeps the ladder in range. */
  lemma PadHalfLadderSafe(x: seq<int>, y: seq<int>)
    requires NonNegative(x) && NonNegative(y) && |x| + |y| > 0
    ensures LadderSafe(PadHalf(x, y, -1).0, PadHalf(x, y, -1).1)
  {
    var (av, rv) := PadHalf(x, y, -1);
    PadHalfShape(x, y, -1);
    if |y| > |x| {
      FillAt(x, |av| - |x|, -1);
      assert |x| < |av| <= |y| == |rv|;
      forall k | |x| < k <= |av| && k < |rv| ensures av[..k] != rv[..k] {
        assert av[..k][|x|] == -1;
        assert rv[..k][|x|] == y[|x|] >= 0;
      }
    }
  }

  /** The comparison as the source computes it, on the component integers. */
  function LadderOrder(av0: seq<int>, rv0: seq<int>): Order
    requires NonNegative(av0) && NonNegative(rv0) && |av0| + |rv0| > 0
  {
    var (av, rv) := PadHalf(av0, rv0, -1);
    PadHalfLadderSafe(av0, rv0);
    LadderFrom(av, rv, 0)
  }

  /**
   * checkIfVersionSufficient as a value: true without a constraint, otherwise the
   * ladder's outcome mapped through the operator.
   */
  function VersionSufficient(available: string, op: string, required: string): bool
    requires Comparable(available, op, required)
  {
    if op == "" && required == "" then true
    else
      ComponentsNonNegative(available);
      ComponentsNonNegative(required);
      Verdict(LadderOrder(Utils.IntsOf(Components(available)), Utils.IntsOf(Components(required))), op)
  }

  /**
   * The two padding loops of checkIfVersionSufficient as written: each loop bound is
   * re-evaluated against the list it is appending to, and the second loop sees the
   * list the first one grew.
   */
  method PadComponents(availableVersionStrings: seq<string>, requiredVersionStrings: seq<string>)
    returns (paddedAvailable: seq<string>, paddedRequired: seq<string>)
    ensures (paddedAvailable, paddedRequired) == PadHalf(availableVersionStrings, requiredVersionStrings, Padding)
  {
    paddedAvailable, paddedRequired := availableVersionStrings, requiredVersionStrings;
    if |paddedAvailable| > |paddedRequired| {
      var i := 0;
      while i < |paddedAvailable| - |paddedRequired|
        invariant paddedRequired == Fill(requiredVersionStrings, i, Padding)
        invariant 2 * i <= |availableVersionStrings| - |requiredVersionStrings| + 1
      {
        paddedRequired := paddedRequired + [Padding];
        i := i + 1;
      }
      assert i == (|availableVersionStrings| - |requiredVersionStrings| + 1) / 2;
    }
    ghost var r1 := paddedRequired;
    if |paddedRequired| > |paddedAvailable| {
      var i := 0;
      while i < |paddedRequired| - |paddedAvailable|
        invariant paddedAvailable == Fill(availableVersionStrings, i, Padding)
        invariant 2 * i <= |r1| - |availableVersionStrings| + 1
      {
        paddedAvailable := paddedAvailable + [Padding];
        i := i + 1;
      }
      assert i == (|r1| - |availableVersionStrings| + 1) / 2;
    }
  }

  /** checkIfVersionSufficient */
  method CheckIfVersionSufficient(availableVersionValue: string, versionOperator: string, requiredVersionValue: string)
    returns (ok: bool)
    requires Comparable(availableVersionValue, versionOperator, requiredVersionValue)
    ensures ok == VersionSufficient(availableVersionValue, versionOperator, requiredVersionValue)
  {
    if versionOperator == "" && requiredVersionValue == "" {
      return true;
    }
    var availableVersionStrings := Components(availableVersionValue);
    var requiredVersionStrings := Components(requiredVersionValue);
    var paddedAvailable, paddedRequired := PadComponents(availableVersionStrings, requiredVersionStrings);
    var availableVersion := Utils.StringsToInts(paddedAvailable);
    var requiredVersion := Utils.StringsToInts(paddedRequired);
    IntsOfPadHalf(availableVersionStrings, requiredVersionStrings);
    ComponentsNonNegative(availableVersionValue);
    ComponentsNonNegative(requiredVersionValue);
    PadHalfLadderSafe(Utils.IntsOf(availableVersionStrings), Utils.IntsOf(requiredVersionStrings));
    var available := LadderFrom(availableVersion, requiredVersion, 0);
    return Verdict(available, versionOperator);
  }

  // ---------------------------------------------------------------------
  // Reference ordering

  function Max(a: nat, b: nat): nat {
    if a > b then a else b
  }

  function Min(a: nat, b: nat): nat {
    if a < b then a else b
  }

  /** `xs` with -1 for every missing component up to length n. */
  function PadTo(xs: seq<int>, n: nat): seq<int>
    requires |xs| <= n
  {
    Fill(xs, n - |xs|, -1)
  }

  /** Lexicographic comparison of positions k .. m-1. */
  function LexFrom(x: seq<int>, y: seq<int>, k: nat, m: nat): Order
    requires k <= m <= |x| && m <= |y|
    decreases m - k
  {
    if k == m then Equal
    else if x[k] > y[k] then Greater
    else if x[k] < y[k] then Less
    else LexFrom(x, y, k + 1, m)
  }

  /**
   * The ordering the comparator is meant to compute: pad both component lists to the
   * same length with -1 and compare the first four components lexicographically.
   */
  function CompareVersions(av: seq<int>, rv: seq<int>): Order {
    var n := Max(|av|, |rv|);
    LexFrom(PadTo(av, n), PadTo(rv, n), 0, Min(n, MaxComponents))
  }

  /** The reference ordering of two version strings. */
  function VersionOrder(available: string, required: string): Order {
    CompareVersions(Utils.IntsOf(Components(available)), Utils.IntsOf(Components(required)))
  }

  /**
   * Level k of the ladder agrees with the reference from position k on, for any
   * lists `av`, `rv` that are prefixes of the equally long `px`, `py` and where a
   * shortened `rv` ends on a component that already differs from `av`.
   */
  lemma {:induction false} LadderFromAgrees(av: seq<int>, rv: seq<int>, px: seq<int>, py: seq<int>, k: nat, m: nat)
    requires LadderSafe(av, rv)
    requires |av| <= |px| && |rv| <= |py| && |px| == |py| && m == Min(|px|, MaxComponents)
    requires av == px[..|av|] && rv == py[..|rv|]
    requires |rv| < |py| ==> |rv| <= |av| && av[|rv| - 1] != rv[|rv| - 1]
    requires k < MaxComponents && k < |av| && k < |rv| && av[..k] == rv[..k]
    decreases MaxComponents - k
    ensures LadderFrom(av, rv, k) == LexFrom(px, py, k, m)
  {
    assert av[k] == px[k] && rv[k] == py[k];
    if av[k] == rv[k] && k + 1 < MaxComponents && k + 1 < |rv| {
      assert av[..k + 1] == av[..k] + [av[k]] && rv[..k + 1] == rv[..k] + [rv[k]];
      LadderFromAgrees(av, rv, px, py, k + 1, m);
    }
  }

  /** The source's comparison equals the reference ordering on non-negative components. */
  lemma LadderMatchesReference(x: seq<int>, y: seq<int>)
    requires NonNegative(x) && NonNegative(y) && |x| + |y| > 0
    ensures LadderOrder(x, y) == CompareVersions(x, y)
  {
    var (av, rv) := PadHalf(x, y, -1);
    var n := Max(|x|, |y|);
    PadHalfShape(x, y, -1);
    PadHalfLadderSafe(x, y);
    var px, py := PadTo(x, n), PadTo(y, n);
    FillAt(x, n - |x|, -1);
    FillAt(y, n - |y|, -1);
    if |x| < |y| { FillAt(x, |av| - |x|, -1); }
    if |y| < |x| { FillAt(y, |rv| - |y|, -1); }
    assert av == px[..|av|] && rv == py[..|rv|];
    if |rv| < n {
      assert |x| > |y| && av == x;
      assert rv[|rv| - 1] == -1 && av[|rv| - 1] >= 0;
    }
    LadderFromAgrees(av, rv, px, py, 0, Min(n, MaxComponents));
  }

  /**
   * What checkIfVersionSufficient decides: true without a constraint; otherwise
   * ">=" accepts an available version ordered at or above the required one, ">"
   * only one strictly above, and every other operator rejects.
   */
  lemma VersionSufficientMeaning(available: string, op: string, required: string)
    requires Comparable(available, op, required)
    ensures VersionSufficient(available, op, required) <==>
      || (op == "" && required == "")
      || (op == ">=" && VersionOrder(available, required) != Less)
      || (op == ">" && VersionOrder(available, required) == Greater)
  {
    if !(op == "" && required == "") {
      ComponentsNonNegative(available);
      ComponentsNonNegative(required);
      LadderMatchesReference(Utils.IntsOf(Components(available)), Utils.IntsOf(Components(required)));
    }
  }

  // ---------------------------------------------------------------------
  // Properties of the ordering

  function Flip(o: Order): Order {
    match o
    case Less => Greater
    case Equal => Equal
    case Greater => Less
  }

  lemma {:induction false} LexFromFlip(x: seq<int>, y: seq<int>, k: nat, m: nat)
    requires k <= m <= |x| && m <= |y|
    decreases m - k
    ensures LexFrom(y, x, k, m) == Flip(LexFrom(x, y, k, m))
  {
    if k < m && x[k] == y[k] {
      LexFromFlip(x, y, k + 1, m);
    }
  }

  /** Swapping the two versions reverses the outcome. */
  lemma CompareVersionsAntisymmetric(x: seq<int>, y: seq<int>)
    ensures CompareVersions(y, x) == Flip(CompareVersions(x, y))
  {
    var n := Max(|x|, |y|);
    assert Max(|y|, |x|) == n;
    LexFromFlip(PadTo(x, n), PadTo(y, n), 0, Min(n, MaxComponents));
  }

  lemma {:induction false} LexFromSame(x: seq<int>, k: nat, m: nat)
    requires k <= m <= |x|
    decreases m - k
    ensures LexFrom(x, x, k, m) == Equal
  {
    if k < m {
      LexFromSame(x, k + 1, m);
    }
  }

  /** Every version is ordered equal to itself. */
  lemma CompareVersionsReflexive(x: seq<int>)
    ensures CompareVersions(x, x) == Equal
  {
    LexFromSame(PadTo(x, |x|), 0, Min(|x|, MaxComponents));
  }

  /** Only the positions k .. m-1 of both lists matter to LexFrom. */
  lemma {:induction false} LexFromLocal(x: seq<int>, y: seq<int>, x': seq<int>, y': seq<int>, k: nat, m: nat)
    requires k <= m <= |x| && m <= |y| && m <= |x'| && m <= |y'|
    requires forall i :: k <= i < m ==> x[i] == x'[i] && y[i] == y'[i]
    decreases m - k
    ensures LexFrom(x, y, k, m) == LexFrom(x', y', k, m)
  {
    if k < m {
      LexFromLocal(x, y, x', y', k + 1, m);
    }
  }

  /** Components after the fourth never change the outcome. */
  lemma OnlyFourComponentsMatter(x: seq<int>, y: seq<int>, xs: seq<int>, ys: seq<int>)
    requires |x| == MaxComponents && |y| == MaxComponents
    ensures CompareVersions(x + xs, y + ys) == CompareVersions(x, y)
  {
    var n := Max(|x + xs|, |y + ys|);
    FillAt(x + xs, n - |x + xs|, -1);
    FillAt(y + ys, n - |y + ys|, -1);
    FillAt(x, 0, -1);
    FillAt(y, 0, -1);
    LexFromLocal(PadTo(x + xs, n), PadTo(y + ys, n), PadTo(x, MaxComponents), PadTo(y, MaxComponents), 0, MaxComponents);
  }

  /** A first difference at position d decides the comparison. */
  lemma {:induction false} LexFromFirstDifference(x: seq<int>, y: seq<int>, k: nat, d: nat, m: nat)
    requires k <= d < m <= |x| && m <= |y|
    requires forall i :: k <= i < d ==> x[i] == y[i]
    decreases d - k
    ensures LexFrom(x, y, k, m) == (if x[d] < y[d] then Less else if x[d] > y[d] then Greater else LexFrom(x, y, d + 1, m))
  {
    if k < d {
      LexFromFirstDifference(x, y, k + 1, d, m);
    }
  }

  /**
   * A missing trailing component ranks below any present one: the -1 filler is
   * smaller than every component (so 1.2 < 1.2.3).
   */
  lemma MissingComponentRanksLower(x: seq<int>, c: int)
    requires |x| < MaxComponents && c >= 0
    ensures CompareVersions(x, x + [c]) == Less
    ensures CompareVersions(x + [c], x) == Greater
  {
    var n := |x| + 1;
    assert Max(|x|, |x + [c]|) == n && Min(n, MaxComponents) == n;
    assert PadTo(x + [c], n) == x + [c];
    FillAt(x, 1, -1);
    LexFromFirstDifference(PadTo(x, n), x + [c], 0, |x|, n);
    CompareVersionsAntisymmetric(x, x + [c]);
  }

  /** `v` with every '-' written as '.'. */
  function DashesToDots(v: string): string {
    seq(|v|, i requires 0 <= i < |v| => if v[i] == '-' then '.' else v[i])
  }

  /** '.' and '-' are interchangeable separators. */
  lemma DotsAndDashesEquivalent(v: string)
    ensures Components(DashesToDots(v)) == Components(v)
  {
    FieldsSameShape(DashesToDots(v), v, VersionSeparators);
  }

  /** Non-empty pieces without separators, joined by '.' are exactly the components. */
  lemma ComponentsOfDotted(parts: seq<string>)
    requires |parts| >= 1
    requires forall k :: 0 <= k < |parts| ==> |parts[k]| > 0 && SeparatorFree(parts[k], VersionSeparators)
    ensures Components(Join(parts, ".")) == parts
  {
    FieldsOfJoin(parts, '.', VersionSeparators);
  }
}
