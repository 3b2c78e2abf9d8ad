/**
 * The shift records, the derived interval and row view-model, the deviation
 * kinds and the string row key shared by plan rows and the fact index.
 */
module ShiftModel {

  /** One scheduled shift; the two timestamps are ISO-8601 strings. */
  datatype ShiftPlan = ShiftPlan(
    employee: string,
    store: string,
    role: string,
    startPlanned: string,
    endPlanned: string)

  /** One recorded attendance interval, same shape as a plan record. */
  datatype ShiftFact = ShiftFact(
    employee: string,
    store: string,
    role: string,
    startActual: string,
    endActual: string)

  /** Millisecond interval `{s, e}`; `s <= e` is not guaranteed. Plan segments use the same shape. */
  datatype Interval = Interval(s: int, e: int)

  type PlanSeg = Interval

  /** One timeline row: the (employee, store) pair, the role shown, and the clipped plan segments. */
  datatype RowVM = RowVM(employee: string, store: string, role: string, planSegs: seq<PlanSeg>)

  datatype DeviationType = Late | Early | Absence

  const AllDeviations: seq<DeviationType> := [Late, Early, Absence]

  /** A boolean per deviation kind (a total record keyed by the kind). */
  datatype DeviationFlags = DeviationFlags(late: bool, early: bool, absence: bool) {
    function Get(t: DeviationType): bool {
      match t
      case Late => late
      case Early => early
      case Absence => absence
    }
  }

  /** Every deviation kind is shown by default. */
  const DefaultDeviationFlags: DeviationFlags := DeviationFlags(true, true, true)

  lemma DefaultShowsEverything(t: DeviationType)
    ensures t in AllDeviations
    ensures DefaultDeviationFlags.Get(t)
  {
  }

  // ---------------------------------------------------------------------------
  // Row keys
  // ---------------------------------------------------------------------------

  const Separator: string := "__"

  /** The row key is the plain string concatenation `employee + "__" + store`. */
  function RowKey(employee: string, store: string): string {
    employee + Separator + store
  }

  function PlanKey(p: ShiftPlan): string {
    RowKey(p.employee, p.store)
  }

  /** Role plays no part in a fact's key. */
  function FactKey(f: ShiftFact): string {
    RowKey(f.employee, f.store)
  }

  /** Two facts of the same employee and store share a key whatever their roles. */
  lemma FactKeyIgnoresRole(f: ShiftFact, role: string)
    ensures FactKey(f.(role := role)) == FactKey(f)
    ensures FactKey(f) == f.employee + "__" + f.store
  {
  }

  function RowKeyOf(r: RowVM): string {
    RowKey(r.employee, r.store)
  }

  /** `i` starts an occurrence of the separator in `s`. */
  predicate SeparatorAt(s: string, i: int) {
    0 <= i && i + 1 < |s| && s[i] == '_' && s[i + 1] == '_'
  }

  /**
   * An employee name whose key cannot be confused with another pair's:
   * it contains no `__` and does not end in `_`.
   */
  predicate SeparatorFree(name: string) {
    && (forall i :: 0 <= i < |name| ==> !SeparatorAt(name, i))
    && (|name| > 0 ==> name[|name| - 1] != '_')
  }

  /** In a key built from a separator-free employee, the first separator starts right after the employee. */
  lemma FirstSeparatorAfterEmployee(employee: string, store: string, i: int)
    requires SeparatorFree(employee)
    requires SeparatorAt(RowKey(employee, store), i)
    ensures i >= |employee|
  {
    var k := RowKey(employee, store);
    forall j | 0 <= j < |employee|
      ensures !SeparatorAt(k, j)
    {
      assert k[j] == employee[j];
      if j + 1 < |employee| {
        assert k[j + 1] == employee[j + 1];
        assert !SeparatorAt(employee, j);
      }
    }
  }

  /**
   * With separator-free employee names the key identifies the pair: equal keys
   * mean equal employee and equal store, and the converse.
   */
  lemma RowKeyInjective(e1: string, s1: string, e2: string, s2: string)
    requires SeparatorFree(e1) && SeparatorFree(e2)
    ensures RowKey(e1, s1) == RowKey(e2, s2) <==> e1 == e2 && s1 == s2
  {
    if RowKey(e1, s1) == RowKey(e2, s2) {
      var k := RowKey(e1, s1);
      assert SeparatorAt(RowKey(e1, s1), |e1|);
      assert SeparatorAt(RowKey(e2, s2), |e2|);
      FirstSeparatorAfterEmployee(e1, s1, |e2|);
      FirstSeparatorAfterEmployee(e2, s2, |e1|);
      assert e1 == k[..|e1|] == e2;
      assert s1 == k[|e1| + 2..] == s2;
    }
  }

  /**
   * Forbidding `__` inside the names is not enough: `("a_", "b")` and
   * `("a", "_b")` contain no `__` and still share the key `"a___b"`.
   */
  lemma RowKeyCollision()
    ensures RowKey("a_", "b") == RowKey("a", "_b")
    ensures forall i :: 0 <= i < 2 ==> !SeparatorAt("a_", i) && !SeparatorAt("_b", i)
    ensures !SeparatorFree("a_")
  {
  }
}

/** The filter state read by the layout engine. */
module TimelineFilters {
  import opened ShiftModel

  /** Fact-layer visibility and the per-kind deviation switches; every combination is legal. */
  datatype FiltersState = FiltersState(showFact: bool, deviations: DeviationFlags)
}
