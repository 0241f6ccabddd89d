/**
 * The home page's debate filter: the conjunctive predicate `handleApplyFilters` runs over the
 * listed debates, and the test that shows the whole list when no filter is active.
 */
module Home {
  import opened Wrappers
  import opened Numbers
  import opened FilterState

  /** The fields of a listed debate that the filter reads. */
  datatype CardDebate = CardDebate(
    id: int,
    durationMinutes: int,
    participantCount: int,
    tags: seq<string>,
    format: string,
    mode: string)

  /**
   * A lower bound drops `x` when it is non-empty text that `parseInt` reads as a number above
   * `x`; unreadable text compares false with every number and so drops nothing.
   */
  predicate BelowMin(x: int, bound: string) {
    bound != "" && ParseInt(bound).Some? && x < ParseInt(bound).value
  }

  predicate AboveMax(x: int, bound: string) {
    bound != "" && ParseInt(bound).Some? && x > ParseInt(bound).value
  }

  predicate InRange(x: int, r: Range) {
    !BelowMin(x, r.min) && !AboveMax(x, r.max)
  }

  /** An empty selection admits every value. */
  predicate Selected(selection: seq<string>, v: string) {
    |selection| == 0 || v in selection
  }

  /** An empty topic selection admits every debate; otherwise one of its tags must be selected. */
  predicate TopicMatch(selection: seq<string>, tags: seq<string>) {
    |selection| == 0 || exists t :: t in tags && t in selection
  }

  /** The callback given to `debates.filter`. */
  predicate Keep(f: FilterValues, d: CardDebate) {
    && InRange(d.durationMinutes, f.tiempo)
    && InRange(d.participantCount, f.personas)
    && Selected(f.modo, d.mode)
    && Selected(f.formato, d.format)
    && TopicMatch(f.tematica, d.tags)
  }

  /** `debates.filter(...)`: the debates that meet every criterion, in their original order. */
  function ApplyFilters(ds: seq<CardDebate>, f: FilterValues): (r: seq<CardDebate>)
    ensures |r| <= |ds|
    ensures forall d :: d in r <==> d in ds && Keep(f, d)
    ensures (forall d :: d in ds ==> Keep(f, d)) ==> r == ds
  {
    if |ds| == 0 then []
    else if Keep(f, ds[0]) then [ds[0]] + ApplyFilters(ds[1..], f)
    else ApplyFilters(ds[1..], f)
  }

  /** Filtering a concatenation filters each part and keeps them in order. */
  lemma {:induction false} ApplyFiltersAppend(a: seq<CardDebate>, b: seq<CardDebate>, f: FilterValues)
    ensures ApplyFilters(a + b, f) == ApplyFilters(a, f) + ApplyFilters(b, f)
  {
    if |a| == 0 {
      assert a + b == b;
    } else {
      assert (a + b)[1..] == a[1..] + b;
      ApplyFiltersAppend(a[1..], b, f);
    }
  }

  /** With both bounds readable, a value passes exactly when it lies between them, both included. */
  lemma InRangeInclusive(x: int, r: Range, lo: int, hi: int)
    requires ParseInt(r.min) == Some(lo) && ParseInt(r.max) == Some(hi)
    ensures InRange(x, r) <==> lo <= x <= hi
  {
  }

  /** An empty bound imposes nothing. */
  lemma EmptyBoundsAdmitAll(x: int, r: Range)
    requires r.min == "" && r.max == ""
    ensures InRange(x, r)
  {
  }

  /**
   * Every group of the applied values is empty, which is what the `every` over the applied
   * values tests: empty arrays and `{ min, max }` objects whose entries are all `''`.
   */
  predicate Inactive(f: FilterValues) {
    && f.tiempo.min == "" && f.tiempo.max == ""
    && |f.modo| == 0 && |f.formato| == 0
    && f.personas.min == "" && f.personas.max == ""
    && |f.tematica| == 0
  }

  /** The inactive values are exactly the cleared ones. */
  lemma InactiveIsCleared(f: FilterValues)
    ensures Inactive(f) <==> f == Cleared
  {
  }

  /** The page state: the applied values (`None` for the initial `{}`) and the filtered list. */
  datatype HomeState = HomeState(applied: Option<FilterValues>, filtered: seq<CardDebate>)

  const Initial := HomeState(None, [])

  /** `handleApplyFilters`: store the values and the debates that pass them. */
  function OnApply(ds: seq<CardDebate>, f: FilterValues): (s: HomeState)
    ensures s.applied == Some(f)
    ensures forall d :: d in s.filtered <==> d in ds && Keep(f, d)
  {
    HomeState(Some(f), ApplyFilters(ds, f))
  }

  /** `debatesToShow`: every debate while nothing is applied or all applied values are empty. */
  function DebatesToShow(ds: seq<CardDebate>, s: HomeState): (r: seq<CardDebate>)
    ensures s.applied == None ==> r == ds
    ensures s.applied.Some? && !Inactive(s.applied.value) ==> r == s.filtered
  {
    if s.applied == None || Inactive(s.applied.value) then ds else s.filtered
  }

  /** With no active filter every debate passes the predicate. */
  lemma NoActiveFilterKeepsAll(ds: seq<CardDebate>, f: FilterValues)
    requires Inactive(f)
    ensures ApplyFilters(ds, f) == ds
  {
    assert forall d :: Keep(f, d);
  }

  /** The shortcut agrees with the filter: after an apply the page shows exactly the debates that pass. */
  lemma ShownAfterApply(ds: seq<CardDebate>, f: FilterValues)
    ensures DebatesToShow(ds, OnApply(ds, f)) == ApplyFilters(ds, f)
  {
    if Inactive(f) {
      NoActiveFilterKeepsAll(ds, f);
    }
  }

  /**
   * Filtering by stricter values after looser ones is filtering by the stricter ones alone,
   * so the stricter result is a filter of, and no longer than, the looser one.
   */
  lemma {:induction false} Narrowing(ds: seq<CardDebate>, loose: FilterValues, strict: FilterValues)
    requires forall d :: Keep(strict, d) ==> Keep(loose, d)
    ensures ApplyFilters(ApplyFilters(ds, loose), strict) == ApplyFilters(ds, strict)
    ensures |ApplyFilters(ds, strict)| <= |ApplyFilters(ds, loose)|
  {
    if |ds| > 0 {
      Narrowing(ds[1..], loose, strict);
    }
  }

  /** Choosing options in a group that had none only adds a criterion. */
  lemma SelectingNarrows(f: FilterValues, l: ListFilter, selection: seq<string>, d: CardDebate)
    requires ListOf(f, l) == []
    requires Keep(WithList(f, l, selection), d)
    ensures Keep(f, d)
  {
  }

  /** Typing a bound into an empty field only adds a criterion. */
  lemma BoundingNarrows(f: FilterValues, g: RangeFilter, r: Range, d: CardDebate)
    requires RangeOf(f, g) == Range("", "")
    requires Keep(WithRange(f, g, r), d)
    ensures Keep(f, d)
  {
  }
}
