/**
 * The state of the debate filter bar and the reducers that both filter-bar components share:
 * the multi-select toggle, the plain min/max edit, apply, clear, the dropdown click and the
 * change flag. The clamped min/max edit of the translated bar is in module FilterBarI18n.
 */
module FilterState {
  import opened Wrappers

  /** The `{ min, max }` text of a numeric filter, as typed. */
  datatype Range = Range(min: string, max: string)

  /** The five filter groups. */
  datatype FilterValues = FilterValues(
    tiempo: Range,
    modo: seq<string>,
    formato: seq<string>,
    personas: Range,
    tematica: seq<string>)

  datatype RangeFilter = Tiempo | Personas
  datatype ListFilter = Modo | Formato | Tematica
  /** The filter whose dropdown can be open. */
  datatype Filter = RangeGroup(r: RangeFilter) | ListGroup(l: ListFilter)
  datatype Field = Min | Max

  /** Every group empty: the values the bar starts from and that clear restores. */
  const Cleared := FilterValues(Range("", ""), [], [], Range("", ""), [])

  /**
   * The component state. `initial` is the snapshot `hasChanges` compares against; `None` is
   * the `{}` it holds before the mount effect copies the first values.
   */
  datatype BarState = BarState(active: Option<Filter>, values: FilterValues, initial: Option<FilterValues>)

  /** The state right after mounting, once the initial snapshot has been taken. */
  const Mounted := BarState(None, Cleared, Some(Cleared))

  /**
   * `hasChanges`: the JSON texts of the values and the snapshot differ. Every updater keeps
   * the key order of the objects it copies, so this is structural inequality.
   */
  predicate HasChanges(s: BarState) {
    s.initial != Some(s.values)
  }

  function RangeOf(v: FilterValues, g: RangeFilter): Range {
    match g
    case Tiempo => v.tiempo
    case Personas => v.personas
  }

  function WithRange(v: FilterValues, g: RangeFilter, r: Range): (w: FilterValues)
    ensures RangeOf(w, g) == r
    ensures forall h :: h != g ==> RangeOf(w, h) == RangeOf(v, h)
    ensures forall l :: ListOf(w, l) == ListOf(v, l)
  {
    match g
    case Tiempo => v.(tiempo := r)
    case Personas => v.(personas := r)
  }

  function ListOf(v: FilterValues, g: ListFilter): seq<string> {
    match g
    case Modo => v.modo
    case Formato => v.formato
    case Tematica => v.tematica
  }

  function WithList(v: FilterValues, g: ListFilter, l: seq<string>): (w: FilterValues)
    ensures ListOf(w, g) == l
    ensures forall h :: h != g ==> ListOf(w, h) == ListOf(v, h)
    ensures forall r :: RangeOf(w, r) == RangeOf(v, r)
  {
    match g
    case Modo => v.(modo := l)
    case Formato => v.(formato := l)
    case Tematica => v.(tematica := l)
  }

  function SetField(r: Range, field: Field, value: string): Range {
    match field
    case Min => r.(min := value)
    case Max => r.(max := value)
  }

  /** `list.filter(item => item !== x)`. */
  function Without(list: seq<string>, x: string): (r: seq<string>)
    ensures x !in r
    ensures forall y :: y in r <==> y in list && y != x
    ensures |r| <= |list|
    ensures x in list ==> |r| < |list|
  {
    if list == [] then []
    else if list[0] == x then Without(list[1..], x)
    else
      assert x in list ==> x in list[1..] by { assert list == [list[0]] + list[1..]; }
      [list[0]] + Without(list[1..], x)
  }

  /** `Without` leaves a list that does not hold `x` as it is. */
  lemma {:induction false} WithoutAbsent(list: seq<string>, x: string)
    requires x !in list
    ensures Without(list, x) == list
  {
    if list != [] {
      WithoutAbsent(list[1..], x);
    }
  }

  /** Dropping `x` keeps the other items in their order: it commutes with appending one. */
  lemma {:induction false} WithoutAppend(list: seq<string>, y: string, x: string)
    ensures Without(list + [y], x) == Without(list, x) + (if y == x then [] else [y])
  {
    if list != [] {
      assert (list + [y])[1..] == list[1..] + [y];
      WithoutAppend(list[1..], y, x);
    }
  }

  /** The checkbox toggle: a selected option is removed (every copy), another is appended. */
  function Toggle(list: seq<string>, option: string): (r: seq<string>)
    ensures option in list ==> option !in r && |r| < |list|
    ensures option !in list ==> r == list + [option]
  {
    if option in list then Without(list, option) else list + [option]
  }

  /** Toggling an option that was not selected twice returns the original selection. */
  lemma ToggleTwice(list: seq<string>, option: string)
    requires option !in list
    ensures Toggle(Toggle(list, option), option) == list
  {
    WithoutAppend(list, option, option);
    WithoutAbsent(list, option);
  }

  /** `handleMultiSelectChange(filter, option)`: toggles in one group, leaves the rest. */
  function MultiSelectChange(s: BarState, g: ListFilter, option: string): (t: BarState)
    ensures ListOf(t.values, g) == Toggle(ListOf(s.values, g), option)
    ensures forall h :: h != g ==> ListOf(t.values, h) == ListOf(s.values, h)
    ensures forall r :: RangeOf(t.values, r) == RangeOf(s.values, r)
    ensures t.active == s.active && t.initial == s.initial
  {
    s.(values := WithList(s.values, g, Toggle(ListOf(s.values, g), option)))
  }

  /** `handleInputChange` of the plain bar: exactly the named field takes the typed text. */
  function InputChange(s: BarState, g: RangeFilter, field: Field, value: string): (t: BarState)
    ensures field == Min ==> RangeOf(t.values, g) == RangeOf(s.values, g).(min := value)
    ensures field == Max ==> RangeOf(t.values, g) == RangeOf(s.values, g).(max := value)
    ensures forall h :: h != g ==> RangeOf(t.values, h) == RangeOf(s.values, h)
    ensures forall l :: ListOf(t.values, l) == ListOf(s.values, l)
    ensures t.active == s.active && t.initial == s.initial
  {
    s.(values := WithRange(s.values, g, SetField(RangeOf(s.values, g), field, value)))
  }

  /** `handleFilterClick`: clicking the open filter closes it; any other filter opens. */
  function FilterClick(s: BarState, f: Filter): (t: BarState)
    ensures s.active == Some(f) ==> t.active == None
    ensures s.active != Some(f) ==> t.active == Some(f)
    ensures t.values == s.values && t.initial == s.initial
  {
    s.(active := if s.active == Some(f) then None else Some(f))
  }

  /**
   * Apply: the current values are handed to the page, become the new snapshot, and the
   * dropdown closes. Returns the new state and the values handed over.
   */
  function Apply(s: BarState): (r: (BarState, FilterValues))
    ensures !HasChanges(r.0) && r.0.active == None
    ensures r.0.values == s.values && r.1 == s.values
  {
    (s.(initial := Some(s.values), active := None), s.values)
  }

  /** Clear: every group emptied, snapshot and page given the cleared values, dropdown closed. */
  function Clear(s: BarState): (r: (BarState, FilterValues))
    ensures !HasChanges(r.0) && r.0.active == None
    ensures r.0.values == Cleared && r.1 == Cleared
  {
    (BarState(None, Cleared, Some(Cleared)), Cleared)
  }

  /** Right after mounting nothing has changed; clearing from there changes nothing. */
  lemma ClearFromMounted()
    ensures !HasChanges(Mounted)
    ensures Clear(Mounted).0 == Mounted
  {
  }
}
