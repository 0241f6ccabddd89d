/**
 * The translated filter bar. It shares every reducer of module FilterState except the
 * min/max edit, which here keeps the maximum above the minimum.
 */
module FilterBarI18n {
  import opened Wrappers
  import opened Numbers
  import opened FilterState

  /**
   * When the clamp rewrites the maximum: after a non-empty edit, the minimum reads as a number
   * and the maximum (for a minimum edit) or the typed value (for a maximum edit) reads as a
   * number that does not exceed it.
   */
  predicate NeedsBump(field: Field, value: string, lo: Option<int>, hi: Option<int>, typed: Option<int>) {
    && value != ""
    && lo.Some?
    && (if field == Min then hi.Some? && hi.value <= lo.value else typed.Some? && typed.value <= lo.value)
  }

  /**
   * The clamp applied to the edited range `u`, given what `Number()` reads from its minimum,
   * its maximum and the typed value: a maximum that does not exceed the minimum becomes
   * minimum + 1.
   */
  function Clamp(u: Range, field: Field, value: string, lo: Option<int>, hi: Option<int>, typed: Option<int>): (c: Range)
    ensures c.min == u.min
    ensures c.max == u.max <== !NeedsBump(field, value, lo, hi, typed)
    ensures NeedsBump(field, value, lo, hi, typed) ==> c.max == IntToString(lo.value + 1)
  {
    if NeedsBump(field, value, lo, hi, typed) then u.(max := IntToString(lo.value + 1)) else u
  }

  /**
   * The clamped edit of one range: the typed text is stored, then clamped. Both fields are read
   * with `Number()`, so an empty field reads as 0 and unreadable text as NaN.
   */
  function ClampRange(r: Range, field: Field, value: string): Range {
    var u := SetField(r, field, value);
    Clamp(u, field, value, ToNumber(u.min), ToNumber(u.max), ToNumber(value))
  }

  /** `handleInputChange(filter, field, value)`: the clamped edit of one range group. */
  function InputChange(s: BarState, g: RangeFilter, field: Field, value: string): (t: BarState)
    ensures RangeOf(t.values, g) == ClampRange(RangeOf(s.values, g), field, value)
    ensures forall h :: h != g ==> RangeOf(t.values, h) == RangeOf(s.values, h)
    ensures forall l :: ListOf(t.values, l) == ListOf(s.values, l)
    ensures t.active == s.active && t.initial == s.initial
  {
    s.(values := WithRange(s.values, g, ClampRange(RangeOf(s.values, g), field, value)))
  }

  /** After a non-empty edit, whenever both fields read as numbers the maximum exceeds the minimum. */
  lemma ClampOrdersBounds(r: Range, field: Field, value: string)
    requires value != ""
    ensures var c := ClampRange(r, field, value);
      ToNumber(c.min).Some? && ToNumber(c.max).Some? ==> ToNumber(c.max).value > ToNumber(c.min).value
  {
    var u := SetField(r, field, value);
    var lo, hi, typed := ToNumber(u.min), ToNumber(u.max), ToNumber(value);
    var c := Clamp(u, field, value, lo, hi, typed);
    assert c == ClampRange(r, field, value);
    if NeedsBump(field, value, lo, hi, typed) {
      NumberOfToString(lo.value + 1);
      assert ToNumber(c.max) == Some(lo.value + 1);
    } else if field == Max {
      assert c.max == value && ToNumber(c.max) == typed;
    } else {
      assert c.max == u.max && ToNumber(c.max) == hi;
    }
  }

  /** The minimum is stored exactly as typed. */
  lemma ClampKeepsMin(r: Range, field: Field, value: string)
    ensures ClampRange(r, field, value).min == (if field == Min then value else r.min)
  {
    var u := SetField(r, field, value);
    assert u.min == (if field == Min then value else r.min);
    assert ClampRange(r, field, value).min == u.min;
  }

  /** Only the maximum is ever rewritten, and then to one more than the minimum. */
  lemma ClampOnlyRewritesMax(r: Range, field: Field, value: string)
    ensures var c := ClampRange(r, field, value);
      c.max != (if field == Max then value else r.max) ==>
        ToNumber(c.min).Some? && ToNumber(c.max) == Some(ToNumber(c.min).value + 1)
  {
    var u := SetField(r, field, value);
    var lo, hi, typed := ToNumber(u.min), ToNumber(u.max), ToNumber(value);
    var c := Clamp(u, field, value, lo, hi, typed);
    assert c == ClampRange(r, field, value);
    assert u.max == (if field == Max then value else r.max);
    if NeedsBump(field, value, lo, hi, typed) {
      NumberOfToString(lo.value + 1);
      assert ToNumber(c.max) == Some(lo.value + 1);
    }
  }

  /** Emptying a field stores `''` there and leaves the other field as it was. */
  lemma EmptyEditUnclamped(r: Range, field: Field)
    ensures ClampRange(r, field, "") == SetField(r, field, "")
  {
  }

  /**
   * Typing a non-negative minimum while the maximum is empty also fills in the maximum,
   * because `Number('')` reads the empty maximum as 0.
   */
  lemma MinEditFillsEmptyMax(r: Range, value: string, n: int)
    requires r.max == "" && ToNumber(value) == Some(n) && n >= 0 && value != ""
    ensures ClampRange(r, Min, value).max == IntToString(n + 1)
  {
    NumberOfEmpty();
    assert ToNumber(r.max) == Some(0);
  }
}
