/**
 * The selection logic of the select component (select.tsx) as values: the facts derived
 * from the options (the enabled values and the value-to-label map), what a toggle, a clear
 * or a select-all would commit in multi and single mode, when the clear and select-all
 * buttons are disabled, and the label shown on the trigger.
 */
module Selection {
  import opened Wrappers
  import opened Text
  import opened Sequences

  // ---------------------------------------------------------------------------
  // Derived facts

  /** `getOptionLabel ?? getOptionValue`. */
  function EffectiveLabel<O>(getLabel: Option<O -> string>, getValue: O -> string): O -> string
  {
    match getLabel
    case Some(f) => f
    case None => getValue
  }

  /** `isOptionDisabled ?? (() => false)`. */
  function EffectiveDisabled<O>(isDisabled: Option<O -> bool>): O -> bool
  {
    match isDisabled
    case Some(f) => f
    case None => (o: O) => false
  }

  /** The values of the options, in order. */
  function Values<O>(options: seq<O>, getValue: O -> string): (r: seq<string>)
    ensures |r| == |options|
    ensures forall i :: 0 <= i < |options| ==> r[i] == getValue(options[i])
  {
    seq(|options|, i requires 0 <= i < |options| => getValue(options[i]))
  }

  /** `enabledOptionValues`: the values of the options that are not disabled, in order. */
  function EnabledValues<O>(options: seq<O>, getValue: O -> string, disabled: O -> bool): (r: seq<string>)
    ensures |r| <= |options|
  {
    if options == [] then []
    else
      var o := options[|options| - 1];
      EnabledValues(options[..|options| - 1], getValue, disabled) + (if disabled(o) then [] else [getValue(o)])
  }

  /** `optionValueToLabel`: each option in turn sets its value's entry, so a later option overwrites an earlier one. */
  function LabelMap<O>(options: seq<O>, getValue: O -> string, labelOf: O -> string): map<string, string>
  {
    if options == [] then map[]
    else
      var o := options[|options| - 1];
      LabelMap(options[..|options| - 1], getValue, labelOf)[getValue(o) := labelOf(o)]
  }

  /**
   * The memo's `for` loop: one pass over the options setting the label entry and pushing
   * the value of each enabled option.
   */
  method DeriveFacts<O>(options: seq<O>, getValue: O -> string, labelOf: O -> string, disabled: O -> bool)
    returns (enabled: seq<string>, labels: map<string, string>)
    ensures enabled == EnabledValues(options, getValue, disabled)
    ensures labels == LabelMap(options, getValue, labelOf)
  {
    enabled := [];
    labels := map[];
    for i := 0 to |options|
      invariant enabled == EnabledValues(options[..i], getValue, disabled)
      invariant labels == LabelMap(options[..i], getValue, labelOf)
    {
      var o := options[i];
      assert options[..i + 1][..i] == options[..i];
      var value := getValue(o);
      labels := labels[value := labelOf(o)];
      if !disabled(o) {
        enabled := enabled + [value];
      }
    }
    assert options[..|options|] == options;
  }

  /** The enabled values of a concatenation are those of the parts, in order. */
  lemma {:induction false} EnabledValuesConcat<O>(a: seq<O>, b: seq<O>, getValue: O -> string, disabled: O -> bool)
    ensures EnabledValues(a + b, getValue, disabled) == EnabledValues(a, getValue, disabled) + EnabledValues(b, getValue, disabled)
  {
    if b == [] {
      assert a + b == a;
    } else {
      var b' := b[..|b| - 1];
      EnabledValuesConcat(a, b', getValue, disabled);
      assert (a + b)[..|a + b| - 1] == a + b';
    }
  }

  /** A value is enabled exactly when some option carrying it is not disabled. */
  lemma {:induction false} EnabledValuesMembers<O>(options: seq<O>, getValue: O -> string, disabled: O -> bool, v: string)
    ensures v in EnabledValues(options, getValue, disabled) <==>
      exists i :: 0 <= i < |options| && getValue(options[i]) == v && !disabled(options[i])
  {
    if options != [] {
      var p := options[..|options| - 1];
      var o := options[|options| - 1];
      EnabledValuesMembers(p, getValue, disabled, v);
      assert v in EnabledValues(options, getValue, disabled) <==>
        v in EnabledValues(p, getValue, disabled) || (getValue(o) == v && !disabled(o));
      if exists i :: 0 <= i < |p| && getValue(p[i]) == v && !disabled(p[i]) {
        var i :| 0 <= i < |p| && getValue(p[i]) == v && !disabled(p[i]);
        assert options[i] == p[i];
      }
      if exists i :: 0 <= i < |options| && getValue(options[i]) == v && !disabled(options[i]) {
        var i :| 0 <= i < |options| && getValue(options[i]) == v && !disabled(options[i]);
        if i < |p| {
          assert p[i] == options[i];
        }
      }
    }
  }

  /** Without `isOptionDisabled` every option is enabled: the enabled values are all the values. */
  lemma {:induction false} NoDisabledMeansAll<O>(options: seq<O>, getValue: O -> string)
    ensures EnabledValues(options, getValue, EffectiveDisabled(None)) == Values(options, getValue)
  {
    if options != [] {
      var p := options[..|options| - 1];
      NoDisabledMeansAll(p, getValue);
      assert Values(options, getValue) == Values(p, getValue) + [getValue(options[|options| - 1])];
    }
  }

  /**
   * The label map has an entry for exactly the values of the options, and the entry of a
   * value is the label of the last option carrying it.
   */
  lemma {:induction false} LabelMapLast<O>(options: seq<O>, getValue: O -> string, labelOf: O -> string, v: string)
    ensures v in LabelMap(options, getValue, labelOf) <==> v in Values(options, getValue)
    ensures v in LabelMap(options, getValue, labelOf) ==>
      exists i :: 0 <= i < |options| && getValue(options[i]) == v
        && LabelMap(options, getValue, labelOf)[v] == labelOf(options[i])
        && forall j :: i < j < |options| ==> getValue(options[j]) != v
  {
    if options != [] {
      var p := options[..|options| - 1];
      var o := options[|options| - 1];
      LabelMapLast(p, getValue, labelOf, v);
      assert Values(options, getValue) == Values(p, getValue) + [getValue(o)];
      if getValue(o) != v && v in LabelMap(p, getValue, labelOf) {
        var i :| 0 <= i < |p| && getValue(p[i]) == v && LabelMap(p, getValue, labelOf)[v] == labelOf(p[i])
          && forall j :: i < j < |p| ==> getValue(p[j]) != v;
        assert options[i] == p[i];
        forall j | i < j < |options| ensures getValue(options[j]) != v {
          if j < |p| {
            assert options[j] == p[j];
          }
        }
      }
    }
  }

  /** Without `getOptionLabel` every option is labelled by its value: each entry maps a value to itself. */
  lemma {:induction false} NoLabelMeansValue<O>(options: seq<O>, getValue: O -> string, v: string)
    requires v in LabelMap(options, getValue, EffectiveLabel(None, getValue))
    ensures LabelMap(options, getValue, EffectiveLabel(None, getValue))[v] == v
  {
    var p := options[..|options| - 1];
    if getValue(options[|options| - 1]) != v {
      NoLabelMeansValue(p, getValue, v);
    }
  }

  // ---------------------------------------------------------------------------
  // Multi mode

  /**
   * `handleSelectOption` in multi mode, as the selection it would commit. An unselected
   * value is appended to the selection as it is; a selected one is removed from the set of
   * selected values (so duplicates disappear too), except that with `forceSelection` the
   * last selected value cannot be removed.
   */
  function MultiToggle(cur: seq<string>, v: string, force: bool): (r: Change<seq<string>>)
    ensures v !in cur ==> r == Commit(cur + [v])
    ensures v in cur && force && |SetOf(cur)| <= 1 ==> r == Unchanged
    ensures v in cur && (!force || |SetOf(cur)| > 1) ==>
      && r.Commit?
      && NoDup(r.next)
      && (forall x :: x in r.next <==> x in cur && x != v)
  {
    if v in cur then
      if force && |SetOf(cur)| <= 1 then Unchanged
      else
        WithoutNoDup(Dedup(cur), v);
        Commit(Without(Dedup(cur), v))
    else Commit(cur + [v])
  }

  /**
   * Removing a selected value commits the other selected values in the order of their first
   * occurrences in the selection, as `[...new Set(selection)]` lists them; with the
   * membership and no-duplicates clauses of `MultiToggle` this fixes the committed array.
   */
  lemma MultiToggleRemovalOrder(cur: seq<string>, v: string, force: bool)
    ensures v in cur && MultiToggle(cur, v, force).Commit? ==>
      InFirstOccurrenceOrder(MultiToggle(cur, v, force).next, cur)
  {
    if v in cur && MultiToggle(cur, v, force).Commit? {
      DedupOrdered(cur);
      WithoutKeepsOrder(Dedup(cur), cur, v);
    }
  }

  /** Toggling keeps a duplicate-free selection duplicate-free. */
  lemma MultiToggleNoDup(cur: seq<string>, v: string, force: bool)
    requires NoDup(cur)
    ensures MultiToggle(cur, v, force).Commit? ==> NoDup(MultiToggle(cur, v, force).next)
  {
  }

  /**
   * Toggling an unselected value twice gives back a duplicate-free selection (with
   * `forceSelection`, provided the selection was not empty).
   */
  lemma MultiToggleTwice(cur: seq<string>, v: string, force: bool)
    requires NoDup(cur) && v !in cur
    requires !force || cur != []
    ensures MultiToggle(cur, v, force) == Commit(cur + [v])
    ensures MultiToggle(cur + [v], v, force) == Commit(cur)
  {
    var c := cur + [v];
    assert NoDup(c);
    DedupOfNoDup(c);
    WithoutAbsent(cur, v);
    if force {
      TwoDistinctValues(c, cur[0], v);
    }
    assert MultiToggle(c, v, force) == Commit(Without(Dedup(c), v));
  }

  /** A selection holding two distinct values makes a `Set` of more than one value. */
  lemma TwoDistinctValues(s: seq<string>, a: string, b: string)
    requires a in s && b in s && a != b
    ensures |SetOf(s)| > 1
  {
    assert {a, b} <= SetOf(s);
    assert |{a, b}| == 2;
    SubsetSize({a, b}, SetOf(s));
  }

  /** A subset is no larger than its superset. */
  lemma SubsetSize<T>(a: set<T>, b: set<T>)
    requires a <= b
    ensures |a| <= |b|
  {
    assert b == a + (b - a);
  }

  /** With `forceSelection` toggling never empties a non-empty selection. */
  lemma ForcedMultiNeverEmpty(cur: seq<string>, v: string)
    requires cur != []
    ensures MultiToggle(cur, v, true).Commit? ==> MultiToggle(cur, v, true).next != []
  {
    if v in cur && |SetOf(cur)| > 1 {
      var x :| x in SetOf(cur) && x != v by {
        assert cur[0] in SetOf(cur);
        if cur[0] == v {
          var s := SetOf(cur) - {v};
          assert |s| >= 1;
          var y :| y in s;
        }
      }
      assert x in MultiToggle(cur, v, true).next;
    }
  }

  /** `isClearDisabled` in multi mode. */
  predicate MultiClearDisabled(enableSelectionOptions: bool, force: bool, cur: seq<string>, optionCount: nat)
  {
    !enableSelectionOptions || force || |SetOf(cur)| == 0 || optionCount == 0
  }

  /** Under `forceSelection` the clear button is always disabled; otherwise only when it has nothing to clear or is hidden. */
  lemma MultiClearDisabledIff(enableSelectionOptions: bool, force: bool, cur: seq<string>, optionCount: nat)
    ensures MultiClearDisabled(enableSelectionOptions, force, cur, optionCount) <==>
      !enableSelectionOptions || force || cur == [] || optionCount == 0
  {
    if cur != [] {
      assert cur[0] in SetOf(cur);
    }
  }

  /** `isSelectAllDisabled`, with its size shortcut. */
  predicate SelectAllDisabled(enableSelectionOptions: bool, optionCount: nat, enabled: seq<string>, cur: seq<string>)
  {
    || !enableSelectionOptions
    || optionCount == 0
    || |enabled| <= |SetOf(cur)|
    || (forall e :: e in enabled ==> e in cur)
  }

  /**
   * When every selected value is an enabled value, select-all is disabled exactly when it
   * is hidden, there are no options, or every enabled value is already selected.
   */
  lemma SelectAllDisabledIff(enableSelectionOptions: bool, optionCount: nat, enabled: seq<string>, cur: seq<string>)
    requires SetOf(cur) <= SetOf(enabled)
    ensures SelectAllDisabled(enableSelectionOptions, optionCount, enabled, cur) <==>
      !enableSelectionOptions || optionCount == 0 || forall e :: e in enabled ==> e in cur
  {
    if |enabled| <= |SetOf(cur)| {
      SetOfSize(enabled);
      var d := SetOf(enabled) - SetOf(cur);
      assert SetOf(enabled) == SetOf(cur) + d;
      assert |d| == 0;
      assert SetOf(enabled) == SetOf(cur);
      forall e | e in enabled ensures e in cur {
        assert e in SetOf(enabled);
      }
    }
  }

  /**
   * A selected value that is no longer enabled counts towards the size shortcut: with enabled
   * values b and c and the selection a, b, select-all is disabled although c is not selected.
   */
  lemma SelectAllDisabledWithUnselected()
    ensures SelectAllDisabled(true, 3, ["b", "c"], ["a", "b"])
    ensures "c" in ["b", "c"] && "c" !in ["a", "b"]
  {
    assert "a" in SetOf(["a", "b"]) && "b" in SetOf(["a", "b"]);
    assert {"a", "b"} <= SetOf(["a", "b"]);
    assert |{"a", "b"}| == 2;
    SubsetSize({"a", "b"}, SetOf(["a", "b"]));
  }

  // ---------------------------------------------------------------------------
  // Single mode

  /**
   * `handleSelectOption` in single mode: the value is selected exactly when it equals the
   * current one. Without `forceSelection` a toggle selects the value, or clears it when it
   * was selected; with it, toggling the selected value commits nothing.
   */
  function SingleToggle(cur: Option<string>, v: string, force: bool): (r: Change<Option<string>>)
    ensures cur != Some(v) ==> r == Commit(Some(v))
    ensures cur == Some(v) ==> r == if force then Unchanged else Commit(None)
  {
    if force then
      if cur != Some(v) then Commit(Some(v)) else Unchanged
    else
      Commit(if cur == Some(v) then None else Some(v))
  }

  /** With `forceSelection` a toggle only ever commits a value, never `null`. */
  lemma ForcedSingleNeverNull(cur: Option<string>, v: string)
    ensures SingleToggle(cur, v, true).Commit? ==> SingleToggle(cur, v, true).next.Some?
  {
  }

  /** Without `forceSelection` toggling the same value twice from `null` returns to `null`. */
  lemma SingleToggleTwice(v: string)
    ensures SingleToggle(None, v, false) == Commit(Some(v))
    ensures SingleToggle(Some(v), v, false) == Commit(None)
  {
  }

  /** `isClearDisabled` in single mode. */
  predicate SingleClearDisabled(enableSelectionOptions: bool, force: bool, cur: Option<string>, optionCount: nat)
  {
    !enableSelectionOptions || force || cur.None? || optionCount == 0
  }

  /**
   * Single-mode `isClearDisabled` is the multi-mode predicate on the selection seen as a list
   * of at most one value: `null` counts as nothing selected.
   */
  lemma SingleClearDisabledAsMulti(enableSelectionOptions: bool, force: bool, cur: Option<string>, optionCount: nat)
    ensures SingleClearDisabled(enableSelectionOptions, force, cur, optionCount) <==>
      MultiClearDisabled(enableSelectionOptions, force, if cur.Some? then [cur.value] else [], optionCount)
  {
    if cur.Some? {
      assert cur.value in SetOf([cur.value]);
    }
  }

  // ---------------------------------------------------------------------------
  // Trigger label

  /** The text after the count in the label of two or more values. */
  const OptionsSelected := " options selected"

  /** The trigger label in multi mode. */
  function MultiLabel(cur: seq<string>, labels: map<string, string>): (r: string)
    ensures |cur| == 0 ==> r == "Select options..."
    ensures |cur| == 1 && cur[0] in labels ==> r == labels[cur[0]]
    ensures |cur| == 1 && cur[0] !in labels ==> r == cur[0]
    ensures |cur| >= 2 ==>
      && |r| > |OptionsSelected|
      && r[|r| - |OptionsSelected|..] == OptionsSelected
      && (forall k :: 0 <= k < |r| - |OptionsSelected| ==> '0' <= r[k] <= '9')
  {
    if |cur| == 0 then "Select options..."
    else if |cur| == 1 then (if cur[0] in labels then labels[cur[0]] else cur[0])
    else DecimalString(|cur|) + OptionsSelected
  }

  /** The count shown for two or more values is the length of the selection, duplicates included. */
  lemma MultiLabelCount(cur: seq<string>, labels: map<string, string>)
    requires |cur| >= 2
    ensures var r := MultiLabel(cur, labels);
      ParseDecimal(r[..|r| - |OptionsSelected|]) == |cur|
  {
    var r := MultiLabel(cur, labels);
    assert r[..|r| - |OptionsSelected|] == DecimalString(|cur|);
    DecimalRoundTrip(|cur|);
  }

  /** The trigger label in single mode. */
  function SingleLabel(cur: Option<string>, labels: map<string, string>): (r: string)
    ensures cur.None? ==> r == "Select an option..."
    ensures cur.Some? && cur.value in labels ==> r == labels[cur.value]
    ensures cur.Some? && cur.value !in labels ==> r == cur.value
  {
    match cur
    case None => "Select an option..."
    case Some(v) => if v in labels then labels[v] else v
  }

  /**
   * A single selected value that some option carries is shown by the label of the last such
   * option; a value no option carries is shown as it is.
   */
  lemma SelectedLabelIsOptionLabel<O>(options: seq<O>, getValue: O -> string, labelOf: O -> string, v: string)
    ensures var r := SingleLabel(Some(v), LabelMap(options, getValue, labelOf));
      && (v !in Values(options, getValue) ==> r == v)
      && (v in Values(options, getValue) ==>
            exists i :: 0 <= i < |options| && getValue(options[i]) == v && r == labelOf(options[i])
              && forall j :: i < j < |options| ==> getValue(options[j]) != v)
    ensures MultiLabel([v], LabelMap(options, getValue, labelOf)) == SingleLabel(Some(v), LabelMap(options, getValue, labelOf))
  {
    LabelMapLast(options, getValue, labelOf, v);
  }
}
