/**
 * The select component's state (select.tsx): whether the popover is open and the shadow
 * selection kept for uncontrolled use, with the callbacks it has made. A multi-select and a
 * single-select are two classes; their properties are constants, and the facts derived
 * from the options are computed once, when the component is built.
 */
module Select {
  import opened Wrappers
  import opened Sequences
  import opened Selection

  /** The initial shadow selection: the `selection` property, else `defaultSelection`, else `empty`. */
  function ShadowSeed<T>(selection: Maybe<T>, defaultSelection: Maybe<T>, empty: T): T
  {
    match selection
    case Defined(s) => s
    case Undefined =>
      match defaultSelection
      case Defined(d) => d
      case Undefined => empty
  }

  /** A multi-select: the selection is a list of values. */
  class MultiSelect<O> {
    const options: seq<O>
    const getValue: O -> string
    /** The `selection` property: defined when the component is controlled. */
    const selection: Maybe<seq<string>>
    const closeOnChange: bool
    const forceSelection: bool
    const enableSelectionOptions: bool
    /** `enabledOptionValues`. */
    const enabledValues: seq<string>
    /** `optionValueToLabel`. */
    const labelMap: map<string, string>

    /** The uncontrolled selection. */
    var shadow: seq<string>
    var isOpen: bool
    /** How many times the popover content was asked to take the focus. */
    var focusRequests: nat
    /** The selections reported through `onSelectionChange`, in order (made whether or not a callback is given). */
    ghost var changes: seq<seq<string>>
    /** The open states reported through `onOpenChange`, in order (made whether or not a callback is given). */
    ghost var openChanges: seq<bool>

    /** A closed select whose shadow selection is seeded from the properties. */
    constructor(options: seq<O>, getValue: O -> string, getLabel: Option<O -> string>, isDisabled: Option<O -> bool>,
                selection: Maybe<seq<string>>, defaultSelection: Maybe<seq<string>>,
                closeOnChange: bool, forceSelection: bool, enableSelectionOptions: bool)
      ensures this.options == options && this.getValue == getValue && this.selection == selection
      ensures this.closeOnChange == closeOnChange && this.forceSelection == forceSelection
      ensures this.enableSelectionOptions == enableSelectionOptions
      ensures enabledValues == EnabledValues(options, getValue, EffectiveDisabled(isDisabled))
      ensures labelMap == LabelMap(options, getValue, EffectiveLabel(getLabel, getValue))
      ensures shadow == ShadowSeed(selection, defaultSelection, [])
      ensures !isOpen && focusRequests == 0 && changes == [] && openChanges == []
    {
      this.options := options;
      this.getValue := getValue;
      this.selection := selection;
      this.closeOnChange := closeOnChange;
      this.forceSelection := forceSelection;
      this.enableSelectionOptions := enableSelectionOptions;
      var enabled, labels := DeriveFacts(options, getValue, EffectiveLabel(getLabel, getValue), EffectiveDisabled(isDisabled));
      enabledValues := enabled;
      labelMap := labels;
      shadow := ShadowSeed(selection, defaultSelection, []);
      isOpen := false;
      focusRequests := 0;
      changes := [];
      openChanges := [];
    }

    /** The selection in effect: the `selection` property when controlled, else the shadow. */
    function Current(): seq<string>
      reads this
    {
      match selection
      case Defined(s) => s
      case Undefined => shadow
    }

    /** `isOptionSelected`. */
    predicate IsSelected(v: string)
      reads this
    {
      v in Current()
    }

    /** `handleOpenChange`: sets the open state and reports it. */
    method HandleOpenChange(open: bool)
      modifies this
      ensures isOpen == open && openChanges == old(openChanges) + [open]
      ensures shadow == old(shadow) && focusRequests == old(focusRequests) && changes == old(changes)
    {
      isOpen := open;
      openChanges := openChanges + [open];
    }

    /**
     * The state after a commit of `next`: it was reported and written to the shadow, then
     * either the popover was closed and `false` reported (`closeOnChange`), or the focus was
     * requested and the open state left alone.
     */
    twostate predicate Committed(next: seq<string>)
      reads this
    {
      && changes == old(changes) + [next] && shadow == next
      && (closeOnChange ==>
            !isOpen && openChanges == old(openChanges) + [false] && focusRequests == old(focusRequests))
      && (!closeOnChange ==>
            isOpen == old(isOpen) && openChanges == old(openChanges) && focusRequests == old(focusRequests) + 1)
    }

    /** Nothing was committed: no report, the same shadow, open state and focus requests. */
    twostate predicate Unmoved()
      reads this
    {
      && changes == old(changes) && shadow == old(shadow)
      && isOpen == old(isOpen) && openChanges == old(openChanges) && focusRequests == old(focusRequests)
    }

    /**
     * `handleSelectionChange`: reports the new selection, writes the shadow (also when
     * controlled), then closes the popover with `closeOnChange` or else asks for the focus.
     */
    method Commit(next: seq<string>)
      modifies this
      ensures Committed(next)
      ensures selection.Undefined? ==> Current() == next
      ensures selection.Defined? ==> Current() == old(Current())
    {
      changes := changes + [next];
      shadow := next;
      if closeOnChange {
        HandleOpenChange(false);
      } else {
        focusRequests := focusRequests + 1;
      }
    }

    /**
     * `handleSelectOption`: commits what the toggle decides, or nothing. With
     * `forceSelection` an uncontrolled non-empty selection stays non-empty.
     */
    method SelectOption(v: string)
      modifies this
      ensures MultiToggle(old(Current()), v, forceSelection).Unchanged? ==> Unmoved()
      ensures MultiToggle(old(Current()), v, forceSelection).Commit? ==>
        var next := MultiToggle(old(Current()), v, forceSelection).next;
        Committed(next) && (selection.Undefined? ==> Current() == next)
      ensures !old(IsSelected(v)) ==> Committed(old(Current()) + [v])
      ensures old(IsSelected(v)) && !forceSelection ==> v !in shadow
      ensures selection.Defined? ==> Current() == old(Current())
      ensures forceSelection && old(Current()) != [] ==> Current() != []
    {
      if Current() != [] {
        ForcedMultiNeverEmpty(Current(), v);
      }
      match MultiToggle(Current(), v, forceSelection)
      case Unchanged =>
      case Commit(next) => Commit(next);
    }

    /** `handleClear`: commits the empty selection. */
    method Clear()
      modifies this
      ensures Committed([])
      ensures selection.Undefined? ==> Current() == []
      ensures selection.Defined? ==> Current() == old(Current())
    {
      Commit([]);
    }

    /** `handleSelectAll`: commits exactly the enabled values, dropping selected values that are not enabled. */
    method SelectAll()
      modifies this
      ensures Committed(enabledValues)
      ensures selection.Undefined? ==> Current() == enabledValues
      ensures selection.Defined? ==> Current() == old(Current())
    {
      Commit(enabledValues);
    }

    /** `isClearDisabled`. */
    predicate IsClearDisabled()
      reads this
    {
      MultiClearDisabled(enableSelectionOptions, forceSelection, Current(), |options|)
    }

    /** `isSelectAllDisabled`. */
    predicate IsSelectAllDisabled()
      reads this
    {
      SelectAllDisabled(enableSelectionOptions, |options|, enabledValues, Current())
    }

    /** The clear button (select-buttons.tsx): a disabled button does nothing; under `forceSelection` it is always disabled. */
    method PressClear()
      modifies this
      ensures old(IsClearDisabled()) ==> Unmoved()
      ensures !old(IsClearDisabled()) ==> Committed([])
      ensures forceSelection ==> Unmoved()
    {
      if !IsClearDisabled() {
        Clear();
      }
    }

    /** The select-all button (select-buttons.tsx): a disabled button does nothing. */
    method PressSelectAll()
      modifies this
      ensures old(IsSelectAllDisabled()) ==> Unmoved()
      ensures !old(IsSelectAllDisabled()) ==> Committed(enabledValues)
    {
      if !IsSelectAllDisabled() {
        SelectAll();
      }
    }

    /** `triggerLabel` in multi mode. */
    function TriggerLabel(): string
      reads this
    {
      MultiLabel(Current(), labelMap)
    }
  }

  /** A single-select: the selection is one value or `null`. */
  class SingleSelect<O> {
    const options: seq<O>
    const getValue: O -> string
    /** The `selection` property: defined when the component is controlled. */
    const selection: Maybe<Option<string>>
    const closeOnChange: bool
    const forceSelection: bool
    const enableSelectionOptions: bool
    /** `optionValueToLabel`. */
    const labelMap: map<string, string>

    /** The uncontrolled selection. */
    var shadow: Option<string>
    var isOpen: bool
    /** How many times the popover content was asked to take the focus. */
    var focusRequests: nat
    /** The selections reported through `onSelectionChange`, in order (made whether or not a callback is given). */
    ghost var changes: seq<Option<string>>
    /** The open states reported through `onOpenChange`, in order (made whether or not a callback is given). */
    ghost var openChanges: seq<bool>

    /** A closed select whose shadow selection is seeded from the properties. */
    constructor(options: seq<O>, getValue: O -> string, getLabel: Option<O -> string>, isDisabled: Option<O -> bool>,
                selection: Maybe<Option<string>>, defaultSelection: Maybe<Option<string>>,
                closeOnChange: bool, forceSelection: bool, enableSelectionOptions: bool)
      ensures this.options == options && this.getValue == getValue && this.selection == selection
      ensures this.closeOnChange == closeOnChange && this.forceSelection == forceSelection
      ensures this.enableSelectionOptions == enableSelectionOptions
      ensures labelMap == LabelMap(options, getValue, EffectiveLabel(getLabel, getValue))
      ensures shadow == ShadowSeed(selection, defaultSelection, None)
      ensures !isOpen && focusRequests == 0 && changes == [] && openChanges == []
    {
      this.options := options;
      this.getValue := getValue;
      this.selection := selection;
      this.closeOnChange := closeOnChange;
      this.forceSelection := forceSelection;
      this.enableSelectionOptions := enableSelectionOptions;
      var _, labels := DeriveFacts(options, getValue, EffectiveLabel(getLabel, getValue), EffectiveDisabled(isDisabled));
      labelMap := labels;
      shadow := ShadowSeed(selection, defaultSelection, None);
      isOpen := false;
      focusRequests := 0;
      changes := [];
      openChanges := [];
    }

    /** The selection in effect: the `selection` property when controlled, else the shadow. */
    function Current(): Option<string>
      reads this
    {
      match selection
      case Defined(s) => s
      case Undefined => shadow
    }

    /** `isOptionSelected`: equality with the selection in effect. */
    predicate IsSelected(v: string)
      reads this
    {
      Current() == Some(v)
    }

    /** `handleOpenChange`: sets the open state and reports it. */
    method HandleOpenChange(open: bool)
      modifies this
      ensures isOpen == open && openChanges == old(openChanges) + [open]
      ensures shadow == old(shadow) && focusRequests == old(focusRequests) && changes == old(changes)
    {
      isOpen := open;
      openChanges := openChanges + [open];
    }

    /**
     * The state after a commit of `next`: it was reported and written to the shadow, then
     * either the popover was closed and `false` reported (`closeOnChange`), or the focus was
     * requested and the open state left alone.
     */
    twostate predicate Committed(next: Option<string>)
      reads this
    {
      && changes == old(changes) + [next] && shadow == next
      && (closeOnChange ==>
            !isOpen && openChanges == old(openChanges) + [false] && focusRequests == old(focusRequests))
      && (!closeOnChange ==>
            isOpen == old(isOpen) && openChanges == old(openChanges) && focusRequests == old(focusRequests) + 1)
    }

    /** Nothing was committed: no report, the same shadow, open state and focus requests. */
    twostate predicate Unmoved()
      reads this
    {
      && changes == old(changes) && shadow == old(shadow)
      && isOpen == old(isOpen) && openChanges == old(openChanges) && focusRequests == old(focusRequests)
    }

    /**
     * `handleSelectionChange`: reports the new selection, writes the shadow (also when
     * controlled), then closes the popover with `closeOnChange` or else asks for the focus.
     */
    method Commit(next: Option<string>)
      modifies this
      ensures Committed(next)
      ensures selection.Undefined? ==> Current() == next
      ensures selection.Defined? ==> Current() == old(Current())
    {
      changes := changes + [next];
      shadow := next;
      if closeOnChange {
        HandleOpenChange(false);
      } else {
        focusRequests := focusRequests + 1;
      }
    }

    /**
     * `handleSelectOption`: commits what the toggle decides, or nothing. With
     * `forceSelection` an uncontrolled selection that holds a value never becomes `null`.
     */
    method SelectOption(v: string)
      modifies this
      ensures SingleToggle(old(Current()), v, forceSelection).Unchanged? ==> Unmoved()
      ensures SingleToggle(old(Current()), v, forceSelection).Commit? ==>
        var next := SingleToggle(old(Current()), v, forceSelection).next;
        Committed(next) && (selection.Undefined? ==> Current() == next)
      ensures !old(IsSelected(v)) ==> Committed(Some(v))
      ensures old(IsSelected(v)) ==> if forceSelection then Unmoved() else Committed(None)
      ensures selection.Defined? ==> Current() == old(Current())
      ensures forceSelection && old(Current()).Some? ==> Current().Some?
    {
      match SingleToggle(Current(), v, forceSelection)
      case Unchanged =>
      case Commit(next) => Commit(next);
    }

    /** `handleClear`: commits `null`. */
    method Clear()
      modifies this
      ensures Committed(None)
      ensures selection.Undefined? ==> Current() == None
      ensures selection.Defined? ==> Current() == old(Current())
    {
      Commit(None);
    }

    /** `isClearDisabled`. */
    predicate IsClearDisabled()
      reads this
    {
      SingleClearDisabled(enableSelectionOptions, forceSelection, Current(), |options|)
    }

    /** The clear button (select-buttons.tsx): a disabled button does nothing; under `forceSelection` it is always disabled. */
    method PressClear()
      modifies this
      ensures old(IsClearDisabled()) ==> Unmoved()
      ensures !old(IsClearDisabled()) ==> Committed(None)
      ensures forceSelection ==> Unmoved()
    {
      if !IsClearDisabled() {
        Clear();
      }
    }

    /** `triggerLabel` in single mode. */
    function TriggerLabel(): string
      reads this
    {
      SingleLabel(Current(), labelMap)
    }
  }
}
