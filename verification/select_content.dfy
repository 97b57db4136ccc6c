/**
 * The state of the open list (select-content.tsx): the committed search, the search waiting
 * for its debounce timer, the focused row, the active sticky header and the rows the list
 * was asked to scroll to; and the events that change it: key presses, the pointer moving
 * over an option, the timer firing and the virtualizer asking for its visible range.
 */
module Content {
  import opened Wrappers
  import opened Sequences
  import opened RowModel
  import opened Navigation

  /** The keys the handler distinguishes. */
  datatype Key = ArrowDown | ArrowUp | Enter | OtherKey

  /** A `keydown` event: its key and modifier flags. */
  datatype KeyEvent = KeyEvent(key: Key, shift: bool, alt: bool, ctrl: bool, meta: bool)

  /** Some modifier key is held. */
  predicate Modified(e: KeyEvent)
  {
    e.shift || e.alt || e.ctrl || e.meta
  }

  /** `initialFocusedOptionIndex`: no focus, or the first option row (behind the first header when grouped). */
  function InitialFocus(initialFocusOnFirstOption: bool, grouped: bool): (r: int)
    ensures r == -1 <==> !initialFocusOnFirstOption
    ensures r != -1 ==> 0 <= r <= 1
  {
    if !initialFocusOnFirstOption then -1 else if grouped then 1 else 0
  }

  /**
   * When focus starts on the first option and the list is not empty, the initial index is
   * the first option row: an option, with only headers before it.
   */
  lemma InitialFocusIsFirstOption<O>(filtered: seq<O>, grouping: Option<O -> string>)
    requires |Build(filtered, grouping).rows| > 0
    ensures var m := Build(filtered, grouping);
      var i := InitialFocus(true, grouping.Some?);
      && 0 <= i < |m.rows| && m.rows[i].Item?
      && forall j :: 0 <= j < i ==> m.rows[j].Header?
  {
    BuildWellFormed(filtered, grouping);
    BuildEmpty(filtered, grouping);
  }

  /**
   * `optionGroupIndexes.findLast((index) => start >= index)`: the last header position, in
   * list order, that is at most `start`.
   */
  function FindLastAtMost(headers: seq<int>, start: int): (r: Option<int>)
    ensures r.None? <==> forall j :: 0 <= j < |headers| ==> headers[j] > start
    ensures r.Some? ==> exists j :: (0 <= j < |headers| && headers[j] == r.value && r.value <= start
      && forall j' :: j < j' < |headers| ==> headers[j'] > start)
  {
    if headers == [] then None
    else if headers[|headers| - 1] <= start then Some(headers[|headers| - 1])
    else
      var r := FindLastAtMost(headers[..|headers| - 1], start);
      assert forall j :: 0 <= j < |headers| - 1 ==> headers[..|headers| - 1][j] == headers[j];
      r
  }

  /** The active sticky header for a range starting at `start`: `findLast(...) ?? 0`. */
  function ActiveHeader(headers: seq<int>, start: int): (r: int)
    ensures r == 0 || (r in headers && r <= start)
    ensures (forall j :: 0 <= j < |headers| ==> headers[j] > start) ==> r == 0
  {
    match FindLastAtMost(headers, start)
    case Some(h) => h
    case None => 0
  }

  /**
   * With ascending header positions the active header is the greatest header position at
   * most `start`, or 0 when every header lies after `start`.
   */
  lemma ActiveHeaderGreatest(headers: seq<int>, start: int)
    requires StrictlyAscending(headers)
    ensures var a := ActiveHeader(headers, start);
      || ((forall j :: 0 <= j < |headers| ==> headers[j] > start) && a == 0)
      || (a in headers && a <= start && forall h :: h in headers && h <= start ==> h <= a)
  {
  }

  /** The list's state, with its properties as constants. */
  class SelectContent<O> {
    const options: seq<O>
    const getValue: O -> string
    const getLabel: O -> string
    const disabled: O -> bool
    const grouping: Option<O -> string>
    const stickyGroups: bool
    const initialFocusOnFirstOption: bool
    const loop: bool

    /** The committed search text. */
    var search: string
    /** The text of the search waiting for the debounce timer, if one is. */
    var pendingSearch: Option<string>
    /** `effectiveOptions` and `optionGroupIndexes`, recomputed when the search changes. */
    var model: Rows<O>
    /** The focused row (the ref and the state kept in step), -1 for none. */
    var focusedIndex: int
    /** The header the range extractor last made sticky. */
    var activeGroupIndex: int
    /** Every index the list was asked to scroll to, in order. */
    ghost var scrolls: seq<int>

    /** The index focus returns to when the search is committed. */
    function Initial(): int
    {
      InitialFocus(initialFocusOnFirstOption, grouping.Some?)
    }

    /**
     * The rows are those of the committed search; the focused row is the initial index or
     * an enabled option row, and whenever it is not -1 and there are rows, it is an option row.
     */
    ghost predicate Valid()
      reads this
    {
      && model == Build(SearchFilter(options, getLabel, search), grouping)
      && WellFormed(model)
      && (focusedIndex == Initial() || ValidIndex(model, disabled, focusedIndex))
      && (focusedIndex != -1 && |model.rows| > 0 ==>
            0 <= focusedIndex < |model.rows| && model.rows[focusedIndex].Item?)
    }

    /** The list as it opens: empty search, nothing pending, focus at the initial index. */
    constructor(options: seq<O>, getValue: O -> string, getLabel: O -> string, disabled: O -> bool,
                grouping: Option<O -> string>, stickyGroups: bool, initialFocusOnFirstOption: bool, loop: bool)
      ensures this.options == options && this.getValue == getValue && this.getLabel == getLabel
      ensures this.disabled == disabled && this.grouping == grouping && this.stickyGroups == stickyGroups
      ensures this.initialFocusOnFirstOption == initialFocusOnFirstOption && this.loop == loop
      ensures search == "" && pendingSearch == None && activeGroupIndex == -1 && scrolls == []
      ensures focusedIndex == InitialFocus(initialFocusOnFirstOption, grouping.Some?)
      ensures Valid()
    {
      this.options := options;
      this.getValue := getValue;
      this.getLabel := getLabel;
      this.disabled := disabled;
      this.grouping := grouping;
      this.stickyGroups := stickyGroups;
      this.initialFocusOnFirstOption := initialFocusOnFirstOption;
      this.loop := loop;
      search := "";
      pendingSearch := None;
      var filtered := SearchFilter(options, getLabel, "");
      var rows := BuildRows(filtered, grouping);
      model := rows;
      focusedIndex := InitialFocus(initialFocusOnFirstOption, grouping.Some?);
      activeGroupIndex := -1;
      scrolls := [];
      BuildWellFormed(filtered, grouping);
      if initialFocusOnFirstOption && |rows.rows| > 0 {
        InitialFocusIsFirstOption(filtered, grouping);
      }
    }

    /**
     * `handleKeyDown`. With no rows or a modifier held nothing happens. An arrow moves focus
     * to the next valid row in its direction and scrolls there. Enter, unless focus is at -1
     * or inside the selection buttons, selects the focused option's value when that option
     * is not disabled; the value returned is what `handleSelectOption` receives.
     */
    method HandleKeyDown(e: KeyEvent, focusInButtons: bool) returns (selected: Option<string>)
      requires Valid()
      modifies this
      ensures Valid()
      ensures model == old(model) && search == old(search) && pendingSearch == old(pendingSearch)
      ensures activeGroupIndex == old(activeGroupIndex)
      ensures |model.rows| == 0 || Modified(e) || e.key !in {ArrowDown, ArrowUp} ==>
        focusedIndex == old(focusedIndex) && scrolls == old(scrolls)
      ensures |model.rows| > 0 && !Modified(e) && e.key in {ArrowDown, ArrowUp} ==>
        var dir := if e.key == ArrowDown then Down else Up;
        && focusedIndex == FirstValid(model, disabled, Probe(|model.rows|, loop, old(focusedIndex), dir), old(focusedIndex))
        && scrolls == old(scrolls) + [focusedIndex]
      ensures selected.Some? <==>
        && |model.rows| > 0 && !Modified(e) && e.key == Enter && !focusInButtons && focusedIndex != -1
        && !disabled(model.rows[focusedIndex].option)
      ensures selected.Some? ==> selected.value == getValue(model.rows[focusedIndex].option)
    {
      if |model.rows| == 0 || e.shift || e.alt || e.ctrl || e.meta {
        return None;
      }
      var c := focusedIndex;
      match e.key
      case ArrowDown =>
        var next := NextValidIndex(model, disabled, loop, c, Down);
        focusedIndex := next;
        scrolls := scrolls + [next];
        selected := None;
      case ArrowUp =>
        var prev := NextValidIndex(model, disabled, loop, c, Up);
        focusedIndex := prev;
        scrolls := scrolls + [prev];
        selected := None;
      case Enter =>
        if c == -1 || focusInButtons {
          return None;
        }
        var option := model.rows[c].option;
        if !disabled(option) {
          selected := Some(getValue(option));
        } else {
          selected := None;
        }
      case OtherKey =>
        selected := None;
    }

    /**
     * The pointer moves over the option in row `i` (select-option.tsx): an enabled option
     * takes the focus; over a disabled one there is no handler.
     */
    method PointerOver(i: int)
      requires Valid() && 0 <= i < |model.rows| && i !in model.headers
      modifies this
      ensures Valid()
      ensures model == old(model) && search == old(search) && pendingSearch == old(pendingSearch)
      ensures activeGroupIndex == old(activeGroupIndex) && scrolls == old(scrolls)
      ensures focusedIndex == if ValidIndex(model, disabled, i) then i else old(focusedIndex)
    {
      if !disabled(model.rows[i].option) {
        focusedIndex := i;
      }
    }

    /**
     * A click on the option in row `i` (select-option.tsx): an enabled option's value goes
     * to `handleSelectOption`; a disabled one has no handler. Nothing in the list changes.
     */
    method Click(i: int) returns (selected: Option<string>)
      requires Valid() && 0 <= i < |model.rows| && i !in model.headers
      ensures selected.Some? <==> ValidIndex(model, disabled, i)
      ensures ValidIndex(model, disabled, i) ==> selected == Some(getValue(model.rows[i].option))
    {
      var option := model.rows[i].option;
      if disabled(option) {
        selected := None;
      } else {
        selected := Some(getValue(option));
      }
    }

    /** Typing in the search box: the new text replaces any search still waiting for the timer. */
    method SearchInput(text: string)
      requires Valid()
      modifies this
      ensures Valid()
      ensures pendingSearch == Some(text)
      ensures model == old(model) && search == old(search) && focusedIndex == old(focusedIndex)
      ensures activeGroupIndex == old(activeGroupIndex) && scrolls == old(scrolls)
    {
      pendingSearch := Some(text);
    }

    /**
     * The debounce timer fires: the waiting text becomes the search, the rows are recomputed
     * for it, focus returns to the initial index and the list scrolls back to row 0. Without
     * a waiting search nothing happens.
     */
    method SearchTimerFires()
      requires Valid()
      modifies this
      ensures Valid()
      ensures pendingSearch == None && activeGroupIndex == old(activeGroupIndex)
      ensures old(pendingSearch).None? ==>
        model == old(model) && search == old(search) && focusedIndex == old(focusedIndex) && scrolls == old(scrolls)
      ensures old(pendingSearch).Some? ==>
        && search == old(pendingSearch).value
        && model == Build(SearchFilter(options, getLabel, search), grouping)
        && focusedIndex == InitialFocus(initialFocusOnFirstOption, grouping.Some?)
        && scrolls == old(scrolls) + [0]
    {
      if pendingSearch.Some? {
        search := pendingSearch.value;
        var filtered := SearchFilter(options, getLabel, search);
        model := BuildRows(filtered, grouping);
        focusedIndex := Initial();
        scrolls := scrolls + [0];
        pendingSearch := None;
        BuildWellFormed(filtered, grouping);
        if initialFocusOnFirstOption && |model.rows| > 0 {
          InitialFocusIsFirstOption(filtered, grouping);
        }
      }
    }

    /** The sticky-range extractor exists only with grouping and sticky groups. */
    predicate HasRangeExtractor()
    {
      grouping.Some? && stickyGroups
    }

    /**
     * `rangeExtractor(range)`: records the active header for the range's first row and
     * returns the default extractor's indices together with that header, ascending and
     * without duplicates.
     */
    method ExtractRange(start: int, defaults: seq<int>) returns (r: seq<int>)
      requires Valid() && HasRangeExtractor()
      modifies this
      ensures Valid()
      ensures activeGroupIndex == ActiveHeader(model.headers, start)
      ensures StrictlyAscending(r)
      ensures forall i :: i in r <==> i == activeGroupIndex || i in defaults
      ensures model == old(model) && search == old(search) && pendingSearch == old(pendingSearch)
      ensures focusedIndex == old(focusedIndex) && scrolls == old(scrolls)
    {
      activeGroupIndex := ActiveHeader(model.headers, start);
      r := SortedUnique([activeGroupIndex] + defaults);
    }
  }
}
