/**
 * Keyboard navigation over the row model (`getNextValidOptionIndex` in select-content.tsx):
 * from the focused row, find the next row in the arrow's direction that is an enabled
 * option, either stopping at the ends of the list or wrapping around when `loop` is set.
 *
 * The scan is specified by the order in which it probes rows (`Probe`) and the rule that
 * the first enabled option probed wins (`FirstValid`); the lemmas turn that into the
 * plain statements "least enabled option below", "greatest enabled option above" and
 * "first enabled option met cyclically".
 */
module Navigation {
  import opened RowModel

  /** The arrow key pressed. */
  datatype Direction = Up | Down

  /** `isValidIndex`: in bounds, not a header position, and an option that is not disabled. */
  predicate ValidIndex<O>(m: Rows<O>, disabled: O -> bool, i: int)
  {
    0 <= i < |m.rows| && i !in m.headers && m.rows[i].Item? && !disabled(m.rows[i].option)
  }

  /** On a well-formed row model the row-kind test is implied by the header-position test. */
  lemma ValidIndexIff<O>(m: Rows<O>, disabled: O -> bool, i: int)
    requires WellFormed(m)
    ensures ValidIndex(m, disabled, i) <==>
      0 <= i < |m.rows| && i !in m.headers && !disabled(m.rows[i].option)
  {
  }

  /** The step of one key press: `+1` down, `-1` up. */
  function Inc(dir: Direction): int
  {
    if dir == Down then 1 else -1
  }

  /** The looping bounds rule: past the last row goes to row 0, before row 0 goes to the last row. */
  function Wrap(n: int, i: int): int
  {
    if i > n - 1 then 0 else if i < 0 then n - 1 else i
  }

  /**
   * The first row probed: one step from the current index, except that without `loop` an
   * index of -1 starts at row 0 going down and at the last row going up; with `loop` the
   * step is wrapped.
   */
  function Seed(n: int, loop: bool, c: int, dir: Direction): int
  {
    var next := if !loop && c == -1 then (if dir == Up then n - 1 else 0) else c + Inc(dir);
    if loop then Wrap(n, next) else next
  }

  /** The row probed `k` steps after the seed `s`: straight on without `loop`, cyclically with it. */
  function Pos(n: int, loop: bool, dir: Direction, s: int, k: int): int
  {
    if !loop then (if dir == Down then s + k else s - k)
    else if dir == Down then (if s + k < n then s + k else s + k - n)
    else (if s - k >= 0 then s - k else s - k + n)
  }

  /**
   * How many rows are probed: every row once with `loop`; without it, the rows from the seed
   * to the end of the list in the arrow's direction (none when the seed is out of bounds).
   */
  function Span(n: int, loop: bool, dir: Direction, s: int): nat
  {
    if loop then (if n < 0 then 0 else n)
    else if !(0 <= s < n) then 0
    else if dir == Down then n - s
    else s + 1
  }

  /** The rows the scan looks at, in the order it looks at them. */
  function Probe(n: int, loop: bool, c: int, dir: Direction): (p: seq<int>)
    ensures |p| == Span(n, loop, dir, Seed(n, loop, c, dir))
  {
    var s := Seed(n, loop, c, dir);
    seq(Span(n, loop, dir, s), k requires 0 <= k => Pos(n, loop, dir, s, k))
  }

  /** The first probed row that is valid, or the current index `c` when there is none. */
  function FirstValid<O>(m: Rows<O>, disabled: O -> bool, probe: seq<int>, c: int): (r: int)
    ensures r == c || (r in probe && ValidIndex(m, disabled, r))
  {
    if probe == [] then c
    else if ValidIndex(m, disabled, probe[0]) then probe[0]
    else FirstValid(m, disabled, probe[1..], c)
  }

  /** `probe[k]` is valid and no earlier probed row is. */
  predicate FirstValidAt<O>(m: Rows<O>, disabled: O -> bool, probe: seq<int>, k: int)
  {
    && 0 <= k < |probe|
    && ValidIndex(m, disabled, probe[k])
    && (forall j :: 0 <= j < k ==> !ValidIndex(m, disabled, probe[j]))
  }

  /** `FirstValid` is the current index when nothing probed is valid, and else the first valid probe. */
  lemma {:induction false} FirstValidChar<O>(m: Rows<O>, disabled: O -> bool, probe: seq<int>, c: int)
    ensures || ((forall j :: 0 <= j < |probe| ==> !ValidIndex(m, disabled, probe[j]))
                && FirstValid(m, disabled, probe, c) == c)
            || (exists k :: FirstValidAt(m, disabled, probe, k) && FirstValid(m, disabled, probe, c) == probe[k])
  {
    if probe != [] && !ValidIndex(m, disabled, probe[0]) {
      var rest := probe[1..];
      FirstValidChar(m, disabled, rest, c);
      if exists k :: FirstValidAt(m, disabled, rest, k) && FirstValid(m, disabled, rest, c) == rest[k] {
        var k :| FirstValidAt(m, disabled, rest, k) && FirstValid(m, disabled, rest, c) == rest[k];
        assert FirstValidAt(m, disabled, probe, k + 1);
      } else {
        forall j | 0 <= j < |probe| ensures !ValidIndex(m, disabled, probe[j]) {
          if j > 0 { assert probe[j] == rest[j - 1]; }
        }
      }
    } else if probe != [] {
      assert FirstValidAt(m, disabled, probe, 0);
    }
  }

  /** Skipping probed rows that are not valid does not change the outcome. */
  lemma FirstValidSkip<O>(m: Rows<O>, disabled: O -> bool, probe: seq<int>, k: int, c: int)
    requires 0 <= k < |probe| && !ValidIndex(m, disabled, probe[k])
    ensures FirstValid(m, disabled, probe[k..], c) == FirstValid(m, disabled, probe[k + 1..], c)
  {
    assert probe[k..][1..] == probe[k + 1..];
  }

  /** The scan starts at the seed, which is probed first. */
  lemma ProbeStart(n: int, loop: bool, c: int, dir: Direction)
    requires 0 <= Seed(n, loop, c, dir) < n
    ensures |Probe(n, loop, c, dir)| > 0 && Probe(n, loop, c, dir)[0] == Seed(n, loop, c, dir)
  {
  }

  /**
   * One step of the scan from the `k`-th probed row: it reaches the next probed row; it
   * leaves the bounds (without `loop`) or comes back to the seed (with `loop`) exactly when
   * the probe is used up; and it meets the current index only at the last probed row.
   */
  lemma ProbeStep(n: int, loop: bool, c: int, dir: Direction, k: int)
    requires n > 0 && 0 <= k < |Probe(n, loop, c, dir)|
    ensures var probe := Probe(n, loop, c, dir);
      var q := if loop then Wrap(n, probe[k] + Inc(dir)) else probe[k] + Inc(dir);
      && 0 <= probe[k] < n
      && (!loop ==> (0 <= q < n <==> k + 1 < |probe|))
      && (loop ==> (q == probe[0] <==> k + 1 == |probe|))
      && (k + 1 < |probe| ==> q == probe[k + 1])
      && (q == c && k + 1 < |probe| ==> k + 1 == |probe| - 1 && probe[k + 1] == c)
  {
    var s := Seed(n, loop, c, dir);
    var probe := Probe(n, loop, c, dir);
    assert probe[k] == Pos(n, loop, dir, s, k);
    assert probe[0] == s;
    if k + 1 < |probe| {
      assert probe[k + 1] == Pos(n, loop, dir, s, k + 1);
    }
    if loop && 0 <= c < n {
      assert Pos(n, loop, dir, s, n - 1) == c;
    }
  }

  /** Once only the current index is left to probe, the outcome is the current index. */
  lemma FirstValidEnd<O>(m: Rows<O>, disabled: O -> bool, probe: seq<int>, k: int, c: int)
    requires 0 <= k <= |probe|
    requires k == |probe| || (k == |probe| - 1 && probe[k] == c)
    ensures FirstValid(m, disabled, probe[k..], c) == c
  {
    if k < |probe| {
      assert probe[k..] == [c];
    }
  }

  /** The first valid probed row is the outcome. */
  lemma FirstValidIsAt<O>(m: Rows<O>, disabled: O -> bool, probe: seq<int>, k: int, c: int)
    requires FirstValidAt(m, disabled, probe, k)
    ensures FirstValid(m, disabled, probe, c) == probe[k]
  {
    FirstValidChar(m, disabled, probe, c);
    if exists k' :: FirstValidAt(m, disabled, probe, k') && FirstValid(m, disabled, probe, c) == probe[k'] {
      var k' :| FirstValidAt(m, disabled, probe, k') && FirstValid(m, disabled, probe, c) == probe[k'];
      assert !(k' < k) && !(k < k');
    }
  }

  /**
   * When no row before `k` is valid and the probe ends at `k`, or ends at `k` with the current
   * index, the outcome is the current index.
   */
  lemma FirstValidNone<O>(m: Rows<O>, disabled: O -> bool, probe: seq<int>, k: int, c: int)
    requires 0 <= k <= |probe| && forall j :: 0 <= j < k ==> !ValidIndex(m, disabled, probe[j])
    requires k == |probe| || (k == |probe| - 1 && probe[k] == c)
    ensures FirstValid(m, disabled, probe, c) == c
  {
    FirstValidChar(m, disabled, probe, c);
    if exists k' :: FirstValidAt(m, disabled, probe, k') && FirstValid(m, disabled, probe, c) == probe[k'] {
      var k' :| FirstValidAt(m, disabled, probe, k') && FirstValid(m, disabled, probe, c) == probe[k'];
      assert k' == k;
    }
  }

  /**
   * One step of the scan from the `k`-th probed row to `q`: when the step leaves the bounds
   * (without `loop`), meets the current index or comes back to the seed, the probe is used up
   * or only the current index is left in it; otherwise the step lands on the next probed row.
   */
  lemma ProbeMove(n: int, loop: bool, c: int, dir: Direction, k: int, q: int)
    requires n > 0 && 0 <= k < |Probe(n, loop, c, dir)|
    requires q == if loop then Wrap(n, Probe(n, loop, c, dir)[k] + Inc(dir)) else Probe(n, loop, c, dir)[k] + Inc(dir)
    ensures var probe := Probe(n, loop, c, dir);
      if (!loop && (q > n - 1 || q < 0)) || q == c || q == probe[0]
      then k + 1 == |probe| || (k + 1 == |probe| - 1 && probe[k + 1] == c)
      else k + 1 < |probe| && q == probe[k + 1]
  {
    var probe := Probe(n, loop, c, dir);
    ProbeStep(n, loop, c, dir, k);
    if !loop {
      var s := Seed(n, loop, c, dir);
      assert probe[k] == Pos(n, loop, dir, s, k) && probe[0] == s;
    }
  }

  /**
   * One step of the scan from the `k`-th probed row, which is not valid, to `q`. When the
   * step leaves the bounds (without `loop`), meets the current index or comes back to the
   * seed, the outcome of the rest of the probe is the current index; otherwise the step
   * lands on the next probed row and the outcome is that of the probe from there.
   */
  lemma ProbeAdvance<O>(m: Rows<O>, disabled: O -> bool, loop: bool, c: int, dir: Direction,
                        probe: seq<int>, k: int, q: int)
    requires |m.rows| > 0 && probe == Probe(|m.rows|, loop, c, dir)
    requires 0 <= k < |probe| && !ValidIndex(m, disabled, probe[k])
    requires q == if loop then Wrap(|m.rows|, probe[k] + Inc(dir)) else probe[k] + Inc(dir)
    ensures (!loop && (q > |m.rows| - 1 || q < 0)) || q == c || q == probe[0] ==>
      FirstValid(m, disabled, probe[k..], c) == c
    ensures !((!loop && (q > |m.rows| - 1 || q < 0)) || q == c || q == probe[0]) ==>
      && k + 1 < |probe| && q == probe[k + 1]
      && FirstValid(m, disabled, probe[k..], c) == FirstValid(m, disabled, probe[k + 1..], c)
  {
    var n := |m.rows|;
    ProbeMove(n, loop, c, dir, k, q);
    FirstValidSkip(m, disabled, probe, k, c);
    if (!loop && (q > n - 1 || q < 0)) || q == c || q == probe[0] {
      FirstValidEnd(m, disabled, probe, k + 1, c);
    }
  }

  /**
   * `getNextValidOptionIndex`, with the scan's termination made unconditional: besides
   * stopping when it comes back to the current index, the scan also stops when it comes
   * back to the row it started from. With `loop`, a current index outside the rows and no
   * valid row, the scan as written never reaches the current index and runs forever (see
   * `AsWrittenNeverReturns`); everywhere else the two agree (see `AsWrittenAgreesFromSeed`). The row list is non-empty, as the key handler checks.
   */
  method NextValidIndex<O>(m: Rows<O>, disabled: O -> bool, loop: bool, c: int, dir: Direction)
    returns (r: int)
    requires |m.rows| > 0
    ensures r == FirstValid(m, disabled, Probe(|m.rows|, loop, c, dir), c)
    ensures r == c || ValidIndex(m, disabled, r)
  {
    var last := |m.rows| - 1;
    var inc := if dir == Down then 1 else -1;
    var next := c;
    if !loop && c == -1 {
      next := if dir == Up then last else 0;
    } else {
      next := next + inc;
    }
    if loop {
      if next > last {
        next := 0;
      } else if next < 0 {
        next := last;
      }
    } else if next > last || next < 0 {
      assert |Probe(|m.rows|, loop, c, dir)| == 0;
      return c;
    }
    r := ScanFrom(m, disabled, loop, c, dir, next);
  }

  /** The `while` loop of `getNextValidOptionIndex`, from the seed row `start`. */
  method ScanFrom<O>(m: Rows<O>, disabled: O -> bool, loop: bool, c: int, dir: Direction, start: int)
    returns (r: int)
    requires |m.rows| > 0 && start == Seed(|m.rows|, loop, c, dir) && 0 <= start < |m.rows|
    ensures r == FirstValid(m, disabled, Probe(|m.rows|, loop, c, dir), c)
  {
    var n := |m.rows|;
    var last := n - 1;
    var inc := if dir == Down then 1 else -1;
    var next := start;
    ghost var probe := Probe(n, loop, c, dir);
    ghost var k := 0;
    ProbeStart(n, loop, c, dir);
    while !ValidIndex(m, disabled, next)
      invariant 0 <= k < |probe| && next == probe[k] && start == probe[0]
      invariant forall j :: 0 <= j < k ==> !ValidIndex(m, disabled, probe[j])
      decreases |probe| - k
    {
      if loop {
        next := next + inc;
        if next > last {
          next := 0;
        } else if next < 0 {
          next := last;
        }
      } else {
        next := next + inc;
        if next > last || next < 0 {
          ProbeMove(n, loop, c, dir, k, next);
          FirstValidNone(m, disabled, probe, k + 1, c);
          return c;
        }
      }
      ProbeMove(n, loop, c, dir, k, next);
      if next == c || next == start {
        FirstValidNone(m, disabled, probe, k + 1, c);
        return c;
      }
      k := k + 1;
    }
    FirstValidIsAt(m, disabled, probe, k, c);
    return next;
  }

  // ---------------------------------------------------------------------------
  // What the scan finds

  /**
   * Down without `loop`, from -1 or a row: the least valid row below the current index,
   * or the current index when there is none.
   */
  lemma NoLoopDown<O>(m: Rows<O>, disabled: O -> bool, c: int)
    requires |m.rows| > 0 && c >= -1
    ensures var r := FirstValid(m, disabled, Probe(|m.rows|, false, c, Down), c);
      && (r == c || (c < r && ValidIndex(m, disabled, r)))
      && (forall j :: c < j < r ==> !ValidIndex(m, disabled, j))
      && (r == c ==> forall j :: c < j ==> !ValidIndex(m, disabled, j))
  {
    var probe := Probe(|m.rows|, false, c, Down);
    var r := FirstValid(m, disabled, probe, c);
    assert forall k :: 0 <= k < |probe| ==> probe[k] == c + 1 + k;
    FirstValidChar(m, disabled, probe, c);
    forall j | c < j && (r == c || j < r) ensures !ValidIndex(m, disabled, j) {
      if j < |m.rows| {
        assert probe[j - c - 1] == j;
      }
    }
  }

  /**
   * Up without `loop`: the greatest valid row above the current index (from -1: the
   * greatest valid row of all), or the current index when there is none.
   */
  lemma NoLoopUp<O>(m: Rows<O>, disabled: O -> bool, c: int)
    requires |m.rows| > 0 && c <= |m.rows|
    ensures var top := if c == -1 then |m.rows| else c;
      var r := FirstValid(m, disabled, Probe(|m.rows|, false, c, Up), c);
      && (r == c || (r < top && ValidIndex(m, disabled, r)))
      && (forall j :: r < j < top ==> !ValidIndex(m, disabled, j))
      && (r == c ==> forall j :: j < top ==> !ValidIndex(m, disabled, j))
  {
    var top := if c == -1 then |m.rows| else c;
    var probe := Probe(|m.rows|, false, c, Up);
    var r := FirstValid(m, disabled, probe, c);
    assert forall k :: 0 <= k < |probe| ==> probe[k] == top - 1 - k;
    FirstValidChar(m, disabled, probe, c);
    forall j | j < top && (r == c || r < j) ensures !ValidIndex(m, disabled, j) {
      if 0 <= j {
        assert probe[top - 1 - j] == j;
      }
    }
  }

  /**
   * With `loop` every row is probed exactly once, in cyclic order starting one step from the
   * current index; when the current index is a row, it is probed last.
   */
  lemma LoopProbeCovers(n: int, c: int, dir: Direction, j: int) returns (i: int)
    requires n > 0 && 0 <= j < n
    ensures |Probe(n, true, c, dir)| == n
    ensures 0 <= i < n && Probe(n, true, c, dir)[i] == j
    ensures 0 <= c < n ==> Probe(n, true, c, dir)[n - 1] == c
    ensures forall a, b :: 0 <= a < b < n ==> Probe(n, true, c, dir)[a] != Probe(n, true, c, dir)[b]
  {
    var s := Seed(n, true, c, dir);
    if dir == Down {
      i := if j >= s then j - s else j - s + n;
    } else {
      i := if s >= j then s - j else s - j + n;
    }
  }

  /**
   * With `loop`: the result is the current index exactly when no row other than the current
   * one is valid; otherwise it is the first valid row met cyclically after the current index.
   */
  lemma LoopResult<O>(m: Rows<O>, disabled: O -> bool, c: int, dir: Direction)
    requires |m.rows| > 0
    ensures var probe := Probe(|m.rows|, true, c, dir);
      var r := FirstValid(m, disabled, probe, c);
      && (r == c <==> forall j :: 0 <= j < |m.rows| && j != c ==> !ValidIndex(m, disabled, j))
      && (r != c ==> exists k :: FirstValidAt(m, disabled, probe, k) && r == probe[k])
  {
    var n := |m.rows|;
    var probe := Probe(n, true, c, dir);
    var r := FirstValid(m, disabled, probe, c);
    var _ := LoopProbeCovers(n, c, dir, 0);
    FirstValidChar(m, disabled, probe, c);
    if r == c {
      forall j | 0 <= j < n && j != c ensures !ValidIndex(m, disabled, j) {
        var i := LoopProbeCovers(n, c, dir, j);
        if exists k :: FirstValidAt(m, disabled, probe, k) && r == probe[k] {
          var k :| FirstValidAt(m, disabled, probe, k) && r == probe[k];
          assert k == n - 1 && i < k;
        }
      }
    } else {
      var k :| FirstValidAt(m, disabled, probe, k) && r == probe[k];
      assert probe[k] != c && ValidIndex(m, disabled, probe[k]);
    }
  }

  // ---------------------------------------------------------------------------
  // The scan as written

  /** The scan loop part-way: still running at a row, or returned with a result. */
  datatype Scan = Running(next: int) | Returned(r: int)

  /**
   * The `while` loop of `getNextValidOptionIndex` exactly as written, run for at most `fuel`
   * steps from row `next`: its only exits are a valid row, leaving the bounds without
   * `loop`, and coming back to the current index `c`.
   */
  function ScanAsWritten<O>(m: Rows<O>, disabled: O -> bool, loop: bool, c: int, dir: Direction, next: int, fuel: nat): (s: Scan)
    ensures s.Returned? ==> s.r == c || ValidIndex(m, disabled, s.r)
    ensures s.Running? ==> !ValidIndex(m, disabled, s.next)
    decreases fuel
  {
    if ValidIndex(m, disabled, next) then Returned(next)
    else if fuel == 0 then Running(next)
    else
      var n := |m.rows|;
      var stepped := if loop then Wrap(n, next + Inc(dir)) else next + Inc(dir);
      if !loop && (stepped > n - 1 || stepped < 0) then Returned(c)
      else if stepped == c then Returned(c)
      else ScanAsWritten(m, disabled, loop, c, dir, stepped, fuel - 1)
  }

  /**
   * With `loop`, no valid row and a current index that is not a row (such as the initial -1),
   * the scan as written keeps running however many steps it is given.
   */
  lemma {:induction false} AsWrittenNeverReturns<O>(m: Rows<O>, disabled: O -> bool, c: int, dir: Direction, next: int, fuel: nat)
    requires |m.rows| > 0 && !(0 <= c < |m.rows|) && 0 <= next < |m.rows|
    requires forall j :: !ValidIndex(m, disabled, j)
    ensures ScanAsWritten(m, disabled, true, c, dir, next, fuel).Running?
    decreases fuel
  {
    if fuel > 0 {
      AsWrittenNeverReturns(m, disabled, c, dir, Wrap(|m.rows|, next + Inc(dir)), fuel - 1);
    }
  }

  /**
   * The smallest case: one disabled option, focus at -1, `loop` on, ArrowDown. The scan as
   * written never returns, while `NextValidIndex` returns -1.
   */
  lemma OneDisabledOptionHangs<O>(o: O, fuel: nat)
    ensures var m := Rows([Item(o)], []);
      var disabled := (x: O) => true;
      && Seed(1, true, -1, Down) == 0
      && ScanAsWritten(m, disabled, true, -1, Down, 0, fuel).Running?
      && FirstValid(m, disabled, Probe(1, true, -1, Down), -1) == -1
  {
    var m := Rows([Item(o)], []);
    var disabled := (x: O) => true;
    AsWrittenNeverReturns(m, disabled, -1, Down, 0, fuel);
    FirstValidChar(m, disabled, Probe(1, true, -1, Down), -1);
  }

  /** With `loop` and a current index that is a row, the probe has every row and ends at the current index. */
  lemma LoopProbeLast(n: int, c: int, dir: Direction)
    requires 0 <= c < n
    ensures |Probe(n, true, c, dir)| == n && Probe(n, true, c, dir)[n - 1] == c
  {
    assert Pos(n, true, dir, Seed(n, true, c, dir), n - 1) == c;
  }

  /** One step of the scan as written from a row that is not valid, with fuel left. */
  lemma ScanAsWrittenStep<O>(m: Rows<O>, disabled: O -> bool, loop: bool, c: int, dir: Direction, next: int, fuel: nat, q: int)
    requires fuel > 0 && !ValidIndex(m, disabled, next)
    requires q == if loop then Wrap(|m.rows|, next + Inc(dir)) else next + Inc(dir)
    ensures !loop && (q > |m.rows| - 1 || q < 0) ==> ScanAsWritten(m, disabled, loop, c, dir, next, fuel) == Returned(c)
    ensures q == c ==> ScanAsWritten(m, disabled, loop, c, dir, next, fuel) == Returned(c)
    ensures (loop || 0 <= q < |m.rows|) && q != c ==>
      ScanAsWritten(m, disabled, loop, c, dir, next, fuel) == ScanAsWritten(m, disabled, loop, c, dir, q, fuel - 1)
  {
  }

  /**
   * When the scan as written steps on from the `k`-th probed row, it steps to the next
   * probed row, and the conditions for going on hold there too.
   */
  lemma ScanContinues<O>(m: Rows<O>, disabled: O -> bool, loop: bool, c: int, dir: Direction,
                         probe: seq<int>, k: int, q: int)
    requires |m.rows| > 0 && probe == Probe(|m.rows|, loop, c, dir) && 0 <= k < |probe|
    requires loop && 0 <= c < |m.rows| && |m.rows| > 1 ==> k < |m.rows| - 1
    requires loop && !(0 <= c < |m.rows|) ==> exists j :: k <= j < |probe| && ValidIndex(m, disabled, probe[j])
    requires !ValidIndex(m, disabled, probe[k])
    requires q == if loop then Wrap(|m.rows|, probe[k] + Inc(dir)) else probe[k] + Inc(dir)
    requires (loop || 0 <= q < |m.rows|) && q != c
    ensures k + 1 < |probe| && q == probe[k + 1]
    ensures loop && 0 <= c < |m.rows| && |m.rows| > 1 ==> k + 1 < |m.rows| - 1
    ensures loop && !(0 <= c < |m.rows|) ==> exists j :: k + 1 <= j < |probe| && ValidIndex(m, disabled, probe[j])
  {
    var n := |m.rows|;
    ProbeStep(n, loop, c, dir, k);
    if loop {
      if 0 <= c < n {
        LoopProbeLast(n, c, dir);
      } else {
        var j :| k <= j < |probe| && ValidIndex(m, disabled, probe[j]);
        assert j != k;
      }
    }
  }

  /**
   * Started at the `k`-th probed row with enough steps, and before the current row when
   * `loop` is on and the current index is a row (the probe visits it last, and the code as
   * written steps on past it instead of returning it), the scan as written returns what
   * `FirstValid` picks from the rest of the probe, unless it is in the one case where it
   * cannot stop: `loop`, a current index that is not a row and no valid row left to probe.
   */
  lemma {:induction false} AsWrittenAgrees<O>(m: Rows<O>, disabled: O -> bool, loop: bool, c: int, dir: Direction,
                                               probe: seq<int>, k: int, fuel: nat)
    requires |m.rows| > 0 && probe == Probe(|m.rows|, loop, c, dir)
    requires 0 <= k < |probe| && fuel >= |probe| - k
    requires loop && 0 <= c < |m.rows| && |m.rows| > 1 ==> k < |m.rows| - 1
    requires loop && !(0 <= c < |m.rows|) ==> exists j :: k <= j < |probe| && ValidIndex(m, disabled, probe[j])
    ensures ScanAsWritten(m, disabled, loop, c, dir, probe[k], fuel) == Returned(FirstValid(m, disabled, probe[k..], c))
    decreases |probe| - k
  {
    var rest := FirstValid(m, disabled, probe[k..], c);
    if ValidIndex(m, disabled, probe[k]) {
      assert probe[k..][0] == probe[k];
      assert rest == probe[k];
      return;
    }
    FirstValidSkip(m, disabled, probe, k, c);
    assert rest == FirstValid(m, disabled, probe[k + 1..], c);
    var q := if loop then Wrap(|m.rows|, probe[k] + Inc(dir)) else probe[k] + Inc(dir);
    ScanAsWrittenStep(m, disabled, loop, c, dir, probe[k], fuel, q);
    if (!loop && (q > |m.rows| - 1 || q < 0)) || q == c {
      ProbeAdvance(m, disabled, loop, c, dir, probe, k, q);
      assert rest == c;
      assert ScanAsWritten(m, disabled, loop, c, dir, probe[k], fuel) == Returned(c);
    } else {
      ScanContinues(m, disabled, loop, c, dir, probe, k, q);
      AsWrittenAgrees(m, disabled, loop, c, dir, probe, k + 1, fuel - 1);
      assert ScanAsWritten(m, disabled, loop, c, dir, probe[k], fuel)
          == ScanAsWritten(m, disabled, loop, c, dir, probe[k + 1], fuel - 1);
    }
  }

  /**
   * From the seed row and with as many steps as there are rows, the scan as written returns
   * exactly what `NextValidIndex` returns, except with `loop`, a current index that is not
   * a row and no valid row (where `AsWrittenNeverReturns` shows it runs on).
   */
  lemma AsWrittenAgreesFromSeed<O>(m: Rows<O>, disabled: O -> bool, loop: bool, c: int, dir: Direction)
    requires |m.rows| > 0 && 0 <= Seed(|m.rows|, loop, c, dir) < |m.rows|
    requires loop && !(0 <= c < |m.rows|) ==> exists j :: ValidIndex(m, disabled, j)
    ensures ScanAsWritten(m, disabled, loop, c, dir, Seed(|m.rows|, loop, c, dir), |m.rows|)
      == Returned(FirstValid(m, disabled, Probe(|m.rows|, loop, c, dir), c))
  {
    var n := |m.rows|;
    var probe := Probe(n, loop, c, dir);
    ProbeStart(n, loop, c, dir);
    assert probe[0..] == probe;
    if loop && !(0 <= c < n) {
      var j :| ValidIndex(m, disabled, j);
      var i := LoopProbeCovers(n, c, dir, j);
      assert 0 <= i < |probe| && ValidIndex(m, disabled, probe[i]);
    }
    if loop {
      var _ := LoopProbeCovers(n, c, dir, 0);
    }
    AsWrittenAgrees(m, disabled, loop, c, dir, probe, 0, n);
  }
}
