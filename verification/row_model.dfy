/**
 * The row model of the select list (select-content.tsx): the search filter, the
 * grouping of the filtered options into one flat sequence of header and option
 * rows, and the size the virtualizer is told for each row.
 */
module RowModel {
  import opened Wrappers
  import opened Text
  import opened Sequences

  /** One row of the list: a group header or an option. */
  datatype Row<O> = Header(group: string) | Item(option: O)

  /** The flattened rows (`effectiveOptions`) and the positions of the headers (`optionGroupIndexes`). */
  datatype Rows<O> = Rows(rows: seq<Row<O>>, headers: seq<int>)

  /** Every option wrapped as an option row. */
  function Items<O>(s: seq<O>): (r: seq<Row<O>>)
    ensures |r| == |s|
    ensures forall k :: 0 <= k < |s| ==> r[k] == Item(s[k])
  {
    seq(|s|, k requires 0 <= k < |s| => Item(s[k]))
  }

  // ---------------------------------------------------------------------------
  // Search filter

  /** Whether an option's normalized label contains the (already normalized) query. */
  predicate LabelMatches<O>(getLabel: O -> string, query: string, o: O)
  {
    Contains(Normalize(getLabel(o)), query)
  }

  /** `options.filter(...)` with the label test. */
  function Matching<O>(options: seq<O>, getLabel: O -> string, query: string): (r: seq<O>)
    ensures |r| <= |options|
  {
    if options == [] then []
    else
      var o := options[|options| - 1];
      Matching(options[..|options| - 1], getLabel, query) + (if LabelMatches(getLabel, query, o) then [o] else [])
  }

  /** The filtered options for a search text: all options when the normalized search is empty. */
  function SearchFilter<O>(options: seq<O>, getLabel: O -> string, search: string): (r: seq<O>)
    ensures Normalize(search) == "" ==> r == options
    ensures Normalize(search) != "" ==> r == Matching(options, getLabel, Normalize(search))
  {
    var query := Normalize(search);
    if query == "" then options else Matching(options, getLabel, query)
  }

  /** Filtering distributes over concatenation: relative order is kept. */
  lemma {:induction false} MatchingConcat<O>(a: seq<O>, b: seq<O>, getLabel: O -> string, query: string)
    ensures Matching(a + b, getLabel, query) == Matching(a, getLabel, query) + Matching(b, getLabel, query)
  {
    if b != [] {
      var b' := b[..|b| - 1];
      MatchingConcat(a, b', getLabel, query);
      assert (a + b)[..|a + b| - 1] == a + b';
    } else {
      assert a + b == a;
    }
  }

  /** The filter keeps exactly the options whose label matches. */
  lemma {:induction false} MatchingMembers<O>(options: seq<O>, getLabel: O -> string, query: string)
    ensures forall o :: o in Matching(options, getLabel, query) <==> o in options && LabelMatches(getLabel, query, o)
  {
    if options != [] {
      var p := options[..|options| - 1];
      MatchingMembers(p, getLabel, query);
      assert options == p + [options[|options| - 1]];
    }
  }

  /**
   * The search keeps exactly the options whose normalized label contains the normalized
   * search, and every option when the normalized search is empty.
   */
  lemma SearchFilterMembers<O>(options: seq<O>, getLabel: O -> string, search: string)
    ensures forall o :: o in SearchFilter(options, getLabel, search) <==>
      o in options && (Normalize(search) == "" || LabelMatches(getLabel, Normalize(search), o))
  {
    if Normalize(search) != "" {
      MatchingMembers(options, getLabel, Normalize(search));
    }
  }

  // ---------------------------------------------------------------------------
  // Grouping

  /** The group key of each option. */
  function KeysOf<O>(s: seq<O>, group: O -> string): (r: seq<string>)
    ensures |r| == |s|
    ensures forall k :: 0 <= k < |s| ==> r[k] == group(s[k])
  {
    seq(|s|, k requires 0 <= k < |s| => group(s[k]))
  }

  /** The options of one group, in their original order. */
  function Members<O>(s: seq<O>, group: O -> string, key: string): (r: seq<O>)
    ensures |r| <= |s|
    ensures forall k :: 0 <= k < |r| ==> group(r[k]) == key
  {
    if s == [] then []
    else
      var o := s[|s| - 1];
      Members(s[..|s| - 1], group, key) + (if group(o) == key then [o] else [])
  }

  /** The result of `Map.groupBy`: keys in insertion order and the options under each key. */
  datatype Groups<O> = Groups(keys: seq<string>, members: map<string, seq<O>>)

  /**
   * `Map.groupBy(s, group)`: a key is added when it is first met, and each option is
   * appended to the entry of its key.
   */
  function GroupBy<O>(s: seq<O>, group: O -> string): Groups<O>
  {
    if s == [] then Groups([], map[])
    else
      var p := GroupBy(s[..|s| - 1], group);
      var o := s[|s| - 1];
      var key := group(o);
      if key in p.members then Groups(p.keys, p.members[key := p.members[key] + [o]])
      else Groups(p.keys + [key], p.members[key := [o]])
  }

  /**
   * What `Map.groupBy` yields: the distinct keys in order of first occurrence, each mapped
   * to exactly the options carrying it, in their original order; no group is empty.
   */
  lemma {:induction false} GroupBySpec<O>(s: seq<O>, group: O -> string)
    ensures GroupBy(s, group).keys == Dedup(KeysOf(s, group))
    ensures forall k :: k in GroupBy(s, group).members <==> k in GroupBy(s, group).keys
    ensures forall k :: k in GroupBy(s, group).members ==>
      GroupBy(s, group).members[k] == Members(s, group, k) && |GroupBy(s, group).members[k]| > 0
  {
    if s != [] {
      var ps := s[..|s| - 1];
      var p := GroupBy(ps, group);
      var o := s[|s| - 1];
      var key := group(o);
      GroupBySpec(ps, group);
      assert KeysOf(s, group)[..|s| - 1] == KeysOf(ps, group);
      assert KeysOf(s, group)[|s| - 1] == key;
      assert key in KeysOf(ps, group) <==> key in p.members;
      var r := GroupBy(s, group);
      forall k | k in r.members
        ensures r.members[k] == Members(s, group, k)
      {
        assert Members(s, group, k) == Members(ps, group, k) + (if key == k then [o] else []);
        if k != key {
          assert Members(ps, group, k) == p.members[k];
        } else if key !in p.members {
          assert Members(ps, group, k) == [] by {
            if Members(ps, group, k) != [] {
              MembersFrom(ps, group, k);
              assert false;
            }
          }
        }
      }
    }
  }

  /** A non-empty group has a member in the sequence, so its key occurs among the keys. */
  lemma {:induction false} MembersFrom<O>(s: seq<O>, group: O -> string, key: string)
    requires Members(s, group, key) != []
    ensures key in KeysOf(s, group)
  {
    var ps := s[..|s| - 1];
    if group(s[|s| - 1]) != key {
      MembersFrom(ps, group, key);
      var i :| 0 <= i < |ps| && KeysOf(ps, group)[i] == key;
      assert KeysOf(s, group)[i] == key;
    } else {
      assert KeysOf(s, group)[|s| - 1] == key;
    }
  }

  /** The total number of options over the given groups. */
  function MemberCount<O>(keys: seq<string>, members: map<string, seq<O>>): nat
    requires forall k :: k in keys ==> k in members
  {
    if keys == [] then 0
    else MemberCount(keys[..|keys| - 1], members) + |members[keys[|keys| - 1]]|
  }

  /** Adding one option to one group adds one to the count. */
  lemma {:induction false} MemberCountAdd<O>(keys: seq<string>, members: map<string, seq<O>>, key: string, o: O)
    requires NoDup(keys) && key in keys
    requires forall k :: k in keys ==> k in members
    ensures MemberCount(keys, members[key := members[key] + [o]]) == MemberCount(keys, members) + 1
  {
    var p := keys[..|keys| - 1];
    assert NoDup(p);
    if keys[|keys| - 1] == key {
      assert key !in p;
      MemberCountOther(p, members, key, members[key] + [o]);
    } else {
      MemberCountAdd(p, members, key, o);
    }
  }

  /** Changing a group outside the given keys does not change the count. */
  lemma {:induction false} MemberCountOther<O>(keys: seq<string>, members: map<string, seq<O>>, key: string, v: seq<O>)
    requires key !in keys
    requires forall k :: k in keys ==> k in members
    ensures MemberCount(keys, members[key := v]) == MemberCount(keys, members)
  {
    if keys != [] {
      MemberCountOther(keys[..|keys| - 1], members, key, v);
    }
  }

  /** The groups hold every option exactly once: their sizes add up to the number of options. */
  lemma {:induction false} GroupByCount<O>(s: seq<O>, group: O -> string)
    ensures forall k :: k in GroupBy(s, group).keys ==> k in GroupBy(s, group).members
    ensures MemberCount(GroupBy(s, group).keys, GroupBy(s, group).members) == |s|
  {
    GroupBySpec(s, group);
    if s != [] {
      var p := s[..|s| - 1];
      var gp := GroupBy(p, group);
      var o := s[|s| - 1];
      GroupByCount(p, group);
      GroupBySpec(p, group);
      if group(o) in gp.members {
        MemberCountAdd(gp.keys, gp.members, group(o), o);
      } else {
        MemberCountOther(gp.keys, gp.members, group(o), [o]);
      }
    }
  }

  /** The rows of the given groups: each group as its header followed by its options. */
  function Flatten<O>(keys: seq<string>, members: map<string, seq<O>>): Rows<O>
    requires forall k :: k in keys ==> k in members
  {
    if keys == [] then Rows([], [])
    else
      var p := Flatten(keys[..|keys| - 1], members);
      var key := keys[|keys| - 1];
      Rows(p.rows + [Header(key)] + Items(members[key]), p.headers + [|p.rows|])
  }

  /** The row model that the grouping memo produces for the filtered options. */
  function Build<O>(filtered: seq<O>, grouping: Option<O -> string>): Rows<O>
  {
    match grouping
    case None => Rows(Items(filtered), [])
    case Some(group) =>
      var groups := GroupBy(filtered, group);
      GroupByCount(filtered, group);
      Flatten(groups.keys, groups.members)
  }

  /**
   * The grouping memo: without a grouping function the rows are the filtered options;
   * with one, each group of `Map.groupBy` is pushed as its header then its options, and
   * the header's position is recorded.
   */
  method BuildRows<O>(filtered: seq<O>, grouping: Option<O -> string>) returns (m: Rows<O>)
    ensures m == Build(filtered, grouping)
  {
    if grouping.None? {
      return Rows(Items(filtered), []);
    }
    var groups := GroupBy(filtered, grouping.value);
    GroupByCount(filtered, grouping.value);
    var rows: seq<Row<O>> := [];
    var headers: seq<int> := [];
    for i := 0 to |groups.keys|
      invariant Rows(rows, headers) == Flatten(groups.keys[..i], groups.members)
    {
      var key := groups.keys[i];
      assert groups.keys[..i + 1][..i] == groups.keys[..i];
      headers := headers + [|rows|];
      rows := rows + [Header(key)] + Items(groups.members[key]);
    }
    assert groups.keys[..|groups.keys|] == groups.keys;
    m := Rows(rows, headers);
  }

  // ---------------------------------------------------------------------------
  // Shape of the row model

  /** Where the block of the `j`-th group ends: at the next header, or at the end of the rows. */
  function BlockEnd<O>(m: Rows<O>, j: nat): int
    requires j < |m.headers|
  {
    if j + 1 < |m.headers| then m.headers[j + 1] else |m.rows|
  }

  /** The `j`-th block of rows is the header of `key` followed by exactly `members`. */
  ghost predicate GroupBlock<O>(m: Rows<O>, j: nat, key: string, members: seq<O>)
  {
    && j < |m.headers|
    && 0 <= m.headers[j]
    && m.headers[j] + 1 + |members| == BlockEnd(m, j) <= |m.rows|
    && m.rows[m.headers[j]] == Header(key)
    && m.rows[m.headers[j] + 1..BlockEnd(m, j)] == Items(members)
  }

  /**
   * The header positions are ascending, each one is a header row, and every header row is
   * at a recorded position: `isOptionGroup(i)` agrees with the row's kind.
   */
  ghost predicate WellFormed<O>(m: Rows<O>)
  {
    && StrictlyAscending(m.headers)
    && (forall j :: 0 <= j < |m.headers| ==> 0 <= m.headers[j] < |m.rows| && m.rows[m.headers[j]].Header?)
    && (forall i :: 0 <= i < |m.rows| && m.rows[i].Header? ==> i in m.headers)
  }

  /** Flattening yields one header per key and one row per member. */
  lemma {:induction false} FlattenCount<O>(keys: seq<string>, members: map<string, seq<O>>)
    requires forall k :: k in keys ==> k in members
    ensures |Flatten(keys, members).headers| == |keys|
    ensures |Flatten(keys, members).rows| == |keys| + MemberCount(keys, members)
    ensures keys != [] ==> Flatten(keys, members).headers[0] == 0
  {
    if keys != [] {
      FlattenCount(keys[..|keys| - 1], members);
    }
  }

  /** Flattening yields a well-formed row model. */
  lemma {:induction false} FlattenWellFormed<O>(keys: seq<string>, members: map<string, seq<O>>)
    requires forall k :: k in keys ==> k in members
    ensures WellFormed(Flatten(keys, members))
  {
    if keys != [] {
      var pk := keys[..|keys| - 1];
      var p := Flatten(pk, members);
      var f := Flatten(keys, members);
      var key := keys[|keys| - 1];
      FlattenWellFormed(pk, members);
      assert f.rows == p.rows + [Header(key)] + Items(members[key]);
      assert f.headers == p.headers + [|p.rows|];
      forall i, j | 0 <= i < j < |f.headers| ensures f.headers[i] < f.headers[j] {
        if j < |p.headers| {
          assert f.headers[i] == p.headers[i] && f.headers[j] == p.headers[j];
        } else {
          assert f.headers[i] == p.headers[i] < |p.rows|;
        }
      }
      forall j | 0 <= j < |f.headers|
        ensures 0 <= f.headers[j] < |f.rows| && f.rows[f.headers[j]].Header?
      {
        if j < |p.headers| {
          assert f.rows[p.headers[j]] == p.rows[p.headers[j]];
        }
      }
      forall i | 0 <= i < |f.rows| && f.rows[i].Header? ensures i in f.headers {
        if i < |p.rows| {
          assert f.rows[i] == p.rows[i];
          assert i in p.headers;
        }
      }
    }
  }

  /** A block of a prefix model stays the same block once more rows are appended. */
  lemma GroupBlockExtend<O>(p: Rows<O>, f: Rows<O>, j: nat, key: string, members: seq<O>)
    requires GroupBlock(p, j, key, members)
    requires |p.rows| <= |f.rows| && f.rows[..|p.rows|] == p.rows
    requires f.headers == p.headers + [|p.rows|]
    ensures GroupBlock(f, j, key, members)
  {
    assert BlockEnd(f, j) == BlockEnd(p, j);
    assert f.rows[f.headers[j]] == p.rows[p.headers[j]];
    assert f.rows[f.headers[j] + 1..BlockEnd(f, j)] == p.rows[p.headers[j] + 1..BlockEnd(p, j)];
  }

  /** The last key's block is the last header followed by that key's members, up to the end of the rows. */
  lemma FlattenLastBlock<O>(keys: seq<string>, members: map<string, seq<O>>)
    requires forall k :: k in keys ==> k in members
    requires keys != []
    ensures GroupBlock(Flatten(keys, members), |keys| - 1, keys[|keys| - 1], members[keys[|keys| - 1]])
  {
    var pk := keys[..|keys| - 1];
    var p := Flatten(pk, members);
    var f := Flatten(keys, members);
    var key := keys[|keys| - 1];
    FlattenCount(pk, members);
    assert f.rows == p.rows + [Header(key)] + Items(members[key]);
    assert f.headers[|keys| - 1] == |p.rows| && BlockEnd(f, |keys| - 1) == |f.rows|;
    assert f.rows[|p.rows| + 1..|f.rows|] == Items(members[key]);
  }

  /** Each key's block in the flattened rows is its header followed by its members. */
  lemma {:induction false} FlattenBlocks<O>(keys: seq<string>, members: map<string, seq<O>>)
    requires forall k :: k in keys ==> k in members
    ensures forall j :: 0 <= j < |keys| ==> GroupBlock(Flatten(keys, members), j, keys[j], members[keys[j]])
  {
    if keys != [] {
      var pk := keys[..|keys| - 1];
      var p := Flatten(pk, members);
      var f := Flatten(keys, members);
      FlattenBlocks(pk, members);
      FlattenLastBlock(keys, members);
      assert f.rows[..|p.rows|] == p.rows;
      forall j | 0 <= j < |pk| ensures GroupBlock(f, j, keys[j], members[keys[j]]) {
        assert keys[j] == pk[j];
        GroupBlockExtend(p, f, j, keys[j], members[keys[j]]);
      }
    }
  }

  /** Without grouping the rows are exactly the filtered options and there are no headers. */
  lemma UngroupedRows<O>(filtered: seq<O>)
    ensures Build(filtered, None).headers == []
    ensures |Build(filtered, None).rows| == |filtered|
    ensures forall i :: 0 <= i < |filtered| ==> Build(filtered, None).rows[i] == Item(filtered[i])
  {
  }

  /**
   * With grouping: the model is well formed, with one header per distinct key, in order of
   * first occurrence, each followed by exactly the options of its group in filtered order;
   * the row count is the filtered count plus the number of distinct keys.
   */
  lemma GroupedRows<O>(filtered: seq<O>, group: O -> string)
    ensures WellFormed(Build(filtered, Some(group)))
    ensures |Build(filtered, Some(group)).headers| == |Dedup(KeysOf(filtered, group))|
    ensures |Build(filtered, Some(group)).rows| == |filtered| + |Dedup(KeysOf(filtered, group))|
    ensures forall j :: 0 <= j < |Dedup(KeysOf(filtered, group))| ==>
      var key := Dedup(KeysOf(filtered, group))[j];
      GroupBlock(Build(filtered, Some(group)), j, key, Members(filtered, group, key))
      && Members(filtered, group, key) != []
  {
    var g := GroupBy(filtered, group);
    var m := Build(filtered, Some(group));
    GroupBySpec(filtered, group);
    GroupByCount(filtered, group);
    assert m == Flatten(g.keys, g.members);
    FlattenCount(g.keys, g.members);
    FlattenWellFormed(g.keys, g.members);
    FlattenBlocks(g.keys, g.members);
    forall j | 0 <= j < |g.keys|
      ensures GroupBlock(m, j, g.keys[j], Members(filtered, group, g.keys[j]))
      ensures Members(filtered, group, g.keys[j]) != []
    {
      assert g.keys[j] in g.keys;
      assert GroupBlock(m, j, g.keys[j], g.members[g.keys[j]]);
    }
  }

  /** The list has rows exactly when some option passed the filter. */
  lemma BuildEmpty<O>(filtered: seq<O>, grouping: Option<O -> string>)
    ensures |Build(filtered, grouping).rows| == 0 <==> filtered == []
  {
    if grouping.Some? {
      var g := GroupBy(filtered, grouping.value);
      GroupByCount(filtered, grouping.value);
      FlattenCount(g.keys, g.members);
    }
  }

  /** Every row model the memo builds is well formed; a grouped one opens with a header and an option. */
  lemma BuildWellFormed<O>(filtered: seq<O>, grouping: Option<O -> string>)
    ensures WellFormed(Build(filtered, grouping))
    ensures grouping.Some? && filtered != [] ==>
      |Build(filtered, grouping).rows| >= 2
      && Build(filtered, grouping).rows[0].Header?
      && Build(filtered, grouping).rows[1].Item?
  {
    if grouping.Some? {
      var g := GroupBy(filtered, grouping.value);
      GroupByCount(filtered, grouping.value);
      FlattenWellFormed(g.keys, g.members);
      if filtered != [] {
        GroupedOpening(filtered, grouping.value);
      }
    }
  }

  /** A grouped list of at least one option opens with the first group's header and its first member. */
  lemma GroupedOpening<O>(filtered: seq<O>, group: O -> string)
    requires filtered != []
    ensures var m := Build(filtered, Some(group));
      |m.rows| >= 2 && m.rows[0].Header? && m.rows[1].Item?
  {
    var g := GroupBy(filtered, group);
    GroupByCount(filtered, group);
    GroupByFirst(filtered, group);
    FlattenFirst(g.keys, g.members);
  }

  /** Grouping at least one option gives a first key whose group is not empty. */
  lemma {:induction false} GroupByFirst<O>(s: seq<O>, group: O -> string)
    requires s != []
    ensures GroupBy(s, group).keys != []
    ensures GroupBy(s, group).keys[0] in GroupBy(s, group).members
    ensures |GroupBy(s, group).members[GroupBy(s, group).keys[0]]| > 0
  {
    var ps := s[..|s| - 1];
    if ps != [] {
      GroupByFirst(ps, group);
    }
  }

  /** Flattened groups open with the first key's header, followed by its first member. */
  lemma {:induction false} FlattenFirst<O>(keys: seq<string>, members: map<string, seq<O>>)
    requires forall k :: k in keys ==> k in members
    requires keys != [] && |members[keys[0]]| > 0
    ensures |Flatten(keys, members).rows| >= 2
    ensures Flatten(keys, members).rows[0] == Header(keys[0])
    ensures Flatten(keys, members).rows[1] == Item(members[keys[0]][0])
  {
    var pk := keys[..|keys| - 1];
    if pk != [] {
      assert pk[0] == keys[0];
      FlattenFirst(pk, members);
    }
  }

  // ---------------------------------------------------------------------------
  // Row sizes

  /** The sizing properties: optional size functions and the sizes used when they are absent. */
  datatype SizeConfig<!O> = SizeConfig(
    getOptionSize: Option<O -> real>, defaultOptionSize: real,
    getGroupSize: Option<string -> real>, defaultGroupSize: real)

  /** `(getOptionGroupSize ?? (() => defaultOptionGroupSize))(group)`. */
  function GroupSize<O>(cfg: SizeConfig<O>, group: string): real
  {
    match cfg.getGroupSize
    case Some(f) => f(group)
    case None => cfg.defaultGroupSize
  }

  /** `(getOptionSize ?? (() => defaultOptionSize))(option)`. */
  function OptionSize<O>(cfg: SizeConfig<O>, o: O): real
  {
    match cfg.getOptionSize
    case Some(f) => f(o)
    case None => cfg.defaultOptionSize
  }

  /**
   * `estimateSize(i)`: decided by whether `i` is a recorded header position; on a well-formed
   * row model that is the same as asking whether row `i` is a header. An absent size function
   * gives the default size.
   */
  function EstimateSize<O>(m: Rows<O>, cfg: SizeConfig<O>, i: int): (r: real)
    requires WellFormed(m) && 0 <= i < |m.rows|
    ensures m.rows[i].Header? && cfg.getGroupSize.None? ==> r == cfg.defaultGroupSize
    ensures m.rows[i].Header? && cfg.getGroupSize.Some? ==> r == cfg.getGroupSize.value(m.rows[i].group)
    ensures m.rows[i].Item? && cfg.getOptionSize.None? ==> r == cfg.defaultOptionSize
    ensures m.rows[i].Item? && cfg.getOptionSize.Some? ==> r == cfg.getOptionSize.value(m.rows[i].option)
  {
    if i in m.headers then GroupSize(cfg, m.rows[i].group) else OptionSize(cfg, m.rows[i].option)
  }
}
