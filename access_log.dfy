/** The access-log aggregator: log rows grouped by route, method and status into mutable
    groups that count their requests and total their request times, and the report that
    lists the groups by a sort key, largest first, cut to a limit.

    Request times are whole numbers of one fixed unit rather than floats; the route
    matcher (`Mustermann#match`) is a parameter. */
module AccessLog {
  import opened Wrappers
  import opened Collections
  import opened RubyHash
  import opened GroupOption

  /** A log row, once `request_time` has been converted to a number where it is present. */
  datatype Row = Row(requestUri: string, requestMethod: string, status: string, requestTime: Option<int>)

  /** What a row is grouped by. */
  datatype Key = Key(route: string, requestMethod: string, status: string)

  /** `Mustermann#match`: whether a route pattern matches a request URI. */
  type Matcher = (RoutePattern, string) -> bool

  /** `time.to_f`: a row without a time adds nothing. */
  function TimeOf(t: Option<int>): int
  {
    match t
    case Some(x) => x
    case None => 0
  }

  /** `options[:group][method] || []`: the route patterns registered for a verb. */
  function Registered(groups: Groups, requestMethod: string): seq<RoutePattern>
  {
    if requestMethod in groups then groups[requestMethod] else []
  }

  /** `resolve_key`: the route is the first registered pattern of the row's verb that
      matches its URI, or the URI itself when none does; method and status are the row's. */
  function ResolveKey(row: Row, groups: Groups, matches: Matcher): (k: Key)
    ensures k.requestMethod == row.requestMethod && k.status == row.status
  {
    var ms := Registered(groups, row.requestMethod);
    var route :=
      match FirstIndex(ms, m => matches(m, row.requestUri))
      case Some(j) => ms[j]
      case None => row.requestUri;
    Key(route, row.requestMethod, row.status)
  }

  /** A row's route is its URI when no pattern registered for its verb matches, and
      otherwise the first registered pattern that does. */
  lemma ResolveKeySpec(row: Row, groups: Groups, matches: Matcher)
    ensures var ms := Registered(groups, row.requestMethod);
      (forall j :: 0 <= j < |ms| ==> !matches(ms[j], row.requestUri)) ==>
        ResolveKey(row, groups, matches).route == row.requestUri
    ensures var ms := Registered(groups, row.requestMethod);
      forall j ::
        (0 <= j < |ms| && matches(ms[j], row.requestUri) && forall i :: 0 <= i < j ==> !matches(ms[i], row.requestUri))
        ==> ResolveKey(row, groups, matches).route == ms[j]
  {
  }

  /** What a report line shows of a group. */
  datatype Stat = Stat(route: string, requestMethod: string, status: string, count: nat, totalTime: int)

  /** `total_time / count` in floating point, which is NaN for a group without rows. */
  datatype Mean = NaN | Avg(value: real)

  function MeanOf(totalTime: int, count: nat): (m: Mean)
    ensures count == 0 <==> m == NaN
    ensures m.Avg? ==> m.value * (count as real) == totalTime as real
  {
    if count == 0 then NaN else Avg(totalTime as real / count as real)
  }

  /** One group of rows: its key, its number of rows and their total time, and the
      average once it has been asked for. */
  class Group {
    const route: string
    const requestMethod: string
    const status: string
    var count: nat
    var totalTime: int
    var avgTime: Option<Mean>   // `@avg_time`: None until computed, cleared by `add`

    /** A group without rows has no time, and a computed average is the current one. */
    ghost predicate Valid()
      reads this
    {
      (count == 0 ==> totalTime == 0) &&
      (avgTime.Some? ==> avgTime.value == MeanOf(totalTime, count))
    }

    function Snapshot(): Stat
      reads this
    {
      Stat(route, requestMethod, status, count, totalTime)
    }

    constructor (route: string, requestMethod: string, status: string)
      ensures this.route == route && this.requestMethod == requestMethod && this.status == status
      ensures count == 0 && totalTime == 0 && avgTime == None
      ensures Valid()
    {
      this.route := route;
      this.requestMethod := requestMethod;
      this.status := status;
      count := 0;
      totalTime := 0;
      avgTime := None;
    }

    /** `add`: one more row, its time added to the total; the cached average is dropped,
        and the group itself is returned. */
    method Add(time: Option<int>) returns (self: Group)
      requires Valid()
      modifies this
      ensures self == this
      ensures count == old(count) + 1 && totalTime == old(totalTime) + TimeOf(time)
      ensures avgTime == None && Valid()
    {
      count := count + 1;
      totalTime := totalTime + TimeOf(time);
      avgTime := None;
      self := this;
    }

    /** `avg_time`: the cached average, or the average computed now and cached; either way
        the average of the current totals. */
    method AvgTime() returns (a: Mean)
      requires Valid()
      modifies this
      ensures a == MeanOf(totalTime, count)
      ensures count == old(count) && totalTime == old(totalTime)
      ensures avgTime == Some(a) && Valid()
    {
      if avgTime.Some? {
        a := avgTime.value;
      } else {
        a := MeanOf(totalTime, count);
        avgTime := Some(a);
      }
    }
  }

  // The table the rows fold into, as values.

  function FreshStat(k: Key): Stat
  {
    Stat(k.route, k.requestMethod, k.status, 0, 0)
  }

  /** A group's numbers after `add`. */
  function Bump(s: Stat, t: Option<int>): Stat
  {
    s.(count := s.count + 1, totalTime := s.totalTime + TimeOf(t))
  }

  /** The groups `GroupTable#initialize` builds from the rows, as values: `table[key] ||=`
      a fresh group, then `add` the row's time. */
  function Tally(rows: seq<Row>, groups: Groups, matches: Matcher): (r: Hash<Key, Stat>)
    decreases |rows|
  {
    if rows == [] then []
    else
      var row := rows[|rows| - 1];
      Step(Tally(rows[..|rows| - 1], groups, matches), ResolveKey(row, groups, matches), row.requestTime)
  }

  /** `table[key] ||= Group.new(...)` and `table[key].add(time)` on the values. */
  function Step(prev: Hash<Key, Stat>, k: Key, t: Option<int>): (r: Hash<Key, Stat>)
    ensures |prev| <= |r| <= |prev| + 1
  {
    var s := match Get(prev, k) case Some(s) => s case None => FreshStat(k);
    Put(prev, k, Bump(s, t))
  }

  /** A row without a time still counts as a request, and adds no time. */
  lemma MissingTimeAddsNothing(s: Stat)
    ensures Bump(s, None).count == s.count + 1 && Bump(s, None).totalTime == s.totalTime
  {
  }

  /** There are at most as many groups as rows, and a group as soon as there is a row. */
  lemma {:induction false} TallySize(rows: seq<Row>, groups: Groups, matches: Matcher)
    ensures |Tally(rows, groups, matches)| <= |rows|
    ensures Tally(rows, groups, matches) == [] <==> rows == []
    decreases |rows|
  {
    if rows != [] {
      var row := rows[|rows| - 1];
      var k := ResolveKey(row, groups, matches);
      var prev := Tally(rows[..|rows| - 1], groups, matches);
      TallySize(rows[..|rows| - 1], groups, matches);
      PutSpec(prev, k, Bump(match Get(prev, k) case Some(s) => s case None => FreshStat(k), row.requestTime));
    }
  }

  /** The groups after one more row are the step on that row's key. */
  lemma TallySnoc(rows: seq<Row>, i: nat, groups: Groups, matches: Matcher, prev: Hash<Key, Stat>, next: Hash<Key, Stat>)
    requires i < |rows| && prev == Tally(rows[..i], groups, matches)
    requires next == Step(prev, ResolveKey(rows[i], groups, matches), rows[i].requestTime)
    ensures next == Tally(rows[..i + 1], groups, matches)
  {
    assert rows[..i + 1][..i] == rows[..i];
  }

  /** A step bumps the group of its key, creating it when absent, and leaves every other
      group alone; a new key is appended. */
  lemma StepSpec(prev: Hash<Key, Stat>, k: Key, t: Option<int>)
    ensures Get(Step(prev, k, t), k) ==
      Some(Bump(match Get(prev, k) case Some(s) => s case None => FreshStat(k), t))
    ensures forall k' :: k' != k ==> Get(Step(prev, k, t), k') == Get(prev, k')
    ensures Keys(Step(prev, k, t)) == if k in Keys(prev) then Keys(prev) else Keys(prev) + [k]
  {
    var s := match Get(prev, k) case Some(s) => s case None => FreshStat(k);
    PutSpec(prev, k, Bump(s, t));
  }

  /** The key of each row, in row order. */
  function RowKeys(rows: seq<Row>, groups: Groups, matches: Matcher): (r: seq<Key>)
    ensures |r| == |rows|
    decreases |rows|
  {
    if rows == [] then []
    else RowKeys(rows[..|rows| - 1], groups, matches) + [ResolveKey(rows[|rows| - 1], groups, matches)]
  }

  /** The total time of the rows with key `k`. */
  function TimeSum(rows: seq<Row>, k: Key, groups: Groups, matches: Matcher): int
    decreases |rows|
  {
    if rows == [] then 0
    else
      var row := rows[|rows| - 1];
      TimeSum(rows[..|rows| - 1], k, groups, matches)
        + (if ResolveKey(row, groups, matches) == k then TimeOf(row.requestTime) else 0)
  }

  lemma {:induction false} TimeSumAbsent(rows: seq<Row>, k: Key, groups: Groups, matches: Matcher)
    requires k !in RowKeys(rows, groups, matches)
    ensures TimeSum(rows, k, groups, matches) == 0
    decreases |rows|
  {
    if rows != [] {
      TimeSumAbsent(rows[..|rows| - 1], k, groups, matches);
    }
  }

  /** Each key of a row has a group holding that key, the number of rows with the key and
      their total time; no other key has a group. */
  lemma {:induction false} TallyStat(rows: seq<Row>, groups: Groups, matches: Matcher, k: Key)
    ensures var keys := RowKeys(rows, groups, matches);
      Get(Tally(rows, groups, matches), k) ==
        if k in keys then Some(Stat(k.route, k.requestMethod, k.status, Count(keys, k), TimeSum(rows, k, groups, matches)))
        else None
    decreases |rows|
  {
    if rows != [] {
      var init := rows[..|rows| - 1];
      var row := rows[|rows| - 1];
      var rk := ResolveKey(row, groups, matches);
      var keys := RowKeys(init, groups, matches);
      TallyStat(init, groups, matches, k);
      if k !in keys {
        TimeSumAbsent(init, k, groups, matches);
      }
      StepStat(Tally(init, groups, matches), keys, k, rk, row.requestTime, TimeSum(init, k, groups, matches),
        Tally(rows, groups, matches), RowKeys(rows, groups, matches), TimeSum(rows, k, groups, matches));
    }
  }

  /** One row's step on the per-key numbers: the step's key gains a row and its time. */
  lemma StepStat(prev: Hash<Key, Stat>, keys: seq<Key>, k: Key, rk: Key, t: Option<int>, ts: int,
                 next: Hash<Key, Stat>, nextKeys: seq<Key>, nextTs: int)
    requires Get(prev, k) == if k in keys then Some(Stat(k.route, k.requestMethod, k.status, Count(keys, k), ts)) else None
    requires k !in keys ==> ts == 0
    requires next == Step(prev, rk, t) && nextKeys == keys + [rk]
    requires nextTs == ts + if rk == k then TimeOf(t) else 0
    ensures Get(next, k) ==
      if k in nextKeys then Some(Stat(k.route, k.requestMethod, k.status, Count(nextKeys, k), nextTs)) else None
  {
    StepSpec(prev, rk, t);
    CountSnoc(keys, rk, k);
    if k != rk {
      assert Get(next, k) == Get(prev, k);
      assert k in nextKeys <==> k in keys;
    } else if k in keys {
      assert Get(next, k) == Some(Bump(Stat(k.route, k.requestMethod, k.status, Count(keys, k), ts), t));
    } else {
      CountZero(keys, k);
      assert Get(next, k) == Some(Bump(FreshStat(k), t));
    }
  }

  /** The groups are keyed in the order their keys first appear in the rows: a group is
      created by the first row with a new key. */
  lemma {:induction false} TallyKeys(rows: seq<Row>, groups: Groups, matches: Matcher)
    ensures Keys(Tally(rows, groups, matches)) == Distinct(RowKeys(rows, groups, matches))
    decreases |rows|
  {
    if rows != [] {
      var init := rows[..|rows| - 1];
      var row := rows[|rows| - 1];
      var rk := ResolveKey(row, groups, matches);
      TallyKeys(init, groups, matches);
      DistinctSnoc(RowKeys(init, groups, matches), rk);
      StepSpec(Tally(init, groups, matches), rk, row.requestTime);
    }
  }

  /** The number of rows the groups account for. */
  function TotalCount(h: Hash<Key, Stat>): nat
  {
    if h == [] then 0 else h[0].1.count + TotalCount(h[1..])
  }

  lemma {:induction false} TotalCountPut(h: Hash<Key, Stat>, k: Key, v: Stat)
    ensures TotalCount(Put(h, k, v)) + (match Get(h, k) case Some(s) => s.count case None => 0)
      == TotalCount(h) + v.count
  {
    if h != [] {
      var r := Put(h, k, v);
      if h[0].0 == k {
        assert r[1..] == h[1..];
      } else {
        TotalCountPut(h[1..], k, v);
        assert r[1..] == Put(h[1..], k, v);
      }
    }
  }

  /** Every row lands in exactly one group: the counts add up to the number of rows. */
  lemma {:induction false} TallyTotal(rows: seq<Row>, groups: Groups, matches: Matcher)
    ensures TotalCount(Tally(rows, groups, matches)) == |rows|
    decreases |rows|
  {
    if rows != [] {
      var init := rows[..|rows| - 1];
      var row := rows[|rows| - 1];
      var rk := ResolveKey(row, groups, matches);
      var prev := Tally(init, groups, matches);
      TallyTotal(init, groups, matches);
      var s := match Get(prev, rk) case Some(s) => s case None => FreshStat(rk);
      TotalCountPut(prev, rk, Bump(s, row.requestTime));
      assert Tally(rows, groups, matches) == Put(prev, rk, Bump(s, row.requestTime));
    }
  }

  /** Every group of the table has at least one row, so its average is a number. */
  lemma TallyCountsPositive(rows: seq<Row>, groups: Groups, matches: Matcher)
    ensures forall j :: 0 <= j < |Tally(rows, groups, matches)| ==>
      Tally(rows, groups, matches)[j].1.count > 0
  {
    var t := Tally(rows, groups, matches);
    var keys := RowKeys(rows, groups, matches);
    TallyKeys(rows, groups, matches);
    forall j | 0 <= j < |t| ensures t[j].1.count > 0 {
      assert Keys(t)[j] == t[j].0;
      GetAt(t, j);
      TallyStat(rows, groups, matches, t[j].0);
      CountZero(keys, t[j].0);
    }
  }

  // The table of mutable groups.

  /** The groups of a table, as `reads` and `modifies` name them. */
  function GroupsIn(t: Hash<Key, Group>): set<Group>
  {
    set j | 0 <= j < |t| :: t[j].1
  }

  /** One group per key, no group under two keys, and each group valid and filed under
      its own key. */
  ghost predicate TableInvariant(t: Hash<Key, Group>)
    reads GroupsIn(t)
  {
    && NoDuplicates(Keys(t))
    && (forall i, j :: 0 <= i < j < |t| ==> t[i].1 != t[j].1)
    && (forall j :: 0 <= j < |t| ==>
          t[j].1.Valid() && Key(t[j].1.route, t[j].1.requestMethod, t[j].1.status) == t[j].0)
  }

  /** The table's numbers, group by group. */
  function Stats(t: Hash<Key, Group>): (r: Hash<Key, Stat>)
    reads GroupsIn(t)
    ensures |r| == |t|
  {
    seq(|t|, j requires 0 <= j < |t| reads GroupsIn(t) => (t[j].0, t[j].1.Snapshot()))
  }

  lemma StatsKeys(t: Hash<Key, Group>)
    ensures Keys(Stats(t)) == Keys(t)
  {
    assert forall j :: 0 <= j < |t| ==> Keys(Stats(t))[j] == Keys(t)[j];
  }

  /** Position by position, the table holds the keys of `acc` and groups whose numbers
      are those of `acc`. */
  ghost predicate Mirrors(t: Hash<Key, Group>, acc: Hash<Key, Stat>)
    reads GroupsIn(t)
  {
    |t| == |acc| && forall j :: 0 <= j < |t| ==> t[j].0 == acc[j].0 && t[j].1.Snapshot() == acc[j].1
  }

  lemma MirrorsKeys(t: Hash<Key, Group>, acc: Hash<Key, Stat>)
    requires Mirrors(t, acc)
    ensures Keys(acc) == Keys(t)
  {
    assert forall j :: 0 <= j < |t| ==> Keys(acc)[j] == Keys(t)[j];
  }

  /** A row whose key already has a group bumps that group in place. */
  lemma StepExisting(acc: Hash<Key, Stat>, pos: nat, time: Option<int>)
    requires NoDuplicates(Keys(acc)) && pos < |acc|
    ensures Step(acc, acc[pos].0, time) == acc[pos := (acc[pos].0, Bump(acc[pos].1, time))]
  {
    GetAt(acc, pos);
    PutAtIndex(acc, pos, Bump(acc[pos].1, time));
  }

  /** A row with a new key appends a fresh group with the row in it. */
  lemma StepNew(acc: Hash<Key, Stat>, key: Key, time: Option<int>)
    requires key !in Keys(acc)
    ensures var base := acc + [(key, FreshStat(key))];
      Step(acc, key, time) == base[|acc| := (base[|acc|].0, Bump(base[|acc|].1, time))]
  {
    PutNewKeyAppends(acc, key, Bump(FreshStat(key), time));
    var base := acc + [(key, FreshStat(key))];
    assert base[|acc| := (key, Bump(FreshStat(key), time))] == acc + [(key, Bump(FreshStat(key), time))];
  }

  /** `table[key] ||= Group.new(...)` for a key without a group: a fresh, empty group
      filed under the key at the end of the table. */
  method FileNewGroup(t: Hash<Key, Group>, ghost acc: Hash<Key, Stat>, key: Key)
    returns (t': Hash<Key, Group>, g: Group)
    requires TableInvariant(t) && Mirrors(t, acc) && key !in Keys(t)
    ensures fresh(g) && t' == t + [(key, g)]
    ensures TableInvariant(t') && Mirrors(t', acc + [(key, FreshStat(key))])
  {
    g := new Group(key.route, key.requestMethod, key.status);
    t' := t + [(key, g)];
    assert Keys(t') == Keys(t) + [key];
  }

  /** `table[key].add(time)` on the group filed at `pos`: that group gains the row, and
      no other group changes. */
  method AddRow(t: Hash<Key, Group>, ghost acc: Hash<Key, Stat>, ghost pos: nat, g: Group, time: Option<int>)
    requires TableInvariant(t) && Mirrors(t, acc) && pos < |t| && t[pos].1 == g
    modifies g
    ensures TableInvariant(t) && Mirrors(t, acc[pos := (acc[pos].0, Bump(acc[pos].1, time))])
  {
    var _ := g.Add(time);
  }

  /** `table[key] ||= Group.new(...)` and `table[key].add(time)`: the row's group, found
      or filed anew, gains the row. The groups already filed keep their places. */
  method FileRow(t: Hash<Key, Group>, ghost acc: Hash<Key, Stat>, key: Key, time: Option<int>)
    returns (t': Hash<Key, Group>)
    requires TableInvariant(t) && Mirrors(t, acc)
    modifies GroupsIn(t)
    ensures TableInvariant(t') && Mirrors(t', Step(acc, key, time))
    ensures |t| <= |t'| && t'[..|t|] == t
    ensures forall j :: |t| <= j < |t'| ==> fresh(t'[j].1)
  {
    MirrorsKeys(t, acc);
    var found := Get(t, key);
    var g: Group;
    ghost var pos: nat;
    ghost var base := acc;
    if found.Some? {
      g := found.value;
      pos :| 0 <= pos < |t| && Keys(t)[pos] == key;
      GetAt(t, pos);
      StepExisting(acc, pos, time);
      t' := t;
    } else {
      StepNew(acc, key, time);
      t', g := FileNewGroup(t, acc, key);
      base := acc + [(key, FreshStat(key))];
      pos := |acc|;
    }
    AddRow(t', base, pos, g, time);
  }

  /** `GroupTable`: the groups of the rows, keyed by (route, method, status). */
  class GroupTable {
    var table: Hash<Key, Group>

    ghost predicate Valid()
      reads this, GroupsIn(table)
    {
      TableInvariant(table)
    }

    /** `initialize`: each row's key resolved, its group created on first sight, and the
        row added to it; the groups then hold exactly what `Tally` computes. */
    constructor (rows: seq<Row>, groups: Groups, matches: Matcher)
      ensures Valid()
      ensures Stats(table) == Tally(rows, groups, matches)
      ensures forall j :: 0 <= j < |table| ==> fresh(table[j].1)
    {
      var t: Hash<Key, Group> := [];
      ghost var acc: Hash<Key, Stat> := [];
      var i := 0;
      while i < |rows|
        invariant 0 <= i <= |rows|
        invariant TableInvariant(t)
        invariant forall j :: 0 <= j < |t| ==> fresh(t[j].1)
        invariant Mirrors(t, acc)
        invariant acc == Tally(rows[..i], groups, matches)
      {
        var row := rows[i];
        var key := ResolveKey(row, groups, matches);
        ghost var next := Step(acc, key, row.requestTime);
        ghost var filed := t;
        t := FileRow(t, acc, key, row.requestTime);
        forall j | 0 <= j < |t| ensures fresh(t[j].1) {
          if j < |filed| {
            assert t[j] == filed[j];
          }
        }
        TallySnoc(rows, i, groups, matches, acc, next);
        acc := next;
        i := i + 1;
      }
      assert rows[..|rows|] == rows;
      assert Stats(t) == acc;
      table := t;
    }

    /** `to_report_str`: the groups' numbers sorted by `key`, largest first, cut to
        `limit`. */
    function ReportStr(key: Stat -> real, limit: Option<int>): (r: seq<Stat>)
      reads this, GroupsIn(table)
      ensures NonIncreasing(r, key)
      ensures multiset(r) <= multiset(StatValues(Stats(table)))
      ensures limit.None? || limit == Some(0) ==> multiset(r) == multiset(StatValues(Stats(table)))
    {
      var vs := StatValues(Stats(table));
      ReportOrdered(vs, key, limit);
      ReportLimit(vs, key, limit);
      Report(vs, key, limit)
    }
  }

  // The report.

  function StatValues(h: Hash<Key, Stat>): seq<Stat>
  {
    seq(|h|, j requires 0 <= j < |h| => h[j].1)
  }

  /** The block given to `to_report_str` in the three reports. */
  function TotalTimeKey(s: Stat): real { s.totalTime as real }

  function CountKey(s: Stat): real { s.count as real }

  /** The average as a sort key; a group without rows, which a table never holds, sorts
      as zero. */
  function AvgTimeKey(s: Stat): real
  {
    match MeanOf(s.totalTime, s.count)
    case Avg(v) => v
    case NaN => 0.0
  }

  predicate Ascending(s: seq<Stat>, key: Stat -> real)
  {
    forall i, j :: 0 <= i < j < |s| ==> key(s[i]) <= key(s[j])
  }

  predicate NonIncreasing(s: seq<Stat>, key: Stat -> real)
  {
    forall i, j :: 0 <= i < j < |s| ==> key(s[i]) >= key(s[j])
  }

  function InsertAscending(x: Stat, s: seq<Stat>, key: Stat -> real): (r: seq<Stat>)
    requires Ascending(s, key)
    ensures Ascending(r, key)
    ensures multiset(r) == multiset(s) + multiset{x}
  {
    if s == [] then [x]
    else if key(x) <= key(s[0]) then [x] + s
    else
      var rest := InsertAscending(x, s[1..], key);
      assert s == [s[0]] + s[1..];
      HeadBelowRest(x, s, rest, key);
      [s[0]] + rest
  }

  /** What is inserted behind the head of an ascending list stays above the head. */
  lemma HeadBelowRest(x: Stat, s: seq<Stat>, rest: seq<Stat>, key: Stat -> real)
    requires s != [] && Ascending(s, key) && key(x) > key(s[0])
    requires multiset(rest) == multiset(s[1..]) + multiset{x}
    ensures forall i :: 0 <= i < |rest| ==> key(s[0]) <= key(rest[i])
  {
    forall i | 0 <= i < |rest| ensures key(s[0]) <= key(rest[i]) {
      assert rest[i] in multiset(rest);
      if rest[i] != x {
        assert rest[i] in multiset(s[1..]);
        var j :| 0 <= j < |s[1..]| && s[1..][j] == rest[i];
        assert s[j + 1] == rest[i];
      }
    }
  }

  /** `sort_by(&blk)`: ascending in the key. Ruby does not fix the order of equal keys;
      this one keeps them in reverse of their original order. */
  function SortAscending(s: seq<Stat>, key: Stat -> real): (r: seq<Stat>)
    ensures Ascending(r, key)
    ensures multiset(r) == multiset(s)
  {
    if s == [] then []
    else
      assert s == [s[0]] + s[1..];
      InsertAscending(s[0], SortAscending(s[1..], key), key)
  }

  /** `xs[first..last]` for an inclusive `Range`: negative ends count from the back, a
      start outside the array gives nil, and the end is clamped to the array. */
  function RangeSlice(xs: seq<Stat>, first: int, last: int): (r: Option<seq<Stat>>)
    ensures first == 0 ==> r.Some? && |r.value| <= |xs| && r.value == xs[..|r.value|]
  {
    var n := |xs|;
    var start := if first < 0 then first + n else first;
    if start < 0 || start > n then None
    else
      var stop := (if last < 0 then last + n else last) + 1;
      var end := if stop > n then n else if stop < start then start else stop;
      Some(xs[start..end])
  }

  /** `limit ? 0..(limit - 1) : 0..-1`: the last index the report keeps. */
  function LastIndex(limit: Option<int>): int
  {
    if limit.Some? then limit.value - 1 else -1
  }

  /** `(values.sort_by(&blk).reverse)[range]`, before `map(&:to_s)`. */
  function Report(values: seq<Stat>, key: Stat -> real, limit: Option<int>): (r: seq<Stat>)
    ensures |r| <= |values|
    ensures limit.None? ==> |r| == |values|
  {
    var sorted := SortAscending(values, key);
    assert |multiset(sorted)| == |multiset(values)|;
    RangeSlice(Reversed(sorted), 0, LastIndex(limit)).value
  }

  /** The report lists groups largest key first, each a group of the table, no group
      twice. */
  lemma ReportOrdered(values: seq<Stat>, key: Stat -> real, limit: Option<int>)
    ensures NonIncreasing(Report(values, key, limit), key)
    ensures multiset(Report(values, key, limit)) <= multiset(values)
  {
    var sorted := SortAscending(values, key);
    var desc := Reversed(sorted);
    ReversedAt(sorted);
    var r := Report(values, key, limit);
    assert r == desc[..|r|];
    forall i, j | 0 <= i < j < |r| ensures key(r[i]) >= key(r[j]) {
      assert r[i] == sorted[|sorted| - 1 - i] && r[j] == sorted[|sorted| - 1 - j];
    }
    assert desc == r + desc[|r|..];
  }

  /** The script's three reports, by total time, by average time and by count: each is
      ordered by its own key, each lists groups of the table, and without a limit all
      three list the same groups. */
  lemma ThreeReports(t: GroupTable, limit: Option<int>)
    ensures NonIncreasing(t.ReportStr(TotalTimeKey, limit), TotalTimeKey)
    ensures NonIncreasing(t.ReportStr(AvgTimeKey, limit), AvgTimeKey)
    ensures NonIncreasing(t.ReportStr(CountKey, limit), CountKey)
    ensures limit.None? ==>
      && multiset(t.ReportStr(TotalTimeKey, limit)) == multiset(t.ReportStr(AvgTimeKey, limit))
      && multiset(t.ReportStr(AvgTimeKey, limit)) == multiset(t.ReportStr(CountKey, limit))
  {
  }

  /** How many groups the report keeps: all of them without a limit and, as `0..-1` is the
      whole array, with limit 0; the first min(n, size) for a limit n >= 1; and for a
      negative limit -m all but the last m. Whatever it keeps is a prefix of the full
      report. */
  lemma ReportLimit(values: seq<Stat>, key: Stat -> real, limit: Option<int>)
    ensures limit.None? || limit == Some(0) ==>
      Report(values, key, limit) == Reversed(SortAscending(values, key))
    ensures limit.Some? && limit.value >= 1 ==>
      |Report(values, key, limit)| == if limit.value < |values| then limit.value else |values|
    ensures limit.Some? && limit.value < 0 ==>
      |Report(values, key, limit)| == if |values| + limit.value > 0 then |values| + limit.value else 0
    ensures |Report(values, key, limit)| <= |values|
    ensures Report(values, key, limit) == Report(values, key, None)[..|Report(values, key, limit)|]
    ensures limit.None? || limit == Some(0) ==>
      multiset(Report(values, key, limit)) == multiset(values)
  {
    var sorted := SortAscending(values, key);
    ReversedAt(sorted);
    var desc := Reversed(sorted);
    assert |desc| == |values| by {
      assert |multiset(sorted)| == |multiset(values)|;
    }
    LimitSlice(desc, limit);
    LimitSlice(desc, None);
  }

  /** The slice `0..(limit - 1)`, or `0..-1` without a limit, of a list of `n` items. */
  lemma LimitSlice(xs: seq<Stat>, limit: Option<int>)
    ensures var r := RangeSlice(xs, 0, LastIndex(limit)).value;
      && (limit.None? || limit == Some(0) ==> r == xs)
      && (limit.Some? && limit.value >= 1 ==> |r| == if limit.value < |xs| then limit.value else |xs|)
      && (limit.Some? && limit.value < 0 ==> |r| == if |xs| + limit.value > 0 then |xs| + limit.value else 0)
  {
    assert xs[0..|xs|] == xs;
  }
}
