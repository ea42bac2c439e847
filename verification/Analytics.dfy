/** Repair-order analytics: grouped counts become a report with totals per group, per visible
    status and overall, and with percentages rounded to two decimals. */
module Analytics {
  import opened Wrappers

  /** A group that appears in the report even when nothing is counted for it. */
  datatype Definition = Definition(id: Option<string>, key: string, title: string, sort: int)

  datatype CountRow = CountRow(groupId: Option<string>, groupKey: string, groupTitle: string, status: string,
      count: nat)

  datatype Group = Group(id: Option<string>, key: string, title: string, sort: int, total: nat,
      statusCounts: map<string, nat>)

  datatype Metric = Metric(count: nat, percentOfTotal: real)
  datatype GroupMetric = GroupMetric(count: nat, percentOfGroup: real, percentOfTotal: real)
  datatype Row = Row(index: nat, id: Option<string>, key: string, title: string, count: nat, percentOfTotal: real,
                     metrics: map<string, GroupMetric>)

  datatype Response = Response(total: nat, percentOfTotal: real, summary: map<string, Metric>, rows: seq<Row>)

  const MAX_SAFE_INTEGER := 9007199254740991

  // What is counted

  datatype Which = Everything | OfGroup(key: string) | OfStatus(status: string) | OfBoth(k: string, s: string)

  predicate Matches(w: Which, row: CountRow) {
    match w
    case Everything => true
    case OfGroup(key) => row.groupKey == key
    case OfStatus(status) => row.status == status
    case OfBoth(k, s) => row.groupKey == k && row.status == s
  }

  function SumOf(counts: seq<CountRow>, w: Which): nat {
    if counts == [] then 0
    else
      var last := counts[|counts| - 1];
      SumOf(counts[..|counts| - 1], w) + if Matches(w, last) then last.count else 0
  }

  lemma SumOfPrefix(counts: seq<CountRow>, i: nat, w: Which)
    requires i < |counts|
    ensures SumOf(counts[..i + 1], w) == SumOf(counts[..i], w) + if Matches(w, counts[i]) then counts[i].count else 0
  {
    assert counts[..i + 1][..i] == counts[..i];
  }

  /** A sum grows by a row's count exactly when the row is one of those summed. */
  lemma SumsCount(counts: seq<CountRow>, r: CountRow, w: Which)
    ensures SumOf([], w) == 0
    ensures match w
            case Everything => SumOf(counts + [r], w) == SumOf(counts, w) + r.count
            case OfGroup(key) => SumOf(counts + [r], w) == SumOf(counts, w) + if r.groupKey == key then r.count else 0
            case OfStatus(status) =>
              SumOf(counts + [r], w) == SumOf(counts, w) + if r.status == status then r.count else 0
            case OfBoth(key, status) =>
              SumOf(counts + [r], w) ==
              SumOf(counts, w) + if r.groupKey == key && r.status == status then r.count else 0
  {
    assert (counts + [r])[..|counts|] == counts;
  }

  // Percentages, in exact arithmetic

  /** Math.round: halves go up. */
  function Round(x: real): int {
    (x + 0.5).Floor
  }

  function Percent(count: nat, total: nat): real {
    if total == 0 then 0.0 else Round(count as real / total as real * 10000.0) as real / 100.0
  }

  lemma ShareBounds(count: nat, total: nat)
    requires 0 < total && count <= total
    ensures 0.0 <= count as real / total as real <= 1.0
  {
    var share, whole := count as real / total as real, total as real;
    assert share * whole == count as real;
    if share > 1.0 {
      Scale(1.0, share, whole);
    } else if share < 0.0 {
      Scale(share, 0.0, whole);
    }
  }

  lemma Scale(a: real, b: real, c: real)
    requires a < b && 0.0 < c
    ensures a * c < b * c
  {
    assert 0.0 < (b - a) * c;
  }

  /** The whole number nearest to the share in hundredths of a percent, the upper one of two. */
  ghost predicate IsNearest(count: nat, total: nat, k: int)
    requires 0 < total
  {
    k as real - 0.5 <= count as real / total as real * 10000.0 < k as real + 0.5
  }

  lemma PercentIsShare(count: nat, total: nat)
    requires count <= total
    ensures total == 0 ==> Percent(count, total) == 0.0
    ensures 0 < total ==> exists k :: IsNearest(count, total, k) && Percent(count, total) == k as real / 100.0
    ensures 0.0 <= Percent(count, total) <= 100.0
    ensures 0 < total ==> var exact := count as real / total as real * 100.0;
                          exact - 0.005 <= Percent(count, total) <= exact + 0.005
  {
    if 0 < total {
      ShareBounds(count, total);
      var x := count as real / total as real * 10000.0;
      assert Round(x) as real <= x + 0.5 < Round(x) as real + 1.0;
      assert 0 <= Round(x) <= 10000 && IsNearest(count, total, Round(x));
    }
  }

  // Sums over groups

  function SumOver(keys: seq<string>, f: string -> nat): nat {
    if keys == [] then 0 else f(keys[0]) + SumOver(keys[1..], f)
  }

  ghost predicate NoRepeats(keys: seq<string>) {
    forall i, j :: 0 <= i < j < |keys| ==> keys[i] != keys[j]
  }

  lemma {:induction false} SumOverOneMore(keys: seq<string>, f: string -> nat, g: string -> nat, key: string,
                                          count: nat)
    requires NoRepeats(keys)
    requires forall k :: k in keys ==> g(k) == f(k) + if k == key then count else 0
    ensures SumOver(keys, g) == SumOver(keys, f) + if key in keys then count else 0
  {
    if keys != [] {
      SumOverOneMore(keys[1..], f, g, key, count);
      if keys[0] == key {
        assert key !in keys[1..];
      }
    }
  }

  lemma {:induction false} SumOverZero(keys: seq<string>, f: string -> nat)
    requires forall k :: k in keys ==> f(k) == 0
    ensures SumOver(keys, f) == 0
  {
    if keys != [] {
      SumOverZero(keys[1..], f);
    }
  }

  /** Groups without repeats that cover the counts split every total. */
  lemma {:induction false} GroupsSplitTotal(keys: seq<string>, counts: seq<CountRow>)
    requires NoRepeats(keys) && forall r :: r in counts ==> r.groupKey in keys
    ensures SumOver(keys, k => SumOf(counts, OfGroup(k))) == SumOf(counts, Everything)
  {
    if counts == [] {
      SumOverZero(keys, k => SumOf(counts, OfGroup(k)));
    } else {
      var n := |counts| - 1;
      var before, last := counts[..n], counts[n];
      assert last in counts;
      GroupsSplitTotal(keys, before);
      SumOverOneMore(keys, k => SumOf(before, OfGroup(k)), k => SumOf(counts, OfGroup(k)), last.groupKey, last.count);
    }
  }

  lemma {:induction false} GroupsSplitStatus(keys: seq<string>, counts: seq<CountRow>, s: string)
    requires NoRepeats(keys) && forall r :: r in counts ==> r.groupKey in keys
    ensures SumOver(keys, k => SumOf(counts, OfBoth(k, s))) == SumOf(counts, OfStatus(s))
  {
    if counts == [] {
      SumOverZero(keys, k => SumOf(counts, OfBoth(k, s)));
    } else {
      var n := |counts| - 1;
      var before, last := counts[..n], counts[n];
      assert last in counts;
      GroupsSplitStatus(keys, before, s);
      SumOverOneMore(keys, k => SumOf(before, OfBoth(k, s)), k => SumOf(counts, OfBoth(k, s)), last.groupKey,
                     if last.status == s then last.count else 0);
    }
  }

  /** Statuses without repeats count no lead of a group twice. */
  lemma {:induction false} StatusesWithinGroup(statuses: seq<string>, counts: seq<CountRow>, key: string)
    requires NoRepeats(statuses)
    ensures SumOver(statuses, s => SumOf(counts, OfBoth(key, s))) <= SumOf(counts, OfGroup(key))
    ensures (forall r :: r in counts ==> r.status in statuses) ==>
              SumOver(statuses, s => SumOf(counts, OfBoth(key, s))) == SumOf(counts, OfGroup(key))
  {
    if counts == [] {
      SumOverZero(statuses, s => SumOf(counts, OfBoth(key, s)));
    } else {
      var n := |counts| - 1;
      var before, last := counts[..n], counts[n];
      assert last in counts && forall r :: r in before ==> r in counts;
      StatusesWithinGroup(statuses, before, key);
      SumOverOneMore(statuses, s => SumOf(before, OfBoth(key, s)), s => SumOf(counts, OfBoth(key, s)), last.status,
                     if last.groupKey == key then last.count else 0);
    }
  }

  lemma {:induction false} PartsWithinWhole(counts: seq<CountRow>, key: string, s: string)
    ensures SumOf(counts, OfBoth(key, s)) <= SumOf(counts, OfGroup(key)) <= SumOf(counts, Everything)
    ensures SumOf(counts, OfBoth(key, s)) <= SumOf(counts, OfStatus(s)) <= SumOf(counts, Everything)
  {
    if counts != [] {
      PartsWithinWhole(counts[..|counts| - 1], key, s);
    }
  }

  // Order of the rows

  /** `compare` stands for localeCompare: negative, zero or positive. */
  ghost predicate IsCollation(compare: (string, string) -> int) {
    && (forall a, b :: compare(a, b) <= 0 || compare(b, a) <= 0)
    && forall a, b, c :: compare(a, b) <= 0 && compare(b, c) <= 0 ==> compare(a, c) <= 0
  }

  /** May the first group stand before the second: more leads, then sort, then label. */
  predicate NotAfter(a: Group, b: Group, compare: (string, string) -> int) {
    a.total > b.total
    || (a.total == b.total && (a.sort < b.sort || (a.sort == b.sort && compare(a.title, b.title) <= 0)))
  }

  predicate Tied(a: Group, b: Group, compare: (string, string) -> int) {
    NotAfter(a, b, compare) && NotAfter(b, a, compare)
  }

  function Insert(sorted: seq<Group>, g: Group, compare: (string, string) -> int): seq<Group> {
    if sorted == [] || NotAfter(sorted[|sorted| - 1], g, compare) then sorted + [g]
    else Insert(sorted[..|sorted| - 1], g, compare) + [sorted[|sorted| - 1]]
  }

  /** Array.sort, which is stable. */
  function Sort(groups: seq<Group>, compare: (string, string) -> int): seq<Group> {
    if groups == [] then [] else Insert(Sort(groups[..|groups| - 1], compare), groups[|groups| - 1], compare)
  }

  ghost predicate Sorted(groups: seq<Group>, compare: (string, string) -> int) {
    forall i, j :: 0 <= i < j < |groups| ==> NotAfter(groups[i], groups[j], compare)
  }

  function TiedWith(groups: seq<Group>, g: Group, compare: (string, string) -> int): seq<Group> {
    if groups == [] then []
    else
      var last := groups[|groups| - 1];
      TiedWith(groups[..|groups| - 1], g, compare) + if Tied(last, g, compare) then [last] else []
  }

  lemma {:induction false} InsertHolds(sorted: seq<Group>, g: Group, compare: (string, string) -> int)
    ensures multiset(Insert(sorted, g, compare)) == multiset(sorted) + multiset{g}
  {
    hide NotAfter;
    if sorted != [] {
      var front := sorted[..|sorted| - 1];
      InsertHolds(front, g, compare);
      assert sorted == front + [sorted[|sorted| - 1]];
    }
  }

  lemma {:induction false} InsertSorts(sorted: seq<Group>, g: Group, compare: (string, string) -> int)
    requires IsCollation(compare) && Sorted(sorted, compare)
    ensures Sorted(Insert(sorted, g, compare), compare)
  {
    var n := |sorted| - 1;
    if sorted != [] && !NotAfter(sorted[n], g, compare) {
      var front, last := sorted[..n], sorted[n];
      OneOrOther(last, g, compare);
      hide NotAfter, IsCollation;
      InsertSorts(front, g, compare);
      InsertHolds(front, g, compare);
      var inner := Insert(front, g, compare);
      assert forall x :: x in front ==> NotAfter(x, last, compare);
      forall i | 0 <= i < |inner|
        ensures NotAfter(inner[i], last, compare)
      {
        assert inner[i] in multiset(inner);
        assert inner[i] in front || inner[i] == g;
      }
      LastIsSorted(inner, last, compare);
    } else {
      hide NotAfter, IsCollation;
      forall i | 0 <= i < |sorted|
        ensures NotAfter(sorted[i], g, compare)
      {
        if i < n {
          NotAfterChains(sorted[i], sorted[n], g, compare);
        }
      }
      LastIsSorted(sorted, g, compare);
    }
  }

  lemma LastIsSorted(groups: seq<Group>, g: Group, compare: (string, string) -> int)
    requires Sorted(groups, compare) && forall i :: 0 <= i < |groups| ==> NotAfter(groups[i], g, compare)
    ensures Sorted(groups + [g], compare)
  {
    hide NotAfter;
  }

  lemma OneOrOther(a: Group, b: Group, compare: (string, string) -> int)
    requires IsCollation(compare)
    ensures NotAfter(a, b, compare) || NotAfter(b, a, compare)
  {
  }

  lemma NotAfterChains(a: Group, b: Group, c: Group, compare: (string, string) -> int)
    requires IsCollation(compare) && NotAfter(a, b, compare) && NotAfter(b, c, compare)
    ensures NotAfter(a, c, compare)
  {
  }

  lemma {:induction false} InsertIsStable(sorted: seq<Group>, g: Group, compare: (string, string) -> int, x: Group)
    requires IsCollation(compare)
    ensures TiedWith(Insert(sorted, g, compare), x, compare) == TiedWith(sorted + [g], x, compare)
  {
    var n := |sorted| - 1;
    assert (sorted + [g])[..|sorted|] == sorted;
    if sorted != [] && !NotAfter(sorted[n], g, compare) {
      var front, last := sorted[..n], sorted[n];
      InsertIsStable(front, g, compare, x);
      assert (Insert(front, g, compare) + [last])[..|Insert(front, g, compare)|] == Insert(front, g, compare);
      assert (front + [g])[..|front|] == front;
      NotBothTied(last, g, x, compare);
    }
  }

  lemma NotBothTied(a: Group, b: Group, x: Group, compare: (string, string) -> int)
    requires IsCollation(compare) && !NotAfter(a, b, compare)
    ensures !(Tied(a, x, compare) && Tied(b, x, compare))
  {
    if NotAfter(a, x, compare) && NotAfter(x, b, compare) {
      NotAfterChains(a, x, b, compare);
    }
  }

  /** The sorted list holds the same groups ... */
  lemma {:induction false} SortHolds(groups: seq<Group>, compare: (string, string) -> int)
    ensures multiset(Sort(groups, compare)) == multiset(groups)
  {
    if groups != [] {
      var front, last := groups[..|groups| - 1], groups[|groups| - 1];
      SortHolds(front, compare);
      InsertHolds(Sort(front, compare), last, compare);
      assert groups == front + [last];
    }
  }

  /** ... in order ... */
  lemma {:induction false} SortSorts(groups: seq<Group>, compare: (string, string) -> int)
    requires IsCollation(compare)
    ensures Sorted(Sort(groups, compare), compare)
  {
    if groups != [] {
      SortSorts(groups[..|groups| - 1], compare);
      InsertSorts(Sort(groups[..|groups| - 1], compare), groups[|groups| - 1], compare);
    }
  }

  /** ... and tied ones in their former order. */
  lemma {:induction false} SortIsStable(groups: seq<Group>, compare: (string, string) -> int, x: Group)
    requires IsCollation(compare)
    ensures TiedWith(Sort(groups, compare), x, compare) == TiedWith(groups, x, compare)
  {
    if groups != [] {
      var front, last := groups[..|groups| - 1], groups[|groups| - 1];
      SortIsStable(front, compare, x);
      InsertIsStable(Sort(front, compare), last, compare, x);
      assert (Sort(front, compare) + [last])[..|Sort(front, compare)|] == Sort(front, compare);
    }
  }

  // The groups

  function Get(m: map<string, nat>, k: string): nat {
    if k in m then m[k] else 0
  }

  /** The definition that counts: a later one with the same key replaces an earlier one. */
  function DefinitionOf(definitions: seq<Definition>, key: string): Option<Definition> {
    if definitions == [] then None
    else if definitions[|definitions| - 1].key == key then Some(definitions[|definitions| - 1])
    else DefinitionOf(definitions[..|definitions| - 1], key)
  }

  function FirstRow(counts: seq<CountRow>, key: string): Option<CountRow> {
    if counts == [] then None
    else if FirstRow(counts[..|counts| - 1], key).Some? then FirstRow(counts[..|counts| - 1], key)
    else if counts[|counts| - 1].groupKey == key then Some(counts[|counts| - 1])
    else None
  }

  predicate Seen(counts: seq<CountRow>, key: string, status: string) {
    exists r :: r in counts && r.groupKey == key && r.status == status
  }

  function StatusCounts(visible: set<string>, counts: seq<CountRow>, key: string): map<string, nat> {
    map s | s in visible && Seen(counts, key, s) :: SumOf(counts, OfBoth(key, s))
  }

  predicate Known(definitions: seq<Definition>, counts: seq<CountRow>, key: string) {
    DefinitionOf(definitions, key).Some? || FirstRow(counts, key).Some?
  }

  /** The group of a key, from its definition or else from the first row that names it. */
  function GroupFor(visible: set<string>, definitions: seq<Definition>, counts: seq<CountRow>, key: string): Group {
    var definition, row := DefinitionOf(definitions, key), FirstRow(counts, key);
    var total, statusCounts := SumOf(counts, OfGroup(key)), StatusCounts(visible, counts, key);
    if definition.Some? then
      Group(definition.value.id, key, definition.value.title, definition.value.sort, total, statusCounts)
    else if row.Some? then Group(row.value.groupId, key, row.value.groupTitle, MAX_SAFE_INTEGER, total, statusCounts)
    else Group(None, key, "", MAX_SAFE_INTEGER, total, statusCounts)
  }

  function NewGroup(r: CountRow): Group {
    Group(r.groupId, r.groupKey, r.groupTitle, MAX_SAFE_INTEGER, 0, map[])
  }

  function Counted(visible: set<string>, g: Group, r: CountRow): Group {
    Group(g.id, g.key, g.title, g.sort, g.total + r.count,
          if r.status in visible then g.statusCounts[r.status := Get(g.statusCounts, r.status) + r.count]
              else g.statusCounts)
  }

  lemma NothingSeen(counts: seq<CountRow>, key: string)
    requires FirstRow(counts, key).None?
    ensures forall r :: r in counts ==> r.groupKey != key
    ensures SumOf(counts, OfGroup(key)) == 0
  {
    if counts != [] {
      NothingSeen(counts[..|counts| - 1], key);
    }
  }

  lemma {:induction false} UnseenIsZero(counts: seq<CountRow>, key: string, s: string)
    requires !Seen(counts, key, s)
    ensures SumOf(counts, OfBoth(key, s)) == 0
  {
    if counts != [] {
      var last := counts[|counts| - 1];
      assert last in counts;
      assert forall r :: r in counts[..|counts| - 1] ==> r in counts;
      UnseenIsZero(counts[..|counts| - 1], key, s);
    }
  }

  lemma SeenStep(counts: seq<CountRow>, i: nat, key: string, s: string)
    requires i < |counts|
    ensures Seen(counts[..i + 1], key, s) <==>
        Seen(counts[..i], key, s) || (counts[i].groupKey == key && counts[i].status == s)
  {
    assert counts[..i + 1] == counts[..i] + [counts[i]];
    assert forall q :: q in counts[..i + 1] <==> q in counts[..i] || q == counts[i];
  }

  lemma StatusStep(visible: set<string>, counts: seq<CountRow>, i: nat, key: string)
    requires i < |counts|
    ensures var r, before := counts[i], StatusCounts(visible, counts[..i], key);
            StatusCounts(visible, counts[..i + 1], key) ==
            if r.groupKey == key && r.status in visible then before[r.status := Get(before, r.status) + r.count]
                else before
  {
    hide SumOf, Seen;
    var r := counts[i];
    forall s
      ensures Seen(counts[..i + 1], key, s) <==> Seen(counts[..i], key, s) || (r.groupKey == key && r.status == s)
      ensures SumOf(counts[..i + 1], OfBoth(key, s)) ==
              SumOf(counts[..i], OfBoth(key, s)) + if r.groupKey == key && r.status == s then r.count else 0
    {
      SumOfPrefix(counts, i, OfBoth(key, s));
      SeenStep(counts, i, key, s);
    }
    if !Seen(counts[..i], key, r.status) {
      UnseenIsZero(counts[..i], key, r.status);
    }
  }

  lemma FirstRowStep(visible: set<string>, counts: seq<CountRow>, i: nat, key: string)
    requires i < |counts|
    ensures FirstRow(counts[..i + 1], key) ==
            if FirstRow(counts[..i], key).Some? then FirstRow(counts[..i], key)
            else if counts[i].groupKey == key then Some(counts[i]) else None
    ensures FirstRow(counts[..i], key).None? ==> SumOf(counts[..i], OfGroup(key)) == 0
    ensures FirstRow(counts[..i], key).None? ==> StatusCounts(visible, counts[..i], key) == map[]
  {
    assert counts[..i + 1][..i] == counts[..i];
    if FirstRow(counts[..i], key).None? {
      NothingSeen(counts[..i], key);
    }
  }

  /** One row more changes only the group it names. */
  lemma GroupStep(visible: set<string>, definitions: seq<Definition>, counts: seq<CountRow>, i: nat, key: string)
    requires i < |counts|
    ensures var r, before := counts[i], GroupFor(visible, definitions, counts[..i], key);
            GroupFor(visible, definitions, counts[..i + 1], key) ==
            if r.groupKey != key then before
            else if Known(definitions, counts[..i], key) then Counted(visible, before, r)
            else Counted(visible, NewGroup(r), r)
    ensures Known(definitions, counts[..i + 1], key) <==>
        Known(definitions, counts[..i], key) || counts[i].groupKey == key
  {
    hide SumOf, FirstRow, DefinitionOf, StatusCounts;
    StatusStep(visible, counts, i, key);
    SumOfPrefix(counts, i, OfGroup(key));
    FirstRowStep(visible, counts, i, key);
  }

  /** Keys in the order in which a Map keeps them. */
  function KeyOrder(definitions: seq<Definition>, counts: seq<CountRow>): seq<string> {
    if counts != [] then
      var before, key := KeyOrder(definitions, counts[..|counts| - 1]), counts[|counts| - 1].groupKey;
      if key in before then before else before + [key]
    else if definitions != [] then
      var before, key := KeyOrder(definitions[..|definitions| - 1], []), definitions[|definitions| - 1].key;
      if key in before then before else before + [key]
    else []
  }

  lemma {:induction false} KeyOrderHoldsKnown(definitions: seq<Definition>, counts: seq<CountRow>)
    ensures NoRepeats(KeyOrder(definitions, counts))
    ensures forall k :: k in KeyOrder(definitions, counts) <==> Known(definitions, counts, k)
    decreases |counts|, |definitions|
  {
    if counts != [] {
      KeyOrderHoldsKnown(definitions, counts[..|counts| - 1]);
    } else if definitions != [] {
      KeyOrderHoldsKnown(definitions[..|definitions| - 1], []);
    }
  }

  // The report

  function Groups(visible: set<string>, definitions: seq<Definition>, counts: seq<CountRow>): seq<Group> {
    var order := KeyOrder(definitions, counts);
    seq(|order|, i requires 0 <= i < |order| => GroupFor(visible, definitions, counts, order[i]))
  }

  function RowOf(statuses: set<string>, total: nat, g: Group, i: nat): Row {
    Row(i + 1, g.id, g.key, g.title, g.total, Percent(g.total, total),
        map s | s in statuses ::
          GroupMetric(Get(g.statusCounts, s), Percent(Get(g.statusCounts, s), g.total),
              Percent(Get(g.statusCounts, s), total)))
  }

  /** What the report says, in terms of the counts alone. */
  ghost predicate Reports(statuses: set<string>, definitions: seq<Definition>, counts: seq<CountRow>,
                          compare: (string, string) -> int, response: Response) {
    var sorted := Sort(Groups(statuses, definitions, counts), compare);
    && response.total == SumOf(counts, Everything)
    && response.percentOfTotal == (if response.total > 0 then 100.0 else 0.0)
    && response.summary.Keys == statuses
    && (forall s :: s in statuses ==>
          response.summary[s] == Metric(SumOf(counts, OfStatus(s)),
              Percent(SumOf(counts, OfStatus(s)), response.total)))
    && |response.rows| == |sorted|
    && forall i :: 0 <= i < |sorted| ==> response.rows[i] == RowOf(statuses, response.total, sorted[i], i)
  }

  lemma SummaryStep(visible: set<string>, counts: seq<CountRow>, i: nat, summary: map<string, nat>)
    requires i < |counts|
    requires forall s :: s in visible ==> Get(summary, s) == SumOf(counts[..i], OfStatus(s))
    ensures var r := counts[i];
            var after := if r.status in visible then summary[r.status := Get(summary, r.status) + r.count] else summary;
            forall s :: s in visible ==> Get(after, s) == SumOf(counts[..i + 1], OfStatus(s))
  {
    forall s | s in visible
      ensures SumOf(counts[..i + 1], OfStatus(s)) ==
              SumOf(counts[..i], OfStatus(s)) + if counts[i].status == s then counts[i].count else 0
    {
      SumOfPrefix(counts, i, OfStatus(s));
    }
  }

  /** Are these the groups of exactly the keys seen so far? */
  ghost predicate Collected(visible: set<string>, definitions: seq<Definition>, counts: seq<CountRow>,
                            groups: map<string, Group>, order: seq<string>) {
    && order == KeyOrder(definitions, counts)
    && (forall k :: k in groups <==> Known(definitions, counts, k))
    && forall k :: k in groups ==> groups[k] == GroupFor(visible, definitions, counts, k)
  }

  lemma DefinitionCollected(visible: set<string>, definitions: seq<Definition>, i: nat, groups: map<string, Group>,
                            order: seq<string>)
    requires i < |definitions| && Collected(visible, definitions[..i], [], groups, order)
    ensures var d := definitions[i];
            Collected(visible, definitions[..i + 1], [], groups[d.key := Group(d.id, d.key, d.title, d.sort, 0, map[])],
                      if d.key in groups then order else order + [d.key])
  {
    assert definitions[..i + 1][..i] == definitions[..i];
    KeyOrderHoldsKnown(definitions[..i], []);
    assert forall k :: StatusCounts(visible, [], k) == map[];
    hide StatusCounts;
  }

  lemma RowCollected(visible: set<string>, definitions: seq<Definition>, counts: seq<CountRow>, i: nat,
                     groups: map<string, Group>, order: seq<string>)
    requires i < |counts| && Collected(visible, definitions, counts[..i], groups, order)
    ensures var r := counts[i];
            Collected(visible, definitions, counts[..i + 1],
                      groups[r.groupKey := Counted(visible,
                          if r.groupKey in groups then groups[r.groupKey] else NewGroup(r), r)],
                      if r.groupKey in groups then order else order + [r.groupKey])
  {
    assert counts[..i + 1][..i] == counts[..i];
    KeyOrderHoldsKnown(definitions, counts[..i]);
    hide GroupFor, Known, Counted, NewGroup;
    forall k
      ensures Known(definitions, counts[..i + 1], k) <==> Known(definitions, counts[..i], k) || k == counts[i].groupKey
      ensures GroupFor(visible, definitions, counts[..i + 1], k) ==
              if counts[i].groupKey != k then GroupFor(visible, definitions, counts[..i], k)
              else if Known(definitions, counts[..i], k)
                  then Counted(visible, GroupFor(visible, definitions, counts[..i], k), counts[i])
              else Counted(visible, NewGroup(counts[i]), counts[i])
    {
      GroupStep(visible, definitions, counts, i, k);
    }
  }

  lemma CollectedInOrder(visible: set<string>, definitions: seq<Definition>, counts: seq<CountRow>,
                         groups: map<string, Group>, order: seq<string>)
    requires Collected(visible, definitions, counts, groups, order)
    ensures forall k :: k in order ==> k in groups
    ensures |Groups(visible, definitions, counts)| == |order|
    ensures forall i :: 0 <= i < |order| ==>
        order[i] in groups && groups[order[i]] == Groups(visible, definitions, counts)[i]
  {
    KeyOrderHoldsKnown(definitions, counts);
    hide GroupFor, Known;
    forall i | 0 <= i < |order|
      ensures order[i] in groups
    {
      assert order[i] in order;
    }
  }

  /** Counts become groups, totals and percentages in one pass. */
  method MapCountsToResponse(statusIds: seq<string>, definitions: seq<Definition>, counts: seq<CountRow>,
                             compare: (string, string) -> int)
    returns (response: Response)
    ensures Reports((set s | s in statusIds), definitions, counts, compare, response)
  {
    hide Collected, SumOf, KeyOrder, GroupFor, Sort, Percent;
    var visible := set s | s in statusIds;
    var groups: map<string, Group>, order: seq<string> := map[], [];
    var summaryCounts: map<string, nat>, totalLeads := map[], 0;
    NothingCollected(visible);
    for i := 0 to |definitions|
      invariant Collected(visible, definitions[..i], [], groups, order)
    {
      var d := definitions[i];
      DefinitionCollected(visible, definitions, i, groups, order);
      order := if d.key in groups then order else order + [d.key];
      groups := groups[d.key := Group(d.id, d.key, d.title, d.sort, 0, map[])];
    }
    assert definitions[..|definitions|] == definitions && counts[..0] == [];
    NoCounts(visible);
    for i := 0 to |counts|
      invariant Collected(visible, definitions, counts[..i], groups, order)
      invariant totalLeads == SumOf(counts[..i], Everything)
      invariant forall s :: s in visible ==> Get(summaryCounts, s) == SumOf(counts[..i], OfStatus(s))
    {
      var r := counts[i];
      RowCollected(visible, definitions, counts, i, groups, order);
      SumOfPrefix(counts, i, Everything);
      SummaryStep(visible, counts, i, summaryCounts);
      ghost var before := groups;
      if r.groupKey !in groups {
        groups := groups[r.groupKey := NewGroup(r)];
        order := order + [r.groupKey];
      }
      groups := groups[r.groupKey := Counted(visible, groups[r.groupKey], r)];
      assert groups == before[r.groupKey := groups[r.groupKey]];
      totalLeads := totalLeads + r.count;
      if r.status in visible {
        summaryCounts := summaryCounts[r.status := Get(summaryCounts, r.status) + r.count];
      }
    }
    assert counts[..|counts|] == counts;
    CollectedInOrder(visible, definitions, counts, groups, order);
    var summary := map s | s in visible :: Metric(Get(summaryCounts, s), Percent(Get(summaryCounts, s), totalLeads));
    var values := seq(|order|, i requires 0 <= i < |order| && order[i] in groups => groups[order[i]]);
    assert values == Groups(visible, definitions, counts);
    var sorted := Sort(values, compare);
    var rows := seq(|sorted|, i requires 0 <= i < |sorted| => RowOf(visible, totalLeads, sorted[i], i));
    response := Response(totalLeads, if totalLeads > 0 then 100.0 else 0.0, summary, rows);
  }

  lemma NothingCollected(visible: set<string>)
    ensures Collected(visible, [], [], map[], [])
  {
  }

  lemma NoCounts(visible: set<string>)
    ensures SumOf([], Everything) == 0
    ensures forall s :: SumOf([], OfStatus(s)) == 0
  {
  }

  // What the report conserves

  function Keys(rows: seq<Row>): (keys: seq<string>)
    ensures |keys| == |rows| && forall i :: 0 <= i < |rows| ==> keys[i] == rows[i].key
  {
    seq(|rows|, i requires 0 <= i < |rows| => rows[i].key)
  }

  function RowTotal(rows: seq<Row>): nat {
    if rows == [] then 0 else rows[0].count + RowTotal(rows[1..])
  }

  function RowStatusTotal(rows: seq<Row>, s: string): nat
    requires forall r :: r in rows ==> s in r.metrics
  {
    if rows == [] then 0 else rows[0].metrics[s].count + RowStatusTotal(rows[1..], s)
  }

  function PercentTotal(rows: seq<Row>): real {
    if rows == [] then 0.0 else rows[0].percentOfTotal + PercentTotal(rows[1..])
  }

  lemma TwiceCountsTwo(groups: seq<Group>, i: nat, j: nat)
    requires i < j < |groups| && groups[i] == groups[j]
    ensures multiset(groups)[groups[i]] >= 2
  {
    assert groups == groups[..i] + [groups[i]] + groups[i + 1..j] + [groups[j]] + groups[j + 1..];
  }

  lemma {:induction false} OnceCountsOne(groups: seq<Group>, x: Group)
    requires forall i, j :: 0 <= i < j < |groups| ==> groups[i] != groups[j]
    ensures multiset(groups)[x] <= 1
  {
    if groups != [] {
      var front, last := groups[..|groups| - 1], groups[|groups| - 1];
      OnceCountsOne(front, x);
      assert groups == front + [last];
      assert last !in front;
    }
  }

  lemma GroupsFollowKeys(statuses: set<string>, definitions: seq<Definition>, counts: seq<CountRow>)
    ensures var groups, order := Groups(statuses, definitions, counts), KeyOrder(definitions, counts);
            && |groups| == |order|
            && forall i :: 0 <= i < |groups| ==>
                groups[i].key == order[i] && groups[i] == GroupFor(statuses, definitions, counts, groups[i].key)
  {
    hide KeyOrder, StatusCounts, SumOf, DefinitionOf, FirstRow;
  }

  lemma SortedAreGroups(statuses: set<string>, definitions: seq<Definition>, counts: seq<CountRow>,
                        compare: (string, string) -> int)
    ensures var sorted, order := Sort(Groups(statuses, definitions, counts), compare), KeyOrder(definitions, counts);
            && |sorted| == |order|
            && forall i :: 0 <= i < |sorted| ==>
                sorted[i].key in order && sorted[i] == GroupFor(statuses, definitions, counts, sorted[i].key)
  {
    hide GroupFor, Sort, KeyOrder, Groups;
    var groups := Groups(statuses, definitions, counts);
    var sorted := Sort(groups, compare);
    GroupsFollowKeys(statuses, definitions, counts);
    SortHolds(groups, compare);
    assert |sorted| == |multiset(sorted)| == |groups|;
    forall i | 0 <= i < |sorted|
      ensures sorted[i].key in KeyOrder(definitions, counts)
          && sorted[i] == GroupFor(statuses, definitions, counts, sorted[i].key)
    {
      assert sorted[i] in multiset(sorted) && sorted[i] in groups;
      var j :| 0 <= j < |groups| && groups[j] == sorted[i];
      assert KeyOrder(definitions, counts)[j] in KeyOrder(definitions, counts);
    }
  }

  /** The rows are the groups of exactly the defined and the counted keys, each once. */
  lemma RowsAreGroups(statuses: set<string>, definitions: seq<Definition>, counts: seq<CountRow>,
                      compare: (string, string) -> int, response: Response)
    requires Reports(statuses, definitions, counts, compare, response)
    ensures var keys := Keys(response.rows);
            NoRepeats(keys) && forall k :: k in keys <==> Known(definitions, counts, k)
    ensures forall i :: 0 <= i < |response.rows| ==>
              response.rows[i] == RowOf(statuses, response.total,
                  GroupFor(statuses, definitions, counts, response.rows[i].key), i)
  {
    hide GroupFor, Sort, KeyOrder, Known, Groups, SumOf, Percent;
    var order := KeyOrder(definitions, counts);
    var groups := Groups(statuses, definitions, counts);
    var sorted := Sort(groups, compare);
    KeyOrderHoldsKnown(definitions, counts);
    SortHolds(groups, compare);
    GroupsFollowKeys(statuses, definitions, counts);
    SortedAreGroups(statuses, definitions, counts, compare);
    var keys := Keys(response.rows);
    forall i, j | 0 <= i < j < |keys|
      ensures keys[i] != keys[j]
    {
      if sorted[i] == sorted[j] {
        TwiceCountsTwo(sorted, i, j);
        OnceCountsOne(groups, sorted[i]);
      }
    }
    forall k | k in order
      ensures k in keys
    {
      var j :| 0 <= j < |order| && order[j] == k;
      assert groups[j] in multiset(groups) && groups[j] in sorted;
      var i :| 0 <= i < |sorted| && sorted[i] == groups[j];
      assert keys[i] == k;
    }
  }

  /** Every count in the report is the count of its group and status. */
  lemma RowCounts(statuses: set<string>, definitions: seq<Definition>, counts: seq<CountRow>,
                  compare: (string, string) -> int, response: Response, r: Row)
    requires Reports(statuses, definitions, counts, compare, response) && r in response.rows
    ensures r.count == SumOf(counts, OfGroup(r.key)) && r.percentOfTotal == Percent(r.count, response.total)
    ensures r.metrics.Keys == statuses
    ensures forall s :: s in statuses ==>
              && r.metrics[s].count == SumOf(counts, OfBoth(r.key, s))
              && r.metrics[s].percentOfGroup == Percent(r.metrics[s].count, r.count)
              && r.metrics[s].percentOfTotal == Percent(r.metrics[s].count, response.total)
  {
    RowsAreGroups(statuses, definitions, counts, compare, response);
    hide Reports, Percent, SumOf, Known, Seen;
    forall s | s in statuses
      ensures Get(StatusCounts(statuses, counts, r.key), s) == SumOf(counts, OfBoth(r.key, s))
    {
      if !Seen(counts, r.key, s) {
        UnseenIsZero(counts, r.key, s);
      }
    }
    hide StatusCounts;
  }

  lemma {:induction false} RowTotalIsSum(rows: seq<Row>, f: string -> nat)
    requires forall r :: r in rows ==> r.count == f(r.key)
    ensures RowTotal(rows) == SumOver(Keys(rows), f)
  {
    if rows != [] {
      RowTotalIsSum(rows[1..], f);
      assert Keys(rows)[1..] == Keys(rows[1..]);
    }
  }

  lemma {:induction false} RowStatusTotalIsSum(rows: seq<Row>, s: string, f: string -> nat)
    requires forall r :: r in rows ==> s in r.metrics && r.metrics[s].count == f(r.key)
    ensures RowStatusTotal(rows, s) == SumOver(Keys(rows), f)
  {
    if rows != [] {
      RowStatusTotalIsSum(rows[1..], s, f);
      assert Keys(rows)[1..] == Keys(rows[1..]);
    }
  }

  lemma CountedAreListed(definitions: seq<Definition>, counts: seq<CountRow>, r: CountRow)
    requires r in counts
    ensures Known(definitions, counts, r.groupKey)
  {
    if FirstRow(counts, r.groupKey).None? {
      NothingSeen(counts, r.groupKey);
    }
  }

  /** The groups share out all leads, and the leads of every visible status. */
  lemma ReportConserves(statuses: set<string>, definitions: seq<Definition>, counts: seq<CountRow>,
                        compare: (string, string) -> int, response: Response)
    requires Reports(statuses, definitions, counts, compare, response)
    ensures RowTotal(response.rows) == response.total == SumOf(counts, Everything)
    ensures forall s :: s in statuses ==>
              && (forall r :: r in response.rows ==> s in r.metrics)
              && RowStatusTotal(response.rows, s) == response.summary[s].count == SumOf(counts, OfStatus(s))
  {
    RowsAreGroups(statuses, definitions, counts, compare, response);
    var rows, keys := response.rows, Keys(response.rows);
    forall r | r in counts
      ensures r.groupKey in keys
    {
      CountedAreListed(definitions, counts, r);
    }
    forall r | r in rows
      ensures r.count == SumOf(counts, OfGroup(r.key)) && r.metrics.Keys == statuses
      ensures forall s :: s in statuses ==> r.metrics[s].count == SumOf(counts, OfBoth(r.key, s))
    {
      RowCounts(statuses, definitions, counts, compare, response, r);
    }
    assert response.total == SumOf(counts, Everything) && response.summary.Keys == statuses
           && forall s :: s in statuses ==> response.summary[s].count == SumOf(counts, OfStatus(s));
    hide Reports, Known, SumOf, RowOf, GroupFor;
    GroupsSplitTotal(keys, counts);
    RowTotalIsSum(rows, k => SumOf(counts, OfGroup(k)));
    forall s | s in statuses
      ensures (forall r :: r in rows ==> s in r.metrics) && RowStatusTotal(rows, s) == SumOf(counts, OfStatus(s))
    {
      GroupsSplitStatus(keys, counts, s);
      RowStatusTotalIsSum(rows, s, k => SumOf(counts, OfBoth(k, s)));
    }
  }

  /** The leads of the listed statuses in one row. */
  function MetricTotal(statusIds: seq<string>, r: Row): nat
    requires forall s :: s in statusIds ==> s in r.metrics
  {
    if statusIds == [] then 0 else r.metrics[statusIds[0]].count + MetricTotal(statusIds[1..], r)
  }

  lemma {:induction false} MetricTotalIsSum(statusIds: seq<string>, r: Row, f: string -> nat)
    requires forall s :: s in statusIds ==> s in r.metrics && r.metrics[s].count == f(s)
    ensures MetricTotal(statusIds, r) == SumOver(statusIds, f)
  {
    if statusIds != [] {
      MetricTotalIsSum(statusIds[1..], r, f);
    }
  }

  /** Within a group, the visible statuses together count no more than the group, and all of it
      when every status is visible. */
  lemma VisibleWithinGroup(statusIds: seq<string>, definitions: seq<Definition>, counts: seq<CountRow>,
                           compare: (string, string) -> int, response: Response, r: Row)
    requires Reports((set s | s in statusIds), definitions, counts, compare, response)
    requires NoRepeats(statusIds) && r in response.rows
    ensures (forall s :: s in statusIds ==> s in r.metrics)
            && MetricTotal(statusIds, r) <= r.count <= response.total
            && ((forall c :: c in counts ==> c.status in statusIds) ==> MetricTotal(statusIds, r) == r.count)
  {
    var statuses := set s | s in statusIds;
    RowCounts(statuses, definitions, counts, compare, response, r);
    TotalIsSum(statuses, definitions, counts, compare, response);
    hide Reports, SumOf, SumOver, MetricTotal, Percent, NoRepeats;
    StatusesWithinGroup(statusIds, counts, r.key);
    PartsWithinWhole(counts, r.key, "");
    MetricTotalIsSum(statusIds, r, s => SumOf(counts, OfBoth(r.key, s)));
  }

  lemma TotalIsSum(statuses: set<string>, definitions: seq<Definition>, counts: seq<CountRow>,
                   compare: (string, string) -> int, response: Response)
    requires Reports(statuses, definitions, counts, compare, response)
    ensures response.total == SumOf(counts, Everything)
  {
  }

  /** Every percentage lies between 0 and 100. */
  lemma PercentsInRange(statuses: set<string>, definitions: seq<Definition>, counts: seq<CountRow>,
                        compare: (string, string) -> int, response: Response)
    requires Reports(statuses, definitions, counts, compare, response)
    ensures forall s :: s in response.summary ==> 0.0 <= response.summary[s].percentOfTotal <= 100.0
    ensures forall r :: r in response.rows ==> 0.0 <= r.percentOfTotal <= 100.0
    ensures forall r, s :: r in response.rows && s in r.metrics ==>
              0.0 <= r.metrics[s].percentOfGroup <= 100.0 && 0.0 <= r.metrics[s].percentOfTotal <= 100.0
  {
    forall s | s in response.summary
      ensures 0.0 <= response.summary[s].percentOfTotal <= 100.0
    {
      PartsWithinWhole(counts, "", s);
      PercentIsShare(response.summary[s].count, response.total);
    }
    forall r | r in response.rows
      ensures 0.0 <= r.percentOfTotal <= 100.0
      ensures forall s :: s in r.metrics ==>
          0.0 <= r.metrics[s].percentOfGroup <= 100.0 && 0.0 <= r.metrics[s].percentOfTotal <= 100.0
    {
      RowInRange(statuses, definitions, counts, compare, response, r);
    }
  }

  lemma RowInRange(statuses: set<string>, definitions: seq<Definition>, counts: seq<CountRow>,
                   compare: (string, string) -> int, response: Response, r: Row)
    requires Reports(statuses, definitions, counts, compare, response) && r in response.rows
    ensures 0.0 <= r.percentOfTotal <= 100.0
    ensures forall s :: s in r.metrics ==>
        0.0 <= r.metrics[s].percentOfGroup <= 100.0 && 0.0 <= r.metrics[s].percentOfTotal <= 100.0
  {
    TotalIsSum(statuses, definitions, counts, compare, response);
    RowCounts(statuses, definitions, counts, compare, response, r);
    hide Reports, Percent, SumOf;
    PartsWithinWhole(counts, r.key, "");
    PercentIsShare(r.count, response.total);
    forall s | s in r.metrics
      ensures 0.0 <= r.metrics[s].percentOfGroup <= 100.0 && 0.0 <= r.metrics[s].percentOfTotal <= 100.0
    {
      PartsWithinWhole(counts, r.key, s);
      PercentIsShare(r.metrics[s].count, r.count);
      PercentIsShare(r.metrics[s].count, response.total);
    }
  }

  lemma AddShares(a: nat, b: nat, total: nat)
    requires 0 < total
    ensures (a + b) as real / total as real == a as real / total as real + b as real / total as real
  {
  }

  lemma {:induction false} PercentsNearShare(rows: seq<Row>, total: nat)
    requires 0 < total
    requires forall r :: r in rows ==> r.count <= total && r.percentOfTotal == Percent(r.count, total)
    ensures var exact, slack := RowTotal(rows) as real / total as real * 100.0, 0.005 * |rows| as real;
            exact - slack <= PercentTotal(rows) <= exact + slack
  {
    if rows != [] {
      hide Percent;
      PercentIsShare(rows[0].count, total);
      PercentsNearShare(rows[1..], total);
      AddShares(rows[0].count, RowTotal(rows[1..]), total);
    }
  }

  lemma WholeShare(x: real)
    requires x != 0.0
    ensures x / x == 1.0
  {
  }

  lemma PercentsNearHundred(rows: seq<Row>, total: nat)
    requires 0 < total && RowTotal(rows) == total
    requires forall r :: r in rows ==> r.count <= total && r.percentOfTotal == Percent(r.count, total)
    ensures 100.0 - 0.005 * |rows| as real <= PercentTotal(rows) <= 100.0 + 0.005 * |rows| as real
  {
    hide *;
    WholeShare(total as real);
    PercentsNearShare(rows, total);
  }

  /** The percentages of the groups add up to 100, give or take half a hundredth per group. */
  lemma PercentsAddUp(statuses: set<string>, definitions: seq<Definition>, counts: seq<CountRow>,
                      compare: (string, string) -> int, response: Response)
    requires Reports(statuses, definitions, counts, compare, response) && response.total > 0
    ensures var slack := 0.005 * |response.rows| as real;
            100.0 - slack <= PercentTotal(response.rows) <= 100.0 + slack
  {
    hide *;
    ReportConserves(statuses, definitions, counts, compare, response);
    forall r | r in response.rows
      ensures r.count <= response.total && r.percentOfTotal == Percent(r.count, response.total)
    {
      RowCounts(statuses, definitions, counts, compare, response, r);
      PartsWithinWhole(counts, r.key, "");
    }
    PercentsNearHundred(response.rows, response.total);
  }

  // What a row is called and where it stands

  ghost predicate IsLastDefinition(definitions: seq<Definition>, key: string, i: int) {
    && 0 <= i < |definitions| && definitions[i].key == key
    && forall j :: i < j < |definitions| ==> definitions[j].key != key
  }

  ghost predicate IsFirstRow(counts: seq<CountRow>, key: string, i: int) {
    && 0 <= i < |counts| && counts[i].groupKey == key
    && forall j :: 0 <= j < i ==> counts[j].groupKey != key
  }

  /** The id, title and sort of a group are those of the last definition of its key; a group
      without a definition takes id and title from the first row that names it, and goes last. */
  ghost predicate Describes(definitions: seq<Definition>, counts: seq<CountRow>, key: string, id: Option<string>,
                            title: string, sort: int) {
    && (forall i :: IsLastDefinition(definitions, key, i) ==>
          id == definitions[i].id && title == definitions[i].title && sort == definitions[i].sort)
    && ((forall d :: d in definitions ==> d.key != key) ==>
          sort == 9007199254740991
          && forall i :: IsFirstRow(counts, key, i) ==> id == counts[i].groupId && title == counts[i].groupTitle)
  }

  lemma {:induction false} LastDefinition(definitions: seq<Definition>, key: string)
    ensures DefinitionOf(definitions, key) == None <==> forall d :: d in definitions ==> d.key != key
    ensures forall i :: IsLastDefinition(definitions, key, i) ==> DefinitionOf(definitions, key) == Some(definitions[i])
  {
    if definitions != [] {
      var n := |definitions| - 1;
      var front := definitions[..n];
      assert definitions == front + [definitions[n]];
      LastDefinition(front, key);
      forall i | IsLastDefinition(definitions, key, i)
        ensures DefinitionOf(definitions, key) == Some(definitions[i])
      {
        assert i < n ==> definitions[n].key != key && IsLastDefinition(front, key, i);
      }
    }
  }

  lemma {:induction false} FirstRowIsFirst(counts: seq<CountRow>, key: string)
    ensures forall i :: IsFirstRow(counts, key, i) ==> FirstRow(counts, key) == Some(counts[i])
    ensures FirstRow(counts, key) == None <==> forall r :: r in counts ==> r.groupKey != key
  {
    if counts != [] {
      var n := |counts| - 1;
      var front := counts[..n];
      assert counts == front + [counts[n]];
      FirstRowIsFirst(front, key);
      forall i | IsFirstRow(counts, key, i)
        ensures FirstRow(counts, key) == Some(counts[i])
      {
        assert i < n ==> IsFirstRow(front, key, i);
        assert i == n ==> forall r :: r in front ==> r.groupKey != key;
      }
    }
  }

  lemma GroupIsDescribed(visible: set<string>, definitions: seq<Definition>, counts: seq<CountRow>, key: string)
    ensures var g := GroupFor(visible, definitions, counts, key);
            Describes(definitions, counts, key, g.id, g.title, g.sort)
  {
    LastDefinition(definitions, key);
    FirstRowIsFirst(counts, key);
    hide DefinitionOf, FirstRow, StatusCounts, SumOf;
  }

  /** Rows are numbered from 1 and carry the id and title that describe their group; there is one
      for every key defined or counted. */
  lemma RowsAreDescribed(statuses: set<string>, definitions: seq<Definition>, counts: seq<CountRow>,
                         compare: (string, string) -> int, response: Response)
    requires Reports(statuses, definitions, counts, compare, response)
    ensures forall i :: 0 <= i < |response.rows| ==>
              && response.rows[i].index == i + 1
              && exists sort :: Describes(definitions, counts, response.rows[i].key, response.rows[i].id,
                                          response.rows[i].title, sort)
    ensures forall k :: k in Keys(response.rows) <==>
              (exists d :: d in definitions && d.key == k) || (exists r :: r in counts && r.groupKey == k)
  {
    RowsAreGroups(statuses, definitions, counts, compare, response);
    forall k
      ensures Known(definitions, counts, k) <==>
              (exists d :: d in definitions && d.key == k) || (exists r :: r in counts && r.groupKey == k)
    {
      LastDefinition(definitions, k);
      FirstRowIsFirst(counts, k);
    }
    hide GroupFor, Describes, Reports, Percent, Known;
    forall i | 0 <= i < |response.rows|
      ensures response.rows[i].index == i + 1
      ensures exists sort :: Describes(definitions, counts, response.rows[i].key, response.rows[i].id,
                                       response.rows[i].title, sort)
    {
      GroupIsDescribed(statuses, definitions, counts, response.rows[i].key);
    }
  }

  lemma MoreLeadsFirst(a: Group, b: Group, compare: (string, string) -> int)
    requires NotAfter(a, b, compare)
    ensures a.total >= b.total
  {
  }

  lemma SortedRow(statuses: set<string>, definitions: seq<Definition>, counts: seq<CountRow>,
                  compare: (string, string) -> int, response: Response, i: nat)
    requires Reports(statuses, definitions, counts, compare, response) && i < |response.rows|
    ensures var r, g := response.rows[i], Sort(Groups(statuses, definitions, counts), compare)[i];
            && r.key == g.key && r.count == g.total && r.title == g.title && r.id == g.id
            && Describes(definitions, counts, r.key, r.id, r.title, g.sort)
  {
    var sorted := Sort(Groups(statuses, definitions, counts), compare);
    SortedAreGroups(statuses, definitions, counts, compare);
    hide GroupFor, Groups, Sort, Describes, Percent, SumOf;
    GroupIsDescribed(statuses, definitions, counts, sorted[i].key);
  }

  /** Rows stand by leads, then by the sort that describes them, then by title. */
  lemma RowsAreOrdered(statuses: set<string>, definitions: seq<Definition>, counts: seq<CountRow>,
                       compare: (string, string) -> int, response: Response, i: nat, j: nat)
    requires Reports(statuses, definitions, counts, compare, response) && IsCollation(compare)
    requires i < j < |response.rows|
    ensures var a, b := response.rows[i], response.rows[j];
            && a.count >= b.count
            && (a.count == b.count ==>
                  exists s, t ::
                    && Describes(definitions, counts, a.key, a.id, a.title, s)
                    && Describes(definitions, counts, b.key, b.id, b.title, t)
                    && (s < t || (s == t && compare(a.title, b.title) <= 0)))
  {
    SortSorts(Groups(statuses, definitions, counts), compare);
    var sorted := Sort(Groups(statuses, definitions, counts), compare);
    SortedRow(statuses, definitions, counts, compare, response, i);
    SortedRow(statuses, definitions, counts, compare, response, j);
    hide GroupFor, Groups, Sort, Percent, SumOf, IsCollation, Describes;
    assert NotAfter(sorted[i], sorted[j], compare);
  }

  // Ties

  /** The keys as they come up: those of the definitions, then those of the rows. */
  ghost function KeysAsTheyCome(definitions: seq<Definition>, counts: seq<CountRow>): seq<string> {
    seq(|definitions|, i requires 0 <= i < |definitions| => definitions[i].key)
    + seq(|counts|, i requires 0 <= i < |counts| => counts[i].groupKey)
  }

  ghost predicate ComesUpFirst(keys: seq<string>, k: string, l: string) {
    exists p :: 0 <= p < |keys| && keys[p] == k && forall q :: 0 <= q < |keys| && keys[q] == l ==> p < q
  }

  lemma {:induction false} KeyOrderFollows(definitions: seq<Definition>, counts: seq<CountRow>, i: nat, j: nat)
    requires i < j < |KeyOrder(definitions, counts)|
    ensures var order := KeyOrder(definitions, counts);
            ComesUpFirst(KeysAsTheyCome(definitions, counts), order[i], order[j])
    decreases |counts|, |definitions|
  {
    var order := KeyOrder(definitions, counts);
    var keys := KeysAsTheyCome(definitions, counts);
    KeyOrderHoldsKnown(definitions, counts);
    if counts != [] {
      var n := |counts| - 1;
      var before := KeyOrder(definitions, counts[..n]);
      var earlier := KeysAsTheyCome(definitions, counts[..n]);
      assert keys == earlier + [counts[n].groupKey];
      KeyOrderHoldsKeys(definitions, counts[..n]);
      if j < |before| {
        KeyOrderFollows(definitions, counts[..n], i, j);
      }
      OneMoreKeyUp(before, earlier, counts[n].groupKey, order, keys, i, j);
    } else if definitions != [] {
      var n := |definitions| - 1;
      var before := KeyOrder(definitions[..n], []);
      var earlier := KeysAsTheyCome(definitions[..n], []);
      assert keys == earlier + [definitions[n].key];
      KeyOrderHoldsKeys(definitions[..n], []);
      if j < |before| {
        KeyOrderFollows(definitions[..n], [], i, j);
      }
      OneMoreKeyUp(before, earlier, definitions[n].key, order, keys, i, j);
    }
  }

  lemma OneMoreKeyUp(before: seq<string>, earlier: seq<string>, key: string, order: seq<string>, keys: seq<string>,
                     i: nat, j: nat)
    requires i < j < |order| && keys == earlier + [key]
    requires order == if key in before then before else before + [key]
    requires forall k :: k in before <==> k in earlier
    requires j < |before| ==> ComesUpFirst(earlier, before[i], before[j])
    ensures ComesUpFirst(keys, order[i], order[j])
  {
    if j < |before| {
      var p :| 0 <= p < |earlier| && earlier[p] == before[i]
               && forall q :: 0 <= q < |earlier| && earlier[q] == before[j] ==> p < q;
      assert keys[p] == order[i];
    } else {
      assert before[i] in before;
      var p :| 0 <= p < |earlier| && earlier[p] == before[i];
      assert keys[p] == order[i];
      assert forall q :: 0 <= q < |earlier| ==> earlier[q] in earlier && earlier[q] != key;
    }
  }

  lemma KeyOrderHoldsKeys(definitions: seq<Definition>, counts: seq<CountRow>)
    ensures forall k :: k in KeyOrder(definitions, counts) <==> k in KeysAsTheyCome(definitions, counts)
  {
    KeyOrderHoldsKnown(definitions, counts);
    hide KeyOrder, KeysAsTheyCome, Known;
    forall k
      ensures Known(definitions, counts, k) <==> k in KeysAsTheyCome(definitions, counts)
    {
      KnownComesUp(definitions, counts, k);
    }
  }

  lemma KnownComesUp(definitions: seq<Definition>, counts: seq<CountRow>, k: string)
    ensures Known(definitions, counts, k) <==> k in KeysAsTheyCome(definitions, counts)
  {
    LastDefinition(definitions, k);
    FirstRowIsFirst(counts, k);
    hide DefinitionOf, FirstRow, IsLastDefinition, IsFirstRow;
    var defined := seq(|definitions|, i requires 0 <= i < |definitions| => definitions[i].key);
    var counted := seq(|counts|, i requires 0 <= i < |counts| => counts[i].groupKey);
    assert KeysAsTheyCome(definitions, counts) == defined + counted;
    assert k in defined <==> exists d :: d in definitions && d.key == k by {
      if d :| d in definitions && d.key == k {
        var i :| 0 <= i < |definitions| && definitions[i] == d;
        assert defined[i] == k;
      }
    }
    assert k in counted <==> exists r :: r in counts && r.groupKey == k by {
      if r :| r in counts && r.groupKey == k {
        var i :| 0 <= i < |counts| && counts[i] == r;
        assert counted[i] == k;
      }
    }
  }

  lemma {:induction false} TiedInOrder(groups: seq<Group>, x: Group, compare: (string, string) -> int, i: nat, j: nat)
    returns (p: nat, q: nat)
    requires i < j < |groups| && Tied(groups[i], x, compare) && Tied(groups[j], x, compare)
    ensures var tied := TiedWith(groups, x, compare);
            p < q < |tied| && tied[p] == groups[i] && tied[q] == groups[j]
  {
    hide Tied;
    var n := |groups| - 1;
    if j < n {
      p, q := TiedInOrder(groups[..n], x, compare, i, j);
    } else {
      p := TiedAt(groups[..n], x, compare, i);
      q := |TiedWith(groups[..n], x, compare)|;
    }
  }

  lemma {:induction false} TiedAt(groups: seq<Group>, x: Group, compare: (string, string) -> int, i: nat)
    returns (p: nat)
    requires i < |groups| && Tied(groups[i], x, compare)
    ensures var tied := TiedWith(groups, x, compare); p < |tied| && tied[p] == groups[i]
  {
    hide Tied;
    var n := |groups| - 1;
    if i < n {
      p := TiedAt(groups[..n], x, compare, i);
    } else {
      p := |TiedWith(groups[..n], x, compare)|;
    }
  }

  lemma {:induction false} TiedFromOrder(groups: seq<Group>, x: Group, compare: (string, string) -> int, p: nat, q: nat)
    returns (i: nat, j: nat)
    requires p < q < |TiedWith(groups, x, compare)|
    ensures var tied := TiedWith(groups, x, compare);
            i < j < |groups| && groups[i] == tied[p] && groups[j] == tied[q]
  {
    hide Tied;
    var n := |groups| - 1;
    if q < |TiedWith(groups[..n], x, compare)| {
      i, j := TiedFromOrder(groups[..n], x, compare, p, q);
    } else {
      i := TiedFrom(groups[..n], x, compare, p);
      j := n;
    }
  }

  lemma {:induction false} TiedFrom(groups: seq<Group>, x: Group, compare: (string, string) -> int, p: nat)
    returns (i: nat)
    requires p < |TiedWith(groups, x, compare)|
    ensures i < |groups| && groups[i] == TiedWith(groups, x, compare)[p]
  {
    hide Tied;
    var n := |groups| - 1;
    if p < |TiedWith(groups[..n], x, compare)| {
      i := TiedFrom(groups[..n], x, compare, p);
    } else {
      i := n;
    }
  }

  /** Rows with equal leads, sorts and titles stand in the order in which their keys came up. */
  lemma TiesKeepTheirOrder(statuses: set<string>, definitions: seq<Definition>, counts: seq<CountRow>,
                           compare: (string, string) -> int, response: Response, i: nat, j: nat, sort: int)
    requires Reports(statuses, definitions, counts, compare, response) && IsCollation(compare)
    requires i < j < |response.rows| && response.rows[i].count == response.rows[j].count
    requires forall r, s | r in {response.rows[i], response.rows[j]}
                           && Describes(definitions, counts, r.key, r.id, r.title, s) :: s == sort
    requires compare(response.rows[i].title, response.rows[j].title) <= 0
             && compare(response.rows[j].title, response.rows[i].title) <= 0
    ensures ComesUpFirst(KeysAsTheyCome(definitions, counts), response.rows[i].key, response.rows[j].key)
  {
    var groups := Groups(statuses, definitions, counts);
    var sorted := Sort(groups, compare);
    SortedRow(statuses, definitions, counts, compare, response, i);
    SortedRow(statuses, definitions, counts, compare, response, j);
    GroupsFollowKeys(statuses, definitions, counts);
    hide GroupFor, Groups, Sort, Percent, SumOf, Describes, KeyOrder, ComesUpFirst, TiedWith, KeysAsTheyCome;
    assert compare(sorted[i].title, sorted[i].title) <= 0;
    assert Tied(sorted[i], sorted[i], compare) && Tied(sorted[j], sorted[i], compare);
    var p, q := TiedInOrder(sorted, sorted[i], compare, i, j);
    SortIsStable(groups, compare, sorted[i]);
    var k, l := TiedFromOrder(groups, sorted[i], compare, p, q);
    KeyOrderFollows(definitions, counts, k, l);
  }
}
