/** The hash chain over history events.  Every event hashes its own fields together with the
    hash of the latest earlier event; the hash function is a parameter that is only assumed
    to be injective and to print no separator. */
module HistoryChain {
  import opened Wrappers

  datatype Event = Event(
    id: string,
    occurredAt: int,
    createdAt: int,
    middle: seq<string>,      // occurred_at to root_entity_pk, as they are printed
    previousHash: Option<string>,
    hash: string)

  /** What is assumed of sha256: no two inputs share a digest, and a digest is non-empty and
      has no `|`. */
  ghost predicate IsSha(sha: string -> string) {
    && (forall x, y :: sha(x) == sha(y) ==> x == y)
    && (forall x :: sha(x) != "" && '|' !in sha(x))
  }

  /** Two characters for each, none of them a separator. */
  function Masked(s: string): string {
    if s == "" then "" else (if s[0] == '|' then ['y', 'y'] else ['n', s[0]]) + Masked(s[1..])
  }

  lemma {:induction false} MaskedText(s: string)
    ensures |Masked(s)| == 2 * |s| && '|' !in Masked(s)
  {
    if s != "" {
      MaskedText(s[1..]);
    }
  }

  lemma {:induction false} MaskedIsInjective(a: string, b: string)
    requires Masked(a) == Masked(b)
    ensures a == b
    decreases |a|
  {
    MaskedText(a);
    MaskedText(b);
    if a != "" {
      assert Masked(a)[0] == Masked(b)[0] && Masked(a)[1] == Masked(b)[1];
      assert Masked(a)[2..] == Masked(a[1..]) && Masked(b)[2..] == Masked(b[1..]);
      MaskedIsInjective(a[1..], b[1..]);
      assert a == [a[0]] + a[1..] && b == [b[0]] + b[1..];
    }
  }

  /** The assumption can be met. */
  lemma ShaExists()
    ensures exists sha: string -> string :: IsSha(sha)
  {
    var sha := (s: string) => "." + Masked(s);
    forall x, y
      ensures (sha(x) == sha(y) ==> x == y) && sha(x) != "" && '|' !in sha(x)
    {
      MaskedText(x);
      assert sha(x)[1..] == Masked(x) && sha(y)[1..] == Masked(y);
      if sha(x) == sha(y) {
        MaskedIsInjective(x, y);
      }
    }
    assert IsSha(sha);
  }

  function Join(fields: seq<string>): string
    requires fields != []
  {
    if |fields| == 1 then fields[0] else fields[0] + "|" + Join(fields[1..])
  }

  function OrEmpty(h: Option<string>): string {
    match h
    case Some(text) => text
    case None => ""
  }

  function HashInput(id: string, middle: seq<string>, previous: Option<string>): string {
    Join([id] + middle + [OrEmpty(previous)])
  }

  /** The chain's head for the next event: the first row by occurred_at, then created_at,
      both descending. */
  predicate IsLatest(events: seq<Event>, k: int) {
    0 <= k < |events| && forall j :: 0 <= j < |events| ==> NotAfter(events[j], events[k])
  }

  predicate NotAfter(a: Event, b: Event) {
    a.occurredAt < b.occurredAt || (a.occurredAt == b.occurredAt && a.createdAt <= b.createdAt)
  }

  /** A log as `createEvent` builds it: unique ids, every hash computed from its event, and
      every link taken from a latest event at the time. */
  ghost predicate IsLog(sha: string -> string, events: seq<Event>) {
    && (forall i, j :: 0 <= i < j < |events| ==> events[i].id != events[j].id)
    && (forall i :: 0 <= i < |events| ==>
          && events[i].middle != [] && '|' !in events[i].id
          && events[i].hash == sha(HashInput(events[i].id, events[i].middle, events[i].previousHash)))
    && (forall i :: 0 <= i < |events| ==> LinksToLatest(events, i))
  }

  ghost predicate LinksToLatest(events: seq<Event>, i: nat)
    requires i < |events|
  {
    if i == 0 then events[0].previousHash == None
    else exists k :: IsLatest(events[..i], k) && events[i].previousHash == Some(events[k].hash)
  }

  lemma {:induction false} LatestExists(events: seq<Event>) returns (k: nat)
    requires events != []
    ensures IsLatest(events, k)
  {
    var n := |events| - 1;
    if n == 0 {
      k := 0;
    } else {
      k := LatestExists(events[..n]);
      assert forall j :: 0 <= j < n ==> events[..n][j] == events[j];
      if NotAfter(events[k], events[n]) {
        k := n;
      }
    }
  }

  lemma LinkStays(before: seq<Event>, after: seq<Event>, i: nat)
    requires i < |before| && before <= after && LinksToLatest(before, i)
    ensures LinksToLatest(after, i)
  {
    assert after[..i] == before[..i];
  }

  /** The event for these fields behind a given link. */
  function Hashed(sha: string -> string, id: string, occurredAt: int, createdAt: int, middle: seq<string>,
                  previousHash: Option<string>): Event {
    Event(id, occurredAt, createdAt, middle, previousHash, sha(HashInput(id, middle, previousHash)))
  }

  /** A log with one more event that links to a latest one is a log. */
  lemma LogExtends(sha: string -> string, events: seq<Event>, e: Event)
    requires IsLog(sha, events) && (forall f :: f in events ==> f.id != e.id)
    requires e.middle != [] && '|' !in e.id && e.hash == sha(HashInput(e.id, e.middle, e.previousHash))
    requires if events == [] then e.previousHash == None
             else exists k :: IsLatest(events, k) && e.previousHash == Some(events[k].hash)
    ensures IsLog(sha, events + [e])
  {
    hide HashInput, NotAfter;
    var all, n := events + [e], |events|;
    assert all[..n] == events;
    forall i | 0 <= i < n
      ensures LinksToLatest(all, i)
    {
      LinkStays(events, all, i);
    }
  }

  class EventLog {
    var events: seq<Event>
    const sha: string -> string

    ghost predicate Valid()
      reads this
    {
      IsSha(sha) && IsLog(sha, events)
    }

    constructor (sha: string -> string)
      requires IsSha(sha)
      ensures Valid() && events == [] && this.sha == sha
    {
      this.sha := sha;
      events := [];
    }

    /** Appends an event behind the head.  `id` is the fresh uuid, `middle` the printed fields
        between the id and the previous hash; `occurredAt` may be any time the caller names. */
    method Append(id: string, occurredAt: int, createdAt: int, middle: seq<string>)
      requires Valid()
      requires '|' !in id && middle != [] && forall e :: e in events ==> e.id != id
      modifies this`events
      ensures Valid()
      ensures |events| == |old(events)| + 1 && events[..|old(events)|] == old(events)
      ensures var e := events[|old(events)|];
              && e.id == id && e.occurredAt == occurredAt && e.createdAt == createdAt && e.middle == middle
              && LinksToLatest(events, |old(events)|)
              && e.hash == sha(HashInput(id, middle, e.previousHash))
      ensures old(events) == [] ==> events[0].previousHash == None
      ensures old(events) != [] ==>
                exists k :: 0 <= k < |old(events)| && events[|old(events)|].previousHash == Some(old(events)[k].hash)
                            && forall e :: e in old(events) ==>
                                 || e.occurredAt < old(events)[k].occurredAt
                                 || (e.occurredAt == old(events)[k].occurredAt
                                     && e.createdAt <= old(events)[k].createdAt)
    {
      hide IsLog, IsSha, HashInput, IsLatest;
      var previousHash := None;
      if events != [] {
        ghost var witnessed := LatestExists(events);
        var k :| 0 <= k < |events| && IsLatest(events, k);
        previousHash := Some(events[k].hash);
        LatestIsLast(events, k);
      }
      var e := Hashed(sha, id, occurredAt, createdAt, middle, previousHash);
      LogExtends(sha, events, e);
      events := events + [e];
      LastLinks(sha, events);
    }
  }

  lemma LatestIsLast(events: seq<Event>, k: int)
    requires IsLatest(events, k)
    ensures forall e :: e in events ==> e.occurredAt < events[k].occurredAt
                                        || (e.occurredAt == events[k].occurredAt && e.createdAt <= events[k].createdAt)
  {
  }

  lemma LastLinks(sha: string -> string, events: seq<Event>)
    requires IsLog(sha, events) && events != []
    ensures LinksToLatest(events, |events| - 1)
  {
  }

  // The ends of a joined text

  lemma {:induction false} JoinEnds(id: string, middle: seq<string>, last: string)
    requires middle != []
    ensures Join([id] + middle + [last]) == id + "|" + Join(middle) + "|" + last
  {
    var all := [id] + middle + [last];
    assert all[1..] == middle + [last];
    JoinSnoc(middle, last);
    assert id + "|" + (Join(middle) + "|" + last) == id + "|" + Join(middle) + "|" + last;
  }

  lemma {:induction false} JoinSnoc(fields: seq<string>, last: string)
    requires fields != []
    ensures Join(fields + [last]) == Join(fields) + "|" + last
  {
    var all := fields + [last];
    if |fields| > 1 {
      assert all[1..] == fields[1..] + [last];
      JoinSnoc(fields[1..], last);
      assert fields[0] + "|" + (Join(fields[1..]) + "|" + last) == fields[0] + "|" + Join(fields[1..]) + "|" + last;
    } else {
      assert all[1..] == [last];
    }
  }

  /** The text that is hashed: all the fields in a row, with a separator between each two, and
      nothing at the end when there is no link. */
  lemma HashInputText(id: string, middle: seq<string>, previous: Option<string>)
    requires |middle| == 9
    ensures HashInput(id, middle, previous) ==
            id + "|" + middle[0] + "|" + middle[1] + "|" + middle[2] + "|" + middle[3] + "|" + middle[4] + "|" +
            middle[5] + "|" + middle[6] + "|" + middle[7] + "|" + middle[8] + "|" +
            (if previous.Some? then previous.value else "")
  {
    var fields := [id] + middle + [OrEmpty(previous)];
    hide Join;
    forall k | 1 <= k <= 10
      ensures Join(fields[..k + 1]) == Join(fields[..k]) + "|" + fields[k]
    {
      assert fields[..k + 1] == fields[..k] + [fields[k]];
      JoinSnoc(fields[..k], fields[k]);
    }
    assert fields[..1] == [id] && fields[..11] == fields;
    assert fields[1] == middle[0] && fields[2] == middle[1] && fields[3] == middle[2] && fields[4] == middle[3]
           && fields[5] == middle[4] && fields[6] == middle[5] && fields[7] == middle[6] && fields[8] == middle[7]
           && fields[9] == middle[8] && fields[10] == OrEmpty(previous);
    JoinOne(id);
  }

  lemma JoinOne(field: string)
    ensures Join([field]) == field
  {
  }

  /** Text before the first separator and after the last one is recovered, whatever stands
      between. */
  lemma SplitAtEnds(a: string, m: string, z: string, b: string, n: string, y: string)
    requires '|' !in a && '|' !in b && '|' !in z && '|' !in y
    requires a + "|" + m + "|" + z == b + "|" + n + "|" + y
    ensures a == b && z == y
  {
    var s := a + "|" + m + "|" + z;
    assert s[|a|] == s[|b|] == '|';
    forall k | 0 <= k < |a|
      ensures s[k] == a[k] != '|'
    {
    }
    forall k | 0 <= k < |b|
      ensures s[k] == b[k] != '|'
    {
    }
    assert a == s[..|a|] && b == s[..|b|];
    var i, j := |s| - |z| - 1, |s| - |y| - 1;
    assert s[i] == s[j] == '|';
    forall k | i < k < |s|
      ensures s[k] == z[k - i - 1] != '|'
    {
    }
    forall k | j < k < |s|
      ensures s[k] == y[k - j - 1] != '|'
    {
    }
    assert z == s[i + 1..] && y == s[j + 1..];
  }

  /** Equal hashes mean the same event id and the same previous hash. */
  lemma HashFixesIdAndLink(sha: string -> string, e: Event, f: Event)
    requires IsSha(sha) && '|' !in e.id && '|' !in f.id && e.middle != [] && f.middle != []
    requires e.hash == sha(HashInput(e.id, e.middle, e.previousHash))
    requires f.hash == sha(HashInput(f.id, f.middle, f.previousHash))
    requires e.previousHash.Some? ==> e.previousHash.value != "" && '|' !in e.previousHash.value
    requires f.previousHash.Some? ==> f.previousHash.value != "" && '|' !in f.previousHash.value
    requires e.hash == f.hash
    ensures e.id == f.id && e.previousHash == f.previousHash
  {
    JoinEnds(e.id, e.middle, OrEmpty(e.previousHash));
    JoinEnds(f.id, f.middle, OrEmpty(f.previousHash));
    SplitAtEnds(e.id, Join(e.middle), OrEmpty(e.previousHash), f.id, Join(f.middle), OrEmpty(f.previousHash));
  }

  // The fields in the middle

  function Bars(s: string): nat {
    if s == "" then 0 else (if s[0] == '|' then 1 else 0) + Bars(s[1..])
  }

  lemma {:induction false} BarsAdd(s: string, t: string)
    ensures Bars(s + t) == Bars(s) + Bars(t)
    ensures Bars(s) == 0 <==> '|' !in s
    decreases |s|
  {
    if s == "" {
      assert s + t == t;
    } else {
      assert (s + t)[1..] == s[1..] + t && s == [s[0]] + s[1..];
      BarsAdd(s[1..], t);
    }
  }

  predicate BarFree(fields: seq<string>) {
    forall f :: f in fields ==> '|' !in f
  }

  /** A joined text has a bar between any two fields, and more only if a field has one. */
  lemma {:induction false} BarsOfJoin(fields: seq<string>)
    requires fields != []
    ensures Bars(Join(fields)) >= |fields| - 1
    ensures Bars(Join(fields)) == |fields| - 1 <==> BarFree(fields)
  {
    BarsAdd(fields[0], "");
    assert fields[0] in fields;
    if |fields| > 1 {
      BarsOfJoin(fields[1..]);
      BarsAdd(fields[0], "|" + Join(fields[1..]));
      BarsAdd("|", Join(fields[1..]));
      assert Bars("|") == 1;
      assert fields == [fields[0]] + fields[1..];
      assert fields[0] + "|" + Join(fields[1..]) == fields[0] + ("|" + Join(fields[1..]));
    } else {
      assert fields == [fields[0]];
    }
  }

  lemma SplitAtFirst(a: string, x: string, b: string, y: string)
    requires '|' !in a && '|' !in b && a + "|" + x == b + "|" + y
    ensures a == b && x == y
  {
    var s := a + "|" + x;
    assert s[|a|] == s[|b|] == '|';
    assert forall i :: 0 <= i < |a| ==> s[i] == a[i] != '|';
    assert forall i :: 0 <= i < |b| ==> s[i] == b[i] != '|';
    assert a == s[..|a|] && b == s[..|b|] && x == s[|a| + 1..] && y == s[|b| + 1..];
  }

  lemma {:induction false} BarFreeJoinsDiffer(one: seq<string>, two: seq<string>)
    requires |one| == |two| > 0 && BarFree(one) && BarFree(two) && Join(one) == Join(two)
    ensures one == two
  {
    assert one[0] in one && two[0] in two;
    assert one == [one[0]] + one[1..] && two == [two[0]] + two[1..];
    if |one| > 1 {
      SplitAtFirst(one[0], Join(one[1..]), two[0], Join(two[1..]));
      BarFreeJoinsDiffer(one[1..], two[1..]);
    }
  }

  /** Fields without a bar are told by their joined text, among all lists of as many fields. */
  lemma JoinFixesFields(one: seq<string>, two: seq<string>)
    requires |one| == |two| > 0 && BarFree(one) && Join(one) == Join(two)
    ensures one == two
  {
    BarsOfJoin(one);
    BarsOfJoin(two);
    BarFreeJoinsDiffer(one, two);
  }

  /** A bar can be moved between neighbouring fields without a trace. */
  lemma {:induction false} JoinMoves(pre: seq<string>, x: string, y: string, v: string, w: string, post: seq<string>)
    requires x + "|" + y == v + "|" + w
    ensures Join(pre + [x, y] + post) == Join(pre + [v, w] + post)
    decreases |pre|
  {
    var one, two := pre + [x, y] + post, pre + [v, w] + post;
    if pre == [] {
      assert one[1..] == [y] + post && two[1..] == [w] + post;
      if post != [] {
        assert one[1..][1..] == post && two[1..][1..] == post;
        assert x + "|" + (y + "|" + Join(post)) == (x + "|" + y) + "|" + Join(post);
        assert v + "|" + (w + "|" + Join(post)) == (v + "|" + w) + "|" + Join(post);
      }
    } else {
      assert one[1..] == pre[1..] + [x, y] + post && two[1..] == pre[1..] + [v, w] + post;
      JoinMoves(pre[1..], x, y, v, w, post);
    }
  }

  /** Of two fields or more, one with a bar leaves room for another list with the same text. */
  lemma BarsLeaveRoom(fields: seq<string>) returns (other: seq<string>)
    requires |fields| >= 2 && !BarFree(fields)
    ensures |other| == |fields| && other != fields && Join(other) == Join(fields)
  {
    var k :| 0 <= k < |fields| && '|' in fields[k];
    var b :| 0 <= b < |fields[k]| && fields[k][b] == '|';
    var left, right := fields[k][..b], fields[k][b + 1..];
    assert fields[k] == left + "|" + right;
    var p := if k + 1 < |fields| then k else k - 1;
    var x, y := fields[p], fields[p + 1];
    var v, w := if p == k then left else x + "|" + left, if p == k then right + "|" + y else right;
    assert x + "|" + y == v + "|" + w;
    JoinMoves(fields[..p], x, y, v, w, fields[p + 2..]);
    assert fields == fields[..p] + [x, y] + fields[p + 2..];
    other := fields[..p] + [v, w] + fields[p + 2..];
    assert other[p] == v && |v| != |x|;
  }

  /** The hash of an event covers its own fields and its link. */
  ghost predicate IsHashed(sha: string -> string, e: Event) {
    && '|' !in e.id && e.middle != []
    && (e.previousHash.Some? ==> e.previousHash.value != "" && '|' !in e.previousHash.value)
    && e.hash == sha(HashInput(e.id, e.middle, e.previousHash))
  }

  /** An event's hash fixes its middle fields, among all events with as many of them, exactly
      when none of them has a bar.  (The service always joins nine.) */
  lemma HashFixesMiddle(sha: string -> string, e: Event)
    requires IsSha(sha) && IsHashed(sha, e) && |e.middle| >= 2
    ensures (forall f :: IsHashed(sha, f) && |f.middle| == |e.middle| && f.hash == e.hash ==> f.middle == e.middle)
            <==> BarFree(e.middle)
  {
    hide Join, IsSha, BarFree;
    if BarFree(e.middle) {
      forall f | IsHashed(sha, f) && |f.middle| == |e.middle| && f.hash == e.hash
        ensures f.middle == e.middle
      {
        SameHashSameJoin(sha, e, f);
        JoinFixesFields(e.middle, f.middle);
      }
    } else {
      var other := BarsLeaveRoom(e.middle);
      var f := Event(e.id, e.occurredAt, e.createdAt, other, e.previousHash, e.hash);
      JoinEnds(e.id, e.middle, OrEmpty(e.previousHash));
      JoinEnds(e.id, other, OrEmpty(e.previousHash));
      assert IsHashed(sha, f) && f.middle != e.middle;
    }
  }

  lemma SameHashSameJoin(sha: string -> string, e: Event, f: Event)
    requires IsSha(sha) && IsHashed(sha, e) && IsHashed(sha, f) && e.hash == f.hash
    ensures Join(e.middle) == Join(f.middle)
  {
    HashFixesIdAndLink(sha, e, f);
    var last := OrEmpty(e.previousHash);
    JoinEnds(e.id, e.middle, last);
    JoinEnds(e.id, f.middle, last);
    var one, two := e.id + "|" + Join(e.middle) + "|" + last, e.id + "|" + Join(f.middle) + "|" + last;
    assert one == two;
    assert one[|e.id| + 1..|one| - |last| - 1] == Join(e.middle)
        && two[|e.id| + 1..|two| - |last| - 1] == Join(f.middle);
  }

  /** The nine fields of two events that differ in source name and request id. */
  lemma MiddleFieldsAreAmbiguous(sha: string -> string, id: string, previous: Option<string>, time: string,
                                 key: string, kind: string, source: string, correlation: string, table: string,
                                 pk: string)
    ensures var one := [time, key, kind, source, "a|b", "c", correlation, table, pk];
            var two := [time, key, kind, source, "a", "b|c", correlation, table, pk];
            one != two && sha(HashInput(id, one, previous)) == sha(HashInput(id, two, previous))
  {
    var pre, post := [time, key, kind, source], [correlation, table, pk];
    var one := [time, key, kind, source, "a|b", "c", correlation, table, pk];
    var two := [time, key, kind, source, "a", "b|c", correlation, table, pk];
    assert one == pre + ["a|b", "c"] + post && two == pre + ["a", "b|c"] + post;
    JoinMoves(pre, "a|b", "c", "a", "b|c", post);
    JoinEnds(id, one, OrEmpty(previous));
    JoinEnds(id, two, OrEmpty(previous));
    assert one[4] != two[4];
  }

  // The chain of an event

  /** Every link is the hash of exactly one event, and that event was inserted earlier. */
  lemma LinkIsUnique(sha: string -> string, events: seq<Event>, i: nat)
    requires IsSha(sha) && IsLog(sha, events) && i < |events|
    ensures events[i].previousHash.None? <==> i == 0
    ensures i > 0 ==> exists k :: 0 <= k < i && Some(events[k].hash) == events[i].previousHash
    ensures forall k :: 0 <= k < |events| && Some(events[k].hash) == events[i].previousHash ==> k < i
    ensures forall k, l :: 0 <= k < |events| && 0 <= l < |events| && events[k].hash == events[l].hash ==> k == l
  {
    LinkText(sha, events, i);
    forall k, l | 0 <= k < |events| && 0 <= l < |events| && events[k].hash == events[l].hash
      ensures k == l
    {
      LinkText(sha, events, k);
      LinkText(sha, events, l);
      HashFixesIdAndLink(sha, events[k], events[l]);
    }
  }

  lemma LinkText(sha: string -> string, events: seq<Event>, i: nat)
    requires IsSha(sha) && IsLog(sha, events) && i < |events|
    ensures events[i].previousHash.None? <==> i == 0
    ensures i > 0 ==> exists k :: 0 <= k < i && Some(events[k].hash) == events[i].previousHash
    ensures i > 0 ==> events[i].previousHash.value != "" && '|' !in events[i].previousHash.value
  {
    assert LinksToLatest(events, i);
    if i > 0 {
      var k :| IsLatest(events[..i], k) && events[i].previousHash == Some(events[k].hash);
      assert events[k].hash == sha(HashInput(events[k].id, events[k].middle, events[k].previousHash));
    }
  }

  /** The index an event's link points to. */
  ghost function Previous(sha: string -> string, events: seq<Event>, i: nat): (k: nat)
    requires IsSha(sha) && IsLog(sha, events) && 0 < i < |events|
    ensures k < i && events[i].previousHash == Some(events[k].hash)
  {
    LinkIsUnique(sha, events, i);
    var k :| 0 <= k < i && Some(events[k].hash) == events[i].previousHash;
    k
  }

  /** The event ids from the root of the chain to event `i`. */
  ghost function ChainIds(sha: string -> string, events: seq<Event>, i: nat): seq<string>
    requires IsSha(sha) && IsLog(sha, events) && i < |events|
  {
    if i == 0 then [events[0].id]
    else ChainIds(sha, events, Previous(sha, events, i)) + [events[i].id]
  }

  /** Two logs whose events carry the same hash agree on every event id back to the root. */
  lemma {:induction false} EqualHashesEqualChains(sha: string -> string, one: seq<Event>, i: nat, two: seq<Event>,
                                                  j: nat)
    requires IsSha(sha) && IsLog(sha, one) && IsLog(sha, two) && i < |one| && j < |two|
    requires one[i].hash == two[j].hash
    ensures ChainIds(sha, one, i) == ChainIds(sha, two, j)
    decreases i
  {
    LinkText(sha, one, i);
    LinkText(sha, two, j);
    HashFixesIdAndLink(sha, one[i], two[j]);
    LinkIsUnique(sha, one, i);
    LinkIsUnique(sha, two, j);
    if i > 0 {
      EqualHashesEqualChains(sha, one, Previous(sha, one, i), two, Previous(sha, two, j));
    }
  }

  lemma PreviousIsLatest(sha: string -> string, events: seq<Event>, i: nat)
    requires IsSha(sha) && IsLog(sha, events) && 0 < i < |events|
    ensures IsLatest(events[..i], Previous(sha, events, i))
  {
    assert LinksToLatest(events, i);
    var k :| IsLatest(events[..i], k) && events[i].previousHash == Some(events[k].hash);
    LinkIsUnique(sha, events, i);
    assert k == Previous(sha, events, i);
  }

  // Lines and forks

  /** Strictly earlier by occurred_at, then created_at. */
  predicate Before(a: Event, b: Event) {
    !NotAfter(b, a)
  }

  /** All events but the last come strictly one after the other. */
  ghost predicate Increasing(events: seq<Event>) {
    forall i, j :: 0 <= i < j && j + 1 < |events| ==> Before(events[i], events[j])
  }

  ghost predicate InOrder(events: seq<Event>) {
    forall i, j :: 0 <= i <= j && j + 1 < |events| ==> NotAfter(events[i], events[j])
  }

  /** No two events but perhaps the last have the same times. */
  ghost predicate NoTies(events: seq<Event>) {
    forall i, j :: 0 <= i < j && j + 1 < |events| ==> Before(events[i], events[j]) || Before(events[j], events[i])
  }

  /** Every event links to the one inserted just before it. */
  ghost predicate IsLine(events: seq<Event>) {
    forall i :: 0 < i < |events| ==> events[i].previousHash == Some(events[i - 1].hash)
  }

  /** Strictly increasing times make a single line, whatever the time of the last event. */
  lemma IncreasingTimesMakeALine(sha: string -> string, events: seq<Event>)
    requires IsLog(sha, events) && Increasing(events)
    ensures IsLine(events)
  {
    forall i | 0 < i < |events|
      ensures events[i].previousHash == Some(events[i - 1].hash)
    {
      assert LinksToLatest(events, i);
      var k :| IsLatest(events[..i], k) && events[i].previousHash == Some(events[k].hash);
      assert NotAfter(events[..i][i - 1], events[..i][k]);
    }
  }

  /** Conversely, a line is in time order: only the last event may be dated back. */
  lemma LineIsInOrder(sha: string -> string, events: seq<Event>, i: nat, j: nat)
    requires IsSha(sha) && IsLog(sha, events) && IsLine(events) && i <= j && j + 1 < |events|
    ensures NotAfter(events[i], events[j])
  {
    PreviousIsLatest(sha, events, j + 1);
    LinkIsUnique(sha, events, j + 1);
    assert events[j + 1].previousHash == Some(events[j + 1 - 1].hash);
    assert Previous(sha, events, j + 1) == j;
    assert NotAfter(events[..j + 1][i], events[..j + 1][j]);
  }

  /** Without ties a log is a single line exactly when all events but the last are in time
      order. */
  lemma LineIffInOrder(sha: string -> string, events: seq<Event>)
    requires IsSha(sha) && IsLog(sha, events) && NoTies(events)
    ensures IsLine(events) <==> InOrder(events)
  {
    if InOrder(events) {
      assert Increasing(events);
      IncreasingTimesMakeALine(sha, events);
    }
    if IsLine(events) {
      forall i, j | 0 <= i <= j && j + 1 < |events|
        ensures NotAfter(events[i], events[j])
      {
        LineIsInOrder(sha, events, i, j);
      }
    }
  }

  /** The event after one dated back behind any earlier event links past it. */
  lemma BackdatedEventForks(sha: string -> string, events: seq<Event>, i: nat, j: nat)
    requires IsSha(sha) && IsLog(sha, events) && j < i && i + 1 < |events|
    requires Before(events[i], events[j])
    ensures Previous(sha, events, i + 1) != i && !IsLine(events)
  {
    PreviousIsLatest(sha, events, i + 1);
    assert NotAfter(events[..i + 1][j], events[..i + 1][Previous(sha, events, i + 1)]);
    if IsLine(events) {
      LineIsInOrder(sha, events, j, i);
    }
  }

  /** The same events in the same order, but for links and hashes. */
  ghost predicate SameFields(one: seq<Event>, two: seq<Event>) {
    && |one| == |two|
    && forall i :: 0 <= i < |one| ==>
        && one[i].id == two[i].id && one[i].occurredAt == two[i].occurredAt
        && one[i].createdAt == two[i].createdAt && one[i].middle == two[i].middle
  }

  ghost predicate CanFollow(events: seq<Event>, tail: seq<Event>) {
    && (forall i :: 0 <= i < |tail| ==> tail[i].middle != [] && '|' !in tail[i].id)
    && (forall i, j :: 0 <= i < j < |tail| ==> tail[i].id != tail[j].id)
    && forall e, i :: e in events && 0 <= i < |tail| ==> e.id != tail[i].id
  }

  /** A log goes on with any further events under new ids. */
  lemma {:induction false} LogContinues(sha: string -> string, events: seq<Event>, tail: seq<Event>)
    returns (log: seq<Event>)
    requires IsLog(sha, events) && CanFollow(events, tail)
    ensures IsLog(sha, log) && events <= log && SameFields(log[|events|..], tail)
    decreases |tail|
  {
    hide IsLog, HashInput, IsLatest;
    if tail == [] {
      log := events;
    } else {
      var link := None;
      if events != [] {
        var k := LatestExists(events);
        link := Some(events[k].hash);
      }
      var t := tail[0];
      var e := Hashed(sha, t.id, t.occurredAt, t.createdAt, t.middle, link);
      LogExtends(sha, events, e);
      assert CanFollow(events + [e], tail[1..]);
      log := LogContinues(sha, events + [e], tail[1..]);
      assert log[|events|..] == [e] + log[|events + [e]|..];
      assert tail == [t] + tail[1..];
    }
  }

  lemma PrefixIsLog(sha: string -> string, events: seq<Event>, n: nat)
    requires IsLog(sha, events) && n <= |events|
    ensures IsLog(sha, events[..n])
  {
    hide HashInput, NotAfter;
    var prefix := events[..n];
    forall i | 0 <= i < n
      ensures LinksToLatest(prefix, i)
    {
      assert LinksToLatest(events, i) && prefix[..i] == events[..i];
    }
  }

  /** Where the event at j is not after all earlier ones, the next event may link past it: some
      log of the same events is no line. */
  lemma DisorderCanFork(sha: string -> string, events: seq<Event>, i: nat, j: nat) returns (log: seq<Event>)
    requires IsSha(sha) && IsLog(sha, events) && i < j && j + 1 < |events| && NotAfter(events[j], events[i])
    ensures IsLog(sha, log) && SameFields(log, events) && !IsLine(log)
  {
    var prefix, next := events[..j + 1], events[j + 1];
    PrefixIsLog(sha, events, j + 1);
    var k := LatestExists(events[..j]);
    assert NotAfter(events[..j][i], events[..j][k]);
    forall l | 0 <= l < |prefix|
      ensures NotAfter(prefix[l], prefix[k])
    {
      assert l < j ==> NotAfter(events[..j][l], events[..j][k]);
    }
    assert IsLatest(prefix, k);
    var e := Hashed(sha, next.id, next.occurredAt, next.createdAt, next.middle, Some(prefix[k].hash));
    LogExtends(sha, prefix, e);
    log := LogContinues(sha, prefix + [e], events[j + 2..]);
    assert log[..j + 2] == prefix + [e];
    ForkStays(sha, log, events, j, k);
  }

  lemma ForkStays(sha: string -> string, log: seq<Event>, events: seq<Event>, j: nat, k: nat)
    requires IsSha(sha) && IsLog(sha, log) && k < j && j + 1 < |events|
    requires |log| > j + 1 && log[..j + 1] == events[..j + 1] && log[j + 1].previousHash == Some(log[k].hash)
    requires log[j + 1].id == events[j + 1].id && log[j + 1].middle == events[j + 1].middle
    requires log[j + 1].occurredAt == events[j + 1].occurredAt && log[j + 1].createdAt == events[j + 1].createdAt
    requires SameFields(log[j + 2..], events[j + 2..])
    ensures SameFields(log, events) && !IsLine(log)
  {
    LinkIsUnique(sha, log, j + 1);
    assert log[j + 1].previousHash != Some(log[j + 1 - 1].hash);
    forall l | 0 <= l < |log|
      ensures l < |events| && log[l].id == events[l].id && log[l].occurredAt == events[l].occurredAt
      ensures l < |events| && log[l].createdAt == events[l].createdAt && log[l].middle == events[l].middle
    {
      if l < j + 1 {
        assert log[l] == log[..j + 1][l] == events[..j + 1][l];
      } else if l > j + 1 {
        assert log[l] == log[j + 2..][l - j - 2] && events[l] == events[j + 2..][l - j - 2];
      }
    }
  }

  /** What the times alone decide, ties included: every log of these events is a single line
      exactly when all but the last come strictly one after the other. */
  lemma LineIsForcedByTimes(sha: string -> string, events: seq<Event>)
    requires IsSha(sha) && IsLog(sha, events)
    ensures (forall log :: IsLog(sha, log) && SameFields(log, events) ==> IsLine(log)) <==> Increasing(events)
  {
    hide IsLog, IsSha;
    if Increasing(events) {
      forall log | IsLog(sha, log) && SameFields(log, events)
        ensures IsLine(log)
      {
        IncreasingTimesMakeALine(sha, log);
      }
    } else {
      var i, j :| 0 <= i < j && j + 1 < |events| && !Before(events[i], events[j]);
      var log := DisorderCanFork(sha, events, i, j);
    }
  }

  function At(id: string, occurredAt: int): Event {
    Event(id, occurredAt, 0, ["", "", "", "", "", "", "", "", ""], None, "")
  }

  /** Events at times 1, 5, 3 and 6: the last one links past the third to the second. */
  lemma BackdatedLog(sha: string -> string) returns (log: seq<Event>)
    requires IsSha(sha)
    ensures IsLog(sha, log) && SameFields(log, [At("a", 1), At("b", 5), At("c", 3), At("d", 6)])
    ensures !IsLine(log) && Previous(sha, log, 3) == 1
  {
    var tail := [At("a", 1), At("b", 5), At("c", 3), At("d", 6)];
    assert IsLog(sha, []);
    log := LogContinues(sha, [], tail);
    assert log[0..] == log;
    BackdatedEventForks(sha, log, 2, 1);
    PreviousIsLatest(sha, log, 3);
    assert NotAfter(log[..3][1], log[..3][Previous(sha, log, 3)]);
  }
}
