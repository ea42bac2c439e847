/** The history tables as `createEvent` writes them: an append-only change log, the index of
    current values, and the lineage graph over events, actors, entities, inputs, changes and
    current values. */
module HistoryStore {
  import opened Wrappers
  import opened HistoryGraph
  import opened HistoryTables
  import opened HistoryValues
  import opened HistoryReplay
  import HistoryDiff

  datatype EntityRole = RoleCreated | RoleDeleted | RoleLinked | RoleUnlinked | RoleNotificationTarget | RoleOther

  datatype ActorWrite = ActorWrite(initiator: bool)
  datatype EntityWrite = EntityWrite(key: Option<string>, role: EntityRole)
  datatype InputWrite = InputWrite(inputKey: string)
  datatype ChangeWrite = ChangeWrite(
    key: Key,
    operation: HistoryDiff.Operation,
    valueType: ValueType,
    entityKey: Option<string>,
    before: Option<Scalar>,
    after: Option<Scalar>,
    track: Option<bool>)

  /** The parts of an event payload that reach the graph, the log and the index. */
  datatype EventWrite = EventWrite(
    actors: seq<ActorWrite>,
    entities: seq<EntityWrite>,
    inputs: seq<InputWrite>,
    changes: seq<ChangeWrite>)

  /** A row of the index, with its own id. */
  datatype Current = Current(id: nat, shown: Shown)

  type FieldMap = map<(string, string), TrackedField>

  function EntityEdgeKind(role: EntityRole): EdgeKind {
    match role
    case RoleCreated => Created
    case RoleDeleted => Deleted
    case RoleLinked => Linked
    case RoleUnlinked => Unlinked
    case RoleNotificationTarget => Notified
    case RoleOther => Affected
  }

  function FieldOf(fields: FieldMap, key: Key): Option<TrackedField> {
    if (key.table, key.path) in fields then Some(fields[(key.table, key.path)]) else None
  }

  function ShouldTrack(change: ChangeWrite, field: Option<TrackedField>): bool {
    if change.track.Some? then change.track.value
    else if field.Some? then field.value.trackCurrent
    else true
  }

  function ScalarOr(value: Option<Scalar>, t: ValueType): Scalar {
    if value.Some? then value.value else Scalar(t, None, None, None, None, None)
  }

  /** The log row written for a change. */
  function EntryFor(lib: Library, fields: FieldMap, change: ChangeWrite, id: nat, eventId: nat): LogEntry {
    var field := FieldOf(fields, change.key);
    LogEntry(id, eventId, change.key, change.operation, change.valueType,
             PrepareScalar(lib, ScalarOr(change.before, change.valueType), field),
             PrepareScalar(lib, ScalarOr(change.after, change.valueType), field),
             ShouldTrack(change, field))
  }

  /** The log row of a change, column by column: a missing value counts as null of the change's
      type, and the row is tracked if the change says so, else if its field does, else always. */
  ghost predicate IsLogRow(lib: Library, fields: FieldMap, change: ChangeWrite, e: LogEntry, eventId: nat) {
    var at := (change.key.table, change.key.path);
    var field := if at in fields then Some(fields[at]) else None;
    var missing := Scalar(change.valueType, None, None, None, None, None);
    && e.eventId == eventId && e.key == change.key && e.operation == change.operation && e.valueType == change.valueType
    && IsKept(lib, if change.before == None then missing else change.before.value, field, e.before)
    && IsKept(lib, if change.after == None then missing else change.after.value, field, e.after)
    && (change.track.Some? ==> e.tracked == change.track.value)
    && (change.track == None && at in fields ==> e.tracked == fields[at].trackCurrent)
    && (change.track == None && at !in fields ==> e.tracked)
  }

  lemma EntryIsLogRow(lib: Library, fields: FieldMap, change: ChangeWrite, id: nat, eventId: nat)
    ensures IsLogRow(lib, fields, change, EntryFor(lib, fields, change, id, eventId), eventId)
  {
    hide PrepareScalar, IsKept;
    var field := FieldOf(fields, change.key);
    PreparedIsKept(lib, ScalarOr(change.before, change.valueType), field);
    PreparedIsKept(lib, ScalarOr(change.after, change.valueType), field);
  }

  // What the tables keep

  ghost predicate IndexAgrees(current: map<Key, Current>, log: seq<LogEntry>) {
    && (forall k :: k in current <==> k in Replay(log))
    && (forall k :: k in current ==> current[k].shown == Replay(log)[k])
  }

  ghost predicate CurrentRowsMatch(n: Net, current: map<Key, Current>) {
    && (forall k :: k in current ==> CurrentRow(current[k].id) in n.rows)
    && (forall k, l :: k in current && l in current && k != l ==> current[k].id != current[l].id)
    && (forall r :: r in n.rows && r.CurrentRow? ==> exists k :: k in current && current[k].id == r.id)
  }

  ghost predicate LogRowsExist(n: Net, log: seq<LogEntry>) {
    && (forall i :: 0 <= i < |log| ==> ChangeRow(log[i].id) in n.rows && EventRow(log[i].eventId) in n.rows)
    && (forall i, j :: 0 <= i < j < |log| ==> log[i].id != log[j].id)
  }

  /** Every current value has an edge to its producing change. */
  ghost predicate ProducersLinked(n: Net, current: map<Key, Current>) {
    forall k :: k in current ==>
      HasEdge(n, CurrentRow(current[k].id), ChangeRow(current[k].shown.changeId), CurrentValueOf)
  }

  ghost predicate ChangesLinked(n: Net, log: seq<LogEntry>) {
    forall i :: 0 <= i < |log| ==> HasEdge(n, EventRow(log[i].eventId), ChangeRow(log[i].id), Changed)
  }

  /** The tables agree, with the index brought up to the first `indexed` log rows and the change
      edges inserted for the first `linked`. */
  ghost predicate Consistent(n: Net, log: seq<LogEntry>, current: map<Key, Current>, indexed: nat, linked: nat) {
    && indexed <= |log| && linked <= |log|
    && WellFormed(n) && CurrentRowsMatch(n, current) && LogRowsExist(n, log)
    && IndexAgrees(current, log[..indexed])
    && ProducersLinked(n, current) && ChangesLinked(n, log[..linked])
  }

  /** Adding rows other than current values, nodes and edges keeps the tables in agreement. */
  lemma GrowthKeeps(n: Net, m: Net, log: seq<LogEntry>, current: map<Key, Current>, indexed: nat, linked: nat)
    requires Consistent(n, log, current, indexed, linked) && WellFormed(m) && Extends(n, m)
    requires forall r :: r in m.rows && r !in n.rows ==> !r.CurrentRow?
    ensures Consistent(m, log, current, indexed, linked)
  {
    LinksStayAll(n, m, log[..linked], current);
  }

  lemma LinksStayAll(n: Net, m: Net, log: seq<LogEntry>, current: map<Key, Current>)
    requires Extends(n, m) && ProducersLinked(n, current) && ChangesLinked(n, log)
    ensures ProducersLinked(m, current) && ChangesLinked(m, log)
  {
    forall k | k in current
      ensures HasEdge(m, CurrentRow(current[k].id), ChangeRow(current[k].shown.changeId), CurrentValueOf)
    {
      LinksStay(n, m, CurrentRow(current[k].id), ChangeRow(current[k].shown.changeId), CurrentValueOf);
    }
    forall i | 0 <= i < |log|
      ensures HasEdge(m, EventRow(log[i].eventId), ChangeRow(log[i].id), Changed)
    {
      LinksStay(n, m, EventRow(log[i].eventId), ChangeRow(log[i].id), Changed);
    }
  }

  /** The index after one more log row. */
  lemma ReplayOneMore(log: seq<LogEntry>, indexed: nat)
    requires indexed < |log|
    ensures var e, before, after := log[indexed], Replay(log[..indexed]), Replay(log[..indexed + 1]);
            && (!e.tracked ==> after == before)
            && (e.tracked && Clears(e.operation, e.after) ==> after == before - {e.key})
            && (e.tracked && !Clears(e.operation, e.after) ==> after == before[e.key := ShownBy(e)])
  {
    assert log[..indexed + 1][..indexed] == log[..indexed];
  }

  /** A log row that is not tracked, or clears a value that is not there, leaves the index. */
  lemma NothingToIndex(n: Net, log: seq<LogEntry>, current: map<Key, Current>, indexed: nat, linked: nat)
    requires Consistent(n, log, current, indexed, linked) && indexed < |log|
    requires !log[indexed].tracked
        || (Clears(log[indexed].operation, log[indexed].after) && log[indexed].key !in current)
    ensures Consistent(n, log, current, indexed + 1, linked)
  {
    hide Replay, Clears, WellFormed, CurrentRowsMatch, LogRowsExist, ProducersLinked, ChangesLinked;
    ReplayOneMore(log, indexed);
  }

  /** Deleting a current value takes its node and edges along, and nothing else. */
  lemma ClearingKeeps(n: Net, log: seq<LogEntry>, current: map<Key, Current>, indexed: nat, linked: nat)
    requires Consistent(n, log, current, indexed, linked) && indexed < |log|
    requires log[indexed].tracked && Clears(log[indexed].operation, log[indexed].after) && log[indexed].key in current
    ensures Consistent(CascadeDelete(n, CurrentRow(current[log[indexed].key].id)), log, current - {log[indexed].key},
                       indexed + 1, linked)
  {
    hide Replay, Clears, KeysHold, Covered, WellFormed, HasNode, HasEdge, CascadeDelete;
    hide LogRowsExist, CurrentRowsMatch, IndexAgrees, ProducersLinked, ChangesLinked;
    var key := log[indexed].key;
    var gone := CurrentRow(current[key].id);
    var m := CascadeDelete(n, gone);
    CascadeKeeps(n, gone);
    ClearedIndex(log, current, indexed);
    ClearedLinks(n, m, log[..linked], current, key);
    CascadeDeletesRow(n, gone);
    ClearedRows(n, m, log, current, key);
  }

  lemma CascadeDeletesRow(n: Net, ref: RowRef)
    ensures CascadeDelete(n, ref).rows == n.rows - {ref}
  {
  }

  lemma ClearedIndex(log: seq<LogEntry>, current: map<Key, Current>, indexed: nat)
    requires indexed < |log| && IndexAgrees(current, log[..indexed])
    requires log[indexed].tracked && Clears(log[indexed].operation, log[indexed].after)
    ensures IndexAgrees(current - {log[indexed].key}, log[..indexed + 1])
  {
    hide Replay, Clears;
    ReplayOneMore(log, indexed);
  }

  lemma ClearedRows(n: Net, m: Net, log: seq<LogEntry>, current: map<Key, Current>, key: Key)
    requires CurrentRowsMatch(n, current) && LogRowsExist(n, log) && key in current
    requires m.rows == n.rows - {CurrentRow(current[key].id)}
    ensures CurrentRowsMatch(m, current - {key}) && LogRowsExist(m, log)
  {
    var rest := current - {key};
    forall r | r in m.rows && r.CurrentRow?
      ensures exists k :: k in rest && rest[k].id == r.id
    {
      var k :| k in current && current[k].id == r.id;
      assert k in rest;
    }
  }

  lemma ClearedLinks(n: Net, m: Net, log: seq<LogEntry>, current: map<Key, Current>, key: Key)
    requires CurrentRowsMatch(n, current) && ProducersLinked(n, current) && ChangesLinked(n, log) && key in current
    requires m == CascadeDelete(n, CurrentRow(current[key].id))
    ensures ProducersLinked(m, current - {key}) && ChangesLinked(m, log)
  {
    hide CascadeDelete;
    var gone, rest := CurrentRow(current[key].id), current - {key};
    forall k | k in rest
      ensures HasEdge(m, CurrentRow(rest[k].id), ChangeRow(rest[k].shown.changeId), CurrentValueOf)
    {
      LinksSurviveCascade(n, gone, CurrentRow(rest[k].id), ChangeRow(rest[k].shown.changeId), CurrentValueOf);
    }
    forall i | 0 <= i < |log|
      ensures HasEdge(m, EventRow(log[i].eventId), ChangeRow(log[i].id), Changed)
    {
      LinksSurviveCascade(n, gone, EventRow(log[i].eventId), ChangeRow(log[i].id), Changed);
    }
  }

  /** Writing a current value, under its old id or a new one, linked to its change. */
  lemma UpsertKeeps(n: Net, m: Net, log: seq<LogEntry>, current: map<Key, Current>, indexed: nat, linked: nat, id: nat)
    requires Consistent(n, log, current, indexed, linked) && indexed < |log|
    requires log[indexed].tracked && !Clears(log[indexed].operation, log[indexed].after)
    requires if log[indexed].key in current then id == current[log[indexed].key].id && m.rows == n.rows
             else CurrentRow(id) !in n.rows && m.rows == n.rows + {CurrentRow(id)}
    requires WellFormed(m) && Extends(n, m) && HasEdge(m, CurrentRow(id), ChangeRow(log[indexed].id), CurrentValueOf)
    ensures Consistent(m, log, current[log[indexed].key := Current(id, ShownBy(log[indexed]))], indexed + 1, linked)
  {
    hide Replay, Clears, WellFormed, Extends, HasEdge, LogRowsExist, CurrentRowsMatch, IndexAgrees, ChangesLinked;
    var key, shown := log[indexed].key, ShownBy(log[indexed]);
    UpsertedIndex(log, current, indexed, id);
    LinksStayAll(n, m, log[..linked], current);
    UpsertedRows(n, m, current, key, id, shown);
    LogRowsStay(n, m, log);
  }

  lemma LogRowsStay(n: Net, m: Net, log: seq<LogEntry>)
    requires LogRowsExist(n, log) && n.rows <= m.rows
    ensures LogRowsExist(m, log)
  {
  }

  lemma UpsertedIndex(log: seq<LogEntry>, current: map<Key, Current>, indexed: nat, id: nat)
    requires indexed < |log| && IndexAgrees(current, log[..indexed])
    requires log[indexed].tracked && !Clears(log[indexed].operation, log[indexed].after)
    ensures IndexAgrees(current[log[indexed].key := Current(id, ShownBy(log[indexed]))], log[..indexed + 1])
  {
    hide Replay, Clears;
    ReplayOneMore(log, indexed);
  }

  lemma UpsertedRows(n: Net, m: Net, current: map<Key, Current>, key: Key, id: nat, shown: Shown)
    requires CurrentRowsMatch(n, current)
    requires if key in current then id == current[key].id && m.rows == n.rows
             else CurrentRow(id) !in n.rows && m.rows == n.rows + {CurrentRow(id)}
    ensures CurrentRowsMatch(m, current[key := Current(id, shown)])
  {
    var updated := current[key := Current(id, shown)];
    forall r | r in m.rows && r.CurrentRow?
      ensures exists k :: k in updated && updated[k].id == r.id
    {
      if r == CurrentRow(id) {
        assert key in updated && updated[key].id == r.id;
      } else {
        var k :| k in current && current[k].id == r.id;
        assert k in updated && updated[k].id == r.id;
      }
    }
  }

  /** Rows other than current values stay, with their nodes and the edges among them. */
  ghost predicate KeepsOthers(n: Net, m: Net) {
    && (forall r :: r in n.rows && !r.CurrentRow? ==> r in m.rows)
    && (forall v :: v in n.nodes && !n.nodes[v].CurrentRow? ==> v in m.nodes && m.nodes[v] == n.nodes[v])
    && (forall e :: e in n.edges && IsLasting(n, e.from) && IsLasting(n, e.to) ==> e in m.edges)
  }

  ghost predicate IsNodeOf(n: Net, v: NodeId, ref: RowRef) {
    v in n.nodes && n.nodes[v] == ref
  }

  /** A node that stays while the index changes. */
  ghost predicate IsLasting(n: Net, v: NodeId) {
    v in n.nodes && !n.nodes[v].CurrentRow?
  }

  /** Rows, nodes and edges were added, but no current value. */
  ghost predicate Grown(n: Net, m: Net) {
    Extends(n, m) && WellFormed(m) && forall r :: r in m.rows && r !in n.rows ==> !r.CurrentRow?
  }

  lemma GrownFromStart(n: Net, log: seq<LogEntry>, current: map<Key, Current>)
    requires Consistent(n, log, current, |log|, |log|)
    ensures Grown(n, n)
  {
  }

  /** The log rows of the first changes of an event. */
  ghost predicate EntriesFor(lib: Library, fields: FieldMap, changes: seq<ChangeWrite>, entries: seq<LogEntry>,
                             eventId: nat) {
    && |entries| <= |changes|
    && forall i :: 0 <= i < |entries| ==> entries[i] == EntryFor(lib, fields, changes[i], entries[i].id, eventId)
  }

  ghost predicate NodesOfEntries(n: Net, changeNodes: seq<NodeId>, entries: seq<LogEntry>) {
    && |changeNodes| == |entries|
    && forall i :: 0 <= i < |entries| ==> IsNodeOf(n, changeNodes[i], ChangeRow(entries[i].id))
  }

  lemma NoEntriesYet(n: Net, lib: Library, fields: FieldMap, changes: seq<ChangeWrite>, eventId: nat)
    ensures EntriesFor(lib, fields, changes, [], eventId) && NodesOfEntries(n, [], [])
  {
  }

  lemma OneMoreEntry(n: Net, m: Net, lib: Library, fields: FieldMap, changes: seq<ChangeWrite>, eventId: nat,
                     changeNodes: seq<NodeId>, entries: seq<LogEntry>, node: NodeId, entry: LogEntry)
    requires Grown(n, m) && NodesOfEntries(n, changeNodes, entries) && IsNodeOf(m, node, ChangeRow(entry.id))
    requires EntriesFor(lib, fields, changes, entries, eventId) && |entries| < |changes|
    requires entry == EntryFor(lib, fields, changes[|entries|], entry.id, eventId)
    ensures NodesOfEntries(m, changeNodes + [node], entries + [entry])
    ensures EntriesFor(lib, fields, changes, entries + [entry], eventId)
  {
    hide EntryFor;
  }

  lemma GrownTwice(n: Net, m: Net, k: Net)
    requires Grown(n, m) && Grown(m, k)
    ensures Grown(n, k)
  {
  }

  lemma GrownKeepsRows(n: Net, m: Net)
    requires Grown(n, m)
    ensures n.rows <= m.rows
  {
  }

  lemma EdgesAreGrown(n: Net, m: Net)
    requires Extends(n, m) && WellFormed(m) && m.rows == n.rows
    ensures Grown(n, m)
  {
  }

  lemma ExtendsKeepsNode(n: Net, m: Net, v: NodeId)
    requires Extends(n, m) && v in n.nodes
    ensures v in m.nodes && m.nodes[v] == n.nodes[v]
  {
  }

  lemma ExtendsKeepsOthers(n: Net, m: Net)
    requires Extends(n, m)
    ensures KeepsOthers(n, m)
  {
  }

  lemma GrownKeepsOthers(n: Net, m: Net)
    requires Grown(n, m)
    ensures KeepsOthers(n, m)
  {
  }

  lemma EdgeStays(n: Net, m: Net, a: RowRef, b: RowRef, kind: EdgeKind)
    requires KeepsOthers(n, m) && !a.CurrentRow? && !b.CurrentRow? && HasEdge(n, a, b, kind)
    ensures HasEdge(m, a, b, kind)
  {
    var e :| e in n.edges && e.kind == kind && e.from in n.nodes && e.to in n.nodes
             && n.nodes[e.from] == a && n.nodes[e.to] == b;
    assert IsLasting(n, e.from) && IsLasting(n, e.to) && e in m.edges;
  }

  /** The rows are distinct, and each is joined to the event by an edge of its kind. */
  ghost predicate Attached(n: Net, rows: seq<RowRef>, event: RowRef, outward: bool, kinds: seq<EdgeKind>) {
    && |rows| <= |kinds|
    && (forall i, j :: 0 <= i < j < |rows| ==> rows[i] != rows[j])
    && forall i :: 0 <= i < |rows| ==>
         && !rows[i].CurrentRow? && rows[i] in n.rows
         && HasEdge(n, if outward then event else rows[i], if outward then rows[i] else event, kinds[i])
  }

  lemma AttachedStays(n: Net, m: Net, rows: seq<RowRef>, event: RowRef, outward: bool, kinds: seq<EdgeKind>)
    requires KeepsOthers(n, m) && !event.CurrentRow? && Attached(n, rows, event, outward, kinds)
    ensures Attached(m, rows, event, outward, kinds)
  {
    forall i | 0 <= i < |rows|
      ensures HasEdge(m, if outward then event else rows[i], if outward then rows[i] else event, kinds[i])
    {
      EdgeStays(n, m, if outward then event else rows[i], if outward then rows[i] else event, kinds[i]);
    }
  }

  lemma OneMoreAttached(n: Net, m: Net, rows: seq<RowRef>, event: RowRef, outward: bool, kinds: seq<EdgeKind>,
                        row: RowRef)
    requires Grown(n, m) && !event.CurrentRow? && Attached(n, rows, event, outward, kinds) && |rows| < |kinds|
    requires !row.CurrentRow? && row !in n.rows && row in m.rows
    requires HasEdge(m, if outward then event else row, if outward then row else event, kinds[|rows|])
    ensures Attached(m, rows + [row], event, outward, kinds)
  {
    GrownKeepsOthers(n, m);
    AttachedStays(n, m, rows, event, outward, kinds);
    hide HasEdge, WellFormed, Extends;
  }

  /** The map holds, for every key, the node of the last row that was given the key. */
  ghost predicate KeysMatch(n: Net, keys: seq<Option<string>>, rows: seq<RowRef>, found: map<string, NodeId>) {
    && |rows| <= |keys|
    && (forall i :: 0 <= i < |rows| ==> !rows[i].CurrentRow?)
    && (forall k :: k in found <==> exists i :: IsLastWith(keys[..|rows|], k, i))
    && forall k, i :: k in found && IsLastWith(keys[..|rows|], k, i) ==> IsNodeOf(n, found[k], rows[i])
  }

  ghost predicate IsLastWith(keys: seq<Option<string>>, k: string, i: int) {
    && 0 <= i < |keys| && keys[i] == Some(k)
    && forall j :: i < j < |keys| ==> keys[j] != Some(k)
  }

  lemma KeysMatchStays(n: Net, m: Net, keys: seq<Option<string>>, rows: seq<RowRef>, found: map<string, NodeId>)
    requires KeepsOthers(n, m) && KeysMatch(n, keys, rows, found)
    ensures KeysMatch(m, keys, rows, found)
  {
  }

  lemma OneMoreKey(n: Net, m: Net, keys: seq<Option<string>>, rows: seq<RowRef>, found: map<string, NodeId>,
                   row: RowRef, node: NodeId)
    requires Grown(n, m) && KeysMatch(n, keys, rows, found) && |rows| < |keys|
    requires !row.CurrentRow? && IsNodeOf(m, node, row)
    ensures KeysMatch(m, keys, rows + [row], if keys[|rows|].Some? then found[keys[|rows|].value := node] else found)
  {
    GrownKeepsOthers(n, m);
    KeysMatchStays(n, m, keys, rows, found);
    hide WellFormed, Extends, KeepsOthers, Grown;
    var p := |rows|;
    var before, after := keys[..p], keys[..p + 1];
    assert after == before + [keys[p]];
    assert |rows + [row]| == p + 1;
    var updated := if keys[p].Some? then found[keys[p].value := node] else found;
    forall k, i
      ensures IsLastWith(after, k, i) <==> if keys[p] == Some(k) then i == p else IsLastWith(before, k, i)
    {
      if keys[p] == Some(k) && IsLastWith(after, k, i) {
        assert i >= p;
      }
    }
    forall k
      ensures k in updated <==> exists i :: IsLastWith(after, k, i)
    {
      if keys[p] == Some(k) {
        assert IsLastWith(after, k, p);
      } else if k in found {
        var i :| IsLastWith(before, k, i);
        assert IsLastWith(after, k, i);
      }
    }
    forall k, i | k in updated && IsLastWith(after, k, i)
      ensures IsNodeOf(m, updated[k], (rows + [row])[i])
    {
      if keys[p] != Some(k) {
        assert IsLastWith(before, k, i) && k in found;
      }
    }
  }

  lemma KeysMatchIsLasting(n: Net, keys: seq<Option<string>>, rows: seq<RowRef>, found: map<string, NodeId>)
    requires KeysMatch(n, keys, rows, found)
    ensures forall k :: k in found ==> IsLasting(n, found[k])
  {
    forall k | k in found
      ensures IsLasting(n, found[k])
    {
      var i :| IsLastWith(keys[..|rows|], k, i);
    }
  }

  function ActorKinds(actors: seq<ActorWrite>): seq<EdgeKind> {
    seq(|actors|, i requires 0 <= i < |actors| => if actors[i].initiator then Initiated else Executed)
  }

  function EntityKinds(entities: seq<EntityWrite>): seq<EdgeKind> {
    seq(|entities|, i requires 0 <= i < |entities| => EntityEdgeKind(entities[i].role))
  }

  function InputKinds(inputs: seq<InputWrite>): seq<EdgeKind> {
    seq(|inputs|, i => ReadFrom)
  }

  /** An empty key counts as no key. */
  function Truthy(key: Option<string>): Option<string> {
    if key == Some("") then None else key
  }

  function EntityKeys(entities: seq<EntityWrite>): seq<Option<string>> {
    seq(|entities|, i requires 0 <= i < |entities| => Truthy(entities[i].key))
  }

  function InputKeys(inputs: seq<InputWrite>): seq<Option<string>> {
    seq(|inputs|, i requires 0 <= i < |inputs| => Some(inputs[i].inputKey))
  }

  lemma InsertedIsGrown(n: Net, m: Net, ref: RowRef)
    requires Extends(n, m) && WellFormed(m) && m.rows == n.rows + {ref} && !ref.CurrentRow?
    ensures Grown(n, m)
  {
  }

  lemma GrownKeepsNodes(n: Net, m: Net)
    requires Grown(n, m)
    ensures forall v :: v in n.nodes ==> v in m.nodes && m.nodes[v] == n.nodes[v]
  {
  }

  datatype EdgeInsert = EdgeInsert(from: NodeId, to: NodeId, kind: EdgeKind)

  ghost predicate Lasting(n: Net, pending: set<EdgeInsert>) {
    forall e :: e in pending ==> IsLasting(n, e.from) && IsLasting(n, e.to)
  }

  /** A new log row under a fresh id, for an event that exists. */
  lemma LogGrows(n: Net, m: Net, log: seq<LogEntry>, current: map<Key, Current>, upTo: nat, entry: LogEntry)
    requires Consistent(n, log, current, upTo, upTo) && Grown(n, m)
    requires ChangeRow(entry.id) in m.rows && ChangeRow(entry.id) !in n.rows && EventRow(entry.eventId) in m.rows
    ensures Consistent(m, log + [entry], current, upTo, upTo)
  {
    GrowthKeeps(n, m, log, current, upTo, upTo);
    assert (log + [entry])[..upTo] == log[..upTo];
  }

  class HistoryStore {
    var rows: set<RowRef>
    var nodes: map<NodeId, RowRef>
    var edges: set<Edge>
    var next: nat
    var log: seq<LogEntry>
    var current: map<Key, Current>
    var trackedFields: FieldMap
    const lib: Library

    ghost function TheNet(): Net
      reads this
    {
      Net(rows, nodes, edges, next)
    }

    ghost predicate Valid()
      reads this
    {
      Consistent(TheNet(), log, current, |log|, |log|)
    }

    constructor (lib: Library, trackedFields: FieldMap)
      ensures Valid() && log == [] && current == map[] && this.lib == lib && this.trackedFields == trackedFields
    {
      this.lib := lib;
      this.trackedFields := trackedFields;
      rows, nodes, edges, next := {}, map[], {}, 0;
      log, current := [], map[];
    }

    /** Inserts a row under the next id, and its node; no lookup is needed for the fresh row. */
    method InsertRowWithNode(ref: RowRef) returns (node: NodeId)
      requires WellFormed(TheNet()) && ref.id == next
      modifies this`rows, this`nodes, this`next
      ensures Extends(old(TheNet()), TheNet()) && WellFormed(TheNet())
      ensures rows == old(rows) + {ref} && ref !in old(rows) && IsNodeOf(TheNet(), node, ref)
    {
      hide WellFormed, Extends;
      RowWithNodeKeeps(TheNet(), ref);
      RowWithNodeExtends(TheNet(), ref);
      node := next + 1;
      rows, nodes, next := rows + {ref}, nodes[next + 1 := ref], next + 2;
      assert TheNet() == InsertNode(InsertRow(old(TheNet()), ref), ref);
    }

    method InsertEdgeRow(from: NodeId, to: NodeId, kind: EdgeKind)
      requires WellFormed(TheNet()) && from in nodes && to in nodes
      modifies this`edges, this`next
      ensures Extends(old(TheNet()), TheNet()) && WellFormed(TheNet())
      ensures HasEdge(TheNet(), nodes[from], nodes[to], kind)
    {
      hide KeysHold, Covered, HasEdge;
      InsertEdgeKeeps(TheNet(), from, to, kind);
      edges, next := edges + {Edge(next, from, to, kind)}, next + 1;
      assert TheNet() == InsertEdge(old(TheNet()), from, to, kind);
    }

    /** The node of a row, created if it has none; all other rows have theirs. */
    method FindOrCreateNode(ref: RowRef) returns (node: NodeId)
      requires KeysHold(TheNet()) && ref in rows && forall r :: r in rows && r != ref ==> HasNode(TheNet(), r)
      modifies this`nodes, this`next
      ensures Extends(old(TheNet()), TheNet()) && WellFormed(TheNet()) && IsNodeOf(TheNet(), node, ref)
      ensures old(HasNode(TheNet(), ref)) ==> TheNet() == old(TheNet())
    {
      if v :| v in nodes && nodes[v] == ref {
        node := v;
      } else {
        InsertNodeKeeps(TheNet(), ref);
        node := next;
        nodes, next := nodes[next := ref], next + 1;
      }
    }

    /** No edge from a node to itself. */
    method CreateEdge(from: NodeId, to: NodeId, kind: EdgeKind)
      requires WellFormed(TheNet()) && from in nodes && to in nodes
      modifies this`edges, this`next
      ensures Extends(old(TheNet()), TheNet()) && WellFormed(TheNet())
      ensures from != to ==> HasEdge(TheNet(), nodes[from], nodes[to], kind)
    {
      if from == to {
        return;
      }
      InsertEdgeRow(from, to, kind);
    }

    /** A row with its node, and an edge between that node and one that exists. */
    method InsertLinkedRow(ref: RowRef, other: NodeId, towards: bool, kind: EdgeKind) returns (node: NodeId)
      requires WellFormed(TheNet()) && ref.id == next && !ref.CurrentRow? && other in nodes
      modifies this`rows, this`nodes, this`edges, this`next
      ensures Grown(old(TheNet()), TheNet()) && IsNodeOf(TheNet(), node, ref) && ref !in old(rows) && ref in rows
      ensures HasEdge(TheNet(), if towards then ref else old(nodes[other]),
          if towards then old(nodes[other]) else ref, kind)
    {
      ghost var n := TheNet();
      node := InsertRowWithNode(ref);
      ExtendsKeepsNode(n, TheNet(), other);
      hide WellFormed, Extends, HasEdge;
      InsertedIsGrown(n, TheNet(), ref);
      ghost var m := TheNet();
      if towards {
        InsertEdgeRow(node, other, kind);
      } else {
        InsertEdgeRow(other, node, kind);
      }
      EdgesAreGrown(m, TheNet());
      GrownTwice(n, m, TheNet());
    }

    method RecordActors(actors: seq<ActorWrite>, eventNode: NodeId,
                        ghost event: RowRef) returns (ghost made: seq<RowRef>)
      requires WellFormed(TheNet()) && IsNodeOf(TheNet(), eventNode, event) && !event.CurrentRow?
      modifies this`rows, this`nodes, this`edges, this`next
      ensures Grown(old(TheNet()), TheNet())
      ensures |made| == |actors| && (forall r :: r in made ==> r.ActorRow?)
      ensures Attached(TheNet(), made, event, false, ActorKinds(actors))
    {
      hide Extends, WellFormed, Grown, Attached, HasEdge;
      GrowsItself(TheNet());
      made := [];
      NothingAttached(TheNet(), event, false, ActorKinds(actors));
      for i := 0 to |actors|
        invariant Grown(old(TheNet()), TheNet())
        invariant |made| == i && (forall r :: r in made ==> r.ActorRow?)
        invariant Attached(TheNet(), made, event, false, ActorKinds(actors))
      {
        ghost var n, row := TheNet(), ActorRow(next);
        GrownKeepsNodes(old(TheNet()), n);
        GrownIsWellFormed(old(TheNet()), n);
        var node := InsertLinkedRow(ActorRow(next), eventNode, true,
            if actors[i].initiator then Initiated else Executed);
        GrownTwice(old(TheNet()), n, TheNet());
        OneMoreAttached(n, TheNet(), made, event, false, ActorKinds(actors), row);
        made := made + [row];
      }
    }

    method RecordEntities(entities: seq<EntityWrite>, eventNode: NodeId, ghost event: RowRef)
      returns (entityNodes: map<string, NodeId>, ghost made: seq<RowRef>)
      requires WellFormed(TheNet()) && IsNodeOf(TheNet(), eventNode, event) && !event.CurrentRow?
      modifies this`rows, this`nodes, this`edges, this`next
      ensures Grown(old(TheNet()), TheNet())
      ensures |made| == |entities| && (forall r :: r in made ==> r.EntityRow?)
      ensures Attached(TheNet(), made, event, true, EntityKinds(entities))
      ensures KeysMatch(TheNet(), EntityKeys(entities), made, entityNodes)
    {
      hide Extends, WellFormed, Grown, Attached, HasEdge, KeysMatch;
      GrowsItself(TheNet());
      entityNodes, made := map[], [];
      NothingAttached(TheNet(), event, true, EntityKinds(entities));
      NoKeys(TheNet(), EntityKeys(entities));
      for i := 0 to |entities|
        invariant Grown(old(TheNet()), TheNet())
        invariant |made| == i && (forall r :: r in made ==> r.EntityRow?)
        invariant Attached(TheNet(), made, event, true, EntityKinds(entities))
        invariant KeysMatch(TheNet(), EntityKeys(entities), made, entityNodes)
      {
        ghost var n, row := TheNet(), EntityRow(next);
        GrownKeepsNodes(old(TheNet()), n);
        GrownIsWellFormed(old(TheNet()), n);
        var node := InsertLinkedRow(EntityRow(next), eventNode, false, EntityEdgeKind(entities[i].role));
        GrownTwice(old(TheNet()), n, TheNet());
        OneMoreAttached(n, TheNet(), made, event, true, EntityKinds(entities), row);
        OneMoreKey(n, TheNet(), EntityKeys(entities), made, entityNodes, row, node);
        if entities[i].key.Some? && entities[i].key.value != "" {
          entityNodes := entityNodes[entities[i].key.value := node];
        }
        made := made + [row];
      }
    }

    method RecordInputs(inputs: seq<InputWrite>, eventNode: NodeId, ghost event: RowRef)
      returns (inputNodes: map<string, NodeId>, ghost made: seq<RowRef>)
      requires WellFormed(TheNet()) && IsNodeOf(TheNet(), eventNode, event) && !event.CurrentRow?
      modifies this`rows, this`nodes, this`edges, this`next
      ensures Grown(old(TheNet()), TheNet())
      ensures |made| == |inputs| && (forall r :: r in made ==> r.InputRow?)
      ensures Attached(TheNet(), made, event, true, InputKinds(inputs))
      ensures KeysMatch(TheNet(), InputKeys(inputs), made, inputNodes)
    {
      hide Extends, WellFormed, Grown, Attached, HasEdge, KeysMatch;
      GrowsItself(TheNet());
      inputNodes, made := map[], [];
      NothingAttached(TheNet(), event, true, InputKinds(inputs));
      NoKeys(TheNet(), InputKeys(inputs));
      for i := 0 to |inputs|
        invariant Grown(old(TheNet()), TheNet())
        invariant |made| == i && (forall r :: r in made ==> r.InputRow?)
        invariant Attached(TheNet(), made, event, true, InputKinds(inputs))
        invariant KeysMatch(TheNet(), InputKeys(inputs), made, inputNodes)
      {
        ghost var n, row := TheNet(), InputRow(next);
        GrownKeepsNodes(old(TheNet()), n);
        GrownIsWellFormed(old(TheNet()), n);
        var node := InsertLinkedRow(InputRow(next), eventNode, false, ReadFrom);
        GrownTwice(old(TheNet()), n, TheNet());
        OneMoreAttached(n, TheNet(), made, event, true, InputKinds(inputs), row);
        OneMoreKey(n, TheNet(), InputKeys(inputs), made, inputNodes, row, node);
        inputNodes := inputNodes[inputs[i].inputKey := node];
        made := made + [row];
      }
    }

    /** One log row with its node. */
    method InsertChangeRow(change: ChangeWrite, eventId: nat, ghost upTo: nat) returns (node: NodeId,
                           ghost entry: LogEntry)
      requires Consistent(TheNet(), log, current, upTo, upTo) && EventRow(eventId) in rows
      modifies this`rows, this`nodes, this`next, this`log
      ensures Grown(old(TheNet()), TheNet()) && Consistent(TheNet(), log, current, upTo, upTo)
      ensures log == old(log) + [entry] && entry == EntryFor(lib, trackedFields, change, entry.id, eventId)
      ensures IsNodeOf(TheNet(), node, ChangeRow(entry.id))
    {
      ghost var n := TheNet();
      var row := EntryFor(lib, trackedFields, change, next, eventId);
      entry := row;
      assert WellFormed(n);
      hide Consistent, KeysHold, Covered, HasNode;
      node := InsertRowWithNode(ChangeRow(next));
      hide Extends, WellFormed;
      InsertedIsGrown(n, TheNet(), ChangeRow(entry.id));
      LogGrows(n, TheNet(), log, current, upTo, entry);
      log := log + [row];
    }

    /** The log rows of the changes, all inserted before the index is touched. */
    method InsertChangeRows(changes: seq<ChangeWrite>, eventId: nat)
      returns (changeNodes: seq<NodeId>, ghost entries: seq<LogEntry>)
      requires Consistent(TheNet(), log, current, |log|, |log|) && EventRow(eventId) in rows
      modifies this`rows, this`nodes, this`next, this`log
      ensures Grown(old(TheNet()), TheNet())
      ensures Consistent(TheNet(), log, current, |old(log)|, |old(log)|)
      ensures log == old(log) + entries && EntriesFor(lib, trackedFields, changes, entries, eventId)
      ensures |entries| == |changes| == |changeNodes| && NodesOfEntries(TheNet(), changeNodes, entries)
    {
      hide Consistent, Grown, EntryFor, EntriesFor, NodesOfEntries, IsNodeOf;
      ghost var base := |log|;
      GrownFromStart(TheNet(), log, current);
      changeNodes, entries := [], [];
      NoEntriesYet(TheNet(), lib, trackedFields, changes, eventId);
      for i := 0 to |changes|
        invariant Grown(old(TheNet()), TheNet())
        invariant Consistent(TheNet(), log, current, base, base)
        invariant log == old(log) + entries && EntriesFor(lib, trackedFields, changes, entries, eventId)
        invariant |entries| == |changeNodes| == i && NodesOfEntries(TheNet(), changeNodes, entries)
      {
        ghost var n := TheNet();
        GrownKeepsRows(old(TheNet()), n);
        var node;
        ghost var entry;
        node, entry := InsertChangeRow(changes[i], eventId, base);
        GrownTwice(old(TheNet()), n, TheNet());
        OneMoreEntry(n, TheNet(), lib, trackedFields, changes, eventId, changeNodes, entries, node, entry);
        changeNodes, entries := changeNodes + [node], entries + [entry];
      }
    }

    /** Brings the index up to date with log row `i`. */
    method UpsertCurrentValue(i: nat, ghost linked: nat)
      requires i < |log| && log[i].tracked && Consistent(TheNet(), log, current, i, linked)
      modifies this`rows, this`nodes, this`edges, this`next, this`current
      ensures Consistent(TheNet(), log, current, i + 1, linked)
      ensures KeepsOthers(old(TheNet()), TheNet())
    {
      if Clears(log[i].operation, log[i].after) {
        if log[i].key in current {
          ClearCurrentValue(i, linked);
        } else {
          NothingToIndex(TheNet(), log, current, i, linked);
        }
      } else {
        WriteCurrentValue(i, linked);
      }
    }

    /** Deletes the index row; its node and edges go with it. */
    method ClearCurrentValue(i: nat, ghost linked: nat)
      requires i < |log| && log[i].tracked && Consistent(TheNet(), log, current, i, linked)
      requires Clears(log[i].operation, log[i].after) && log[i].key in current
      modifies this`rows, this`nodes, this`edges, this`current
      ensures Consistent(TheNet(), log, current, i + 1, linked)
      ensures KeepsOthers(old(TheNet()), TheNet())
    {
      hide Consistent, Clears;
      ghost var n := TheNet();
      ClearingKeeps(n, log, current, i, linked);
      var gone := CurrentRow(current[log[i].key].id);
      var goneNodes := set v | v in nodes && nodes[v] == gone;
      current := current - {log[i].key};
      rows := rows - {gone};
      nodes := nodes - goneNodes;
      edges := set e | e in edges && e.from !in goneNodes && e.to !in goneNodes;
      assert TheNet() == CascadeDelete(n, gone);
    }

    /** INSERT ... ON CONFLICT MERGE on the index, then the nodes and the edge to the change. */
    method WriteCurrentValue(i: nat, ghost linked: nat)
      requires i < |log| && log[i].tracked && Consistent(TheNet(), log, current, i, linked)
      requires !Clears(log[i].operation, log[i].after)
      modifies this`rows, this`nodes, this`edges, this`next, this`current
      ensures Consistent(TheNet(), log, current, i + 1, linked)
      ensures KeepsOthers(old(TheNet()), TheNet())
    {
      ghost var n, before := TheNet(), current;
      hide Consistent, Clears, WellFormed, KeysHold, HasNode, HasEdge, Extends, KeepsOthers;
      CurrentRowExists(n, log, current, i, linked);
      var id := CurrentRowFor(log[i].key);
      ghost var m := TheNet();
      current := current[log[i].key := Current(id, ShownBy(log[i]))];
      LinkCurrentValue(id, log[i].id);
      ExtendsTwice(n, m, TheNet());
      ExtendsKeepsOthers(n, TheNet());
      UpsertKeeps(n, TheNet(), log, before, i, linked, id);
    }

    /** The id of the index row for a key, inserting the row if it is missing. */
    method CurrentRowFor(key: Key) returns (id: nat)
      requires WellFormed(TheNet()) && (key in current ==> CurrentRow(current[key].id) in rows)
      modifies this`rows, this`next
      ensures KeysHold(TheNet()) && Extends(old(TheNet()), TheNet()) && CurrentRow(id) in rows
      ensures forall r :: r in rows && r != CurrentRow(id) ==> HasNode(TheNet(), r)
      ensures if key in current then id == current[key].id && rows == old(rows)
              else CurrentRow(id) !in old(rows) && rows == old(rows) + {CurrentRow(id)}
    {
      if key in current {
        return current[key].id;
      }
      InsertRowKeeps(TheNet(), CurrentRow(next));
      RowsKeepNodes(TheNet(), CurrentRow(next));
      id := next;
      rows, next := rows + {CurrentRow(next)}, next + 1;
      assert TheNet() == InsertRow(old(TheNet()), CurrentRow(id));
    }

    method LinkCurrentValue(id: nat, changeId: nat)
      requires KeysHold(TheNet()) && CurrentRow(id) in rows && ChangeRow(changeId) in rows
      requires forall r :: r in rows && r != CurrentRow(id) ==> HasNode(TheNet(), r)
      modifies this`nodes, this`edges, this`next
      ensures Extends(old(TheNet()), TheNet()) && WellFormed(TheNet())
      ensures HasEdge(TheNet(), CurrentRow(id), ChangeRow(changeId), CurrentValueOf)
    {
      var currentNode := FindOrCreateNode(CurrentRow(id));
      var changeNode := FindOrCreateNode(ChangeRow(changeId));
      CreateEdge(currentNode, changeNode, CurrentValueOf);
    }

    /** Walks over the inserted log rows: collects their edges and updates the index for those
        that are tracked. */
    method IndexChanges(changes: seq<ChangeWrite>, base: nat, eventNode: NodeId, changeNodes: seq<NodeId>,
                        entityNodes: map<string, NodeId>, inputNodes: map<string, NodeId>)
      returns (pending: set<EdgeInsert>)
      requires Consistent(TheNet(), log, current, base, base) && |log| == base + |changes|
      requires Collectable(TheNet(), eventNode, changeNodes, entityNodes, inputNodes) && |changeNodes| == |changes|
      modifies this`rows, this`nodes, this`edges, this`next, this`current
      ensures Consistent(TheNet(), log, current, |log|, base)
      ensures KeepsOthers(old(TheNet()), TheNet()) && Lasting(TheNet(), pending)
      ensures pending == EdgesOfChanges(changes, |changes|, eventNode, changeNodes, entityNodes, inputNodes)
    {
      hide Consistent, Collectable, KeepsOthers, Lasting, IsLasting, ChangeEdges, EdgesOfChanges;
      pending := {};
      EdgesOfOneMore(changes, 0, eventNode, changeNodes, entityNodes, inputNodes);
      NothingCollected(TheNet());
      for i := 0 to |changes|
        invariant Consistent(TheNet(), log, current, base + i, base)
        invariant KeepsOthers(old(TheNet()), TheNet()) && Lasting(TheNet(), pending)
        invariant pending == EdgesOfChanges(changes, i, eventNode, changeNodes, entityNodes, inputNodes)
      {
        CollectableStays(old(TheNet()), TheNet(), eventNode, changeNodes, entityNodes, inputNodes);
        var collected := ChangeEdges(changes[i], eventNode, changeNodes[i], entityNodes, inputNodes);
        ChangeEdgesLast(TheNet(), changes[i], eventNode, changeNodes, i, entityNodes, inputNodes);
        LastingTogether(TheNet(), pending, collected);
        EdgesOfOneMore(changes, i, eventNode, changeNodes, entityNodes, inputNodes);
        pending := pending + collected;
        ghost var n := TheNet();
        if log[base + i].tracked {
          UpsertCurrentValue(base + i, base);
        } else {
          NothingToIndex(TheNet(), log, current, base + i, base);
          KeepsItself(n);
        }
        KeepsTwice(old(TheNet()), n, TheNet());
        LastingStays(n, TheNet(), pending);
      }
    }

    method InsertEdges(pending: set<EdgeInsert>)
      requires WellFormed(TheNet()) && Lasting(TheNet(), pending)
      modifies this`edges, this`next
      ensures Grown(old(TheNet()), TheNet())
      ensures forall e :: e in pending ==> EdgeInserted(TheNet(), e)
    {
      hide WellFormed, Extends, Grown, Lasting, EdgeInserted;
      GrowsItself(TheNet());
      var rest := pending;
      while rest != {}
        invariant rest <= pending && Grown(old(TheNet()), TheNet())
        invariant forall e :: e in pending - rest ==> EdgeInserted(TheNet(), e)
      {
        var next_ :| next_ in rest;
        ghost var n := TheNet();
        LastingEnds(old(TheNet()), n, pending, next_);
        InsertEdgeRow(next_.from, next_.to, next_.kind);
        EdgesAreGrown(n, TheNet());
        GrownTwice(old(TheNet()), n, TheNet());
        forall e | e in pending - (rest - {next_})
          ensures EdgeInserted(TheNet(), e)
        {
          if e == next_ {
            EdgeJustInserted(n, TheNet(), e);
          } else {
            EdgeInsertedStays(n, TheNet(), e);
          }
        }
        rest := rest - {next_};
      }
    }

    /** Writes one event with all its parts.  The log grows by one row per change, the index is
        the replay of the whole log again, every row has its node, and the event's actors,
        entities, inputs and changes are joined to it and to each other by their edges. */
    method CreateEvent(payload: EventWrite) returns (eventId: nat, ghost entries: seq<LogEntry>, ghost parts: Parts)
      requires Valid()
      modifies this`rows, this`nodes, this`edges, this`next, this`log, this`current
      ensures Valid() && KeepsOthers(old(TheNet()), TheNet())
      ensures EventRow(eventId) !in old(rows)
      ensures log == old(log) + entries && |entries| == |payload.changes|
      ensures EntriesFor(lib, trackedFields, payload.changes, entries, eventId)
      ensures forall i :: 0 <= i < |entries| ==> IsLogRow(lib, trackedFields, payload.changes[i], entries[i], eventId)
      ensures EventRecorded(TheNet(), payload, EventRow(eventId), entries, parts)
      ensures EventJoined(TheNet(), payload, EventRow(eventId), entries, parts)
    {
      hide Consistent, Grown, WellFormed, Extends, EntriesFor, NodesOfEntries, Collectable, Lasting, KeepsOthers;
      hide Attached, KeysMatch, HasEdge, EventRecorded, EventJoined, EdgesOfChanges, IsLogRow;
      ghost var base, before := |log|, TheNet();
      ConsistentIsWellFormed(before, log, current, base, base);
      eventId := next;
      ghost var event := EventRow(eventId);
      var eventNode := InsertRowWithNode(EventRow(next));
      InsertedIsGrown(before, TheNet(), event);
      ghost var n := TheNet();
      ghost var actorRows := RecordActors(payload.actors, eventNode, event);
      ghost var n1 := TheNet();
      GrownKeepsNodes(n, n1);
      GrownIsWellFormed(n, n1);
      var entityNodes;
      ghost var entityRows;
      entityNodes, entityRows := RecordEntities(payload.entities, eventNode, event);
      ghost var n2 := TheNet();
      GrownKeepsNodes(n1, n2);
      GrownIsWellFormed(n1, n2);
      var inputNodes;
      ghost var inputRows;
      inputNodes, inputRows := RecordInputs(payload.inputs, eventNode, event);
      ghost var n3 := TheNet();
      GrownThrice(n, n1, n2, n3);
      GrownTwice(before, n, n3);
      GrownIsConsistent(before, n3, log, current, base);
      GrownKeepsRows(n, n3);
      var changeNodes;
      changeNodes, entries := InsertChangeRows(payload.changes, eventId);
      ghost var n4 := TheNet();
      GrownTwice(n, n3, n4);
      parts := Parts(eventNode, changeNodes, entityNodes, inputNodes, actorRows, entityRows, inputRows);
      PartsInPlace(n, n1, n2, n3, n4, payload, event, entries, parts);
      PartsAreCollectable(n4, payload, event, entries, parts);
      var pending := IndexChanges(payload.changes, |log| - |payload.changes|, eventNode, changeNodes, entityNodes,
          inputNodes);
      ghost var n5 := TheNet();
      ConsistentIsWellFormed(n5, log, current, |log|, base);
      InsertEdges(pending);
      ghost var n6 := TheNet();
      GrownIsConsistentAt(n5, n6, log, current, |log|, base);
      GrownKeepsOthers(n5, n6);
      KeepsTwice(n4, n5, n6);
      PartsStay(n4, n6, payload, event, entries, parts);
      EdgesComplete(n6, payload, event, entries, parts, pending);
      RecordedIsJoined(n6, payload, event, entries, parts);
      EntriesAreLogRows(lib, trackedFields, payload.changes, entries, eventId);
      NewChangesLinked(n6, log, current, base, payload, entries, eventId, parts, lib, trackedFields);
      GrownTwice(before, n, n4);
      GrownKeepsOthers(before, n4);
      KeepsTwice(before, n4, n6);
    }
  }

  // Steps of CreateEvent

  lemma ConsistentIsWellFormed(n: Net, log: seq<LogEntry>, current: map<Key, Current>, indexed: nat, linked: nat)
    requires Consistent(n, log, current, indexed, linked)
    ensures WellFormed(n)
  {
  }

  lemma GrownIsWellFormed(n: Net, m: Net)
    requires Grown(n, m)
    ensures WellFormed(m)
  {
  }

  lemma GrownThrice(n: Net, m: Net, k: Net, l: Net)
    requires Grown(n, m) && Grown(m, k) && Grown(k, l)
    ensures Grown(n, l) && Grown(m, l)
  {
    hide Extends, WellFormed, Grown;
    GrownTwice(n, m, k);
    GrownTwice(n, k, l);
    GrownTwice(m, k, l);
  }

  lemma GrowsItself(n: Net)
    requires WellFormed(n)
    ensures Grown(n, n)
  {
  }

  lemma GrownIsConsistent(n: Net, m: Net, log: seq<LogEntry>, current: map<Key, Current>, upTo: nat)
    requires Grown(n, m) && Consistent(n, log, current, upTo, upTo)
    ensures Consistent(m, log, current, upTo, upTo)
  {
    hide Consistent, Extends, WellFormed;
    GrowthKeeps(n, m, log, current, upTo, upTo);
  }

  lemma GrownIsConsistentAt(n: Net, m: Net, log: seq<LogEntry>, current: map<Key, Current>, indexed: nat, linked: nat)
    requires Grown(n, m) && Consistent(n, log, current, indexed, linked)
    ensures Consistent(m, log, current, indexed, linked)
  {
    hide Consistent, Extends, WellFormed;
    GrowthKeeps(n, m, log, current, indexed, linked);
  }

  /** All nodes that collected edges may join. */
  ghost predicate Collectable(n: Net, eventNode: NodeId, changeNodes: seq<NodeId>, entityNodes: map<string, NodeId>,
                              inputNodes: map<string, NodeId>) {
    && IsLasting(n, eventNode)
    && (forall i :: 0 <= i < |changeNodes| ==> IsLasting(n, changeNodes[i]))
    && (forall k :: k in entityNodes ==> IsLasting(n, entityNodes[k]))
    && (forall k :: k in inputNodes ==> IsLasting(n, inputNodes[k]))
  }

  lemma CollectableStays(n: Net, m: Net, eventNode: NodeId, changeNodes: seq<NodeId>, entityNodes: map<string, NodeId>,
                         inputNodes: map<string, NodeId>)
    requires Collectable(n, eventNode, changeNodes, entityNodes, inputNodes) && KeepsOthers(n, m)
    ensures Collectable(m, eventNode, changeNodes, entityNodes, inputNodes)
  {
  }

  /** The edges of one change: from the event, to its entity, and to every input. */
  function ChangeEdges(change: ChangeWrite, eventNode: NodeId, changeNode: NodeId, entityNodes: map<string, NodeId>,
                       inputNodes: map<string, NodeId>): set<EdgeInsert> {
    var key := Truthy(change.entityKey);
    {EdgeInsert(eventNode, changeNode, Changed)} +
    (if key.Some? && key.value in entityNodes then {EdgeInsert(changeNode, entityNodes[key.value], Affected)} else {}) +
    (set k | k in inputNodes :: EdgeInsert(changeNode, inputNodes[k], DerivedFrom))
  }

  ghost function EdgesOfChanges(changes: seq<ChangeWrite>, upTo: nat, eventNode: NodeId, changeNodes: seq<NodeId>,
                                entityNodes: map<string, NodeId>, inputNodes: map<string, NodeId>): set<EdgeInsert>
    requires upTo <= |changes| == |changeNodes|
  {
    if upTo == 0 then {}
    else
      EdgesOfChanges(changes, upTo - 1, eventNode, changeNodes, entityNodes, inputNodes) +
      ChangeEdges(changes[upTo - 1], eventNode, changeNodes[upTo - 1], entityNodes, inputNodes)
  }

  lemma EdgesOfOneMore(changes: seq<ChangeWrite>, i: nat, eventNode: NodeId, changeNodes: seq<NodeId>,
                       entityNodes: map<string, NodeId>, inputNodes: map<string, NodeId>)
    requires i <= |changes| == |changeNodes|
    ensures EdgesOfChanges(changes, 0, eventNode, changeNodes, entityNodes, inputNodes) == {}
    ensures i < |changes| ==>
              EdgesOfChanges(changes, i + 1, eventNode, changeNodes, entityNodes, inputNodes) ==
              EdgesOfChanges(changes, i, eventNode, changeNodes, entityNodes, inputNodes) +
              ChangeEdges(changes[i], eventNode, changeNodes[i], entityNodes, inputNodes)
  {
    hide ChangeEdges;
  }

  lemma {:induction false} EdgesOfEachChange(changes: seq<ChangeWrite>, upTo: nat, i: nat, eventNode: NodeId,
                                             changeNodes: seq<NodeId>,
                                             entityNodes: map<string, NodeId>, inputNodes: map<string, NodeId>)
    requires i < upTo <= |changes| == |changeNodes|
    ensures ChangeEdges(changes[i], eventNode, changeNodes[i], entityNodes, inputNodes) <=
            EdgesOfChanges(changes, upTo, eventNode, changeNodes, entityNodes, inputNodes)
    decreases upTo
  {
    hide ChangeEdges;
    if i < upTo - 1 {
      EdgesOfEachChange(changes, upTo - 1, i, eventNode, changeNodes, entityNodes, inputNodes);
    }
  }

  lemma ChangeEdgesLast(n: Net, change: ChangeWrite, eventNode: NodeId, changeNodes: seq<NodeId>, i: nat,
                        entityNodes: map<string, NodeId>, inputNodes: map<string, NodeId>)
    requires Collectable(n, eventNode, changeNodes, entityNodes, inputNodes) && i < |changeNodes|
    ensures Lasting(n, ChangeEdges(change, eventNode, changeNodes[i], entityNodes, inputNodes))
  {
  }

  /** Where the parts of an event ended up. */
  datatype Parts = Parts(
    eventNode: NodeId,
    changeNodes: seq<NodeId>,
    entityNodes: map<string, NodeId>,
    inputNodes: map<string, NodeId>,
    actors: seq<RowRef>,
    entities: seq<RowRef>,
    inputs: seq<RowRef>)

  /** The rows and nodes of an event's parts are in place and joined to the event. */
  ghost predicate PartsRecorded(n: Net, payload: EventWrite, event: RowRef, entries: seq<LogEntry>, parts: Parts) {
    && event.EventRow? && IsNodeOf(n, parts.eventNode, event) && NodesOfEntries(n, parts.changeNodes, entries)
    && |parts.actors| == |payload.actors| && (forall r :: r in parts.actors ==> r.ActorRow?)
    && |parts.entities| == |payload.entities| && (forall r :: r in parts.entities ==> r.EntityRow?)
    && |parts.inputs| == |payload.inputs| && (forall r :: r in parts.inputs ==> r.InputRow?)
    && Attached(n, parts.actors, event, false, ActorKinds(payload.actors))
    && Attached(n, parts.entities, event, true, EntityKinds(payload.entities))
    && Attached(n, parts.inputs, event, true, InputKinds(payload.inputs))
    && KeysMatch(n, EntityKeys(payload.entities), parts.entities, parts.entityNodes)
    && KeysMatch(n, InputKeys(payload.inputs), parts.inputs, parts.inputNodes)
  }

  /** The parts are recorded, and the edges of every change inserted: from the event, to the
      entity its key names, and to the inputs. */
  ghost predicate EventRecorded(n: Net, payload: EventWrite, event: RowRef, entries: seq<LogEntry>, parts: Parts) {
    && PartsRecorded(n, payload, event, entries, parts) && |parts.changeNodes| == |payload.changes|
    && forall i, e :: 0 <= i < |payload.changes|
                      && e in ChangeEdges(payload.changes[i], parts.eventNode, parts.changeNodes[i],
                           parts.entityNodes, parts.inputNodes)
         ==> EdgeInserted(n, e)
  }

  /** Entity `j` is the last of the event's entities with the key. */
  ghost predicate IsEntityFor(entities: seq<EntityWrite>, key: string, j: int) {
    && key != "" && 0 <= j < |entities| && entities[j].key == Some(key)
    && forall l :: j < l < |entities| ==> entities[l].key != Some(key)
  }

  ghost predicate IsInputFor(inputs: seq<InputWrite>, j: int) {
    0 <= j < |inputs| && forall l :: j < l < |inputs| ==> inputs[l].inputKey != inputs[j].inputKey
  }

  /** The kind of the edge from an event to an entity in each role. */
  ghost predicate JoinsEntity(n: Net, event: RowRef, row: RowRef, role: EntityRole) {
    && (role == RoleCreated ==> HasEdge(n, event, row, Created))
    && (role == RoleDeleted ==> HasEdge(n, event, row, Deleted))
    && (role == RoleLinked ==> HasEdge(n, event, row, Linked))
    && (role == RoleUnlinked ==> HasEdge(n, event, row, Unlinked))
    && (role == RoleNotificationTarget ==> HasEdge(n, event, row, Notified))
    && (role == RoleOther ==> HasEdge(n, event, row, Affected))
  }

  /** How the parts of an event hang together: actors on the event, the event on its entities,
      inputs and changes, and every change on the entity its key names and on the inputs. */
  ghost predicate EventJoined(n: Net, payload: EventWrite, event: RowRef, entries: seq<LogEntry>, parts: Parts) {
    && |parts.actors| == |payload.actors| && |parts.entities| == |payload.entities|
    && |parts.inputs| == |payload.inputs| && |entries| == |payload.changes|
    && (forall j :: 0 <= j < |payload.actors| ==>
          && parts.actors[j].ActorRow? && parts.actors[j] in n.rows
          && (payload.actors[j].initiator ==> HasEdge(n, parts.actors[j], event, Initiated))
          && (!payload.actors[j].initiator ==> HasEdge(n, parts.actors[j], event, Executed)))
    && (forall j :: 0 <= j < |payload.entities| ==>
          && parts.entities[j].EntityRow? && parts.entities[j] in n.rows
          && JoinsEntity(n, event, parts.entities[j], payload.entities[j].role))
    && (forall j :: 0 <= j < |payload.inputs| ==>
          && parts.inputs[j].InputRow? && parts.inputs[j] in n.rows
          && HasEdge(n, event, parts.inputs[j], ReadFrom))
    && (forall i :: 0 <= i < |payload.changes| ==> ChangeJoined(n, payload, event, ChangeRow(entries[i].id), i, parts))
  }

  ghost predicate ChangeJoined(n: Net, payload: EventWrite, event: RowRef, change: RowRef, i: nat, parts: Parts)
    requires i < |payload.changes|
    requires |parts.entities| == |payload.entities| && |parts.inputs| == |payload.inputs|
  {
    && HasEdge(n, event, change, Changed)
    && (forall k, j :: payload.changes[i].entityKey == Some(k) && IsEntityFor(payload.entities, k, j) ==>
          HasEdge(n, change, parts.entities[j], Affected))
    && (forall j :: IsInputFor(payload.inputs, j) ==> HasEdge(n, change, parts.inputs[j], DerivedFrom))
  }

  lemma RecordedIsJoined(n: Net, payload: EventWrite, event: RowRef, entries: seq<LogEntry>, parts: Parts)
    requires EventRecorded(n, payload, event, entries, parts) && |entries| == |payload.changes|
    ensures EventJoined(n, payload, event, entries, parts)
  {
    hide HasEdge, KeysMatch, NodesOfEntries, ChangeEdges, EdgeInserted, ChangeJoined;
    forall j | 0 <= j < |payload.entities|
      ensures JoinsEntity(n, event, parts.entities[j], payload.entities[j].role)
    {
      assert HasEdge(n, event, parts.entities[j], EntityKinds(payload.entities)[j]);
    }
    forall i | 0 <= i < |payload.changes|
      ensures ChangeJoined(n, payload, event, ChangeRow(entries[i].id), i, parts)
    {
      RecordedChangeIsJoined(n, payload, event, entries, parts, i);
    }
  }

  lemma RecordedChangeIsJoined(n: Net, payload: EventWrite, event: RowRef, entries: seq<LogEntry>, parts: Parts, i: nat)
    requires EventRecorded(n, payload, event, entries, parts) && i < |entries| == |payload.changes|
    ensures ChangeJoined(n, payload, event, ChangeRow(entries[i].id), i, parts)
  {
    NewChangeLinked(n, payload, event, entries, parts, i);
    hide HasEdge, Attached, EventRecorded, PartsRecorded;
    var change := ChangeRow(entries[i].id);
    forall k, j | payload.changes[i].entityKey == Some(k) && IsEntityFor(payload.entities, k, j)
      ensures HasEdge(n, change, parts.entities[j], Affected)
    {
      EntityIsJoined(n, payload, event, entries, parts, i, k, j);
    }
    forall j | IsInputFor(payload.inputs, j)
      ensures HasEdge(n, change, parts.inputs[j], DerivedFrom)
    {
      InputIsJoined(n, payload, event, entries, parts, i, j);
    }
  }

  lemma EntityIsJoined(n: Net, payload: EventWrite, event: RowRef, entries: seq<LogEntry>, parts: Parts, i: nat,
                       k: string, j: int)
    requires EventRecorded(n, payload, event, entries, parts) && i < |entries| == |payload.changes|
    requires payload.changes[i].entityKey == Some(k) && IsEntityFor(payload.entities, k, j)
    ensures HasEdge(n, ChangeRow(entries[i].id), parts.entities[j], Affected)
  {
    hide HasEdge, Attached;
    var keys := EntityKeys(payload.entities);
    assert keys[..|parts.entities|] == keys;
    assert IsLastWith(keys, k, j);
    assert k in parts.entityNodes && IsNodeOf(n, parts.entityNodes[k], parts.entities[j]);
    var e := EdgeInsert(parts.changeNodes[i], parts.entityNodes[k], Affected);
    assert e in ChangeEdges(payload.changes[i], parts.eventNode, parts.changeNodes[i], parts.entityNodes,
                            parts.inputNodes);
    assert EdgeInserted(n, e);
  }

  lemma InputIsJoined(n: Net, payload: EventWrite, event: RowRef, entries: seq<LogEntry>, parts: Parts, i: nat, j: int)
    requires EventRecorded(n, payload, event, entries, parts) && i < |entries| == |payload.changes|
    requires IsInputFor(payload.inputs, j)
    ensures HasEdge(n, ChangeRow(entries[i].id), parts.inputs[j], DerivedFrom)
  {
    hide HasEdge, Attached;
    var keys, k := InputKeys(payload.inputs), payload.inputs[j].inputKey;
    assert keys[..|parts.inputs|] == keys;
    assert IsLastWith(keys, k, j);
    assert k in parts.inputNodes && IsNodeOf(n, parts.inputNodes[k], parts.inputs[j]);
    var e := EdgeInsert(parts.changeNodes[i], parts.inputNodes[k], DerivedFrom);
    assert e in ChangeEdges(payload.changes[i], parts.eventNode, parts.changeNodes[i], parts.entityNodes,
                            parts.inputNodes);
    assert EdgeInserted(n, e);
  }

  lemma PartsInPlace(n: Net, n1: Net, n2: Net, n3: Net, n4: Net, payload: EventWrite, event: RowRef,
                     entries: seq<LogEntry>, parts: Parts)
    requires Grown(n, n1) && Grown(n1, n2) && Grown(n2, n3) && Grown(n3, n4)
    requires event.EventRow? && IsNodeOf(n, parts.eventNode, event) && NodesOfEntries(n4, parts.changeNodes, entries)
    requires |parts.actors| == |payload.actors| && (forall r :: r in parts.actors ==> r.ActorRow?)
    requires |parts.entities| == |payload.entities| && (forall r :: r in parts.entities ==> r.EntityRow?)
    requires |parts.inputs| == |payload.inputs| && (forall r :: r in parts.inputs ==> r.InputRow?)
    requires Attached(n1, parts.actors, event, false, ActorKinds(payload.actors))
    requires Attached(n2, parts.entities, event, true, EntityKinds(payload.entities))
    requires Attached(n3, parts.inputs, event, true, InputKinds(payload.inputs))
    requires KeysMatch(n2, EntityKeys(payload.entities), parts.entities, parts.entityNodes)
    requires KeysMatch(n3, InputKeys(payload.inputs), parts.inputs, parts.inputNodes)
    ensures PartsRecorded(n4, payload, event, entries, parts)
  {
    hide Grown, KeepsOthers, Attached, KeysMatch, NodesOfEntries;
    GrownThrice(n1, n2, n3, n4);
    GrownTwice(n, n1, n4);
    GrownKeepsOthers(n1, n4);
    GrownKeepsOthers(n2, n4);
    GrownKeepsOthers(n3, n4);
    GrownKeepsNodes(n, n4);
    AttachedStays(n1, n4, parts.actors, event, false, ActorKinds(payload.actors));
    AttachedStays(n2, n4, parts.entities, event, true, EntityKinds(payload.entities));
    AttachedStays(n3, n4, parts.inputs, event, true, InputKinds(payload.inputs));
    KeysMatchStays(n2, n4, EntityKeys(payload.entities), parts.entities, parts.entityNodes);
    KeysMatchStays(n3, n4, InputKeys(payload.inputs), parts.inputs, parts.inputNodes);
  }

  lemma PartsAreCollectable(n: Net, payload: EventWrite, event: RowRef, entries: seq<LogEntry>, parts: Parts)
    requires PartsRecorded(n, payload, event, entries, parts)
    ensures Collectable(n, parts.eventNode, parts.changeNodes, parts.entityNodes, parts.inputNodes)
  {
    KeysMatchIsLasting(n, EntityKeys(payload.entities), parts.entities, parts.entityNodes);
    KeysMatchIsLasting(n, InputKeys(payload.inputs), parts.inputs, parts.inputNodes);
    hide KeysMatch, Attached, EntityKeys, InputKeys, ActorKinds, EntityKinds, InputKinds;
  }

  lemma PartsStay(n: Net, m: Net, payload: EventWrite, event: RowRef, entries: seq<LogEntry>, parts: Parts)
    requires PartsRecorded(n, payload, event, entries, parts) && KeepsOthers(n, m)
    ensures PartsRecorded(m, payload, event, entries, parts)
  {
    hide Attached, KeysMatch;
    AttachedStays(n, m, parts.actors, event, false, ActorKinds(payload.actors));
    AttachedStays(n, m, parts.entities, event, true, EntityKinds(payload.entities));
    AttachedStays(n, m, parts.inputs, event, true, InputKinds(payload.inputs));
    KeysMatchStays(n, m, EntityKeys(payload.entities), parts.entities, parts.entityNodes);
    KeysMatchStays(n, m, InputKeys(payload.inputs), parts.inputs, parts.inputNodes);
  }

  lemma EdgesComplete(n: Net, payload: EventWrite, event: RowRef, entries: seq<LogEntry>, parts: Parts,
                      pending: set<EdgeInsert>)
    requires PartsRecorded(n, payload, event, entries, parts) && |parts.changeNodes| == |payload.changes|
    requires pending == EdgesOfChanges(payload.changes, |payload.changes|, parts.eventNode, parts.changeNodes,
                                       parts.entityNodes, parts.inputNodes)
    requires forall e :: e in pending ==> EdgeInserted(n, e)
    ensures EventRecorded(n, payload, event, entries, parts)
  {
    hide PartsRecorded, EdgeInserted, ChangeEdges, EdgesOfChanges;
    forall i, e | 0 <= i < |payload.changes|
                  && e in ChangeEdges(payload.changes[i], parts.eventNode, parts.changeNodes[i], parts.entityNodes,
                       parts.inputNodes)
      ensures EdgeInserted(n, e)
    {
      EdgesOfEachChange(payload.changes, |payload.changes|, i, parts.eventNode, parts.changeNodes,
          parts.entityNodes, parts.inputNodes);
    }
  }

  lemma NothingCollected(n: Net)
    ensures Lasting(n, {}) && KeepsOthers(n, n)
  {
  }

  lemma LastingTogether(n: Net, one: set<EdgeInsert>, two: set<EdgeInsert>)
    requires Lasting(n, one) && Lasting(n, two)
    ensures Lasting(n, one + two)
  {
  }

  lemma LastingStays(n: Net, m: Net, pending: set<EdgeInsert>)
    requires Lasting(n, pending) && KeepsOthers(n, m)
    ensures Lasting(m, pending)
  {
  }

  lemma KeepsItself(n: Net)
    ensures KeepsOthers(n, n)
  {
  }

  lemma KeepsTwice(n: Net, m: Net, k: Net)
    requires KeepsOthers(n, m) && KeepsOthers(m, k)
    ensures KeepsOthers(n, k)
  {
  }

  ghost predicate EdgeInserted(n: Net, e: EdgeInsert) {
    e.from in n.nodes && e.to in n.nodes && HasEdge(n, n.nodes[e.from], n.nodes[e.to], e.kind)
  }

  lemma LastingEnds(n: Net, m: Net, pending: set<EdgeInsert>, e: EdgeInsert)
    requires Lasting(n, pending) && Grown(n, m) && e in pending
    ensures e.from in m.nodes && e.to in m.nodes && WellFormed(m)
  {
  }

  lemma EdgeInsertedStays(n: Net, m: Net, e: EdgeInsert)
    requires EdgeInserted(n, e) && Grown(n, m)
    ensures EdgeInserted(m, e)
  {
    LinksStay(n, m, n.nodes[e.from], n.nodes[e.to], e.kind);
  }

  lemma EdgeJustInserted(n: Net, m: Net, e: EdgeInsert)
    requires Grown(n, m) && e.from in n.nodes && e.to in n.nodes
    requires HasEdge(m, n.nodes[e.from], n.nodes[e.to], e.kind)
    ensures EdgeInserted(m, e)
  {
  }

  /** With the edges of the new changes in place, every log row is linked to its event. */
  lemma NewChangesLinked(n: Net, log: seq<LogEntry>, current: map<Key, Current>, base: nat, payload: EventWrite,
                         entries: seq<LogEntry>, eventId: nat, parts: Parts, lib: Library, fields: FieldMap)
    requires Consistent(n, log, current, |log|, base) && base + |entries| == |log| && log[base..] == entries
    requires EventRecorded(n, payload, EventRow(eventId), entries, parts) && |entries| == |payload.changes|
    requires EntriesFor(lib, fields, payload.changes, entries, eventId)
    ensures Consistent(n, log, current, |log|, |log|)
  {
    hide Replay, WellFormed, CurrentRowsMatch, LogRowsExist, IndexAgrees, ProducersLinked, HasEdge, EntryFor;
    hide EventRecorded, EntriesFor;
    EntriesNameEvent(lib, fields, payload.changes, entries, eventId);
    assert log[..|log|] == log;
    forall i | 0 <= i < |log|
      ensures HasEdge(n, EventRow(log[i].eventId), ChangeRow(log[i].id), Changed)
    {
      if i < base {
        assert log[..base][i] == log[i];
      } else {
        NewChangeLinked(n, payload, EventRow(eventId), entries, parts, i - base);
        assert log[i] == entries[i - base];
      }
    }
  }

  lemma EntriesNameEvent(lib: Library, fields: FieldMap, changes: seq<ChangeWrite>, entries: seq<LogEntry>,
                         eventId: nat)
    requires EntriesFor(lib, fields, changes, entries, eventId)
    ensures forall i :: 0 <= i < |entries| ==> entries[i].eventId == eventId
  {
  }

  lemma EntriesAreLogRows(lib: Library, fields: FieldMap, changes: seq<ChangeWrite>, entries: seq<LogEntry>,
                          eventId: nat)
    requires EntriesFor(lib, fields, changes, entries, eventId)
    ensures forall i :: 0 <= i < |entries| ==> IsLogRow(lib, fields, changes[i], entries[i], eventId)
  {
    hide EntryFor, IsLogRow;
    forall i | 0 <= i < |entries|
      ensures IsLogRow(lib, fields, changes[i], entries[i], eventId)
    {
      EntryIsLogRow(lib, fields, changes[i], entries[i].id, eventId);
    }
  }

  lemma NewChangeLinked(n: Net, payload: EventWrite, event: RowRef, entries: seq<LogEntry>, parts: Parts, i: nat)
    requires EventRecorded(n, payload, event, entries, parts) && i < |entries| == |payload.changes|
    ensures HasEdge(n, event, ChangeRow(entries[i].id), Changed)
  {
    hide HasEdge, Attached, KeysMatch;
    var e := EdgeInsert(parts.eventNode, parts.changeNodes[i], Changed);
    assert e in ChangeEdges(payload.changes[i], parts.eventNode, parts.changeNodes[i], parts.entityNodes,
        parts.inputNodes);
    assert EdgeInserted(n, e);
  }

  lemma NothingAttached(n: Net, event: RowRef, outward: bool, kinds: seq<EdgeKind>)
    ensures Attached(n, [], event, outward, kinds)
  {
  }

  lemma NoKeys(n: Net, keys: seq<Option<string>>)
    ensures KeysMatch(n, keys, [], map[])
  {
  }

  lemma CurrentRowExists(n: Net, log: seq<LogEntry>, current: map<Key, Current>, i: nat, linked: nat)
    requires Consistent(n, log, current, i, linked) && i < |log|
    ensures WellFormed(n) && ChangeRow(log[i].id) in n.rows && ChangeRow(log[i].id).id < n.next
    ensures log[i].key in current ==> CurrentRow(current[log[i].key].id) in n.rows
  {
  }

  lemma RowsKeepNodes(n: Net, ref: RowRef)
    requires WellFormed(n) && ref.id == n.next
    ensures forall r :: r in n.rows ==> HasNode(InsertRow(n, ref), r)
  {
    forall r | r in n.rows
      ensures HasNode(InsertRow(n, ref), r)
    {
      var v :| v in n.nodes && n.nodes[v] == r;
      assert InsertRow(n, ref).nodes[v] == r;
    }
  }
}
