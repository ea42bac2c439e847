/** The current-value index as a replay of the change log. */
module HistoryReplay {
  import opened Wrappers
  import opened HistoryValues
  import HistoryDiff

  datatype Key = Key(table: string, pk: string, path: string)

  /** A row of the change log, with the decision taken when it was written whether it counts
      for the index. */
  datatype LogEntry = LogEntry(
    id: nat,
    eventId: nat,
    key: Key,
    operation: HistoryDiff.Operation,
    valueType: ValueType,
    before: Prepared,
    after: Prepared,
    tracked: bool)

  /** What an index row shows: the producing change and its value columns. */
  datatype Shown = Shown(changeId: nat, valueType: ValueType, after: Prepared)

  function ShownBy(entry: LogEntry): Shown {
    Shown(entry.id, entry.valueType, entry.after)
  }

  /** A delete or unlink without hash and reference clears the index row. */
  predicate Clears(operation: HistoryDiff.Operation, after: Prepared) {
    && (operation == HistoryDiff.Delete || operation == HistoryDiff.Unlink)
    && (after.hash == None || after.hash == Some("")) && (after.refPk == None || after.refPk == Some(""))
  }

  function Replay(log: seq<LogEntry>): map<Key, Shown> {
    if log == [] then map[]
    else
      var entry, earlier := log[|log| - 1], Replay(log[..|log| - 1]);
      if !entry.tracked then earlier
      else if Clears(entry.operation, entry.after) then earlier - {entry.key}
      else earlier[entry.key := ShownBy(entry)]
  }

  /** Entry `i` is the last tracked change of the key. */
  ghost predicate IsLastTracked(log: seq<LogEntry>, key: Key, i: int) {
    && 0 <= i < |log| && log[i].key == key && log[i].tracked
    && forall j :: i < j < |log| && log[j].key == key ==> !log[j].tracked
  }

  /** An index row exists for a key exactly when its last tracked change is not a clearing one,
      and it shows that change. */
  lemma {:induction false} ReplayShowsLast(log: seq<LogEntry>, key: Key)
    ensures key in Replay(log) <==> exists i :: IsLastTracked(log, key, i) && !Clears(log[i].operation, log[i].after)
    ensures forall i :: IsLastTracked(log, key, i) ==>
              (key in Replay(log) <==>
               || (log[i].operation != HistoryDiff.Delete && log[i].operation != HistoryDiff.Unlink)
               || log[i].after.hash !in {None, Some("")} || log[i].after.refPk !in {None, Some("")})
    ensures forall i :: IsLastTracked(log, key, i) && key in Replay(log) ==> Replay(log)[key] == ShownBy(log[i])
    decreases |log|
  {
    if log != [] {
      var n, rest := |log| - 1, log[..|log| - 1];
      ReplayShowsLast(rest, key);
      if log[n].tracked && log[n].key == key {
        assert IsLastTracked(log, key, n);
        forall i | IsLastTracked(log, key, i)
          ensures i == n
        {
          assert i <= n;
        }
      } else {
        forall i
          ensures IsLastTracked(log, key, i) <==> IsLastTracked(rest, key, i)
        {
          assert forall j :: 0 <= j < n ==> rest[j] == log[j];
        }
      }
    }
  }

  /** The text an index shows for a key; a missing row reads as null. */
  function TextAt(index: map<Key, Shown>, key: Key): Option<string> {
    if key in index then index[key].after.text else None
  }

  /** Entries that do not track a key leave what the index shows for it. */
  lemma {:induction false} ReplaySkips(log: seq<LogEntry>, entries: seq<LogEntry>, key: Key)
    requires forall e :: e in entries && e.key == key ==> !e.tracked
    ensures key in Replay(log + entries) <==> key in Replay(log)
    ensures key in Replay(log) ==> Replay(log + entries)[key] == Replay(log)[key]
    decreases |entries|
  {
    if entries == [] {
      assert log + entries == log;
    } else {
      var rest := entries[..|entries| - 1];
      assert (log + entries)[..|log + entries| - 1] == log + rest;
      assert entries[|entries| - 1] in entries;
      ReplaySkips(log, rest, key);
    }
  }

  /** After entries that track a key once, the index shows that change, or nothing if it clears. */
  lemma ReplayTakes(log: seq<LogEntry>, entries: seq<LogEntry>, i: nat)
    requires i < |entries| && entries[i].tracked
    requires forall j :: i < j < |entries| ==> entries[j].key != entries[i].key
    ensures var key, all := entries[i].key, Replay(log + entries);
            && (key in all <==> !Clears(entries[i].operation, entries[i].after))
            && (key in all ==> all[key] == ShownBy(entries[i]))
  {
    var all, key := log + entries, entries[i].key;
    assert all[|log| + i] == entries[i];
    forall j | |log| + i < j < |all|
      ensures all[j].key != key
    {
      assert all[j] == entries[j - |log|];
    }
    assert IsLastTracked(all, key, |log| + i);
    forall k | IsLastTracked(all, key, k)
      ensures k == |log| + i
    {
    }
    ReplayShowsLast(all, key);
  }
}
