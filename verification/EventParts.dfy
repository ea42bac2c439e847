/** Reading the parts of many history events with one query a table and handing the rows out to
    their events, against one query a table for every event. */
module EventParts {

  type EventId = nat

  /** A row of one of the four part tables; `position` is the column the query orders by. */
  datatype Part = Part(event: EventId, position: int, content: nat)

  datatype Parts = Parts(actors: seq<Part>, entities: seq<Part>, inputs: seq<Part>, changes: seq<Part>)

  /** The rows of these events, in the order of the sequence. */
  function Of(rows: seq<Part>, ids: set<EventId>): seq<Part> {
    if rows == [] then []
    else
      var last := rows[|rows| - 1];
      Of(rows[..|rows| - 1], ids) + if last.event in ids then [last] else []
  }

  ghost predicate Ordered(rows: seq<Part>) {
    forall i, j :: 0 <= i < j < |rows| ==> rows[i].position <= rows[j].position
  }

  /** May the database answer the ordered query for these events so?  Ties may come in any order. */
  ghost predicate Answers(table: seq<Part>, ids: set<EventId>, result: seq<Part>) {
    multiset(result) == multiset(Of(table, ids)) && Ordered(result)
  }

  lemma {:induction false} OfCounts(rows: seq<Part>, ids: set<EventId>, p: Part)
    ensures multiset(Of(rows, ids))[p] == if p.event in ids then multiset(rows)[p] else 0
  {
    if rows != [] {
      OfCounts(rows[..|rows| - 1], ids, p);
      assert rows == rows[..|rows| - 1] + [rows[|rows| - 1]];
    }
  }

  lemma {:induction false} OfIsOrdered(rows: seq<Part>, ids: set<EventId>)
    requires Ordered(rows)
    ensures Ordered(Of(rows, ids))
    ensures forall p :: p in Of(rows, ids) ==> p in rows
  {
    if rows != [] {
      var front, last := rows[..|rows| - 1], rows[|rows| - 1];
      OfIsOrdered(front, ids);
      assert forall p :: p in front ==> p in rows && p.position <= last.position;
      assert forall i :: 0 <= i < |Of(front, ids)| ==> Of(front, ids)[i] in front;
    }
  }

  /** What the one query brings for an event is an answer to the query for that event alone. */
  lemma ShareAnswers(table: seq<Part>, ids: set<EventId>, all: seq<Part>, id: EventId)
    requires Answers(table, ids, all) && id in ids
    ensures Answers(table, {id}, Of(all, {id}))
  {
    OfIsOrdered(all, {id});
    forall p
      ensures multiset(Of(all, {id}))[p] == multiset(Of(table, {id}))[p]
    {
      OfCounts(all, {id}, p);
      OfCounts(table, {id}, p);
      OfCounts(table, ids, p);
    }
  }

  ghost predicate NoTies(rows: seq<Part>) {
    forall i, j :: 0 <= i < j < |rows| ==> rows[i].position != rows[j].position
  }

  lemma LastsAgree(a: seq<Part>, b: seq<Part>)
    requires a != [] && |a| == |b| && multiset(a) == multiset(b) && Ordered(a) && Ordered(b) && NoTies(a)
    ensures a[|a| - 1] == b[|b| - 1]
  {
    var n := |a| - 1;
    assert a[n] in multiset(b) && b[n] in multiset(a);
    var i :| 0 <= i < |b| && b[i] == a[n];
    var j :| 0 <= j < |a| && a[j] == b[n];
  }

  lemma FrontCounts(rows: seq<Part>)
    requires rows != []
    ensures multiset(rows[..|rows| - 1]) == multiset(rows) - multiset{rows[|rows| - 1]}
  {
    assert rows == rows[..|rows| - 1] + [rows[|rows| - 1]];
  }

  lemma FrontOrdered(rows: seq<Part>)
    requires rows != []
    ensures Ordered(rows) ==> Ordered(rows[..|rows| - 1])
    ensures NoTies(rows) ==> NoTies(rows[..|rows| - 1])
  {
  }

  /** Where no two rows of the event tie there is only one answer, so both ways agree. */
  lemma {:induction false} AnswerIsUnique(a: seq<Part>, b: seq<Part>)
    requires multiset(a) == multiset(b) && Ordered(a) && Ordered(b) && NoTies(a)
    ensures a == b
    decreases |a|
  {
    hide Ordered, NoTies;
    assert |a| == |multiset(a)| == |multiset(b)| == |b|;
    if a != [] {
      var n := |a| - 1;
      LastsAgree(a, b);
      FrontOrdered(a);
      FrontOrdered(b);
      FrontCounts(a);
      FrontCounts(b);
      AnswerIsUnique(a[..n], b[..n]);
      assert a == a[..n] + [a[n]] && b == b[..n] + [a[n]];
    }
  }

  lemma OfStep(rows: seq<Part>, i: nat, ids: set<EventId>)
    requires i < |rows|
    ensures Of(rows[..i + 1], ids) == Of(rows[..i], ids) + if rows[i].event in ids then [rows[i]] else []
  {
    assert rows[..i + 1][..i] == rows[..i];
  }

  ghost predicate OnlyOf(rows: seq<Part>, eventIds: seq<EventId>) {
    forall i :: 0 <= i < |rows| ==> rows[i].event in eventIds
  }

  /** Every listed event has exactly its rows of these lists. */
  ghost predicate HandedOut(parts: map<EventId, Parts>, eventIds: seq<EventId>, actors: seq<Part>,
                            entities: seq<Part>, inputs: seq<Part>, changes: seq<Part>) {
    && parts.Keys == (set id | id in eventIds)
    && forall id :: id in parts ==>
        parts[id] == Parts(Of(actors, {id}), Of(entities, {id}), Of(inputs, {id}), Of(changes, {id}))
  }

  lemma NothingHandedOut(eventIds: seq<EventId>)
    ensures HandedOut(map id | id in eventIds :: Parts([], [], [], []), eventIds, [], [], [], [])
  {
  }

  lemma ActorHandedOut(parts: map<EventId, Parts>, eventIds: seq<EventId>, actors: seq<Part>, i: nat)
    requires i < |actors| && OnlyOf(actors, eventIds) && HandedOut(parts, eventIds, actors[..i], [], [], [])
    ensures var p := actors[i];
            && p.event in parts
            && var at := parts[p.event];
               HandedOut(parts[p.event := Parts(at.actors + [p], at.entities, at.inputs, at.changes)], eventIds,
                         actors[..i + 1], [], [], [])
  {
    hide Of;
    forall id
      ensures Of(actors[..i + 1], {id}) == Of(actors[..i], {id}) + if actors[i].event == id then [actors[i]] else []
    {
      OfStep(actors, i, {id});
    }
  }

  lemma EntityHandedOut(parts: map<EventId, Parts>, eventIds: seq<EventId>, actors: seq<Part>, entities: seq<Part>,
                        i: nat)
    requires i < |entities| && OnlyOf(entities, eventIds) && HandedOut(parts, eventIds, actors, entities[..i], [], [])
    ensures var p := entities[i];
            && p.event in parts
            && var at := parts[p.event];
               HandedOut(parts[p.event := Parts(at.actors, at.entities + [p], at.inputs, at.changes)], eventIds,
                         actors, entities[..i + 1], [], [])
  {
    hide Of;
    forall id
      ensures Of(entities[..i + 1], {id}) == Of(entities[..i], {id}) + if entities[i].event == id
              then [entities[i]] else []
    {
      OfStep(entities, i, {id});
    }
  }

  lemma InputHandedOut(parts: map<EventId, Parts>, eventIds: seq<EventId>, actors: seq<Part>, entities: seq<Part>,
                       inputs: seq<Part>, i: nat)
    requires i < |inputs| && OnlyOf(inputs, eventIds) && HandedOut(parts, eventIds, actors, entities, inputs[..i], [])
    ensures var p := inputs[i];
            && p.event in parts
            && var at := parts[p.event];
               HandedOut(parts[p.event := Parts(at.actors, at.entities, at.inputs + [p], at.changes)], eventIds,
                         actors, entities, inputs[..i + 1], [])
  {
    hide Of;
    forall id
      ensures Of(inputs[..i + 1], {id}) == Of(inputs[..i], {id}) + if inputs[i].event == id then [inputs[i]] else []
    {
      OfStep(inputs, i, {id});
    }
  }

  lemma ChangeHandedOut(parts: map<EventId, Parts>, eventIds: seq<EventId>, actors: seq<Part>, entities: seq<Part>,
                        inputs: seq<Part>, changes: seq<Part>, i: nat)
    requires i < |changes| && OnlyOf(changes, eventIds)
    requires HandedOut(parts, eventIds, actors, entities, inputs, changes[..i])
    ensures var p := changes[i];
            && p.event in parts
            && var at := parts[p.event];
               HandedOut(parts[p.event := Parts(at.actors, at.entities, at.inputs, at.changes + [p])], eventIds,
                         actors, entities, inputs, changes[..i + 1])
  {
    hide Of;
    forall id
      ensures Of(changes[..i + 1], {id}) == Of(changes[..i], {id}) + if changes[i].event == id then [changes[i]] else []
    {
      OfStep(changes, i, {id});
    }
  }

  /** Distributes the rows of the four queries; the queries bring only rows of the listed events. */
  method GetMultipleEventsParts(eventIds: seq<EventId>, allActors: seq<Part>, allEntities: seq<Part>,
                                allInputs: seq<Part>, allChanges: seq<Part>)
    returns (parts: map<EventId, Parts>)
    requires OnlyOf(allActors, eventIds) && OnlyOf(allEntities, eventIds)
    requires OnlyOf(allInputs, eventIds) && OnlyOf(allChanges, eventIds)
    ensures HandedOut(parts, eventIds, allActors, allEntities, allInputs, allChanges)
  {
    hide Of, OnlyOf, HandedOut;
    parts := map id | id in eventIds :: Parts([], [], [], []);
    NothingHandedOut(eventIds);
    assert allActors[..0] == allEntities[..0] == allInputs[..0] == allChanges[..0] == [];
    for i := 0 to |allActors|
      invariant HandedOut(parts, eventIds, allActors[..i], [], [], [])
    {
      ActorHandedOut(parts, eventIds, allActors, i);
      var p := allActors[i];
      var at := parts[p.event];
      parts := parts[p.event := Parts(at.actors + [p], at.entities, at.inputs, at.changes)];
    }
    assert allActors[..|allActors|] == allActors;
    for i := 0 to |allEntities|
      invariant HandedOut(parts, eventIds, allActors, allEntities[..i], [], [])
    {
      EntityHandedOut(parts, eventIds, allActors, allEntities, i);
      var p := allEntities[i];
      var at := parts[p.event];
      parts := parts[p.event := Parts(at.actors, at.entities + [p], at.inputs, at.changes)];
    }
    assert allEntities[..|allEntities|] == allEntities;
    for i := 0 to |allInputs|
      invariant HandedOut(parts, eventIds, allActors, allEntities, allInputs[..i], [])
    {
      InputHandedOut(parts, eventIds, allActors, allEntities, allInputs, i);
      var p := allInputs[i];
      var at := parts[p.event];
      parts := parts[p.event := Parts(at.actors, at.entities, at.inputs + [p], at.changes)];
    }
    assert allInputs[..|allInputs|] == allInputs;
    for i := 0 to |allChanges|
      invariant HandedOut(parts, eventIds, allActors, allEntities, allInputs, allChanges[..i])
    {
      ChangeHandedOut(parts, eventIds, allActors, allEntities, allInputs, allChanges, i);
      var p := allChanges[i];
      var at := parts[p.event];
      parts := parts[p.event := Parts(at.actors, at.entities, at.inputs, at.changes + [p])];
    }
    assert allChanges[..|allChanges|] == allChanges;
  }
}
