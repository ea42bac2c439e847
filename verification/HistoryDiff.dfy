/** Entity diffs: flattening nested records to dotted paths, the field changes between two
    records, and applying and undoing them. */
module HistoryDiff {
  import opened Wrappers

  /** A value that is not a plain object.  A missing or undefined value is Null; arrays and
      other objects are held as their JSON text. */
  datatype Leaf = Null | Bool(b: bool) | Num(n: int) | Str(s: string) | Date(ms: int) | Json(text: string)

  datatype Value = Scalar(leaf: Leaf) | Object(entries: seq<Entry>)
  datatype Entry = Entry(key: string, value: Value)

  function PathOf(prefix: string, key: string): string {
    if prefix == "" then key else prefix + "." + key
  }

  // Flattening

  /** The dotted paths of a record; a later entry overwrites an earlier one at the same path. */
  function Flatten(entries: seq<Entry>, prefix: string): map<string, Leaf>
    decreases entries
  {
    if entries == [] then map[]
    else
      var e := entries[|entries| - 1];
      Flatten(entries[..|entries| - 1], prefix) + FlattenEntry(e, prefix)
  }

  function FlattenEntry(e: Entry, prefix: string): map<string, Leaf>
    decreases e
  {
    match e.value
    case Scalar(leaf) => map[PathOf(prefix, e.key) := leaf]
    case Object(inner) => Flatten(inner, PathOf(prefix, e.key))
  }

  method FlattenEntityValues(entries: seq<Entry>, prefix: string) returns (result: map<string, Leaf>)
    ensures result == Flatten(entries, prefix)
    decreases entries
  {
    result := map[];
    for i := 0 to |entries|
      invariant result == Flatten(entries[..i], prefix)
    {
      var e := entries[i];
      assert entries[..i + 1][..i] == entries[..i];
      var path := PathOf(prefix, e.key);
      if e.value.Object? {
        var inner := FlattenEntityValues(e.value.entries, path);
        result := result + inner;
      } else {
        result := result[path := e.value.leaf];
      }
    }
    assert entries[..|entries|] == entries;
  }

  /** The leaf found by following keys through nested records. */
  function Lookup(entries: seq<Entry>, keys: seq<string>): Option<Leaf>
    requires keys != []
    decreases entries
  {
    if entries == [] then None
    else
      var e := entries[|entries| - 1];
      if e.key == keys[0] then LookupEntry(e, keys[1..])
      else Lookup(entries[..|entries| - 1], keys)
  }

  function LookupEntry(e: Entry, keys: seq<string>): Option<Leaf>
    decreases e
  {
    match e.value
    case Scalar(leaf) => if keys == [] then Some(leaf) else None
    case Object(inner) => if keys == [] then None else Lookup(inner, keys)
  }

  /** Keys of one object are distinct, at every level. */
  predicate IsRecord(entries: seq<Entry>)
    decreases entries
  {
    entries == [] ||
    var e, rest := entries[|entries| - 1], entries[..|entries| - 1];
    && IsRecord(rest)
    && (forall r :: r in rest ==> r.key != e.key)
    && (e.value.Object? ==> IsRecord(e.value.entries))
  }

  /** No key has a dot, at any level. */
  predicate DotFree(entries: seq<Entry>)
    decreases entries
  {
    entries == [] ||
    var e := entries[|entries| - 1];
    && DotFree(entries[..|entries| - 1]) && '.' !in e.key
    && (e.value.Object? ==> DotFree(e.value.entries))
  }

  /** No object sits under the empty key of the outermost record. */
  predicate Anchored(prefix: string, entries: seq<Entry>) {
    prefix != "" || forall e :: e in entries && e.key == "" ==> e.value.Scalar?
  }

  /** The path of a list of keys below a prefix. */
  function Under(prefix: string, keys: seq<string>): string
    requires keys != []
    decreases |keys|
  {
    if |keys| == 1 then PathOf(prefix, keys[0]) else Under(PathOf(prefix, keys[0]), keys[1..])
  }

  predicate AllDotFree(keys: seq<string>) {
    forall k :: k in keys ==> '.' !in k
  }

  // Dotted paths determine their keys

  function Dotted(keys: seq<string>): string
    requires keys != []
    decreases |keys|
  {
    if |keys| == 1 then keys[0] else keys[0] + "." + Dotted(keys[1..])
  }

  lemma {:induction false} UnderIsDotted(prefix: string, keys: seq<string>)
    requires keys != [] && (prefix != "" || keys[0] != "" || |keys| == 1)
    ensures Under(prefix, keys) == if prefix == "" then Dotted(keys) else prefix + "." + Dotted(keys)
    decreases |keys|
  {
    if |keys| > 1 {
      var path := PathOf(prefix, keys[0]);
      UnderIsDotted(path, keys[1..]);
      if prefix != "" {
        assert prefix + "." + keys[0] + "." + Dotted(keys[1..]) == prefix + "." + (keys[0] + "." + Dotted(keys[1..]));
      }
    }
  }

  /** Two texts that agree up to and after their first dot are equal on both sides of it. */
  lemma SplitAtDot(a: string, x: string, b: string, y: string)
    requires '.' !in a && '.' !in b && a + "." + x == b + "." + y
    ensures a == b && x == y
  {
    var s := a + "." + x;
    assert s[|a|] == s[|b|] == '.';
    assert forall i :: 0 <= i < |a| ==> s[i] == a[i] != '.';
    assert forall i :: 0 <= i < |b| ==> s[i] == b[i] != '.';
    assert a == s[..|a|] && b == s[..|b|] && x == s[|a| + 1..] && y == s[|b| + 1..];
  }

  lemma {:induction false} DottedIsInjective(keys: seq<string>, other: seq<string>)
    requires keys != [] && other != [] && AllDotFree(keys) && AllDotFree(other)
    requires Dotted(keys) == Dotted(other)
    ensures keys == other
    decreases |keys|
  {
    DotsSeparate(keys);
    DotsSeparate(other);
    if |keys| > 1 {
      assert keys[0] in keys && other[0] in other;
      SplitAtDot(keys[0], Dotted(keys[1..]), other[0], Dotted(other[1..]));
      DottedIsInjective(keys[1..], other[1..]);
      assert keys == [keys[0]] + keys[1..] && other == [other[0]] + other[1..];
    }
  }

  lemma DotsSeparate(keys: seq<string>)
    requires keys != [] && AllDotFree(keys)
    ensures '.' in Dotted(keys) <==> |keys| > 1
  {
    assert keys[0] in keys;
    if |keys| > 1 {
      assert Dotted(keys)[|keys[0]|] == '.';
    }
  }

  lemma UnderIsInjective(prefix: string, keys: seq<string>, other: seq<string>)
    requires keys != [] && other != [] && AllDotFree(keys) && AllDotFree(other)
    requires prefix != "" || ((keys[0] != "" || |keys| == 1) && (other[0] != "" || |other| == 1))
    requires Under(prefix, keys) == Under(prefix, other)
    ensures keys == other
  {
    UnderIsDotted(prefix, keys);
    UnderIsDotted(prefix, other);
    if prefix != "" {
      var head := prefix + ".";
      assert Dotted(keys) == (head + Dotted(keys))[|head|..] && Dotted(other) == (head + Dotted(other))[|head|..];
    }
    DottedIsInjective(keys, other);
  }

  // Flattening and lookup agree

  /** Every flattened path comes from a list of keys that leads to its leaf. */
  lemma {:induction false} FlattenSound(entries: seq<Entry>, prefix: string, path: string) returns (keys: seq<string>)
    requires IsRecord(entries) && DotFree(entries) && Anchored(prefix, entries)
    requires path in Flatten(entries, prefix)
    ensures keys != [] && AllDotFree(keys) && Under(prefix, keys) == path
    ensures prefix != "" || keys[0] != "" || |keys| == 1
    ensures Lookup(entries, keys) == Some(Flatten(entries, prefix)[path])
    decreases entries
  {
    var e, rest := entries[|entries| - 1], entries[..|entries| - 1];
    if path in FlattenEntry(e, prefix) {
      keys := FlattenEntrySound(e, prefix, path);
      assert keys[1..] == keys[1..];
    } else {
      keys := FlattenSound(rest, prefix, path);
      LookupFindsKey(rest, keys);
    }
  }

  lemma {:induction false} FlattenEntrySound(e: Entry, prefix: string, path: string) returns (keys: seq<string>)
    requires '.' !in e.key && (prefix == "" && e.key == "" ==> e.value.Scalar?)
    requires e.value.Object? ==> IsRecord(e.value.entries) && DotFree(e.value.entries)
    requires path in FlattenEntry(e, prefix)
    ensures keys != [] && keys[0] == e.key && AllDotFree(keys) && Under(prefix, keys) == path
    ensures prefix != "" || keys[0] != "" || |keys| == 1
    ensures LookupEntry(e, keys[1..]) == Some(FlattenEntry(e, prefix)[path])
    decreases e
  {
    match e.value
    case Scalar(leaf) => keys := [e.key];
    case Object(inner) =>
      var below := FlattenSound(inner, PathOf(prefix, e.key), path);
      keys := [e.key] + below;
      assert keys[1..] == below;
  }

  lemma {:induction false} LookupFindsKey(entries: seq<Entry>, keys: seq<string>)
    requires keys != [] && Lookup(entries, keys).Some?
    ensures exists e :: e in entries && e.key == keys[0]
    decreases |entries|
  {
    var e := entries[|entries| - 1];
    if e.key != keys[0] {
      LookupFindsKey(entries[..|entries| - 1], keys);
    }
  }

  /** Every leaf a list of keys leads to stands at the path of those keys. */
  lemma {:induction false} FlattenComplete(entries: seq<Entry>, prefix: string, keys: seq<string>)
    requires IsRecord(entries) && DotFree(entries) && Anchored(prefix, entries)
    requires keys != [] && AllDotFree(keys) && Lookup(entries, keys).Some?
    ensures Under(prefix, keys) in Flatten(entries, prefix)
    ensures Flatten(entries, prefix)[Under(prefix, keys)] == Lookup(entries, keys).value
    decreases entries
  {
    var e, rest := entries[|entries| - 1], entries[..|entries| - 1];
    if e.key == keys[0] {
      FlattenEntryComplete(e, prefix, keys);
    } else {
      FlattenComplete(rest, prefix, keys);
      LookupIsAnchored(rest, prefix, keys);
      if Under(prefix, keys) in FlattenEntry(e, prefix) {
        var other := FlattenEntrySound(e, prefix, Under(prefix, keys));
        UnderIsInjective(prefix, keys, other);
      }
    }
  }

  lemma {:induction false} FlattenEntryComplete(e: Entry, prefix: string, keys: seq<string>)
    requires '.' !in e.key && (prefix == "" && e.key == "" ==> e.value.Scalar?)
    requires e.value.Object? ==> IsRecord(e.value.entries) && DotFree(e.value.entries)
    requires keys != [] && keys[0] == e.key && AllDotFree(keys) && LookupEntry(e, keys[1..]).Some?
    ensures Under(prefix, keys) in FlattenEntry(e, prefix)
    ensures FlattenEntry(e, prefix)[Under(prefix, keys)] == LookupEntry(e, keys[1..]).value
    decreases e
  {
    if e.value.Object? {
      FlattenComplete(e.value.entries, PathOf(prefix, e.key), keys[1..]);
    }
  }

  lemma {:induction false} LookupIsAnchored(entries: seq<Entry>, prefix: string, keys: seq<string>)
    requires Anchored(prefix, entries) && keys != [] && Lookup(entries, keys).Some?
    ensures prefix != "" || keys[0] != "" || |keys| == 1
    decreases |entries|
  {
    var e := entries[|entries| - 1];
    if e.key != keys[0] {
      LookupIsAnchored(entries[..|entries| - 1], prefix, keys);
    }
  }

  /** The records have the same leaf behind every list of keys. */
  ghost predicate SameLeaves(one: seq<Entry>, two: seq<Entry>) {
    forall keys :: keys != [] && AllDotFree(keys) ==> Lookup(one, keys) == Lookup(two, keys)
  }

  /** Records with dot-free keys and no object under an empty outermost key flatten to the same
      paths exactly when they have the same leaves. */
  lemma FlattenKeepsLeaves(one: seq<Entry>, two: seq<Entry>)
    requires IsRecord(one) && DotFree(one) && Anchored("", one)
    requires IsRecord(two) && DotFree(two) && Anchored("", two)
    ensures Flatten(one, "") == Flatten(two, "") <==> SameLeaves(one, two)
  {
    if Flatten(one, "") == Flatten(two, "") {
      forall keys | keys != [] && AllDotFree(keys)
        ensures Lookup(one, keys) == Lookup(two, keys)
      {
        if Lookup(one, keys).Some? {
          SameLeafIn(one, two, keys);
        } else if Lookup(two, keys).Some? {
          SameLeafIn(two, one, keys);
        }
      }
    }
    if SameLeaves(one, two) {
      forall path | path in Flatten(one, "")
        ensures path in Flatten(two, "") && Flatten(one, "")[path] == Flatten(two, "")[path]
      {
        var keys := FlattenSound(one, "", path);
        FlattenComplete(two, "", keys);
      }
      forall path | path in Flatten(two, "")
        ensures path in Flatten(one, "")
      {
        var keys := FlattenSound(two, "", path);
        FlattenComplete(one, "", keys);
      }
    }
  }

  lemma SameLeafIn(one: seq<Entry>, two: seq<Entry>, keys: seq<string>)
    requires IsRecord(one) && DotFree(one) && Anchored("", one)
    requires IsRecord(two) && DotFree(two) && Anchored("", two)
    requires Flatten(one, "") == Flatten(two, "")
    requires keys != [] && AllDotFree(keys) && Lookup(one, keys).Some?
    ensures Lookup(two, keys) == Lookup(one, keys)
  {
    FlattenComplete(one, "", keys);
    LookupIsAnchored(one, "", keys);
    var found := FlattenSound(two, "", Under("", keys));
    UnderIsInjective("", keys, found);
  }

  // Leaves and records

  /** No object at any depth is without entries. */
  predicate NoEmptyObjects(entries: seq<Entry>)
    decreases entries
  {
    entries == [] ||
    var e := entries[|entries| - 1];
    && NoEmptyObjects(entries[..|entries| - 1])
    && (e.value.Object? ==> e.value.entries != [] && NoEmptyObjects(e.value.entries))
  }

  /** What stands under a key: the last entry counts. */
  function Find(entries: seq<Entry>, key: string): Option<Value> {
    if entries == [] then None
    else if entries[|entries| - 1].key == key then Some(entries[|entries| - 1].value)
    else Find(entries[..|entries| - 1], key)
  }

  /** The same keys at every depth, with equal scalars and objects against objects; the order
      of the entries does not matter. */
  ghost predicate SameRecord(one: seq<Entry>, two: seq<Entry>)
    decreases one, 1
  {
    Covers(one, two) && forall f :: f in two ==> Find(one, f.key).Some?
  }

  /** Every entry of the first record stands in the second one too. */
  ghost predicate Covers(one: seq<Entry>, two: seq<Entry>)
    decreases one, 0
  {
    one == [] || (Covers(one[..|one| - 1], two) && HasSame(one[|one| - 1], two))
  }

  ghost predicate HasSame(e: Entry, two: seq<Entry>)
    decreases e
  {
    var found := Find(two, e.key);
    && found.Some?
    && match e.value
       case Scalar(leaf) => found.value == Scalar(leaf)
       case Object(inner) => found.value.Object? && SameRecord(inner, found.value.entries)
  }

  lemma {:induction false} CoversEach(one: seq<Entry>, two: seq<Entry>)
    ensures Covers(one, two) <==> forall i :: 0 <= i < |one| ==> HasSame(one[i], two)
  {
    hide HasSame;
    if one != [] {
      CoversEach(one[..|one| - 1], two);
    }
  }

  lemma HasSameInside(e: Entry, two: seq<Entry>)
    requires HasSame(e, two)
    ensures Find(two, e.key).Some? && (e.value.Scalar? ==> Find(two, e.key).value == e.value)
    ensures e.value.Object? ==> Find(two, e.key).value.Object?
    ensures e.value.Object? ==> SameRecord(e.value.entries, Find(two, e.key).value.entries)
  {
    hide SameRecord;
  }

  lemma {:induction false} FoundIsEntry(entries: seq<Entry>, key: string) returns (i: nat)
    requires Find(entries, key).Some?
    ensures i < |entries| && entries[i] == Entry(key, Find(entries, key).value)
  {
    var n := |entries| - 1;
    if entries[n].key == key {
      i := n;
    } else {
      i := FoundIsEntry(entries[..n], key);
    }
  }

  lemma {:induction false} EntryIsFound(entries: seq<Entry>, i: nat)
    requires IsRecord(entries) && i < |entries|
    ensures Find(entries, entries[i].key) == Some(entries[i].value)
    decreases |entries|
  {
    if i < |entries| - 1 {
      KeysAreDistinct(entries, i, |entries| - 1);
      EntryIsFound(entries[..|entries| - 1], i);
    }
  }

  lemma {:induction false} LookupFinds(entries: seq<Entry>, keys: seq<string>)
    requires keys != []
    ensures Lookup(entries, keys) ==
            if Find(entries, keys[0]).Some?
                then LookupEntry(Entry(keys[0], Find(entries, keys[0]).value), keys[1..]) else None
    decreases |entries|
  {
    if entries != [] && entries[|entries| - 1].key != keys[0] {
      LookupFinds(entries[..|entries| - 1], keys);
    }
  }

  /** A record of the kind the service flattens without loss of leaves. */
  ghost predicate IsTidy(entries: seq<Entry>) {
    IsRecord(entries) && DotFree(entries) && NoEmptyObjects(entries)
  }

  lemma {:induction false} PartsAreTidy(entries: seq<Entry>, i: nat)
    requires IsTidy(entries) && i < |entries|
    ensures '.' !in entries[i].key
    ensures entries[i].value.Object? ==> IsTidy(entries[i].value.entries) && entries[i].value.entries != []
  {
    if i < |entries| - 1 {
      PartsAreTidy(entries[..|entries| - 1], i);
    }
  }

  lemma {:induction false} KeysAreDistinct(entries: seq<Entry>, i: nat, j: nat)
    requires IsRecord(entries) && i < j < |entries|
    ensures entries[i].key != entries[j].key
    decreases |entries|
  {
    if j < |entries| - 1 {
      KeysAreDistinct(entries[..|entries| - 1], i, j);
    }
  }

  lemma {:induction false} LookupAt(entries: seq<Entry>, i: nat, rest: seq<string>)
    requires IsRecord(entries) && i < |entries|
    ensures Lookup(entries, [entries[i].key] + rest) == LookupEntry(entries[i], rest)
    decreases |entries|
  {
    var keys, n := [entries[i].key] + rest, |entries| - 1;
    assert keys[1..] == rest;
    if i < n {
      KeysAreDistinct(entries, i, n);
      LookupAt(entries[..n], i, rest);
    }
  }

  lemma {:induction false} LookupEnters(entries: seq<Entry>, keys: seq<string>) returns (i: nat)
    requires keys != [] && Lookup(entries, keys).Some?
    ensures i < |entries| && entries[i].key == keys[0] && Lookup(entries, keys) == LookupEntry(entries[i], keys[1..])
    decreases |entries|
  {
    var n := |entries| - 1;
    if entries[n].key == keys[0] {
      i := n;
    } else {
      i := LookupEnters(entries[..n], keys);
    }
  }

  /** An entry without empty objects leads to a leaf. */
  lemma {:induction false} EntryHasLeaf(entries: seq<Entry>, i: nat) returns (rest: seq<string>)
    requires IsTidy(entries) && i < |entries|
    ensures AllDotFree(rest) && LookupEntry(entries[i], rest).Some?
    decreases entries
  {
    PartsAreTidy(entries, i);
    match entries[i].value
    case Scalar(leaf) => rest := [];
    case Object(inner) =>
      var below := EntryHasLeaf(inner, 0);
      rest := [inner[0].key] + below;
      PartsAreTidy(inner, 0);
      LookupAt(inner, 0, below);
  }

  /** Tidy records with the same leaves are the same record. */
  lemma {:induction false} SameLeavesSameRecord(one: seq<Entry>, two: seq<Entry>)
    requires IsTidy(one) && IsTidy(two) && SameLeaves(one, two)
    ensures SameRecord(one, two)
    decreases one
  {
    hide SameLeaves, IsTidy, Find, Covers;
    forall i | 0 <= i < |one|
      ensures HasSame(one[i], two)
    {
      var j := Counterpart(one, two, i);
      TidyIsRecord(two);
      EntryIsFound(two, j);
      if one[i].value.Object? {
        PartsAreTidy(one, i);
        PartsAreTidy(two, j);
        SameLeavesSameRecord(one[i].value.entries, two[j].value.entries);
      }
    }
    CoversEach(one, two);
    forall j | 0 <= j < |two|
      ensures Find(one, two[j].key).Some?
    {
      SameLeavesTurn(one, two);
      var i := Counterpart(two, one, j);
      TidyIsRecord(one);
      EntryIsFound(one, i);
    }
  }

  lemma TidyIsRecord(entries: seq<Entry>)
    requires IsTidy(entries)
    ensures IsRecord(entries)
  {
  }

  lemma SameLeavesTurn(one: seq<Entry>, two: seq<Entry>)
    requires SameLeaves(one, two)
    ensures SameLeaves(two, one)
  {
  }

  /** The entry of the other record under the same key: an equal scalar, or an object with the
      same leaves. */
  lemma Counterpart(one: seq<Entry>, two: seq<Entry>, i: nat) returns (j: nat)
    requires IsTidy(one) && IsTidy(two) && SameLeaves(one, two) && i < |one|
    ensures j < |two| && one[i].key == two[j].key
    ensures one[i].value.Scalar? ==> two[j].value == one[i].value
    ensures one[i].value.Object? ==> two[j].value.Object? && SameLeaves(one[i].value.entries, two[j].value.entries)
  {
    var rest := EntryHasLeaf(one, i);
    PartsAreTidy(one, i);
    LookupAt(one, i, rest);
    var keys := [one[i].key] + rest;
    assert Lookup(one, keys) == Lookup(two, keys) && keys[1..] == rest;
    j := LookupEnters(two, keys);
    if one[i].value.Object? {
      forall below | below != [] && AllDotFree(below)
        ensures Lookup(one[i].value.entries, below) == Lookup(two[j].value.entries, below)
      {
        LookupAt(one, i, below);
        LookupAt(two, j, below);
        assert AllDotFree([one[i].key] + below);
      }
    }
  }

  /** The same record has the same leaves. */
  lemma {:induction false} SameRecordSameLeaves(one: seq<Entry>, two: seq<Entry>, keys: seq<string>)
    requires SameRecord(one, two) && keys != []
    ensures Lookup(one, keys) == Lookup(two, keys)
    decreases one
  {
    hide HasSame, Lookup, LookupEntry, Find, Covers;
    LookupFinds(one, keys);
    LookupFinds(two, keys);
    var key, rest := keys[0], keys[1..];
    if Find(one, key).Some? {
      var i := FoundIsEntry(one, key);
      CoversEach(one, two);
      HasSameInside(one[i], two);
      SameValueLookup(one[i], Entry(key, Find(two, key).value), rest);
    } else if Find(two, key).Some? {
      var j := FoundIsEntry(two, key);
    }
  }

  lemma {:induction false} SameValueLookup(e: Entry, f: Entry, rest: seq<string>)
    requires e.key == f.key && (e.value.Scalar? ==> f.value == e.value)
    requires e.value.Object? ==> f.value.Object? && SameRecord(e.value.entries, f.value.entries)
    ensures LookupEntry(e, rest) == LookupEntry(f, rest)
    decreases e
  {
    hide SameRecord;
    if e.value.Object? && rest != [] {
      SameRecordSameLeaves(e.value.entries, f.value.entries, rest);
    }
  }

  /** Flattening is faithful: records with dot-free keys, without empty objects and without an
      object under an empty outermost key flatten alike exactly when they are the same record. */
  lemma FlattenIsFaithful(one: seq<Entry>, two: seq<Entry>)
    requires IsTidy(one) && Anchored("", one) && IsTidy(two) && Anchored("", two)
    ensures Flatten(one, "") == Flatten(two, "") <==> SameRecord(one, two)
  {
    FlattenKeepsLeaves(one, two);
    if SameLeaves(one, two) {
      SameLeavesSameRecord(one, two);
    }
    if SameRecord(one, two) {
      forall keys | keys != [] && AllDotFree(keys)
        ensures Lookup(one, keys) == Lookup(two, keys)
      {
        SameRecordSameLeaves(one, two, keys);
      }
    }
  }

  // Where flattening is not faithful

  function Depth(entries: seq<Entry>): nat
    decreases entries
  {
    if entries == [] then 0
    else
      var front, last := Depth(entries[..|entries| - 1]), EntryDepth(entries[|entries| - 1]);
      if front < last then last else front
  }

  function EntryDepth(e: Entry): nat
    decreases e
  {
    match e.value
    case Scalar(_) => 0
    case Object(inner) => 1 + Depth(inner)
  }

  lemma {:induction false} DepthBounds(entries: seq<Entry>, i: nat)
    requires i < |entries|
    ensures EntryDepth(entries[i]) <= Depth(entries)
  {
    if i < |entries| - 1 {
      DepthBounds(entries[..|entries| - 1], i);
    }
  }

  lemma {:induction false} DepthAttained(entries: seq<Entry>) returns (i: nat)
    requires entries != []
    ensures i < |entries| && EntryDepth(entries[i]) == Depth(entries)
  {
    var n := |entries| - 1;
    assert entries[..n] == [] ==> Depth(entries[..n]) == 0;
    if Depth(entries) == EntryDepth(entries[n]) {
      i := n;
    } else {
      i := DepthAttained(entries[..n]);
    }
  }

  lemma {:induction false} SameRecordNotDeeper(one: seq<Entry>, two: seq<Entry>)
    requires SameRecord(one, two)
    ensures Depth(one) <= Depth(two)
    decreases one
  {
    hide HasSame, Find, Covers;
    if one != [] {
      var i := DepthAttained(one);
      CoversEach(one, two);
      HasSameInside(one[i], two);
      var j := FoundIsEntry(two, one[i].key);
      DepthBounds(two, j);
      if one[i].value.Object? {
        SameRecordNotDeeper(one[i].value.entries, two[j].value.entries);
      }
    }
  }

  lemma WrappedIsTidy(one: seq<Entry>)
    requires IsTidy(one) && one != []
    ensures IsTidy([Entry("", Object(one))])
  {
    var twin := [Entry("", Object(one))];
    assert twin[..0] == [] && twin[|twin| - 1] == Entry("", Object(one));
    assert IsRecord(twin[..0]) && DotFree(twin[..0]) && NoEmptyObjects(twin[..0]);
  }

  /** Every record flattens like the one that holds it under the empty key. */
  lemma TwinUnderEmptyKey(one: seq<Entry>)
    ensures var twin := [Entry("", Object(one))];
            && Flatten(twin, "") == Flatten(one, "") && !SameRecord(twin, one)
            && (IsTidy(one) && one != [] ==> IsTidy(twin))
  {
    hide SameRecord;
    var e := Entry("", Object(one));
    FlattenOne(e, "");
    if IsTidy(one) && one != [] {
      WrappedIsTidy(one);
    }
    if SameRecord([e], one) {
      SameRecordNotDeeper([e], one);
    }
  }

  /** So among all records with dot-free keys and no empty objects, objects under the empty
      outermost key included, the flattening of a record tells which one it is exactly when the
      record is empty. */
  lemma OnlyEmptyIsTold(one: seq<Entry>)
    requires IsTidy(one)
    ensures (forall two :: IsTidy(two) && Flatten(two, "") == Flatten(one, "") ==> SameRecord(two, one)) <==> one == []
  {
    hide HasSame;
    if one == [] {
      forall two | IsTidy(two) && Flatten(two, "") == Flatten(one, "")
        ensures SameRecord(two, one)
      {
        if two != [] {
          HasPath(two, "");
        }
      }
    } else {
      TwinUnderEmptyKey(one);
    }
  }

  lemma {:induction false} HasPath(entries: seq<Entry>, prefix: string)
    requires IsTidy(entries) && entries != []
    ensures Flatten(entries, prefix) != map[]
    decreases entries
  {
    var e := entries[|entries| - 1];
    PartsAreTidy(entries, |entries| - 1);
    match e.value
    case Scalar(leaf) =>
      assert PathOf(prefix, e.key) in Flatten(entries, prefix);
    case Object(inner) =>
      HasPath(inner, PathOf(prefix, e.key));
      var path :| path in Flatten(inner, PathOf(prefix, e.key));
      assert path in Flatten(entries, prefix);
  }

  /** Why each condition is there: a dotted key, an object under the empty outermost key and an
      empty object all flatten like a record that is not the same. */
  lemma FlattenConfuses(a: string, b: string, v: Leaf, inner: seq<Entry>)
    requires a != ""
    ensures var dotted, nested := [Entry(a + "." + b, Scalar(v))], [Entry(a, Object([Entry(b, Scalar(v))]))];
            Flatten(dotted, "") == Flatten(nested, "") && !SameRecord(dotted, nested)
    ensures Flatten([Entry("", Object(inner))], "") == Flatten(inner, "")
            && !SameRecord([Entry("", Object(inner))], inner)
    ensures Flatten([Entry(a, Object([]))], "") == Flatten([], "") && !SameRecord([Entry(a, Object([]))], [])
  {
    hide HasSame, Flatten;
    var dotted, nested := [Entry(a + "." + b, Scalar(v))], [Entry(a, Object([Entry(b, Scalar(v))]))];
    FlattenOne(dotted[0], "");
    FlattenOne(nested[0], "");
    FlattenOne(Entry(b, Scalar(v)), a);
    assert |dotted[0].key| != |nested[0].key|;
    assert nested[0] in nested;
    assert Find(dotted[..0], a) == None && Find(dotted, a) == None;
    TwinUnderEmptyKey(inner);
    var empty := Entry(a, Object([]));
    FlattenOne(empty, "");
    NothingFlattens(a);
    NothingFlattens("");
    CoversEach([empty], []);
    assert Find([], a) == None;
    if HasSame([empty][0], []) {
      HasSameInside(empty, []);
    }
  }

  lemma NothingFlattens(prefix: string)
    ensures Flatten([], prefix) == map[]
  {
  }

  lemma FlattenOne(e: Entry, prefix: string)
    ensures Flatten([e], prefix) == FlattenEntry(e, prefix)
  {
    assert [e][..0] == [];
  }

  /** Where several entries give a path a leaf, the last of them wins. */
  lemma {:induction false} LastEntryWins(entries: seq<Entry>, prefix: string, i: nat, path: string)
    requires i < |entries| && path in Flatten([entries[i]], prefix)
    requires forall j :: i < j < |entries| ==> path !in Flatten([entries[j]], prefix)
    ensures path in Flatten(entries, prefix) && Flatten(entries, prefix)[path] == Flatten([entries[i]], prefix)[path]
    decreases |entries|
  {
    var n := |entries| - 1;
    FlattenOne(entries[n], prefix);
    if i < n {
      LastEntryWins(entries[..n], prefix, i, path);
    }
  }

  /** A scalar stands at its key, below the prefix if there is one; an object's entries stand
      below its key. */
  lemma FlattenEntryAt(key: string, value: Value, prefix: string)
    ensures var path := if prefix == "" then key else prefix + "." + key;
            Flatten([Entry(key, value)], prefix) ==
            match value
            case Scalar(leaf) => map[path := leaf]
            case Object(inner) => Flatten(inner, path)
  {
    FlattenOne(Entry(key, value), prefix);
  }

  // Changes between two records

  datatype Operation = Insert | Update | Delete | Link | Unlink | Touch

  datatype FieldChange = FieldChange(path: string, operation: Operation, before: Leaf, after: Leaf)

  /** A missing path reads as null. */
  function At(flat: map<string, Leaf>, path: string): Leaf {
    if path in flat then flat[path] else Null
  }

  /** What a change stores for a leaf: JSON text is stored as a string. */
  function Stored(leaf: Leaf): Leaf {
    if leaf.Json? then Str(leaf.text) else leaf
  }

  predicate IsSystemTimestamp(path: string) {
    path == "created_at" || path == "updated_at"
  }

  /** Is a change emitted for the path? */
  predicate Differs(before: map<string, Leaf>, after: map<string, Leaf>, path: string, operation: Operation) {
    operation != Update || At(before, path) != At(after, path)
  }

  function ChangeAt(before: map<string, Leaf>, after: map<string, Leaf>, path: string,
                    operation: Operation): FieldChange {
    FieldChange(path, operation, At(before, path), At(after, path))
  }

  function ChangesOf(before: map<string, Leaf>, after: map<string, Leaf>, paths: seq<string>,
                     operation: Operation): seq<FieldChange> {
    if paths == [] then []
    else
      var path := paths[|paths| - 1];
      ChangesOf(before, after, paths[..|paths| - 1], operation) +
      (if Differs(before, after, path, operation) then [ChangeAt(before, after, path, operation)] else [])
  }

  /** The paths looked at when no field list is given. */
  function DefaultPaths(before: map<string, Leaf>, after: map<string, Leaf>): set<string> {
    set path | path in before.Keys + after.Keys && !IsSystemTimestamp(path)
  }

  ghost predicate Enumerates(paths: seq<string>, all: set<string>) {
    && (forall p :: p in paths <==> p in all)
    && (forall i, j :: 0 <= i < j < |paths| ==> paths[i] != paths[j])
  }

  method BuildEntityChanges(beforeValues: seq<Entry>, afterValues: seq<Entry>, fields: Option<seq<string>>,
                            operation: Operation)
    returns (changes: seq<FieldChange>, ghost paths: seq<string>)
    ensures fields.Some? ==> paths == fields.value
    ensures fields.None? ==> Enumerates(paths, DefaultPaths(Flatten(beforeValues, ""), Flatten(afterValues, "")))
    ensures fields.None? ==>
              forall path :: path in paths <==>
                (path in Flatten(beforeValues, "") || path in Flatten(afterValues, ""))
                && path != "created_at" && path != "updated_at"
    ensures changes == ChangesOf(Flatten(beforeValues, ""), Flatten(afterValues, ""), paths, operation)
  {
    var before := FlattenEntityValues(beforeValues, "");
    var after := FlattenEntityValues(afterValues, "");
    var list := [];
    if fields.Some? {
      list := fields.value;
    } else {
      list := ListOf(DefaultPaths(before, after));
    }
    paths := list;
    changes := [];
    for i := 0 to |list|
      invariant changes == ChangesOf(before, after, list[..i], operation)
    {
      var path := list[i];
      assert list[..i + 1][..i] == list[..i];
      if operation != Update || At(before, path) != At(after, path) {
        changes := changes + [ChangeAt(before, after, path, operation)];
      }
    }
    assert list[..|list|] == list;
  }

  /** The elements of a set, each once, in some order. */
  method ListOf(all: set<string>) returns (list: seq<string>)
    ensures Enumerates(list, all)
  {
    list := [];
    var rest := all;
    while rest != {}
      invariant rest <= all
      invariant forall p :: p in list <==> p in all - rest
      invariant forall i, j :: 0 <= i < j < |list| ==> list[i] != list[j]
    {
      var p :| p in rest;
      assert p !in list;
      ghost var before := list;
      list := list + [p];
      rest := rest - {p};
      assert forall i :: 0 <= i < |before| ==> list[i] == before[i] && list[i] in before;
    }
  }

  /** A change is emitted for exactly the listed paths whose values differ (all of them, for an
      operation other than update), with the values on both sides. */
  lemma {:induction false} ChangesAreDifferences(before: map<string, Leaf>, after: map<string, Leaf>,
                                                 paths: seq<string>,
                                                 operation: Operation, c: FieldChange)
    ensures c in ChangesOf(before, after, paths, operation) <==>
            && c.path in paths && c.operation == operation
            && c.before == (if c.path in before then before[c.path] else Null)
            && c.after == (if c.path in after then after[c.path] else Null)
            && (operation == Update ==> c.before != c.after)
    decreases |paths|
  {
    if paths != [] {
      var rest, path := paths[..|paths| - 1], paths[|paths| - 1];
      ChangesAreDifferences(before, after, rest, operation, c);
      assert paths == rest + [path];
    }
  }

  /** Along paths without repeats the changes come in the order of the paths, one for each. */
  lemma {:induction false} ChangesFollowPaths(before: map<string, Leaf>, after: map<string, Leaf>, paths: seq<string>,
                                              operation: Operation, i: nat, j: nat)
    requires forall p, q :: 0 <= p < q < |paths| ==> paths[p] != paths[q]
    requires i < j < |ChangesOf(before, after, paths, operation)|
    ensures var changes := ChangesOf(before, after, paths, operation);
            exists p, q :: 0 <= p < q < |paths| && paths[p] == changes[i].path && paths[q] == changes[j].path
    decreases |paths|
  {
    var n := |paths| - 1;
    var rest := paths[..n];
    var changes, earlier := ChangesOf(before, after, paths, operation), ChangesOf(before, after, rest, operation);
    if j < |earlier| {
      ChangesFollowPaths(before, after, rest, operation, i, j);
      var p, q :| 0 <= p < q < |rest| && rest[p] == earlier[i].path && rest[q] == earlier[j].path;
      assert paths[p] == changes[i].path && paths[q] == changes[j].path;
    } else {
      ChangesAreDifferences(before, after, rest, operation, earlier[i]);
      var p :| 0 <= p < |rest| && rest[p] == earlier[i].path;
      assert paths[p] == changes[i].path && paths[n] == changes[j].path;
    }
  }

  /** Writing the stored new (or old) value of every change over a flat record. */
  function Patch(flat: map<string, Leaf>, changes: seq<FieldChange>, forward: bool): map<string, Leaf> {
    if changes == [] then flat
    else
      var c := changes[|changes| - 1];
      Patch(flat, changes[..|changes| - 1], forward)[c.path := Stored(if forward then c.after else c.before)]
  }

  function StoredAll(flat: map<string, Leaf>): map<string, Leaf> {
    map path | path in flat :: Stored(flat[path])
  }

  /** Diff and patch undo each other: on every listed path the new values lead from the old
      record to the new one and the old values lead back; other paths are untouched. */
  lemma {:induction false} DiffThenPatch(before: map<string, Leaf>, after: map<string, Leaf>, paths: seq<string>,
                                         operation: Operation, path: string)
    ensures var changes := ChangesOf(before, after, paths, operation);
            && At(Patch(StoredAll(before), changes, true), path) ==
               Stored(At(if path in paths then after else before, path))
            && At(Patch(StoredAll(after), changes, false), path) ==
               Stored(At(if path in paths then before else after, path))
    decreases |paths|
  {
    if paths != [] {
      var rest, last := paths[..|paths| - 1], paths[|paths| - 1];
      DiffThenPatch(before, after, rest, operation, path);
      assert paths == rest + [last];
      var earlier, c := ChangesOf(before, after, rest, operation), ChangeAt(before, after, last, operation);
      PatchOneMore(StoredAll(before), earlier, c, true);
      PatchOneMore(StoredAll(after), earlier, c, false);
      hide Patch, StoredAll;
      if !Differs(before, after, last, operation) {
        assert earlier + [] == earlier;
      }
    }
  }

  lemma PatchOneMore(flat: map<string, Leaf>, changes: seq<FieldChange>, c: FieldChange, forward: bool)
    ensures Patch(flat, changes + [c], forward) ==
            Patch(flat, changes, forward)[c.path := Stored(if forward then c.after else c.before)]
  {
    var all := changes + [c];
    assert all[..|all| - 1] == changes;
  }

  /** Without a field list, the patched record agrees with the new one on every path but the
      two system timestamps, which keep their old values. */
  lemma DefaultDiffCoversAll(before: map<string, Leaf>, after: map<string, Leaf>, paths: seq<string>,
                             operation: Operation, path: string)
    requires Enumerates(paths, DefaultPaths(before, after))
    ensures At(Patch(StoredAll(before), ChangesOf(before, after, paths, operation), true), path) ==
            Stored(At(if path in {"created_at", "updated_at"} then before else after, path))
    ensures At(Patch(StoredAll(after), ChangesOf(before, after, paths, operation), false), path) ==
            Stored(At(if path in {"created_at", "updated_at"} then after else before, path))
  {
    DiffThenPatch(before, after, paths, operation, path);
  }

  /** Whatever stands under the key is an object. */
  predicate NoScalarAt(entries: seq<Entry>, key: string) {
    forall e :: e in entries && e.key == key ==> e.value.Object?
  }

  /** A key that holds an object is no flattened path. */
  lemma ObjectIsNoPath(entries: seq<Entry>, key: string)
    requires IsRecord(entries) && DotFree(entries) && Anchored("", entries) && '.' !in key && NoScalarAt(entries, key)
    ensures key !in Flatten(entries, "")
  {
    if key in Flatten(entries, "") {
      var keys := FlattenSound(entries, "", key);
      UnderIsDotted("", keys);
      DotsSeparate(keys);
      var i := LookupEnters(entries, keys);
    }
  }

  /** A field list only sees flattened leaf paths.  Naming a nested object (or nothing at all)
      records nothing on an update; on any other operation it records a change from null to
      null, and no other change at that path. */
  lemma NestedFieldRecordsNothing(before: seq<Entry>, after: seq<Entry>, field: string, paths: seq<string>,
                                  operation: Operation)
    requires IsRecord(before) && DotFree(before) && Anchored("", before) && NoScalarAt(before, field)
    requires IsRecord(after) && DotFree(after) && Anchored("", after) && NoScalarAt(after, field)
    requires '.' !in field
    ensures var changes := ChangesOf(Flatten(before, ""), Flatten(after, ""), paths, operation);
            && (forall c :: c in changes && c.path == field ==> c == FieldChange(field, operation, Null, Null))
            && ((exists c :: c in changes && c.path == field) <==> field in paths && operation != Update)
    ensures ChangesOf(Flatten(before, ""), Flatten(after, ""), [field], operation) ==
            if operation == Update then [] else [FieldChange(field, operation, Null, Null)]
  {
    ObjectIsNoPath(before, field);
    ObjectIsNoPath(after, field);
    var b, a := Flatten(before, ""), Flatten(after, "");
    hide Flatten;
    forall c: FieldChange | c.path == field
      ensures c in ChangesOf(b, a, paths, operation) <==>
              field in paths && operation != Update && c == FieldChange(field, operation, Null, Null)
    {
      ChangesAreDifferences(b, a, paths, operation, c);
    }
    assert FieldChange(field, operation, Null, Null).path == field;
    assert [field][..0] == [];
  }
}
