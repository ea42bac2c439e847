/** Edit distance between two strings: edit scripts, the recursive distance on
    prefixes, and the proof that the distance is the cost of a cheapest script
    and a metric.  `Offers` computes it with two rows. */
module EditDistance {
  import opened Wrappers

  /** One step of an edit script.  A script is read alongside the source string;
      its last edit concerns the last characters of source and target. */
  datatype Edit = Keep | Substitute(c: char) | Insert(c: char) | Delete

  function Init<T>(s: seq<T>): seq<T>
    requires s != []
  {
    s[..|s| - 1]
  }

  function Last<T>(s: seq<T>): T
    requires s != []
  {
    s[|s| - 1]
  }

  /** The string a script turns `s` into, or None when the script does not fit `s`. */
  function Run(script: seq<Edit>, s: string): Option<string>
    decreases |script|
  {
    if script == [] then
      if s == "" then Some("") else None
    else
      var e, rest := Last(script), Init(script);
      if e.Insert? then Append(Run(rest, s), [e.c])
      else if s == "" then None
      else if e.Delete? then Run(rest, Init(s))
      else Append(Run(rest, Init(s)), [if e.Keep? then Last(s) else e.c])
  }

  function Append(prefix: Option<string>, suffix: string): Option<string> {
    match prefix
    case None => None
    case Some(p) => Some(p + suffix)
  }

  /** Every edit but Keep costs one. */
  function Cost(script: seq<Edit>): nat {
    if script == [] then 0
    else Cost(Init(script)) + if Last(script) == Keep then 0 else 1
  }

  function Mismatch(a: char, b: char): nat {
    if a == b then 0 else 1
  }

  function Min(a: nat, b: nat): nat {
    if a <= b then a else b
  }

  function Max(a: nat, b: nat): nat {
    if a <= b then b else a
  }

  /** The cheapest way to reach a pair of prefixes that end in `a` and `b`: insert `b`,
      delete `a`, or match the two. */
  function Best(insert: nat, delete: nat, match_: nat, a: char, b: char): nat {
    Min(Min(insert + 1, delete + 1), match_ + Mismatch(a, b))
  }

  /** The distance between two strings, by their last characters. */
  function Distance(s: string, t: string): nat
    decreases |s| + |t|
  {
    if s == "" then |t|
    else if t == "" then |s|
    else Best(Distance(s, Init(t)), Distance(Init(s), t), Distance(Init(s), Init(t)), Last(s), Last(t))
  }

  lemma Recurrence(s: string, t: string)
    requires s != "" && t != ""
    ensures Distance(s, t) ==
            Best(Distance(s, Init(t)), Distance(Init(s), t), Distance(Init(s), Init(t)), Last(s), Last(t))
  {
    hide Best;
  }

  /** No script is cheaper than the distance. */
  lemma {:induction false} NoCheaperScript(script: seq<Edit>, s: string, t: string)
    requires Run(script, s) == Some(t)
    ensures Distance(s, t) <= Cost(script)
    decreases |script|
  {
    if script != [] {
      var rest := Init(script);
      match Last(script)
      case Insert(c) =>
        NoCheaperScript(rest, s, Init(t));
        OneMoreCharacter(s, t);
      case Keep =>
        NoCheaperScript(rest, Init(s), Init(t));
      case Substitute(c) =>
        NoCheaperScript(rest, Init(s), Init(t));
      case Delete =>
        NoCheaperScript(rest, Init(s), t);
        Symmetric(s, t);
        Symmetric(Init(s), t);
        OneMoreCharacter(t, s);
    }
  }

  lemma OneMoreCharacter(s: string, t: string)
    requires t != ""
    ensures Distance(s, t) <= Distance(s, Init(t)) + 1
  {
  }

  /** A script that costs exactly the distance. */
  lemma {:induction false} CheapestScript(s: string, t: string) returns (script: seq<Edit>)
    ensures Run(script, s) == Some(t)
    ensures Cost(script) == Distance(s, t)
    decreases |s| + |t|
  {
    if s == "" && t == "" {
      script := [];
    } else if t != "" && Distance(s, t) == Distance(s, Init(t)) + 1 {
      var rest := CheapestScript(s, Init(t));
      script := rest + [Insert(Last(t))];
      assert Init(script) == rest && t == Init(t) + [Last(t)];
    } else if s != "" && Distance(s, t) == Distance(Init(s), t) + 1 {
      var rest := CheapestScript(Init(s), t);
      script := rest + [Delete];
      assert Init(script) == rest;
    } else {
      var rest := CheapestScript(Init(s), Init(t));
      script := rest + [if Last(s) == Last(t) then Keep else Substitute(Last(t))];
      assert Init(script) == rest && t == Init(t) + [Last(t)];
    }
  }

  /** The distance is the minimum cost over all scripts from `s` to `t`. */
  lemma DistanceIsOptimal(s: string, t: string)
    ensures exists script :: Run(script, s) == Some(t) && Cost(script) == Distance(s, t)
    ensures forall script :: Run(script, s) == Some(t) ==> Distance(s, t) <= Cost(script)
  {
    var best := CheapestScript(s, t);
    forall script | Run(script, s) == Some(t)
      ensures Distance(s, t) <= Cost(script)
    {
      NoCheaperScript(script, s, t);
    }
  }

  /** The script works and no other one that works is cheaper. */
  ghost predicate IsCheapest(script: seq<Edit>, s: string, t: string) {
    Run(script, s) == Some(t) && forall other :: Run(other, s) == Some(t) ==> Cost(script) <= Cost(other)
  }

  lemma CheapestCostsDistance(script: seq<Edit>, s: string, t: string)
    requires IsCheapest(script, s, t)
    ensures Cost(script) == Distance(s, t)
  {
    hide Run, Cost, Distance;
    var best := CheapestScript(s, t);
    NoCheaperScript(script, s, t);
  }

  lemma {:induction false} Symmetric(s: string, t: string)
    ensures Distance(s, t) == Distance(t, s)
    decreases |s| + |t|
  {
    if s != "" && t != "" {
      Symmetric(s, Init(t));
      Symmetric(Init(s), t);
      Symmetric(Init(s), Init(t));
    }
  }

  /** At least the difference of the lengths, at most the larger length. */
  lemma {:induction false} LengthBounds(s: string, t: string)
    ensures |s| <= |t| + Distance(s, t) && |t| <= |s| + Distance(s, t)
    ensures Distance(s, t) <= Max(|s|, |t|)
    decreases |s| + |t|
  {
    if s != "" && t != "" {
      LengthBounds(s, Init(t));
      LengthBounds(Init(s), t);
      LengthBounds(Init(s), Init(t));
    }
  }

  lemma {:induction false} ZeroIffEqual(s: string, t: string)
    ensures Distance(s, t) == 0 <==> s == t
    decreases |s| + |t|
  {
    if s != "" && t != "" {
      ZeroIffEqual(Init(s), Init(t));
      assert s == Init(s) + [Last(s)] && t == Init(t) + [Last(t)];
    }
  }

  function Keeps(script: seq<Edit>): nat {
    if script == [] then 0 else Keeps(Init(script)) + if Last(script) == Keep then 1 else 0
  }

  function Deletes(script: seq<Edit>): nat {
    if script == [] then 0 else Deletes(Init(script)) + if Last(script) == Delete then 1 else 0
  }

  /** Every character of the target that is not kept is paid for, and so is every deletion. */
  lemma {:induction false} CostAccount(script: seq<Edit>, s: string, t: string)
    requires Run(script, s) == Some(t)
    ensures Cost(script) == |t| - Keeps(script) + Deletes(script)
    decreases |script|
  {
    if script != [] {
      var rest := Init(script);
      match Last(script)
      case Insert(c) => CostAccount(rest, s, Init(t));
      case Keep => CostAccount(rest, Init(s), Init(t));
      case Substitute(c) => CostAccount(rest, Init(s), Init(t));
      case Delete => CostAccount(rest, Init(s), t);
    }
  }

  /** The distance is as large as it can be exactly when no script from the shorter text to the
      longer one keeps more characters than it deletes. */
  lemma LargestDistance(s: string, t: string)
    requires |s| <= |t|
    ensures Distance(s, t) == |t| <==> forall script :: Run(script, s) == Some(t) ==> Keeps(script) <= Deletes(script)
  {
    hide Run, Cost, Keeps, Deletes, Distance;
    LengthBounds(s, t);
    var best := CheapestScript(s, t);
    CostAccount(best, s, t);
    forall script | Run(script, s) == Some(t)
      ensures Distance(s, t) <= |t| - Keeps(script) + Deletes(script)
    {
      NoCheaperScript(script, s, t);
      CostAccount(script, s, t);
    }
  }

  lemma FromEmpty(s: string, t: string)
    ensures s == "" ==> Distance(s, t) == |t|
    ensures t == "" ==> Distance(s, t) == |s|
  {
  }

  lemma {:induction false} Triangle(a: string, b: string, c: string)
    ensures Distance(a, c) <= Distance(a, b) + Distance(b, c)
    decreases |a| + |b| + |c|
  {
    hide Distance;
    FromEmpty(a, b);
    FromEmpty(a, c);
    FromEmpty(b, c);
    if a == "" {
      LengthBounds(b, c);
    } else if c == "" {
      LengthBounds(a, b);
    } else if b == "" {
      LengthBounds(a, c);
    } else {
      Recurrence(a, b);
      Recurrence(b, c);
      Recurrence(a, c);
      if Distance(a, b) == Distance(Init(a), b) + 1 {
        Triangle(Init(a), b, c);
      } else if Distance(b, c) == Distance(b, Init(c)) + 1 {
        Triangle(a, b, Init(c));
      } else if Distance(a, b) == Distance(a, Init(b)) + 1 {
        if Distance(b, c) == Distance(Init(b), c) + 1 {
          Triangle(a, Init(b), c);
        } else {
          Triangle(a, Init(b), Init(c));
        }
      } else if Distance(b, c) == Distance(Init(b), c) + 1 {
        Triangle(Init(a), Init(b), c);
      } else {
        Triangle(Init(a), Init(b), Init(c));
      }
    }
  }
}
