/** A/B tests of a campaign: completing the variants to 100 percent and splitting the
    shuffled users into one slice per variant. */
module CampaignSplit {
  import opened Wrappers

  type TemplateId = nat
  type UserId = nat

  datatype Variant = Variant(name: string, template: TemplateId, percentage: int)
  datatype Config = Config(enabled: bool, variants: seq<Variant>)
  datatype Error = NoVariant | Above100 | DuplicateTemplate | InactiveTemplate
  datatype Result<+T> = Ok(value: T) | Err(error: Error)
  function Total(variants: seq<Variant>): int {
    if variants == [] then 0 else Total(variants[..|variants| - 1]) + variants[|variants| - 1].percentage
  }

  predicate DistinctTemplates(variants: seq<Variant>) {
    forall i, j :: 0 <= i < j < |variants| ==> variants[i].template != variants[j].template
  }

  lemma {:induction false} TotalAppend(variants: seq<Variant>, v: Variant)
    ensures Total(variants + [v]) == Total(variants) + v.percentage
    ensures Total([]) == 0
  {
    var all := variants + [v];
    assert all[..|all| - 1] == variants;
  }

  lemma TotalOfNone()
    ensures Total([]) == 0
  {
  }

  /** Checks the variants, in this order, and completes them: an accepted A/B test keeps the requested variants
      in order, adds at most the default template, and its percentages sum to exactly 100. */
  method PrepareAbTest(enabled: bool, requested: seq<Variant>, defaultTemplate: TemplateId, active: set<TemplateId>)
    returns (r: Result<Config>)
    ensures !enabled ==> r == Ok(Config(false, []))
    ensures r == Err(NoVariant) <==> enabled && requested == []
    ensures r == Err(Above100) <==> enabled && Total(requested) > 100
    ensures r == Err(DuplicateTemplate) <==>
              && enabled && Total(requested) <= 100
              && exists i, j :: 0 <= i < j < |requested| && requested[i].template == requested[j].template
    ensures r == Err(InactiveTemplate) <==>
              && enabled && Total(requested) <= 100
              && (forall i, j :: 0 <= i < j < |requested| ==> requested[i].template != requested[j].template)
              && exists v :: v in requested && v.template !in active
    ensures enabled && r.Ok? ==>
              && r.value.enabled && Total(r.value.variants) == 100
              && requested <= r.value.variants
              && (|r.value.variants| == |requested| <==> Total(requested) == 100)
              && (|r.value.variants| > |requested| ==>
                    r.value.variants[|requested|..] == [Variant("Default", defaultTemplate, 100 - Total(requested))])
  {
    hide Total;
    TotalOfNone();
    if !enabled {
      return Ok(Config(false, []));
    }
    if |requested| < 1 {
      return Err(NoVariant);
    }
    var total := 0;
    TotalAppend([], requested[0]);
    assert requested[..0] == [];
    for i := 0 to |requested|
      invariant total == Total(requested[..i])
    {
      TotalAppend(requested[..i], requested[i]);
      assert requested[..i + 1] == requested[..i] + [requested[i]];
      total := total + requested[i].percentage;
    }
    assert requested[..|requested|] == requested;
    if total > 100 {
      return Err(Above100);
    }
    if !DistinctTemplates(requested) {
      return Err(DuplicateTemplate);
    }
    if exists v :: v in requested && v.template !in active {
      return Err(InactiveTemplate);
    }
    var variants := requested;
    if total < 100 {
      TotalAppend(variants, Variant("Default", defaultTemplate, 100 - total));
      variants := variants + [Variant("Default", defaultTemplate, 100 - total)];
    }
    r := Ok(Config(true, variants));
  }

  // The split

  datatype Recipient = Recipient(user: UserId, variant: Option<TemplateId>)

  /** How many of the users a variant gets: its percentage, rounded down. */
  function Share(users: nat, v: Variant): nat
    requires v.percentage >= 0
  {
    users * v.percentage / 100
  }

  predicate NonNegative(variants: seq<Variant>) {
    forall v :: v in variants ==> v.percentage >= 0
  }

  /** Where the slice after the given variants starts. */
  function Offset(users: nat, variants: seq<Variant>): nat
    requires NonNegative(variants)
  {
    if variants == [] then 0
    else Offset(users, variants[..|variants| - 1]) + Share(users, variants[|variants| - 1])
  }

  lemma {:induction false} OffsetBounds(users: nat, variants: seq<Variant>)
    requires NonNegative(variants)
    ensures 0 <= Total(variants)
    ensures 100 * Offset(users, variants) <= users * Total(variants) <= 100 * Offset(users, variants) + 99 * |variants|
  {
    if variants != [] {
      var rest, v := variants[..|variants| - 1], variants[|variants| - 1];
      OffsetBounds(users, rest);
      assert users * (Total(rest) + v.percentage) == users * Total(rest) + users * v.percentage;
    }
  }

  lemma {:induction false} PrefixTotal(variants: seq<Variant>, k: nat)
    requires NonNegative(variants) && k <= |variants|
    ensures Total(variants[..k]) <= Total(variants)
    decreases |variants|
  {
    if k < |variants| {
      var rest := variants[..|variants| - 1];
      assert rest[..k] == variants[..k];
      assert variants[|variants| - 1] in variants;
      PrefixTotal(rest, k);
    } else {
      assert variants[..k] == variants;
    }
  }

  lemma ScaleUp(users: nat, a: int, b: int)
    requires a <= b
    ensures users * a <= users * b
  {
  }

  /** The slices fit: variant `k` starts where the one before ends, and none reaches past the
      last user. */
  lemma OffsetFits(users: nat, variants: seq<Variant>, k: nat)
    requires NonNegative(variants) && Total(variants) <= 100 && k <= |variants|
    ensures Offset(users, variants[..k]) <= users
    ensures k > 0 ==> variants[k - 1] in variants
    ensures k > 0 ==> Offset(users, variants[..k]) == Offset(users, variants[..k - 1]) + Share(users, variants[k - 1])
  {
    if k > 0 {
      assert variants[k - 1] in variants && variants[..k][..k - 1] == variants[..k - 1];
    }
    hide Total, Offset;
    PrefixTotal(variants, k);
    OffsetBounds(users, variants[..k]);
    ScaleUp(users, Total(variants[..k]), 100);
  }

  /** With percentages that sum to 100, fewer users than variants are left without one. */
  lemma FewUnassigned(users: nat, variants: seq<Variant>)
    requires NonNegative(variants) && Total(variants) == 100
    ensures users - |variants| < Offset(users, variants) <= users
  {
    OffsetBounds(users, variants);
    assert variants != [];
  }

  lemma {:induction false} RemaindersAreDropped(users: nat, variants: seq<Variant>)
    requires NonNegative(variants)
    ensures 100 * Offset(users, variants) <= users * Total(variants)
    ensures 100 * Offset(users, variants) == users * Total(variants) <==>
            forall v :: v in variants ==> users * v.percentage % 100 == 0
  {
    if variants != [] {
      var rest, v := variants[..|variants| - 1], variants[|variants| - 1];
      RemaindersAreDropped(users, rest);
      assert variants == rest + [v];
      assert users * (Total(rest) + v.percentage) == users * Total(rest) + users * v.percentage;
    }
  }

  /** Every user gets a variant exactly when no share has to be rounded down. */
  lemma AllAssigned(users: nat, variants: seq<Variant>)
    requires NonNegative(variants) && Total(variants) == 100
    ensures Offset(users, variants) == users <==> forall v :: v in variants ==> users * v.percentage % 100 == 0
  {
    RemaindersAreDropped(users, variants);
  }

  /** One user and two halves: nobody is assigned. */
  lemma RoundingDropsUsers()
    ensures var halves := [Variant("A", 1, 50), Variant("B", 2, 50)];
            Total(halves) == 100 && Offset(1, halves) == 0
  {
    var halves := [Variant("A", 1, 50), Variant("B", 2, 50)];
    assert halves[..1] == [halves[0]] && halves[..1][..0] == [];
  }

  /** Variant `k` has exactly the users of its slice: from its offset, as many as its share. */
  ghost predicate HasSlice(recipients: seq<Recipient>, shuffled: seq<UserId>, variants: seq<Variant>, k: nat)
    requires NonNegative(variants) && k < |variants|
  {
    assert variants[k] in variants;
    var start, count := Offset(|shuffled|, variants[..k]), Share(|shuffled|, variants[k]);
    && start + count <= |shuffled| && start + count <= |recipients|
    && forall i :: start <= i < start + count ==> recipients[i] == Recipient(shuffled[i], Some(variants[k].template))
  }

  /** One recipient per user without an A/B test.  With one, variant `k` gets exactly the slice
      of the shuffled users between its offsets, and those are all recipients. */
  method InsertRecipients(users: seq<UserId>, shuffled: seq<UserId>,
                          abTest: Config) returns (recipients: seq<Recipient>)
    requires multiset(shuffled) == multiset(users)
    requires NonNegative(abTest.variants) && Total(abTest.variants) <= 100
    ensures !abTest.enabled || abTest.variants == [] ==>
              |recipients| == |users| && forall i :: 0 <= i < |users| ==> recipients[i] == Recipient(users[i], None)
    ensures abTest.enabled && abTest.variants != [] ==>
              && |recipients| == Offset(|users|, abTest.variants) <= |shuffled| == |users|
              && (forall i :: 0 <= i < |recipients| ==> recipients[i].user == shuffled[i])
              && forall k :: 0 <= k < |abTest.variants| ==> HasSlice(recipients, shuffled, abTest.variants, k)
  {
    hide Offset, Share, Total;
    var n := |shuffled|;
    assert n == |users| by {
      assert |multiset(users)| == |multiset(shuffled)|;
    }
    ghost var vs := abTest.variants;
    assert vs[..|vs|] == vs;
    OffsetFits(n, vs, |vs|);
    if users == [] {
      forall k | 0 <= k < |vs|
        ensures HasSlice([], shuffled, vs, k)
      {
        OffsetFits(n, vs, k);
        OffsetFits(n, vs, k + 1);
      }
      return [];
    }
    recipients := [];
    if abTest.enabled && abTest.variants != [] {
      var start := 0;
      assert vs[..0] == [];
      NoOffset(n);
      for k := 0 to |abTest.variants|
        invariant start == Offset(n, vs[..k]) == |recipients| <= n
        invariant forall i :: 0 <= i < |recipients| ==> recipients[i].user == shuffled[i]
        invariant forall j :: 0 <= j < k ==> HasSlice(recipients, shuffled, vs, j)
      {
        var variant := abTest.variants[k];
        OffsetFits(n, vs, k + 1);
        var count := Share(n, variant);
        var chunk := shuffled[start..start + count];
        ghost var before := recipients;
        recipients := recipients + seq(|chunk|,
            i requires 0 <= i < |chunk| => Recipient(chunk[i], Some(variant.template)));
        start := start + count;
        assert HasSlice(recipients, shuffled, vs, k);
        forall j | 0 <= j < k
          ensures HasSlice(recipients, shuffled, vs, j)
        {
          SliceStays(before, recipients, shuffled, vs, j);
        }
      }
    } else {
      recipients := seq(|users|, i requires 0 <= i < |users| => Recipient(users[i], None));
    }
  }

  lemma SliceStays(before: seq<Recipient>, after: seq<Recipient>, shuffled: seq<UserId>, variants: seq<Variant>, k: nat)
    requires NonNegative(variants) && k < |variants|
    requires before <= after && HasSlice(before, shuffled, variants, k)
    ensures HasSlice(after, shuffled, variants, k)
  {
  }

  lemma NoOffset(users: nat)
    ensures Offset(users, []) == 0
  {
  }

  /** Slices of different variants do not overlap. */
  lemma {:induction false} SlicesAreDisjoint(users: nat, variants: seq<Variant>, j: nat, k: nat)
    requires NonNegative(variants) && j < k < |variants|
    ensures variants[j] in variants
    ensures Offset(users, variants[..j]) + Share(users, variants[j]) <= Offset(users, variants[..k])
    decreases k
  {
    assert variants[j] in variants;
    assert variants[..k][..k - 1] == variants[..k - 1];
    assert variants[..k][k - 1] in variants;
    if j + 1 < k {
      SlicesAreDisjoint(users, variants, j, k - 1);
    }
  }
}
