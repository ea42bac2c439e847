/** Which recipients marked as sent got their bot message.  The handler marks a recipient as sent
    whenever the messenger's call comes back, so the answer lies in what came of that call. */
module CampaignMessages {
  import opened CampaignWorkers

  /** A send call for the recipient that comes back without having delivered. */
  predicate LosesMessage(s: State, step: Step, r: RecipientId) {
    && step.Run? && step.w in s.workers && s.workers[step.w].job.recipient == r
    && s.workers[step.w].pc == Deliver(Bot) && step.answer == Swallowed(false)
  }

  predicate NothingLost(s: State, steps: seq<Step>, r: RecipientId)
    decreases |steps|
  {
    steps == [] || (!LosesMessage(s, steps[0], r) && NothingLost(Exec(s, steps[0]), steps[1..], r))
  }

  /** The worker has read the delivery method of its campaign and goes by it. */
  predicate HasRead(pc: Pc) {
    pc.MarkSending? || pc.Claim? || pc.LoadUser? || pc.LoadTemplate? || pc.Deliver?
  }

  ghost predicate ReadsRight(s: State, worker: Worker) {
    HasRead(worker.pc) ==>
      && worker.job.campaign in s.usedCampaigns
      && (worker.job.campaign in s.db.campaigns ==> s.db.campaigns[worker.job.campaign].delivery == worker.pc.delivery)
  }

  ghost predicate AllReadRight(s: State) {
    forall w :: w in s.workers ==> ReadsRight(s, s.workers[w])
  }

  ghost predicate IsBot(s: State, c: CampaignId) {
    c in s.db.campaigns && s.db.campaigns[c].delivery == Bot
  }

  /** With `kept` for "no send call for the recipient came back without delivering": what a
      worker of the recipient knows of the message. */
  ghost predicate WorkerKnows(s: State, worker: Worker, r: RecipientId, kept: bool) {
    worker.job.recipient == r && r in s.sends ==>
      && (worker.pc.LoadUser? || worker.pc.LoadTemplate? || worker.pc.Deliver? ==> kept)
      && (worker.pc.MarkSent? && IsBot(s, worker.job.campaign) ==> (s.sends[r] == 1 <==> kept))
  }

  ghost predicate WorkersKnow(s: State, r: RecipientId, kept: bool) {
    forall w :: w in s.workers ==> WorkerKnows(s, s.workers[w], r, kept)
  }

  ghost predicate NothingYet(s: State, r: RecipientId) {
    r !in s.sends || (r in s.db.recipients && s.db.recipients[r].status == Pending)
  }

  ghost predicate RecipientTells(s: State, r: RecipientId, kept: bool) {
    r in s.db.recipients && s.db.recipients[r].status == Sent && IsBot(s, s.db.recipients[r].campaign) ==>
      r in s.sends && (s.sends[r] == 1 <==> kept)
  }

  ghost predicate MessageKnown(s: State, r: RecipientId, kept: bool) {
    && AllReadRight(s) && WorkersKnow(s, r, kept) && RecipientTells(s, r, kept)
    && (NothingYet(s, r) ==> kept)
  }

  // A statement of a worker

  lemma RunKeepsDelivery(s: State, w: WorkerId, answer: Answer)
    requires w in s.workers
    ensures var t := RunStep(s, w, answer);
            && t.db.campaigns.Keys == s.db.campaigns.Keys
            && forall c :: c in s.db.campaigns ==> t.db.campaigns[c].delivery == s.db.campaigns[c].delivery
  {
  }

  lemma RunReadsRight(s: State, w: WorkerId, answer: Answer)
    requires w in s.workers && ReadsRight(s, s.workers[w]) && IdsUsed(s)
    ensures var t := RunStep(s, w, answer);
            w in t.workers && t.usedCampaigns == s.usedCampaigns && ReadsRight(s, t.workers[w])
  {
  }

  /** Where a worker comes from that has claimed, or has sent. */
  lemma RunComesFrom(s: State, w: WorkerId, answer: Answer)
    requires w in s.workers
    ensures var t, pc := RunStep(s, w, answer), s.workers[w].pc;
            && w in t.workers
            && (t.workers[w].pc.LoadTemplate? || t.workers[w].pc.Deliver? ==> pc.LoadUser? || pc.LoadTemplate?)
            && (t.workers[w].pc.MarkSent? ==> pc.Deliver?)
            && (pc.Deliver? && pc.delivery != Bot ==> t.sends == s.sends)
  {
  }

  lemma BotDelivers(s: State, w: WorkerId, answer: Answer)
    requires w in s.workers && s.workers[w].pc == Deliver(Bot)
    ensures var t := RunStep(s, w, answer);
            && w in t.workers && t.db == s.db
            && (t.workers[w].pc.MarkSent? ==>
                  t.sends == if answer == Swallowed(false) then s.sends
                      else CountSend(s, s.workers[w].job.recipient).sends)
            && (answer == Swallowed(false) ==> t.workers[w].pc.MarkSent? && t.sends == s.sends)
  {
  }

  lemma RunKeepsReads(s: State, w: WorkerId, answer: Answer)
    requires Inv(s) && AllReadRight(s) && w in s.workers
    ensures AllReadRight(RunStep(s, w, answer))
  {
    hide RunStep;
    RunHasEffect(s, w, answer);
    RunKeepsDelivery(s, w, answer);
    RunReadsRight(s, w, answer);
    var t := RunStep(s, w, answer);
    forall v | v in t.workers
      ensures ReadsRight(t, t.workers[v])
    {
      assert v in s.workers && ReadsRight(s, s.workers[v]);
    }
  }

  lemma OwnWorkerKnows(s: State, w: WorkerId, answer: Answer, r: RecipientId, kept: bool)
    requires Inv(s) && MessageKnown(s, r, kept) && w in s.workers && s.workers[w].job.recipient == r
    ensures var t := RunStep(s, w, answer);
            w in t.workers && WorkerKnows(t, t.workers[w], r, kept && !LosesMessage(s, Run(w, answer), r))
  {
    hide RunStep, Inv;
    RunHasEffect(s, w, answer);
    RunKeepsDelivery(s, w, answer);
    RunComesFrom(s, w, answer);
    InvOwns(s, w);
    assert ReadsRight(s, s.workers[w]) && WorkerKnows(s, s.workers[w], r, kept);
    if s.workers[w].pc == Deliver(Bot) {
      BotDelivers(s, w, answer);
    }
  }

  lemma InvOwns(s: State, w: WorkerId)
    requires Inv(s) && w in s.workers
    ensures HolderOwns(s, s.workers[w]) && IdsUsed(s)
  {
  }

  /** Nobody else holds the recipient a worker holds. */
  lemma InvHoldsAlone(s: State, v: WorkerId, w: WorkerId)
    requires Inv(s) && v in s.workers && w in s.workers && v != w && Holds(s.workers[v].pc) && Holds(s.workers[w].pc)
    ensures s.workers[v].job.recipient != s.workers[w].job.recipient
  {
  }

  lemma OtherWorkerKnows(s: State, w: WorkerId, answer: Answer, v: WorkerId, r: RecipientId, kept: bool)
    requires Inv(s) && MessageKnown(s, r, kept) && w in s.workers && v in s.workers && v != w
    ensures var t := RunStep(s, w, answer);
            v in t.workers && WorkerKnows(t, t.workers[v], r, kept && !LosesMessage(s, Run(w, answer), r))
  {
    hide RunStep, Inv;
    RunHasEffect(s, w, answer);
    RunKeepsDelivery(s, w, answer);
    InvOwns(s, v);
    assert WorkerKnows(s, s.workers[v], r, kept);
    if Holds(s.workers[v].pc) && Holds(s.workers[w].pc) {
      InvHoldsAlone(s, v, w);
    }
  }

  lemma RunKeepsTold(s: State, w: WorkerId, answer: Answer, r: RecipientId, kept: bool)
    requires Inv(s) && MessageKnown(s, r, kept) && w in s.workers
    ensures var t, known := RunStep(s, w, answer), kept && !LosesMessage(s, Run(w, answer), r);
            RecipientTells(t, r, known) && (NothingYet(t, r) ==> known)
  {
    hide RunStep, Inv;
    RunHasEffect(s, w, answer);
    RunKeepsDelivery(s, w, answer);
    InvOwns(s, w);
    assert WorkerKnows(s, s.workers[w], r, kept);
  }

  lemma RunKeepsMessage(s: State, w: WorkerId, answer: Answer, r: RecipientId, kept: bool)
    requires Inv(s) && MessageKnown(s, r, kept) && w in s.workers
    ensures MessageKnown(RunStep(s, w, answer), r, kept && !LosesMessage(s, Run(w, answer), r))
  {
    RunKeepsReads(s, w, answer);
    RunKeepsTold(s, w, answer, r, kept);
    RunKeepsWorkers(s, w, answer);
    hide RunStep, Inv, WorkerKnows, LosesMessage;
    var t := RunStep(s, w, answer);
    forall v | v in t.workers
      ensures WorkerKnows(t, t.workers[v], r, kept && !LosesMessage(s, Run(w, answer), r))
    {
      if v != w {
        OtherWorkerKnows(s, w, answer, v, r, kept);
      } else if s.workers[w].job.recipient == r {
        OwnWorkerKnows(s, w, answer, r, kept);
      } else {
        StrangersKnow(t, t.workers[v], r, kept && !LosesMessage(s, Run(w, answer), r));
      }
    }
  }

  lemma RunKeepsWorkers(s: State, w: WorkerId, answer: Answer)
    requires w in s.workers
    ensures var t := RunStep(s, w, answer);
            t.workers.Keys == s.workers.Keys && t.workers[w].job == s.workers[w].job
  {
    hide RunStep;
    RunHasEffect(s, w, answer);
  }

  lemma StrangersKnow(s: State, worker: Worker, r: RecipientId, kept: bool)
    requires worker.job.recipient != r
    ensures WorkerKnows(s, worker, r, kept)
  {
  }

  // The other steps

  lemma QuietKeepsDelivery(s: State, step: Step)
    requires !step.Run? && !step.Create?
    ensures var t := Exec(s, step);
            forall c :: c in t.db.campaigns ==>
              c in s.db.campaigns && t.db.campaigns[c].delivery == s.db.campaigns[c].delivery
  {
  }

  lemma QuietKeepsMessage(s: State, t: State, r: RecipientId, kept: bool)
    requires QuietEffect(s, t) && MessageKnown(s, r, kept)
    requires forall c :: c in t.db.campaigns ==>
               c in s.db.campaigns && t.db.campaigns[c].delivery == s.db.campaigns[c].delivery
    ensures MessageKnown(t, r, kept)
  {
    forall w | w in t.workers
      ensures ReadsRight(t, t.workers[w]) && WorkerKnows(t, t.workers[w], r, kept)
    {
      if w in s.workers {
        assert ReadsRight(s, s.workers[w]) && WorkerKnows(s, s.workers[w], r, kept);
      }
    }
  }

  lemma CreateKeepsMessage(s: State, c: CampaignId, campaign: Campaign, recipients: set<RecipientId>, r: RecipientId,
                           kept: bool)
    requires Inv(s) && MessageKnown(s, r, kept)
    ensures MessageKnown(CreateStep(s, c, campaign, recipients), r, kept)
  {
    var t := CreateStep(s, c, campaign, recipients);
    CreateKeepsWorkers(s, c, campaign, recipients);
    if t != s {
      forall w | w in t.workers
        ensures ReadsRight(t, t.workers[w]) && WorkerKnows(t, t.workers[w], r, kept)
      {
        InvOwns(s, w);
        assert ReadsRight(s, s.workers[w]) && WorkerKnows(s, s.workers[w], r, kept);
      }
    }
  }

  lemma ExecKeepsMessage(s: State, step: Step, r: RecipientId, kept: bool)
    requires Inv(s) && MessageKnown(s, r, kept)
    ensures MessageKnown(Exec(s, step), r, kept && !LosesMessage(s, step, r))
  {
    hide RunStep, CreateStep, Inv, MessageKnown;
    if step.Run? {
      if step.w in s.workers {
        RunKeepsMessage(s, step.w, step.answer, r, kept);
      }
    } else if step.Create? {
      CreateKeepsMessage(s, step.c, step.campaign, step.recipients, r, kept);
    } else {
      OtherHasEffect(s, step);
      QuietKeepsDelivery(s, step);
      QuietKeepsMessage(s, Exec(s, step), r, kept);
    }
  }

  lemma {:induction false} RunsKeepMessage(s: State, steps: seq<Step>, r: RecipientId, kept: bool)
    requires Inv(s) && MessageKnown(s, r, kept)
    ensures MessageKnown(ExecAll(s, steps), r, kept && NothingLost(s, steps, r))
    decreases |steps|
  {
    hide Inv, MessageKnown, LosesMessage, Exec;
    if steps != [] {
      ExecKeepsInv(s, steps[0]);
      ExecKeepsMessage(s, steps[0], r, kept);
      RunsKeepMessage(Exec(s, steps[0]), steps[1..], r, kept && !LosesMessage(s, steps[0], r));
    }
  }

  lemma NothingKnownYet(r: RecipientId)
    ensures Inv(INITIAL) && MessageKnown(INITIAL, r, true)
  {
  }

  /** In every run: a recipient of a bot campaign that is marked as sent got its message, exactly
      one, if and only if no send call for it came back without delivering. */
  lemma SentGotMessage(steps: seq<Step>, r: RecipientId)
    ensures var s := ExecAll(INITIAL, steps);
            r in s.db.recipients && s.db.recipients[r].status == Sent && IsBot(s, s.db.recipients[r].campaign) ==>
              r in s.sends && (s.sends[r] == 1 <==> NothingLost(INITIAL, steps, r))
  {
    hide NothingLost, ExecAll;
    NothingKnownYet(r);
    RunsKeepMessage(INITIAL, steps, r, true);
  }

  lemma {:induction false} ExecInTwo(s: State, one: seq<Step>, two: seq<Step>)
    ensures ExecAll(s, one + two) == ExecAll(ExecAll(s, one), two)
    decreases |one|
  {
    hide Exec;
    if one == [] {
      assert one + two == two;
    } else {
      assert (one + two)[1..] == one[1..] + two;
      ExecInTwo(Exec(s, one[0]), one[1..], two);
    }
  }

  function OneBotJob(status: CampaignStatus, recipient: RecipientStatus, pc: Pc): State {
    State(Db(map[0 := Campaign(status, Bot)], map[7 := Recipient(0, recipient)]),
          map[1 := Worker(Job(0, 7), pc)], {0}, map[7 := 0])
  }

  lemma OneJobStarts()
    ensures ExecAll(INITIAL, [Create(0, Campaign(Queued, Bot), {7}), Spawn(1, Job(0, 7))]) ==
            OneBotJob(Queued, Pending, Start)
  {
  }

  lemma OneJobClaims()
    ensures ExecAll(OneBotJob(Queued, Pending, Start), [Run(1, Found), Run(1, Found), Run(1, Found)]) ==
            OneBotJob(Sending, Processing, LoadUser(Bot))
  {
  }

  lemma OneJobLoads()
    ensures ExecAll(OneBotJob(Sending, Processing, LoadUser(Bot)), [Run(1, Found), Run(1, Found)]) ==
            OneBotJob(Sending, Processing, Deliver(Bot))
  {
  }

  lemma OneJobLoses()
    ensures ExecAll(OneBotJob(Sending, Processing, Deliver(Bot)), [Run(1, Swallowed(false)), Run(1, Found)]) ==
            OneBotJob(Sending, Sent, Count)
  {
  }

  /** One bot campaign, one recipient, a messenger that is switched off: the recipient ends as
      sent, and no message went out. */
  lemma SentWithoutMessage() returns (steps: seq<Step>)
    ensures ExecAll(INITIAL, steps) == OneBotJob(Sending, Sent, Count) && !NothingLost(INITIAL, steps, 7)
  {
    hide Exec, ExecAll;
    OneJobStarts();
    OneJobClaims();
    OneJobLoads();
    OneJobLoses();
    var start := [Create(0, Campaign(Queued, Bot), {7}), Spawn(1, Job(0, 7))];
    var claim, load := [Run(1, Found), Run(1, Found), Run(1, Found)], [Run(1, Found), Run(1, Found)];
    var end := [Run(1, Swallowed(false)), Run(1, Found)];
    ExecInTwo(INITIAL, start, claim);
    ExecInTwo(INITIAL, start + claim, load);
    ExecInTwo(INITIAL, start + claim + load, end);
    steps := start + claim + load + end;
    SentGotMessage(steps, 7);
  }
}
