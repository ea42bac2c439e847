/** The job handler as the program one worker runs over the shared tables, statement by
    statement.  A run without interference is the run of a single worker of the protocol in
    `CampaignWorkers`. */
module CampaignJobHandler {
  import opened CampaignWorkers

  /** What the handler is told from outside: is the user there, is the template there, and how
      does the delivery go (no chat id, an exception, a response, or none). */
  datatype Answers = Answers(user: Answer, template: Answer, delivery: Answer)

  function AnswerAt(pc: Pc, answers: Answers): Answer {
    if pc.LoadUser? then answers.user
    else if pc.LoadTemplate? then answers.template
    else answers.delivery
  }

  /** How many statements are left at most. */
  function StatementsLeft(pc: Pc): nat {
    match pc
    case Start => 9
    case MarkSending(_) => 8
    case Claim(_) => 7
    case LoadUser(_) => 6
    case LoadTemplate(_) => 5
    case Deliver(_) => 4
    case MarkSent => 3
    case MarkFailed => 3
    case Count => 2
    case Finish(_) => 1
    case Done => 0
    case Crashed => 0
  }

  lemma EveryStatementProceeds(s: State, w: WorkerId, answer: Answer)
    requires w in s.workers && StatementsLeft(s.workers[w].pc) > 0
    ensures w in RunStep(s, w, answer).workers
    ensures StatementsLeft(RunStep(s, w, answer).workers[w].pc) < StatementsLeft(s.workers[w].pc)
  {
  }

  /** Worker `w` runs its remaining statements with nobody else stepping in between. */
  function RunAlone(s: State, w: WorkerId, answers: Answers): State
    requires w in s.workers
    decreases StatementsLeft(s.workers[w].pc)
  {
    if StatementsLeft(s.workers[w].pc) == 0 then s
    else
      var answer := AnswerAt(s.workers[w].pc, answers);
      EveryStatementProceeds(s, w, answer);
      RunAlone(RunStep(s, w, answer), w, answers)
  }

  /** Running alone is a run of the protocol, so everything proved of runs holds of it, and it
      ends with the worker done. */
  lemma {:induction false} RunningAloneIsARun(s: State, w: WorkerId, answers: Answers) returns (steps: seq<Step>)
    requires w in s.workers && s.workers[w].pc != Crashed
    ensures ExecAll(s, steps) == RunAlone(s, w, answers)
    ensures w in RunAlone(s, w, answers).workers && RunAlone(s, w, answers).workers[w].pc == Done
    decreases StatementsLeft(s.workers[w].pc)
  {
    if StatementsLeft(s.workers[w].pc) == 0 {
      steps := [];
    } else {
      var answer := AnswerAt(s.workers[w].pc, answers);
      EveryStatementProceeds(s, w, answer);
      RunNeverCrashes(s, w, answer);
      var rest := RunningAloneIsARun(RunStep(s, w, answer), w, answers);
      steps := [Run(w, answer)] + rest;
    }
  }

  /** How often worker `w` gets to perform a statement. */
  function Turns(steps: seq<Step>, w: WorkerId): nat {
    if steps == [] then 0
    else (if steps[0].Run? && steps[0].w == w then 1 else 0) + Turns(steps[1..], w)
  }

  lemma StepUsesTurn(s: State, step: Step, w: WorkerId)
    requires w in s.workers
    ensures w in Exec(s, step).workers
    ensures var before, after := StatementsLeft(s.workers[w].pc), StatementsLeft(Exec(s, step).workers[w].pc);
            after <= before && (step.Run? && step.w == w && before > 0 ==> after < before)
  {
    hide RunStep, CreateStep;
    if step.Run? && step.w in s.workers {
      OnlyOwnCounter(s, step.w, step.answer, w);
      if step.w == w && StatementsLeft(s.workers[w].pc) > 0 {
        EveryStatementProceeds(s, w, step.answer);
      }
    } else if step.Create? {
      CreateKeepsWorkers(s, step.c, step.campaign, step.recipients);
    }
  }

  /** A worker's statement moves no other worker, and a finished one stays finished. */
  lemma OnlyOwnCounter(s: State, v: WorkerId, answer: Answer, w: WorkerId)
    requires v in s.workers && w in s.workers
    ensures var t := RunStep(s, v, answer);
            && w in t.workers && (v != w ==> t.workers[w] == s.workers[w])
            && (StatementsLeft(s.workers[v].pc) == 0 ==> t == s)
  {
  }

  /** No job waits for another: whatever the other workers do in between, a worker that gets
      nine turns is done, unless it crashed. */
  lemma {:induction false} JobsEnd(s: State, steps: seq<Step>, w: WorkerId)
    requires w in s.workers && Turns(steps, w) >= StatementsLeft(s.workers[w].pc)
    ensures w in ExecAll(s, steps).workers
    ensures ExecAll(s, steps).workers[w].pc == Done || ExecAll(s, steps).workers[w].pc == Crashed
    decreases |steps|
  {
    hide Exec;
    if steps != [] {
      StepUsesTurn(s, steps[0], w);
      JobsEnd(Exec(s, steps[0]), steps[1..], w);
    }
  }

  lemma RunNeverCrashes(s: State, w: WorkerId, answer: Answer)
    requires w in s.workers && s.workers[w].pc != Crashed
    ensures w in RunStep(s, w, answer).workers && RunStep(s, w, answer).workers[w].pc != Crashed
  {
  }

  lemma Proceed(s: State, w: WorkerId, answers: Answers, t: State)
    requires w in s.workers && StatementsLeft(s.workers[w].pc) > 0
    requires t == RunStep(s, w, AnswerAt(s.workers[w].pc, answers))
    ensures w in t.workers && RunAlone(s, w, answers) == RunAlone(t, w, answers)
    ensures StatementsLeft(t.workers[w].pc) == 0 ==> RunAlone(s, w, answers) == t
  {
    EveryStatementProceeds(s, w, AnswerAt(s.workers[w].pc, answers));
  }

  // The statements of a worker that runs alone

  function Solo(db: Db, sends: map<RecipientId, nat>, w: WorkerId, job: Job, pc: Pc): State {
    State(db, map[w := Worker(job, pc)], {}, sends)
  }

  lemma AfterStart(db: Db, sends: map<RecipientId, nat>, w: WorkerId, job: Job, answers: Answers)
    ensures RunAlone(Solo(db, sends, w, job, Start), w, answers) ==
            if job.campaign !in db.campaigns || Skips(db.campaigns[job.campaign].status)
            then Solo(db, sends, w, job, Done)
            else RunAlone(Solo(db, sends, w, job, MarkSending(db.campaigns[job.campaign].delivery)), w, answers)
  {
    var s := Solo(db, sends, w, job, Start);
    var skips := job.campaign !in db.campaigns || Skips(db.campaigns[job.campaign].status);
    Proceed(s, w, answers, Solo(db, sends, w, job,
        if skips then Done else MarkSending(db.campaigns[job.campaign].delivery)));
  }

  lemma AfterMarkSending(db: Db, sends: map<RecipientId, nat>, w: WorkerId, job: Job, answers: Answers,
                         delivery: Delivery)
    ensures RunAlone(Solo(db, sends, w, job, MarkSending(delivery)), w, answers) ==
            RunAlone(Solo(SetCampaign(db, job.campaign, {Queued}, Sending), sends, w, job, Claim(delivery)), w, answers)
  {
    var s := Solo(db, sends, w, job, MarkSending(delivery));
    Proceed(s, w, answers, Solo(SetCampaign(db, job.campaign, {Queued}, Sending), sends, w, job, Claim(delivery)));
  }

  lemma AfterClaim(db: Db, sends: map<RecipientId, nat>, w: WorkerId, job: Job, answers: Answers, delivery: Delivery)
    ensures RunAlone(Solo(db, sends, w, job, Claim(delivery)), w, answers) ==
            if Claimable(db, job)
            then RunAlone(Solo(SetRecipient(db, job.recipient, Processing), sends, w, job, LoadUser(delivery)), w,
                answers)
            else Solo(db, sends, w, job, Done)
  {
    var s := Solo(db, sends, w, job, Claim(delivery));
    var claimed := Claimable(db, job);
    Proceed(s, w, answers, Solo(if claimed then SetRecipient(db, job.recipient, Processing) else db, sends, w, job,
                                if claimed then LoadUser(delivery) else Done));
  }

  /** Does the delivery reach the point where the recipient is marked as sent?  A call of the
      messenger that comes back without a response does. */
  predicate Through(delivery: Delivery, answers: Answers) {
    && answers.user != Missing && answers.template != Missing
    && (delivery == Sms || (delivery == Bot && (answers.delivery == Found || answers.delivery.Swallowed?)))
  }

  /** Is a bot message delivered? */
  predicate SendsMessage(delivery: Delivery, answers: Answers) {
    && answers.user != Missing && answers.template != Missing
    && delivery == Bot && (answers.delivery == Found || answers.delivery == Swallowed(true))
  }

  lemma AfterUser(db: Db, sends: map<RecipientId, nat>, w: WorkerId, job: Job, answers: Answers, delivery: Delivery)
    ensures RunAlone(Solo(db, sends, w, job, LoadUser(delivery)), w, answers) ==
            RunAlone(Solo(db, sends, w, job,
                if answers.user == Missing then MarkFailed else LoadTemplate(delivery)), w, answers)
  {
    Proceed(Solo(db, sends, w, job, LoadUser(delivery)), w, answers,
            Solo(db, sends, w, job, if answers.user == Missing then MarkFailed else LoadTemplate(delivery)));
  }

  lemma AfterTemplate(db: Db, sends: map<RecipientId, nat>, w: WorkerId, job: Job, answers: Answers, delivery: Delivery)
    ensures RunAlone(Solo(db, sends, w, job, LoadTemplate(delivery)), w, answers) ==
            RunAlone(Solo(db, sends, w, job,
                if answers.template == Missing then MarkFailed else Deliver(delivery)), w, answers)
  {
    Proceed(Solo(db, sends, w, job, LoadTemplate(delivery)), w, answers,
            Solo(db, sends, w, job, if answers.template == Missing then MarkFailed else Deliver(delivery)));
  }

  lemma AfterDeliver(db: Db, sends: map<RecipientId, nat>, w: WorkerId, job: Job, answers: Answers, delivery: Delivery)
    requires answers.user != Missing && answers.template != Missing
    ensures var s := Solo(db, sends, w, job, Deliver(delivery));
            RunAlone(s, w, answers) ==
            RunAlone(Solo(db, if SendsMessage(delivery, answers) then CountSend(s, job.recipient).sends else sends,
                w, job,
                          if Through(delivery, answers) then MarkSent else MarkFailed), w, answers)
  {
    var s := Solo(db, sends, w, job, Deliver(delivery));
    Proceed(s, w, answers,
            Solo(db, if SendsMessage(delivery, answers) then CountSend(s, job.recipient).sends else sends, w, job,
                 if Through(delivery, answers) then MarkSent else MarkFailed));
  }

  /** The tables after the campaign check. */
  function Checked(db: Db, c: CampaignId): Db {
    if Remaining(db, c) == {} then SetCampaign(db, c, ANY_STATUS, Completed)
    else SetCampaign(db, c, {Queued, Scheduled}, Sending)
  }

  lemma CheckedTables(db: Db, c: CampaignId)
    requires c in db.campaigns
    ensures var campaign := db.campaigns[c];
            var finished := forall r :: r in db.recipients && db.recipients[r].campaign == c ==>
                              db.recipients[r].status in {Sent, Failed};
            Checked(db, c) ==
            Db(db.campaigns[c := Campaign(if finished then Completed
                                          else if campaign.status in {Queued, Scheduled} then Sending
                                          else campaign.status, campaign.delivery)],
               db.recipients)
  {
    EveryStatus(db.campaigns[c].status);
    forall r | r in db.recipients && db.recipients[r].campaign == c
      ensures r in Remaining(db, c) <==> db.recipients[r].status !in {Sent, Failed}
    {
    }
  }

  lemma AfterCount(db: Db, sends: map<RecipientId, nat>, w: WorkerId, job: Job, answers: Answers)
    ensures RunAlone(Solo(db, sends, w, job, Count), w, answers) == Solo(Checked(db, job.campaign), sends, w, job, Done)
  {
    var s := Solo(db, sends, w, job, Finish(|Remaining(db, job.campaign)|));
    assert RunAlone(Solo(db, sends, w, job, Count), w, answers) == RunAlone(s, w, answers) by {
      Proceed(Solo(db, sends, w, job, Count), w, answers, s);
    }
    Proceed(s, w, answers, Solo(Checked(db, job.campaign), sends, w, job, Done));
  }

  lemma AfterMark(db: Db, sends: map<RecipientId, nat>, w: WorkerId, job: Job, answers: Answers, sent: bool)
    ensures RunAlone(Solo(db, sends, w, job, if sent then MarkSent else MarkFailed), w, answers) ==
            Solo(Checked(SetRecipient(db, job.recipient, if sent then Sent else Failed), job.campaign), sends, w,
                job, Done)
  {
    hide RunAlone;
    var marked := SetRecipient(db, job.recipient, if sent then Sent else Failed);
    AfterCount(marked, sends, w, job, answers);
    Proceed(Solo(db, sends, w, job, if sent then MarkSent else MarkFailed), w, answers,
        Solo(marked, sends, w, job, Count));
  }

  /** Once the recipient is claimed, an undisturbed handler marks it as sent for the SMS branch,
      and for the bot branch whenever the messenger's call comes back, with a response or
      without; a message is delivered with every response, and without one as the network has
      it.  Then it checks the campaign. */
  lemma ClaimedJobOutcome(db: Db, sends: map<RecipientId, nat>, w: WorkerId, job: Job, answers: Answers,
                          delivery: Delivery)
    ensures var s := Solo(db, sends, w, job, LoadUser(delivery));
            var marked := SetRecipient(db, job.recipient, if Through(delivery, answers) then Sent else Failed);
            RunAlone(s, w, answers) ==
            Solo(Checked(marked, job.campaign),
                 if SendsMessage(delivery, answers) then CountSend(s, job.recipient).sends else sends, w, job, Done)
  {
    hide RunAlone, RunStep;
    AfterUser(db, sends, w, job, answers, delivery);
    AfterTemplate(db, sends, w, job, answers, delivery);
    var s := Solo(db, sends, w, job, LoadUser(delivery));
    if answers.user != Missing && answers.template != Missing {
      AfterDeliver(db, sends, w, job, answers, delivery);
      AfterMark(db, if SendsMessage(delivery, answers) then CountSend(s, job.recipient).sends else sends, w, job,
          answers,
                Through(delivery, answers));
    } else {
      AfterMark(db, sends, w, job, answers, false);
    }
  }

  // What a handled job does, told without the protocol

  /** Is a claimed recipient marked as sent?  By SMS always; by bot when the call comes back. */
  ghost predicate MarksSent(delivery: Delivery, answers: Answers) {
    && answers.user != Missing && answers.template != Missing
    && (delivery == Bot ==> answers.delivery != Missing && answers.delivery != Threw)
    && delivery != App
  }

  /** Does a message go out? */
  ghost predicate Delivers(delivery: Delivery, answers: Answers) {
    && answers.user != Missing && answers.template != Missing
    && delivery == Bot && answers.delivery in {Found, Swallowed(true)}
  }

  ghost function OneMoreSend(sends: map<RecipientId, nat>, r: RecipientId): map<RecipientId, nat> {
    sends[r := if r in sends then sends[r] + 1 else 1]
  }

  /** Are all other recipients of the campaign sent or failed? */
  ghost predicate OnlyUnfinished(recipients: map<RecipientId, Recipient>, job: Job) {
    forall q :: q in recipients && q != job.recipient && recipients[q].campaign == job.campaign
      ==> recipients[q].status in {Sent, Failed}
  }

  lemma NothingElseRemains(db: Db, job: Job, to: RecipientStatus)
    requires job.recipient in db.recipients && to in {Sent, Failed}
    ensures Remaining(SetRecipient(db, job.recipient, to), job.campaign) == {} <==> OnlyUnfinished(db.recipients, job)
  {
    var after := SetRecipient(db, job.recipient, to);
    forall q | q in db.recipients && q != job.recipient && db.recipients[q].campaign == job.campaign
      ensures q in Remaining(after, job.campaign) <==> db.recipients[q].status !in {Sent, Failed}
    {
    }
  }

  lemma OthersDecide(before: map<RecipientId, Recipient>, after: map<RecipientId, Recipient>, job: Job)
    requires before.Keys == after.Keys
    requires forall q :: q in before && q != job.recipient ==> after[q] == before[q]
    ensures OnlyUnfinished(before, job) <==> OnlyUnfinished(after, job)
  {
  }

  /** The tables after the statements of a job whose recipient was claimed. */
  lemma HandledTables(db: Db, job: Job, to: RecipientStatus)
    requires job.campaign in db.campaigns && !Skips(db.campaigns[job.campaign].status) && to in {Sent, Failed}
    requires Claimable(db, job)
    ensures var claimed := SetRecipient(SetCampaign(db, job.campaign, {Queued}, Sending), job.recipient, Processing);
            var marked := SetRecipient(claimed, job.recipient, to);
            var campaign := db.campaigns[job.campaign];
            Checked(marked, job.campaign) ==
            Db(db.campaigns[job.campaign :=
                 Campaign(if OnlyUnfinished(db.recipients, job) then Completed
                          else if campaign.status in {Queued, Scheduled} then Sending else campaign.status,
                          campaign.delivery)],
               db.recipients[job.recipient := Recipient(job.campaign, to)])
  {
    var waiting := SetRecipient(SetCampaign(db, job.campaign, {Queued}, Sending), job.recipient, Processing);
    assert waiting.recipients == db.recipients[job.recipient := Recipient(job.campaign, Processing)];
    OthersDecide(db.recipients, waiting.recipients, job);
    NothingElseRemains(waiting, job, to);
    hide OnlyUnfinished, Remaining;
  }

  /** The tables when the claim fails. */
  lemma UnclaimedTables(db: Db, job: Job)
    requires job.campaign in db.campaigns
    ensures var campaign := db.campaigns[job.campaign];
            SetCampaign(db, job.campaign, {Queued}, Sending) ==
            Db(db.campaigns[job.campaign := Campaign(if campaign.status == Queued then Sending else campaign.status,
                                                     campaign.delivery)],
               db.recipients)
    ensures Claimable(SetCampaign(db, job.campaign, {Queued}, Sending), job) == Claimable(db, job)
    ensures Claimable(db, job) <==>
            job.recipient in db.recipients && db.recipients[job.recipient] == Recipient(job.campaign, Pending)
  {
  }

  class JobHandler {
    var campaigns: map<CampaignId, Campaign>
    var recipients: map<RecipientId, Recipient>
    var sends: map<RecipientId, nat>

    ghost function Tables(): Db
      reads this
    {
      Db(campaigns, recipients)
    }

    /** UPDATE campaigns SET status = `to` WHERE id = `c` AND status IN `when_`. */
    method UpdateCampaign(c: CampaignId, when_: set<CampaignStatus>, to: CampaignStatus)
      modifies this`campaigns
      ensures Tables() == SetCampaign(old(Tables()), c, when_, to)
    {
      if c in campaigns && campaigns[c].status in when_ {
        campaigns := campaigns[c := campaigns[c].(status := to)];
      }
    }

    /** The conditional update that decides which worker owns a recipient. */
    method Claim(job: Job) returns (claimed: bool)
      modifies this`recipients
      ensures claimed == Claimable(old(Tables()), job)
      ensures claimed <==> job.recipient in old(recipients)
                           && old(recipients)[job.recipient] == Recipient(job.campaign, Pending)
      ensures recipients == if claimed then old(recipients)[job.recipient := Recipient(job.campaign, Processing)]
                            else old(recipients)
      ensures Tables() == if claimed then SetRecipient(old(Tables()), job.recipient, Processing) else old(Tables())
    {
      claimed := job.recipient in recipients && recipients[job.recipient].campaign == job.campaign
                 && recipients[job.recipient].status == Pending;
      if claimed {
        recipients := recipients[job.recipient := recipients[job.recipient].(status := Processing)];
      }
    }

    method UpdateRecipient(r: RecipientId, to: RecipientStatus)
      modifies this`recipients
      ensures Tables() == SetRecipient(old(Tables()), r, to)
    {
      if r in recipients {
        recipients := recipients[r := recipients[r].(status := to)];
      }
    }

    method CheckCampaignCompletionSafe(c: CampaignId)
      modifies this`campaigns
      ensures Tables() == Checked(old(Tables()), c)
      ensures c !in old(campaigns) ==> campaigns == old(campaigns)
      ensures c in old(campaigns) ==>
                campaigns == old(campaigns)[c := Campaign(
                  if forall r :: r in recipients && recipients[r].campaign == c ==>
                                   recipients[r].status in {Sent, Failed}
                  then Completed
                  else if old(campaigns)[c].status in {Queued, Scheduled} then Sending
                  else old(campaigns)[c].status,
                  old(campaigns)[c].delivery)]
    {
      var unfinished := set r | r in recipients && recipients[r].campaign == c && Unfinished(recipients[r].status);
      assert unfinished == Remaining(Tables(), c);
      if c in campaigns {
        CheckedTables(Tables(), c);
      }
      if |unfinished| == 0 {
        UpdateCampaign(c, ANY_STATUS, Completed);
      } else {
        UpdateCampaign(c, {Queued, Scheduled}, Sending);
      }
    }

    /** `process`: the handler of one job, with the answers it gets from outside.  A job of a
        campaign that is gone, paused, canceled or failed changes nothing; any other is handled.
        Whatever the tables hold, the effect is that of a worker of the protocol running alone. */
    method Process(sendMessageJob: bool, job: Job, answers: Answers, ghost w: WorkerId)
      modifies this`campaigns, this`recipients, this`sends
      ensures !sendMessageJob || job.campaign !in old(campaigns)
              || old(campaigns)[job.campaign].status in {Paused, Canceled, CampaignFailed} ==>
                campaigns == old(campaigns) && recipients == old(recipients) && sends == old(sends)
      ensures sendMessageJob && job.campaign in old(campaigns)
              && old(campaigns)[job.campaign].status in {Queued, Scheduled, Sending, Completed} ==>
                var campaign := old(campaigns)[job.campaign];
                if job.recipient in old(recipients)
                   && old(recipients)[job.recipient] == Recipient(job.campaign, Pending)
                then
                  && recipients == old(recipients)[job.recipient :=
                       Recipient(job.campaign, if MarksSent(campaign.delivery, answers) then Sent else Failed)]
                  && sends == (if Delivers(campaign.delivery, answers) then OneMoreSend(old(sends), job.recipient)
                               else old(sends))
                  && campaigns == old(campaigns)[job.campaign :=
                       Campaign(if OnlyUnfinished(old(recipients), job) then Completed
                                else if campaign.status in {Queued, Scheduled} then Sending else campaign.status,
                                campaign.delivery)]
                else
                  && recipients == old(recipients) && sends == old(sends)
                  && campaigns == old(campaigns)[job.campaign :=
                       Campaign(if campaign.status == Queued then Sending else campaign.status, campaign.delivery)]
      ensures sendMessageJob ==>
                RunAlone(Solo(old(Tables()), old(sends), w, job, Start), w, answers) ==
                Solo(Tables(), sends, w, job, Done)
    {
      hide RunAlone, RunStep, SetCampaign, SetRecipient, Checked, Claimable, OnlyUnfinished;
      ghost var before := Tables();
      if !sendMessageJob {
        return;
      }
      AfterStart(Tables(), sends, w, job, answers);
      if job.campaign !in campaigns || Skips(campaigns[job.campaign].status) {
        return;
      }
      var delivery := campaigns[job.campaign].delivery;
      UnclaimedTables(before, job);
      AfterMarkSending(Tables(), sends, w, job, answers, delivery);
      UpdateCampaign(job.campaign, {Queued}, Sending);
      AfterClaim(Tables(), sends, w, job, answers, delivery);
      var claimed := Claim(job);
      if !claimed {
        return;
      }
      ClaimedJobOutcome(Tables(), sends, w, job, answers, delivery);
      var sent := false;
      if answers.user != Missing && answers.template != Missing {
        if delivery == Bot {
          if answers.delivery == Found || answers.delivery == Swallowed(true) {
            sends := sends[job.recipient := (if job.recipient in sends then sends[job.recipient] else 0) + 1];
          }
          sent := answers.delivery == Found || answers.delivery.Swallowed?;
        } else {
          sent := delivery == Sms;
        }
      }
      UpdateRecipient(job.recipient, if sent then Sent else Failed);
      CheckCampaignCompletionSafe(job.campaign);
      HandledTables(before, job, if sent then Sent else Failed);
    }
  }
}
