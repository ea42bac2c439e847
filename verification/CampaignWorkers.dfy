/** The campaign worker protocol.  Any number of workers run the job handler; every awaited
    statement is one atomic step, and the steps of all workers, of retried and duplicated
    jobs, of crashes and of the campaign service interleave freely. */
module CampaignWorkers {

  type CampaignId = nat
  type RecipientId = nat
  type WorkerId = nat

  datatype CampaignStatus = Queued | Scheduled | Sending | Paused | Completed | CampaignFailed | Canceled
  datatype RecipientStatus = Pending | Processing | Sent | Failed
  datatype Delivery = Bot | Sms | App

  datatype Campaign = Campaign(status: CampaignStatus, delivery: Delivery)
  datatype Recipient = Recipient(campaign: CampaignId, status: RecipientStatus)
  datatype Job = Job(campaign: CampaignId, recipient: RecipientId)

  /** Where a worker stands between two awaited statements of the handler. */
  datatype Pc =
    | Start                        // about to load the campaign
    | MarkSending(delivery: Delivery)
    | Claim(delivery: Delivery)
    | LoadUser(delivery: Delivery)
    | LoadTemplate(delivery: Delivery)
    | Deliver(delivery: Delivery)
    | MarkSent
    | MarkFailed
    | Count                        // about to count unfinished recipients
    | Finish(remaining: nat)       // about to act on the count
    | Done
    | Crashed

  datatype Worker = Worker(job: Job, pc: Pc)

  /** The two tables. */
  datatype Db = Db(campaigns: map<CampaignId, Campaign>, recipients: map<RecipientId, Recipient>)

  /** The tables, all workers ever started, every campaign and recipient id ever used, and
      how often each recipient's bot message was sent. */
  datatype State = State(
    db: Db,
    workers: map<WorkerId, Worker>,
    usedCampaigns: set<CampaignId>,
    sends: map<RecipientId, nat>)

  const INITIAL := State(Db(map[], map[]), map[], {}, map[])

  // The statements of the job handler

  predicate Skips(status: CampaignStatus) {
    status == Paused || status == Canceled || status == CampaignFailed
  }

  predicate Unfinished(status: RecipientStatus) {
    status == Pending || status == Processing
  }

  function SetCampaign(db: Db, c: CampaignId, when_: set<CampaignStatus>, to: CampaignStatus): Db {
    if c in db.campaigns && db.campaigns[c].status in when_ then
      db.(campaigns := db.campaigns[c := db.campaigns[c].(status := to)])
    else db
  }

  function SetRecipient(db: Db, r: RecipientId, to: RecipientStatus): Db {
    if r in db.recipients then db.(recipients := db.recipients[r := db.recipients[r].(status := to)]) else db
  }

  predicate Claimable(db: Db, job: Job) {
    job.recipient in db.recipients && db.recipients[job.recipient] == Recipient(job.campaign, Pending)
  }

  function Remaining(db: Db, c: CampaignId): set<RecipientId> {
    set r | r in db.recipients && db.recipients[r].campaign == c && Unfinished(db.recipients[r].status)
  }

  const ANY_STATUS: set<CampaignStatus> := {Queued, Scheduled, Sending, Paused, Completed, CampaignFailed, Canceled}

  // The steps

  /** What the world outside the tables answers in a worker step.  The messenger's call does not
      throw: when it is disabled, refused or cut off it comes back without a response, and the
      message was delivered or not.  What throws does so before a message is out. */
  datatype Answer = Found | Missing | Threw | Swallowed(delivered: bool)

  datatype Step =
    | Spawn(w: WorkerId, job: Job)        // the queue hands a job, new or again, to a worker
    | Run(w: WorkerId, answer: Answer)    // the worker performs its next statement
    | Crash(w: WorkerId)
    | Create(c: CampaignId, campaign: Campaign, recipients: set<RecipientId>)
    | Update(c: CampaignId, to: CampaignStatus)
    | Pause(c: CampaignId)
    | Resume(c: CampaignId)
    | Remove(c: CampaignId)

  function SetPc(s: State, w: WorkerId, pc: Pc): State
    requires w in s.workers
  {
    s.(workers := s.workers[w := s.workers[w].(pc := pc)])
  }

  function CountSend(s: State, r: RecipientId): State {
    s.(sends := s.sends[r := (if r in s.sends then s.sends[r] else 0) + 1])
  }

  /** The bot branch sends, and goes on whether or not there is a response; the SMS branch goes
      on without sending; any other method fails. */
  function DeliverStep(s: State, w: WorkerId, delivery: Delivery, answer: Answer): State
    requires w in s.workers
  {
    match delivery
    case Sms => SetPc(s, w, MarkSent)
    case App => SetPc(s, w, MarkFailed)
    case Bot =>
      var sent := CountSend(s, s.workers[w].job.recipient);
      match answer
      case Found => SetPc(sent, w, MarkSent)
      case Missing => SetPc(s, w, MarkFailed)
      case Threw => SetPc(s, w, MarkFailed)
      case Swallowed(delivered) => SetPc(if delivered then sent else s, w, MarkSent)
  }

  function RunStep(s: State, w: WorkerId, answer: Answer): State
    requires w in s.workers
  {
    var job := s.workers[w].job;
    match s.workers[w].pc
    case Start =>
      if job.campaign !in s.db.campaigns || Skips(s.db.campaigns[job.campaign].status) then SetPc(s, w, Done)
      else SetPc(s, w, MarkSending(s.db.campaigns[job.campaign].delivery))
    case MarkSending(delivery) =>
      SetPc(s.(db := SetCampaign(s.db, job.campaign, {Queued}, Sending)), w, Claim(delivery))
    case Claim(delivery) =>
      if Claimable(s.db, job) then SetPc(s.(db := SetRecipient(s.db, job.recipient, Processing)), w, LoadUser(delivery))
      else SetPc(s, w, Done)
    case LoadUser(delivery) =>
      SetPc(s, w, if answer == Missing then MarkFailed else LoadTemplate(delivery))
    case LoadTemplate(delivery) =>
      SetPc(s, w, if answer == Missing then MarkFailed else Deliver(delivery))
    case Deliver(delivery) => DeliverStep(s, w, delivery, answer)
    case MarkSent => SetPc(s.(db := SetRecipient(s.db, job.recipient, Sent)), w, Count)
    case MarkFailed => SetPc(s.(db := SetRecipient(s.db, job.recipient, Failed)), w, Count)
    case Count => SetPc(s, w, Finish(|Remaining(s.db, job.campaign)|))
    case Finish(remaining) =>
      SetPc(s.(db := if remaining == 0 then SetCampaign(s.db, job.campaign, ANY_STATUS, Completed)
                     else SetCampaign(s.db, job.campaign, {Queued, Scheduled}, Sending)), w, Done)
    case Done => s
    case Crashed => s
  }

  /** A campaign and its recipients are inserted in one transaction, under fresh ids. */
  function CreateStep(s: State, c: CampaignId, campaign: Campaign, recipients: set<RecipientId>): State {
    if c in s.usedCampaigns || !(recipients !! s.sends.Keys) || campaign.status !in {Queued, Scheduled} then s
    else
      s.(db := Db(s.db.campaigns[c := campaign],
                  s.db.recipients + map r | r in recipients :: Recipient(c, Pending)),
         usedCampaigns := s.usedCampaigns + {c},
         sends := s.sends + map r | r in recipients :: 0)
  }

  /** Deleting a campaign deletes its recipients with it. */
  function RemoveStep(s: State, c: CampaignId): State {
    s.(db := Db(s.db.campaigns - {c},
                map r | r in s.db.recipients && s.db.recipients[r].campaign != c :: s.db.recipients[r]))
  }

  /** The state after a step; a step that is not possible changes nothing. */
  function Exec(s: State, step: Step): State {
    match step
    case Spawn(w, job) => if w in s.workers then s else s.(workers := s.workers[w := Worker(job, Start)])
    case Run(w, answer) => if w in s.workers then RunStep(s, w, answer) else s
    case Crash(w) => if w in s.workers && s.workers[w].pc != Done then SetPc(s, w, Crashed) else s
    case Create(c, campaign, recipients) => CreateStep(s, c, campaign, recipients)
    case Update(c, to) =>
      if to in {Queued, Scheduled, Paused, Canceled} then s.(db := SetCampaign(s.db, c, {Queued, Scheduled}, to)) else s
    case Pause(c) => s.(db := SetCampaign(s.db, c, ANY_STATUS, Paused))
    case Resume(c) => s.(db := SetCampaign(s.db, c, ANY_STATUS, Sending))
    case Remove(c) => RemoveStep(s, c)
  }

  function ExecAll(s: State, steps: seq<Step>): State
    decreases |steps|
  {
    if steps == [] then s else ExecAll(Exec(s, steps[0]), steps[1..])
  }

  // Safety

  /** The worker has claimed its recipient and not yet written the final status. */
  predicate Holds(pc: Pc) {
    pc.LoadUser? || pc.LoadTemplate? || pc.Deliver? || pc.MarkSent? || pc.MarkFailed?
  }

  /** The worker has not sent anything. */
  predicate BeforeSending(pc: Pc) {
    pc.LoadUser? || pc.LoadTemplate? || pc.Deliver? || pc.MarkFailed?
  }

  ghost predicate AllFinished(db: Db, c: CampaignId) {
    forall r :: r in db.recipients && db.recipients[r].campaign == c ==> !Unfinished(db.recipients[r].status)
  }

  /** Ids of live rows were handed out before. */
  ghost predicate IdsUsed(s: State) {
    && s.db.campaigns.Keys <= s.usedCampaigns
    && s.db.recipients.Keys <= s.sends.Keys
    && forall r :: r in s.db.recipients ==> s.db.recipients[r].campaign in s.usedCampaigns
  }

  /** At most one send per recipient, none before its claim, and none if it failed. */
  ghost predicate SentAtMostOnce(s: State) {
    && (forall r :: r in s.sends ==> s.sends[r] <= 1)
    && (forall r :: r in s.db.recipients && s.db.recipients[r].status in {Pending, Failed}
          ==> r in s.sends && s.sends[r] == 0)
  }

  ghost predicate OneHolder(s: State) {
    forall v, w :: v in s.workers && w in s.workers && v != w && Holds(s.workers[v].pc) && Holds(s.workers[w].pc)
      ==> s.workers[v].job.recipient != s.workers[w].job.recipient
  }

  /** What a worker that holds a claim knows of its recipient. */
  ghost predicate HolderOwns(s: State, worker: Worker) {
    Holds(worker.pc) ==>
      && worker.job.recipient in s.sends
      && worker.job.campaign in s.usedCampaigns
      && (worker.job.recipient in s.db.recipients ==>
            s.db.recipients[worker.job.recipient] == Recipient(worker.job.campaign, Processing))
      && (BeforeSending(worker.pc) ==> s.sends[worker.job.recipient] == 0)
  }

  ghost predicate HoldersOwn(s: State) {
    forall w :: w in s.workers ==> HolderOwns(s, s.workers[w])
  }

  /** A worker that counted no unfinished recipient is still right when it acts on the count. */
  ghost predicate CountsStand(s: State) {
    forall w :: w in s.workers && (s.workers[w].pc == Count || s.workers[w].pc == Finish(0)) ==>
      && s.workers[w].job.campaign in s.usedCampaigns
      && (s.workers[w].pc == Finish(0) ==> AllFinished(s.db, s.workers[w].job.campaign))
  }

  ghost predicate CompletedIsFinished(s: State) {
    forall c :: c in s.db.campaigns && s.db.campaigns[c].status == Completed ==> AllFinished(s.db, c)
  }

  ghost predicate Inv(s: State) {
    IdsUsed(s) && SentAtMostOnce(s) && OneHolder(s) && HoldersOwn(s) && CountsStand(s) && CompletedIsFinished(s)
  }

  /** The status of an existing recipient moves only along pending, processing, sent or failed:
      to processing by a worker that thereby holds the claim, and from processing only by the
      worker that holds it. */
  ghost predicate Moves(s: State, step: Step, t: State) {
    forall r :: r in s.db.recipients && r in t.db.recipients ==>
      var before, after := s.db.recipients[r], t.db.recipients[r];
      && before.campaign == after.campaign
      && (before.status == after.status
          || (before.status == Pending && after.status == Processing && step.Run? && step.w in t.workers
              && t.workers[step.w].job == Job(before.campaign, r) && Holds(t.workers[step.w].pc))
          || (before.status == Processing && after.status in {Sent, Failed} && step.Run? && step.w in s.workers
              && s.workers[step.w].job == Job(before.campaign, r) && Holds(s.workers[step.w].pc)))
  }

  /** Recipients that are finished stay finished, deleted ones stay deleted, and no campaign in
      use gains a recipient. */
  ghost predicate Settles(s: State, t: State) {
    && s.usedCampaigns <= t.usedCampaigns
    && s.sends.Keys <= t.sends.Keys
    && (forall r :: r in t.db.recipients && r in s.sends ==> r in s.db.recipients)
    && (forall r :: r in t.db.recipients && t.db.recipients[r].campaign in s.usedCampaigns ==>
          && r in s.db.recipients && t.db.recipients[r].campaign == s.db.recipients[r].campaign
          && (!Unfinished(s.db.recipients[r].status) ==> !Unfinished(t.db.recipients[r].status)))
  }

  lemma SettledStaysFinished(s: State, t: State, c: CampaignId)
    requires Settles(s, t) && c in s.usedCampaigns && AllFinished(s.db, c)
    ensures AllFinished(t.db, c)
  {
  }

  /** A worker's step in outline: which rows it may touch, and where it may come from. */
  ghost predicate RunEffect(s: State, w: WorkerId, t: State)
    requires w in s.workers
  {
    var job, pc := s.workers[w].job, s.workers[w].pc;
    && t.usedCampaigns == s.usedCampaigns
    && w in t.workers && t.workers == s.workers[w := Worker(job, t.workers[w].pc)]
    && RecipientEffect(s.db.recipients, job, pc, t.db.recipients, t.workers[w].pc)
    && SendEffect(s, job, pc, t, t.workers[w].pc)
    && PcEffect(s, job, pc, t.workers[w].pc)
    && CampaignEffect(s.db.campaigns, job, pc, t.db.campaigns)
  }

  ghost predicate SendEffect(s: State, job: Job, pc: Pc, t: State, next: Pc) {
    || t.sends == s.sends
    || (pc.Deliver? && t.sends == CountSend(s, job.recipient).sends && !BeforeSending(next))
  }

  ghost predicate CampaignEffect(before: map<CampaignId, Campaign>, job: Job, pc: Pc,
                                 after: map<CampaignId, Campaign>) {
    && (forall c :: c in after ==> c in before)
    && (forall c :: c in after && after[c].status == Completed ==>
          before[c].status == Completed || (pc == Finish(0) && c == job.campaign))
  }

  ghost predicate RecipientEffect(before: map<RecipientId, Recipient>, job: Job, pc: Pc,
                                  after: map<RecipientId, Recipient>, next: Pc) {
    || (after == before && !next.LoadUser? && (pc.MarkSent? || pc.MarkFailed? ==> job.recipient !in before))
    || (pc.Claim? && next.LoadUser? && Pending == PendingStatus(before, job)
        && after == before[job.recipient := Recipient(job.campaign, Processing)])
    || ((pc.MarkSent? || pc.MarkFailed?) && job.recipient in before
        && after == before[job.recipient := before[job.recipient].(status := if pc.MarkSent? then Sent else Failed)])
  }

  ghost function PendingStatus(recipients: map<RecipientId, Recipient>, job: Job): RecipientStatus {
    if job.recipient in recipients && recipients[job.recipient].campaign == job.campaign
    then recipients[job.recipient].status else Failed
  }

  ghost predicate PcEffect(s: State, job: Job, pc: Pc, next: Pc) {
    && (Holds(next) ==> Holds(pc) || (pc.Claim? && PendingStatus(s.db.recipients, job) == Pending))
    && (BeforeSending(next) ==> BeforeSending(pc) || pc.Claim?)
    && (next == Count ==> pc.MarkSent? || pc.MarkFailed?)
    && (next == Finish(0) ==> pc == Count && Remaining(s.db, job.campaign) == {})
    && (Holds(pc) ==> Holds(next) || next == Count)
    && (next.LoadUser? ==> pc.Claim?)
    && (pc.Claim? && Holds(next) ==> next.LoadUser?)
    && (pc.MarkSent? || pc.MarkFailed? ==> next == Count)
  }

  lemma RunHasEffect(s: State, w: WorkerId, answer: Answer)
    requires w in s.workers
    ensures RunEffect(s, w, RunStep(s, w, answer))
  {
    hide RecipientEffect, SendEffect, PcEffect, CampaignEffect;
    RunRows(s, w, answer);
    RunPc(s, w, answer);
  }

  lemma RunRows(s: State, w: WorkerId, answer: Answer)
    requires w in s.workers
    ensures var t := RunStep(s, w, answer);
            && w in t.workers
            && RecipientEffect(s.db.recipients, s.workers[w].job, s.workers[w].pc, t.db.recipients, t.workers[w].pc)
            && CampaignEffect(s.db.campaigns, s.workers[w].job, s.workers[w].pc, t.db.campaigns)
  {
  }

  lemma RunPc(s: State, w: WorkerId, answer: Answer)
    requires w in s.workers
    ensures var t := RunStep(s, w, answer);
            && w in t.workers
            && SendEffect(s, s.workers[w].job, s.workers[w].pc, t, t.workers[w].pc)
            && PcEffect(s, s.workers[w].job, s.workers[w].pc, t.workers[w].pc)
  {
  }

  lemma RunMoves(s: State, w: WorkerId, answer: Answer, t: State)
    requires Inv(s) && w in s.workers && RunEffect(s, w, t)
    ensures Moves(s, Run(w, answer), t) && Settles(s, t) && IdsUsed(t)
  {
    assert HolderOwns(s, s.workers[w]);
  }

  lemma RunSendsOnce(s: State, w: WorkerId, t: State)
    requires Inv(s) && w in s.workers && RunEffect(s, w, t)
    ensures SentAtMostOnce(t)
  {
    assert HolderOwns(s, s.workers[w]);
  }

  lemma RunKeepsHolders(s: State, w: WorkerId, t: State)
    requires Inv(s) && w in s.workers && RunEffect(s, w, t)
    ensures OneHolder(t) && HoldersOwn(t)
  {
    assert HolderOwns(s, s.workers[w]);
    forall v | v in t.workers
      ensures HolderOwns(t, t.workers[v])
      ensures v != w && Holds(t.workers[v].pc) && Holds(t.workers[w].pc) ==>
                t.workers[v].job.recipient != t.workers[w].job.recipient
    {
      assert HolderOwns(s, s.workers[v]);
    }
  }

  lemma RunKeepsCounts(s: State, w: WorkerId, t: State)
    requires Inv(s) && w in s.workers && RunEffect(s, w, t) && Settles(s, t)
    ensures CountsStand(t) && CompletedIsFinished(t)
  {
    assert HolderOwns(s, s.workers[w]);
    forall v | v in t.workers && t.workers[v].pc == Finish(0)
      ensures AllFinished(t.db, t.workers[v].job.campaign)
    {
      if v == w {
        NothingRemains(s.db, s.workers[w].job.campaign);
      }
      SettledStaysFinished(s, t, t.workers[v].job.campaign);
    }
    forall c | c in t.db.campaigns && t.db.campaigns[c].status == Completed
      ensures AllFinished(t.db, c)
    {
      SettledStaysFinished(s, t, c);
    }
  }

  lemma NothingRemains(db: Db, c: CampaignId)
    requires Remaining(db, c) == {}
    ensures AllFinished(db, c)
  {
    forall r | r in db.recipients && db.recipients[r].campaign == c
      ensures !Unfinished(db.recipients[r].status)
    {
      assert r !in Remaining(db, c);
    }
  }

  /** Every step of the protocol keeps the invariant and moves recipients forward only. */
  lemma ExecKeepsInv(s: State, step: Step)
    requires Inv(s)
    ensures Inv(Exec(s, step)) && Moves(s, step, Exec(s, step)) && Settles(s, Exec(s, step))
  {
    hide RunStep;
    if step.Run? && step.w in s.workers {
      var t := Exec(s, step);
      RunHasEffect(s, step.w, step.answer);
      RunMoves(s, step.w, step.answer, t);
      RunSendsOnce(s, step.w, t);
      RunKeepsHolders(s, step.w, t);
      RunKeepsCounts(s, step.w, t);
    } else if step.Create? {
      CreateKeepsInv(s, step.c, step.campaign, step.recipients);
    } else if !step.Run? {
      OtherHasEffect(s, step);
      QuietKeepsInv(s, step, Exec(s, step));
    }
  }

  lemma CreateKeepsInv(s: State, c: CampaignId, campaign: Campaign, recipients: set<RecipientId>)
    requires Inv(s)
    ensures var t := CreateStep(s, c, campaign, recipients);
            Inv(t) && Moves(s, Create(c, campaign, recipients), t) && Settles(s, t)
  {
    var t := CreateStep(s, c, campaign, recipients);
    if t != s {
      forall w | w in t.workers
        ensures HolderOwns(t, t.workers[w])
      {
        assert HolderOwns(s, s.workers[w]);
      }
    }
  }

  /** What queue, crash and service steps may do: start or crash workers, set a campaign to
      anything but completed, and delete rows. */
  ghost predicate QuietEffect(s: State, t: State) {
    && t.sends == s.sends && t.usedCampaigns == s.usedCampaigns
    && (forall r :: r in t.db.recipients ==> r in s.db.recipients && t.db.recipients[r] == s.db.recipients[r])
    && (forall w :: w in t.workers ==>
          || t.workers[w].pc == Start || t.workers[w].pc == Crashed
          || (w in s.workers && t.workers[w] == s.workers[w]))
    && (forall c :: c in t.db.campaigns ==>
          c in s.db.campaigns && (t.db.campaigns[c].status == Completed ==> s.db.campaigns[c].status == Completed))
  }

  lemma OtherHasEffect(s: State, step: Step)
    requires !step.Run? && !step.Create?
    ensures QuietEffect(s, Exec(s, step))
  {
  }

  lemma QuietKeepsInv(s: State, step: Step, t: State)
    requires Inv(s) && QuietEffect(s, t)
    ensures Inv(t) && Moves(s, step, t) && Settles(s, t)
  {
    forall w | w in t.workers
      ensures HolderOwns(t, t.workers[w])
    {
      if w in s.workers {
        assert HolderOwns(s, s.workers[w]);
      }
    }
  }

  // Whole runs

  lemma {:induction false} RunsKeepInv(s: State, steps: seq<Step>)
    requires Inv(s)
    ensures Inv(ExecAll(s, steps))
    decreases |steps|
  {
    if steps != [] {
      ExecKeepsInv(s, steps[0]);
      RunsKeepInv(Exec(s, steps[0]), steps[1..]);
    }
  }

  /** In every run, however workers, retries, crashes and the service interleave: a completed
      campaign has no pending or processing recipient, no recipient's bot message is sent twice,
      and a failed recipient got none. */
  lemma CompletedMeansFinished(steps: seq<Step>)
    ensures var s := ExecAll(INITIAL, steps);
            && (forall c, r :: c in s.db.campaigns && s.db.campaigns[c].status == Completed
                               && r in s.db.recipients && s.db.recipients[r].campaign == c
                               ==> s.db.recipients[r].status in {Sent, Failed})
            && (forall r :: r in s.sends ==> s.sends[r] <= 1)
            && (forall r :: r in s.db.recipients && s.db.recipients[r].status == Failed ==>
                 r in s.sends && s.sends[r] == 0)
  {
    RunsKeepInv(INITIAL, steps);
  }

  /** pending, then processing, then sent or failed. */
  predicate Follows(before: RecipientStatus, after: RecipientStatus) {
    before == after || before == Pending || (before == Processing && after in {Sent, Failed})
  }

  /** No run moves a recipient's status backwards or changes a final one. */
  lemma {:induction false} StatusNeverMovesBack(s: State, steps: seq<Step>, r: RecipientId)
    requires Inv(s) && r in s.db.recipients && r in ExecAll(s, steps).db.recipients
    ensures Follows(s.db.recipients[r].status, ExecAll(s, steps).db.recipients[r].status)
    decreases |steps|
  {
    if steps != [] {
      var m := Exec(s, steps[0]);
      ExecKeepsInv(s, steps[0]);
      if r !in m.db.recipients {
        DeletedStaysDeleted(m, steps[1..], r);
      } else {
        StatusNeverMovesBack(m, steps[1..], r);
      }
    }
  }

  lemma {:induction false} DeletedStaysDeleted(s: State, steps: seq<Step>, r: RecipientId)
    requires Inv(s) && r in s.sends && r !in s.db.recipients
    ensures r !in ExecAll(s, steps).db.recipients
    decreases |steps|
  {
    if steps != [] {
      ExecKeepsInv(s, steps[0]);
      DeletedStaysDeleted(Exec(s, steps[0]), steps[1..], r);
    }
  }

  // Completion

  /** No crash of a worker of campaign `c` from the claim on, and no service step on it. */
  predicate Undisturbed(s: State, step: Step, c: CampaignId) {
    match step
    case Crash(w) => w in s.workers && s.workers[w].job.campaign == c ==>
        BeforeClaim(s.workers[w].pc) || Stopped(s.workers[w].pc)
    case Update(d, _) => d != c
    case Pause(d) => d != c
    case Resume(d) => d != c
    case Remove(d) => d != c
    case _ => true
  }

  predicate UndisturbedRun(s: State, steps: seq<Step>, c: CampaignId)
    decreases |steps|
  {
    steps == [] || (Undisturbed(s, steps[0], c) && UndisturbedRun(Exec(s, steps[0]), steps[1..], c))
  }

  predicate BeforeClaim(pc: Pc) {
    pc.Start? || pc.MarkSending? || pc.Claim?
  }

  predicate Stopped(pc: Pc) {
    pc.Done? || pc.Crashed?
  }

  /** Workers of a pending recipient have not tried to claim it, or crashed before they did. */
  ghost predicate PendingUntried(s: State, c: CampaignId) {
    forall w :: w in s.workers && s.workers[w].job.campaign == c && Claimable(s.db, s.workers[w].job)
      ==> BeforeClaim(s.workers[w].pc) || s.workers[w].pc.Crashed?
  }

  /** A recipient in processing is held by a worker. */
  ghost predicate ProcessingHeld(s: State, c: CampaignId) {
    forall r :: r in s.db.recipients && s.db.recipients[r] == Recipient(c, Processing)
      ==> exists w :: w in s.workers && s.workers[w].job == Job(c, r) && Holds(s.workers[w].pc)
  }

  predicate AboutToNotice(worker: Worker, c: CampaignId) {
    worker.job.campaign == c && (worker.pc == Count || worker.pc == Finish(0))
  }

  /** Once all recipients are finished, the campaign is completed or some worker is about to
      find that out. */
  ghost predicate FinishNoticed(s: State, c: CampaignId)
    requires c in s.db.campaigns
  {
    AllFinished(s.db, c) ==>
      || s.db.campaigns[c].status == Completed
      || (forall r :: r in s.db.recipients ==> s.db.recipients[r].campaign != c)
      || exists w :: w in s.workers && AboutToNotice(s.workers[w], c)
  }

  ghost predicate Underway(s: State, c: CampaignId) {
    && c in s.db.campaigns && !Skips(s.db.campaigns[c].status)
    && PendingUntried(s, c) && ProcessingHeld(s, c) && FinishNoticed(s, c)
  }

  lemma RunKeepsUnderway(s: State, w: WorkerId, answer: Answer, c: CampaignId)
    requires Inv(s) && Underway(s, c) && w in s.workers
    ensures Underway(RunStep(s, w, answer), c)
  {
    hide RunStep;
    var t := RunStep(s, w, answer);
    RunHasEffect(s, w, answer);
    assert HolderOwns(s, s.workers[w]);
    RunKeepsCampaign(s, w, answer, c);
    RunKeepsUntried(s, w, answer, c);
    forall r | r in t.db.recipients && t.db.recipients[r] == Recipient(c, Processing)
      ensures exists v :: v in t.workers && t.workers[v].job == Job(c, r) && Holds(t.workers[v].pc)
    {
      if r in s.db.recipients && s.db.recipients[r] == Recipient(c, Processing) {
        var v :| v in s.workers && s.workers[v].job == Job(c, r) && Holds(s.workers[v].pc);
        assert v in t.workers && t.workers[v].job == Job(c, r);
      } else {
        assert t.workers[w].job == Job(c, r) && Holds(t.workers[w].pc);
      }
    }
    RunKeepsNoticed(s, w, answer, c, t);
  }

  lemma RunKeepsCampaign(s: State, w: WorkerId, answer: Answer, c: CampaignId)
    requires c in s.db.campaigns && w in s.workers && !Skips(s.db.campaigns[c].status)
    ensures var t := RunStep(s, w, answer);
            && c in t.db.campaigns && !Skips(t.db.campaigns[c].status)
            && (s.db.campaigns[c].status == Completed ==> t.db.campaigns[c].status == Completed)
            && (s.workers[w].job.campaign == c && s.workers[w].pc == Finish(0) ==>
                 t.db.campaigns[c].status == Completed)
  {
  }

  lemma RunProceeds(s: State, w: WorkerId, answer: Answer)
    requires w in s.workers
    ensures var t, job, pc := RunStep(s, w, answer), s.workers[w].job, s.workers[w].pc;
            && w in t.workers
            && (pc == Count ==> t.workers[w].pc == Finish(|Remaining(s.db, job.campaign)|))
            && (pc == Crashed ==> t.workers[w].pc == Crashed)
            && (BeforeClaim(pc) && Claimable(s.db, job)
                && job.campaign in s.db.campaigns && !Skips(s.db.campaigns[job.campaign].status)
                ==> BeforeClaim(t.workers[w].pc) || t.workers[w].pc.LoadUser?)
  {
  }

  lemma RunKeepsUntried(s: State, w: WorkerId, answer: Answer, c: CampaignId)
    requires Inv(s) && Underway(s, c) && w in s.workers
    ensures PendingUntried(RunStep(s, w, answer), c)
  {
    hide RunStep;
    RunProceeds(s, w, answer);
    RunHasEffect(s, w, answer);
    assert HolderOwns(s, s.workers[w]);
  }

  lemma RunKeepsNoticed(s: State, w: WorkerId, answer: Answer, c: CampaignId, t: State)
    requires Inv(s) && Underway(s, c) && w in s.workers && t == RunStep(s, w, answer) && RunEffect(s, w, t)
    requires c in t.db.campaigns
    ensures FinishNoticed(t, c)
  {
    hide RunStep;
    RunKeepsCampaign(s, w, answer, c);
    RunProceeds(s, w, answer);
    assert HolderOwns(s, s.workers[w]);
    if AllFinished(t.db, c) {
      if AllFinished(s.db, c) {
        if v :| v in s.workers && AboutToNotice(s.workers[v], c) {
          assert v in t.workers && t.workers[v].job.campaign == c;
          assert Remaining(s.db, c) == {};
        } else {
          assert forall r :: r in t.db.recipients ==>
              r in s.db.recipients && t.db.recipients[r].campaign == s.db.recipients[r].campaign;
        }
      } else {
        var r :| r in s.db.recipients && s.db.recipients[r].campaign == c && Unfinished(s.db.recipients[r].status);
        assert r in t.db.recipients && !Unfinished(t.db.recipients[r].status);
        assert t.workers[w].pc == Count && t.workers[w].job.campaign == c;
      }
    }
  }

  lemma ExecKeepsUnderway(s: State, step: Step, c: CampaignId)
    requires Inv(s) && Underway(s, c) && Undisturbed(s, step, c)
    ensures Underway(Exec(s, step), c)
  {
    hide RunStep, CreateStep;
    if step.Run? {
      if step.w in s.workers {
        RunKeepsUnderway(s, step.w, step.answer, c);
      }
    } else if step.Create? {
      CreateKeepsUnderway(s, step.c, step.campaign, step.recipients, c);
    } else {
      ElsewhereLeavesAlone(s, step, c);
      LeftAloneStaysUnderway(s, Exec(s, step), c);
    }
  }

  lemma CreateKeepsUnderway(s: State, d: CampaignId, campaign: Campaign, recipients: set<RecipientId>, c: CampaignId)
    requires Inv(s) && Underway(s, c)
    ensures Underway(CreateStep(s, d, campaign, recipients), c)
  {
    var t := CreateStep(s, d, campaign, recipients);
    if t != s {
      assert c != d;
      assert forall r | r in t.db.recipients && t.db.recipients[r].campaign == c
          :: r in s.db.recipients && t.db.recipients[r] == s.db.recipients[r];
      assert forall r | r in s.db.recipients :: r in t.db.recipients && t.db.recipients[r] == s.db.recipients[r];
      hide CreateStep;
      assert AllFinished(t.db, c) ==> AllFinished(s.db, c);
    }
  }

  /** The rows and workers of campaign `c` are left alone, but for workers that start, or crash
      before they claim. */
  ghost predicate LeavesAlone(s: State, t: State, c: CampaignId)
    requires c in s.db.campaigns
  {
    && c in t.db.campaigns && t.db.campaigns[c] == s.db.campaigns[c]
    && (forall r | r in s.db.recipients && s.db.recipients[r].campaign == c
          :: r in t.db.recipients && t.db.recipients[r] == s.db.recipients[r])
    && (forall r | r in t.db.recipients :: r in s.db.recipients && t.db.recipients[r] == s.db.recipients[r])
    && (forall w | w in s.workers
          :: w in t.workers && (s.workers[w].job.campaign == c ==>
               || t.workers[w] == s.workers[w]
               || (BeforeClaim(s.workers[w].pc) && t.workers[w] == Worker(s.workers[w].job, Crashed))))
    && (forall w | w in t.workers
          :: (w in s.workers && t.workers[w].job == s.workers[w].job) || t.workers[w].pc == Start)
  }

  lemma ElsewhereLeavesAlone(s: State, step: Step, c: CampaignId)
    requires c in s.db.campaigns && Undisturbed(s, step, c) && !step.Run? && !step.Create?
    ensures LeavesAlone(s, Exec(s, step), c)
  {
    hide RunStep, CreateStep;
  }

  lemma LeftAloneStaysUnderway(s: State, t: State, c: CampaignId)
    requires Underway(s, c) && LeavesAlone(s, t, c)
    ensures Underway(t, c)
  {
    assert AllFinished(t.db, c) ==> AllFinished(s.db, c);
  }

  lemma {:induction false} RunsKeepUnderway(s: State, steps: seq<Step>, c: CampaignId)
    requires Inv(s) && Underway(s, c) && UndisturbedRun(s, steps, c)
    ensures Inv(ExecAll(s, steps)) && Underway(ExecAll(s, steps), c)
    decreases |steps|
  {
    if steps != [] {
      ExecKeepsInv(s, steps[0]);
      ExecKeepsUnderway(s, steps[0], c);
      RunsKeepUnderway(Exec(s, steps[0]), steps[1..], c);
    }
  }

  /** Every recipient of the campaign had a job that ran to its end, and no worker of the
      campaign is still at work. */
  ghost predicate JobsFinished(s: State, c: CampaignId) {
    && (forall w :: w in s.workers && s.workers[w].job.campaign == c ==> Stopped(s.workers[w].pc))
    && (forall r :: r in s.db.recipients && s.db.recipients[r].campaign == c
          ==> exists w :: w in s.workers && s.workers[w].job == Job(c, r) && s.workers[w].pc == Done)
  }

  lemma {:induction false} RecipientsRemain(s: State, steps: seq<Step>, c: CampaignId, r: RecipientId)
    requires Inv(s) && UndisturbedRun(s, steps, c) && r in s.db.recipients && s.db.recipients[r].campaign == c
    ensures r in ExecAll(s, steps).db.recipients && ExecAll(s, steps).db.recipients[r].campaign == c
    decreases |steps|
  {
    if steps != [] {
      ExecKeepsInv(s, steps[0]);
      RecipientRemains(s, steps[0], c, r);
      RecipientsRemain(Exec(s, steps[0]), steps[1..], c, r);
    }
  }

  lemma RecipientRemains(s: State, step: Step, c: CampaignId, r: RecipientId)
    requires Inv(s) && Undisturbed(s, step, c) && r in s.db.recipients && s.db.recipients[r].campaign == c
    ensures r in Exec(s, step).db.recipients && Exec(s, step).db.recipients[r].campaign == c
  {
    hide RunStep;
    ExecKeepsInv(s, step);
    if step.Run? && step.w in s.workers {
      RunHasEffect(s, step.w, step.answer);
    }
  }

  /** After any history, a campaign with at least one recipient that then runs without service
      steps on it, and without a crash between a worker's claim and its end, is completed once
      every recipient's job ran to its end. */
  lemma JobsDoneMeansCompleted(before: seq<Step>, c: CampaignId, campaign: Campaign, recipients: set<RecipientId>,
                               after: seq<Step>)
    requires recipients != {} && campaign.status in {Queued, Scheduled}
    requires var s := ExecAll(INITIAL, before);
             && c !in s.usedCampaigns && recipients !! s.sends.Keys
             && forall w :: w in s.workers ==> s.workers[w].job.campaign != c
    requires UndisturbedRun(CreateStep(ExecAll(INITIAL, before), c, campaign, recipients), after, c)
    requires JobsFinished(ExecAll(CreateStep(ExecAll(INITIAL, before), c, campaign, recipients), after), c)
    ensures var t := ExecAll(CreateStep(ExecAll(INITIAL, before), c, campaign, recipients), after);
            c in t.db.campaigns && t.db.campaigns[c].status == Completed
  {
    hide ExecAll, CreateStep, UndisturbedRun, JobsFinished, Underway, Inv;
    var s := ExecAll(INITIAL, before);
    InitiallyInv();
    RunsKeepInv(INITIAL, before);
    CreateKeepsInv(s, c, campaign, recipients);
    var created := CreateStep(s, c, campaign, recipients);
    CreatedIsUnderway(s, c, campaign, recipients);
    RunsKeepUnderway(created, after, c);
    var r :| r in recipients;
    RecipientsRemain(created, after, c, r);
    UnderwayExists(ExecAll(created, after), c);
    FinishedIsCompleted(ExecAll(created, after), c, r);
  }

  lemma InitiallyInv()
    ensures Inv(INITIAL)
  {
  }

  lemma UnderwayExists(s: State, c: CampaignId)
    requires Underway(s, c)
    ensures c in s.db.campaigns
  {
  }

  lemma FinishedIsCompleted(s: State, c: CampaignId, r: RecipientId)
    requires Underway(s, c) && JobsFinished(s, c) && r in s.db.recipients && s.db.recipients[r].campaign == c
    ensures c in s.db.campaigns && s.db.campaigns[c].status == Completed
  {
    forall q | q in s.db.recipients && s.db.recipients[q].campaign == c
      ensures !Unfinished(s.db.recipients[q].status)
    {
      var w :| w in s.workers && s.workers[w].job == Job(c, q) && s.workers[w].pc == Done;
    }
  }

  lemma CreatedIsUnderway(s: State, c: CampaignId, campaign: Campaign, recipients: set<RecipientId>)
    requires Inv(s) && recipients != {} && campaign.status in {Queued, Scheduled}
    requires c !in s.usedCampaigns && recipients !! s.sends.Keys
    requires forall w :: w in s.workers ==> s.workers[w].job.campaign != c
    ensures var t := CreateStep(s, c, campaign, recipients);
            Underway(t, c) && forall r :: r in recipients ==> r in t.db.recipients && t.db.recipients[r].campaign == c
  {
    var t := CreateStep(s, c, campaign, recipients);
    var r :| r in recipients;
    assert t.db.recipients[r] == Recipient(c, Pending);
  }

  // Halted campaigns

  /** The campaign is gone, paused, canceled or failed. */
  ghost predicate IsHalted(s: State, c: CampaignId) {
    c in s.db.campaigns ==> s.db.campaigns[c].status in {Paused, Canceled, CampaignFailed}
  }

  ghost predicate HaltedRun(s: State, steps: seq<Step>, c: CampaignId)
    decreases |steps|
  {
    IsHalted(s, c) && (steps == [] || HaltedRun(Exec(s, steps[0]), steps[1..], c))
  }

  /** The worker has not begun, or is at its end: it has claimed nothing. */
  predicate AtRest(pc: Pc) {
    pc == Start || pc == Done || pc == Crashed
  }

  lemma HaltedStepRests(s: State, step: Step, c: CampaignId, w: WorkerId)
    requires IsHalted(s, c) && w in s.workers && s.workers[w].job.campaign == c && AtRest(s.workers[w].pc)
    ensures var t := Exec(s, step);
            w in t.workers && t.workers[w].job == s.workers[w].job && AtRest(t.workers[w].pc)
  {
    hide CreateStep;
    if step.Run? && step.w in s.workers && step.w != w {
      hide RunStep;
      RunHasEffect(s, step.w, step.answer);
    } else if step.Create? {
      CreateKeepsWorkers(s, step.c, step.campaign, step.recipients);
    }
  }

  /** While a campaign stays halted, a worker of it that has not begun never claims or sends. */
  lemma {:induction false} HaltedWorkerRests(s: State, steps: seq<Step>, c: CampaignId, w: WorkerId)
    requires HaltedRun(s, steps, c) && w in s.workers && s.workers[w].job.campaign == c && AtRest(s.workers[w].pc)
    ensures var t := ExecAll(s, steps);
            w in t.workers && t.workers[w].job == s.workers[w].job && AtRest(t.workers[w].pc)
    decreases |steps|
  {
    if steps != [] {
      HaltedStepRests(s, steps[0], c, w);
      hide Exec;
      HaltedWorkerRests(Exec(s, steps[0]), steps[1..], c, w);
    }
  }

  ghost predicate AllAtRest(s: State, c: CampaignId) {
    forall w :: w in s.workers && s.workers[w].job.campaign == c ==> AtRest(s.workers[w].pc)
  }

  lemma HaltedStepLeaves(s: State, step: Step, c: CampaignId, r: RecipientId)
    requires Inv(s) && IsHalted(s, c) && AllAtRest(s, c)
    requires r in s.db.recipients && s.db.recipients[r].campaign == c
    ensures var t := Exec(s, step);
            && AllAtRest(t, c)
            && (r in t.db.recipients ==> t.db.recipients[r] == s.db.recipients[r])
            && r in t.sends && t.sends[r] == s.sends[r]
  {
    hide RunStep, CreateStep;
    if step.Run? && step.w in s.workers {
      RunHasEffect(s, step.w, step.answer);
      assert HolderOwns(s, s.workers[step.w]);
      if s.workers[step.w].job.campaign == c {
        HaltedStepRests(s, step, c, step.w);
      }
    } else if step.Create? {
      CreateLeavesOthers(s, step.c, step.campaign, step.recipients, r);
      CreateKeepsWorkers(s, step.c, step.campaign, step.recipients);
    }
  }

  lemma CreateLeavesOthers(s: State, c: CampaignId, campaign: Campaign, recipients: set<RecipientId>, r: RecipientId)
    requires Inv(s) && r in s.db.recipients
    ensures var t := CreateStep(s, c, campaign, recipients);
            && r in t.db.recipients && t.db.recipients[r] == s.db.recipients[r]
            && r in s.sends && r in t.sends && t.sends[r] == s.sends[r]
  {
  }

  /** With no worker past its start, a halted campaign stays as it is, whatever jobs are handed
      out: its recipients keep their status, and nothing is sent to them. */
  lemma {:induction false} HaltedCampaignRests(s: State, steps: seq<Step>, c: CampaignId, r: RecipientId)
    requires Inv(s) && HaltedRun(s, steps, c) && AllAtRest(s, c)
    requires r in s.db.recipients && s.db.recipients[r].campaign == c
    ensures var t := ExecAll(s, steps);
            r in t.db.recipients ==>
              && t.db.recipients[r] == s.db.recipients[r]
              && r in s.sends && r in t.sends && t.sends[r] == s.sends[r]
    decreases |steps|
  {
    hide RunStep, CreateStep;
    if steps != [] {
      var m := Exec(s, steps[0]);
      ExecKeepsInv(s, steps[0]);
      HaltedStepLeaves(s, steps[0], c, r);
      hide Exec;
      if r in m.db.recipients {
        HaltedCampaignRests(m, steps[1..], c, r);
      } else {
        DeletedStaysDeleted(m, steps[1..], r);
      }
    }
  }

  /** What the service's calls do to a campaign: an update only changes one that is queued or
      scheduled, pausing and resuming take any status, and removing takes the recipients along.
      They leave workers, sends and all other campaigns alone. */
  lemma ServiceCalls(s: State, step: Step, c: CampaignId)
    requires step.Update? || step.Pause? || step.Resume? || step.Remove?
    ensures var t := Exec(s, step);
            && t.workers == s.workers && t.sends == s.sends && t.usedCampaigns == s.usedCampaigns
            && (step.c != c ==> (c in t.db.campaigns <==> c in s.db.campaigns)
                                && (c in s.db.campaigns ==> t.db.campaigns[c] == s.db.campaigns[c]))
            && (forall r :: r in t.db.recipients <==>
                  r in s.db.recipients && (step.Remove? ==> s.db.recipients[r].campaign != step.c))
            && (forall r :: r in t.db.recipients ==> t.db.recipients[r] == s.db.recipients[r])
            && (step == Remove(c) ==> c !in t.db.campaigns)
            && (!step.Remove? && c in s.db.campaigns ==>
                  && c in t.db.campaigns && t.db.campaigns[c].delivery == s.db.campaigns[c].delivery
                  && (step == Pause(c) ==> t.db.campaigns[c].status == Paused)
                  && (step == Resume(c) ==> t.db.campaigns[c].status == Sending)
                  && (step.Update? && step.c == c ==>
                        t.db.campaigns[c].status ==
                        if s.db.campaigns[c].status in {Queued, Scheduled}
                           && step.to in {Queued, Scheduled, Paused, Canceled}
                        then step.to else s.db.campaigns[c].status))
  {
    if step.Pause? || step.Resume? {
      var c := step.c;
      if c in s.db.campaigns {
        EveryStatus(s.db.campaigns[c].status);
      }
    }
  }

  lemma EveryStatus(status: CampaignStatus)
    ensures status in ANY_STATUS
  {
    match status
    case Queued =>
    case Scheduled =>
    case Sending =>
    case Paused =>
    case Completed =>
    case CampaignFailed =>
    case Canceled =>
  }

  lemma HaltedStays(s: State, step: Step, c: CampaignId)
    requires Inv(s) && IsHalted(s, c) && AllAtRest(s, c) && c in s.usedCampaigns && step != Resume(c)
    ensures IsHalted(Exec(s, step), c) && AllAtRest(Exec(s, step), c) && c in Exec(s, step).usedCampaigns
  {
    hide CreateStep, Inv;
    if step.Run? {
      if step.w in s.workers {
        HaltedRunStays(s, step.w, step.answer, c);
      }
    } else if step.Create? {
      CreateKeepsHalted(s, step.c, step.campaign, step.recipients, c);
      CreateKeepsWorkers(s, step.c, step.campaign, step.recipients);
    } else if !step.Spawn? && !step.Crash? {
      ServiceCalls(s, step, c);
    }
  }

  lemma CreateKeepsHalted(s: State, d: CampaignId, campaign: Campaign, recipients: set<RecipientId>, c: CampaignId)
    requires IsHalted(s, c) && c in s.usedCampaigns
    ensures IsHalted(CreateStep(s, d, campaign, recipients), c)
    ensures c in CreateStep(s, d, campaign, recipients).usedCampaigns
  {
  }

  lemma HaltedRunStays(s: State, w: WorkerId, answer: Answer, c: CampaignId)
    requires w in s.workers && IsHalted(s, c) && AllAtRest(s, c)
    ensures IsHalted(RunStep(s, w, answer), c) && AllAtRest(RunStep(s, w, answer), c)
    ensures RunStep(s, w, answer).usedCampaigns == s.usedCampaigns
  {
    hide Claimable, Remaining;
  }

  lemma {:induction false} PausedRunIsHalted(s: State, steps: seq<Step>, c: CampaignId)
    requires Inv(s) && IsHalted(s, c) && AllAtRest(s, c) && c in s.usedCampaigns && Resume(c) !in steps
    ensures HaltedRun(s, steps, c)
    decreases |steps|
  {
    if steps != [] {
      HaltedStays(s, steps[0], c);
      ExecKeepsInv(s, steps[0]);
      hide Inv, Exec, IsHalted, AllAtRest;
      PausedRunIsHalted(Exec(s, steps[0]), steps[1..], c);
    }
  }

  /** A paused campaign rests until it is resumed: pausing it while no worker of it is past its
      start stops every claim and every send, however jobs, retries, crashes and other service
      calls go on, updates of the campaign itself included. */
  lemma PausedUntilResumed(s: State, steps: seq<Step>, c: CampaignId, r: RecipientId)
    requires Inv(s) && AllAtRest(s, c) && c in s.usedCampaigns && Resume(c) !in steps
    requires r in s.db.recipients && s.db.recipients[r].campaign == c
    ensures var t := ExecAll(Exec(s, Pause(c)), steps);
            r in t.db.recipients ==>
              && t.db.recipients[r] == s.db.recipients[r]
              && r in s.sends && r in t.sends && t.sends[r] == s.sends[r]
  {
    var paused := Exec(s, Pause(c));
    ServiceCalls(s, Pause(c), c);
    ExecKeepsInv(s, Pause(c));
    hide Inv, Exec, ExecAll;
    PausedRunIsHalted(paused, steps, c);
    HaltedCampaignRests(paused, steps, c, r);
  }

  // What a crash leaves behind

  /** A recipient in processing that no worker holds. */
  ghost predicate Stranded(s: State, r: RecipientId) {
    && r in s.db.recipients && s.db.recipients[r].status == Processing
    && forall w :: w in s.workers && s.workers[w].job.recipient == r ==> !Holds(s.workers[w].pc)
  }

  /** A crash after the claim strands the recipient. */
  lemma CrashStrands(s: State, w: WorkerId)
    requires Inv(s) && w in s.workers && Holds(s.workers[w].pc) && s.workers[w].job.recipient in s.db.recipients
    ensures Stranded(Exec(s, Crash(w)), s.workers[w].job.recipient)
  {
    assert HolderOwns(s, s.workers[w]);
  }

  /** No retry and no later step revives a stranded recipient: while its campaign exists, it
      stays in processing and the campaign is never completed. */
  lemma {:induction false} StrandedForever(s: State, steps: seq<Step>, r: RecipientId)
    requires Inv(s) && Stranded(s, r)
    ensures var t := ExecAll(s, steps);
            r in t.db.recipients ==>
              && Stranded(t, r)
              && (t.db.recipients[r].campaign in t.db.campaigns ==>
                    t.db.campaigns[t.db.recipients[r].campaign].status != Completed)
    decreases |steps|
  {
    if steps != [] {
      var m := Exec(s, steps[0]);
      ExecKeepsInv(s, steps[0]);
      if r !in m.db.recipients {
        DeletedStaysDeleted(m, steps[1..], r);
      } else {
        StepKeepsStranded(s, steps[0], r);
        StrandedForever(m, steps[1..], r);
      }
    }
  }

  lemma StepKeepsStranded(s: State, step: Step, r: RecipientId)
    requires Inv(s) && Stranded(s, r) && r in Exec(s, step).db.recipients
    ensures Stranded(Exec(s, step), r)
  {
    hide RunStep, CreateStep;
    ExecKeepsInv(s, step);
    if step.Run? && step.w in s.workers {
      RunHasEffect(s, step.w, step.answer);
    } else if step.Create? {
      assert Exec(s, step).workers == s.workers by { CreateKeepsWorkers(s, step.c, step.campaign, step.recipients); }
    }
  }

  lemma CreateKeepsWorkers(s: State, c: CampaignId, campaign: Campaign, recipients: set<RecipientId>)
    ensures CreateStep(s, c, campaign, recipients).workers == s.workers
  {
  }
}
