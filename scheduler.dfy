/**
 * The two request handlers of the reminder service, as atomic steps on the
 * store: register (set-reminder) and sweep (check-reminders).
 *
 * The mail transport and the database are outside the model; what they do
 * on a call is given as a parameter: whether the confirmation mail and the
 * save of a new record succeed, whether the sweep's query succeeds, and one
 * Step per due record for what the reminder mail and the save that marks
 * the record sent do.
 */
module Scheduler {
  import opened Wrappers
  import Delay
  import opened Reminders

  /** The value the x-cron-secret header must carry for a sweep to run. */
  const CronSecret: string := "Sanjeev"

  const ConfirmationSubject: string := "LeetCode Reminder Confirmation"
  const ReminderSubject: string := "LeetCode Problem Reminder"

  /** An email the transport accepted: its address, its subject and the problem link its body shows. */
  datatype Mail = Mail(to: string, subject: string, problemUrl: string)

  /** What happens to one due record in a sweep. */
  datatype Step =
    | Delivered   // the mail went out and the record was saved as sent
    | SendFailed  // the transport refused the mail
    | SaveFailed  // the mail went out, but saving the record as sent failed

  datatype RegisterResult = Registered | RegisterFailed

  datatype SweepResult = Unauthorized | Processed(count: nat) | SweepFailed

  datatype RegisterRun = RegisterRun(result: RegisterResult, records: seq<Reminder>, mailed: seq<Mail>)

  datatype SweepRun = SweepRun(result: SweepResult, records: seq<Reminder>, mailed: seq<Mail>)

  predicate Authorized(secret: Option<string>)
  {
    secret == Some(CronSecret)
  }

  /**
   * Register: the confirmation mail is sent first; only when it went out is
   * the due instant computed and the record saved. An invalid due date is
   * refused by the save. A confirmation can go out for a registration that
   * then fails.
   */
  function RegisterSpec(rs: seq<Reminder>, email: string, problemUrl: string, token: string, now: int,
                        confirmed: bool, saved: bool): (run: RegisterRun)
    ensures run.result == Registered <==> confirmed && Delay.DueTime(token, now).Some? && saved
    ensures run.result == Registered ==>
      |run.records| == |rs| + 1 && run.records[..|rs|] == rs &&
      run.records[|rs|] == Reminder(email, problemUrl, Delay.DueTime(token, now).value, false)
    ensures run.result == RegisterFailed ==> run.records == rs
    ensures run.mailed == if confirmed then [Mail(email, ConfirmationSubject, problemUrl)] else []
  {
    if !confirmed then RegisterRun(RegisterFailed, rs, [])
    else
      var confirmation := [Mail(email, ConfirmationSubject, problemUrl)];
      match Delay.DueTime(token, now)
      case None => RegisterRun(RegisterFailed, rs, confirmation)
      case Some(due) =>
        if !saved then RegisterRun(RegisterFailed, rs, confirmation)
        else RegisterRun(Registered, rs + [Reminder(email, problemUrl, due, false)], confirmation)
  }

  /** The number of leading Delivered steps among the first n. */
  function DeliveredPrefix(outcomes: nat -> Step, n: nat): (k: nat)
    ensures k <= n
    ensures forall j: nat :: j < k ==> outcomes(j) == Delivered
    ensures k < n ==> outcomes(k) != Delivered
  {
    if n == 0 then 0
    else
      var k := DeliveredPrefix(outcomes, n - 1);
      if k == n - 1 && outcomes(n - 1) == Delivered then n else k
  }

  /** The reminder mail for a record. */
  function ReminderMail(r: Reminder): Mail
  {
    Mail(r.email, ReminderSubject, r.problemUrl)
  }

  /** The reminder mails for the records at the given indices, in that order. */
  function MailsTo(rs: seq<Reminder>, idx: seq<nat>): (m: seq<Mail>)
    requires forall k :: 0 <= k < |idx| ==> idx[k] < |rs|
    ensures |m| == |idx|
    ensures forall k :: 0 <= k < |idx| ==> m[k] == ReminderMail(rs[idx[k]])
  {
    if idx == [] then []
    else MailsTo(rs, idx[..|idx| - 1]) + [ReminderMail(rs[idx[|idx| - 1]])]
  }

  /** Mailing the next record of a list appends its mail. */
  lemma MailsToStep(rs: seq<Reminder>, list: seq<nat>, i: nat)
    requires i < |list|
    requires forall k :: 0 <= k < |list| ==> list[k] < |rs|
    ensures MailsTo(rs, list[..i + 1]) == MailsTo(rs, list[..i]) + [ReminderMail(rs[list[i]])]
  {
    assert list[..i + 1][..i] == list[..i];
  }


  /** after is before with, at most, its sent flag raised. */
  predicate Evolves(before: Reminder, after: Reminder)
  {
    after.email == before.email && after.problemUrl == before.problemUrl &&
    after.scheduledFor == before.scheduledFor && (before.sent ==> after.sent)
  }

  /**
   * Sweep: refuse without the secret; otherwise take the due records in
   * order, mail each and save it as sent, and stop at the first failure.
   */
  function SweepSpec(rs: seq<Reminder>, secret: Option<string>, now: int, queried: bool,
                     outcomes: nat -> Step): SweepRun
  {
    if !Authorized(secret) then SweepRun(Unauthorized, rs, [])
    else if !queried then SweepRun(SweepFailed, rs, [])
    else
      var due := Due(rs, now);
      var k := DeliveredPrefix(outcomes, |due|);
      if k == |due| then SweepRun(Processed(|due|), MarkSent(rs, due), MailsTo(rs, due))
      else
        var mailedUpTo := if outcomes(k) == SaveFailed then k + 1 else k;
        SweepRun(SweepFailed, MarkSent(rs, due[..k]), MailsTo(rs, due[..mailedUpTo]))
  }

  // ---------------------------------------------------------------------------
  // Properties of registration
  // ---------------------------------------------------------------------------

  /**
   * A registered reminder joins the working set of every sweep from its due
   * instant on, and registering changes the working set in no other way.
   */
  lemma RegisterExtendsWorkingSet(rs: seq<Reminder>, email: string, problemUrl: string, token: string,
                                  now: int, saved: bool, at: int)
    requires RegisterSpec(rs, email, problemUrl, token, now, true, saved).result == Registered
    ensures var after := RegisterSpec(rs, email, problemUrl, token, now, true, saved).records;
      Due(after, at) == Due(rs, at) + (if Delay.DueTime(token, now).value <= at then [|rs|] else [])
  {
    DueAfterAppend(rs, Reminder(email, problemUrl, Delay.DueTime(token, now).value, false), at);
  }

  // ---------------------------------------------------------------------------
  // Properties of the sweep
  // ---------------------------------------------------------------------------

  /**
   * A sweep keeps every record, changes no record outside its working set,
   * and changes a record only by raising its sent flag.
   */
  lemma SweepFrame(rs: seq<Reminder>, secret: Option<string>, now: int, queried: bool, outcomes: nat -> Step)
    ensures var run := SweepSpec(rs, secret, now, queried, outcomes);
      && |run.records| == |rs|
      && (forall i :: 0 <= i < |rs| ==> Evolves(rs[i], run.records[i]))
      && (forall i :: 0 <= i < |rs| && i !in Due(rs, now) ==> run.records[i] == rs[i])
  {
  }

  /** Without the right secret nothing is read, mailed or changed. */
  lemma UnauthorizedSweep(rs: seq<Reminder>, secret: Option<string>, now: int, queried: bool, outcomes: nat -> Step)
    requires secret != Some("Sanjeev")
    ensures SweepSpec(rs, secret, now, queried, outcomes) == SweepRun(Unauthorized, rs, [])
  {
  }

  /** No record is due once every due record has been marked sent. */
  lemma NothingDueAfterMarking(rs: seq<Reminder>, now: int)
    ensures Due(MarkSent(rs, Due(rs, now)), now) == []
  {
    NoneDue(MarkSent(rs, Due(rs, now)), now);
  }

  /**
   * A sweep that succeeds reports as many reminders as were due, mailed
   * each of them once in store order, and marked each of them sent.
   */
  lemma CompletedSweep(rs: seq<Reminder>, secret: Option<string>, now: int, queried: bool, outcomes: nat -> Step)
    requires SweepSpec(rs, secret, now, queried, outcomes).result.Processed?
    ensures var run := SweepSpec(rs, secret, now, queried, outcomes);
      && run.result.count == |Due(rs, now)|
      && run.mailed == MailsTo(rs, Due(rs, now))
      && (forall i :: i in Due(rs, now) ==> run.records[i].sent)
      && Due(run.records, now) == []
  {
    NothingDueAfterMarking(rs, now);
  }

  /** A second sweep at the same instant after a successful one finds, mails and changes nothing. */
  lemma SecondSweepIsEmpty(rs: seq<Reminder>, secret: Option<string>, now: int, queried: bool,
                           outcomes: nat -> Step, again: nat -> Step)
    requires SweepSpec(rs, secret, now, queried, outcomes).result.Processed?
    ensures var after := SweepSpec(rs, secret, now, queried, outcomes).records;
      SweepSpec(after, secret, now, queried, again) == SweepRun(Processed(0), after, [])
  {
    CompletedSweep(rs, secret, now, queried, outcomes);
  }

  /** A record a sweep marked sent is never due again, so it is never mailed again. */
  lemma SentRecordNeverDueAgain(rs: seq<Reminder>, secret: Option<string>, now: int, queried: bool,
                                outcomes: nat -> Step, i: nat, later: int)
    requires i < |rs| && SweepSpec(rs, secret, now, queried, outcomes).records[i].sent
    ensures i !in Due(SweepSpec(rs, secret, now, queried, outcomes).records, later)
  {
  }

  /**
   * A sweep that fails after the query stops at the first failing step k:
   * exactly the due records before k are marked sent, and a mail went out
   * for each of them and, if only the save failed, for record k too.
   * Record k and every later due record stay as they were, unsent, and are
   * in the working set of the next sweep at any later instant.
   */
  lemma InterruptedSweep(rs: seq<Reminder>, now: int, outcomes: nat -> Step, later: int)
    requires SweepSpec(rs, Some("Sanjeev"), now, true, outcomes).result == SweepFailed
    requires now <= later
    ensures var due := Due(rs, now);
      var k := DeliveredPrefix(outcomes, |due|);
      && k < |due| && outcomes(k) != Delivered
      && SweepSpec(rs, Some("Sanjeev"), now, true, outcomes) ==
         SweepRun(SweepFailed, MarkSent(rs, due[..k]), MailsTo(rs, due[..if outcomes(k) == SaveFailed then k + 1 else k]))
    ensures var due := Due(rs, now);
      var k := DeliveredPrefix(outcomes, |due|);
      var after := SweepSpec(rs, Some("Sanjeev"), now, true, outcomes).records;
      && (forall j :: 0 <= j < k ==> after[due[j]].sent)
      && (forall j :: k <= j < |due| ==>
            after[due[j]] == rs[due[j]] && !after[due[j]].sent && due[j] in Due(after, later))
  {
    var due := Due(rs, now);
    MarkedPrefix(rs, now, DeliveredPrefix(outcomes, |due|), later);
  }

  /** The sweep's result when its first failing step is the i-th. */
  lemma SweepStopsAt(rs: seq<Reminder>, now: int, outcomes: nat -> Step, i: nat)
    requires i < |Due(rs, now)|
    requires DeliveredPrefix(outcomes, i) == i
    requires outcomes(i) != Delivered
    ensures var due := Due(rs, now);
      SweepSpec(rs, Some(CronSecret), now, true, outcomes) ==
      SweepRun(SweepFailed, MarkSent(rs, due[..i]),
               MailsTo(rs, due[..if outcomes(i) == SaveFailed then i + 1 else i]))
  {
    DeliveredPrefixStops(outcomes, i, |Due(rs, now)|);
  }

  /** Past the first failing step i, the count of leading deliveries stays at i. */
  lemma {:induction false} DeliveredPrefixStops(outcomes: nat -> Step, i: nat, n: nat)
    requires DeliveredPrefix(outcomes, i) == i && outcomes(i) != Delivered
    requires i < n
    ensures DeliveredPrefix(outcomes, n) == i
  {
    if n > i + 1 {
      DeliveredPrefixStops(outcomes, i, n - 1);
    }
  }

  /** Any header value other than exactly "Sanjeev", a missing or empty one included, is refused. */
  lemma SecretExamples(rs: seq<Reminder>, now: int, outcomes: nat -> Step)
    ensures SweepSpec(rs, None, now, true, outcomes).result == Unauthorized
    ensures SweepSpec(rs, Some("sanjeev"), now, true, outcomes).result == Unauthorized
    ensures SweepSpec(rs, Some(""), now, true, outcomes).result == Unauthorized
    ensures SweepSpec(rs, Some("Sanjeev"), now, false, outcomes).result == SweepFailed
  {
  }

  /**
   * Register "30m" at t0; a sweep 29 minutes later finds nothing, one 31
   * minutes later mails the reminder and marks it sent, and one 40 minutes
   * later finds nothing again.
   */
  lemma ThirtyMinuteScenario(t0: int, outcomes: nat -> Step)
    requires -Delay.MaxTimeMs <= t0 && t0 + 2_400_000 <= Delay.MaxTimeMs
    requires outcomes(0) == Delivered
    ensures var r := Reminder("a@x.com", "https://leetcode.com/p/1", t0 + 1_800_000, false);
      var s := r.(sent := true);
      && RegisterSpec([], "a@x.com", "https://leetcode.com/p/1", "30m", t0, true, true) ==
         RegisterRun(Registered, [r], [Mail("a@x.com", "LeetCode Reminder Confirmation", "https://leetcode.com/p/1")])
      && SweepSpec([r], Some("Sanjeev"), t0 + 1_740_000, true, outcomes) == SweepRun(Processed(0), [r], [])
      && SweepSpec([r], Some("Sanjeev"), t0 + 1_860_000, true, outcomes) ==
         SweepRun(Processed(1), [s], [Mail("a@x.com", "LeetCode Problem Reminder", "https://leetcode.com/p/1")])
      && SweepSpec([s], Some("Sanjeev"), t0 + 2_400_000, true, outcomes) == SweepRun(Processed(0), [s], [])
  {
    Delay.ThirtyMinutes(t0);
    var r := Reminder("a@x.com", "https://leetcode.com/p/1", t0 + 1_800_000, false);
    SweepOfOne(r, t0 + 1_740_000, outcomes);
    SweepOfOne(r, t0 + 1_860_000, outcomes);
    SweepOfOne(r.(sent := true), t0 + 2_400_000, outcomes);
  }

  /** A sweep over a store of one record, whose first step delivers. */
  lemma SweepOfOne(r: Reminder, now: int, outcomes: nat -> Step)
    requires outcomes(0) == Delivered
    ensures !IsDue(r, now) ==> SweepSpec([r], Some("Sanjeev"), now, true, outcomes) == SweepRun(Processed(0), [r], [])
    ensures IsDue(r, now) ==>
      SweepSpec([r], Some("Sanjeev"), now, true, outcomes) ==
      SweepRun(Processed(1), [r.(sent := true)], [ReminderMail(r)])
  {
    if IsDue(r, now) {
      assert DueFrom([r], now, 1) == [];
      assert Due([r], now) == [0];
      assert DeliveredPrefix(outcomes, 1) == 1;
      assert MarkSent([r], [0]) == [r.(sent := true)];
    } else {
      NoneDue([r], now);
    }
  }

  // ---------------------------------------------------------------------------
  // The store and its two handlers
  // ---------------------------------------------------------------------------

  class Store {
    var records: seq<Reminder>

    constructor ()
      ensures records == []
    {
      records := [];
    }

    /** POST /api/set-reminder. */
    method Register(email: string, problemUrl: string, token: string, now: int,
                    confirmed: bool, saved: bool) returns (result: RegisterResult, mailed: seq<Mail>)
      modifies this
      ensures RegisterRun(result, records, mailed) ==
              RegisterSpec(old(records), email, problemUrl, token, now, confirmed, saved)
    {
      if !confirmed {
        return RegisterFailed, [];
      }
      mailed := [Mail(email, ConfirmationSubject, problemUrl)];
      var due := Delay.DueTime(token, now);
      if due.None? || !saved {
        return RegisterFailed, mailed;
      }
      records := records + [Reminder(email, problemUrl, due.value, false)];
      return Registered, mailed;
    }

    /** POST /api/check-reminders. */
    method Sweep(secret: Option<string>, now: int, queried: bool, outcomes: nat -> Step)
      returns (result: SweepResult, mailed: seq<Mail>)
      modifies this
      ensures SweepRun(result, records, mailed) == SweepSpec(old(records), secret, now, queried, outcomes)
    {
      if !Authorized(secret) {
        return Unauthorized, [];
      }
      if !queried {
        return SweepFailed, [];
      }
      var due := Due(records, now);
      ghost var found := records;
      mailed := [];
      var i := 0;
      while i < |due|
        invariant i <= |due|
        invariant DeliveredPrefix(outcomes, i) == i
        invariant |records| == |found|
        invariant records == MarkSent(found, due[..i])
        invariant mailed == MailsTo(found, due[..i])
      {
        var r := records[due[i]];
        if outcomes(i) == SendFailed {
          SweepStopsAt(found, now, outcomes, i);
          return SweepFailed, mailed;
        }
        mailed := mailed + [ReminderMail(r)];
        MailsToStep(found, due, i);
        if outcomes(i) == SaveFailed {
          SweepStopsAt(found, now, outcomes, i);
          return SweepFailed, mailed;
        }
        assert outcomes(i) == Delivered;
        MarkSentStep(found, due, i);
        records := records[due[i] := r.(sent := true)];
        i := i + 1;
      }
      assert due[..i] == due;
      assert DeliveredPrefix(outcomes, |due|) == |due|;
      return Processed(|due|), mailed;
    }
  }
}
