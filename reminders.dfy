/**
 * The persisted reminder record and the two things the service asks of the
 * store: find the due, unsent records, and mark one of them sent. The
 * store is an in-memory sequence; a record's index is its identity.
 */
module Reminders {

  /** One stored reminder. sent starts false and is only ever set to true. */
  datatype Reminder = Reminder(email: string, problemUrl: string, scheduledFor: int, sent: bool)

  /** What the sweep's query selects: scheduledFor <= now and sent == false. */
  predicate IsDue(r: Reminder, now: int)
  {
    r.scheduledFor <= now && !r.sent
  }

  /** The indices from start on of the records due at now, in store order. */
  function DueFrom(rs: seq<Reminder>, now: int, start: nat): (due: seq<nat>)
    requires start <= |rs|
    ensures forall k :: 0 <= k < |due| ==> start <= due[k] < |rs| && IsDue(rs[due[k]], now)
    ensures forall i :: start <= i < |rs| && IsDue(rs[i], now) ==> i in due
    ensures forall j, k :: 0 <= j < k < |due| ==> due[j] < due[k]
    decreases |rs| - start
  {
    if start == |rs| then []
    else if IsDue(rs[start], now) then [start] + DueFrom(rs, now, start + 1)
    else DueFrom(rs, now, start + 1)
  }

  /**
   * The working set of a sweep at now: exactly the indices of the due
   * records, each once, in store order.
   */
  function Due(rs: seq<Reminder>, now: int): (due: seq<nat>)
    ensures forall i: int :: i in due <==> 0 <= i < |rs| && IsDue(rs[i], now)
    ensures forall j, k :: 0 <= j < k < |due| ==> due[j] < due[k]
  {
    DueFrom(rs, now, 0)
  }

  /** The store after the records at the given indices were marked sent, one after another. */
  function MarkSent(rs: seq<Reminder>, marked: seq<nat>): (r: seq<Reminder>)
    ensures |r| == |rs|
    ensures forall i :: 0 <= i < |rs| ==> r[i] == if i in marked then rs[i].(sent := true) else rs[i]
  {
    if marked == [] then rs
    else
      var before := MarkSent(rs, marked[..|marked| - 1]);
      var j := marked[|marked| - 1];
      assert forall i :: i in marked <==> i in marked[..|marked| - 1] || i == j;
      if j < |before| then before[j := before[j].(sent := true)] else before
  }

  // ---------------------------------------------------------------------------
  // Properties of the query
  // ---------------------------------------------------------------------------

  /** A record whose instant has not come is never in the working set. */
  lemma FutureNeverDue(rs: seq<Reminder>, i: nat, now: int)
    requires i < |rs| && now < rs[i].scheduledFor
    ensures i !in Due(rs, now)
  {
  }

  /** An unsent record stays due at every later instant. */
  lemma DueStaysDue(rs: seq<Reminder>, i: nat, now: int, later: int)
    requires i in Due(rs, now) && now <= later
    ensures i in Due(rs, later)
  {
  }

  /** The suffix form of DueAfterAppend, by induction on the records still to scan. */
  lemma {:induction false} DueFromAfterAppend(rs: seq<Reminder>, r: Reminder, now: int, start: nat)
    requires start <= |rs|
    ensures DueFrom(rs + [r], now, start) == DueFrom(rs, now, start) + (if IsDue(r, now) then [|rs|] else [])
    decreases |rs| - start
  {
    var after := rs + [r];
    if start == |rs| {
      assert DueFrom(after, now, |after|) == [];
    } else {
      assert after[start] == rs[start];
      DueFromAfterAppend(rs, r, now, start + 1);
    }
  }

  /**
   * Registering a record leaves the working set of the older records as it
   * was and adds the new one at the end exactly when it is due.
   */
  lemma DueAfterAppend(rs: seq<Reminder>, r: Reminder, now: int)
    ensures Due(rs + [r], now) == Due(rs, now) + (if IsDue(r, now) then [|rs|] else [])
  {
    DueFromAfterAppend(rs, r, now, 0);
  }

  /** Marking the next record of a list sent updates just that record. */
  lemma MarkSentStep(rs: seq<Reminder>, list: seq<nat>, i: nat)
    requires i < |list| && list[i] < |rs|
    ensures MarkSent(rs, list[..i + 1]) == MarkSent(rs, list[..i])[list[i] := MarkSent(rs, list[..i])[list[i]].(sent := true)]
  {
    assert list[..i + 1][..i] == list[..i];
  }

  /** The suffix form of NoneDue. */
  lemma {:induction false} NoneDueFrom(rs: seq<Reminder>, now: int, start: nat)
    requires start <= |rs|
    requires forall i :: start <= i < |rs| ==> !IsDue(rs[i], now)
    ensures DueFrom(rs, now, start) == []
    decreases |rs| - start
  {
    if start < |rs| {
      NoneDueFrom(rs, now, start + 1);
    }
  }

  /** The working set is empty when no record is due. */
  lemma NoneDue(rs: seq<Reminder>, now: int)
    requires forall i :: 0 <= i < |rs| ==> !IsDue(rs[i], now)
    ensures Due(rs, now) == []
  {
    NoneDueFrom(rs, now, 0);
  }

  /**
   * Marking the first k records of a working set sent leaves the rest of it
   * unchanged and still due at every later instant.
   */
  lemma MarkedPrefix(rs: seq<Reminder>, now: int, k: nat, later: int)
    requires k <= |Due(rs, now)| && now <= later
    ensures var due := Due(rs, now);
      var after := MarkSent(rs, due[..k]);
      && (forall j :: 0 <= j < k ==> after[due[j]].sent)
      && (forall j :: k <= j < |due| ==> after[due[j]] == rs[due[j]] && due[j] in Due(after, later))
  {
    var due := Due(rs, now);
    var after := MarkSent(rs, due[..k]);
    forall j | 0 <= j < k
      ensures after[due[j]].sent
    {
      assert due[j] in due[..k];
    }
    forall j | k <= j < |due|
      ensures after[due[j]] == rs[due[j]] && due[j] in Due(after, later)
    {
      assert due[j] !in due[..k];
    }
  }

  /** A record that has been marked sent is out of every later working set. */
  lemma MarkedNeverDue(rs: seq<Reminder>, marked: seq<nat>, i: nat, now: int)
    requires i in marked && i < |rs|
    ensures i !in Due(MarkSent(rs, marked), now)
  {
  }
}
