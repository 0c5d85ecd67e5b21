/** Validation: the accept/reject decision on a looked-up record, and the
    effect of one IsValid call on the record store, written as a relation
    between the store before and after. The store is the document
    collection: a map from Id to record, searched by UserNamedId. */
module Validator {
  import opened Outcome
  import opened Records

  type Store = map<Id, Otp>

  /** Every record is stored under its own Id. */
  ghost predicate WellKeyed(s: Store)
  {
    forall id | id in s :: s[id].Id == id
  }

  /** The record stored under `id` belongs to `user`. */
  predicate HasUser(s: Store, id: Id, user: string)
  {
    id in s && s[id].UserNamedId == user
  }

  /** At most one record per user. The source does not enforce this. */
  ghost predicate UniqueUsers(s: Store)
  {
    forall i, j | j in s && HasUser(s, i, s[j].UserNamedId) :: i == j
  }

  /** The three conditions under which a found record is accepted: exact
      value, creation time plus validity not yet passed, status Ready. */
  predicate Accepts(r: Otp, value: string, now: int, validity: int)
  {
    r.Value == value && now <= r.CreationDate + validity && r.Status == ReadyStatus
  }

  /** Validate's boolean result and what it leaves in its out-parameter. */
  datatype Verdict = Verdict(accepted: bool, record: Option<Otp>)

  /** Validate. `found` is the lookup result (None when the lookup failed;
      what the lookup then leaves in the out-parameter is not part of this
      model). `blank` is the `new OTP()` that replaces the record on
      rejection. */
  function Validate(found: Option<Otp>, value: string, now: int, validity: int, blank: Otp): (v: Verdict)
    ensures v.accepted <==> found.Some? && Accepts(found.value, value, now, validity)
    ensures v.accepted ==> v.record == found
    ensures !v.accepted && found.Some? ==> v.record == Some(blank)
    ensures found.None? ==> v.record.None?
  {
    match found
    case None => Verdict(false, None)
    case Some(otp) =>
      if otp.Value == value then
        var dt := otp.CreationDate + validity;
        if dt >= now then
          if otp.Status == ReadyStatus then Verdict(true, found)
          else Verdict(false, Some(blank))
        else Verdict(false, Some(blank))
      else Verdict(false, Some(blank))
  }

  /** One IsValid call, from store `s` to store `s'`, with result `accepted`.
      When some record of `user` exists, one of them is found; the call
      accepts exactly when that record does, and then deletes it; a rejected
      record stays, because the deletion targets the fresh replacement
      record, whose Id is stored nowhere. When the user has no record the
      call rejects, provided the lookup leaves a non-null record behind for
      the deletion to dereference; its effect on the store is left open. */
  ghost predicate IsValidStep(s: Store, s': Store, accepted: bool, value: string, user: string,
                              now: int, validity: int)
  {
    if exists id :: HasUser(s, id, user) then
      exists id :: HasUser(s, id, user) && accepted == Accepts(s[id], value, now, validity)
                   && s' == (if accepted then s - {id} else s)
    else
      !accepted
  }

  /** With one record per user, the call decides on that user's record:
      accepted exactly when it matches, is live and is Ready; deleted
      exactly when accepted. In particular an expired record or a wrong
      value is rejected, and the record is not consumed. */
  lemma StepDecidesOnStoredRecord(s: Store, s': Store, accepted: bool, value: string, id: Id,
                                  now: int, validity: int)
    requires UniqueUsers(s) && id in s
    requires IsValidStep(s, s', accepted, value, s[id].UserNamedId, now, validity)
    ensures accepted <==> Accepts(s[id], value, now, validity)
    ensures s' == if accepted then s - {id} else s
  {
    var user := s[id].UserNamedId;
    assert HasUser(s, id, user);
    var j :| HasUser(s, j, user) && accepted == Accepts(s[j], value, now, validity)
             && s' == (if accepted then s - {j} else s);
    assert j == id;
  }

  /** A user with no record is always rejected. */
  lemma StepRejectsUnknownUser(s: Store, s': Store, accepted: bool, value: string, user: string,
                               now: int, validity: int)
    requires forall id :: !HasUser(s, id, user)
    requires IsValidStep(s, s', accepted, value, user, now, validity)
    ensures !accepted
  {
  }

  /** A code is used at most once: after an accepted call, with one record
      per user, no record of that user is left, so the next call for the
      same user rejects whatever value it is given. */
  lemma AcceptedCodeIsConsumed(s: Store, s': Store, value: string, user: string,
                               now: int, validity: int)
    requires UniqueUsers(s)
    requires IsValidStep(s, s', true, value, user, now, validity)
    ensures forall id :: !HasUser(s', id, user)
    ensures UniqueUsers(s')
    ensures forall s'': Store, accepted': bool, value': string, now': int ::
              IsValidStep(s', s'', accepted', value', user, now', validity) ==> !accepted'
  {
    var id :| HasUser(s, id, user) && Accepts(s[id], value, now, validity) && s' == s - {id};
    forall j ensures !HasUser(s', j, user) {
      assert j in s' ==> s'[j] == s[j];
    }
    forall i, j | j in s' && HasUser(s', i, s'[j].UserNamedId) ensures i == j {
      assert HasUser(s, i, s[j].UserNamedId);
    }
  }

  /** Issue then verify: a freshly generated record (status at its initial
      value) for a user with no other record, stored under its own Id, is
      accepted by the first call with its value while it is live, which
      removes it and restores the store; a second call for that user then
      rejects. */
  lemma IssuedCodeAcceptedOnce(s0: Store, r: Otp, s2: Store, accepted: bool, now: int, validity: int)
    requires WellKeyed(s0) && UniqueUsers(s0)
    requires r.Id !in s0 && forall id :: !HasUser(s0, id, r.UserNamedId)
    requires r.Status == DefaultStatus && now <= r.CreationDate + validity
    requires IsValidStep(s0[r.Id := r], s2, accepted, r.Value, r.UserNamedId, now, validity)
    ensures WellKeyed(s0[r.Id := r]) && UniqueUsers(s0[r.Id := r])
    ensures accepted && s2 == s0
    ensures forall s3: Store, accepted': bool, value': string, now': int ::
              IsValidStep(s2, s3, accepted', value', r.UserNamedId, now', validity) ==> !accepted'
  {
    var s1 := s0[r.Id := r];
    forall j | j in s0 ensures s0[j].UserNamedId != r.UserNamedId {
      assert !HasUser(s0, j, r.UserNamedId);
    }
    forall i, j | j in s1 && HasUser(s1, i, s1[j].UserNamedId) ensures i == j {
      if i != r.Id && j != r.Id {
        assert HasUser(s0, i, s0[j].UserNamedId);
      }
    }
    StepDecidesOnStoredRecord(s1, s2, accepted, r.Value, r.Id, now, validity);
    assert s1 - {r.Id} == s0;
  }
}
