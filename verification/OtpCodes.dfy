// The life of a code over a run: cooldown between issues, attempts, lockout and one-time use.
module OtpCodes {
  import opened Documents
  import opened OtpScripts
  import opened OtpTraces

  predicate Issues(e: Event, p: Phone) {
    e.Issue? && e.phone == p && e.issued == Issued
  }

  predicate Accepts(e: Event, p: Phone) {
    e.Validate? && e.phone == p && e.validated == Accepted
  }

  predicate Locks(e: Event, p: Phone) {
    e.Validate? && e.phone == p && e.validated == LockedOut
  }

  // A guess that was compared with the stored code and differed.
  predicate WrongGuess(e: Event, p: Phone) {
    e.Validate? && e.phone == p && (e.validated == Wrong || e.validated == LockedOut)
  }

  // The position of the phone's latest successful issue.
  function LatestIssue(tr: Trace, p: Phone): (n: Option<nat>)
    ensures n.Some? ==> n.value < |tr| && Issues(tr[n.value], p)
    ensures n.Some? ==> forall j :: n.value < j < |tr| ==> !Issues(tr[j], p)
    ensures n.None? ==> forall j :: 0 <= j < |tr| ==> !Issues(tr[j], p)
  {
    if tr == [] then None
    else if Issues(Last(tr), p) then Some(|tr| - 1)
    else LatestIssue(Init(tr), p)
  }

  // The acceptance or lockout that ended the latest issued code, if any.
  function Closing(tr: Trace, p: Phone): (n: Option<nat>)
    ensures n.Some? ==> n.value < |tr| && (Accepts(tr[n.value], p) || Locks(tr[n.value], p))
    ensures n.Some? ==> forall j :: n.value < j < |tr| ==> !Accepts(tr[j], p) && !Locks(tr[j], p) && !Issues(tr[j], p)
    ensures n.Some? && LatestIssue(tr, p).Some? ==> LatestIssue(tr, p).value < n.value
    ensures n.None? && LatestIssue(tr, p).Some? ==>
              forall j :: LatestIssue(tr, p).value < j < |tr| ==> !Accepts(tr[j], p) && !Locks(tr[j], p)
  {
    if tr == [] || Issues(Last(tr), p) then None
    else if Accepts(Last(tr), p) || Locks(Last(tr), p) then Some(|tr| - 1)
    else Closing(Init(tr), p)
  }

  // The wrong guesses compared with the latest issued code.
  function WrongSince(tr: Trace, p: Phone): nat {
    if tr == [] || Issues(Last(tr), p) then 0
    else WrongSince(Init(tr), p) + if WrongGuess(Last(tr), p) then 1 else 0
  }

  /******* The key space of a phone, read off its run *******/

  ghost predicate CodeInv(cfg: Config, tr: Trace, p: Phone, ks: Keyspace) {
    match LatestIssue(tr, p)
    case None => Code(p) !in ks && Attempts(p) !in ks && Lock(p) !in ks && WrongSince(tr, p) == 0 && Closing(tr, p).None?
    case Some(i) =>
      match Closing(tr, p)
      case None =>
        && Code(p) in ks && ks[Code(p)] == Entry(Otp(tr[i].code), Some(tr[i].time + cfg.Ttl()))
        && Lock(p) !in ks
        && WrongSince(tr, p) < cfg.maxVerifyAttempts
        && (if WrongSince(tr, p) == 0 then Attempts(p) !in ks else
            // The counter of wrong guesses outlives the code it guards.
            && Attempts(p) in ks && ks[Attempts(p)].value == Count(WrongSince(tr, p))
            && ks[Attempts(p)].expiresAt.Some? && ks[Attempts(p)].expiresAt.value >= tr[i].time + cfg.Ttl())
      case Some(j) =>
        && Code(p) !in ks && Attempts(p) !in ks && WrongSince(tr, p) <= cfg.maxVerifyAttempts
        && (Lock(p) in ks <==> Locks(tr[j], p))
        && (Lock(p) in ks ==> ks[Lock(p)] == Entry(Flag, Some(tr[j].time + cfg.Block())))
  }

  // A request for another phone does not touch this one's keys.
  lemma OtherPhones(cfg: Config, ks: Keyspace, e: Event, p: Phone)
    requires e.phone != p
    ensures forall k :: k in {Cooldown(p), Code(p), Attempts(p), Lock(p)} ==>
              (k in After(cfg, ks, e) <==> k in ks) && (k in ks ==> After(cfg, ks, e)[k] == ks[k])
  {
  }

  lemma CodeInvAfterIssue(cfg: Config, tr: Trace, p: Phone, ks: Keyspace)
    requires tr != [] && Last(tr).Issue? && Last(tr).phone == p && Recorded(cfg, ks, Last(tr))
    requires CodeInv(cfg, Init(tr), p, ks)
    ensures CodeInv(cfg, tr, p, After(cfg, ks, Last(tr)))
  {
    var e := Last(tr);
    if e.issued != Issued {
      assert forall k :: k in {Code(p), Attempts(p), Lock(p)} ==>
          (k in After(cfg, ks, e) <==> k in ks) && (k in ks ==> After(cfg, ks, e)[k] == ks[k]);
    }
  }

  lemma CodeInvAfterValidate(cfg: Config, tr: Trace, p: Phone, ks: Keyspace)
    requires tr != [] && Last(tr).Validate? && Last(tr).phone == p && Recorded(cfg, ks, Last(tr))
    requires CodeInv(cfg, Init(tr), p, ks)
    requires LatestIssue(Init(tr), p).Some? ==> Init(tr)[LatestIssue(Init(tr), p).value].time <= Last(tr).time
    ensures CodeInv(cfg, tr, p, After(cfg, ks, Last(tr)))
  {
    assert LatestIssue(tr, p) == LatestIssue(Init(tr), p);
  }

  lemma CodeInvAfterOther(cfg: Config, tr: Trace, p: Phone, ks: Keyspace)
    requires tr != [] && Last(tr).phone != p && CodeInv(cfg, Init(tr), p, ks)
    ensures CodeInv(cfg, tr, p, After(cfg, ks, Last(tr)))
  {
    OtherPhones(cfg, ks, Last(tr), p);
    hide After;
  }

  lemma {:induction false} CodeHolds(cfg: Config, tr: Trace, p: Phone)
    requires IsTrace(cfg, tr)
    ensures CodeInv(cfg, tr, p, Run(cfg, tr))
  {
    if tr == [] {
      assert LatestIssue(tr, p).None?;
    } else {
      hide CodeInv, After, Recorded;
      var ks := Run(cfg, Init(tr));
      CodeHolds(cfg, Init(tr), p);
      if Last(tr).phone != p {
        CodeInvAfterOther(cfg, tr, p, ks);
      } else if Last(tr).Issue? {
        CodeInvAfterIssue(cfg, tr, p, ks);
      } else {
        var i := LatestIssue(Init(tr), p);
        if i.Some? {
          TimesAscend(cfg, tr, i.value);
        }
        CodeInvAfterValidate(cfg, tr, p, ks);
      }
    }
  }

  /** While a code is stored, the counter of its wrong guesses is stored and expires no earlier. */
  lemma AttemptsOutliveCode(cfg: Config, tr: Trace, p: Phone, now: int)
    requires IsTrace(cfg, tr) && Exists(Run(cfg, tr), Code(p), now)
    ensures CountAt(Run(cfg, tr), Attempts(p), now) == WrongSince(tr, p)
  {
    CodeHolds(cfg, tr, p);
  }

  /******* Validation refines the run's history *******/

  // The issue at i is the phone's latest before n, nothing has ended it, and it has not expired at n.
  ghost predicate Current(cfg: Config, tr: Trace, p: Phone, i: int, n: int) {
    && 0 <= i < n < |tr| && Issues(tr[i], p)
    && (forall j :: i < j < n ==> !Issues(tr[j], p) && !Accepts(tr[j], p) && !Locks(tr[j], p))
    && tr[n].time < tr[i].time + cfg.Ttl()
  }

  // The phone was locked out at j, has not been issued a code since, and the lock has not expired at n.
  ghost predicate LockedSince(cfg: Config, tr: Trace, p: Phone, j: int, n: int) {
    && 0 <= j < n < |tr| && Locks(tr[j], p)
    && (forall i :: j < i < n ==> !Issues(tr[i], p))
    && tr[n].time < tr[j].time + cfg.Block()
  }

  lemma CurrentIsStored(cfg: Config, tr: Trace, p: Phone)
    requires tr != [] && IsTrace(cfg, tr)
    ensures var ks := Run(cfg, Init(tr));
            var n := |tr| - 1;
            && (Exists(ks, Code(p), tr[n].time) <==> exists i :: Current(cfg, tr, p, i, n))
            && (Exists(ks, Lock(p), tr[n].time) <==> exists j :: LockedSince(cfg, tr, p, j, n))
            && (forall i :: Current(cfg, tr, p, i, n) ==> Code(p) in ks && ks[Code(p)].value == Otp(tr[i].code))
            && !(Exists(ks, Code(p), tr[n].time) && Exists(ks, Lock(p), tr[n].time))
  {
    var n := |tr| - 1;
    var before := Init(tr);
    CodeHolds(cfg, before, p);
    hide WrongSince, Run, IsTrace;
    var latest, closing := LatestIssue(before, p), Closing(before, p);
    assert forall j :: 0 <= j < n ==> tr[j] == before[j];
    if latest.Some? && closing.None? && tr[n].time < tr[latest.value].time + cfg.Ttl() {
      assert Current(cfg, tr, p, latest.value, n);
    }
    if closing.Some? && latest.Some? && Locks(before[closing.value], p)
       && tr[n].time < tr[closing.value].time + cfg.Block() {
      assert LockedSince(cfg, tr, p, closing.value, n);
    }
    forall i | Current(cfg, tr, p, i, n) ensures latest == Some(i) && closing.None? {
    }
    forall j | LockedSince(cfg, tr, p, j, n) ensures closing == Some(j) && latest.Some? {
      LockNeedsIssue(cfg, before, p, j);
    }
  }

  // Only an issued code can be locked out.
  lemma LockNeedsIssue(cfg: Config, tr: Trace, p: Phone, j: int)
    requires IsTrace(cfg, tr) && 0 <= j < |tr| && Locks(tr[j], p)
    requires forall i :: j < i < |tr| ==> !Issues(tr[i], p)
    ensures Closing(tr, p) == Some(j) && LatestIssue(tr, p).Some?
  {
    var n := |tr| - 1;
    CodeHolds(cfg, Init(tr), p);
    if j == n {
      assert Recorded(cfg, Run(cfg, Init(tr)), Last(tr));
    } else {
      LockNeedsIssue(cfg, Init(tr), p, j);
      assert !Issues(tr[n], p) && tr[j] == Init(tr)[j];
    }
  }

  /**
   * What the script answers, from the history alone. A code is accepted exactly when it is the one of the phone's
   * latest issue, that issue has not expired and nothing has ended it.
   */
  lemma ValidationRefinesHistory(cfg: Config, tr: Trace)
    requires tr != [] && IsTrace(cfg, tr) && Last(tr).Validate?
    ensures var e, p, n := Last(tr), Last(tr).phone, |tr| - 1;
            && (e.validated == Accepted <==> exists i :: Current(cfg, tr, p, i, n) && tr[i].code == e.guess)
            && (e.validated == Blocked <==> exists j :: LockedSince(cfg, tr, p, j, n))
            && (e.validated == Wrong <==>
                  (exists i :: Current(cfg, tr, p, i, n) && tr[i].code != e.guess)
                  && WrongSince(Init(tr), p) + 1 < cfg.maxVerifyAttempts)
            && (e.validated == LockedOut <==>
                  (exists i :: Current(cfg, tr, p, i, n) && tr[i].code != e.guess)
                  && WrongSince(Init(tr), p) + 1 == cfg.maxVerifyAttempts)
  {
    var e, p, n := Last(tr), Last(tr).phone, |tr| - 1;
    var ks := Run(cfg, Init(tr));
    CurrentIsStored(cfg, tr, p);
    CodeHolds(cfg, Init(tr), p);
    assert Recorded(cfg, ks, e);
    if Exists(ks, Code(p), e.time) {
      var i :| Current(cfg, tr, p, i, n);
      AttemptsOutliveCode(cfg, Init(tr), p, e.time);
      IncrExpireCounts(ks, Attempts(p), e.time, cfg.ttlSeconds);
    }
  }

  /**
   * What the caller of a validation learns, from the history alone: the code counts as valid exactly when it is the one
   * of the phone's latest issue, unexpired and not ended, and too many attempts are reported exactly when the phone is
   * locked or this wrong guess reaches the limit.
   */
  lemma VerdictRefinesHistory(cfg: Config, tr: Trace)
    requires tr != [] && IsTrace(cfg, tr) && Last(tr).Validate?
    ensures var e, p, n := Last(tr), Last(tr).phone, |tr| - 1;
            && (VerdictOf(e.validated) == Valid <==> exists i :: Current(cfg, tr, p, i, n) && tr[i].code == e.guess)
            && (VerdictOf(e.validated) == AttemptsExceeded <==>
                  || (exists j :: LockedSince(cfg, tr, p, j, n))
                  || ((exists i :: Current(cfg, tr, p, i, n) && tr[i].code != e.guess)
                      && WrongSince(Init(tr), p) + 1 == cfg.maxVerifyAttempts))
  {
    hide IsTrace, Run, WrongSince, Current, LockedSince;
    ValidationRefinesHistory(cfg, tr);
  }

  /** Between two acceptances for a phone a new code was issued: each issue is accepted at most once. */
  lemma {:induction false} AcceptedOnce(cfg: Config, tr: Trace, p: Phone, j: int, n: int)
    requires IsTrace(cfg, tr) && 0 <= j < n < |tr| && Accepts(tr[j], p) && Accepts(tr[n], p)
    ensures exists i :: j < i < n && Issues(tr[i], p)
  {
    hide WrongSince, Run, Recorded, Exists, LockedSince;
    var part := tr[..n + 1];
    PrefixIsTrace(cfg, tr, n + 1);
    ValidationRefinesHistory(cfg, part);
    var i :| Current(cfg, part, p, i, n) && part[i].code == part[n].guess;
    assert part[j] == tr[j] && part[i] == tr[i];
    assert j < i;
  }

  /******* Wrong guesses *******/

  // The wrong guesses compared with the code issued at i.
  function WrongAgainst(tr: Trace, p: Phone, i: nat): nat {
    if tr == [] then 0
    else WrongAgainst(Init(tr), p, i) + if WrongGuess(Last(tr), p) && LatestIssue(Init(tr), p) == Some(i) then 1 else 0
  }

  /** At most `maxVerifyAttempts` wrong guesses are ever compared with one issued code. */
  lemma {:induction false} WrongPerIssueBound(cfg: Config, tr: Trace, p: Phone, i: nat)
    requires IsTrace(cfg, tr)
    ensures WrongAgainst(tr, p, i) <= cfg.maxVerifyAttempts
    ensures LatestIssue(tr, p) == Some(i) ==> WrongAgainst(tr, p, i) == WrongSince(tr, p)
    ensures i >= |tr| ==> WrongAgainst(tr, p, i) == 0
  {
    if tr != [] {
      WrongPerIssueBound(cfg, Init(tr), p, i);
      CodeHolds(cfg, tr, p);
    }
  }

  // The wrong guesses compared in the half-open interval [from, to).
  function WrongIn(tr: Trace, p: Phone, from: int, to: int): nat {
    if tr == [] then 0
    else WrongIn(Init(tr), p, from, to) + if WrongGuess(Last(tr), p) && from <= Last(tr).time < to then 1 else 0
  }

  // Each success since `from` pays for the guesses at the code before it; those at the latest code are still open.
  lemma {:induction false} WrongPaidByIssues(cfg: Config, tr: Trace, p: Phone, from: int, to: int)
    requires IsTrace(cfg, tr) && (tr != [] ==> Last(tr).time < to)
    ensures WrongIn(tr, p, from, to) <=
            Successes(tr, PhoneRequests(p), from, to) * cfg.maxVerifyAttempts + WrongSince(tr, p)
    ensures WrongSince(tr, p) <= cfg.maxVerifyAttempts
    ensures tr != [] && Last(tr).time < from ==> WrongIn(tr, p, from, to) == 0
  {
    hide Run, Recorded, CodeInv;
    WrongSinceBound(cfg, tr, p);
    if tr != [] {
      WrongPaidByIssues(cfg, Init(tr), p, from, to);
      assert Issues(Last(tr), p) <==> Charges(Last(tr), PhoneRequests(p));
      var paid := Successes(Init(tr), PhoneRequests(p), from, to);
      assert (paid + 1) * cfg.maxVerifyAttempts == paid * cfg.maxVerifyAttempts + cfg.maxVerifyAttempts;
    }
  }

  lemma WrongSinceBound(cfg: Config, tr: Trace, p: Phone)
    requires IsTrace(cfg, tr)
    ensures WrongSince(tr, p) <= cfg.maxVerifyAttempts
  {
    CodeHolds(cfg, tr, p);
  }

  /** In any interval as long as the request window, few wrong guesses are compared for a phone. */
  lemma {:induction false} WrongGuessBound(cfg: Config, tr: Trace, p: Phone, from: int)
    requires IsTrace(cfg, tr)
    ensures WrongIn(tr, p, from, from + cfg.Window()) <=
            2 * cfg.maxRequestsPerWindow * cfg.maxVerifyAttempts
  {
    var to := from + cfg.Window();
    if tr != [] {
      if Last(tr).time < to {
        WrongPaidByIssues(cfg, tr, p, from, to);
        WindowBound(cfg, tr, PhoneRequests(p), from);
        Scaled(Successes(tr, PhoneRequests(p), from, to), 2 * cfg.maxRequestsPerWindow, cfg.maxVerifyAttempts);
      } else {
        WrongGuessBound(cfg, Init(tr), p, from);
      }
    }
  }

  lemma Scaled(a: int, b: int, m: nat)
    requires a < b
    ensures a * m + m <= b * m
  {
    assert b * m - (a * m + m) == (b - a - 1) * m;
    NonNegative(b - a - 1, m);
  }

  lemma NonNegative(x: nat, y: nat)
    ensures x * y >= 0
  {
  }

  /******* Cooldown *******/

  lemma {:induction false} CooldownHolds(cfg: Config, tr: Trace, p: Phone, i: nat)
    requires IsTrace(cfg, tr) && i < |tr| && Issues(tr[i], p)
    ensures var ks := Run(cfg, tr);
            && Cooldown(p) in ks && ks[Cooldown(p)].expiresAt.Some?
            && ks[Cooldown(p)].expiresAt.value >= tr[i].time + cfg.Cooldown()
  {
    var e, ks := Last(tr), Run(cfg, Init(tr));
    TimesAscend(cfg, tr, i);
    if i < |tr| - 1 {
      CooldownHolds(cfg, Init(tr), p, i);
      if e.phone != p {
        OtherPhones(cfg, ks, e, p);
      } else if !Issues(e, p) {
        assert After(cfg, ks, e)[Cooldown(p)] == ks[Cooldown(p)];
      }
    }
  }

  /** Two successful issues for one phone are at least the cooldown apart. */
  lemma IssuesApart(cfg: Config, tr: Trace, p: Phone, i: nat, j: nat)
    requires IsTrace(cfg, tr) && i < j < |tr| && Issues(tr[i], p) && Issues(tr[j], p)
    ensures tr[j].time >= tr[i].time + cfg.Cooldown()
  {
    var part := tr[..j + 1];
    PrefixIsTrace(cfg, tr, j + 1);
    assert Init(part)[i] == tr[i];
    CooldownHolds(cfg, Init(part), p, i);
    assert Recorded(cfg, Run(cfg, Init(part)), Last(part));
  }
}
