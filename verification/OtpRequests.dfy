// When a request for a code is refused, read off the run's history.
module OtpRequests {
  import opened Documents
  import opened OtpScripts
  import opened OtpTraces
  import opened OtpCodes

  // A request that got past the cooldown: counter k counts it, whether or not it then succeeds.
  predicate Asks(e: Event, k: Key) {
    e.Issue? && e.issued != CoolingDown && (k == PhoneRequests(e.phone) || k == IpRequests(e.ip))
  }

  function AskedSince(tr: Trace, k: Key, from: int): nat {
    if tr == [] then 0
    else AskedSince(Init(tr), k, from) + if Asks(Last(tr), k) && from <= Last(tr).time then 1 else 0
  }

  // The moment k's present window began: a window begins with the first request outside the one before.
  function WindowStart(cfg: Config, tr: Trace, k: Key): Option<int> {
    if tr == [] then None
    else
      var start := WindowStart(cfg, Init(tr), k);
      if Asks(Last(tr), k) && (start.None? || Last(tr).time >= start.value + cfg.Window())
      then Some(Last(tr).time) else start
  }

  // The counter in the key space is the number of requests since its window began.
  ghost predicate CounterInv(cfg: Config, tr: Trace, k: Key, ks: Keyspace) {
    match WindowStart(cfg, tr, k)
    case None => k !in ks && forall from :: AskedSince(tr, k, from) == 0
    case Some(start) =>
      && k in ks && ks[k] == Entry(Count(AskedSince(tr, k, start)), Some(start + cfg.Window()))
      && AskedSince(tr, k, start) >= 1 && tr != [] && start <= Last(tr).time
      && forall from :: start + cfg.Window() <= from ==> AskedSince(tr, k, from) == 0
  }

  lemma OnlyAskingCounts(cfg: Config, ks: Keyspace, e: Event, k: Key)
    requires IsCounter(k) && Recorded(cfg, ks, e)
    ensures var after := After(cfg, ks, e);
            if Asks(e, k) then k in after && after[k] == IncrExpire(ks, k, e.time, cfg.requestWindowSeconds)[k]
            else (k in after <==> k in ks) && (k in ks ==> after[k] == ks[k])
  {
  }

  lemma {:induction false} CountersHold(cfg: Config, tr: Trace, k: Key)
    requires IsTrace(cfg, tr) && IsCounter(k)
    ensures CounterInv(cfg, tr, k, Run(cfg, tr))
  {
    if tr != [] {
      hide CounterInv, After, Recorded, IncrExpire, Asks;
      CountersHold(cfg, Init(tr), k);
      OnlyAskingCounts(cfg, Run(cfg, Init(tr)), Last(tr), k);
      CounterInvStep(cfg, tr, k, Run(cfg, Init(tr)), Run(cfg, tr));
    } else {
      assert WindowStart(cfg, tr, k).None?;
    }
  }

  lemma CounterInvStep(cfg: Config, tr: Trace, k: Key, ks: Keyspace, after: Keyspace)
    requires tr != [] && CounterInv(cfg, Init(tr), k, ks)
    requires |tr| > 1 ==> Last(Init(tr)).time <= Last(tr).time
    requires if Asks(Last(tr), k) then k in after && after[k] == IncrExpire(ks, k, Last(tr).time, cfg.requestWindowSeconds)[k]
             else (k in after <==> k in ks) && (k in ks ==> after[k] == ks[k])
    ensures CounterInv(cfg, tr, k, after)
  {
    AskedUnfold(tr, k);
  }

  lemma AskedUnfold(tr: Trace, k: Key)
    requires tr != []
    ensures forall from :: AskedSince(tr, k, from) ==
              AskedSince(Init(tr), k, from) + if Asks(Last(tr), k) && from <= Last(tr).time then 1 else 0
  {
  }

  // The cooldown key is there because of a successful issue.
  lemma {:induction false} CooldownHasIssue(cfg: Config, tr: Trace, p: Phone)
    requires IsTrace(cfg, tr)
    ensures Cooldown(p) in Run(cfg, tr) ==>
              exists i :: 0 <= i < |tr| && Issues(tr[i], p)
                          && Run(cfg, tr)[Cooldown(p)].expiresAt == Some(tr[i].time + cfg.Cooldown())
  {
    if tr != [] {
      var e, ks := Last(tr), Run(cfg, Init(tr));
      CooldownHasIssue(cfg, Init(tr), p);
      if Issues(e, p) {
        assert tr[|tr| - 1] == e;
      } else if Cooldown(p) in Run(cfg, tr) {
        CooldownUntouched(cfg, ks, e, p);
        var i :| 0 <= i < |Init(tr)| && Issues(Init(tr)[i], p)
                 && ks[Cooldown(p)].expiresAt == Some(Init(tr)[i].time + cfg.Cooldown());
        assert tr[i] == Init(tr)[i];
      }
    }
  }

  lemma CooldownUntouched(cfg: Config, ks: Keyspace, e: Event, p: Phone)
    requires Recorded(cfg, ks, e) && !Issues(e, p)
    ensures Cooldown(p) in After(cfg, ks, e) <==> Cooldown(p) in ks
    ensures Cooldown(p) in ks ==> After(cfg, ks, e)[Cooldown(p)] == ks[Cooldown(p)]
  {
    if e.phone != p {
      OtherPhones(cfg, ks, e, p);
    }
  }

  ghost predicate CoolsDown(cfg: Config, tr: Trace, p: Phone, now: int) {
    exists i :: 0 <= i < |tr| && Issues(tr[i], p) && now < tr[i].time + cfg.Cooldown()
  }

  lemma CooldownIsRecentIssue(cfg: Config, tr: Trace, p: Phone, now: int)
    requires IsTrace(cfg, tr)
    ensures Exists(Run(cfg, tr), Cooldown(p), now) <==> CoolsDown(cfg, tr, p, now)
  {
    CooldownHasIssue(cfg, tr, p);
    if i :| 0 <= i < |tr| && Issues(tr[i], p) && now < tr[i].time + cfg.Cooldown() {
      CooldownHolds(cfg, tr, p, i);
    }
  }

  // The requests counted in k's present window, the last one included.
  function InWindow(cfg: Config, tr: Trace, k: Key): nat {
    match WindowStart(cfg, tr, k) case None => 0 case Some(start) => AskedSince(tr, k, start)
  }

  /**
   * Why a request is refused, from the history alone: the phone was issued a code less than the cooldown ago, or else
   * the present window of the phone or of the address already held its limit.
   */
  lemma RefusalsRefineHistory(cfg: Config, tr: Trace)
    requires tr != [] && IsTrace(cfg, tr) && Last(tr).Issue?
    ensures var e := Last(tr);
            && (e.issued == CoolingDown <==> CoolsDown(cfg, Init(tr), e.phone, e.time))
            && (e.issued == Issued <==>
                  && !CoolsDown(cfg, Init(tr), e.phone, e.time)
                  && InWindow(cfg, tr, PhoneRequests(e.phone)) <= cfg.maxRequestsPerWindow
                  && InWindow(cfg, tr, IpRequests(e.ip)) <= cfg.maxRequestsPerIpWindow)
  {
    var e, ks := Last(tr), Run(cfg, Init(tr));
    CooldownIsRecentIssue(cfg, Init(tr), e.phone, e.time);
    assert Recorded(cfg, ks, e);
    if e.issued != CoolingDown {
      CountsAfterRequest(cfg, ks, e);
      CountersHold(cfg, tr, PhoneRequests(e.phone));
      CountersHold(cfg, tr, IpRequests(e.ip));
    }
  }

  lemma CountsAfterRequest(cfg: Config, ks: Keyspace, e: Event)
    requires e.Issue? && Recorded(cfg, ks, e) && e.issued != CoolingDown
    ensures var after := After(cfg, ks, e);
            && PhoneRequests(e.phone) in after && IpRequests(e.ip) in after
            && after[PhoneRequests(e.phone)].value == Count(CountAt(ks, PhoneRequests(e.phone), e.time) + 1)
            && after[IpRequests(e.ip)].value == Count(CountAt(ks, IpRequests(e.ip), e.time) + 1)
    ensures e.issued == Issued <==>
              && CountAt(ks, PhoneRequests(e.phone), e.time) + 1 <= cfg.maxRequestsPerWindow
              && CountAt(ks, IpRequests(e.ip), e.time) + 1 <= cfg.maxRequestsPerIpWindow
  {
  }

  /** Nobody is refused for having asked too often unless more than the limit was asked in less than a window. */
  lemma RefusedOnlyOverLimit(cfg: Config, tr: Trace)
    requires tr != [] && IsTrace(cfg, tr) && Last(tr).Issue? && Last(tr).issued == TooManyRequests
    ensures exists k :: (k == PhoneRequests(Last(tr).phone) || k == IpRequests(Last(tr).ip))
                        && AskedSince(tr, k, Last(tr).time - cfg.Window() + 1) > Limit(cfg, k)
  {
    var e := Last(tr);
    RefusalsRefineHistory(cfg, tr);
    var k := if InWindow(cfg, tr, PhoneRequests(e.phone)) > cfg.maxRequestsPerWindow then PhoneRequests(e.phone)
             else IpRequests(e.ip);
    assert InWindow(cfg, tr, k) > Limit(cfg, k);
    WindowIsPresent(cfg, tr, k);
    AskedMonotone(tr, k, e.time - cfg.Window() + 1, WindowStart(cfg, tr, k).value);
  }

  lemma WindowIsPresent(cfg: Config, tr: Trace, k: Key)
    requires tr != [] && Asks(Last(tr), k)
    ensures WindowStart(cfg, tr, k).Some? && Last(tr).time < WindowStart(cfg, tr, k).value + cfg.Window()
  {
  }

  lemma {:induction false} AskedMonotone(tr: Trace, k: Key, from: int, later: int)
    requires from <= later
    ensures AskedSince(tr, k, later) <= AskedSince(tr, k, from)
  {
    if tr != [] {
      AskedMonotone(Init(tr), k, from, later);
    }
  }
}
