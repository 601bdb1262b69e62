// Runs of issue and validate requests at nondecreasing times, and what holds of every run.
module OtpTraces {
  import opened Documents
  import opened OtpScripts

  datatype Event =
    | Issue(time: int, phone: Phone, ip: Ip, code: string, issued: IssueOutcome)
    | Validate(time: int, phone: Phone, guess: string, validated: ValidateOutcome)

  type Trace = seq<Event>

  function Last(tr: Trace): Event
    requires tr != []
  {
    tr[|tr| - 1]
  }

  function Init(tr: Trace): Trace
    requires tr != []
  {
    tr[..|tr| - 1]
  }

  // The key space after one request.
  function After(cfg: Config, ks: Keyspace, e: Event): Keyspace {
    match e
    case Issue(now, phone, ip, code, _) => IssueOtp(cfg, ks, now, phone, ip, code).0
    case Validate(now, phone, guess, _) => ValidateOtp(cfg, ks, now, phone, guess).0
  }

  // The recorded outcome is the script's.
  predicate Recorded(cfg: Config, ks: Keyspace, e: Event) {
    match e
    case Issue(now, phone, ip, code, issued) => issued == IssueOtp(cfg, ks, now, phone, ip, code).1
    case Validate(now, phone, guess, validated) => validated == ValidateOtp(cfg, ks, now, phone, guess).1
  }

  // The key space that a run leaves, starting from an empty one.
  function Run(cfg: Config, tr: Trace): Keyspace {
    if tr == [] then map[] else After(cfg, Run(cfg, Init(tr)), Last(tr))
  }

  predicate IsTrace(cfg: Config, tr: Trace) {
    tr != [] ==>
      && IsTrace(cfg, Init(tr))
      && (|tr| > 1 ==> Last(Init(tr)).time <= Last(tr).time)
      && Recorded(cfg, Run(cfg, Init(tr)), Last(tr))
  }

  lemma {:induction false} TimesAscend(cfg: Config, tr: Trace, i: nat)
    requires IsTrace(cfg, tr) && i < |tr|
    ensures tr[i].time <= Last(tr).time
  {
    if i < |tr| - 1 {
      TimesAscend(cfg, Init(tr), i);
    }
  }

  lemma {:induction false} PrefixIsTrace(cfg: Config, tr: Trace, n: nat)
    requires IsTrace(cfg, tr) && n <= |tr|
    ensures IsTrace(cfg, tr[..n])
  {
    if n < |tr| {
      PrefixIsTrace(cfg, Init(tr), n);
      assert Init(tr)[..n] == tr[..n];
    } else {
      assert tr[..n] == tr;
    }
  }

  /******* Request windows *******/

  // A request counter: per phone or per address.
  predicate IsCounter(k: Key) {
    k.PhoneRequests? || k.IpRequests?
  }

  function Limit(cfg: Config, k: Key): int {
    if k.PhoneRequests? then cfg.maxRequestsPerWindow else cfg.maxRequestsPerIpWindow
  }

  // A successful request that counts against k.
  predicate Charges(e: Event, k: Key) {
    e.Issue? && e.issued == Issued && (k == PhoneRequests(e.phone) || k == IpRequests(e.ip))
  }

  // Successful requests against k in the half-open interval [from, to).
  function Successes(tr: Trace, k: Key, from: int, to: int): nat {
    if tr == [] then 0
    else Successes(Init(tr), k, from, to) + if Charges(Last(tr), k) && from <= Last(tr).time < to then 1 else 0
  }

  // Those strictly after `time`.
  function SuccessesAfter(tr: Trace, k: Key, time: int, to: int): nat {
    Successes(tr, k, time + 1, to)
  }

  lemma SuccessesUnfold(tr: Trace, k: Key)
    requires tr != []
    ensures forall from, to :: Successes(tr, k, from, to) ==
              Successes(Init(tr), k, from, to) + if Charges(Last(tr), k) && from <= Last(tr).time < to then 1 else 0
    ensures forall time, to :: SuccessesAfter(tr, k, time, to) ==
              SuccessesAfter(Init(tr), k, time, to) + if Charges(Last(tr), k) && time < Last(tr).time < to then 1 else 0
  {
  }

  lemma {:induction false} SuccessesSplit(tr: Trace, k: Key, from: int, mid: int, to: int)
    requires from <= mid <= to
    ensures Successes(tr, k, from, to) == Successes(tr, k, from, mid) + Successes(tr, k, mid, to)
  {
    if tr != [] {
      SuccessesSplit(Init(tr), k, from, mid, to);
    }
  }

  lemma {:induction false} SuccessesMonotone(tr: Trace, k: Key, from: int, to: int, from': int, to': int)
    requires from' <= from && to <= to'
    ensures Successes(tr, k, from, to) <= Successes(tr, k, from', to')
  {
    if tr != [] {
      SuccessesMonotone(Init(tr), k, from, to, from', to');
    }
  }

  // The lifetime of the counter that the key space holds, live or expired, against the run.
  ghost predicate WindowInv(cfg: Config, tr: Trace, k: Key, ks: Keyspace) {
    if k !in ks then forall from, to :: Successes(tr, k, from, to) == 0
    else
      && ks[k].value.Count? && ks[k].value.n >= 1 && ks[k].expiresAt.Some? && tr != []
      && var expiry := ks[k].expiresAt.value;
      var birth := expiry - cfg.Window();
      && birth <= Last(tr).time
      && (forall to :: Successes(tr, k, birth, to) <= ks[k].value.n && Successes(tr, k, birth, to) <= Limit(cfg, k))
      // The request that began the lifetime is not among the later ones.
      && (forall to :: SuccessesAfter(tr, k, birth, to) < ks[k].value.n && SuccessesAfter(tr, k, birth, to) < Limit(cfg, k))
      && SuccessesAfter(tr, k, birth - cfg.Window(), birth) < Limit(cfg, k)
      && (forall to :: Successes(tr, k, expiry, to) == 0)
  }

  // One request leaves a counter alone or counts itself in it; a successful one stays within the limit.
  lemma CounterAfter(cfg: Config, ks: Keyspace, e: Event, k: Key)
    requires IsCounter(k) && Recorded(cfg, ks, e)
    ensures var after := After(cfg, ks, e);
            || (k in after && after[k] == IncrExpire(ks, k, e.time, cfg.requestWindowSeconds)[k])
            || (!Charges(e, k) && (k in after <==> k in ks) && (k in ks ==> after[k] == ks[k]))
    ensures Charges(e, k) ==> CountAt(ks, k, e.time) + 1 <= Limit(cfg, k)
  {
  }

  lemma WindowInvStep(cfg: Config, tr: Trace, k: Key, ks: Keyspace)
    requires tr != [] && IsCounter(k) && Recorded(cfg, ks, Last(tr))
    requires |tr| > 1 ==> Last(Init(tr)).time <= Last(tr).time
    requires WindowInv(cfg, Init(tr), k, ks)
    ensures WindowInv(cfg, tr, k, After(cfg, ks, Last(tr)))
  {
    var e, now := Last(tr), Last(tr).time;
    CounterAfter(cfg, ks, e, k);
    hide After, Recorded, IncrExpire;
    var after := After(cfg, ks, e);
    var counted := IncrExpire(ks, k, now, cfg.requestWindowSeconds);
    if k in after && after[k] == counted[k] {
      if Exists(ks, k, now) {
        SameLifetime(cfg, tr, k, ks, after);
      } else {
        NewLifetime(cfg, tr, k, ks, after);
      }
    } else {
      SuccessesUnfold(tr, k);
      assert forall from, to :: Successes(tr, k, from, to) == Successes(Init(tr), k, from, to);
      assert forall time, to :: SuccessesAfter(tr, k, time, to) == SuccessesAfter(Init(tr), k, time, to);
    }
  }

  lemma SameLifetime(cfg: Config, tr: Trace, k: Key, ks: Keyspace, after: Keyspace)
    requires tr != [] && Exists(ks, k, Last(tr).time) && WindowInv(cfg, Init(tr), k, ks)
    requires |tr| > 1 ==> Last(Init(tr)).time <= Last(tr).time
    requires k in after && after[k] == IncrExpire(ks, k, Last(tr).time, cfg.requestWindowSeconds)[k]
    requires Charges(Last(tr), k) ==> CountAt(ks, k, Last(tr).time) + 1 <= Limit(cfg, k)
    ensures WindowInv(cfg, tr, k, after)
  {
    SuccessesUnfold(tr, k);
    assert after[k] == Entry(Count(ks[k].value.n + 1), ks[k].expiresAt);
  }

  lemma NewLifetime(cfg: Config, tr: Trace, k: Key, ks: Keyspace, after: Keyspace)
    requires tr != [] && !Exists(ks, k, Last(tr).time) && WindowInv(cfg, Init(tr), k, ks)
    requires k in after && after[k] == IncrExpire(ks, k, Last(tr).time, cfg.requestWindowSeconds)[k]
    requires Charges(Last(tr), k) ==> CountAt(ks, k, Last(tr).time) + 1 <= Limit(cfg, k)
    ensures WindowInv(cfg, tr, k, after)
  {
    SuccessesUnfold(tr, k);
    var now, window := Last(tr).time, cfg.Window();
    assert after[k] == Entry(Count(1), Some(now + window));
    forall from, to | now <= from ensures Successes(Init(tr), k, from, to) == 0 {
      if k in ks {
        SuccessesMonotone(Init(tr), k, from, to, ks[k].expiresAt.value, to);
      }
    }
    assert forall to :: SuccessesAfter(Init(tr), k, now, to) == 0;
    if k in ks {
      SuccessesMonotone(Init(tr), k, now - window + 1, now, ks[k].expiresAt.value - window + 1, now);
      assert SuccessesAfter(Init(tr), k, now - window, now) <= SuccessesAfter(Init(tr), k, ks[k].expiresAt.value - window, now);
    }
  }

  /** Every run keeps the window invariant of each counter. */
  lemma {:induction false} WindowHolds(cfg: Config, tr: Trace, k: Key)
    requires IsTrace(cfg, tr) && IsCounter(k)
    ensures WindowInv(cfg, tr, k, Run(cfg, tr))
  {
    if tr != [] {
      WindowHolds(cfg, Init(tr), k);
      WindowInvStep(cfg, tr, k, Run(cfg, Init(tr)));
    }
  }

  /**
   * The requests that succeed for one phone, or from one address whatever the phones, in any interval as long as the
   * request window are fewer than twice the limit.
   */
  lemma {:induction false} WindowBound(cfg: Config, tr: Trace, k: Key, from: int)
    requires IsTrace(cfg, tr) && IsCounter(k)
    ensures Successes(tr, k, from, from + cfg.Window()) < 2 * Limit(cfg, k)
  {
    hide After, Recorded, Charges;
    if tr != [] {
      var to := from + cfg.Window();
      if from <= Last(tr).time < to {
        WindowHolds(cfg, tr, k);
        var ks := Run(cfg, tr);
        if k in ks {
          var birth := ks[k].expiresAt.value - cfg.Window();
          if from < birth {
            SuccessesSplit(tr, k, from, birth, to);
            SuccessesMonotone(tr, k, from, birth, birth - cfg.Window() + 1, birth);
          } else {
            SuccessesMonotone(tr, k, from, to, birth, to);
          }
        }
      } else {
        WindowBound(cfg, Init(tr), k, from);
      }
    }
  }

  /** Within one lifetime of its counter, a phone or address gets at most the limit. */
  lemma LifetimeBound(cfg: Config, tr: Trace, k: Key, to: int)
    requires IsTrace(cfg, tr) && IsCounter(k) && k in Run(cfg, tr)
    ensures Run(cfg, tr)[k].expiresAt.Some?
    ensures Successes(tr, k, Run(cfg, tr)[k].expiresAt.value - cfg.Window(), to) <= Limit(cfg, k)
  {
    WindowHolds(cfg, tr, k);
  }

  lemma OneMore(cfg: Config, tr: Trace, e: Event)
    requires IsTrace(cfg, tr) && (tr != [] ==> Last(tr).time <= e.time) && Recorded(cfg, Run(cfg, tr), e)
    ensures IsTrace(cfg, tr + [e]) && Run(cfg, tr + [e]) == After(cfg, Run(cfg, tr), e) && Last(tr + [e]) == e
    ensures forall k, from, to :: Successes(tr + [e], k, from, to) ==
              Successes(tr, k, from, to) + if Charges(e, k) && from <= e.time < to then 1 else 0
  {
    assert Init(tr + [e]) == tr;
  }
}
