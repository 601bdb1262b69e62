// How many requests can succeed within the length of one window: the exact number, for all settings.
module OtpBursts {
  import opened Documents
  import opened OtpScripts
  import opened OtpTraces
  import opened OtpCodes

  const PHONE: Phone := "p"

  // Each request of a burst comes from an address of its own.
  function AddressOfItsOwn(n: nat): (ip: Ip)
    ensures |ip| == n
  {
    seq(n, _ => 'a')
  }

  /**
   * The phone may ask at `now`: it is not cooling down, its window, begun at `born`, holds `used` requests, none meaning
   * that it is over, and addresses of length n or more are new.
   */
  ghost predicate Ready(cfg: Config, ks: Keyspace, now: int, born: int, used: nat, n: nat) {
    && !Exists(ks, Cooldown(PHONE), now)
    && (if used == 0 then !Exists(ks, PhoneRequests(PHONE), now)
        else PhoneRequests(PHONE) in ks && ks[PhoneRequests(PHONE)] == Entry(Count(used), Some(born + cfg.Window())))
    && forall ip :: IpRequests(ip) in ks ==> |ip| < n
  }

  lemma ReadyLater(cfg: Config, ks: Keyspace, now: int, later: int, born: int, used: nat, n: nat)
    requires Ready(cfg, ks, now, born, used, n) && now <= later
    ensures Ready(cfg, ks, later, born, used, n)
    ensures born + cfg.Window() <= later ==> Ready(cfg, ks, later, born, 0, n)
  {
  }

  lemma IssueWhenReady(cfg: Config, ks: Keyspace, now: int, born: int, used: nat, n: nat)
    requires Ready(cfg, ks, now, born, used, n) && used < cfg.maxRequestsPerWindow
    requires used > 0 ==> now < born + cfg.Window()
    ensures var (after, issued) := IssueOtp(cfg, ks, now, PHONE, AddressOfItsOwn(n), "1234");
            && issued == Issued
            && Ready(cfg, after, now + cfg.Cooldown(), if used == 0 then now else born, used + 1, n + 1)
  {
    assert IpRequests(AddressOfItsOwn(n)) !in ks;
  }

  lemma OneRequest(cfg: Config, tr: Trace, now: int, born: int, used: nat, n: nat) returns (longer: Trace)
    requires IsTrace(cfg, tr) && (tr != [] ==> Last(tr).time <= now)
    requires Ready(cfg, Run(cfg, tr), now, born, used, n) && used < cfg.maxRequestsPerWindow
    requires used > 0 ==> now < born + cfg.Window()
    ensures IsTrace(cfg, longer) && longer != [] && Last(longer).time == now
    ensures Ready(cfg, Run(cfg, longer), now + cfg.Cooldown(), if used == 0 then now else born, used + 1, n + 1)
    ensures forall from, to :: Successes(longer, PhoneRequests(PHONE), from, to) ==
              Successes(tr, PhoneRequests(PHONE), from, to) + if from <= now < to then 1 else 0
  {
    hide Ready, IsTrace, Run, Successes;
    var e := Issue(now, PHONE, AddressOfItsOwn(n), "1234", Issued);
    IssueWhenReady(cfg, Run(cfg, tr), now, born, used, n);
    OneMore(cfg, tr, e);
    longer := tr + [e];
  }

  // r requests, one cooldown apart from the next, all in one window.
  lemma {:induction false} Burst(cfg: Config, tr: Trace, first: int, born: int, used: nat, n: nat, r: nat, from: int, to: int)
    returns (longer: Trace)
    requires IsTrace(cfg, tr) && (tr != [] ==> Last(tr).time <= first)
    requires Ready(cfg, Run(cfg, tr), first, born, used, n) && r >= 1 && used + r <= cfg.maxRequestsPerWindow
    requires first + (r - 1) * cfg.Cooldown() < (if used == 0 then first else born) + cfg.Window()
    requires from <= first && first + (r - 1) * cfg.Cooldown() < to
    ensures IsTrace(cfg, longer) && longer != [] && Last(longer).time == first + (r - 1) * cfg.Cooldown()
    ensures Ready(cfg, Run(cfg, longer), first + r * cfg.Cooldown(), if used == 0 then first else born, used + r, n + r)
    ensures Successes(longer, PhoneRequests(PHONE), from, to) == Successes(tr, PhoneRequests(PHONE), from, to) + r
    decreases r
  {
    hide Ready, IsTrace, Run, Successes;
    var c := cfg.Cooldown();
    if r == 1 {
      longer := OneRequest(cfg, tr, first, born, used, n);
    } else {
      assert (r - 1) * c == (r - 2) * c + c && r * c == (r - 1) * c + c;
      NonNegative(r - 2, c);
      var shorter := Burst(cfg, tr, first, born, used, n, r - 1, from, to);
      longer := OneRequest(cfg, shorter, first + (r - 1) * c, if used == 0 then first else born, used + r - 1, n + r - 1);
    }
  }

  lemma NothingAsked(cfg: Config)
    ensures IsTrace(cfg, []) && Ready(cfg, Run(cfg, []), 0, 0, 0, 0)
    ensures forall k, from, to :: Successes([], k, from, to) == 0
  {
  }

  /** Requests at the end of one window and at the beginning of the next. */
  lemma TwoWindows(cfg: Config, tail: nat) returns (tr: Trace, from: int)
    requires 1 <= tail < cfg.maxRequestsPerWindow
    requires (tail + cfg.maxRequestsPerWindow - 1) * cfg.Cooldown() < cfg.Window()
    ensures IsTrace(cfg, tr)
    ensures Successes(tr, PhoneRequests(PHONE), from, from + cfg.Window()) >= tail + cfg.maxRequestsPerWindow
  {
    hide Ready, IsTrace, Run, Successes;
    var c, w, m := cfg.Cooldown(), cfg.Window(), cfg.maxRequestsPerWindow;
    assert (tail + m - 1) * c == (tail - 1) * c + m * c && m * c == (m - 1) * c + c && tail * c == (tail - 1) * c + c;
    NonNegative(tail - 1, c);
    NonNegative(m - 1, c);
    from := w - 1 - (tail - 1) * c;
    var to := from + w;
    NothingAsked(cfg);
    tr := OneRequest(cfg, [], 0, 0, 0, 0);
    assert c <= m * c;
    ReadyLater(cfg, Run(cfg, tr), c, from, 0, 1, 1);
    tr := Burst(cfg, tr, from, 0, 1, 1, tail, from, to);
    ReadyLater(cfg, Run(cfg, tr), from + tail * c, w - 1 + c, 0, 1 + tail, 1 + tail);
    tr := Burst(cfg, tr, w - 1 + c, 0, 0, 1 + tail, m, from, to);
  }

  ghost predicate Reached(cfg: Config, tr: Trace, k: Key, from: int, n: nat) {
    IsTrace(cfg, tr) && Successes(tr, k, from, from + cfg.Window()) >= n
  }

  // Some run has n successes of one phone within a window's length.
  ghost predicate Possible(cfg: Config, n: nat) {
    exists tr, p, from :: Reached(cfg, tr, PhoneRequests(p), from, n)
  }

  // Successes take time: the last of n is n - 1 cooldowns after the first.
  lemma {:induction false} SuccessesApart(cfg: Config, tr: Trace, p: Phone, from: int, to: int) returns (i: nat)
    requires IsTrace(cfg, tr) && Successes(tr, PhoneRequests(p), from, to) >= 1
    ensures i < |tr| && Issues(tr[i], p) && tr[i].time < to
    ensures from + (Successes(tr, PhoneRequests(p), from, to) - 1) * cfg.Cooldown() <= tr[i].time
  {
    hide Run, Recorded;
    var c, before := cfg.Cooldown(), Successes(Init(tr), PhoneRequests(p), from, to);
    i := |tr| - 1;
    if before >= 1 {
      var j := SuccessesApart(cfg, Init(tr), p, from, to);
      if Charges(Last(tr), PhoneRequests(p)) && from <= Last(tr).time < to {
        assert tr[j] == Init(tr)[j];
        IssuesApart(cfg, tr, p, j, i);
        assert before * c == (before - 1) * c + c;
      } else {
        i := j;
      }
    }
  }

  /**
   * For all settings: n requests of a phone can succeed in an interval as long as the window if and only if n is less
   * than twice the limit and n requests fit into that length one cooldown apart.
   */
  lemma SuccessesInWindow(cfg: Config, n: nat)
    requires n >= 1
    ensures Possible(cfg, n) <==>
            n <= 2 * cfg.maxRequestsPerWindow - 1 && (n - 1) * cfg.cooldownSeconds < cfg.requestWindowSeconds
  {
    InSeconds(cfg, n - 1);
    hide IsTrace, Run, Successes;
    var c, w, m := cfg.Cooldown(), cfg.Window(), cfg.maxRequestsPerWindow;
    if tr, p, from :| Reached(cfg, tr, PhoneRequests(p), from, n) {
      WindowBound(cfg, tr, PhoneRequests(p), from);
      var i := SuccessesApart(cfg, tr, p, from, from + w);
      MoreTakesLonger(n - 1, Successes(tr, PhoneRequests(p), from, from + w) - 1, c);
    }
    if n <= 2 * m - 1 && (n - 1) * c < w {
      if n <= m {
        NothingAsked(cfg);
        var tr := Burst(cfg, [], 0, 0, 0, 0, n, 0, w);
        assert Reached(cfg, tr, PhoneRequests(PHONE), 0, n);
      } else {
        var tr, from := TwoWindows(cfg, n - m);
        assert Reached(cfg, tr, PhoneRequests(PHONE), from, n);
      }
    }
  }

  lemma InSeconds(cfg: Config, n: int)
    ensures n * cfg.Cooldown() < cfg.Window() <==> n * cfg.cooldownSeconds < cfg.requestWindowSeconds
  {
    assert n * cfg.Cooldown() == MILLIS * (n * cfg.cooldownSeconds);
  }

  lemma MoreTakesLonger(a: nat, b: nat, c: nat)
    requires a <= b
    ensures a * c <= b * c
  {
    NonNegative(b - a, c);
    assert b * c == a * c + (b - a) * c;
  }

  /** Some run exceeds the configured limit within a window's length exactly for these settings. */
  lemma LimitExceededIff(cfg: Config)
    ensures Possible(cfg, cfg.maxRequestsPerWindow + 1) <==>
            cfg.maxRequestsPerWindow >= 2 && cfg.maxRequestsPerWindow * cfg.cooldownSeconds < cfg.requestWindowSeconds
  {
    hide Possible;
    SuccessesInWindow(cfg, cfg.maxRequestsPerWindow + 1);
  }

  /** Some run reaches the bound, one less than twice the limit, exactly for these settings. */
  lemma WindowBoundIsReached(cfg: Config)
    ensures Possible(cfg, 2 * cfg.maxRequestsPerWindow - 1) <==>
            (2 * cfg.maxRequestsPerWindow - 2) * cfg.cooldownSeconds < cfg.requestWindowSeconds
  {
    hide Possible;
    SuccessesInWindow(cfg, 2 * cfg.maxRequestsPerWindow - 1);
  }

  /******* From one address *******/

  const ADDRESS: Ip := "i"

  // Each request from the address is for a phone of its own.
  function PhoneOfItsOwn(n: nat): (p: Phone)
    ensures |p| == n
  {
    seq(n, _ => 'p')
  }

  // The address's window holds `used` requests, and phones of length n or more are new.
  ghost predicate ReadyFrom(cfg: Config, ks: Keyspace, now: int, born: int, used: nat, n: nat) {
    && (if used == 0 then !Exists(ks, IpRequests(ADDRESS), now)
        else IpRequests(ADDRESS) in ks && ks[IpRequests(ADDRESS)] == Entry(Count(used), Some(born + cfg.Window())))
    && forall p :: Cooldown(p) in ks || PhoneRequests(p) in ks ==> |p| < n
  }

  lemma IssueFromAddress(cfg: Config, ks: Keyspace, now: int, born: int, used: nat, n: nat)
    requires ReadyFrom(cfg, ks, now, born, used, n) && used < cfg.maxRequestsPerIpWindow
    requires used > 0 ==> now < born + cfg.Window()
    ensures var (after, issued) := IssueOtp(cfg, ks, now, PhoneOfItsOwn(n), ADDRESS, "1234");
            issued == Issued && ReadyFrom(cfg, after, now, if used == 0 then now else born, used + 1, n + 1)
  {
    assert Cooldown(PhoneOfItsOwn(n)) !in ks && PhoneRequests(PhoneOfItsOwn(n)) !in ks;
  }

  // r requests at one moment.
  lemma {:induction false} BurstFrom(cfg: Config, tr: Trace, now: int, born: int, used: nat, n: nat, r: nat, from: int, to: int)
    returns (longer: Trace)
    requires IsTrace(cfg, tr) && (tr != [] ==> Last(tr).time <= now) && from <= now < to
    requires ReadyFrom(cfg, Run(cfg, tr), now, born, used, n) && used + r <= cfg.maxRequestsPerIpWindow
    requires used > 0 ==> now < born + cfg.Window()
    ensures IsTrace(cfg, longer) && (longer != [] ==> Last(longer).time <= now)
    ensures r == 0 ==> longer == tr
    ensures r > 0 ==> ReadyFrom(cfg, Run(cfg, longer), now, if used == 0 then now else born, used + r, n + r)
    ensures Successes(longer, IpRequests(ADDRESS), from, to) == Successes(tr, IpRequests(ADDRESS), from, to) + r
    decreases r
  {
    hide ReadyFrom, IsTrace, Run, Successes;
    longer := tr;
    if r > 0 {
      var e := Issue(now, PhoneOfItsOwn(n), ADDRESS, "1234", Issued);
      IssueFromAddress(cfg, Run(cfg, tr), now, born, used, n);
      OneMore(cfg, tr, e);
      longer := BurstFrom(cfg, tr + [e], now, if used == 0 then now else born, used + 1, n + 1, r - 1, from, to);
    }
  }

  // Some run has n successes from one address within a window's length.
  ghost predicate PossibleFrom(cfg: Config, n: nat) {
    exists tr, ip, from :: Reached(cfg, tr, IpRequests(ip), from, n)
  }

  /**
   * For all settings: n requests from an address can succeed in an interval as long as the window if and only if n is
   * less than twice the limit.
   */
  lemma SuccessesFromAddress(cfg: Config, n: nat)
    ensures PossibleFrom(cfg, n) <==> n <= 2 * cfg.maxRequestsPerIpWindow - 1
  {
    hide IsTrace, Run, Successes, ReadyFrom;
    var w, m := cfg.Window(), cfg.maxRequestsPerIpWindow;
    if tr, ip, from :| Reached(cfg, tr, IpRequests(ip), from, n) {
      WindowBound(cfg, tr, IpRequests(ip), from);
    }
    NoneAsked(cfg);
    if n <= m {
      var tr := BurstFrom(cfg, [], 0, 0, 0, 0, n, 0, w);
      assert Reached(cfg, tr, IpRequests(ADDRESS), 0, n);
    } else if n <= 2 * m - 1 {
      var tr := BurstFrom(cfg, [], 0, 0, 0, 0, 1, 0, 1);
      FromLater(cfg, Run(cfg, tr), 0, w - 1, 0, 1, 1);
      tr := BurstFrom(cfg, tr, w - 1, 0, 1, 1, n - m, w - 1, w - 1 + w);
      FromLater(cfg, Run(cfg, tr), w - 1, w, 0, 1 + n - m, 1 + n - m);
      tr := BurstFrom(cfg, tr, w, 0, 0, 1 + n - m, m, w - 1, w - 1 + w);
      assert Reached(cfg, tr, IpRequests(ADDRESS), w - 1, n);
    }
  }

  lemma NoneAsked(cfg: Config)
    ensures IsTrace(cfg, []) && ReadyFrom(cfg, Run(cfg, []), 0, 0, 0, 0)
    ensures forall k, from, to :: Successes([], k, from, to) == 0
  {
  }

  lemma FromLater(cfg: Config, ks: Keyspace, now: int, later: int, born: int, used: nat, n: nat)
    requires ReadyFrom(cfg, ks, now, born, used, n) && now <= later
    ensures ReadyFrom(cfg, ks, later, born, used, n)
    ensures born + cfg.Window() <= later ==> ReadyFrom(cfg, ks, later, born, 0, n)
  {
  }
}
