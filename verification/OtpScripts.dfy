// The two Redis scripts that issue and validate one-time codes, as functions on the key space.
module OtpScripts {
  import opened Documents

  type Phone = string
  type Ip = string

  // Key names embed a hash of the phone or address; distinct values are taken to have distinct hashes.
  datatype Key =
    | Cooldown(phone: Phone)
    | PhoneRequests(phone: Phone)
    | IpRequests(ip: Ip)
    | Code(phone: Phone)
    | Attempts(phone: Phone)
    | Lock(phone: Phone)

  datatype Value = Flag | Count(n: nat) | Otp(code: string)

  datatype Entry = Entry(value: Value, expiresAt: Option<int>)

  type Keyspace = map<Key, Entry>

  // Redis keeps time, and expires keys, by the millisecond.
  const MILLIS := 1000

  datatype Settings = Settings(
    ttlSeconds: int,
    cooldownSeconds: int,
    requestWindowSeconds: int,
    maxRequestsPerWindow: int,
    maxRequestsPerIpWindow: int,
    maxVerifyAttempts: int,
    blockSeconds: int)
  {
    // The bounds that the configuration schema enforces.
    predicate Valid() {
      && ttlSeconds >= 60 && cooldownSeconds >= 1 && requestWindowSeconds >= 1 && maxRequestsPerWindow >= 1
      && maxRequestsPerIpWindow >= 1 && maxVerifyAttempts >= 1 && blockSeconds >= 1
    }

    // The same spans on the server's clock.
    function Ttl(): int { MILLIS * ttlSeconds }

    function Cooldown(): int { MILLIS * cooldownSeconds }

    function Window(): int { MILLIS * requestWindowSeconds }

    function Block(): int { MILLIS * blockSeconds }
  }

  type Config = s: Settings | s.Valid() witness Settings(60, 1, 1, 1, 1, 1, 1)

  datatype IssueOutcome = CoolingDown | TooManyRequests | Issued

  datatype ValidateOutcome = Blocked | NoCode | Accepted | Wrong | LockedOut

  /******* Redis commands at a moment *******/

  predicate Exists(ks: Keyspace, k: Key, now: int) {
    k in ks && (ks[k].expiresAt.Some? ==> now < ks[k].expiresAt.value)
  }

  function CountAt(ks: Keyspace, k: Key, now: int): nat {
    if Exists(ks, k, now) && ks[k].value.Count? then ks[k].value.n else 0
  }

  // INCR, then EXPIRE when the key is new.
  function IncrExpire(ks: Keyspace, k: Key, now: int, seconds: int): Keyspace {
    var n := CountAt(ks, k, now) + 1;
    if n == 1 then ks[k := Entry(Count(1), Some(now + MILLIS * seconds))]
    else ks[k := Entry(Count(n), ks[k].expiresAt)]
  }

  lemma IncrExpireCounts(ks: Keyspace, k: Key, now: int, seconds: int)
    requires seconds >= 1
    ensures Exists(IncrExpire(ks, k, now, seconds), k, now)
    ensures CountAt(IncrExpire(ks, k, now, seconds), k, now) == CountAt(ks, k, now) + 1
  {
  }

  /******* The scripts *******/

  function IssueOtp(cfg: Config, ks: Keyspace, now: int, phone: Phone, ip: Ip, code: string): (Keyspace, IssueOutcome) {
    if Exists(ks, Cooldown(phone), now) then (ks, CoolingDown) else
      var ks1 := IncrExpire(ks, PhoneRequests(phone), now, cfg.requestWindowSeconds);
      var ks2 := IncrExpire(ks1, IpRequests(ip), now, cfg.requestWindowSeconds);
      if CountAt(ks1, PhoneRequests(phone), now) > cfg.maxRequestsPerWindow
         || CountAt(ks2, IpRequests(ip), now) > cfg.maxRequestsPerIpWindow then (ks2, TooManyRequests)
      else
        var ks3 := ks2[Cooldown(phone) := Entry(Flag, Some(now + cfg.Cooldown()))]
                   [Code(phone) := Entry(Otp(code), Some(now + cfg.Ttl()))];
        (ks3 - {Attempts(phone), Lock(phone)}, Issued)
  }

  function ValidateOtp(cfg: Config, ks: Keyspace, now: int, phone: Phone, guess: string): (Keyspace, ValidateOutcome) {
    if Exists(ks, Lock(phone), now) then (ks, Blocked)
    else if !Exists(ks, Code(phone), now) then (ks, NoCode)
    else if ks[Code(phone)].value == Otp(guess) then
      (ks - {Code(phone), Attempts(phone), Lock(phone)}, Accepted)
    else
      var ks1 := IncrExpire(ks, Attempts(phone), now, cfg.ttlSeconds);
      if CountAt(ks1, Attempts(phone), now) >= cfg.maxVerifyAttempts then
        ((ks1 - {Code(phone), Attempts(phone)})[Lock(phone) := Entry(Flag, Some(now + cfg.Block()))], LockedOut)
      else (ks1, Wrong)
  }

  // The integers the scripts return: a missing code and a wrong one look the same.
  function IssueReply(o: IssueOutcome): int {
    match o case CoolingDown => -1 case TooManyRequests => -2 case Issued => 1
  }

  function ValidateReply(o: ValidateOutcome): int {
    match o case Blocked => -2 case NoCode => 0 case Wrong => 0 case Accepted => 1 case LockedOut => -1
  }

  datatype Verdict = Valid | Invalid | AttemptsExceeded

  // What the service makes of the reply.
  function VerdictOf(o: ValidateOutcome): Verdict {
    var reply := ValidateReply(o);
    if reply == -1 || reply == -2 then AttemptsExceeded else if reply == 1 then Valid else Invalid
  }

  lemma IssueMeans(cfg: Config, ks: Keyspace, now: int, phone: Phone, ip: Ip, code: string)
    ensures var (after, issued) := IssueOtp(cfg, ks, now, phone, ip, code);
            && (IssueReply(issued) == 1 <==>
                  && !Exists(ks, Cooldown(phone), now)
                  && CountAt(ks, PhoneRequests(phone), now) < cfg.maxRequestsPerWindow
                  && CountAt(ks, IpRequests(ip), now) < cfg.maxRequestsPerIpWindow)
            && (Exists(ks, Cooldown(phone), now) ==> after == ks)
            && (!Exists(ks, Cooldown(phone), now) ==>
                  && CountAt(after, PhoneRequests(phone), now) == CountAt(ks, PhoneRequests(phone), now) + 1
                  && CountAt(after, IpRequests(ip), now) == CountAt(ks, IpRequests(ip), now) + 1)
            && (IssueReply(issued) == 1 ==>
                  && Attempts(phone) !in after && Lock(phone) !in after
                  && Code(phone) in after && after[Code(phone)] == Entry(Otp(code), Some(now + 1000 * cfg.ttlSeconds))
                  && Cooldown(phone) in after && after[Cooldown(phone)] == Entry(Flag, Some(now + 1000 * cfg.cooldownSeconds)))
  {
  }

  lemma ValidateMeans(cfg: Config, ks: Keyspace, now: int, phone: Phone, guess: string)
    ensures var (after, validated) := ValidateOtp(cfg, ks, now, phone, guess);
            var verdict := VerdictOf(validated);
            && (verdict == Valid <==>
                  !Exists(ks, Lock(phone), now) && Exists(ks, Code(phone), now) && ks[Code(phone)].value == Otp(guess))
            && (verdict == AttemptsExceeded <==>
                  || Exists(ks, Lock(phone), now)
                  || (Exists(ks, Code(phone), now) && ks[Code(phone)].value != Otp(guess)
                      && CountAt(ks, Attempts(phone), now) + 1 >= cfg.maxVerifyAttempts))
            && (Exists(ks, Lock(phone), now) || !Exists(ks, Code(phone), now) ==> after == ks)
            && (verdict == Valid ==> after == ks - {Code(phone), Attempts(phone), Lock(phone)})
            && (verdict == AttemptsExceeded && !Exists(ks, Lock(phone), now) ==>
                  && Code(phone) !in after && Attempts(phone) !in after
                  && Lock(phone) in after && after[Lock(phone)] == Entry(Flag, Some(now + 1000 * cfg.blockSeconds)))
            && (verdict == Invalid && Exists(ks, Code(phone), now) ==>
                  && Code(phone) in after && after[Code(phone)] == ks[Code(phone)]
                  && CountAt(after, Attempts(phone), now) == CountAt(ks, Attempts(phone), now) + 1)
  {
    IncrExpireCounts(ks, Attempts(phone), now, cfg.ttlSeconds);
  }
}

// The service: the scripts as sequences of commands on a key space updated in place.
module OtpService {
  import opened Documents
  import opened OtpScripts

  class OtpService {
    const config: Config
    var keys: Keyspace

    constructor (config: Config)
      ensures this.config == config && keys == map[]
    {
      this.config := config;
      keys := map[];
    }

    method Incr(k: Key, now: int) returns (count: nat)
      modifies this
      ensures count == CountAt(old(keys), k, now) + 1
      ensures keys == old(keys)[k := Entry(Count(count), if count == 1 then None else old(keys)[k].expiresAt)]
    {
      count := CountAt(keys, k, now) + 1;
      keys := keys[k := Entry(Count(count), if count == 1 then None else keys[k].expiresAt)];
    }

    method Expire(k: Key, now: int, seconds: int)
      requires k in keys
      modifies this
      ensures keys == old(keys)[k := Entry(old(keys)[k].value, Some(now + 1000 * seconds))]
    {
      keys := keys[k := Entry(keys[k].value, Some(now + MILLIS * seconds))];
    }

    method SetEx(k: Key, value: Value, now: int, seconds: int)
      modifies this
      ensures keys == old(keys)[k := Entry(value, Some(now + 1000 * seconds))]
    {
      keys := keys[k := Entry(value, Some(now + MILLIS * seconds))];
    }

    method Del(gone: set<Key>)
      modifies this
      ensures keys == old(keys) - gone
    {
      keys := keys - gone;
    }

    /** Issues a code exactly as the script's specification does; any refusal is an error to the caller. */
    method GenerateOtp(phone: Phone, ip: Ip, code: string, now: int) returns (result: Option<string>)
      modifies this
      ensures keys == IssueOtp(config, old(keys), now, phone, ip, code).0
      ensures result == if IssueReply(IssueOtp(config, old(keys), now, phone, ip, code).1) == 1 then Some(code) else None
      // A code is issued when the phone is not cooling down and both counters allow one more request.
      ensures result.Some? <==>
              && !Exists(old(keys), Cooldown(phone), now)
              && CountAt(old(keys), PhoneRequests(phone), now) < config.maxRequestsPerWindow
              && CountAt(old(keys), IpRequests(ip), now) < config.maxRequestsPerIpWindow
      ensures Exists(old(keys), Cooldown(phone), now) ==> keys == old(keys)
      ensures !Exists(old(keys), Cooldown(phone), now) ==>
                && CountAt(keys, PhoneRequests(phone), now) == CountAt(old(keys), PhoneRequests(phone), now) + 1
                && CountAt(keys, IpRequests(ip), now) == CountAt(old(keys), IpRequests(ip), now) + 1
      ensures result.Some? ==>
                && result.value == code && Attempts(phone) !in keys && Lock(phone) !in keys
                && Code(phone) in keys && keys[Code(phone)] == Entry(Otp(code), Some(now + 1000 * config.ttlSeconds))
                && Cooldown(phone) in keys && keys[Cooldown(phone)] == Entry(Flag, Some(now + 1000 * config.cooldownSeconds))
    {
      IssueMeans(config, keys, now, phone, ip, code);
      if Exists(keys, Cooldown(phone), now) {
        return None;
      }
      var phoneCount := CountRequest(PhoneRequests(phone), now, config.requestWindowSeconds);
      var ipCount := CountRequest(IpRequests(ip), now, config.requestWindowSeconds);
      hide IncrExpire, CountAt;
      if phoneCount > config.maxRequestsPerWindow || ipCount > config.maxRequestsPerIpWindow {
        return None;
      }
      SetEx(Cooldown(phone), Flag, now, config.cooldownSeconds);
      SetEx(Code(phone), Otp(code), now, config.ttlSeconds);
      Del({Attempts(phone), Lock(phone)});
      return Some(code);
    }

    // INCR, and EXPIRE when that made the key.
    method CountRequest(k: Key, now: int, seconds: int) returns (count: nat)
      requires seconds >= 1
      modifies this
      ensures keys == IncrExpire(old(keys), k, now, seconds)
      ensures count == CountAt(old(keys), k, now) + 1 == CountAt(keys, k, now)
    {
      count := Incr(k, now);
      if count == 1 {
        Expire(k, now, seconds);
      }
      IncrExpireCounts(old(keys), k, now, seconds);
    }

    /** Accepts exactly the live code of a phone that is not locked, and locks the phone at the last wrong guess. */
    method Validate(phone: Phone, guess: string, now: int) returns (verdict: Verdict)
      modifies this
      ensures keys == ValidateOtp(config, old(keys), now, phone, guess).0
      ensures verdict == VerdictOf(ValidateOtp(config, old(keys), now, phone, guess).1)
      ensures verdict == Valid <==>
              && !Exists(old(keys), Lock(phone), now) && Exists(old(keys), Code(phone), now)
              && old(keys)[Code(phone)].value == Otp(guess)
      ensures verdict == AttemptsExceeded <==>
              || Exists(old(keys), Lock(phone), now)
              || (Exists(old(keys), Code(phone), now) && old(keys)[Code(phone)].value != Otp(guess)
                  && CountAt(old(keys), Attempts(phone), now) + 1 >= config.maxVerifyAttempts)
      // A lock or a missing code changes nothing, an acceptance uses the code up, a lockout replaces it by the lock.
      ensures Exists(old(keys), Lock(phone), now) || !Exists(old(keys), Code(phone), now) ==> keys == old(keys)
      ensures verdict == Valid ==> keys == old(keys) - {Code(phone), Attempts(phone), Lock(phone)}
      ensures verdict == AttemptsExceeded && !Exists(old(keys), Lock(phone), now) ==>
                && Code(phone) !in keys && Attempts(phone) !in keys
                && Lock(phone) in keys && keys[Lock(phone)] == Entry(Flag, Some(now + 1000 * config.blockSeconds))
      ensures verdict == Invalid && Exists(old(keys), Code(phone), now) ==>
                && Code(phone) in keys && keys[Code(phone)] == old(keys)[Code(phone)]
                && CountAt(keys, Attempts(phone), now) == CountAt(old(keys), Attempts(phone), now) + 1
    {
      ValidateMeans(config, keys, now, phone, guess);
      if Exists(keys, Lock(phone), now) {
        return AttemptsExceeded;
      }
      if !Exists(keys, Code(phone), now) {
        return Invalid;
      }
      if keys[Code(phone)].value == Otp(guess) {
        Del({Code(phone), Attempts(phone), Lock(phone)});
        return Valid;
      }
      var attempts := CountRequest(Attempts(phone), now, config.ttlSeconds);
      if attempts >= config.maxVerifyAttempts {
        Del({Code(phone), Attempts(phone)});
        SetEx(Lock(phone), Flag, now, config.blockSeconds);
        return AttemptsExceeded;
      }
      return Invalid;
    }
  }
}
