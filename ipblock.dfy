/**
 * The login IP blocker: an in-memory map from IP address to the time (in
 * milliseconds) until which the IP is blocked. A request from a blocked IP is
 * rejected with 429; an expired block is dropped; otherwise the failed logins of the
 * last three minutes are counted and three or more block the IP for three minutes.
 *
 * The three reads of the clock are the parameters now1, now2 and now3; the count of
 * failed logins in the log store is the parameter countFailures, applied to the
 * start of the window.
 */
module IpBlock {
  import opened Wrappers

  const LimitAttempts: nat := 3
  const WindowMinutes: nat := 3
  const BlockMinutes: nat := 3
  const MinuteMs: nat := 60 * 1000

  /** Pass the request on, or answer 429 Too Many Requests. */
  datatype Verdict = Next | TooManyRequests

  /** The verdict, the map after the request, and the window start used to count
      failures (None when failures were not counted). */
  datatype Decision = Decision(verdict: Verdict, blocks: map<string, int>, since: Option<int>)

  /** One request from ip against the map blocks. The failures are counted, from three
      minutes before now2, exactly when the IP is not blocked at now1. */
  function Check(blocks: map<string, int>, ip: string, now1: int, now2: int, now3: int, countFailures: int -> nat): (d: Decision)
    ensures d.since.None? <==> ip in blocks && now1 < blocks[ip]
    ensures d.since.Some? ==> d.since.value == now2 - 180000
  {
    if ip in blocks && now1 < blocks[ip] then Decision(TooManyRequests, blocks, None)
    else
      var cleared := blocks - {ip};
      var since := now2 - WindowMinutes * MinuteMs;
      if countFailures(since) >= LimitAttempts then
        Decision(TooManyRequests, cleared[ip := now3 + BlockMinutes * MinuteMs], Some(since))
      else Decision(Next, cleared, Some(since))
  }

  /** The middleware with its module-level map. */
  class IpBlocker {
    var blocks: map<string, int>

    constructor()
      ensures blocks == map[]
    {
      blocks := map[];
    }

    method CheckBlockedIp(ip: string, now1: int, now2: int, now3: int, countFailures: int -> nat) returns (verdict: Verdict, since: Option<int>)
      modifies this
      ensures Decision(verdict, blocks, since) == Check(old(blocks), ip, now1, now2, now3, countFailures)
    {
      since := None;
      if ip in blocks {
        var blockedUntil := blocks[ip];
        if now1 < blockedUntil {
          return TooManyRequests, None;
        } else {
          blocks := blocks - {ip};
        }
      }
      var windowStart := now2 - WindowMinutes * MinuteMs;
      since := Some(windowStart);
      var failedAttempts := countFailures(windowStart);
      if failedAttempts >= LimitAttempts {
        blocks := blocks[ip := now3 + BlockMinutes * MinuteMs];
        return TooManyRequests, since;
      }
      verdict := Next;
    }
  }

  /** A request from an IP that is still blocked is rejected; the map is unchanged and
      the failures are not counted. */
  lemma CheckWhileBlocked(blocks: map<string, int>, ip: string, now1: int, now2: int, now3: int, countFailures: int -> nat)
    requires ip in blocks && now1 < blocks[ip]
    ensures Check(blocks, ip, now1, now2, now3, countFailures) == Decision(TooManyRequests, blocks, None)
  {
  }

  /** Otherwise (no entry, or an expired one) the failures are counted from three
      minutes before now2; three or more block the IP until three minutes after now3
      and reject the request; fewer pass it on and leave no entry for the IP. */
  lemma CheckCounted(blocks: map<string, int>, ip: string, now1: int, now2: int, now3: int, countFailures: int -> nat)
    requires ip !in blocks || now1 >= blocks[ip]
    ensures Check(blocks, ip, now1, now2, now3, countFailures).since == Some(now2 - 180000)
    ensures countFailures(now2 - 180000) >= 3 ==>
              Check(blocks, ip, now1, now2, now3, countFailures).verdict == TooManyRequests &&
              Check(blocks, ip, now1, now2, now3, countFailures).blocks == blocks[ip := now3 + 180000]
    ensures countFailures(now2 - 180000) < 3 ==>
              Check(blocks, ip, now1, now2, now3, countFailures).verdict == Next &&
              Check(blocks, ip, now1, now2, now3, countFailures).blocks == blocks - {ip}
  {
    assert WindowMinutes * MinuteMs == 180000;
    var cleared := blocks - {ip};
    assert cleared[ip := now3 + 180000] == blocks[ip := now3 + 180000];
  }

  /** An expired block is dropped before the failures are counted: the request is
      decided as if the IP had no entry, and when it passes, no entry is left. */
  lemma CheckExpired(blocks: map<string, int>, ip: string, now1: int, now2: int, now3: int, countFailures: int -> nat)
    requires ip in blocks && now1 >= blocks[ip]
    ensures Check(blocks, ip, now1, now2, now3, countFailures) == Check(blocks - {ip}, ip, now1, now2, now3, countFailures)
    ensures Check(blocks, ip, now1, now2, now3, countFailures).verdict == Next ==>
              ip !in Check(blocks, ip, now1, now2, now3, countFailures).blocks
  {
    assert blocks - {ip} - {ip} == blocks - {ip};
  }

  /** The request is rejected exactly when the IP has an entry after it. */
  lemma CheckRejectsIffBlocked(blocks: map<string, int>, ip: string, now1: int, now2: int, now3: int, countFailures: int -> nat)
    ensures Check(blocks, ip, now1, now2, now3, countFailures).verdict == TooManyRequests <==>
              ip in Check(blocks, ip, now1, now2, now3, countFailures).blocks
  {
  }

  /** The entries of the other IPs are never touched. */
  lemma CheckOthersUntouched(blocks: map<string, int>, ip: string, now1: int, now2: int, now3: int, countFailures: int -> nat, other: string)
    requires other != ip
    ensures other in Check(blocks, ip, now1, now2, now3, countFailures).blocks <==> other in blocks
    ensures other in blocks ==> Check(blocks, ip, now1, now2, now3, countFailures).blocks[other] == blocks[other]
  {
  }

  /** A block set at now3 rejects every later request from that IP made before
      now3 + 3 minutes, whatever the failure count then; from then on the entry no
      longer rejects by itself. */
  lemma BlockHoldsUntilExpiry(blocks: map<string, int>, ip: string, now1: int, now2: int, now3: int, countFailures: int -> nat,
                              later1: int, later2: int, later3: int, laterFailures: int -> nat)
    requires ip !in blocks || now1 >= blocks[ip]
    requires countFailures(now2 - 180000) >= 3
    ensures later1 < now3 + 180000 ==>
              Check(Check(blocks, ip, now1, now2, now3, countFailures).blocks, ip, later1, later2, later3, laterFailures).verdict == TooManyRequests
    ensures later1 >= now3 + 180000 ==>
              Check(Check(blocks, ip, now1, now2, now3, countFailures).blocks, ip, later1, later2, later3, laterFailures).since.Some?
  {
    CheckCounted(blocks, ip, now1, now2, now3, countFailures);
  }
}
