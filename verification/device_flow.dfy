/**
The token poll of the device flow (extensions/CILogon-SSH-PAM/src/pam_oauth2_device.cpp): sleep,
ask, and on slow_down sleep longer, within a budget of 300 seconds.
 */
module DeviceFlow {
  const BUDGET := 300
  const FIRST_INTERVAL := 3

  /** What the token endpoint says; Unreadable stands for any answer the JSON code throws on. */
  datatype Answer = Token(token: string) | Pending | SlowDown | Denied | OtherError | Unreadable
  datatype Outcome = Got(token: string) | Timeout | ResponseError

  predicate KeepsPolling(a: Answer) {
    a.Pending? || a.SlowDown?
  }

  /** The interval slept before poll k: one second longer for each slow_down so far. */
  function Interval(answers: nat -> Answer, k: nat): nat {
    if k == 0 then FIRST_INTERVAL else Interval(answers, k - 1) + if answers(k - 1).SlowDown? then 1 else 0
  }

  /** Time slept by the first n polls. */
  function Slept(answers: nat -> Answer, n: nat): nat {
    if n == 0 then 0 else Slept(answers, n - 1) + Interval(answers, n - 1)
  }

  /** Polls 0 to n - 1 all said to go on. */
  ghost predicate GoesOn(answers: nat -> Answer, n: nat) {
    forall k: nat :: k < n ==> KeepsPolling(answers(k))
  }

  method PollForToken(answers: nat -> Answer) returns (outcome: Outcome, polls: nat, slept: nat)
    ensures slept == Slept(answers, polls) <= BUDGET && polls <= 100
    ensures outcome.Timeout? ==> GoesOn(answers, polls) && Slept(answers, polls + 1) > BUDGET
    ensures !outcome.Timeout? ==> polls > 0 && GoesOn(answers, polls - 1) && !KeepsPolling(answers(polls - 1))
    ensures outcome.Got? <==> polls > 0 && answers(polls - 1).Token?
    ensures outcome.Got? ==> answers(polls - 1) == Token(outcome.token)
    ensures outcome.ResponseError? ==> answers(polls - 1) in {Denied, OtherError, Unreadable}
    ensures forall k: nat :: k < polls && (outcome.Timeout? || k < polls - 1) ==> answers(k) in {Pending, SlowDown}
  {
    var timeout, interval := BUDGET, FIRST_INTERVAL;
    polls, slept := 0, 0;
    while true
      invariant slept + timeout == BUDGET && timeout >= 0
      invariant interval == Interval(answers, polls) >= 3 && slept == Slept(answers, polls) >= 3 * polls
      invariant GoesOn(answers, polls)
      decreases timeout
    {
      timeout := timeout - interval;
      if timeout < 0 { return Timeout, polls, slept; }
      slept := slept + interval;
      var answer := answers(polls);
      polls := polls + 1;
      match answer {
        case Token(token) => return Got(token), polls, slept;
        case Pending =>
        case SlowDown => interval := interval + 1;
        case Denied => return ResponseError, polls, slept;
        case OtherError => return ResponseError, polls, slept;
        case Unreadable => return ResponseError, polls, slept;
      }
    }
  }

  // ---------- How many polls fit ----------

  lemma {:induction false} IntervalBounds(answers: nat -> Answer, k: nat)
    ensures FIRST_INTERVAL <= Interval(answers, k) <= FIRST_INTERVAL + k
  {
    if k > 0 { IntervalBounds(answers, k - 1); }
  }

  /** A second slept is never given back: more polls sleep at least three seconds more each. */
  lemma {:induction false} SleptGrows(answers: nat -> Answer, m: nat, n: nat)
    requires m <= n
    ensures Slept(answers, n) >= Slept(answers, m) + 3 * (n - m)
  {
    if m < n {
      SleptGrows(answers, m, n - 1);
      IntervalBounds(answers, n - 1);
    }
  }

  /** The run is determined by its answers: any two counts that meet the loop's contract for a time-out are equal. */
  lemma TimeoutPollsAreUnique(answers: nat -> Answer, m: nat, n: nat)
    requires Slept(answers, m) <= BUDGET < Slept(answers, m + 1)
    requires Slept(answers, n) <= BUDGET < Slept(answers, n + 1)
    ensures m == n
  {
    if m < n { SleptGrows(answers, m + 1, n); }
    if n < m { SleptGrows(answers, n + 1, m); }
  }

  lemma {:induction false} AllPendingSleeps(answers: nat -> Answer, n: nat)
    requires forall k: nat :: answers(k) == Pending
    ensures Slept(answers, n) == 3 * n && Interval(answers, n) == 3
  {
    if n > 0 { AllPendingSleeps(answers, n - 1); }
  }

  lemma {:induction false} AllSlowDownSleeps(answers: nat -> Answer, n: nat)
    requires forall k: nat :: answers(k) == SlowDown
    ensures 2 * Slept(answers, n) == n * (n + 5) && Interval(answers, n) == 3 + n
  {
    if n > 0 { AllSlowDownSleeps(answers, n - 1); }
  }

  /** Never answered, the loop polls 100 times and sleeps the whole budget. */
  lemma PendingForeverPolls(answers: nat -> Answer, n: nat)
    requires forall k: nat :: answers(k) == Pending
    requires Slept(answers, n) <= BUDGET < Slept(answers, n + 1)
    ensures n == 100 && Slept(answers, n) == BUDGET
  {
    AllPendingSleeps(answers, n);
    AllPendingSleeps(answers, n + 1);
  }

  /** Always slowed down, it polls 22 times and sleeps 297 seconds. */
  lemma SlowedForeverPolls(answers: nat -> Answer, n: nat)
    requires forall k: nat :: answers(k) == SlowDown
    requires Slept(answers, n) <= BUDGET < Slept(answers, n + 1)
    ensures n == 22 && Slept(answers, n) == 297
  {
    AllSlowDownSleeps(answers, 22);
    AllSlowDownSleeps(answers, 23);
    if n < 22 { SleptGrows(answers, n + 1, 22); }
    if n > 22 { SleptGrows(answers, 23, n); }
  }

  // ---------- Against the standard ----------

  function SlowDowns(answers: nat -> Answer, k: nat): nat {
    if k == 0 then 0 else SlowDowns(answers, k - 1) + if answers(k - 1).SlowDown? then 1 else 0
  }

  /**
  Section 3.5 of RFC 8628 asks for five more seconds after each slow_down; the code adds one,
  so poll k waits as long as asked if and only if no slow_down came before it.
   */
  lemma {:induction false} WaitsAsAskedIff(answers: nat -> Answer, k: nat)
    ensures Interval(answers, k) == FIRST_INTERVAL + SlowDowns(answers, k)
    ensures Interval(answers, k) >= FIRST_INTERVAL + 5 * SlowDowns(answers, k) <==> SlowDowns(answers, k) == 0
  {
    if k > 0 { WaitsAsAskedIff(answers, k - 1); }
  }
}
