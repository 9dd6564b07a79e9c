/** Time-based one-time codes (RFC 6238 over RFC 4226): which counter a code is accepted for. */
module Totp {
  import opened Results

  const STEP_SECONDS := 30
  const DIGITS := 6

  /** The codes of a decoded secret, one per counter; the keyed hash behind them is left uninterpreted. */
  type Codes = int -> string

  /** The time step of a moment given in seconds since the epoch. */
  function TimeStep(unix: int): int {
    unix / STEP_SECONDS
  }

  predicate WellFormedCode(code: string) {
    |code| == DIGITS && forall i | 0 <= i < |code| :: '0' <= code[i] <= '9'
  }

  /** A counter the code is valid for and that has not been used up. */
  predicate Fits(codes: Codes, code: string, last: int, counter: int) {
    counter >= 0 && counter > last && codes(counter) == code
  }

  /** The accepted counter: the current step is tried first, then the previous one, then the next. `None` for `codes` is an undecodable secret. */
  function Verify(codes: Option<Codes>, code: string, unix: int, last: int): (counter: Option<int>)
    ensures counter.Some? ==> TimeStep(unix) - 1 <= counter.value <= TimeStep(unix) + 1 && counter.value > last && counter.value >= 0
  {
    var now := TimeStep(unix);
    if unix < 0 || !WellFormedCode(code) || codes.None? then None
    else if Fits(codes.value, code, last, now) then Some(now)
    else if Fits(codes.value, code, last, now - 1) then Some(now - 1)
    else if Fits(codes.value, code, last, now + 1) then Some(now + 1)
    else None
  }

  method VerifyTOTP(codes: Option<Codes>, code: string, unix: int, last: int) returns (counter: Option<int>)
    ensures counter == Verify(codes, code, unix, last)
  {
    if unix < 0 || |code| != DIGITS {
      return None;
    }
    for i := 0 to |code|
      invariant forall k | 0 <= k < i :: '0' <= code[k] <= '9'
    {
      if code[i] < '0' || code[i] > '9' {
        return None;
      }
    }
    if codes.None? {
      return None;
    }
    var now, offsets := unix / STEP_SECONDS, [0, -1, 1];
    for i := 0 to |offsets|
      invariant forall k | 0 <= k < i :: !Fits(codes.value, code, last, now + offsets[k])
    {
      var candidate := now + offsets[i];
      if candidate < 0 || candidate <= last {
        continue;
      }
      if codes.value(candidate) == code {
        assert i >= 1 ==> !Fits(codes.value, code, last, now + offsets[0]);
        assert i == 2 ==> !Fits(codes.value, code, last, now + offsets[1]);
        return Some(candidate);
      }
    }
    assert !Fits(codes.value, code, last, now + offsets[0]) && !Fits(codes.value, code, last, now + offsets[1])
           && !Fits(codes.value, code, last, now + offsets[2]);
    return None;
  }

  /** Within the window of one step either side, a fresh code is accepted if and only if it fits one of the three counters. */
  lemma AcceptedIffSomeCounterFits(codes: Codes, code: string, unix: int, last: int)
    requires unix >= 0 && WellFormedCode(code)
    ensures Verify(Some(codes), code, unix, last).Some?
            <==> exists counter | TimeStep(unix) - 1 <= counter <= TimeStep(unix) + 1 :: Fits(codes, code, last, counter)
  {
    if counter :| TimeStep(unix) - 1 <= counter <= TimeStep(unix) + 1 && Fits(codes, code, last, counter) {
      assert counter == TimeStep(unix) || counter == TimeStep(unix) - 1 || counter == TimeStep(unix) + 1;
    }
  }

  /** Once a counter is recorded, neither it nor an earlier one is accepted again, whatever the code and the time. */
  lemma RecordedCounterIsSpent(codes: Option<Codes>, code: string, unix: int, last: int)
    ensures var counter := Verify(codes, code, unix, last);
            counter.Some? ==> Verify(codes, code, unix, counter.value) != counter
                              && (Verify(codes, code, unix, counter.value).Some? ==> Verify(codes, code, unix, counter.value).value > counter.value)
  {
  }
}
