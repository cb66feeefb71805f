/** Redirected registers: where `follow_redirect` ends (`src/soc/isa/semantics/register.rs`). */
module Redirects {
  import opened Results
  import opened Semantics
  import opened RegisterFile
  import opened Registers

  /** The location n redirects further on. */
  function Hop(isa: Isa, at: Location, n: nat): Option<Location>
    decreases n
  {
    if n == 0 then Some(at)
    else if at.0 in isa.spaces && RedirectAt(isa, at).Some? && NextLocation(isa, at).Ok?
      then Hop(isa, NextLocation(isa, at).value, n - 1)
    else None
  }

  /** The location is in a space of the machine and is redirected further. */
  predicate Redirected(isa: Isa, at: Location) {
    at.0 in isa.spaces && RedirectAt(isa, at).Some?
  }

  /** After exactly n redirects the chain stops at `end`. */
  predicate ChainEnds(isa: Isa, at: Location, n: nat, end: Location) {
    Hop(isa, at, n) == Some(end) && end.0 in isa.spaces && RedirectAt(isa, end).None?
  }

  lemma {:induction false} FollowFrom(isa: Isa, at: Location, visited: nat, end: Location)
    requires visited <= MAX_REDIRECTS
    ensures FollowRedirect(isa, at, visited) == Ok(Some(end)) <==>
            exists n: nat :: 1 <= visited + n <= MAX_REDIRECTS && ChainEnds(isa, at, n, end)
    decreases MAX_REDIRECTS - visited
  {
    if Redirected(isa, at) && visited < MAX_REDIRECTS && NextLocation(isa, at).Ok? {
      var next := NextLocation(isa, at).value;
      FollowFrom(isa, next, visited + 1, end);
      assert forall n: nat :: ChainEnds(isa, at, n + 1, end) <==> ChainEnds(isa, next, n, end);
      if n: nat :| 1 <= visited + n <= MAX_REDIRECTS && ChainEnds(isa, at, n, end) {
        assert n > 0 && ChainEnds(isa, next, n - 1, end);
      }
      if n: nat :| 1 <= visited + 1 + n <= MAX_REDIRECTS && ChainEnds(isa, next, n, end) {
        assert ChainEnds(isa, at, n + 1, end);
      }
    } else {
      assert forall n: nat :: n > 0 && Hop(isa, at, n).Some? ==> Redirected(isa, at) && NextLocation(isa, at).Ok?;
      if visited > 0 && !Redirected(isa, at) && at == end { assert ChainEnds(isa, at, 0, end) <==> at.0 in isa.spaces; }
    }
  }

  /** A redirect leads to the end of its chain exactly when the chain has one to eight hops. */
  lemma FollowRedirectExact(isa: Isa, at: Location, end: Location)
    ensures FollowRedirect(isa, at, 0) == Ok(Some(end)) <==>
            exists n: nat :: 1 <= n <= 8 && ChainEnds(isa, at, n, end)
  {
    FollowFrom(isa, at, 0, end);
    if n: nat :| 1 <= n <= 8 && ChainEnds(isa, at, n, end) {
      assert 1 <= 0 + n <= 8;
    }
    if FollowRedirect(isa, at, 0) == Ok(Some(end)) {
      var n: nat :| 1 <= 0 + n <= 8 && ChainEnds(isa, at, n, end);
      assert 1 <= n <= 8;
    }
  }

  lemma {:induction false} TooDeepFrom(isa: Isa, at: Location, visited: nat)
    requires visited <= 8
    ensures FollowRedirect(isa, at, visited) == Err(RedirectTooDeep) <==>
            var last := Hop(isa, at, 8 - visited);
            last.Some? && Redirected(isa, last.value)
    decreases 8 - visited
  {
    if Redirected(isa, at) && visited < 8 && NextLocation(isa, at).Ok? {
      TooDeepFrom(isa, NextLocation(isa, at).value, visited + 1);
    }
  }

  lemma {:induction false} HopAdd(isa: Isa, at: Location, n: nat, m: nat)
    requires Hop(isa, at, n).Some?
    ensures Hop(isa, at, n + m) == Hop(isa, Hop(isa, at, n).value, m)
    decreases n
  {
    if n > 0 { HopAdd(isa, NextLocation(isa, at).value, n - 1, m); }
  }

  lemma {:induction false} HopPrefix(isa: Isa, at: Location, n: nat, m: nat)
    requires m <= n && Hop(isa, at, n).Some?
    ensures Hop(isa, at, m).Some? && (m < n ==> Redirected(isa, Hop(isa, at, m).value))
    decreases n
  {
    if m > 0 { HopPrefix(isa, NextLocation(isa, at).value, n - 1, m - 1); }
  }

  lemma {:induction false} CycleRepeats(isa: Isa, at: Location, period: nat, turns: nat)
    requires Hop(isa, at, period) == Some(at)
    ensures Hop(isa, at, turns * period) == Some(at)
  {
    if turns > 0 {
      CycleRepeats(isa, at, period, turns - 1);
      HopAdd(isa, at, (turns - 1) * period, period);
      assert (turns - 1) * period + period == turns * period;
    }
  }

  /** A register that redirects to itself, directly or round a cycle, is never resolved. */
  lemma CycleRejected(isa: Isa, at: Location, period: nat)
    requires period > 0 && Hop(isa, at, period) == Some(at)
    ensures FollowRedirect(isa, at, 0) == Err(RedirectTooDeep)
  {
    var turns := MAX_REDIRECTS + 1;
    CycleRepeats(isa, at, period, turns);
    assert turns * period >= turns;
    HopPrefix(isa, at, turns * period, MAX_REDIRECTS);
    TooDeepFrom(isa, at, 0);
  }
}
