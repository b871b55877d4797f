/** The sliding-window rate limiter: one list of admission times per tenant and endpoint class. */
module RateLimit {
  const WINDOW := 60.0

  /** `Fault` is the IndexError of asking an empty window for its oldest entry. */
  datatype Verdict = Admitted(remaining: int) | Rejected(retryAfter: int) | Fault

  function Pruned(window: seq<real>, cutoff: real): seq<real> {
    if window != [] && window[0] < cutoff then Pruned(window[1..], cutoff) else window
  }

  function Max0(n: int): int {
    if n > 0 then n else 0
  }

  /** The verdict on a request, and the window it leaves, from the window before. */
  function Judge(window: seq<real>, limit: int, now: real): (Verdict, seq<real>) {
    var live := Pruned(window, now - WINDOW);
    if |live| < limit then (Admitted(Max0(limit - |live| - 1)), live + [now])
    else if live == [] then (Fault, live)
    else (Rejected((live[0] + WINDOW - now).Floor + 1), live)
  }

  class RateLimiter {
    var counters: map<string, seq<real>>

    constructor ()
      ensures counters == map[]
    {
      counters := map[];
    }

    function Window(key: string): seq<real>
      reads this
    {
      if key in counters then counters[key] else []
    }

    method Dispatch(key: string, limit: int, now: real) returns (v: Verdict)
      modifies this
      ensures (v, Window(key)) == Judge(old(Window(key)), limit, now)
      ensures forall other | other != key :: Window(other) == old(Window(other))
    {
      var window := if key in counters then counters[key] else [];
      var cutoff := now - WINDOW;
      while |window| > 0 && window[0] < cutoff
        invariant Pruned(window, cutoff) == Pruned(old(Window(key)), cutoff)
        decreases |window|
      {
        window := window[1..];
      }
      counters := counters[key := window];
      var remaining := Max0(limit - |window|);
      if |window| >= limit {
        if |window| == 0 {
          return Fault;
        }
        return Rejected((window[0] + WINDOW - now).Floor + 1);
      }
      counters := counters[key := window + [now]];
      v := Admitted(if remaining > 0 then remaining - 1 else 0);
    }
  }

  // --- One key over a whole run ---

  predicate NonDecreasing(ts: seq<real>) {
    forall i, j | 0 <= i < j < |ts| :: ts[i] <= ts[j]
  }

  function WindowAfter(limit: int, times: seq<real>): seq<real> {
    if times == [] then []
    else Judge(WindowAfter(limit, times[..|times| - 1]), limit, times[|times| - 1]).1
  }

  /** The verdict on the last of the requests made at `times`. */
  function LastVerdict(limit: int, times: seq<real>): Verdict
    requires times != []
  {
    Judge(WindowAfter(limit, times[..|times| - 1]), limit, times[|times| - 1]).0
  }

  /** The times of all requests admitted so far. */
  function Admissions(limit: int, times: seq<real>): seq<real> {
    if times == [] then []
    else
      var earlier := Admissions(limit, times[..|times| - 1]);
      if LastVerdict(limit, times).Admitted? then earlier + [times[|times| - 1]] else earlier
  }

  /** Pruning keeps exactly the entries from the cutoff on. */
  lemma {:induction false} PrunedIsSuffix(window: seq<real>, cutoff: real) returns (n: nat)
    requires NonDecreasing(window)
    ensures n <= |window| && Pruned(window, cutoff) == window[n..]
    ensures forall i | 0 <= i < n :: window[i] < cutoff
    ensures forall i | n <= i < |window| :: window[i] >= cutoff
  {
    if window != [] && window[0] < cutoff {
      var m := PrunedIsSuffix(window[1..], cutoff);
      n := m + 1;
      assert window[1..][m..] == window[n..];
      forall i | 0 <= i < n ensures window[i] < cutoff {
        assert i > 0 ==> window[i] == window[1..][i - 1];
      }
      forall i | n <= i < |window| ensures window[i] >= cutoff {
        assert window[i] == window[1..][i - 1];
      }
    } else {
      n := 0;
      assert window[0..] == window;
    }
  }

  /** The window is the tail of the admissions: nothing younger than sixty seconds is missing. */
  ghost predicate Tracks(limit: int, adm: seq<real>, window: seq<real>, now: real) {
    && NonDecreasing(adm)
    && |window| <= limit && |window| <= |adm| && window == adm[|adm| - |window|..]
    && (forall i | 0 <= i < |adm| - |window| :: adm[i] < now - WINDOW)
    && (forall i | 0 <= i < |adm| :: adm[i] <= now)
  }

  /** Sixty seconds or less never separate an admission from the `limit`-th one after it. */
  ghost predicate Spaced(limit: int, adm: seq<real>) {
    forall i, j | 0 <= i < |adm| && 0 <= j < |adm| && i + limit <= j :: adm[i] < adm[j] - WINDOW
  }

  /** Pruning a tracked window leaves the admissions from the new cutoff on. */
  lemma PrunedTracks(limit: int, adm: seq<real>, window: seq<real>, before: real, now: real)
    requires before <= now && Tracks(limit, adm, window, before)
    ensures Tracks(limit, adm, Pruned(window, now - WINDOW), now)
  {
    var d := |adm| - |window|;
    forall i, j | 0 <= i < j < |window| ensures window[i] <= window[j] {
      assert window[i] == adm[d + i] && window[j] == adm[d + j];
    }
    var n := PrunedIsSuffix(window, now - WINDOW);
    hide Pruned;
    assert forall i | 0 <= i < |window| :: window[i] == adm[d + i];
    assert window[n..] == adm[d + n..];
    forall i | 0 <= i < d + n ensures adm[i] < now - WINDOW {
      if i >= d { assert adm[i] == window[i - d]; }
    }
  }

  lemma AdmissionKeeps(limit: int, adm: seq<real>, live: seq<real>, now: real)
    requires Tracks(limit, adm, live, now) && Spaced(limit, adm) && |live| < limit
    ensures Tracks(limit, adm + [now], live + [now], now) && Spaced(limit, adm + [now])
  {
    var adm' := adm + [now];
    assert live + [now] == adm'[|adm'| - |live| - 1..];
    forall i, j | 0 <= i < |adm'| && 0 <= j < |adm'| && i + limit <= j ensures adm'[i] < adm'[j] - WINDOW {
      if j == |adm| {
        assert i < |adm| - |live|;
      }
    }
  }

  lemma JudgeKeeps(limit: int, adm: seq<real>, window: seq<real>, before: real, now: real)
    requires limit >= 1 && before <= now && Tracks(limit, adm, window, before) && Spaced(limit, adm)
    ensures var (v, window') := Judge(window, limit, now);
            var adm' := if v.Admitted? then adm + [now] else adm;
            Tracks(limit, adm', window', now) && Spaced(limit, adm') && !v.Fault?
  {
    var live := Pruned(window, now - WINDOW);
    PrunedTracks(limit, adm, window, before, now);
    hide Tracks, Spaced, Pruned;
    if |live| < limit {
      AdmissionKeeps(limit, adm, live, now);
    }
  }

  lemma {:induction false} RunIsTracked(limit: int, times: seq<real>)
    requires limit >= 1 && NonDecreasing(times)
    ensures Spaced(limit, Admissions(limit, times))
    ensures times != [] ==> Tracks(limit, Admissions(limit, times), WindowAfter(limit, times), times[|times| - 1])
    ensures times == [] ==> WindowAfter(limit, times) == [] == Admissions(limit, times)
  {
    if times != [] {
      var n := |times| - 1;
      var earlier := times[..n];
      RunIsTracked(limit, earlier);
      var before := if n == 0 then times[n] else times[n - 1];
      hide Judge, Spaced;
      assert Tracks(limit, Admissions(limit, earlier), WindowAfter(limit, earlier), before);
      hide Tracks;
      JudgeKeeps(limit, Admissions(limit, earlier), WindowAfter(limit, earlier), before, times[n]);
    }
  }

  predicate Inside(t: real, start: real) {
    start <= t <= start + 60.0
  }

  /** How many of the times lie in the closed interval of sixty seconds from `start`. */
  function CountInside(ts: seq<real>, start: real): nat {
    if ts == [] then 0
    else CountInside(ts[..|ts| - 1], start) + if Inside(ts[|ts| - 1], start) then 1 else 0
  }

  lemma {:induction false} CountBound(ts: seq<real>, start: real, lo: nat, n: nat)
    requires forall i | 0 <= i < |ts| && Inside(ts[i], start) :: lo <= i < lo + n
    ensures CountInside(ts, start) <= n
    ensures |ts| <= lo ==> CountInside(ts, start) == 0
    ensures lo <= |ts| ==> CountInside(ts, start) <= |ts| - lo
  {
    if ts != [] {
      CountBound(ts[..|ts| - 1], start, lo, n);
    }
  }

  lemma {:induction false} FirstInside(ts: seq<real>, start: real) returns (lo: nat)
    ensures forall i | 0 <= i < |ts| && Inside(ts[i], start) :: lo <= i
    ensures lo < |ts| ==> Inside(ts[lo], start)
  {
    if ts == [] {
      lo := 0;
    } else {
      var n := |ts| - 1;
      lo := FirstInside(ts[..n], start);
      if lo >= n {
        lo := if Inside(ts[n], start) then n else n + 1;
        assert forall i | 0 <= i < n :: ts[..n][i] == ts[i];
      }
    }
  }

  lemma Apart(limit: int, adm: seq<real>, i: nat, j: nat)
    requires Spaced(limit, adm) && i < |adm| && j < |adm|
    ensures i + limit <= j ==> adm[i] < adm[j] - WINDOW
  {
  }

  /** No closed interval of sixty seconds, anywhere in any run, holds more than `limit`
      admissions for one key. */
  lemma NeverOverLimit(limit: int, times: seq<real>, start: real)
    requires limit >= 1 && NonDecreasing(times)
    ensures CountInside(Admissions(limit, times), start) <= limit
  {
    RunIsTracked(limit, times);
    var adm := Admissions(limit, times);
    hide Admissions, WindowAfter, Tracks, CountInside;
    var lo := FirstInside(adm, start);
    forall i | 0 <= i < |adm| && Inside(adm[i], start) ensures lo <= i < lo + limit {
      Apart(limit, adm, lo, i);
    }
    CountBound(adm, start, lo, limit);
  }

  lemma TrackedWindow(limit: int, adm: seq<real>, window: seq<real>, now: real)
    requires Tracks(limit, adm, window, now)
    ensures NonDecreasing(window) && |window| <= limit && forall i | 0 <= i < |window| :: window[i] <= now
  {
    var d := |adm| - |window|;
    forall i | 0 <= i < |window| ensures window[i] == adm[d + i] {
    }
  }

  lemma {:induction false} PrunedHead(window: seq<real>, cutoff: real)
    ensures var live := Pruned(window, cutoff); live != [] ==> live[0] >= cutoff
  {
    if window != [] && window[0] < cutoff {
      PrunedHead(window[1..], cutoff);
    }
  }

  /** What a rejection leaves: a full window, its oldest entry within sixty seconds. */
  lemma RejectionLeavesFull(limit: int, times: seq<real>, now: real)
    requires limit >= 1 && NonDecreasing(times + [now]) && LastVerdict(limit, times + [now]).Rejected?
    ensures var w := WindowAfter(limit, times + [now]);
            |w| == limit && NonDecreasing(w) && now - 60.0 <= w[0] <= now
            && LastVerdict(limit, times + [now]) == Rejected((w[0] + 60.0 - now).Floor + 1)
  {
    var all := times + [now];
    assert all[..|all| - 1] == times;
    var before := WindowAfter(limit, times);
    var w := WindowAfter(limit, all);
    assert (LastVerdict(limit, all), w) == Judge(before, limit, now);
    PrunedHead(before, now - WINDOW);
    RunIsTracked(limit, all);
    hide WindowAfter, LastVerdict, Admissions, Tracks, Spaced, Pruned, NonDecreasing;
    TrackedWindow(limit, Admissions(limit, all), w, now);
  }

  /** After a rejection, the key's next request is admitted exactly when it comes more than
      sixty seconds after the oldest admission still counted. The advertised Retry-After is
      always late enough, and a second less is not. */
  lemma RetryAfterIsRight(limit: int, times: seq<real>, now: real, later: real)
    requires limit >= 1 && NonDecreasing(times + [now]) && now <= later
    requires LastVerdict(limit, times + [now]).Rejected?
    ensures var oldest := WindowAfter(limit, times + [now])[0];
            var retryAfter := LastVerdict(limit, times + [now]).retryAfter;
            var next := LastVerdict(limit, times + [now] + [later]);
            && (next.Admitted? <==> later > oldest + 60.0)
            && (later >= now + retryAfter as real ==> next.Admitted?)
            && (later <= now + (retryAfter - 1) as real ==> next.Rejected?)
            && 1 <= retryAfter <= 61
  {
    var all := times + [now];
    RejectionLeavesFull(limit, times, now);
    var w := WindowAfter(limit, all);
    assert (all + [later])[..|all|] == all;
    var n := PrunedIsSuffix(w, later - WINDOW);
    hide WindowAfter;
    var x := w[0] + WINDOW - now;
    assert x.Floor as real <= x < (x.Floor + 1) as real;
  }

  lemma {:induction false} CountSuffix(ts: seq<real>, start: real, lo: nat)
    requires lo <= |ts| && forall i | 0 <= i < |ts| :: Inside(ts[i], start) <==> lo <= i
    ensures CountInside(ts, start) == |ts| - lo
  {
    if ts != [] {
      var n := |ts| - 1;
      CountSuffix(ts[..n], start, if lo <= n then lo else n);
    }
  }

  /** What is left of the window are the admissions of the last sixty seconds. */
  lemma LiveIsInside(limit: int, adm: seq<real>, window: seq<real>, before: real, now: real)
    requires before <= now && Tracks(limit, adm, window, before)
    ensures CountInside(adm, now - 60.0) == |Pruned(window, now - WINDOW)|
  {
    PrunedTracks(limit, adm, window, before, now);
    var n := PrunedIsSuffix(window, now - WINDOW);
    var live := Pruned(window, now - WINDOW);
    hide Pruned, CountInside, NonDecreasing;
    var lo := |adm| - |live|;
    forall i | 0 <= i < |adm| ensures Inside(adm[i], now - 60.0) <==> lo <= i {
      if i >= lo {
        assert adm[i] == live[i - lo] && live[i - lo] == window[n + (i - lo)];
      }
    }
    CountSuffix(adm, now - 60.0, lo);
  }

  lemma CountOfWindow(limit: int, times: seq<real>, now: real)
    requires limit >= 1 && NonDecreasing(times + [now])
    ensures CountInside(Admissions(limit, times), now - 60.0) == |Pruned(WindowAfter(limit, times), now - WINDOW)|
  {
    if times != [] {
      var all := times + [now];
      assert forall i | 0 <= i < |times| :: times[i] == all[i];
      assert all[|times| - 1] <= all[|times|];
      RunIsTracked(limit, times);
      hide *;
      LiveIsInside(limit, Admissions(limit, times), WindowAfter(limit, times), times[|times| - 1], now);
    }
  }

  lemma JudgedLast(limit: int, times: seq<real>, now: real)
    ensures LastVerdict(limit, times + [now]) == Judge(WindowAfter(limit, times), limit, now).0
  {
    hide Judge;
    assert (times + [now])[..|times|] == times;
  }

  /** A request is admitted exactly when fewer than `limit` were admitted in the sixty seconds up to it;
      it is told how many more are left. */
  lemma AdmittedExactly(limit: int, times: seq<real>, now: real)
    requires limit >= 1 && NonDecreasing(times + [now])
    ensures var count := CountInside(Admissions(limit, times), now - 60.0);
            var verdict := LastVerdict(limit, times + [now]);
            && (verdict.Admitted? <==> count < limit)
            && (verdict.Admitted? ==> verdict.remaining == limit - count - 1)
  {
    CountOfWindow(limit, times, now);
    JudgedLast(limit, times, now);
    hide CountInside, Admissions, WindowAfter, LastVerdict, Pruned;
  }

  /** The limiter fails with an error instead of a verdict exactly when the limit admits nothing. */
  lemma {:induction false} FaultsExactly(limit: int, times: seq<real>)
    ensures limit <= 0 ==> WindowAfter(limit, times) == []
    ensures times != [] ==> (LastVerdict(limit, times).Fault? <==> limit <= 0)
  {
    if times != [] {
      FaultsExactly(limit, times[..|times| - 1]);
    }
  }
}
