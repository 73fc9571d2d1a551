/** The block-by-timestamp resolver of the home chain: a binary search over the
    100001 block heights from the latest down to 100000 below it, for the block
    whose timestamp is closest to a target given in seconds.

    Two quirks of `getBlockNumberByTimestamp` are kept as written:
    - the candidate comparison sets the probe's distance in SECONDS against the
      best block's distance computed from its NANOSECOND timestamp;
    - a pruned probe ("DB Not Found Error") picks its direction from
      `midTimestamp`, which still holds the last SUCCESSFUL probe's value
      (0 before any success). */
module BlockResolver {
  import opened Common
  import opened NearRpc

  /** How far below the latest height the search window reaches. */
  const SearchDepth: int := 100000
  const NanosPerSecond: int := 1_000_000_000
  /** The error text by which a pruned (no longer retained) block is recognised. */
  const PrunedMarker: string := "DB Not Found Error"

  /** The best block seen so far: its height and its header timestamp in ns. */
  datatype Candidate = Candidate(height: int, timestampNs: int)

  /** The loop's variables: `low`, `high`, `bestBlock`, `midTimestamp`. */
  datatype SearchState = SearchState(low: int, high: int, best: Option<Candidate>, midTimestamp: int)

  /** What the resolver hands back: `null` when the latest block cannot be
      fetched, a height, or the error it rethrows. */
  datatype Resolution = NoLatestBlock | Resolved(height: int) | Errored(message: string)

  /** One turn of the loop: go on with a narrower window, stop on an exact
      match, or rethrow. */
  datatype Step = Next(state: SearchState) | Exact(height: int) | Abort(message: string)

  /** `Math.floor(ns / 1e9)`; Dafny's division rounds down for a positive divisor. */
  function Seconds(ns: int): int
  {
    ns / NanosPerSecond
  }

  predicate IsPruned(message: string)
  {
    Contains(message, PrunedMarker)
  }

  /** `Math.floor((low + high) / 2)`. */
  function Mid(low: int, high: int): (m: int)
    requires low <= high
    ensures low <= m <= high
  {
    (low + high) / 2
  }

  /** The probe at `height` read a timestamp whose whole seconds equal `target`. */
  predicate ExactAt(fetch: int -> BlockFetch, height: int, target: int)
  {
    fetch(height).Fetched? && Seconds(fetch(height).block.timestampNs) == target
  }

  /** The candidate test as written: seconds on the left, nanoseconds on the right. */
  predicate Replaces(best: Option<Candidate>, midSeconds: int, target: int)
  {
    best.None? || Abs(midSeconds - target) < Abs(best.value.timestampNs - target)
  }

  function InitialState(latest: int): (s: SearchState)
    ensures s.high - s.low + 1 == SearchDepth + 1
    ensures s.best.None? && s.midTimestamp == 0
  {
    SearchState(latest - SearchDepth, latest, None, 0)
  }

  /** One iteration of the search loop over the window `[s.low, s.high]`. */
  function StepAt(s: SearchState, fetch: int -> BlockFetch, target: int): (r: Step)
    requires s.low <= s.high
    // every continuing step keeps inside the window and strictly shrinks it
    ensures r.Next? ==> s.low <= r.state.low && r.state.high <= s.high
    ensures r.Next? ==> r.state.high - r.state.low < s.high - s.low
    ensures r.Next? ==> r.state.low <= r.state.high + 1
    // an exact match stops at the probed height
    ensures r.Exact? <==> ExactAt(fetch, Mid(s.low, s.high), target)
    ensures r.Exact? ==> r.height == Mid(s.low, s.high)
    // only a failure that is not a pruned block aborts, with that failure's message
    ensures r.Abort? <==> fetch(Mid(s.low, s.high)).Failed? && !IsPruned(fetch(Mid(s.low, s.high)).message)
    ensures r.Abort? ==> r.message == fetch(Mid(s.low, s.high)).message
    // a pruned block moves one bound by one, keeps the candidate and the stale
    // `midTimestamp`, and goes up exactly when that stale value is below target
    ensures fetch(Mid(s.low, s.high)).Failed? && IsPruned(fetch(Mid(s.low, s.high)).message) ==>
              r.Next? && r.state.best == s.best && r.state.midTimestamp == s.midTimestamp
              && (s.midTimestamp < target ==> r.state == s.(low := s.low + 1))
              && (s.midTimestamp >= target ==> r.state == s.(high := s.high - 1))
    // a successful probe records its seconds, becomes the candidate exactly when
    // the mixed-unit test says so, and narrows towards the target
    ensures r.Next? && fetch(Mid(s.low, s.high)).Fetched? ==>
              var ns := fetch(Mid(s.low, s.high)).block.timestampNs;
              && r.state.midTimestamp == Seconds(ns)
              && (Replaces(s.best, Seconds(ns), target) ==> r.state.best == Some(Candidate(Mid(s.low, s.high), ns)))
              && (!Replaces(s.best, Seconds(ns), target) ==> r.state.best == s.best)
              && (Seconds(ns) < target ==> r.state.low == Mid(s.low, s.high) + 1 && r.state.high == s.high)
              && (Seconds(ns) > target ==> r.state.high == Mid(s.low, s.high) - 1 && r.state.low == s.low)
  {
    var mid := Mid(s.low, s.high);
    match fetch(mid)
    case Fetched(b) =>
      var ts := Seconds(b.timestampNs);
      if ts == target then Exact(mid)
      else
        var best := if Replaces(s.best, ts, target) then Some(Candidate(mid, b.timestampNs)) else s.best;
        if ts < target then Next(SearchState(mid + 1, s.high, best, ts))
        else Next(SearchState(s.low, mid - 1, best, ts))
    case Failed(msg) =>
      if IsPruned(msg) then
        if s.midTimestamp < target then Next(s.(low := s.low + 1))
        else Next(s.(high := s.high - 1))
      else Abort(msg)
  }

  /** The heights the loop probes from `s` on, in order: one per turn, the
      last being the one that stopped it early, if any. */
  function Probes(s: SearchState, fetch: int -> BlockFetch, target: int): (p: seq<int>)
    requires s.low <= s.high + 1
    ensures |p| <= s.high - s.low + 1
    ensures forall i :: 0 <= i < |p| ==> s.low <= p[i] <= s.high
    // every probe but the last read a block that did not match, or a pruned one
    ensures forall i :: 0 <= i < |p| - 1 ==>
              !ExactAt(fetch, p[i], target) && (fetch(p[i]).Fetched? || IsPruned(fetch(p[i]).message))
    decreases s.high - s.low + 1
  {
    if s.low > s.high then []
    else
      match StepAt(s, fetch, target)
      case Next(s') => [Mid(s.low, s.high)] + Probes(s', fetch, target)
      case Exact(_) => [Mid(s.low, s.high)]
      case Abort(_) => [Mid(s.low, s.high)]
  }

  /** The loop run to completion, then the fallback to the latest height when
      no candidate was ever installed. */
  function Search(s: SearchState, fetch: int -> BlockFetch, target: int, latest: int): (r: Resolution)
    requires s.low <= s.high + 1
    ensures !r.NoLatestBlock?
    ensures r.Errored? ==> !IsPruned(r.message)
    decreases s.high - s.low + 1
  {
    if s.low > s.high then
      Resolved(if s.best.Some? then s.best.value.height else latest)
    else
      match StepAt(s, fetch, target)
      case Next(s') => Search(s', fetch, target, latest)
      case Exact(h) => Resolved(h)
      case Abort(m) => Errored(m)
  }

  /** The search rethrows exactly when its last probe failed with something
      other than a pruned block, and with that failure's message. */
  lemma {:induction false} SearchRethrowsLastFailure(s: SearchState, fetch: int -> BlockFetch, target: int, latest: int)
    requires s.low <= s.high + 1
    ensures var r := Search(s, fetch, target, latest);
            var p := Probes(s, fetch, target);
            && (r.Errored? <==> |p| > 0 && fetch(p[|p| - 1]).Failed? && !IsPruned(fetch(p[|p| - 1]).message))
            && (r.Errored? ==> r.message == fetch(p[|p| - 1]).message)
    decreases s.high - s.low + 1
  {
    if s.low <= s.high {
      var mid := Mid(s.low, s.high);
      match StepAt(s, fetch, target)
      case Next(s') =>
        SearchRethrowsLastFailure(s', fetch, target, latest);
        assert Probes(s, fetch, target) == [mid] + Probes(s', fetch, target);
      case Exact(h) =>
        assert Probes(s, fetch, target) == [mid];
      case Abort(m) =>
        assert Probes(s, fetch, target) == [mid];
    }
  }

  /** An exact match ends the search at once with its height. */
  lemma {:induction false} SearchStopsAtExact(s: SearchState, fetch: int -> BlockFetch, target: int, latest: int)
    requires s.low <= s.high + 1
    ensures var p := Probes(s, fetch, target);
            forall i :: 0 <= i < |p| && ExactAt(fetch, p[i], target) ==>
              i == |p| - 1 && Search(s, fetch, target, latest) == Resolved(p[i])
    decreases s.high - s.low + 1
  {
    if s.low <= s.high {
      var mid := Mid(s.low, s.high);
      match StepAt(s, fetch, target)
      case Next(s') =>
        SearchStopsAtExact(s', fetch, target, latest);
        assert Probes(s, fetch, target) == [mid] + Probes(s', fetch, target);
      case Exact(h) =>
        assert Probes(s, fetch, target) == [mid];
      case Abort(m) =>
        assert Probes(s, fetch, target) == [mid];
    }
  }

  /** Some height among `p` read a block. */
  predicate ReadsBlock(fetch: int -> BlockFetch, p: seq<int>)
  {
    exists i :: 0 <= i < |p| && fetch(p[i]).Fetched?
  }

  /** Once a probe has read a block, or a candidate was already held, the
      search answers with a candidate: a height probed successfully, or the
      one it started with. */
  lemma {:induction false} SearchKeepsCandidate(s: SearchState, fetch: int -> BlockFetch, target: int, latest: int)
    requires s.low <= s.high + 1
    ensures var r := Search(s, fetch, target, latest);
            var p := Probes(s, fetch, target);
            r.Resolved? && (s.best.Some? || ReadsBlock(fetch, p)) ==>
              (r.height in p && fetch(r.height).Fetched?) || (s.best.Some? && r.height == s.best.value.height)
    decreases s.high - s.low + 1
  {
    if s.low <= s.high {
      var mid := Mid(s.low, s.high);
      match StepAt(s, fetch, target)
      case Next(s') =>
        SearchKeepsCandidate(s', fetch, target, latest);
        var p' := Probes(s', fetch, target);
        assert Probes(s, fetch, target) == [mid] + p';
        if fetch(mid).Fetched? {
          // the probe read a block: from here on a candidate is held
          assert s'.best.Some?;
        } else {
          // a pruned probe keeps the candidate
          assert s'.best == s.best;
          if ReadsBlock(fetch, [mid] + p') {
            var i :| 0 <= i < |[mid] + p'| && fetch(([mid] + p')[i]).Fetched?;
            assert fetch(p'[i - 1]).Fetched?;
          }
        }
      case Exact(h) =>
        assert Probes(s, fetch, target) == [mid];
      case Abort(m) =>
        assert Probes(s, fetch, target) == [mid];
    }
  }

  /** A search that starts without a candidate and reads no block either
      rethrows or falls back to the latest height. */
  lemma {:induction false} SearchFallsBackUnread(s: SearchState, fetch: int -> BlockFetch, target: int, latest: int)
    requires s.low <= s.high + 1
    ensures var r := Search(s, fetch, target, latest);
            var p := Probes(s, fetch, target);
            s.best.None? && (forall i :: 0 <= i < |p| ==> fetch(p[i]).Failed?) && !r.Errored? ==> r == Resolved(latest)
    decreases s.high - s.low + 1
  {
    if s.low <= s.high {
      var mid := Mid(s.low, s.high);
      match StepAt(s, fetch, target)
      case Next(s') =>
        SearchFallsBackUnread(s', fetch, target, latest);
        var p' := Probes(s', fetch, target);
        assert Probes(s, fetch, target) == [mid] + p';
        var p := [mid] + p';
        if s.best.None? && forall i :: 0 <= i < |p| ==> fetch(p[i]).Failed? {
          // the first probe failed, so the candidate is still missing, and so
          // did every later one
          assert fetch(p[0]).Failed? && s'.best == s.best;
          forall i | 0 <= i < |p'| ensures fetch(p'[i]).Failed? {
            assert p'[i] == p[i + 1];
          }
          assert Search(s, fetch, target, latest) == Search(s', fetch, target, latest);
        }
      case Exact(h) =>
        // the only probe read a block
        var p := Probes(s, fetch, target);
        assert p == [mid] && fetch(mid).Fetched?;
        assert !fetch(p[0]).Failed?;
      case Abort(m) =>
        assert Probes(s, fetch, target) == [mid];
    }
  }

  /** The whole resolver as a function of the latest height and the block oracle. */
  function Resolve(latest: Option<int>, fetch: int -> BlockFetch, target: int): (r: Resolution)
    ensures r.NoLatestBlock? <==> latest.None?
  {
    if latest.None? then NoLatestBlock
    else Search(InitialState(latest.value), fetch, target, latest.value)
  }

  /** `getBlockNumberByTimestamp`: the binary search as a loop whose body is
      one `StepAt`. Besides the resolution it returns the heights it probed, in
      order. */
  method GetBlockNumberByTimestamp(latest: Option<int>, fetch: int -> BlockFetch, target: int)
    returns (r: Resolution, probes: seq<int>)
    ensures r == Resolve(latest, fetch, target)
    ensures latest.None? ==> r == NoLatestBlock && probes == []
    // every probe lies in the window [latest - 100000, latest], and there are at most 100001
    ensures latest.Some? ==> forall i :: 0 <= i < |probes| ==> latest.value - SearchDepth <= probes[i] <= latest.value
    ensures |probes| <= SearchDepth + 1
    // an exact match is returned at once: it is the last probe
    ensures forall i :: 0 <= i < |probes| && ExactAt(fetch, probes[i], target) ==>
              i == |probes| - 1 && r == Resolved(probes[i])
    // an error is rethrown at once and is never a pruned block
    ensures r.Errored? ==> |probes| > 0 && fetch(probes[|probes| - 1]) == Failed(r.message) && !IsPruned(r.message)
    ensures forall i :: 0 <= i < |probes| - 1 ==> fetch(probes[i]).Fetched? || IsPruned(fetch(probes[i]).message)
    // the answer is the latest height or a height that was probed successfully
    ensures r.Resolved? ==> latest.Some? && (r.height == latest.value || (r.height in probes && fetch(r.height).Fetched?))
    ensures r.Resolved? ==> latest.value - SearchDepth <= r.height <= latest.value
    // with no successful probe the fallback is the latest height
    ensures latest.Some? && (forall i :: 0 <= i < |probes| ==> fetch(probes[i]).Failed?) ==>
              r == Resolved(latest.value) || r.Errored?
    // once some probe read a block, the answer is a height probed successfully
    ensures r.Resolved? && (exists i :: 0 <= i < |probes| && fetch(probes[i]).Fetched?) ==>
              r.height in probes && fetch(r.height).Fetched?
    // a last probe that failed with something other than a pruned block is rethrown
    ensures |probes| > 0 && fetch(probes[|probes| - 1]).Failed? && !IsPruned(fetch(probes[|probes| - 1]).message) ==>
              r == Errored(fetch(probes[|probes| - 1]).message)
    // the heights probed are those of the search
    ensures latest.Some? ==> probes == Probes(InitialState(latest.value), fetch, target)
  {
    if latest.None? {
      return NoLatestBlock, [];
    }
    r, probes := SearchLoop(latest.value, fetch, target);
    Finish(latest.value, fetch, target, r, probes);
  }

  /** The loop of `getBlockNumberByTimestamp` from the initial window below
      `latest`: one `StepAt` per turn, leaving early on an exact match or a
      rethrow. */
  method SearchLoop(latest: int, fetch: int -> BlockFetch, target: int) returns (r: Resolution, probes: seq<int>)
    ensures r == Search(InitialState(latest), fetch, target, latest)
    ensures probes == Probes(InitialState(latest), fetch, target)
  {
    var state := InitialState(latest);
    probes := [];
    // set when a probe ends the loop early: an exact match or a rethrow
    var outcome: Option<Resolution> := None;
    while outcome.None? && state.low <= state.high
      invariant state.low <= state.high + 1
      invariant outcome.None? ==>
                  Search(state, fetch, target, latest) == Search(InitialState(latest), fetch, target, latest)
                  && probes + Probes(state, fetch, target) == Probes(InitialState(latest), fetch, target)
      invariant outcome.Some? ==>
                  outcome.value == Search(InitialState(latest), fetch, target, latest)
                  && probes == Probes(InitialState(latest), fetch, target)
      decreases if outcome.None? then 1 else 0, state.high - state.low + 1
    {
      var mid := Mid(state.low, state.high);
      ghost var rest := Probes(state, fetch, target);
      match StepAt(state, fetch, target) {
        case Exact(height) =>
          assert rest == [mid];
          probes := probes + [mid];
          outcome := Some(Resolved(height));
        case Abort(message) =>
          assert rest == [mid];
          probes := probes + [mid];
          outcome := Some(Errored(message));
        case Next(next) =>
          assert rest == [mid] + Probes(next, fetch, target);
          assert probes + rest == (probes + [mid]) + Probes(next, fetch, target);
          probes := probes + [mid];
          state := next;
      }
    }
    if outcome.Some? {
      r := outcome.value;
    } else {
      assert probes == probes + Probes(state, fetch, target);
      if state.best.Some? {
        r := Resolved(state.best.value.height);
      } else {
        r := Resolved(latest);
      }
    }
  }

  /** The method's promises about a result and probe list that are the
      search's own. */
  lemma Finish(latest: int, fetch: int -> BlockFetch, target: int, r: Resolution, probes: seq<int>)
    requires r == Search(InitialState(latest), fetch, target, latest)
    requires probes == Probes(InitialState(latest), fetch, target)
    ensures forall i :: 0 <= i < |probes| ==> latest - SearchDepth <= probes[i] <= latest
    ensures |probes| <= SearchDepth + 1
    ensures forall i :: 0 <= i < |probes| && ExactAt(fetch, probes[i], target) ==> i == |probes| - 1 && r == Resolved(probes[i])
    ensures r.Errored? ==> |probes| > 0 && fetch(probes[|probes| - 1]) == Failed(r.message) && !IsPruned(r.message)
    ensures forall i :: 0 <= i < |probes| - 1 ==> fetch(probes[i]).Fetched? || IsPruned(fetch(probes[i]).message)
    ensures r.Resolved? ==> r.height == latest || (r.height in probes && fetch(r.height).Fetched?)
    ensures r.Resolved? ==> latest - SearchDepth <= r.height <= latest
    ensures (forall i :: 0 <= i < |probes| ==> fetch(probes[i]).Failed?) ==> r == Resolved(latest) || r.Errored?
    ensures r.Resolved? && (exists i :: 0 <= i < |probes| && fetch(probes[i]).Fetched?) ==>
              r.height in probes && fetch(r.height).Fetched?
    ensures |probes| > 0 && fetch(probes[|probes| - 1]).Failed? && !IsPruned(fetch(probes[|probes| - 1]).message) ==>
              r == Errored(fetch(probes[|probes| - 1]).message)
  {
    SearchRethrowsLastFailure(InitialState(latest), fetch, target, latest);
    SearchStopsAtExact(InitialState(latest), fetch, target, latest);
    SearchKeepsCandidate(InitialState(latest), fetch, target, latest);
    SearchFallsBackUnread(InitialState(latest), fetch, target, latest);
    if r.Resolved? && (forall i :: 0 <= i < |probes| ==> !fetch(probes[i]).Fetched?) {
      assert forall i :: 0 <= i < |probes| ==> fetch(probes[i]).Failed?;
    }
  }

  /** A search that has seen only pruned blocks and still has none as candidate
      ends on the fallback, whatever the window. */
  lemma {:induction false} AllPrunedSearchFallsBack(s: SearchState, fetch: int -> BlockFetch, target: int, latest: int)
    requires s.low <= s.high + 1
    requires s.best.None?
    requires forall h :: fetch(h).Failed? && IsPruned(fetch(h).message)
    ensures Search(s, fetch, target, latest) == Resolved(latest)
    decreases s.high - s.low + 1
  {
    if s.low <= s.high {
      var next := StepAt(s, fetch, target);
      assert next.Next? && next.state.best == s.best;
      AllPrunedSearchFallsBack(next.state, fetch, target, latest);
    }
  }

  /** When every height answers "DB Not Found Error" the window is narrowed to
      nothing and the resolver returns the latest height. */
  lemma AllPrunedFallsBackToLatest(latest: int, fetch: int -> BlockFetch, target: int)
    requires forall h :: fetch(h).Failed? && IsPruned(fetch(h).message)
    ensures Resolve(Some(latest), fetch, target) == Resolved(latest)
  {
    AllPrunedSearchFallsBack(InitialState(latest), fetch, target, latest);
  }

  /** Consequence of the mixed units: once the candidate's nanosecond timestamp
      exceeds twice the target plus the probe's seconds (true of any real block
      time against a real target), every non-exact probe replaces the candidate. */
  lemma NanosecondCandidateAlwaysReplaced(best: Candidate, midNs: int, target: int)
    requires 0 <= target && 0 <= midNs
    requires best.timestampNs > 2 * target + Seconds(midNs)
    ensures Replaces(Some(best), Seconds(midNs), target)
  {
  }
}
