/**
 The threads of search_batch (src/engine.cpp): contiguous ranges of queries, one worker each, all
 writing into one results vector.  A worker's step searches one query and stores any result that
 the relation `answer` allows for it; Engine.SearchBatch takes these steps with its own searches.
 */
module BatchSearch {
  datatype Range = Range(lo: nat, hi: nat)

  /** The ranges follow each other without gap or overlap, from 0 to n. */
  ghost predicate Tiles(ws: seq<Range>, n: nat) {
    && ws != [] && ws[0].lo == 0 && ws[|ws| - 1].hi == n
    && (forall t | 0 <= t < |ws| :: ws[t].lo < ws[t].hi)
    && (forall t | 0 <= t < |ws| - 1 :: ws[t].hi == ws[t + 1].lo)
  }

  lemma ChunkCovers(n: nat, threads: nat)
    requires threads > 0
    ensures threads * ((n + threads - 1) / threads) >= n
  {}

  /** The spawning loop's arithmetic. */
  method Ranges(n: nat, threads: nat) returns (ws: seq<Range>)
    requires n > 0 && 0 < threads <= n
    ensures Tiles(ws, n) && |ws| <= threads
    ensures var chunk := (n + threads - 1) / threads;
            forall t | 0 <= t < |ws| ::
              ws[t].lo == t * chunk && ws[t].hi == (if t * chunk + chunk <= n then t * chunk + chunk else n)
  {
    var chunk := (n + threads - 1) / threads;
    ChunkCovers(n, threads);
    ws := [];
    var t := 0;
    while t < threads
      invariant 0 <= t <= threads && |ws| == t && chunk > 0
      invariant t > 0 ==> ws[0].lo == 0 && (ws[t - 1].hi == t * chunk || ws[t - 1].hi == n) && ws[t - 1].hi <= n
      invariant t > 0 && ws[t - 1].hi < n ==> ws[t - 1].hi == t * chunk
      invariant t > 0 && ws[t - 1].hi == n ==> t * chunk >= n
      invariant forall i | 0 <= i < t :: ws[i].lo < ws[i].hi && ws[i].lo == i * chunk
      invariant forall i | 0 <= i < t :: ws[i].hi == if i * chunk + chunk <= n then i * chunk + chunk else n
      invariant forall i | 0 <= i < t - 1 :: ws[i].hi == ws[i + 1].lo
    {
      var lo := t * chunk;
      if lo >= n { break; }
      assert (t + 1) * chunk == lo + chunk;
      var hi := if lo + chunk <= n then lo + chunk else n;
      ws := ws + [Range(lo, hi)];
      t := t + 1;
    }
  }

  lemma {:induction false} TileOf(ws: seq<Range>, n: nat, i: nat, t: nat) returns (u: nat)
    requires Tiles(ws, n) && t < |ws| && ws[t].lo <= i < n
    ensures u < |ws| && ws[u].lo <= i < ws[u].hi
    decreases |ws| - t
  {
    if i < ws[t].hi {
      u := t;
    } else {
      assert t < |ws| - 1 && ws[t].hi == ws[t + 1].lo;
      u := TileOf(ws, n, i, t + 1);
    }
  }

  lemma {:induction false} TilesOrdered(ws: seq<Range>, n: nat, t: nat, u: nat)
    requires Tiles(ws, n) && t < u < |ws|
    ensures ws[t].hi <= ws[u].lo
    decreases u - t
  {
    assert ws[u - 1].hi == ws[u - 1 + 1].lo;
    if t < u - 1 { TilesOrdered(ws, n, t, u - 1); }
  }

  /** Every query belongs to exactly one worker. */
  lemma RangesPartition(ws: seq<Range>, n: nat, i: nat)
    requires Tiles(ws, n) && i < n
    ensures exists t :: 0 <= t < |ws| && ws[t].lo <= i < ws[t].hi
    ensures forall t, u | 0 <= t < |ws| && 0 <= u < |ws| && ws[t].lo <= i < ws[t].hi && ws[u].lo <= i < ws[u].hi ::
              t == u
  {
    var _ := TileOf(ws, n, i, 0);
    forall t, u | 0 <= t < u < |ws|
      ensures ws[t].hi <= ws[u].lo
    {
      TilesOrdered(ws, n, t, u);
    }
  }

  // ---------------------------------------------------------------- interleavings

  /** The shared results and, for each worker, the query it will search next. */
  datatype State<R> = State(results: seq<R>, next: seq<nat>)

  ghost predicate Start<R>(ws: seq<Range>, n: nat, s: State<R>) {
    |s.results| == n && |s.next| == |ws| && forall t | 0 <= t < |ws| :: s.next[t] == ws[t].lo
  }

  /** Worker t searches its next query and stores what the search returned. */
  ghost predicate Step<Q, R>(ws: seq<Range>, queries: seq<Q>, answer: (Q, R) -> bool, t: nat,
                             s: State<R>, s': State<R>) {
    && t < |ws| == |s.next| && s.next[t] < ws[t].hi && s.next[t] < |queries| == |s.results| == |s'.results|
    && var i := s.next[t];
       && answer(queries[i], s'.results[i])
       && s' == State(s.results[i := s'.results[i]], s.next[t := i + 1])
  }

  ghost predicate Finished<R>(ws: seq<Range>, s: State<R>) {
    |s.next| == |ws| && forall t | 0 <= t < |ws| :: s.next[t] == ws[t].hi
  }

  ghost predicate Inv<Q, R>(ws: seq<Range>, queries: seq<Q>, answer: (Q, R) -> bool, s: State<R>) {
    && |s.results| == |queries| && |s.next| == |ws|
    && (forall t | 0 <= t < |ws| :: ws[t].lo <= s.next[t] <= ws[t].hi <= |queries|)
    && (forall t, i | 0 <= t < |ws| && ws[t].lo <= i < s.next[t] :: answer(queries[i], s.results[i]))
  }

  lemma StartInv<Q, R>(ws: seq<Range>, queries: seq<Q>, answer: (Q, R) -> bool, s: State<R>)
    requires Tiles(ws, |queries|) && Start(ws, |queries|, s)
    ensures Inv(ws, queries, answer, s)
  {
    forall t | 0 <= t < |ws|
      ensures ws[t].hi <= |queries|
    {
      if t < |ws| - 1 { TilesOrdered(ws, |queries|, t, |ws| - 1); }
    }
  }

  lemma StepInv<Q, R>(ws: seq<Range>, queries: seq<Q>, answer: (Q, R) -> bool, t: nat, s: State<R>, s': State<R>)
    requires Tiles(ws, |queries|) && Inv(ws, queries, answer, s) && Step(ws, queries, answer, t, s, s')
    ensures Inv(ws, queries, answer, s')
  {}

  lemma FinishedInv<Q, R>(ws: seq<Range>, queries: seq<Q>, answer: (Q, R) -> bool, s: State<R>)
    requires Tiles(ws, |queries|) && Inv(ws, queries, answer, s) && Finished(ws, s)
    ensures forall i | 0 <= i < |queries| :: answer(queries[i], s.results[i])
  {
    forall i | 0 <= i < |queries|
      ensures answer(queries[i], s.results[i])
    {
      var t := TileOf(ws, |queries|, i, 0);
      assert ws[t].lo <= i < s.next[t];
    }
  }

  /** schedule[i] is the worker whose turn it is between states[i] and states[i + 1]. */
  ghost predicate IsInterleaving<Q, R>(ws: seq<Range>, queries: seq<Q>, answer: (Q, R) -> bool,
                                       states: seq<State<R>>, schedule: seq<nat>) {
    && |states| == |schedule| + 1 && Start(ws, |queries|, states[0])
    && forall i | 0 <= i < |schedule| :: Step(ws, queries, answer, schedule[i], states[i], states[i + 1])
  }

  lemma {:induction false} InterleavingInv<Q, R>(ws: seq<Range>, queries: seq<Q>, answer: (Q, R) -> bool,
                                                 states: seq<State<R>>, schedule: seq<nat>, n: nat)
    requires Tiles(ws, |queries|) && IsInterleaving(ws, queries, answer, states, schedule) && n <= |schedule|
    ensures Inv(ws, queries, answer, states[n])
    decreases n
  {
    if n == 0 {
      StartInv(ws, queries, answer, states[0]);
    } else {
      InterleavingInv(ws, queries, answer, states, schedule, n - 1);
      assert Step(ws, queries, answer, schedule[n - 1], states[n - 1], states[n - 1 + 1]);
      StepInv(ws, queries, answer, schedule[n - 1], states[n - 1], states[n]);
    }
  }

  /** Every finished interleaving of the workers' steps holds an answer to each query in its slot. */
  lemma EveryInterleavingAnswers<Q, R>(ws: seq<Range>, queries: seq<Q>, answer: (Q, R) -> bool,
                                       states: seq<State<R>>, schedule: seq<nat>)
    requires Tiles(ws, |queries|) && IsInterleaving(ws, queries, answer, states, schedule)
    requires Finished(ws, states[|schedule|])
    ensures |states[|schedule|].results| == |queries|
    ensures forall i | 0 <= i < |queries| :: answer(queries[i], states[|schedule|].results[i])
  {
    InterleavingInv(ws, queries, answer, states, schedule, |schedule|);
    FinishedInv(ws, queries, answer, states[|schedule|]);
  }

  ghost function Left<R>(ws: seq<Range>, s: State<R>, n: nat): int
    requires n <= |ws| == |s.next|
  {
    if n == 0 then 0 else Left(ws, s, n - 1) + ws[n - 1].hi - s.next[n - 1]
  }

  lemma {:induction false} LeftAfter<R>(ws: seq<Range>, s: State<R>, s': State<R>, t: nat, n: nat)
    requires n <= |ws| == |s.next| && t < |ws| && s'.next == s.next[t := s.next[t] + 1]
    ensures Left(ws, s', n) == Left(ws, s, n) - (if t < n then 1 else 0)
    decreases n
  {
    if n != 0 { LeftAfter(ws, s, s', t, n - 1); }
  }

  lemma NotStarted<Q, R>(ws: seq<Range>, queries: seq<Q>, answer: (Q, R) -> bool, s: State<R>)
    requires Tiles(ws, |queries|) && Start(ws, |queries|, s)
    ensures Inv(ws, queries, answer, s) && IsInterleaving(ws, queries, answer, [s], []) && Left(ws, s, |ws|) >= 0
  {
    StartInv(ws, queries, answer, s);
    LeftBound(ws, s, |ws|);
  }

  /** Worker t stores out for its next query. */
  function After<R>(s: State<R>, t: nat, out: R): State<R>
    requires t < |s.next| && s.next[t] < |s.results|
  {
    State(s.results[s.next[t] := out], s.next[t := s.next[t] + 1])
  }

  /** One more step of an interleaving, by a worker that has something left to do. */
  lemma {:induction false} TakeStep<Q, R>(ws: seq<Range>, queries: seq<Q>, answer: (Q, R) -> bool,
                                          states: seq<State<R>>, schedule: seq<nat>, t: nat, out: R)
    requires Tiles(ws, |queries|) && IsInterleaving(ws, queries, answer, states, schedule)
    requires |states| == |schedule| + 1
    requires var s := states[|schedule|];
             && Inv(ws, queries, answer, s)
             && t < |ws| && s.next[t] < ws[t].hi && answer(queries[s.next[t]], out)
    ensures var s := states[|schedule|];
            var s' := After(s, t, out);
            && IsInterleaving(ws, queries, answer, states + [s'], schedule + [t])
            && Inv(ws, queries, answer, s') && 0 <= Left(ws, s', |ws|) < Left(ws, s, |ws|)
  {
    hide Left, IsInterleaving;
    var s := states[|schedule|];
    var s' := After(s, t, out);
    assert Step(ws, queries, answer, t, s, s');
    StepInv(ws, queries, answer, t, s, s');
    LeftAfter(ws, s, s', t, |ws|);
    LeftBound(ws, s', |ws|);
    InterleavingSnoc(ws, queries, answer, states, schedule, t, s');
  }

  lemma InterleavingSnoc<Q, R>(ws: seq<Range>, queries: seq<Q>, answer: (Q, R) -> bool,
                               states: seq<State<R>>, schedule: seq<nat>, t: nat, s: State<R>)
    requires IsInterleaving(ws, queries, answer, states, schedule)
    requires Step(ws, queries, answer, t, states[|schedule|], s)
    ensures IsInterleaving(ws, queries, answer, states + [s], schedule + [t])
  {
    hide Step, Start;
  }

  lemma {:induction false} LeftBound<R>(ws: seq<Range>, s: State<R>, n: nat)
    requires n <= |ws| == |s.next| && forall u | 0 <= u < |ws| :: s.next[u] <= ws[u].hi
    ensures Left(ws, s, n) >= 0
  {
    if n != 0 { LeftBound(ws, s, n - 1); }
  }

  /** The thread count: as asked, else the hardware's, at least one, at most one per query. */
  function ThreadCount(numThreads: nat, hardware: nat, n: nat): (threads: nat)
    ensures threads <= n && (n > 0 ==> threads > 0)
    ensures numThreads > 0 && numThreads <= n ==> threads == numThreads
    ensures numThreads == 0 && 0 < hardware <= n ==> threads == hardware
    ensures numThreads > n || (numThreads == 0 && hardware > n) ==> threads == n
    ensures numThreads == 0 && hardware == 0 && n > 0 ==> threads == 1
  {
    var threads := if numThreads != 0 then numThreads else if hardware > 1 then hardware else 1;
    if threads <= n then threads else n
  }
}
