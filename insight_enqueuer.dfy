/**
 * discoverAndEnqueueInsights as the Go code runs it: two nested loops over the discovered
 * insights and their series that update the `uniqueSeries` map, the `offset`, the `multi`
 * error list and the shared `err` variable. The jobs handed to the enqueue callback are returned
 * in call order as `calls`; the callback's answers come from the `Env` oracle.
 */
module InsightEnqueuer {
  import opened Wrappers
  import opened EnqueuerSpec

  method DiscoverAndEnqueueInsights(discovered: Result<seq<Insight>, Error>, env: Env)
    returns (calls: seq<Job>, result: Option<Error>)
    // A failed discovery is returned wrapped, before any call of the callback.
    ensures discovered.Failure? ==> calls == [] && result == Some(Wrapped("Discover", discovered.error))
    // Otherwise the loops compute exactly the fold of `Step` over every series.
    ensures discovered.Success? ==>
      var st := Run(env, Flatten(discovered.value));
      calls == st.calls && result == Outcome(st)
    // Each job is due one stride after the previous one, counted from its own clock reading.
    ensures forall k | 0 <= k < |calls| :: calls[k].processAfter == env.clock(k) + k * QueryJobOffsetTime
    // No series ID is handed over twice.
    ensures forall i, j | 0 <= i < j < |calls| :: calls[i].seriesID != calls[j].seriesID
    // Nil is returned exactly when discovery and every call of the callback succeeded.
    ensures result.None? <==>
      discovered.Success? && forall k | 0 <= k < |calls| :: env.enqueue(calls[..k], calls[k]).None?
  {
    if discovered.Failure? {
      return [], Some(Wrapped("Discover", discovered.error));
    }
    var foundInsights := discovered.value;
    var uniqueSeries: map<string, Series> := map[];
    var multi: seq<Error> := [];
    var offset: int := 0;
    var err: Option<Error> := None;
    calls := [];
    ghost var prefix: seq<Series> := [];
    for i := 0 to |foundInsights|
      invariant prefix == Flatten(foundInsights[..i])
      invariant PassState(uniqueSeries, calls, multi, err, offset) == Run(env, prefix)
    {
      var series := foundInsights[i].series;
      ghost var done := prefix;
      for j := 0 to |series|
        invariant prefix == done + series[..j]
        invariant PassState(uniqueSeries, calls, multi, err, offset) == Run(env, prefix)
      {
        assert done + series[..j + 1] == prefix + [series[j]];
        var seriesID := env.encode(series[j]);
        if err.Some? {
          RunStale(env, prefix, series[j], uniqueSeries, calls, multi, err.value, offset);
          prefix := prefix + [series[j]];
          multi := multi + [err.value];
        } else if seriesID in uniqueSeries {
          RunSeen(env, prefix, series[j], uniqueSeries, calls, multi, offset);
          prefix := prefix + [series[j]];
        } else {
          var processAfter := env.clock(|calls|) + offset;
          var job := Job(seriesID, WithCountUnlimited(series[j].query), processAfter,
                         QueuedState, env.highPriority, env.indexedCost);
          RunNew(env, prefix, series[j], uniqueSeries, calls, multi, offset, job);
          prefix := prefix + [series[j]];
          uniqueSeries := uniqueSeries[seriesID := series[j]];
          offset := offset + QueryJobOffsetTime;
          err := env.enqueue(calls, job);
          calls := calls + [job];
          if err.Some? {
            multi := multi + [err.value];
          }
        }
      }
      FlattenSnoc(foundInsights, i);
      assert series[..|series|] == series;
    }
    assert foundInsights[..|foundInsights|] == foundInsights;
    result := if multi == [] then None else Some(Multi(multi));

    PassGuarantees(env, Flatten(foundInsights));
  }
}
