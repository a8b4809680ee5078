/** What a viable route through the pools is, independently of how one is searched for. */
module Routes {
  import opened Wrappers
  import opened ConstantProduct

  /** Longest route, in pools. */
  const MAX_PATH_LENGTH: nat := 3

  type Pools = map<Address, PoolInfo>

  /** Each pool is stored under its own address. */
  ghost predicate Keyed(pools: Pools) {
    forall k :: k in pools ==> pools[k].poolAddress == k
  }

  ghost predicate Distinct<T>(s: seq<T>) {
    forall i, j :: 0 <= i < j < |s| ==> s[i] != s[j]
  }

  /** A pool that turns `amount` of `from` into a positive amount of `to`. */
  ghost predicate ViableLeg(pool: PoolInfo, from: Address, to: Address, amount: int) {
    pool.Joins(from, to) && SwapOutput(pool, from, amount).Some? && SwapOutput(pool, from, amount).value > 0
  }

  /** Every leg is viable on the amount carried so far, and `output` is what arrives. */
  ghost predicate ViableRoute(pools: Pools, tokens: seq<Address>, path: seq<Address>, amount: int, output: int)
    decreases |path|
  {
    && |tokens| == |path| + 1
    && if path == [] then output == amount
       else
         && path[0] in pools
         && ViableLeg(pools[path[0]], tokens[0], tokens[1], amount)
         && ViableRoute(pools, tokens[1..], path[1..], SwapOutput(pools[path[0]], tokens[0], amount).value, output)
  }

  /** A route of at most `hops` pools from one token to another that visits no token twice. */
  ghost predicate Connects(pools: Pools, from: Address, to: Address, amount: int, hops: int,
                           tokens: seq<Address>, path: seq<Address>, output: int)
  {
    && ViableRoute(pools, tokens, path, amount, output)
    && 1 <= |path| <= hops
    && tokens[0] == from && tokens[|path|] == to
    && Distinct(tokens)
  }

  ghost predicate Reachable(pools: Pools, from: Address, to: Address, amount: int) {
    exists tokens, path, output :: Connects(pools, from, to, amount, MAX_PATH_LENGTH, tokens, path, output)
  }

  /** `tail` and `path` finish a search that has already visited `visited`. */
  ghost predicate Completes(pools: Pools, visited: seq<Address>, target: Address, amount: int, hops: int,
                            tail: seq<Address>, path: seq<Address>, output: int)
  {
    && visited != []
    && ViableRoute(pools, [visited[|visited| - 1]] + tail, path, amount, output)
    && 1 <= |path| <= hops
    && tail[|path| - 1] == target
    && Distinct(visited + tail)
  }

  /** Viable legs in terms of the pool's own fields. */
  lemma ViableLegIsExact(pool: PoolInfo, from: Address, to: Address, amount: int)
    ensures ViableLeg(pool, from, to, amount)
            <==> && from != to
                 && exists dy :: && dy > 0
                                 && ((pool.tokenA == from && pool.tokenB == to
                                      && Quotable(pool.reserveA, pool.reserveB, pool.feeBps, amount)
                                      && IsOutput(pool.reserveA, pool.reserveB, pool.feeBps, amount, dy))
                                     || (pool.tokenB == from && pool.tokenA == to
                                         && Quotable(pool.reserveB, pool.reserveA, pool.feeBps, amount)
                                         && IsOutput(pool.reserveB, pool.reserveA, pool.feeBps, amount, dy)))
  {
    hide SwapOutput, Quotable, IsOutput;
    if ViableLeg(pool, from, to, amount) {
      QuoteIsExact(pool, from, amount, SwapOutput(pool, from, amount).value);
    }
    if from != to {
      forall dy ensures SwapOutput(pool, from, amount) == Some(dy) <==>
                        && pool.tokenA != pool.tokenB
                        && ((pool.tokenA == from && Quotable(pool.reserveA, pool.reserveB, pool.feeBps, amount)
                             && IsOutput(pool.reserveA, pool.reserveB, pool.feeBps, amount, dy))
                            || (pool.tokenB == from && Quotable(pool.reserveB, pool.reserveA, pool.feeBps, amount)
                                && IsOutput(pool.reserveB, pool.reserveA, pool.feeBps, amount, dy)))
      {
        QuoteIsExact(pool, from, amount, dy);
      }
    }
  }

  lemma LegQuotes(pool: PoolInfo, from: Address, to: Address, amount: int)
    requires ViableLeg(pool, from, to, amount)
    ensures SwapOutput(pool, from, amount).Some?
  {
  }

  /** The amounts carried along a route: what goes in, what each pool hands on, and what arrives. */
  ghost predicate Carries(pools: Pools, tokens: seq<Address>, path: seq<Address>, amounts: seq<int>) {
    && |tokens| == |path| + 1 == |amounts|
    && forall i :: 0 <= i < |path| ==>
         && path[i] in pools && ViableLeg(pools[path[i]], tokens[i], tokens[i + 1], amounts[i])
         && SwapOutput(pools[path[i]], tokens[i], amounts[i]) == Some(amounts[i + 1])
  }

  /** A route is viable exactly when some amounts are carried from pool to pool all along it. */
  lemma {:induction false} RouteLegByLeg(pools: Pools, tokens: seq<Address>, path: seq<Address>, amount: int,
                                         output: int)
    ensures ViableRoute(pools, tokens, path, amount, output)
            <==> exists amounts :: && Carries(pools, tokens, path, amounts)
                                   && amounts[0] == amount && amounts[|path|] == output
    decreases |path|
  {
    hide SwapOutput, ViableLeg;
    if ViableRoute(pools, tokens, path, amount, output) {
      if path == [] {
        assert Carries(pools, tokens, path, [amount]);
      } else {
        LegQuotes(pools[path[0]], tokens[0], tokens[1], amount);
        var carried := SwapOutput(pools[path[0]], tokens[0], amount).value;
        RouteLegByLeg(pools, tokens[1..], path[1..], carried, output);
        var rest :| Carries(pools, tokens[1..], path[1..], rest) && rest[0] == carried && rest[|path| - 1] == output;
        assert Carries(pools, tokens, path, [amount] + rest);
      }
    }
    if amounts :| Carries(pools, tokens, path, amounts) && amounts[0] == amount && amounts[|path|] == output {
      if path != [] {
        assert Carries(pools, tokens[1..], path[1..], amounts[1..]);
        assert amounts[1..][|path| - 1] == output;
        RouteLegByLeg(pools, tokens[1..], path[1..], amounts[1], output);
      }
    }
  }

  lemma OneLegRoute(pools: Pools, key: Address, from: Address, to: Address, amount: int)
    requires key in pools && ViableLeg(pools[key], from, to, amount)
    ensures ViableRoute(pools, [from, to], [key], amount, SwapOutput(pools[key], from, amount).value)
  {
    assert [from, to][1..] == [to] && [key][1..] == [];
  }

  /** Completing from the next token completes from the current one. */
  lemma CompleteThrough(pools: Pools, visited: seq<Address>, target: Address, amount: int, hops: int,
                        key: Address, next: Address, tail: seq<Address>, path: seq<Address>, output: int)
    requires visited != [] && key in pools && ViableLeg(pools[key], visited[|visited| - 1], next, amount)
    requires
      var carried := SwapOutput(pools[key], visited[|visited| - 1], amount).value;
      Completes(pools, visited + [next], target, carried, hops - 1, tail, path, output)
    ensures Completes(pools, visited, target, amount, hops, [next] + tail, [key] + path, output)
  {
    var current := visited[|visited| - 1];
    assert (visited + [next])[|visited|] == next;
    assert ([current] + ([next] + tail))[1..] == [next] + tail && ([key] + path)[1..] == path;
    assert visited + ([next] + tail) == visited + [next] + tail;
  }

  /** A completion either ends with its first leg or continues from the next token. */
  lemma FirstLegOfCompletion(pools: Pools, visited: seq<Address>, target: Address, amount: int, hops: int,
                             tail: seq<Address>, path: seq<Address>, output: int)
    requires Completes(pools, visited, target, amount, hops, tail, path, output)
    ensures |tail| == |path| && path[0] in pools
    ensures
      var current, next := visited[|visited| - 1], tail[0];
      && ViableLeg(pools[path[0]], current, next, amount)
      && pools[path[0]].Neighbour(current) == Some(next)
      && next !in visited
      && (next == target ||
          Completes(pools, visited + [next], target, SwapOutput(pools[path[0]], current, amount).value, hops - 1,
                    tail[1..], path[1..], output))
  {
    var current, next := visited[|visited| - 1], tail[0];
    assert ([current] + tail)[1..] == tail && tail == [next] + tail[1..];
    assert (visited + tail)[|visited|] == next;
    forall i | 0 <= i < |visited| ensures visited[i] != next {
      assert (visited + tail)[i] == visited[i];
    }
    assert visited + [next] + tail[1..] == visited + tail;
    assert next != target ==> |path| > 1;
  }

  /** A search started from the input alone completes exactly along connecting routes. */
  lemma CompletesFromStart(pools: Pools, from: Address, to: Address, amount: int, hops: int,
                           tail: seq<Address>, path: seq<Address>, output: int)
    ensures Completes(pools, [from], to, amount, hops, tail, path, output)
            <==> Connects(pools, from, to, amount, hops, [from] + tail, path, output)
  {
  }

  /** Replaying a path leg by leg as a quote does: 0 as soon as a leg is missing, mismatched or unquotable. */
  function Replay(pools: Pools, tokens: seq<Address>, path: seq<Address>, amount: int): int
    requires |tokens| == |path| + 1
    decreases |path|
  {
    if path == [] then amount
    else if path[0] !in pools || !pools[path[0]].Joins(tokens[0], tokens[1]) then 0
    else
      match SwapOutput(pools[path[0]], tokens[0], amount)
      case None => 0
      case Some(output) => Replay(pools, tokens[1..], path[1..], output)
  }

  /** A viable route replays to exactly its output. */
  lemma {:induction false} ViableRouteReplays(pools: Pools, tokens: seq<Address>, path: seq<Address>, amount: int,
                                              output: int)
    requires ViableRoute(pools, tokens, path, amount, output)
    ensures Replay(pools, tokens, path, amount) == output
    decreases |path|
  {
    if path != [] {
      ViableRouteReplays(pools, tokens[1..], path[1..], SwapOutput(pools[path[0]], tokens[0], amount).value, output);
    }
  }

  /** Conversely a path that replays to a positive amount is a viable route. */
  lemma {:induction false} PositiveReplayIsViable(pools: Pools, tokens: seq<Address>, path: seq<Address>, amount: int)
    requires |tokens| == |path| + 1 && Replay(pools, tokens, path, amount) > 0
    ensures ViableRoute(pools, tokens, path, amount, Replay(pools, tokens, path, amount))
    decreases |path|
  {
    if path != [] {
      var carried := SwapOutput(pools[path[0]], tokens[0], amount).value;
      PositiveReplayIsViable(pools, tokens[1..], path[1..], carried);
      if carried <= 0 {
        NothingFromNothing(pools, tokens[1..], path[1..], carried);
        assert false;
      }
    }
  }

  /** A path that is not viable replays to nothing at all. */
  lemma UnviablePathReplaysToZero(pools: Pools, tokens: seq<Address>, path: seq<Address>, amount: int)
    requires |tokens| == |path| + 1 && path != []
    requires forall output :: output > 0 ==> !ViableRoute(pools, tokens, path, amount, output)
    ensures Replay(pools, tokens, path, amount) == 0
  {
    if Replay(pools, tokens, path, amount) > 0 {
      PositiveReplayIsViable(pools, tokens, path, amount);
    }
    ReplayIsNotNegative(pools, tokens, path, amount);
    hide Replay, ViableRoute;
  }

  lemma {:induction false} ReplayIsNotNegative(pools: Pools, tokens: seq<Address>, path: seq<Address>, amount: int)
    requires |tokens| == |path| + 1 && path != []
    ensures Replay(pools, tokens, path, amount) >= 0
    decreases |path|
  {
    if path[0] in pools && SwapOutput(pools[path[0]], tokens[0], amount).Some? {
      var _, _, _, carried := QuoteFacts(pools[path[0]], tokens[0], amount);
      if |path| > 1 {
        ReplayIsNotNegative(pools, tokens[1..], path[1..], carried);
      }
    }
    hide SwapOutput;
  }

  lemma NothingFromNothing(pools: Pools, tokens: seq<Address>, path: seq<Address>, amount: int)
    requires |tokens| == |path| + 1 && amount <= 0
    ensures Replay(pools, tokens, path, amount) <= 0
  {
  }

  /** A larger input never yields less along the same viable route. */
  lemma {:induction false} RouteIsMonotone(pools: Pools, tokens: seq<Address>, path: seq<Address>,
                                           amount1: int, output1: int, amount2: int, output2: int)
    requires amount1 <= amount2
    requires ViableRoute(pools, tokens, path, amount1, output1) && ViableRoute(pools, tokens, path, amount2, output2)
    ensures output1 <= output2
    decreases |path|
  {
    if path != [] {
      QuoteIsMonotone(pools[path[0]], tokens[0], amount1, amount2);
      RouteIsMonotone(pools, tokens[1..], path[1..],
                      SwapOutput(pools[path[0]], tokens[0], amount1).value, output1,
                      SwapOutput(pools[path[0]], tokens[0], amount2).value, output2);
    }
  }
}
