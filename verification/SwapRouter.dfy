/** The router contract: pool registry, depth-aware path search and quotes. */
module SwapRouter {
  import opened Wrappers
  import opened Integers
  import opened SquareRoots
  import opened ConstantProduct
  import opened Routes

  datatype SwapError = InvalidPath | NoPoolFound | InvalidSlippage | Unauthorized | PoolExists | PoolNotFound

  datatype RouteType = Direct | XLMHop | MultiHop

  datatype SwapPath = SwapPath(
    tokens: seq<Address>, pools: seq<Address>, expectedOutput: int, priceImpactBps: int)

  datatype SwapQuote = SwapQuote(
    path: SwapPath, inputAmount: int, minimumOutput: int, expectedOutput: int, priceImpactBps: int,
    protocolFee: int, routeType: RouteType)

  datatype Candidate = Candidate(pool: PoolInfo, next: Address)

  datatype FoundPath = FoundPath(tokens: seq<Address>, pools: seq<Address>, output: int)

  // ---------- iteration order of the pool map ----------

  lemma LeastExists(keys: set<Address>)
    requires keys != {}
    ensures exists k :: k in keys && forall j :: j in keys ==> k <= j
  {
    var k :| k in keys;
    if keys != {k} {
      var rest := keys - {k};
      assert keys == rest + {k};
      LeastExists(rest);
      var m :| m in rest && forall j :: j in rest ==> m <= j;
      var least := Min(k, m);
      assert least in keys && forall j :: j in keys ==> least <= j;
    }
  }

  function Least(keys: set<Address>): (k: Address)
    requires keys != {}
    ensures k in keys && forall j :: j in keys ==> k <= j
  {
    LeastExists(keys);
    var k :| k in keys && forall j :: j in keys ==> k <= j;
    k
  }

  /** The keys of a ledger map in the ascending order in which it is iterated. */
  function KeysInOrder(keys: set<Address>): (order: seq<Address>)
    ensures forall k :: k in order <==> k in keys
    ensures forall i, j :: 0 <= i < j < |order| ==> order[i] < order[j]
  {
    if keys == {} then []
    else
      var k := Least(keys);
      [k] + KeysInOrder(keys - {k})
  }

  // ---------- ranking ----------

  ghost predicate ByDepthDescending(candidates: seq<Candidate>) {
    forall i, j :: 0 <= i < j < |candidates| ==> candidates[i].pool.DepthScore() >= candidates[j].pool.DepthScore()
  }

  /** Equally deep candidates stand in ascending order of their addresses. */
  ghost predicate TiesInOrder(candidates: seq<Candidate>) {
    forall i, j :: 0 <= i < j < |candidates| && candidates[i].pool.DepthScore() == candidates[j].pool.DepthScore() ==>
      candidates[i].pool.poolAddress < candidates[j].pool.poolAddress
  }

  /** One comparison of the bubble sort: adjacent candidates trade places when the later one is deeper. */
  method CompareAndSwap(candidates: seq<Candidate>, j: nat) returns (swapped: seq<Candidate>)
    requires j + 1 < |candidates|
    ensures swapped == if candidates[j].pool.DepthScore() < candidates[j + 1].pool.DepthScore()
                       then candidates[j := candidates[j + 1]][j + 1 := candidates[j]] else candidates
    ensures multiset(swapped) == multiset(candidates)
    ensures swapped[j].pool.DepthScore() >= swapped[j + 1].pool.DepthScore()
  {
    var scoreA := candidates[j].pool.ComputeDepthScore();
    var scoreB := candidates[j + 1].pool.ComputeDepthScore();
    if scoreA < scoreB {
      return candidates[j := candidates[j + 1]][j + 1 := candidates[j]];
    }
    return candidates;
  }

  /** Deepest pool first; a permutation, so no candidate is lost, and stable, so ties keep their order. */
  method SortByDepth(candidates: seq<Candidate>) returns (sorted: seq<Candidate>)
    ensures multiset(sorted) == multiset(candidates)
    ensures ByDepthDescending(sorted)
    ensures TiesInOrder(candidates) ==> TiesInOrder(sorted)
  {
    sorted := candidates;
    var n := |sorted|;
    for i := 0 to n
      invariant |sorted| == n && multiset(sorted) == multiset(candidates)
      invariant SettledFrom(sorted, n - i)
      invariant TiesInOrder(candidates) ==> TiesInOrder(sorted)
    {
      for j := 0 to n - i - 1
        invariant |sorted| == n && multiset(sorted) == multiset(candidates)
        invariant SettledFrom(sorted, n - i)
        invariant ShallowestAt(sorted, j)
        invariant TiesInOrder(candidates) ==> TiesInOrder(sorted)
      {
        ghost var before := sorted;
        sorted := CompareAndSwap(sorted, j);
        StillSettled(before, sorted, j, n - i);
        if TiesInOrder(before) && before != sorted {
          SwapKeepsTies(before, j);
        }
      }
    }
  }

  /** Positions from `from` on are in order and no deeper than anything before them. */
  ghost predicate SettledFrom(s: seq<Candidate>, from: int) {
    forall a, b :: 0 <= a < b < |s| && from <= b ==> s[a].pool.DepthScore() >= s[b].pool.DepthScore()
  }

  /** Nothing up to `j` is shallower than the candidate at `j`. */
  ghost predicate ShallowestAt(s: seq<Candidate>, j: int)
  {
    forall a :: 0 <= a <= j < |s| ==> s[a].pool.DepthScore() >= s[j].pool.DepthScore()
  }

  lemma StillSettled(s: seq<Candidate>, t: seq<Candidate>, j: nat, from: int)
    requires j + 1 < |s| == |t| && j + 1 < from
    requires SettledFrom(s, from) && ShallowestAt(s, j)
    requires t == s || t == s[j := s[j + 1]][j + 1 := s[j]]
    requires t[j].pool.DepthScore() >= t[j + 1].pool.DepthScore()
    ensures SettledFrom(t, from) && ShallowestAt(t, j + 1)
  {
  }

  /** Exchanging neighbours of different depth leaves every tie as it was. */
  lemma SwapKeepsTies(s: seq<Candidate>, j: nat)
    requires j + 1 < |s| && TiesInOrder(s) && s[j].pool.DepthScore() < s[j + 1].pool.DepthScore()
    ensures TiesInOrder(s[j := s[j + 1]][j + 1 := s[j]])
  {
    var t := s[j := s[j + 1]][j + 1 := s[j]];
    forall a, b | 0 <= a < b < |t| && t[a].pool.DepthScore() == t[b].pool.DepthScore()
      ensures t[a].pool.poolAddress < t[b].pool.poolAddress
    {
      var a', b' := Exchanged(a, j), Exchanged(b, j);
      assert t[a] == s[a'] && t[b] == s[b'] && a' < b';
    }
  }

  /** Where the element at `i` stood before neighbours `j` and `j + 1` were exchanged. */
  function Exchanged(i: nat, j: nat): nat {
    if i == j then j + 1 else if i == j + 1 then j else i
  }

  /** The tokens on the branch being explored; shared by all levels of the search. */
  class TokenStack {
    var items: seq<Address>

    constructor (first: Address)
      ensures items == [first]
    {
      items := [first];
    }

    method Push(token: Address)
      modifies this
      ensures items == old(items) + [token]
    {
      items := items + [token];
    }

    method Pop()
      requires items != []
      modifies this
      ensures items == old(items)[..|old(items)| - 1]
    {
      items := items[..|items| - 1];
    }
  }

  // ---------- what the direct search looks for ----------

  /** A pool the direct search may pick: viable for the pair and with a positive depth score. */
  ghost predicate RankedLeg(pools: Pools, key: Address, from: Address, to: Address, amount: int) {
    key in pools && ViableLeg(pools[key], from, to, amount) && pools[key].DepthScore() > 0
  }

  /** The deepest viable pool for the pair, the lowest address among equally deep ones. */
  ghost predicate DeepestLeg(pools: Pools, key: Address, from: Address, to: Address, amount: int) {
    && RankedLeg(pools, key, from, to, amount)
    && forall k :: k in pools && ViableLeg(pools[k], from, to, amount) ==>
         && pools[k].DepthScore() <= pools[key].DepthScore()
         && (pools[k].DepthScore() == pools[key].DepthScore() ==> key <= k)
  }

  /** Every pool is listed, once and in ascending order. */
  ghost predicate ListsAll(keys: seq<Address>, pools: Pools) {
    && (forall k :: k in keys <==> k in pools)
    && (forall i, j :: 0 <= i < j < |keys| ==> keys[i] < keys[j])
  }

  /** Among the first `i` pools, `best` is the deepest viable one with a positive score, the first of equals. */
  ghost predicate BestSoFar(pools: Pools, keys: seq<Address>, i: nat, best: Option<PoolInfo>, score: int,
                            from: Address, to: Address, amount: int)
  {
    && i <= |keys| && ListsAll(keys, pools)
    && score >= 0 && (best.None? <==> score == 0)
    && (best.Some? ==>
          var key := best.value.poolAddress;
          && key in keys[..i] && RankedLeg(pools, key, from, to, amount)
          && pools[key] == best.value && best.value.DepthScore() == score)
    && forall k :: 0 <= k < i && ViableLeg(pools[keys[k]], from, to, amount) ==>
         && pools[keys[k]].DepthScore() <= score
         && (best.Some? && pools[keys[k]].DepthScore() == score ==> best.value.poolAddress <= keys[k])
  }

  lemma NothingYet(pools: Pools, keys: seq<Address>, from: Address, to: Address, amount: int)
    requires ListsAll(keys, pools)
    ensures BestSoFar(pools, keys, 0, None, 0, from, to, amount)
  {
  }

  lemma OneMoreCompared(pools: Pools, keys: seq<Address>, i: nat, best: Option<PoolInfo>, score: int,
                        best': Option<PoolInfo>, score': int, from: Address, to: Address, amount: int)
    requires BestSoFar(pools, keys, i, best, score, from, to, amount) && i < |keys| && Keyed(pools)
    requires
      var pool := pools[keys[i]];
      if ViableLeg(pool, from, to, amount) && pool.DepthScore() > score
      then best' == Some(pool) && score' == pool.DepthScore()
      else best' == best && score' == score
    ensures BestSoFar(pools, keys, i + 1, best', score', from, to, amount)
  {
    hide ViableLeg, PoolInfo.DepthScore;
    assert keys[..i + 1] == keys[..i] + [keys[i]];
    assert pools[keys[i]].poolAddress == keys[i];
  }

  lemma BestOfAll(pools: Pools, keys: seq<Address>, best: Option<PoolInfo>, score: int, from: Address, to: Address,
                  amount: int)
    requires BestSoFar(pools, keys, |keys|, best, score, from, to, amount)
    ensures best.None? ==> forall k :: !RankedLeg(pools, k, from, to, amount)
    ensures best.Some? ==>
              && DeepestLeg(pools, best.value.poolAddress, from, to, amount)
              && pools[best.value.poolAddress] == best.value
  {
    hide ViableLeg, PoolInfo.DepthScore;
    forall k | k in pools && ViableLeg(pools[k], from, to, amount)
      ensures pools[k].DepthScore() <= score
      ensures best.Some? && pools[k].DepthScore() == score ==> best.value.poolAddress <= k
    {
      assert k in keys;
    }
  }

  /**
   A viable pool is invisible to the direct search exactly when the product of its reserves does
   not fit 128 bits: its score is then 0 although it quotes a positive output.
   */
  lemma UnrankedExactlyWhenProductOverflows(pools: Pools, key: Address, from: Address, to: Address, amount: int)
    requires key in pools && ViableLeg(pools[key], from, to, amount)
    ensures RankedLeg(pools, key, from, to, amount) <==> InI128(pools[key].reserveA * pools[key].reserveB)
  {
    var pool := pools[key];
    MulMonotone(1, pool.reserveA, pool.reserveB);
    if InI128(pool.reserveA * pool.reserveB) && pool.DepthScore() == 0 {
      assert false;
    }
  }

  /** No viable pool of the pair whose product fits has a larger floored root of its reserve product. */
  ghost predicate LargestRoot(pools: Pools, key: Address, from: Address, to: Address, amount: int) {
    && key in pools && ViableLeg(pools[key], from, to, amount)
    && pools[key].reserveA * pools[key].reserveB <= I128_MAX
    && forall k, root, best ::
         (&& k in pools && ViableLeg(pools[k], from, to, amount)
          && pools[k].reserveA * pools[k].reserveB <= I128_MAX
          && IsRoot(root, pools[k].reserveA * pools[k].reserveB)
          && IsRoot(best, pools[key].reserveA * pools[key].reserveB)) ==> root <= best
  }

  lemma DeepestHasLargestRoot(pools: Pools, key: Address, from: Address, to: Address, amount: int)
    requires DeepestLeg(pools, key, from, to, amount)
    ensures LargestRoot(pools, key, from, to, amount)
  {
    hide ViableLeg, IsRoot;
    ScoreOfViable(pools[key], from, to, amount);
    forall k, root, best | && k in pools && ViableLeg(pools[k], from, to, amount)
                           && pools[k].reserveA * pools[k].reserveB <= I128_MAX
                           && IsRoot(root, pools[k].reserveA * pools[k].reserveB)
                           && IsRoot(best, pools[key].reserveA * pools[key].reserveB)
      ensures root <= best
    {
      ScoreOfViable(pools[k], from, to, amount);
      RootIsUnique(root, pools[k].DepthScore(), pools[k].reserveA * pools[k].reserveB);
      RootIsUnique(best, pools[key].DepthScore(), pools[key].reserveA * pools[key].reserveB);
    }
  }

  /** A viable pool whose product fits is scored by the root of that product; any other is not ranked. */
  lemma ScoreOfViable(pool: PoolInfo, from: Address, to: Address, amount: int)
    requires ViableLeg(pool, from, to, amount)
    ensures pool.reserveA > 0 && pool.reserveB > 0
    ensures pool.DepthScore() > 0 <==> pool.reserveA * pool.reserveB <= I128_MAX
    ensures pool.reserveA * pool.reserveB <= I128_MAX ==> IsRoot(pool.DepthScore(), pool.reserveA * pool.reserveB)
  {
    var product := pool.reserveA * pool.reserveB;
    ScoreIsDepth(pool);
    MulMonotone(1, pool.reserveA, pool.reserveB);
    MulMonotone(1, pool.reserveB, pool.reserveA);
  }

  lemma NoneFits(pools: Pools, from: Address, to: Address, amount: int)
    requires forall k :: !RankedLeg(pools, k, from, to, amount)
    ensures forall k :: k in pools && ViableLeg(pools[k], from, to, amount) ==>
              pools[k].reserveA * pools[k].reserveB > I128_MAX
  {
    forall k | k in pools && ViableLeg(pools[k], from, to, amount)
      ensures pools[k].reserveA * pools[k].reserveB > I128_MAX
    {
      ScoreOfViable(pools[k], from, to, amount);
      assert !RankedLeg(pools, k, from, to, amount);
    }
  }

  /** Such pools exist: reserves of 10^30 on both sides turn 2000 units into 1993. */
  lemma DeepPoolsCanBeUnranked(pool: PoolInfo)
    requires pool.tokenA == 1 && pool.tokenB == 2 && pool.feeBps == 30
    requires pool.reserveA == pool.reserveB == 1_000_000_000_000_000_000_000_000_000_000
    ensures ViableLeg(pool, 1, 2, 2_000) && SwapOutput(pool, 1, 2_000) == Some(1_993) && pool.DepthScore() == 0
  {
  }

  /** A path whose expected output is what its pools yield, leg by leg, on distinct tokens. */
  ghost predicate IsRoute(pools: Pools, from: Address, to: Address, amount: int, path: SwapPath) {
    Connects(pools, from, to, amount, MAX_PATH_LENGTH, path.tokens, path.pools, path.expectedOutput)
  }

  /** Two hops through XLM, each over the deepest viable pool. */
  ghost predicate IsXlmHop(pools: Pools, xlm: Address, from: Address, to: Address, amount: int, path: SwapPath) {
    && path.tokens == [from, xlm, to] && |path.pools| == 2 && path.priceImpactBps == 0
    && ViableRoute(pools, path.tokens, path.pools, amount, path.expectedOutput)
    && DeepestLeg(pools, path.pools[0], from, xlm, amount)
    && DeepestLeg(pools, path.pools[1], xlm, to, SwapOutput(pools[path.pools[0]], from, amount).value)
  }

  /** The deepest pool into XLM leaves an amount that some ranked pool takes on to the output. */
  ghost predicate XlmHopExists(pools: Pools, xlm: Address, from: Address, to: Address, amount: int) {
    exists k1, k2 :: && DeepestLeg(pools, k1, from, xlm, amount)
                     && RankedLeg(pools, k2, xlm, to, SwapOutput(pools[k1], from, amount).value)
  }

  /**
   The routing policy: direct whenever a ranked pool serves the pair, then XLM whenever its greedy
   two hops work, and only then the search, which prefers the deepest pool that leads to the target.
   */
  ghost predicate IsBestPath(pools: Pools, xlm: Address, from: Address, to: Address, amount: int, path: SwapPath,
                             routeType: RouteType)
  {
    var direct := exists k :: RankedLeg(pools, k, from, to, amount);
    var viaXlm := from != xlm && to != xlm && XlmHopExists(pools, xlm, from, to, amount);
    && path.priceImpactBps == 0
    && (from != to ==> IsRoute(pools, from, to, amount, path))
    && (routeType == Direct <==> direct)
    && (routeType == XLMHop <==> !direct && viaXlm)
    && match routeType
       case Direct =>
         path.tokens == [from, to] && |path.pools| == 1 && DeepestLeg(pools, path.pools[0], from, to, amount)
       case XLMHop => IsXlmHop(pools, xlm, from, to, amount, path)
       case MultiHop =>
         path.tokens != [] && DeepestFirst(pools, [from], to, amount, MAX_PATH_LENGTH, path.tokens[1..], path.pools)
  }

  /** The deepest leg is unique: ties go to the lowest address. */
  lemma DeepestLegIsUnique(pools: Pools, j: Address, k: Address, from: Address, to: Address, amount: int)
    requires DeepestLeg(pools, j, from, to, amount) && DeepestLeg(pools, k, from, to, amount)
    ensures j == k
  {
  }

  class SwapRouter {
    var admin: Address
    var xlmToken: Address
    var defaultSlippage: nat
    var pools: Pools
    var oraclePaused: bool

    ghost predicate Valid()
      reads this
    {
      Keyed(pools) && defaultSlippage <= MAX_SLIPPAGE_BPS
    }

    constructor (admin: Address, xlmToken: Address)
      ensures Valid() && pools == map[] && !oraclePaused
      ensures this.admin == admin && this.xlmToken == xlmToken && defaultSlippage == MAX_SLIPPAGE_BPS
    {
      this.admin := admin;
      this.xlmToken := xlmToken;
      defaultSlippage := MAX_SLIPPAGE_BPS;
      pools := map[];
      oraclePaused := false;
    }

    // ---------- pool management ----------

    method AddPool(caller: Address, poolAddress: Address, tokenA: Address, tokenB: Address, feeBps: nat,
                   isStableSwap: bool)
      returns (result: Result<(), SwapError>)
      requires Valid()
      modifies this`pools
      ensures Valid()
      ensures result.Success? <==> caller == admin && poolAddress !in old(pools)
      ensures result.Failure? ==> pools == old(pools)
      ensures result.Success? ==>
                pools == old(pools)[poolAddress := PoolInfo(poolAddress, tokenA, tokenB, 0, 0, feeBps, isStableSwap)]
    {
      if caller != admin {
        return Failure(Unauthorized);
      }
      if poolAddress in pools {
        return Failure(PoolExists);
      }
      pools := pools[poolAddress := PoolInfo(poolAddress, tokenA, tokenB, 0, 0, feeBps, isStableSwap)];
      return Success(());
    }

    method UpdatePoolReserves(poolAddress: Address, reserveA: int, reserveB: int)
      returns (result: Result<(), SwapError>)
      requires Valid()
      modifies this`pools
      ensures Valid()
      ensures result.Success? <==> !oraclePaused && poolAddress in old(pools)
      ensures result.Failure? ==> pools == old(pools)
      ensures result.Success? ==>
                pools == old(pools)[poolAddress := old(pools)[poolAddress].(reserveA := reserveA, reserveB := reserveB)]
    {
      if oraclePaused {
        return Failure(Unauthorized);
      }
      if poolAddress !in pools {
        return Failure(NoPoolFound);
      }
      pools := pools[poolAddress := pools[poolAddress].(reserveA := reserveA, reserveB := reserveB)];
      return Success(());
    }

    method RemovePool(caller: Address, poolAddress: Address) returns (result: Result<(), SwapError>)
      requires Valid()
      modifies this`pools
      ensures Valid()
      ensures result.Success? <==> caller == admin && poolAddress in old(pools)
      ensures pools == if result.Success? then old(pools) - {poolAddress} else old(pools)
    {
      if caller != admin {
        return Failure(Unauthorized);
      }
      if poolAddress !in pools {
        return Failure(PoolNotFound);
      }
      pools := pools - {poolAddress};
      return Success(());
    }

    // ---------- path search ----------

    method FindDirectPath(tokenA: Address, tokenB: Address, inputAmount: int) returns (best: Option<PoolInfo>)
      requires Valid()
      ensures best.None? ==> forall k :: !RankedLeg(pools, k, tokenA, tokenB, inputAmount)
      ensures best.Some? ==>
                && DeepestLeg(pools, best.value.poolAddress, tokenA, tokenB, inputAmount)
                && pools[best.value.poolAddress] == best.value
      ensures best.Some? ==> LargestRoot(pools, best.value.poolAddress, tokenA, tokenB, inputAmount)
      ensures best.None? ==> forall k :: k in pools && ViableLeg(pools[k], tokenA, tokenB, inputAmount) ==>
                pools[k].reserveA * pools[k].reserveB > I128_MAX
    {
      hide SwapOutput, BestSoFar, PoolInfo.DepthScore;
      best := None;
      var bestDepthScore := 0;
      var keys := KeysInOrder(pools.Keys);
      NothingYet(pools, keys, tokenA, tokenB, inputAmount);
      for i := 0 to |keys|
        invariant BestSoFar(pools, keys, i, best, bestDepthScore, tokenA, tokenB, inputAmount)
      {
        var pool := pools[keys[i]];
        ghost var bestBefore, scoreBefore := best, bestDepthScore;
        if pool.Joins(tokenA, tokenB) {
          var depthScore := pool.ComputeDepthScore();
          if depthScore > bestDepthScore {
            var output := SwapOutput(pool, tokenA, inputAmount);
            if output.Some? && output.value > 0 {
              bestDepthScore := depthScore;
              best := Some(pool);
            }
          }
        }
        OneMoreCompared(pools, keys, i, bestBefore, scoreBefore, best, bestDepthScore, tokenA, tokenB, inputAmount);
      }
      BestOfAll(pools, keys, best, bestDepthScore, tokenA, tokenB, inputAmount);
      hide LargestRoot, DeepestLeg, RankedLeg, ViableLeg;
      if best.Some? {
        DeepestHasLargestRoot(pools, best.value.poolAddress, tokenA, tokenB, inputAmount);
      } else {
        NoneFits(pools, tokenA, tokenB, inputAmount);
      }
    }

    method FindXlmHopPath(inputToken: Address, outputToken: Address, inputAmount: int)
      returns (path: Option<SwapPath>)
      requires Valid()
      ensures path.Some? ==> IsXlmHop(pools, xlmToken, inputToken, outputToken, inputAmount, path.value)
      ensures path.None? ==> !XlmHopExists(pools, xlmToken, inputToken, outputToken, inputAmount)
    {
      var inputPool := FindDirectPath(inputToken, xlmToken, inputAmount);
      if inputPool.None? {
        return None;
      }
      var first := SwapOutput(inputPool.value, inputToken, inputAmount);
      if first.None? {
        return None;
      }
      var outputPool := FindDirectPath(xlmToken, outputToken, first.value);
      if outputPool.None? {
        return None;
      }
      var final := SwapOutput(outputPool.value, xlmToken, first.value);
      if final.None? {
        return None;
      }
      var tokens := [inputToken, xlmToken, outputToken];
      assert inputPool.value.poolAddress in pools && outputPool.value.poolAddress in pools;
      var path2 := [inputPool.value.poolAddress, outputPool.value.poolAddress];
      OneLegRoute(pools, path2[1], xlmToken, outputToken, first.value);
      assert tokens[1..] == [xlmToken, outputToken] && path2[1..] == [path2[1]];
      return Some(SwapPath(tokens, path2, final.value, 0));
    }

    method FindMultiHopPath(inputToken: Address, outputToken: Address, inputAmount: int)
      returns (path: Option<SwapPath>)
      requires Valid()
      ensures path.None? ==> !Reachable(pools, inputToken, outputToken, inputAmount)
      ensures path.Some? ==>
                && Connects(pools, inputToken, outputToken, inputAmount, MAX_PATH_LENGTH,
                            path.value.tokens, path.value.pools, path.value.expectedOutput)
                && DeepestFirst(pools, [inputToken], outputToken, inputAmount, MAX_PATH_LENGTH,
                                path.value.tokens[1..], path.value.pools)
                && path.value.priceImpactBps == 0
    {
      var visited := new TokenStack(inputToken);
      var found := BfsFindPath(inputToken, outputToken, visited, inputAmount, 0);
      if found.Some? {
        CompletesFromStart(pools, inputToken, outputToken, inputAmount, MAX_PATH_LENGTH,
                           found.value.tokens[1..], found.value.pools, found.value.output);
        assert found.value.tokens == [inputToken] + found.value.tokens[1..];
        return Some(SwapPath(found.value.tokens, found.value.pools, found.value.output, 0));
      }
      forall tokens: seq<Address>, route, output
        ensures !Connects(pools, inputToken, outputToken, inputAmount, MAX_PATH_LENGTH, tokens, route, output)
      {
        if Connects(pools, inputToken, outputToken, inputAmount, MAX_PATH_LENGTH, tokens, route, output) {
          assert tokens == [inputToken] + tokens[1..];
          CompletesFromStart(pools, inputToken, outputToken, inputAmount, MAX_PATH_LENGTH, tokens[1..], route, output);
        }
      }
      return None;
    }

    method IsVisited(visited: seq<Address>, token: Address) returns (alreadyVisited: bool)
      ensures alreadyVisited <==> token in visited
    {
      alreadyVisited := false;
      for v := 0 to |visited|
        invariant alreadyVisited <==> token in visited[..v]
      {
        if visited[v] == token {
          return true;
        }
      }
    }

    /** Pools leading from `current` to a token not yet on the branch, in key order. */
    method CollectCandidates(current: Address, visited: seq<Address>) returns (candidates: seq<Candidate>)
      requires Valid()
      ensures AllCandidates(pools, current, visited, candidates)
      ensures forall i, j :: 0 <= i < j < |candidates| ==>
                candidates[i].pool.poolAddress < candidates[j].pool.poolAddress
    {
      hide Collected;
      candidates := [];
      var keys := KeysInOrder(pools.Keys);
      NothingCollected(pools, keys, current, visited);
      for i := 0 to |keys|
        invariant Collected(pools, keys, i, current, visited, candidates)
      {
        var pool := pools[keys[i]];
        var next := pool.Neighbour(current);
        ghost var before := candidates;
        if next.Some? {
          var alreadyVisited := IsVisited(visited, next.value);
          if !alreadyVisited {
            candidates := candidates + [Candidate(pool, next.value)];
          }
        }
        OneMoreCollected(pools, keys, i, current, visited, before, candidates);
      }
      AllCollected(pools, keys, current, visited, candidates);
    }

    /** The candidates, deepest first and ties by address; sorting loses none of them. */
    method RankCandidates(current: Address, visited: seq<Address>) returns (ranked: seq<Candidate>)
      requires Valid()
      ensures AllCandidates(pools, current, visited, ranked) && ByDepthDescending(ranked) && TiesInOrder(ranked)
    {
      var candidates := CollectCandidates(current, visited);
      ranked := SortByDepth(candidates);
      forall c: Candidate ensures c in candidates <==> c in ranked {
        assert c in multiset(candidates) <==> c in multiset(ranked);
      }
    }

    /**
     Bounded depth-first search with backtracking. It fails only when no completion exists, and
     then leaves the branch as it found it.
     */
    method BfsFindPath(current: Address, target: Address, visited: TokenStack, amount: int, depth: nat)
      returns (found: Option<FoundPath>)
      requires Valid()
      requires visited.items != [] && visited.items[|visited.items| - 1] == current && Distinct(visited.items)
      modifies visited
      ensures found.None? ==>
                && visited.items == old(visited.items)
                && Incompletable(pools, old(visited.items), target, amount, MAX_PATH_LENGTH - depth)
      ensures found.Some? ==>
                && FoundFrom(pools, old(visited.items), target, amount, MAX_PATH_LENGTH - depth, found.value)
                && DeepestFirst(pools, old(visited.items), target, amount, MAX_PATH_LENGTH - depth,
                                found.value.tokens[|old(visited.items)|..], found.value.pools)
      decreases MAX_PATH_LENGTH - depth
    {
      if depth >= MAX_PATH_LENGTH {
        return None;
      }
      hide SwapOutput, ViableLeg, Completes, NoBetterCompletion, ByDepthDescending, TiesInOrder, IncompletableVia;
      hide DeepestFirst;
      ghost var branch := visited.items;
      ghost var hops := MAX_PATH_LENGTH - depth;
      var ranked := RankCandidates(current, visited.items);
      for i := 0 to |ranked|
        invariant visited.items == branch
        invariant forall k :: 0 <= k < i ==>
                    IncompletableVia(pools, branch, target, amount, hops, ranked[k].pool.poolAddress)
      {
        var pool, next := ranked[i].pool, ranked[i].next;
        assert IsCandidate(pools, current, branch, ranked[i]);
        var output := SwapOutput(pool, current, amount);
        if output.None? || output.value <= 0 {
          NoCompletionWithoutOutput(pools, branch, target, amount, hops, pool.poolAddress);
          continue;
        }
        NeighbourIsLeg(pool, current, next, amount);
        if next == target {
          FoundInOneLeg(pools, branch, amount, hops, pool.poolAddress, next);
          NoBetterFirstLeg(pools, branch, target, amount, hops, ranked, i);
          DeepestInOneLeg(pools, branch, target, amount, hops, pool.poolAddress);
          return Some(FoundPath(visited.items + [next], [pool.poolAddress], output.value));
        }
        visited.Push(next);
        var rest := BfsFindPath(next, target, visited, output.value, depth + 1);
        if rest.Some? {
          FoundThrough(pools, branch, target, amount, hops, pool.poolAddress, next, rest.value);
          NoBetterFirstLeg(pools, branch, target, amount, hops, ranked, i);
          DeepestThrough(pools, branch, target, amount, hops, pool.poolAddress, next, rest.value);
          return Some(FoundPath(rest.value.tokens, [pool.poolAddress] + rest.value.pools, rest.value.output));
        }
        visited.Pop();
        NoCompletionThrough(pools, branch, target, amount, hops, pool.poolAddress, next);
      }
      NoCandidateLeft(pools, branch, target, amount, hops, ranked);
      return None;
    }

    /** The best path: a direct pool, else two hops through XLM, else the bounded search. */
    method FindBestPath(inputToken: Address, outputToken: Address, inputAmount: int)
      returns (path: SwapPath, routeType: RouteType)
      requires Valid()
      ensures inputToken != outputToken ==>
                (path.pools != [] <==> Reachable(pools, inputToken, outputToken, inputAmount))
      ensures inputToken != outputToken ==>
                (path.pools != []
                 <==> exists tokens, route, output ::
                        Connects(pools, inputToken, outputToken, inputAmount, 3, tokens, route, output))
      ensures path.pools == [] ==>
                path == SwapPath([inputToken, outputToken], [], 0, 0) && routeType == Direct
      ensures path.pools != [] ==>
                IsBestPath(pools, xlmToken, inputToken, outputToken, inputAmount, path, routeType)
    {
      var direct := FindDirectPath(inputToken, outputToken, inputAmount);
      if direct.Some? {
        var output := SwapOutput(direct.value, inputToken, inputAmount);
        if output.Some? {
          OneLegRoute(pools, direct.value.poolAddress, inputToken, outputToken, inputAmount);
          path := SwapPath([inputToken, outputToken], [direct.value.poolAddress], output.value, 0);
          assert inputToken != outputToken ==> IsRoute(pools, inputToken, outputToken, inputAmount, path);
          return path, Direct;
        }
      }
      assert forall k :: !RankedLeg(pools, k, inputToken, outputToken, inputAmount);
      if inputToken != xlmToken && outputToken != xlmToken {
        var xlmPath := FindXlmHopPath(inputToken, outputToken, inputAmount);
        if xlmPath.Some? {
          path := xlmPath.value;
          assert inputToken != outputToken ==> IsRoute(pools, inputToken, outputToken, inputAmount, path);
          return path, XLMHop;
        }
      }
      var multi := FindMultiHopPath(inputToken, outputToken, inputAmount);
      if multi.Some? {
        return multi.value, MultiHop;
      }
      return SwapPath([inputToken, outputToken], [], 0, 0), Direct;
    }

    // ---------- quotes ----------

    method CalculateOutputAmount(path: SwapPath, inputAmount: int) returns (amount: int)
      ensures |path.tokens| != |path.pools| + 1 || path.pools == [] ==> amount == 0
      ensures |path.tokens| == |path.pools| + 1 && path.pools != [] ==>
                amount == Replay(pools, path.tokens, path.pools, inputAmount)
    {
      if |path.tokens| != |path.pools| + 1 || path.pools == [] {
        return 0;
      }
      amount := inputAmount;
      for i := 0 to |path.pools|
        invariant Replay(pools, path.tokens, path.pools, inputAmount)
                  == Replay(pools, path.tokens[i..], path.pools[i..], amount)
      {
        assert path.tokens[i..][1..] == path.tokens[i + 1..] && path.pools[i..][1..] == path.pools[i + 1..];
        if path.pools[i] !in pools {
          return 0;
        }
        var pool := pools[path.pools[i]];
        var from, to := path.tokens[i], path.tokens[i + 1];
        if !((pool.tokenA == from && pool.tokenB == to) || (pool.tokenB == from && pool.tokenA == to)) {
          return 0;
        }
        var output := SwapOutput(pool, from, amount);
        if output.None? {
          return 0;
        }
        amount := output.value;
      }
    }

    /** A quote exists exactly for valid requests with a viable route, and prices that very route. */
    method GetQuote(inputToken: Address, outputToken: Address, inputAmount: int, maxSlippageBps: Option<nat>)
      returns (result: Result<SwapQuote, SwapError>)
      requires Valid()
      ensures result == Failure(InvalidPath) <==> inputAmount <= 0 || inputToken == outputToken
      ensures result == Failure(InvalidSlippage) <==>
                inputAmount > 0 && inputToken != outputToken
                && maxSlippageBps.Some? && maxSlippageBps.value > 100
      ensures result.Success? <==>
                && inputAmount > 0 && inputToken != outputToken
                && (maxSlippageBps.Some? ==> maxSlippageBps.value <= MAX_SLIPPAGE_BPS)
                && Reachable(pools, inputToken, outputToken, inputAmount)
      ensures result.Success? ==>
                var q := result.value;
                var slippage := if maxSlippageBps.Some? then maxSlippageBps.value else defaultSlippage;
                && IsBestPath(pools, xlmToken, inputToken, outputToken, inputAmount, q.path, q.routeType)
                && IsRoute(pools, inputToken, outputToken, inputAmount, q.path)
                && q.expectedOutput == q.path.expectedOutput && q.inputAmount == inputAmount
                && slippage <= MAX_SLIPPAGE_BPS && 0 < q.expectedOutput <= I128_MAX
                && q.minimumOutput == MinimumOutput(q.expectedOutput, slippage)
                && q.expectedOutput * 99 / 100 <= q.minimumOutput <= q.expectedOutput
                && q.minimumOutput == q.expectedOutput * (10_000 - slippage) / 10_000
                && q.priceImpactBps == q.path.priceImpactBps
                && q.protocolFee == q.expectedOutput * 25 / 10_000
      ensures result.Failure? ==> result.error in {InvalidPath, InvalidSlippage, NoPoolFound}
    {
      if !(inputAmount > 0 && inputToken != outputToken) {
        return Failure(InvalidPath);
      }
      var slippage := if maxSlippageBps.Some? then maxSlippageBps.value else defaultSlippage;
      if slippage > MAX_SLIPPAGE_BPS {
        return Failure(InvalidSlippage);
      }
      var path, routeType := FindBestPath(inputToken, outputToken, inputAmount);
      if path.pools == [] {
        return Failure(NoPoolFound);
      }
      ViableRouteReplays(pools, path.tokens, path.pools, inputAmount, path.expectedOutput);
      RouteOutputFits(pools, path.tokens, path.pools, inputAmount, path.expectedOutput);
      var expectedOutput := CalculateOutputAmount(path, inputAmount);
      MinimumOutputIsAntitone(expectedOutput, slippage, MAX_SLIPPAGE_BPS);
      MinimumOutputIsAntitone(expectedOutput, 0, slippage);
      var minimumOutput := MinimumOutput(expectedOutput, slippage);
      var protocolFee := ScaleBps(expectedOutput, PROTOCOL_TREASURY_FEE_BPS);
      return Success(SwapQuote(path, inputAmount, minimumOutput, expectedOutput, 0, protocolFee, routeType));
    }

    /** The direct quote: present exactly when some ranked pool serves the pair. */
    method GetDirectQuote(inputToken: Address, outputToken: Address, inputAmount: int)
      returns (quote: Option<SwapQuote>)
      requires Valid()
      ensures quote.Some? <==>
                inputToken != outputToken && exists k :: RankedLeg(pools, k, inputToken, outputToken, inputAmount)
      ensures quote.Some? ==>
                var q := quote.value;
                && |q.path.pools| == 1 && q.path.tokens == [inputToken, outputToken]
                && DeepestLeg(pools, q.path.pools[0], inputToken, outputToken, inputAmount)
                && Some(q.expectedOutput) == SwapOutput(pools[q.path.pools[0]], inputToken, inputAmount)
                && q.path.expectedOutput == q.expectedOutput && q.inputAmount == inputAmount
                && 0 < q.expectedOutput <= I128_MAX
                && q.minimumOutput == MinimumOutput(q.expectedOutput, defaultSlippage)
                && q.priceImpactBps == q.path.priceImpactBps
                && q.priceImpactBps == DirectSwap(pools[q.path.pools[0]], inputToken, inputAmount).1
                && q.protocolFee == q.expectedOutput * 25 / 10_000
                && q.routeType == Direct
    {
      if inputAmount <= 0 || inputToken == outputToken {
        return None;
      }
      var pool := FindDirectPath(inputToken, outputToken, inputAmount);
      if pool.None? {
        return None;
      }
      OutputFits(pool.value, inputToken, inputAmount);
      var (expectedOutput, priceImpact) := DirectSwap(pool.value, inputToken, inputAmount);
      var minimumOutput := MinimumOutput(expectedOutput, defaultSlippage);
      var protocolFee := ScaleBps(expectedOutput, PROTOCOL_TREASURY_FEE_BPS);
      var path := SwapPath([inputToken, outputToken], [pool.value.poolAddress], expectedOutput, priceImpact);
      return Some(SwapQuote(path, inputAmount, minimumOutput, expectedOutput, priceImpact, protocolFee, Direct));
    }
  }

  // ---------- steps of the search proof ----------

  /** No completion of the branch exists at all. */
  ghost predicate Incompletable(pools: Pools, visited: seq<Address>, target: Address, amount: int, hops: int) {
    forall tail, path, output :: !Completes(pools, visited, target, amount, hops, tail, path, output)
  }

  /** No completion of the branch starts with the pool `key`. */
  ghost predicate IncompletableVia(pools: Pools, visited: seq<Address>, target: Address, amount: int, hops: int,
                                   key: Address)
  {
    forall tail, path, output ::
      Completes(pools, visited, target, amount, hops, tail, path, output) ==> path[0] != key
  }

  /** The pool leads from `current` to a token that is not on the branch yet. */
  ghost predicate LeadsOn(pool: PoolInfo, current: Address, visited: seq<Address>) {
    pool.Neighbour(current).Some? && pool.Neighbour(current).value !in visited
  }

  ghost predicate IsCandidate(pools: Pools, current: Address, visited: seq<Address>, c: Candidate) {
    && c.pool.poolAddress in pools && pools[c.pool.poolAddress] == c.pool
    && LeadsOn(c.pool, current, visited) && c.pool.Neighbour(current).value == c.next
  }

  ghost predicate AllCandidates(pools: Pools, current: Address, visited: seq<Address>, candidates: seq<Candidate>) {
    && (forall c :: c in candidates ==> IsCandidate(pools, current, visited, c))
    && forall k :: k in pools && LeadsOn(pools[k], current, visited) ==>
         Candidate(pools[k], pools[k].Neighbour(current).value) in candidates
  }

  /** The candidates among the first `i` pools, in ascending order of their addresses. */
  ghost predicate Collected(pools: Pools, keys: seq<Address>, i: nat, current: Address, visited: seq<Address>,
                            candidates: seq<Candidate>)
  {
    && i <= |keys| && ListsAll(keys, pools)
    && (forall k :: 0 <= k < |candidates| ==>
          IsCandidate(pools, current, visited, candidates[k]) && candidates[k].pool.poolAddress in keys[..i])
    && (forall k, l :: 0 <= k < l < |candidates| ==>
          candidates[k].pool.poolAddress < candidates[l].pool.poolAddress)
    && forall k :: 0 <= k < i && LeadsOn(pools[keys[k]], current, visited) ==>
         Candidate(pools[keys[k]], pools[keys[k]].Neighbour(current).value) in candidates
  }

  lemma NothingCollected(pools: Pools, keys: seq<Address>, current: Address, visited: seq<Address>)
    requires ListsAll(keys, pools)
    ensures Collected(pools, keys, 0, current, visited, [])
  {
  }

  lemma OneMoreCollected(pools: Pools, keys: seq<Address>, i: nat, current: Address, visited: seq<Address>,
                         candidates: seq<Candidate>, candidates': seq<Candidate>)
    requires Collected(pools, keys, i, current, visited, candidates) && i < |keys| && Keyed(pools)
    requires
      var pool := pools[keys[i]];
      candidates' == if LeadsOn(pool, current, visited)
                     then candidates + [Candidate(pool, pool.Neighbour(current).value)] else candidates
    ensures Collected(pools, keys, i + 1, current, visited, candidates')
  {
    var pool := pools[keys[i]];
    assert pool.poolAddress == keys[i];
    assert keys[..i + 1] == keys[..i] + [keys[i]];
    forall k | 0 <= k < |candidates|
      ensures candidates[k].pool.poolAddress < keys[i] && candidates[k].pool.poolAddress in keys[..i + 1]
    {
      assert candidates[k].pool.poolAddress in keys[..i];
    }
    assert LeadsOn(pool, current, visited) ==>
        IsCandidate(pools, current, visited, Candidate(pool, pool.Neighbour(current).value));
    hide PoolInfo.Neighbour, IsCandidate, LeadsOn;
    forall k | 0 <= k < i + 1 && LeadsOn(pools[keys[k]], current, visited)
      ensures Candidate(pools[keys[k]], pools[keys[k]].Neighbour(current).value) in candidates'
    {
      assert pools[keys[k]].Neighbour(current).Some? by { LeadsSomewhere(pools[keys[k]], current, visited); }
    }
  }

  lemma LeadsSomewhere(pool: PoolInfo, current: Address, visited: seq<Address>)
    requires LeadsOn(pool, current, visited)
    ensures pool.Neighbour(current).Some?
  {
  }

  lemma AllCollected(pools: Pools, keys: seq<Address>, current: Address, visited: seq<Address>,
                     candidates: seq<Candidate>)
    requires Collected(pools, keys, |keys|, current, visited, candidates)
    ensures AllCandidates(pools, current, visited, candidates)
    ensures forall i, j :: 0 <= i < j < |candidates| ==>
              candidates[i].pool.poolAddress < candidates[j].pool.poolAddress
  {
    hide PoolInfo.Neighbour, IsCandidate;
    forall k | k in pools && LeadsOn(pools[k], current, visited)
      ensures Candidate(pools[k], pools[k].Neighbour(current).value) in candidates
    {
      assert k in keys;
    }
  }

  /** A search result extends the branch by a completion. */
  ghost predicate FoundFrom(pools: Pools, visited: seq<Address>, target: Address, amount: int, hops: int,
                            found: FoundPath)
  {
    && visited <= found.tokens
    && Completes(pools, visited, target, amount, hops, found.tokens[|visited|..], found.pools, found.output)
  }

  lemma NeighbourIsLeg(pool: PoolInfo, current: Address, next: Address, amount: int)
    requires pool.Neighbour(current) == Some(next)
    requires SwapOutput(pool, current, amount).Some? && SwapOutput(pool, current, amount).value > 0
    ensures ViableLeg(pool, current, next, amount)
  {
  }

  lemma FoundInOneLeg(pools: Pools, visited: seq<Address>, amount: int, hops: int, key: Address, target: Address)
    requires visited != [] && key in pools && ViableLeg(pools[key], visited[|visited| - 1], target, amount)
    requires Distinct(visited) && target !in visited && hops >= 1
    ensures FoundFrom(pools, visited, target, amount, hops,
                      FoundPath(visited + [target], [key], SwapOutput(pools[key], visited[|visited| - 1], amount).value))
  {
    var current := visited[|visited| - 1];
    OneLegRoute(pools, key, current, target, amount);
    assert [current] + [target] == [current, target];
    assert (visited + [target])[|visited|..] == [target];
  }

  lemma FoundThrough(pools: Pools, visited: seq<Address>, target: Address, amount: int, hops: int,
                     key: Address, next: Address, rest: FoundPath)
    requires visited != [] && key in pools && ViableLeg(pools[key], visited[|visited| - 1], next, amount)
    requires FoundFrom(pools, visited + [next], target, SwapOutput(pools[key], visited[|visited| - 1], amount).value,
                       hops - 1, rest)
    ensures FoundFrom(pools, visited, target, amount, hops, FoundPath(rest.tokens, [key] + rest.pools, rest.output))
  {
    var tail := rest.tokens[|visited| + 1..];
    CompleteThrough(pools, visited, target, amount, hops, key, next, tail, rest.pools, rest.output);
    assert rest.tokens[|visited|] == (visited + [next])[|visited|];
    assert rest.tokens[|visited|..] == [next] + tail;
  }

  /**
   The search prefers depth: at every level the pool taken is the deepest one that leads to the target,
   the lowest address among equally deep ones.
   */
  ghost predicate DeepestFirst(pools: Pools, visited: seq<Address>, target: Address, amount: int, hops: int,
                               tail: seq<Address>, path: seq<Address>)
    decreases |path|
  {
    && visited != [] && path != [] && |tail| == |path| && path[0] in pools
    && NoBetterCompletion(pools, visited, target, amount, hops, path[0])
    && (|path| > 1 ==>
          var carried := SwapOutput(pools[path[0]], visited[|visited| - 1], amount);
          && carried.Some?
          && DeepestFirst(pools, visited + [tail[0]], target, carried.value, hops - 1, tail[1..], path[1..]))
  }

  ghost predicate NoBetterCompletion(pools: Pools, visited: seq<Address>, target: Address, amount: int, hops: int,
                                     key: Address)
  {
    forall tail, path, output :: Completes(pools, visited, target, amount, hops, tail, path, output) ==>
      path[0] in pools && key in pools && NotBetter(pools, path[0], key)
  }

  /** `j` is shallower than `k`, or as deep with no lower address. */
  ghost predicate NotBetter(pools: Pools, j: Address, k: Address)
    requires j in pools && k in pools
  {
    || pools[j].DepthScore() < pools[k].DepthScore()
    || (pools[j].DepthScore() == pools[k].DepthScore() && k <= j)
  }

  /** Once all earlier candidates have failed, the current one is the best that can succeed. */
  lemma NoBetterFirstLeg(pools: Pools, visited: seq<Address>, target: Address, amount: int, hops: int,
                         ranked: seq<Candidate>, i: nat)
    requires visited != [] && Keyed(pools) && AllCandidates(pools, visited[|visited| - 1], visited, ranked)
    requires i < |ranked| && ByDepthDescending(ranked) && TiesInOrder(ranked)
    requires forall k :: 0 <= k < i ==>
               IncompletableVia(pools, visited, target, amount, hops, ranked[k].pool.poolAddress)
    ensures NoBetterCompletion(pools, visited, target, amount, hops, ranked[i].pool.poolAddress)
  {
    assert IsCandidate(pools, visited[|visited| - 1], visited, ranked[i]);
    forall tail, path, output | Completes(pools, visited, target, amount, hops, tail, path, output)
      ensures path[0] in pools && NotBetter(pools, path[0], ranked[i].pool.poolAddress)
    {
      FirstLegOfCompletion(pools, visited, target, amount, hops, tail, path, output);
      var m :| 0 <= m < |ranked| && ranked[m] == Candidate(pools[path[0]], tail[0]);
      assert m >= i;
    }
  }

  lemma DeepestInOneLeg(pools: Pools, visited: seq<Address>, target: Address, amount: int, hops: int, key: Address)
    requires visited != [] && key in pools
    requires NoBetterCompletion(pools, visited, target, amount, hops, key)
    ensures DeepestFirst(pools, visited, target, amount, hops, (visited + [target])[|visited|..], [key])
  {
    assert (visited + [target])[|visited|..] == [target];
  }

  lemma DeepestThrough(pools: Pools, visited: seq<Address>, target: Address, amount: int, hops: int,
                       key: Address, next: Address, rest: FoundPath)
    requires visited != [] && key in pools && SwapOutput(pools[key], visited[|visited| - 1], amount).Some?
    requires NoBetterCompletion(pools, visited, target, amount, hops, key)
    requires visited + [next] <= rest.tokens
    requires DeepestFirst(pools, visited + [next], target, SwapOutput(pools[key], visited[|visited| - 1], amount).value,
                          hops - 1, rest.tokens[|visited| + 1..], rest.pools)
    ensures DeepestFirst(pools, visited, target, amount, hops, rest.tokens[|visited|..], [key] + rest.pools)
  {
    var tail := rest.tokens[|visited| + 1..];
    assert rest.tokens[|visited|] == (visited + [next])[|visited|];
    assert rest.tokens[|visited|..] == [next] + tail;
    assert ([key] + rest.pools)[1..] == rest.pools && ([next] + tail)[1..] == tail;
  }

  /** At most one completion prefers depth throughout: the search result is determined by the pool set. */
  lemma {:induction false} DeepestFirstIsUnique(pools: Pools, visited: seq<Address>, target: Address, amount: int,
                                                hops: int, tail1: seq<Address>, path1: seq<Address>, output1: int,
                                                tail2: seq<Address>, path2: seq<Address>, output2: int)
    requires Completes(pools, visited, target, amount, hops, tail1, path1, output1)
    requires Completes(pools, visited, target, amount, hops, tail2, path2, output2)
    requires DeepestFirst(pools, visited, target, amount, hops, tail1, path1)
    requires DeepestFirst(pools, visited, target, amount, hops, tail2, path2)
    ensures tail1 == tail2 && path1 == path2 && output1 == output2
    decreases |path1|
  {
    FirstLegOfCompletion(pools, visited, target, amount, hops, tail1, path1, output1);
    FirstLegOfCompletion(pools, visited, target, amount, hops, tail2, path2, output2);
    assert NotBetter(pools, path1[0], path2[0]) && NotBetter(pools, path2[0], path1[0]);
    assert tail1 == [tail1[0]] + tail1[1..] && tail2 == [tail2[0]] + tail2[1..];
    assert path1 == [path1[0]] + path1[1..] && path2 == [path2[0]] + path2[1..];
    if tail1[0] == target {
      EndsAtTarget(pools, visited, target, amount, hops, tail1, path1, output1);
      EndsAtTarget(pools, visited, target, amount, hops, tail2, path2, output2);
    } else {
      var carried := SwapOutput(pools[path1[0]], visited[|visited| - 1], amount).value;
      DeepestFirstIsUnique(pools, visited + [tail1[0]], target, carried, hops - 1, tail1[1..], path1[1..], output1,
                           tail2[1..], path2[1..], output2);
    }
  }

  /** A completion that meets the target ends there. */
  lemma EndsAtTarget(pools: Pools, visited: seq<Address>, target: Address, amount: int, hops: int,
                     tail: seq<Address>, path: seq<Address>, output: int)
    requires Completes(pools, visited, target, amount, hops, tail, path, output)
    requires tail[0] == target
    ensures |path| == 1 && |tail| == 1
    ensures path[0] in pools && SwapOutput(pools[path[0]], visited[|visited| - 1], amount) == Some(output)
  {
    hide SwapOutput, ViableLeg;
    var current := visited[|visited| - 1];
    MeetsItselfOnlyAlone(visited, tail);
    OneLegOutput(pools, current, tail[0], path[0], amount, output, [current] + tail, path);
  }

  lemma MeetsItselfOnlyAlone(visited: seq<Address>, tail: seq<Address>)
    requires tail != [] && Distinct(visited + tail) && tail[0] == tail[|tail| - 1]
    ensures |tail| == 1
  {
    assert (visited + tail)[|visited|] == tail[0];
    assert (visited + tail)[|visited| + |tail| - 1] == tail[|tail| - 1];
  }

  lemma OneLegOutput(pools: Pools, from: Address, to: Address, key: Address, amount: int, output: int,
                     tokens: seq<Address>, path: seq<Address>)
    requires tokens == [from, to] && path == [key] && ViableRoute(pools, tokens, path, amount, output)
    ensures key in pools && SwapOutput(pools[key], from, amount) == Some(output)
  {
    hide SwapOutput;
    assert path[1..] == [];
  }

  /** Routing is a function of the pools, the tokens and the amount: no two best paths differ. */
  lemma BestPathIsUnique(pools: Pools, xlm: Address, from: Address, to: Address, amount: int,
                         path1: SwapPath, routeType1: RouteType, path2: SwapPath, routeType2: RouteType)
    requires from != to
    requires IsBestPath(pools, xlm, from, to, amount, path1, routeType1)
    requires IsBestPath(pools, xlm, from, to, amount, path2, routeType2)
    ensures path1 == path2 && routeType1 == routeType2
  {
    assert routeType1 == routeType2;
    match routeType1
    case Direct =>
      DeepestLegIsUnique(pools, path1.pools[0], path2.pools[0], from, to, amount);
      assert path1.pools == [path1.pools[0]] && path2.pools == [path2.pools[0]];
      SameRouteSameOutput(pools, amount, path1, path2);
    case XLMHop =>
      DeepestLegIsUnique(pools, path1.pools[0], path2.pools[0], from, xlm, amount);
      var carried := SwapOutput(pools[path1.pools[0]], from, amount).value;
      DeepestLegIsUnique(pools, path1.pools[1], path2.pools[1], xlm, to, carried);
      assert path1.pools == [path1.pools[0], path1.pools[1]] && path2.pools == [path2.pools[0], path2.pools[1]];
      SameRouteSameOutput(pools, amount, path1, path2);
    case MultiHop =>
      var tail1, tail2 := path1.tokens[1..], path2.tokens[1..];
      assert path1.tokens == [from] + tail1 && path2.tokens == [from] + tail2;
      CompletesFromStart(pools, from, to, amount, MAX_PATH_LENGTH, tail1, path1.pools, path1.expectedOutput);
      CompletesFromStart(pools, from, to, amount, MAX_PATH_LENGTH, tail2, path2.pools, path2.expectedOutput);
      DeepestFirstIsUnique(pools, [from], to, amount, MAX_PATH_LENGTH, tail1, path1.pools, path1.expectedOutput,
                           tail2, path2.pools, path2.expectedOutput);
  }

  lemma SameRouteSameOutput(pools: Pools, amount: int, path1: SwapPath, path2: SwapPath)
    requires path1.tokens == path2.tokens && path1.pools == path2.pools
    requires ViableRoute(pools, path1.tokens, path1.pools, amount, path1.expectedOutput)
    requires ViableRoute(pools, path2.tokens, path2.pools, amount, path2.expectedOutput)
    ensures path1.expectedOutput == path2.expectedOutput
  {
    ViableRouteReplays(pools, path1.tokens, path1.pools, amount, path1.expectedOutput);
    ViableRouteReplays(pools, path2.tokens, path2.pools, amount, path2.expectedOutput);
  }

  lemma NoCandidateLeft(pools: Pools, visited: seq<Address>, target: Address, amount: int, hops: int,
                        ranked: seq<Candidate>)
    requires visited != [] && Keyed(pools) && AllCandidates(pools, visited[|visited| - 1], visited, ranked)
    requires forall k :: 0 <= k < |ranked| ==>
               IncompletableVia(pools, visited, target, amount, hops, ranked[k].pool.poolAddress)
    ensures Incompletable(pools, visited, target, amount, hops)
  {
    forall tail, path, output
      ensures !Completes(pools, visited, target, amount, hops, tail, path, output)
    {
      if Completes(pools, visited, target, amount, hops, tail, path, output) {
        FirstLegOfCompletion(pools, visited, target, amount, hops, tail, path, output);
        assert false;
      }
    }
  }

  lemma NoCompletionWithoutOutput(pools: Pools, visited: seq<Address>, target: Address, amount: int, hops: int,
                                  key: Address)
    requires visited != [] && key in pools
    requires
      var output := SwapOutput(pools[key], visited[|visited| - 1], amount);
      output.None? || output.value <= 0
    ensures IncompletableVia(pools, visited, target, amount, hops, key)
  {
    forall tail, path, output | Completes(pools, visited, target, amount, hops, tail, path, output)
      ensures path[0] != key
    {
      FirstLegOfCompletion(pools, visited, target, amount, hops, tail, path, output);
    }
  }

  lemma NoCompletionThrough(pools: Pools, visited: seq<Address>, target: Address, amount: int, hops: int,
                            key: Address, next: Address)
    requires visited != [] && key in pools && next != target
    requires pools[key].Neighbour(visited[|visited| - 1]) == Some(next)
    requires SwapOutput(pools[key], visited[|visited| - 1], amount).Some?
    requires Incompletable(pools, visited + [next], target,
                           SwapOutput(pools[key], visited[|visited| - 1], amount).value, hops - 1)
    ensures IncompletableVia(pools, visited, target, amount, hops, key)
  {
    forall tail, path, output | Completes(pools, visited, target, amount, hops, tail, path, output)
      ensures path[0] != key
    {
      FirstLegOfCompletion(pools, visited, target, amount, hops, tail, path, output);
    }
  }

  lemma OutputFits(pool: PoolInfo, token: Address, amount: int)
    requires SwapOutput(pool, token, amount).Some?
    ensures 0 <= SwapOutput(pool, token, amount).value <= I128_MAX
  {
    var x, y, f, dy := QuoteFacts(pool, token, amount);
    var d := BPS_DIVISOR * x + amount * f;
    MulMonotone(1, d, dy);
  }

  lemma {:induction false} RouteOutputFits(pools: Pools, tokens: seq<Address>, path: seq<Address>, amount: int,
                                           output: int)
    requires path != [] && ViableRoute(pools, tokens, path, amount, output)
    ensures 0 < output <= I128_MAX
    decreases |path|
  {
    OutputFits(pools[path[0]], tokens[0], amount);
    if |path| > 1 {
      RouteOutputFits(pools, tokens[1..], path[1..], SwapOutput(pools[path[0]], tokens[0], amount).value, output);
    }
  }
}
