/** Price feeds with a bounded observation window that answers like the unbounded history. */
module OracleRegistry {
  import opened Wrappers
  import opened Integers

  const MAX_OBSERVATIONS: nat := 10

  const DEFAULT_FRESHNESS_SECS: nat := 300

  datatype OracleError = Unauthorized | FeedNotFound | FeedAlreadyExists | NotAuthorisedFeeder | NoFreshObservation

  datatype PriceObservation = PriceObservation(price: int, timestamp: nat)

  datatype OracleFeed = OracleFeed(
    authorisedFeeders: seq<Address>, freshnessThresholdSecs: nat, observations: seq<PriceObservation>,
    hasFallback: bool, fallbackPool: Address)

  type Feeds = map<Address, OracleFeed>

  predicate Fresh(obs: PriceObservation, threshold: nat, now: nat) {
    SaturatingSub(now, obs.timestamp) <= threshold
  }

  /** The latest observation that is fresh, wherever it stands. */
  ghost function LatestFresh(observations: seq<PriceObservation>, threshold: nat, now: nat): Option<int> {
    if observations == [] then None
    else
      var last := observations[|observations| - 1];
      if Fresh(last, threshold, now) then Some(last.price)
      else LatestFresh(observations[..|observations| - 1], threshold, now)
  }

  /** Price of a pool: its own latest fresh observation, else its fallback's. */
  ghost function PriceOf(feeds: Feeds, pool: Address, now: nat): Result<int, OracleError> {
    if pool !in feeds then Failure(FeedNotFound)
    else
      var feed := feeds[pool];
      var primary := LatestFresh(feed.observations, feed.freshnessThresholdSecs, now);
      if primary.Some? then Success(primary.value)
      else if feed.hasFallback && feed.fallbackPool in feeds then
        var fallback := feeds[feed.fallbackPool];
        match LatestFresh(fallback.observations, fallback.freshnessThresholdSecs, now)
        case Some(price) => Success(price)
        case None => Failure(NoFreshObservation)
      else Failure(NoFreshObservation)
  }

  // ---------- the window against the history ----------

  ghost predicate InTimeOrder(observations: seq<PriceObservation>, clock: nat) {
    && (forall i, j :: 0 <= i <= j < |observations| ==> observations[i].timestamp <= observations[j].timestamp)
    && (forall i :: 0 <= i < |observations| ==> observations[i].timestamp <= clock)
  }

  ghost function LastTen(history: seq<PriceObservation>): seq<PriceObservation> {
    if |history| <= MAX_OBSERVATIONS then history else history[|history| - MAX_OBSERVATIONS..]
  }

  /** The same feeds with each window replaced by everything ever published to it. */
  ghost function Unbounded(feeds: Feeds, histories: map<Address, seq<PriceObservation>>): Feeds
    requires feeds.Keys == histories.Keys
  {
    map p | p in feeds :: feeds[p].(observations := histories[p])
  }

  /** In time order the newest observation decides: if it is stale, so is every older one. */
  lemma {:induction false} NewestDecides(observations: seq<PriceObservation>, threshold: nat, now: nat, clock: nat)
    requires InTimeOrder(observations, clock)
    ensures LatestFresh(observations, threshold, now)
            == if observations != [] && Fresh(observations[|observations| - 1], threshold, now)
               then Some(observations[|observations| - 1].price) else None
  {
    if |observations| > 1 {
      var init := observations[..|observations| - 1];
      NewestDecides(init, threshold, now, clock);
      assert init[|init| - 1].timestamp <= observations[|observations| - 1].timestamp;
    }
  }

  lemma WindowAnswersLikeHistory(history: seq<PriceObservation>, threshold: nat, now: nat, clock: nat)
    requires InTimeOrder(history, clock)
    ensures LatestFresh(LastTen(history), threshold, now) == LatestFresh(history, threshold, now)
  {
    NewestDecides(history, threshold, now, clock);
    NewestDecides(LastTen(history), threshold, now, clock);
  }

  /** Dropping one entry of a full window keeps it the last ten of the history. */
  lemma WindowAfterAppend(history: seq<PriceObservation>, window: seq<PriceObservation>, obs: PriceObservation,
                          clock: nat)
    requires window == LastTen(history) && InTimeOrder(history, clock) && clock <= obs.timestamp
    ensures LastTen(history + [obs])
            == (if |window| >= MAX_OBSERVATIONS then window[1..] else window) + [obs]
    ensures InTimeOrder(history + [obs], obs.timestamp)
  {
  }

  /** The newest thing ever published for the pool is young enough, and carries this price. */
  ghost predicate Answers(feeds: Feeds, histories: map<Address, seq<PriceObservation>>, pool: Address, now: nat,
                          price: int)
  {
    && pool in feeds && pool in histories && histories[pool] != []
    && var newest := histories[pool][|histories[pool]| - 1];
       now - newest.timestamp <= feeds[pool].freshnessThresholdSecs && newest.price == price
  }

  class OracleRegistry {
    const admin: Address
    var feeds: Feeds
    /** Everything ever published, per feed, and the latest ledger time. */
    ghost var histories: map<Address, seq<PriceObservation>>
    ghost var clock: nat

    ghost predicate Valid()
      reads this
    {
      && feeds.Keys == histories.Keys
      && forall p :: p in feeds ==>
           InTimeOrder(histories[p], clock) && feeds[p].observations == LastTen(histories[p])
    }

    constructor (admin: Address)
      ensures Valid() && feeds == map[] && this.admin == admin
    {
      this.admin, feeds, histories, clock := admin, map[], map[], 0;
    }

    method RegisterFeed(caller: Address, pool: Address, feeders: seq<Address>, thresholdSecs: nat,
                        fallbackPool: Address, hasFallback: bool)
      returns (result: Result<(), OracleError>)
      requires Valid()
      modifies this`feeds, this`histories
      ensures Valid()
      ensures result == Failure(Unauthorized) <==> caller != admin
      ensures result == Failure(FeedAlreadyExists) <==> caller == admin && pool in old(feeds)
      ensures result.Failure? ==> feeds == old(feeds) && histories == old(histories)
      ensures result.Success? ==>
                && histories == old(histories)[pool := []]
                && feeds == old(feeds)[pool := OracleFeed(
                     feeders, if thresholdSecs == 0 then 300 else thresholdSecs, [],
                     hasFallback, fallbackPool)]
    {
      if caller != admin {
        return Failure(Unauthorized);
      }
      if pool in feeds {
        return Failure(FeedAlreadyExists);
      }
      var threshold := if thresholdSecs == 0 then DEFAULT_FRESHNESS_SECS else thresholdSecs;
      feeds := feeds[pool := OracleFeed(feeders, threshold, [], hasFallback, fallbackPool)];
      histories := histories[pool := []];
      return Success(());
    }

    method SetFreshnessThreshold(caller: Address, pool: Address, thresholdSecs: nat)
      returns (result: Result<(), OracleError>)
      requires Valid()
      modifies this`feeds
      ensures Valid()
      ensures result.Success? <==> caller == admin && pool in old(feeds)
      ensures feeds == if result.Success?
                       then old(feeds)[pool := old(feeds)[pool].(freshnessThresholdSecs := thresholdSecs)]
                       else old(feeds)
    {
      if caller != admin {
        return Failure(Unauthorized);
      }
      if pool !in feeds {
        return Failure(FeedNotFound);
      }
      feeds := feeds[pool := feeds[pool].(freshnessThresholdSecs := thresholdSecs)];
      return Success(());
    }

    /** Append an observation, dropping the oldest one of a full window. */
    method PublishPrice(feeder: Address, pool: Address, price: int, now: nat)
      returns (result: Result<(), OracleError>)
      requires Valid() && clock <= now
      modifies this
      ensures Valid()
      ensures result == Failure(FeedNotFound) <==> pool !in old(feeds)
      ensures result == Failure(NotAuthorisedFeeder) <==>
              pool in old(feeds) && feeder !in old(feeds)[pool].authorisedFeeders
      ensures result.Failure? ==> feeds == old(feeds) && histories == old(histories)
      ensures result.Success? ==>
                && clock == now
                && histories == old(histories)[pool := old(histories)[pool] + [PriceObservation(price, now)]]
                && feeds == old(feeds)[pool := old(feeds)[pool].(observations := LastTen(histories[pool]))]
                && feeds[pool].observations == if |histories[pool]| <= 10 then histories[pool]
                                               else histories[pool][|histories[pool]| - 10..]
    {
      if pool !in feeds {
        return Failure(FeedNotFound);
      }
      var feed := feeds[pool];
      var authorised := IsAuthorised(feed.authorisedFeeders, feeder);
      if !authorised {
        return Failure(NotAuthorisedFeeder);
      }
      var obs := PriceObservation(price, now);
      var observations := AppendObservation(feed.observations, obs);
      WindowAfterAppend(histories[pool], feed.observations, obs, clock);
      feeds := feeds[pool := feed.(observations := observations)];
      histories := histories[pool := histories[pool] + [obs]];
      clock := now;
      return Success(());
    }

    method IsAuthorised(feeders: seq<Address>, feeder: Address) returns (authorised: bool)
      ensures authorised <==> feeder in feeders
    {
      authorised := false;
      for i := 0 to |feeders|
        invariant authorised <==> feeder in feeders[..i]
      {
        if feeders[i] == feeder {
          return true;
        }
      }
    }

    /** Push an observation; a window that is already full first loses its oldest entry. */
    method AppendObservation(observations: seq<PriceObservation>, obs: PriceObservation)
      returns (window: seq<PriceObservation>)
      ensures window == (if |observations| >= MAX_OBSERVATIONS then observations[1..] else observations) + [obs]
    {
      window := observations;
      if |window| >= MAX_OBSERVATIONS {
        var trimmed := [];
        var len := |window|;
        for i := 1 to len
          invariant trimmed == window[1..i]
        {
          trimmed := trimmed + [window[i]];
        }
        window := trimmed;
      }
      window := window + [obs];
    }

    method LatestFreshPrice(feed: OracleFeed, now: nat) returns (price: Option<int>)
      ensures price == LatestFresh(feed.observations, feed.freshnessThresholdSecs, now)
    {
      var i := |feed.observations|;
      assert feed.observations[..i] == feed.observations;
      while i > 0
        invariant i <= |feed.observations|
        invariant LatestFresh(feed.observations, feed.freshnessThresholdSecs, now)
                  == LatestFresh(feed.observations[..i], feed.freshnessThresholdSecs, now)
      {
        i := i - 1;
        assert feed.observations[..i + 1][..i] == feed.observations[..i];
        var obs := feed.observations[i];
        var age := SaturatingSub(now, obs.timestamp);
        if age <= feed.freshnessThresholdSecs {
          return Some(obs.price);
        }
      }
      return None;
    }

    /** The price on the windows is the price on the unbounded histories, fallback and failures included. */
    method GetPrice(pool: Address, now: nat) returns (result: Result<int, OracleError>)
      requires Valid()
      ensures result == PriceOf(feeds, pool, now)
      ensures result == PriceOf(Unbounded(feeds, histories), pool, now)
      ensures result == Failure(FeedNotFound) <==> pool !in feeds
      ensures forall price :: result == Success(price)
                <==> || Answers(feeds, histories, pool, now, price)
                     || (&& pool in feeds && feeds[pool].hasFallback
                         && (forall own :: !Answers(feeds, histories, pool, now, own))
                         && Answers(feeds, histories, feeds[pool].fallbackPool, now, price))
      ensures result.Failure? ==> result.error in {FeedNotFound, NoFreshObservation}
    {
      WindowsAnswerLikeHistories(pool, now);
      PriceIsAnswered(pool, now);
      if pool !in feeds {
        return Failure(FeedNotFound);
      }
      var feed := feeds[pool];
      var primary := LatestFreshPrice(feed, now);
      if primary.Some? {
        return Success(primary.value);
      }
      if feed.hasFallback {
        if feed.fallbackPool in feeds {
          var price := LatestFreshPrice(feeds[feed.fallbackPool], now);
          if price.Some? {
            return Success(price.value);
          }
        }
      }
      return Failure(NoFreshObservation);
    }

    /** A feed answers exactly with its newest publication, if that is young enough. */
    lemma LatestAnswers(pool: Address, now: nat)
      requires Valid() && pool in feeds
      ensures forall price ::
                LatestFresh(feeds[pool].observations, feeds[pool].freshnessThresholdSecs, now) == Some(price)
                <==> Answers(feeds, histories, pool, now, price)
    {
      WindowAnswersLikeHistory(histories[pool], feeds[pool].freshnessThresholdSecs, now, clock);
      NewestDecides(histories[pool], feeds[pool].freshnessThresholdSecs, now, clock);
    }

    /** The price of a pool is its own answer, and only without one its fallback's. */
    lemma PriceIsAnswered(pool: Address, now: nat)
      requires Valid()
      ensures PriceOf(feeds, pool, now) == Failure(FeedNotFound) <==> pool !in feeds
      ensures forall price :: PriceOf(feeds, pool, now) == Success(price)
                <==> || Answers(feeds, histories, pool, now, price)
                     || (&& pool in feeds && feeds[pool].hasFallback
                         && (forall own :: !Answers(feeds, histories, pool, now, own))
                         && Answers(feeds, histories, feeds[pool].fallbackPool, now, price))
      ensures PriceOf(feeds, pool, now).Failure? ==>
                PriceOf(feeds, pool, now).error in {FeedNotFound, NoFreshObservation}
    {
      if pool in feeds {
        LatestAnswers(pool, now);
        var own := LatestFresh(feeds[pool].observations, feeds[pool].freshnessThresholdSecs, now);
        assert own.Some? ==> Answers(feeds, histories, pool, now, own.value);
        if feeds[pool].fallbackPool in feeds {
          LatestAnswers(feeds[pool].fallbackPool, now);
        }
      }
      hide LatestFresh;
    }

    lemma WindowsAnswerLikeHistories(pool: Address, now: nat)
      requires Valid()
      ensures PriceOf(feeds, pool, now) == PriceOf(Unbounded(feeds, histories), pool, now)
    {
      forall p | p in feeds
        ensures LatestFresh(feeds[p].observations, feeds[p].freshnessThresholdSecs, now)
                == LatestFresh(histories[p], feeds[p].freshnessThresholdSecs, now)
      {
        WindowAnswersLikeHistory(histories[p], feeds[p].freshnessThresholdSecs, now, clock);
      }
    }
  }
}
