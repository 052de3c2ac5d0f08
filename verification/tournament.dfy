/** The production elimination tournament: the pool is cut into batches,
    each batch is rendered as a labelled collage and judged, the selected
    candidates of all batches are pooled and deduplicated, and rounds repeat
    until at most one candidate is left. A round that keeps the pool's size
    counts as a stalemate: after the first the judging prompt gains a
    directive to narrow the choice, after the second an arbitrary survivor
    wins. Downloads, the judge, the order in which deduplication leaves the
    survivors and the arbitrary choice of a winner are oracles. */
module Tournament {
  import opened Seqs
  import Batching
  import Labels
  import Collage

  type Url = string

  /** Whether candidate `pos` of batch `batch` in round `round` downloads and decodes. */
  type Fetch = (nat, nat, nat) -> bool

  /** What the judge is shown: the round, the batch, the effective prompt and
      the candidates of the collage, tile by tile. */
  datatype JudgeCall = JudgeCall(round: nat, batch: nat, prompt: string, shown: seq<Url>)

  /** The labels the judge returns for one collage. */
  type Judge = JudgeCall -> seq<int>

  /** Appended to the prompt while a stalemate is in progress. */
  const StalemateDirective: string :=
    "\n\n重要指示: 你必须进行筛选。请从以上图片中，严格挑选出一张或几张最符合描述的图片。如果所有图片都符合，请只选择最优秀的一张。"

  /** The prompt of a round: the user's prompt, followed by the directive
      once a stalemate has been seen. */
  function EffectivePrompt(prompt: string, stalemate: nat): (p: string)
    ensures stalemate == 0 ==> p == prompt
    ensures stalemate > 0 ==> p == prompt + StalemateDirective
  {
    if stalemate > 0 then prompt + StalemateDirective else prompt
  }

  /** The download oracle of one batch. */
  function Downloads(fetch: Fetch, round: nat, k: nat): nat -> bool
  {
    (pos: nat) => fetch(round, k, pos)
  }

  /** The candidates one batch contributes: nothing when no image of the
      batch renders, otherwise the candidates the judge's labels name. */
  function BatchWinners(round: nat, k: nat, batch: seq<Url>, prompt: string, fetch: Fetch, judge: Judge): (w: seq<Url>)
    ensures forall u :: u in w ==> u in batch
  {
    match Collage.CreateCollage(batch, Downloads(fetch, round, k))
    case NoCollage => []
    case Rendered(_, shown) => Labels.MapLabels(judge(JudgeCall(round, k, prompt, shown)), shown)
  }

  /** The winners of batches `k, k + 1, ...`, concatenated in batch order. */
  function BatchesWinners(round: nat, batches: seq<seq<Url>>, k: nat, prompt: string, fetch: Fetch, judge: Judge): (w: seq<Url>)
    ensures forall u :: u in w ==> exists j :: 0 <= j < |batches| && u in batches[j]
    decreases |batches|
  {
    if |batches| == 0 then []
    else
      var first := BatchWinners(round, k, batches[0], prompt, fetch, judge);
      var rest := BatchesWinners(round, batches[1..], k + 1, prompt, fetch, judge);
      assert forall u :: u in rest ==> exists j :: 0 <= j < |batches| && u in batches[j] by {
        forall u | u in rest ensures exists j :: 0 <= j < |batches| && u in batches[j] {
          var j :| 0 <= j < |batches| - 1 && u in batches[1..][j];
          assert u in batches[j + 1];
        }
      }
      first + rest
  }

  /** The survivors of a round, before deduplication. A negative batch size
      gives an empty range of batches and so no survivors. */
  function Survivors(round: nat, pool: seq<Url>, batchSize: int, prompt: string, fetch: Fetch, judge: Judge): (w: seq<Url>)
    requires batchSize != 0
    ensures forall u :: u in w ==> u in pool
  {
    if batchSize < 0 then []
    else
      var batches := Batching.Batches(pool, batchSize);
      var w := BatchesWinners(round, batches, 0, prompt, fetch, judge);
      assert forall u :: u in w ==> u in pool by {
        forall u | u in w ensures u in pool {
          var j :| 0 <= j < |batches| && u in batches[j];
          Batching.BatchMember(pool, batchSize, j, u);
        }
      }
      w
  }

  /** The order `list(set(xs))` happens to produce in round `round`: the
      interpreter's hash order, which the program does not control. */
  type Arrange = (nat, seq<Url>) -> seq<Url>

  /** What `list(set(xs))` guarantees whatever the order: every element of
      `xs` exactly once. */
  ghost predicate Deduplicates(arrange: Arrange)
  {
    forall r, xs :: Elems(arrange(r, xs)) == Elems(xs) && Distinct(arrange(r, xs))
  }

  /** The index `random.choice` draws from the final pool of round `round`,
      taken modulo the pool's length. */
  type Choose = (nat, seq<Url>) -> nat

  /** How the tournament ended: a winner, `None`, or the `ValueError` that
      `range` raises for a batch size of zero. */
  datatype Outcome = Winner(url: Url) | NoWinner | BatchSizeError

  /** One round: its number, the pool it started from, the stalemate counter
      it started with, the prompt it used, the survivors of its batches, the
      deduplicated next pool and the stalemate counter it ended with. */
  datatype RoundLog = RoundLog(
    number: nat, pool: seq<Url>, stalemate: nat, prompt: string,
    survivors: seq<Url>, next: seq<Url>, stalemateAfter: nat)

  /** The outcome together with the log of the rounds played. */
  datatype Run = Run(result: Outcome, rounds: seq<RoundLog>)

  /** The stalemate counter grows exactly when the pool kept its size and
      still holds more than one candidate; otherwise it drops to zero. */
  function NextStalemate(counter: nat, before: nat, after: nat): (c: nat)
    ensures c > 0 <==> after == before && after > 1
    ensures c > 0 ==> c == counter + 1
  {
    if after == before && after > 1 then counter + 1 else 0
  }

  /** One round from `pool` with stalemate counter `counter`: the effective
      prompt, the batch survivors and, when there are any, the deduplicated
      next pool. */
  function PlayRound(round: nat, pool: seq<Url>, counter: nat, prompt: string, batchSize: int,
                     fetch: Fetch, judge: Judge, arrange: Arrange): (log: RoundLog)
    requires batchSize != 0 && Deduplicates(arrange)
    ensures log.number == round && log.pool == pool && log.stalemate == counter
    ensures Elems(log.next) == Elems(log.survivors) && Distinct(log.next)
    ensures forall u :: u in log.next ==> u in pool
    ensures |log.next| <= |pool|
    ensures log.survivors != [] <==> log.next != []
  {
    var effective := EffectivePrompt(prompt, counter);
    var survivors := Survivors(round, pool, batchSize, effective, fetch, judge);
    var next := if survivors == [] then [] else arrange(round, survivors);
    assert survivors != [] ==> survivors[0] in Elems(next);
    assert forall u :: u in next ==> u in Elems(survivors) by {
      forall u | u in next ensures u in Elems(survivors) {
        assert u in Elems(next);
      }
    }
    ElemsSubsetCard(survivors, pool);
    ElemsCard(next);
    RoundLog(round, pool, counter, effective, survivors, next, NextStalemate(counter, |pool|, |next|))
  }

  /** A round played by the rules, given the oracles. */
  ghost predicate PlayedByRules(log: RoundLog, prompt: string, batchSize: int, fetch: Fetch, judge: Judge)
    requires batchSize != 0
  {
    && log.prompt == EffectivePrompt(prompt, log.stalemate)
    && log.survivors == Survivors(log.number, log.pool, batchSize, log.prompt, fetch, judge)
    && Elems(log.next) == Elems(log.survivors) && Distinct(log.next)
    && log.stalemateAfter == NextStalemate(log.stalemate, |log.pool|, |log.next|)
  }

  /** Rounds follow one another: each later round starts from its
      predecessor's next pool and counter, and only a round that left
      survivors, no second stalemate and more than one candidate is followed
      by another. */
  ghost predicate Chained(rounds: seq<RoundLog>)
  {
    forall k :: 0 <= k < |rounds| - 1 ==>
      && rounds[k + 1].number == rounds[k].number + 1
      && rounds[k + 1].pool == rounds[k].next
      && rounds[k + 1].stalemate == rounds[k].stalemateAfter
      && rounds[k].survivors != [] && rounds[k].stalemateAfter < 2 && |rounds[k].next| > 1
  }

  /** How the last round decides the outcome: no survivors give `None`; a
      second stalemate gives an arbitrary member of the next pool; otherwise
      the next pool has shrunk to one candidate, which wins. */
  ghost predicate Concludes(result: Outcome, last: RoundLog)
  {
    if last.survivors == [] then result == NoWinner
    else if last.stalemateAfter >= 2 then result.Winner? && result.url in last.next
    else |last.next| == 1 && result == Winner(last.next[0])
  }

  ghost predicate FetchesAll(fetch: Fetch)
  {
    forall r, b, p :: fetch(r, b, p)
  }

  ghost predicate FetchesNone(fetch: Fetch)
  {
    forall r, b, p :: !fetch(r, b, p)
  }

  /** A judge that selects every tile it is shown. */
  ghost predicate ApprovesAll(judge: Judge)
  {
    forall c :: judge(c) == Labels.AllLabels(|c.shown|)
  }

  /** The rounds from `pool` on, starting with round number `round` and
      stalemate counter `counter`. A winner is one of the pool; there are at
      most two rounds per candidate. */
  function PlayFrom(pool: seq<Url>, round: nat, counter: nat, prompt: string, batchSize: int,
                    fetch: Fetch, judge: Judge, arrange: Arrange, choose: Choose): (t: Run)
    requires batchSize != 0 || |pool| <= 1
    requires counter <= 1 && (counter > 0 ==> |pool| > 1)
    requires Deduplicates(arrange)
    ensures t.result.Winner? ==> t.result.url in pool
    ensures t.result != BatchSizeError
    ensures |t.rounds| + counter <= 2 * |pool|
    ensures |pool| <= 1 <==> t.rounds == []
    ensures t.rounds != [] ==> t.rounds[0].number == round && t.rounds[0].pool == pool && t.rounds[0].stalemate == counter
    decreases |pool|, 2 - counter
  {
    if |pool| <= 1 then
      Run(if |pool| == 0 then NoWinner else Winner(pool[0]), [])
    else
      var log := PlayRound(round, pool, counter, prompt, batchSize, fetch, judge, arrange);
      if log.survivors == [] then Run(NoWinner, [log])
      else if log.stalemateAfter >= 2 then
        Run(Winner(log.next[choose(round, log.next) % |log.next|]), [log])
      else
        var rest := PlayFrom(log.next, round + 1, log.stalemateAfter, prompt, batchSize, fetch, judge, arrange, choose);
        Run(rest.result, [log] + rest.rounds)
  }

  /** The log of `PlayFrom`: every round is played by the rules, each round
      starts where the previous one left off, and the last round decides the
      outcome. */
  lemma {:induction false} PlayFromLog(pool: seq<Url>, round: nat, counter: nat, prompt: string, batchSize: int,
                                       fetch: Fetch, judge: Judge, arrange: Arrange, choose: Choose)
    requires batchSize != 0 || |pool| <= 1
    requires counter <= 1 && (counter > 0 ==> |pool| > 1)
    requires Deduplicates(arrange)
    ensures var t := PlayFrom(pool, round, counter, prompt, batchSize, fetch, judge, arrange, choose);
      && Chained(t.rounds)
      && (|pool| > 1 ==> Concludes(t.result, t.rounds[|t.rounds| - 1]))
      && (batchSize != 0 ==> forall r :: r in t.rounds ==> PlayedByRules(r, prompt, batchSize, fetch, judge))
    decreases |pool|, 2 - counter
  {
    if |pool| > 1 {
      var log := PlayRound(round, pool, counter, prompt, batchSize, fetch, judge, arrange);
      RoundByRules(round, pool, counter, prompt, batchSize, fetch, judge, arrange);
      PlayFromStep(pool, round, counter, prompt, batchSize, fetch, judge, arrange, choose);
      if log.survivors != [] && log.stalemateAfter < 2 {
        PlayFromLog(log.next, round + 1, log.stalemateAfter, prompt, batchSize, fetch, judge, arrange, choose);
        var rest := PlayFrom(log.next, round + 1, log.stalemateAfter, prompt, batchSize, fetch, judge, arrange, choose);
        ChainCons(log, rest.rounds);
      }
    }
  }

  lemma RoundByRules(round: nat, pool: seq<Url>, counter: nat, prompt: string, batchSize: int,
                     fetch: Fetch, judge: Judge, arrange: Arrange)
    requires batchSize != 0 && Deduplicates(arrange)
    ensures PlayedByRules(PlayRound(round, pool, counter, prompt, batchSize, fetch, judge, arrange), prompt, batchSize, fetch, judge)
  {
  }

  /** A round can be put in front of a chained log that starts where it left
      off, provided it left survivors, no second stalemate and more than one
      candidate. */
  lemma ChainCons(log: RoundLog, rest: seq<RoundLog>)
    requires Chained(rest)
    requires rest != [] ==>
      && log.survivors != [] && log.stalemateAfter < 2 && |log.next| > 1
      && rest[0].number == log.number + 1 && rest[0].pool == log.next && rest[0].stalemate == log.stalemateAfter
    ensures Chained([log] + rest)
    ensures ([log] + rest)[|rest|] == if rest == [] then log else rest[|rest| - 1]
  {
    var all := [log] + rest;
    assert forall k :: 1 <= k < |all| ==> all[k] == rest[k - 1];
  }

  /** The tournament over `imageUrls`. */
  function ProcessInBatches(imageUrls: seq<Url>, prompt: string, batchSize: int,
                            fetch: Fetch, judge: Judge, arrange: Arrange, choose: Choose): (t: Run)
    requires Deduplicates(arrange)
    ensures t.result.Winner? ==> t.result.url in imageUrls
    ensures |imageUrls| <= 1 ==> t == Run(if |imageUrls| == 0 then NoWinner else Winner(imageUrls[0]), [])
    ensures |imageUrls| > 1 && batchSize == 0 ==> t == Run(BatchSizeError, [])
    ensures |t.rounds| <= 2 * |imageUrls|
    ensures |imageUrls| > 1 && batchSize != 0 ==>
      && t.rounds != [] && t.rounds[0].number == 1 && t.rounds[0].pool == imageUrls && t.rounds[0].stalemate == 0
      && Concludes(t.result, t.rounds[|t.rounds| - 1])
    ensures Chained(t.rounds)
    ensures batchSize != 0 ==> forall r :: r in t.rounds ==> PlayedByRules(r, prompt, batchSize, fetch, judge)
  {
    if |imageUrls| > 1 && batchSize == 0 then Run(BatchSizeError, [])
    else
      PlayFromLog(imageUrls, 1, 0, prompt, batchSize, fetch, judge, arrange, choose);
      PlayFrom(imageUrls, 1, 0, prompt, batchSize, fetch, judge, arrange, choose)
  }

  /** When no download ever succeeds, the first round has no survivors and
      the tournament ends with no winner. */
  lemma NoDownloadsNoWinner(imageUrls: seq<Url>, prompt: string, batchSize: int,
                            fetch: Fetch, judge: Judge, arrange: Arrange, choose: Choose)
    requires |imageUrls| > 1 && batchSize != 0
    requires FetchesNone(fetch) && Deduplicates(arrange)
    ensures var t := ProcessInBatches(imageUrls, prompt, batchSize, fetch, judge, arrange, choose);
      t.result == NoWinner && |t.rounds| == 1 && t.rounds[0].survivors == []
  {
    NothingRenders(1, imageUrls, batchSize, prompt, fetch, judge);
  }

  /** A round in which everything renders and the judge approves every tile
      keeps the whole (duplicate-free) pool and counts as a stalemate. */
  lemma ApprovedRound(round: nat, pool: seq<Url>, counter: nat, prompt: string, batchSize: int,
                      fetch: Fetch, judge: Judge, arrange: Arrange)
    requires batchSize > 0 && |pool| > 1 && Distinct(pool)
    requires FetchesAll(fetch) && ApprovesAll(judge) && Deduplicates(arrange)
    ensures var log := PlayRound(round, pool, counter, prompt, batchSize, fetch, judge, arrange);
      && log.survivors == pool && Distinct(log.next) && |log.next| == |pool|
      && log.stalemateAfter == counter + 1
  {
    var log := PlayRound(round, pool, counter, prompt, batchSize, fetch, judge, arrange);
    RoundByRules(round, pool, counter, prompt, batchSize, fetch, judge, arrange);
    EverythingApproved(round, pool, batchSize, log.prompt, fetch, judge);
    ElemsCard(pool);
    ElemsCard(log.next);
  }

  /** One round of `PlayFrom` on a pool of more than one candidate: the
      round is logged first, and the tournament stops or continues from its
      next pool. */
  lemma PlayFromStep(pool: seq<Url>, round: nat, counter: nat, prompt: string, batchSize: int,
                     fetch: Fetch, judge: Judge, arrange: Arrange, choose: Choose)
    requires batchSize != 0 && |pool| > 1 && counter <= 1
    requires Deduplicates(arrange)
    ensures var log := PlayRound(round, pool, counter, prompt, batchSize, fetch, judge, arrange);
      var t := PlayFrom(pool, round, counter, prompt, batchSize, fetch, judge, arrange, choose);
      && (log.survivors == [] ==> t == Run(NoWinner, [log]))
      && (log.survivors != [] && log.stalemateAfter >= 2 ==> t.rounds == [log] && t.result.Winner?)
      && (log.survivors != [] && log.stalemateAfter < 2 ==>
            var rest := PlayFrom(log.next, round + 1, log.stalemateAfter, prompt, batchSize, fetch, judge, arrange, choose);
            t == Run(rest.result, [log] + rest.rounds))
  {
  }

  /** Once a stalemate is in progress, a second approving round ends the
      tournament with an arbitrary candidate. */
  lemma SecondStalemate(pool: seq<Url>, round: nat, prompt: string, batchSize: int,
                        fetch: Fetch, judge: Judge, arrange: Arrange, choose: Choose)
    requires |pool| > 1 && batchSize > 0 && Distinct(pool)
    requires FetchesAll(fetch) && ApprovesAll(judge) && Deduplicates(arrange)
    ensures var t := PlayFrom(pool, round, 1, prompt, batchSize, fetch, judge, arrange, choose);
      && |t.rounds| == 1 && t.rounds[0].stalemateAfter == 2
      && t.rounds[0].prompt == prompt + StalemateDirective
      && t.result.Winner?
  {
    ApprovedRound(round, pool, 1, prompt, batchSize, fetch, judge, arrange);
    PlayFromStep(pool, round, 1, prompt, batchSize, fetch, judge, arrange, choose);
  }

  /** A judge that approves everything is overruled: the first two rounds
      both keep every candidate, the second under the stalemate directive,
      and after the second stalemate an arbitrary candidate wins. */
  lemma ApprovingJudgeOverruled(imageUrls: seq<Url>, prompt: string, batchSize: int,
                                fetch: Fetch, judge: Judge, arrange: Arrange, choose: Choose)
    requires |imageUrls| > 1 && batchSize > 0 && Distinct(imageUrls)
    requires FetchesAll(fetch) && ApprovesAll(judge) && Deduplicates(arrange)
    ensures var t := ProcessInBatches(imageUrls, prompt, batchSize, fetch, judge, arrange, choose);
      && |t.rounds| == 2 && t.rounds[0].stalemateAfter == 1 && t.rounds[1].stalemateAfter == 2
      && t.rounds[1].prompt == prompt + StalemateDirective
      && t.result.Winner?
  {
    var first := PlayRound(1, imageUrls, 0, prompt, batchSize, fetch, judge, arrange);
    ApprovedRound(1, imageUrls, 0, prompt, batchSize, fetch, judge, arrange);
    PlayFromStep(imageUrls, 1, 0, prompt, batchSize, fetch, judge, arrange, choose);
    SecondStalemate(first.next, 2, prompt, batchSize, fetch, judge, arrange, choose);
  }

  /** When no image of any batch renders, a round has no survivors. */
  lemma NothingRenders(round: nat, pool: seq<Url>, batchSize: int, prompt: string, fetch: Fetch, judge: Judge)
    requires batchSize != 0 && FetchesNone(fetch)
    ensures Survivors(round, pool, batchSize, prompt, fetch, judge) == []
  {
    if batchSize > 0 {
      NothingRendersFrom(round, Batching.Batches(pool, batchSize), 0, prompt, fetch, judge);
    }
  }

  lemma {:induction false} NothingRendersFrom(round: nat, batches: seq<seq<Url>>, k: nat, prompt: string, fetch: Fetch, judge: Judge)
    requires FetchesNone(fetch)
    ensures BatchesWinners(round, batches, k, prompt, fetch, judge) == []
    decreases |batches|
  {
    if |batches| > 0 {
      NothingRendersFrom(round, batches[1..], k + 1, prompt, fetch, judge);
      var c := Collage.CreateCollage(batches[0], Downloads(fetch, round, k));
      assert c.NoCollage?;
    }
  }

  /** When everything renders and the judge approves every tile, a round
      keeps the whole pool, in order. */
  lemma EverythingApproved(round: nat, pool: seq<Url>, batchSize: int, prompt: string, fetch: Fetch, judge: Judge)
    requires batchSize > 0 && FetchesAll(fetch) && ApprovesAll(judge)
    ensures Survivors(round, pool, batchSize, prompt, fetch, judge) == pool
  {
    EverythingApprovedFrom(round, Batching.Batches(pool, batchSize), 0, prompt, fetch, judge);
  }

  lemma {:induction false} EverythingApprovedFrom(round: nat, batches: seq<seq<Url>>, k: nat, prompt: string, fetch: Fetch, judge: Judge)
    requires FetchesAll(fetch) && ApprovesAll(judge)
    ensures BatchesWinners(round, batches, k, prompt, fetch, judge) == Flatten(batches)
    decreases |batches|
  {
    if |batches| > 0 {
      EverythingApprovedFrom(round, batches[1..], k + 1, prompt, fetch, judge);
      BatchApproved(round, k, batches[0], prompt, fetch, judge);
    }
  }

  lemma BatchApproved(round: nat, k: nat, b: seq<Url>, prompt: string, fetch: Fetch, judge: Judge)
    requires FetchesAll(fetch) && ApprovesAll(judge)
    ensures BatchWinners(round, k, b, prompt, fetch, judge) == b
  {
    BatchRendersWhole(round, k, b, fetch);
    JudgeApproves(judge, JudgeCall(round, k, prompt, b));
    ApprovedCollage(round, k, b, prompt, fetch, judge);
  }

  lemma JudgeApproves(judge: Judge, call: JudgeCall)
    requires ApprovesAll(judge)
    ensures judge(call) == Labels.AllLabels(|call.shown|)
  {
  }

  lemma BatchRendersWhole(round: nat, k: nat, b: seq<Url>, fetch: Fetch)
    requires FetchesAll(fetch)
    ensures Collage.CreateCollage(b, Downloads(fetch, round, k)).Shown() == b
  {
    var fetched := Downloads(fetch, round, k);
    assert forall i :: 0 <= i < |b| ==> fetched(i);
    Collage.AllFetched(b, fetched);
  }

  lemma ApprovedCollage(round: nat, k: nat, b: seq<Url>, prompt: string, fetch: Fetch, judge: Judge)
    requires Collage.CreateCollage(b, Downloads(fetch, round, k)).Shown() == b
    requires judge(JudgeCall(round, k, prompt, b)) == Labels.AllLabels(|b|)
    ensures BatchWinners(round, k, b, prompt, fetch, judge) == b
  {
    Labels.ApproveAll(b);
  }
}
