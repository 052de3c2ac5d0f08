/** The reference elimination tournament of the command-line tool: batches of
    16, each rendered by the reference renderer (tiles in download-completion
    order) and judged by a selector callback; the selected candidates of all
    batches, repeats included, form the next pool. A round without winners
    and an empty input raise exceptions instead of returning `None`.

    Nothing guarantees that a round shrinks the pool, so the loop is given a
    number of rounds `fuel`; running out of it stands for a loop that has not
    ended. */
module ReferenceTournament {
  import opened Wrappers
  import opened Seqs
  import Batching
  import Labels
  import Collage
  import Tournament

  type Url = Tournament.Url

  /** The fixed batch size of the reference loop. */
  const BatchSize: nat := 16

  /** The download-completion order of batch `batch` in round `round`, as
      `Collage.CompletionOrder` consumes it. */
  type Pick = (nat, nat) -> (nat -> nat)

  /** What the selector callback is given: the collage of batch `batch` in
      round `round`, which shows `shown` tile by tile, and its tile count. */
  datatype Showing = Showing(round: nat, batch: nat, shown: seq<Url>)

  /** The selector callback: the 1-based labels it returns for a collage. */
  type Selector = Showing -> seq<int>

  /** How the reference tournament ends: a winner, the `ValueError` for an
      empty input, the `RuntimeError` for a round without winners, the
      `RuntimeError` for a final pool without a winner, or a loop that was
      still going after `fuel` rounds. */
  datatype RefOutcome = RefWinner(url: Url) | EmptyInput | NoWinners | NoFinalWinner | OutOfFuel

  /** The candidates one batch contributes: nothing when no image of the
      batch renders, otherwise the candidates the selector's labels name. */
  function RefBatchWinners(round: nat, k: nat, batch: seq<Url>, fetch: Tournament.Fetch, pick: Pick, select: Selector): (w: seq<Url>)
    ensures forall u :: u in w ==> u in batch
  {
    match Collage.CreateImageCollage(batch, Tournament.Downloads(fetch, round, k), pick(round, k))
    case NoCollage => []
    case Rendered(_, shown) => Labels.MapLabels(select(Showing(round, k, shown)), shown)
  }

  /** The winners of batches `k, k + 1, ...`, concatenated in batch order. */
  function RefBatchesWinners(round: nat, batches: seq<seq<Url>>, k: nat, fetch: Tournament.Fetch, pick: Pick, select: Selector): (w: seq<Url>)
    ensures forall u :: u in w ==> exists j :: 0 <= j < |batches| && u in batches[j]
    decreases |batches|
  {
    if |batches| == 0 then []
    else
      var first := RefBatchWinners(round, k, batches[0], fetch, pick, select);
      var rest := RefBatchesWinners(round, batches[1..], k + 1, fetch, pick, select);
      assert forall u :: u in rest ==> exists j :: 0 <= j < |batches| && u in batches[j] by {
        forall u | u in rest ensures exists j :: 0 <= j < |batches| && u in batches[j] {
          var j :| 0 <= j < |batches| - 1 && u in batches[1..][j];
          assert u in batches[j + 1];
        }
      }
      first + rest
  }

  /** The next pool of a round: the winners of its batches of 16, not
      deduplicated. Every one of them comes from the pool. */
  function RefSurvivors(round: nat, pool: seq<Url>, fetch: Tournament.Fetch, pick: Pick, select: Selector): (w: seq<Url>)
    ensures forall u :: u in w ==> u in pool
  {
    var batches := Batching.Batches(pool, BatchSize);
    var w := RefBatchesWinners(round, batches, 0, fetch, pick, select);
    assert forall u :: u in w ==> u in pool by {
      forall u | u in w ensures u in pool {
        var j :| 0 <= j < |batches| && u in batches[j];
        Batching.BatchMember(pool, BatchSize, j, u);
      }
    }
    w
  }

  /** One round of a reference loop: the next pool, from the round number and
      the current pool. */
  type Advance = (nat, seq<Url>) -> seq<Url>

  /** The round of the command-line tool's loop. */
  function RefRound(fetch: Tournament.Fetch, pick: Pick, select: Selector): Advance
  {
    (round: nat, pool: seq<Url>) => RefSurvivors(round, pool, fetch, pick, select)
  }

  /** A round whose next pool only holds candidates of its pool. */
  ghost predicate Narrows(advance: Advance)
  {
    forall round, pool, u :: u in advance(round, pool) ==> u in pool
  }

  /** A round that keeps the pool's size. */
  ghost predicate KeepsSize(advance: Advance)
  {
    forall round, pool :: |advance(round, pool)| == |pool|
  }

  /** A round that leaves fewer candidates than a pool of two or more held. */
  ghost predicate Shrinks(advance: Advance)
  {
    forall round, pool :: |pool| > 1 ==> |advance(round, pool)| < |pool|
  }

  /** The rounds from `pool` on, at most `fuel` of them. A winner comes from
      the pool when every round narrows, and a non-empty pool never ends
      without a winner for lack of candidates. */
  function RefLoop(pool: seq<Url>, round: nat, fuel: nat, advance: Advance): (r: RefOutcome)
    ensures Narrows(advance) ==> r.RefWinner? ==> r.url in pool
    ensures pool != [] ==> r != NoFinalWinner
    ensures r != EmptyInput
    decreases fuel
  {
    if |pool| <= 1 then
      if |pool| == 0 then NoFinalWinner else RefWinner(pool[0])
    else if fuel == 0 then OutOfFuel
    else
      var next := advance(round, pool);
      if next == [] then NoWinners
      else RefLoop(next, round + 1, fuel - 1, advance)
  }

  lemma RoundNarrows(fetch: Tournament.Fetch, pick: Pick, select: Selector)
    ensures Narrows(RefRound(fetch, pick, select))
  {
    var advance := RefRound(fetch, pick, select);
    forall round, pool, u | u in advance(round, pool) ensures u in pool {
      assert advance(round, pool) == RefSurvivors(round, pool, fetch, pick, select);
    }
  }

  /** The reference tournament over `imageUrls`, allowed `fuel` rounds. */
  function RefTournament(imageUrls: seq<Url>, fuel: nat, fetch: Tournament.Fetch, pick: Pick, select: Selector): (r: RefOutcome)
    ensures r == EmptyInput <==> imageUrls == []
    ensures r.RefWinner? ==> r.url in imageUrls
    ensures r != NoFinalWinner
    ensures |imageUrls| == 1 ==> r == RefWinner(imageUrls[0])
  {
    if imageUrls == [] then EmptyInput
    else
      RoundNarrows(fetch, pick, select);
      RefLoop(imageUrls, 1, fuel, RefRound(fetch, pick, select))
  }

  /** A loop whose rounds keep the pool's size never ends on a pool of two or
      more: however many rounds are allowed, they run out. */
  lemma {:induction false} SizeKeepingNeverEnds(pool: seq<Url>, round: nat, fuel: nat, advance: Advance)
    requires |pool| > 1 && KeepsSize(advance)
    ensures RefLoop(pool, round, fuel, advance) == OutOfFuel
    decreases fuel
  {
    if fuel > 0 {
      assert |advance(round, pool)| == |pool|;
      SizeKeepingNeverEnds(advance(round, pool), round + 1, fuel - 1, advance);
    }
  }

  /** A loop whose rounds shrink the pool ends within as many rounds as the
      pool has candidates. */
  lemma {:induction false} ShrinkingEnds(pool: seq<Url>, round: nat, fuel: nat, advance: Advance)
    requires Shrinks(advance) && fuel >= |pool|
    ensures RefLoop(pool, round, fuel, advance) != OutOfFuel
    decreases fuel
  {
    if |pool| > 1 {
      var next := advance(round, pool);
      assert |next| < |pool|;
      if next != [] {
        ShrinkingEnds(next, round + 1, fuel - 1, advance);
      }
    }
  }

  /** A selector that names every tile it is shown. */
  ghost predicate SelectsAll(select: Selector)
  {
    forall s :: select(s) == Labels.AllLabels(|s.shown|)
  }

  /** A selector that names at most one tile. */
  ghost predicate SelectsAtMostOne(select: Selector)
  {
    forall s :: |select(s)| <= 1
  }

  lemma SelectsAllAt(select: Selector, s: Showing)
    requires SelectsAll(select)
    ensures select(s) == Labels.AllLabels(|s.shown|)
  {
  }

  /** With every download succeeding and every tile selected, a batch keeps
      all of its candidates (possibly reordered). */
  lemma ApprovedBatchKeepsSize(round: nat, k: nat, b: seq<Url>, fetch: Tournament.Fetch, pick: Pick, select: Selector)
    requires Tournament.FetchesAll(fetch) && SelectsAll(select)
    ensures |RefBatchWinners(round, k, b, fetch, pick, select)| == |b|
  {
    if |b| > 0 {
      var fetched := Tournament.Downloads(fetch, round, k);
      assert forall i :: 0 <= i < |b| ==> fetched(i);
      Collage.ImageCollageAllFetched(b, fetched, pick(round, k));
      var shown := Collage.CreateImageCollage(b, fetched, pick(round, k)).Shown();
      SelectsAllAt(select, Showing(round, k, shown));
      Labels.ApproveAll(shown);
    }
  }

  lemma {:induction false} ApprovedBatchesKeepSize(round: nat, batches: seq<seq<Url>>, k: nat, fetch: Tournament.Fetch, pick: Pick, select: Selector)
    requires Tournament.FetchesAll(fetch) && SelectsAll(select)
    ensures |RefBatchesWinners(round, batches, k, fetch, pick, select)| == |Flatten(batches)|
    decreases |batches|
  {
    if |batches| > 0 {
      ApprovedBatchesKeepSize(round, batches[1..], k + 1, fetch, pick, select);
      ApprovedBatchKeepsSize(round, k, batches[0], fetch, pick, select);
    }
  }

  lemma ApprovedSurvivorsKeepSize(round: nat, pool: seq<Url>, fetch: Tournament.Fetch, pick: Pick, select: Selector)
    requires Tournament.FetchesAll(fetch) && SelectsAll(select)
    ensures |RefSurvivors(round, pool, fetch, pick, select)| == |pool|
  {
    ApprovedBatchesKeepSize(round, Batching.Batches(pool, BatchSize), 0, fetch, pick, select);
  }

  /** A selector that approves everything never lets the reference
      tournament end: with every download succeeding, every round keeps the
      pool's size. */
  lemma ApprovingSelectorNeverEnds(imageUrls: seq<Url>, fuel: nat, fetch: Tournament.Fetch, pick: Pick, select: Selector)
    requires |imageUrls| > 1
    requires Tournament.FetchesAll(fetch) && SelectsAll(select)
    ensures RefTournament(imageUrls, fuel, fetch, pick, select) == OutOfFuel
  {
    var advance := RefRound(fetch, pick, select);
    forall round, pool ensures |advance(round, pool)| == |pool| {
      ApprovedSurvivorsKeepSize(round, pool, fetch, pick, select);
    }
    SizeKeepingNeverEnds(imageUrls, 1, fuel, advance);
  }

  /** With a selector naming at most one tile, a batch contributes at most
      one candidate. */
  lemma {:induction false} SingleChoiceBatches(round: nat, batches: seq<seq<Url>>, k: nat, fetch: Tournament.Fetch, pick: Pick, select: Selector)
    requires SelectsAtMostOne(select)
    ensures |RefBatchesWinners(round, batches, k, fetch, pick, select)| <= |batches|
    decreases |batches|
  {
    if |batches| > 0 {
      SingleChoiceBatches(round, batches[1..], k + 1, fetch, pick, select);
      var c := Collage.CreateImageCollage(batches[0], Tournament.Downloads(fetch, round, k), pick(round, k));
      if c.Rendered? {
        assert |select(Showing(round, k, c.urls))| <= 1;
      }
    }
  }

  /** With a selector naming at most one tile, a round leaves fewer
      candidates than it started with. */
  lemma SingleChoiceShrinks(round: nat, pool: seq<Url>, fetch: Tournament.Fetch, pick: Pick, select: Selector)
    requires SelectsAtMostOne(select) && |pool| > 1
    ensures |RefSurvivors(round, pool, fetch, pick, select)| < |pool|
  {
    SingleChoiceBatches(round, Batching.Batches(pool, BatchSize), 0, fetch, pick, select);
    Batching.FewerBatches(pool, BatchSize);
  }

  /** With a selector naming at most one tile, the reference tournament ends
      within as many rounds as there are candidates: each round leaves at
      most one candidate per batch of 16, fewer than the pool held. */
  lemma SingleChoiceEnds(imageUrls: seq<Url>, fuel: nat, fetch: Tournament.Fetch, pick: Pick, select: Selector)
    requires SelectsAtMostOne(select) && fuel >= |imageUrls|
    ensures RefTournament(imageUrls, fuel, fetch, pick, select) != OutOfFuel
  {
    var advance := RefRound(fetch, pick, select);
    forall round, pool | |pool| > 1 ensures |advance(round, pool)| < |pool| {
      SingleChoiceShrinks(round, pool, fetch, pick, select);
    }
    if imageUrls != [] {
      ShrinkingEnds(imageUrls, 1, fuel, advance);
    }
  }

  /** When no image downloads, the reference tournament over two or more
      candidates stops in its first round without winners. */
  lemma NothingDownloads(imageUrls: seq<Url>, fuel: nat, fetch: Tournament.Fetch, pick: Pick, select: Selector)
    requires |imageUrls| > 1 && fuel > 0 && Tournament.FetchesNone(fetch)
    ensures RefTournament(imageUrls, fuel, fetch, pick, select) == NoWinners
  {
    var advance := RefRound(fetch, pick, select);
    NothingDownloadsFrom(1, Batching.Batches(imageUrls, BatchSize), 0, fetch, pick, select);
    assert advance(1, imageUrls) == [];
    EmptyRoundStops(imageUrls, 1, fuel, advance);
  }

  /** A round that leaves nobody stops the loop without winners. */
  lemma EmptyRoundStops(pool: seq<Url>, round: nat, fuel: nat, advance: Advance)
    requires |pool| > 1 && fuel > 0 && advance(round, pool) == []
    ensures RefLoop(pool, round, fuel, advance) == NoWinners
  {
  }

  lemma {:induction false} NothingDownloadsFrom(round: nat, batches: seq<seq<Url>>, k: nat, fetch: Tournament.Fetch, pick: Pick, select: Selector)
    requires Tournament.FetchesNone(fetch)
    ensures RefBatchesWinners(round, batches, k, fetch, pick, select) == []
    decreases |batches|
  {
    if |batches| > 0 {
      NothingDownloadsFrom(round, batches[1..], k + 1, fetch, pick, select);
      var c := Collage.CreateImageCollage(batches[0], Tournament.Downloads(fetch, round, k), pick(round, k));
      assert c.NoCollage?;
    }
  }

  /** The command-line callback: the judge's optional single answer, range
      checked against the collage's tile count. */
  function Callback(answer: Showing -> Option<int>): (select: Selector)
    ensures forall s :: |select(s)| <= 1
    ensures forall s :: select(s) != [] <==> answer(s).Some? && 1 <= answer(s).value <= |s.shown|
    ensures forall s :: select(s) != [] ==> select(s) == [answer(s).value]
  {
    var select := (s: Showing) => Labels.SingleLabel(answer(s), |s.shown|);
    assert forall s :: select(s) == Labels.SingleLabel(answer(s), |s.shown|);
    select
  }

  /** The command-line tool's tournament always ends within as many rounds
      as there are candidates, whatever the judge answers. */
  lemma CallbackEnds(imageUrls: seq<Url>, fetch: Tournament.Fetch, pick: Pick, answer: Showing -> Option<int>)
    ensures RefTournament(imageUrls, |imageUrls|, fetch, pick, Callback(answer)) != OutOfFuel
  {
    var select := Callback(answer);
    assert SelectsAtMostOne(select) by {
      forall s ensures |select(s)| <= 1 {
        assert select(s) == Labels.SingleLabel(answer(s), |s.shown|);
      }
    }
    SingleChoiceEnds(imageUrls, |imageUrls|, fetch, pick, select);
  }

  /** Repeated labels make the pool grow: two candidates that both download,
      judged by a selector that answers `[1, 1, 1]`, become three. */
  lemma RepeatedLabelsGrowPool(round: nat, pool: seq<Url>, fetch: Tournament.Fetch, pick: Pick, select: Selector)
    requires |pool| == 2
    requires Tournament.FetchesAll(fetch)
    requires forall s :: select(s) == [1, 1, 1]
    ensures |RefSurvivors(round, pool, fetch, pick, select)| == 3
  {
    var batches := Batching.Batches(pool, BatchSize);
    assert batches == [pool];
    var fetched := Tournament.Downloads(fetch, round, 0);
    assert forall i :: 0 <= i < |pool| ==> fetched(i);
    Collage.ImageCollageAllFetched(pool, fetched, pick(round, 0));
    var shown := Collage.CreateImageCollage(pool, fetched, pick(round, 0)).Shown();
    assert select(Showing(round, 0, shown)) == [1, 1, 1];
    ThreeOnes(shown);
    assert RefBatchesWinners(round, batches[1..], 1, fetch, pick, select) == [];
  }

  lemma ThreeOnes(shown: seq<Url>)
    requires |shown| == 2
    ensures |Labels.ValidLabels([1, 1, 1], |shown|)| == 3
  {
    assert [1, 1, 1][1..] == [1, 1];
    assert [1, 1][1..] == [1];
    assert [1][1..] == [];
  }
}
