# Elimination-tournament selection, modelled in Dafny

This project models the selection engine of the `astrbot_plugin_pic_search`
plugin. The engine takes a pool of image URLs and repeatedly:

- cuts the pool into batches;
- renders each batch as a grid collage with numbered tiles;
- asks a visual judge which labels match a description;
- keeps the candidates the judge named.

Rounds repeat until one candidate is left. There are two variants of the loop:

- **Production** (`main.py`, `composer.py`, `vlm.py`). Batches have a
  configurable size. Survivors are deduplicated through `list(set(...))`. A
  stalemate counter deals with a judge that never narrows the pool. The first
  stalemate adds a directive to the prompt. The second one picks an arbitrary
  survivor. A round without winners, or an empty input, returns `None`.
- **Reference** (`refenrence/image_composer.py`, `refenrence/main_scraper.py`).
  Batches hold 16 candidates and survivors are not deduplicated. There is no
  stalemate handling. An empty input and a round without winners raise
  exceptions. The command-line judge callback passes on at most one in-range
  label.

Everything outside the selection logic becomes a parameter:

- **Downloads** are an oracle `fetch(round, batch, position)`. It stands for
  "the image downloads and decodes".
- **The judge** is an oracle from what it is shown to a list of labels.
- **`json.loads`** is an oracle from a string to an optional JSON value.
- **Provider calls** are an oracle from the attempt number to an optional
  reply. `None` stands for a call that raised.
- **The order `list(set(xs))` produces** is an oracle `arrange`. It is only
  constrained to return every element of `xs` exactly once.
- **`random.choice`** is an oracle index into the final pool.
- **The completion order of `as_completed`** is built from a `pick` oracle.
  Any completion order can be expressed this way.

Modules:

| module | file | models |
|---|---|---|
| `Seqs` | seqs.dfy | `Flatten`, `Distinct`, `Elems` (Python's `set(s)`) and their cardinality facts |
| `Decimal` | decimal.dfy | `str(n)`, `int(s)` and `isdigit()` over ASCII digits |
| `Batching` | batching.dfy | `for i in range(0, n, size): pool[i:i + size]` |
| `Labels` | labels.dfy | 1-based labels mapped back to candidates; the single-label range guard |
| `Grid` | grid.dfy | tile positions, canvas size and tile labels of a collage |
| `Collage` | collage.dfy | which candidates each renderer shows, in which order |
| `Verdict` | verdict.dfy | the reply parser and retry loop of `select_from_collage` |
| `Tournament` | tournament.dfy | `_process_in_batches`, with a log of every round |
| `ReferenceTournament` | reference.dfy | the reference `process_in_batches` and its callback |

The production loop is modelled by `Tournament.PlayFrom`, which terminates on
the measure `(|pool|, 2 - counter)`:

- deduplication never grows the pool;
- a round that keeps the pool's size raises the counter;
- a counter of 2 ends the loop.

The reference loop has no such measure. When every download succeeds, a judge
that approves everything keeps the pool's size forever
(`ApprovingSelectorNeverEnds`); a failed download still drops its candidate.
A judge that repeats a label makes the pool grow (`RepeatedLabelsGrowPool`). The loop
`ReferenceTournament.RefLoop` therefore runs for at most `fuel` rounds and
reports `OutOfFuel` after that. It is proved to end within `|pool|` rounds
whenever the judge names at most one tile per collage. The command-line
callback is such a judge (`CallbackEnds`).

The loop is parameterised by its round (`Advance`), so these termination facts
are proved once for any round that keeps the pool's size (`SizeKeepingNeverEnds`)
or shrinks it (`ShrinkingEnds`). They are then applied to the real round.

`main.py` adds only the stalemate directive of main.py:93-100 to the prompt;
there is no directive for a final round. `_process_in_batches` does not
deduplicate its argument. Its callers' scrapers do (scraper.py:55-57 and
refenrence/bing_image_scraper.py:72-74), but the model of either loop accepts
any pool, duplicates included.

## Model

| member | source | states |
|---|---|---|
| Decimal.ShowNat | composer.py:78 | `str(n)` of a non-negative integer is a non-empty digit string with no leading zero (unless it is `"0"`); it is one character long exactly for `n < 10` |
| Decimal.ParseShow | composer.py:78 | reading back the decimal label of a number with `int` gives the number |
| Decimal.ShowInjective | composer.py:78 | different numbers get different labels |
| Decimal.IsDigits | vlm.py:63 | `str.isdigit()` over ASCII: a non-empty string of digits |
| Decimal.ParseNat | vlm.py:63-79 | `int(s)` of a digit string, leading zeros allowed; it is zero exactly when every digit is `0` |
| Decimal.ShowParse | vlm.py:79 | `str(int(s)) == s` for a digit string with no leading zero: with `ParseShow`, `int` and `str` are inverse bijections between the naturals and such strings |
| Batching.Batches | main.py:102-104 | the batches of `range(0, n, size)` slicing are non-empty, at most `size` long, all full except the last, and concatenate back to the pool; there are none exactly when the pool is empty |
| Batching.BatchCount | main.py:102 | the number of batches is ceil(n / size), stated without division |
| Batching.BatchMember | main.py:103 | every member of a batch is a member of the pool |
| Batching.FewerBatches | refenrence/image_composer.py:172-180 | with batch size at least 2, a pool of two or more has fewer batches than candidates |
| Labels.ValidLabels | main.py:121-124 | only labels `1 <= k <= n` pass the range check, and never more labels than were returned |
| Labels.ValidLabelsAppend | main.py:121-124 | the range check works label by label: filtering a concatenation is concatenating the filtered parts, so order and repeated labels are kept |
| Labels.ValidLabelsSingle | main.py:121-124 | one label is kept exactly when it lies in `1..n` |
| Labels.ValidLabelsIff | main.py:121-124 | a label passes exactly when it was returned and lies in `1..n`, so no label is invented |
| Labels.MapLabels | main.py:120-124 | one candidate per in-range label, in label order, namely `urls[k - 1]`; out-of-range labels add nothing; every selected candidate was shown |
| Labels.SelectedIff | refenrence/image_composer.py:201-207 | a candidate is selected if and only if some in-range label names its tile |
| Labels.SelectedNamed | main.py:121-124 | every selected candidate is named by some returned in-range label |
| Labels.NamedSelected | main.py:121-124 | every returned in-range label selects its candidate |
| Labels.ApproveAll | main.py:120-124 | the labels `1..n` select every shown candidate, in order |
| Labels.NoneInRange | main.py:121-126 | labels that all fall outside the collage select nothing |
| Labels.SingleLabel | refenrence/main_scraper.py:87-99 | no answer gives `[]`; an answer in `1..numImages` gives `[answer]`; any other answer gives `[]`; the result has at most one element, and it is in range |
| Grid.Rows | composer.py:65 | `math.ceil(n / columns)`: the fewest rows that hold `n` tiles, zero exactly for no tiles |
| Grid.TileAt | composer.py:73-78 | tile `i` is placed at `(i % columns * tileSize, i // columns * tileSize)` and labelled `str(i + 1)`; its guarantees are the contracts of `Grid.TileInsideCanvas`, `Grid.TilesDisjoint` and `Grid.LabelsOneToN` |
| Grid.GridLayout | composer.py:64-66 | one tile per image; the canvas is `columns * tileSize` wide and `rows * tileSize` high |
| Grid.LayoutRows | composer.py:64-66 | the layout has exactly ceil(n / columns) rows (`Grid.Rows`), so the canvas is `Rows(n, columns) * tileSize` high |
| Grid.RowColumnInRange | composer.py:74 | tile `i`'s row `i // columns` is a row of the canvas, and its column `i % columns` one of its columns |
| Grid.TileInsideCanvas | composer.py:73-76 | every tile lies wholly inside the canvas |
| Grid.TilesDisjoint | composer.py:73-76 | the squares of two different tiles do not overlap |
| Grid.LabelsOneToN | composer.py:78 | tile `i`'s label is a digit string that reads back as `i + 1` |
| Grid.LabelsDistinct | composer.py:78 | different tiles carry different labels |
| Collage.KeptFrom | composer.py:50-57 | the kept positions are ascending, each one succeeded, and every successful position is kept |
| Collage.CreateCollage | composer.py:45-66 | there is no collage exactly when nothing downloads; otherwise the shown candidates are the successful ones in input order, tile `i` shows `urls[idx[i]]`, and the layout has one tile per shown candidate |
| Collage.AllFetched | composer.py:45-57 | when every download succeeds, the collage shows the whole batch, in order |
| Collage.LabelBoxInsideTile | composer.py:79-82 | the label box `[x + 5, y + 5, x + 28, y + 28]` lies inside its own 256-pixel tile |
| Collage.CompletionOrder | refenrence/image_composer.py:86-95 | a completion order visits every pending position exactly once |
| Collage.Succeeded | refenrence/image_composer.py:95-100 | the positions kept in completion order are exactly the completed positions whose download succeeded, with no repeats |
| Collage.CreateImageCollage | refenrence/image_composer.py:80-103 | an empty batch, or one where nothing succeeds, gives no collage; otherwise the shown candidates are exactly the successful ones (as a set), duplicate-free when the batch is, and laid out one per tile |
| Collage.ImageCollageTiles | refenrence/image_composer.py:86-100 | one tile per successful download: counted with multiplicity, the shown candidates are the successful candidates of the batch, so a candidate listed and downloaded twice is shown twice |
| Collage.SelectPermutation | refenrence/image_composer.py:95-100 | collecting the successful candidates in any completion order yields the same candidates with the same multiplicities |
| Collage.ImageCollageAllFetched | refenrence/image_composer.py:95-100 | when every download of a non-empty batch succeeds, every candidate is shown |
| Verdict.JsonSpan | vlm.py:55-57 | the greedy `\{.*\}` match starts at the first `{` and ends just after the last `}`; there is none exactly when no `}` follows a `{` |
| Verdict.SpanText | vlm.py:55-57 | the text handed to `json.loads` is the matched span, which opens with `{` and closes with `}` |
| Verdict.StructuredIndices | vlm.py:55-60 | a list is found exactly when there is a JSON span and it decodes to an object whose `selected_indices` is a list; the list found is that field's value |
| Verdict.Accepted | vlm.py:63 | `isinstance(n, (int, str)) and str(n).isdigit()`: a non-negative integer or a digit string |
| Verdict.LabelOf | vlm.py:63 | `int(n)`: an integer is itself, and a digit string written the way `str` writes numbers is the decimal text of the label |
| Verdict.AcceptedLabels | vlm.py:63 | the filter keeps at most the listed elements; all are kept exactly when all are accepted, and none exactly when none is |
| Verdict.AcceptedAppend | vlm.py:63 | the filter works element by element, in order |
| Verdict.AcceptedSingle | vlm.py:63 | an accepted element becomes `int(n)`; any other element is dropped |
| Verdict.AcceptedRoundTrip | vlm.py:63 | a label given as a number, or as that number's decimal string, is read back as itself |
| Verdict.RejectedKinds | vlm.py:63 | negative numbers, booleans, floats, nulls, lists and objects are dropped |
| Verdict.DigitRuns | vlm.py:72 | `re.findall(r'\d+', s)` returns non-empty digit strings |
| Verdict.RunsHoldDigits | vlm.py:72 | the runs, concatenated, are exactly the digits of the reply, in order |
| Verdict.RunsSplit | vlm.py:72 | no run crosses a non-digit character |
| Verdict.WholeRun | vlm.py:72 | a string of digits is a single run, so runs are maximal |
| Verdict.RunValues | vlm.py:79 | one integer per run, in order and with duplicates kept: run `k` becomes `int(runs[k])`, which is zero exactly when the run is all zeros |
| Verdict.RunValuesShow | vlm.py:79 | a run without a leading zero is the decimal text of its value, so the fallback reads back exactly the numbers the reply spells |
| Verdict.ParseReply | vlm.py:52-79 | in the fallback, the reply yields one label per digit run, and `[]` exactly when it holds no digit |
| Verdict.StructuredHit | vlm.py:55-63 | when the span decodes to an object whose `selected_indices` is a list, the labels are that list's accepted elements, converted, in order, whatever else the reply holds |
| Verdict.Unstructured | vlm.py:65-79 | when no `selected_indices` list is found, the labels are the integers of the digit runs |
| Verdict.NoBraceFallsBack | vlm.py:55-72 | a reply without `{` falls back to the digit runs |
| Verdict.BadRecordFallsBack | vlm.py:54-69 | a decode error, a non-object, a missing field or a non-list field all fall back instead of raising |
| Verdict.ParseJsonExample | vlm.py:55-63 | `{"selected_indices": [2, 4]}` yields `[2, 4]` |
| Verdict.ParseTextExample | vlm.py:72-79 | `I pick 2 and 4` yields `[2, 4]` |
| Verdict.ParseNothingExample | vlm.py:72-76 | a reply without digits yields `[]`, an answer and not an error |
| Verdict.SelectFromCollage | vlm.py:45-87 | the labels of the first of three calls that answers; `[]` when all three raise |
| Verdict.FirstReply | vlm.py:45-49 | the reply of the first answering call, and none exactly when every call raises |
| Verdict.AtMostRetries | vlm.py:45-46 | calls after the third are never made: providers that agree on the first three give the same labels |
| Tournament.EffectivePrompt | main.py:93-100 | the prompt is the user's prompt while there is no stalemate, and that prompt followed by the directive once there is one |
| Tournament.BatchWinners | main.py:108-128 | a batch only contributes candidates of that batch |
| Tournament.BatchesWinners | main.py:102-128 | every batch winner comes from one of the batches |
| Tournament.Survivors | main.py:90-128 | every survivor of a round comes from its pool |
| Tournament.NextStalemate | main.py:134-141 | the counter grows by one exactly when the pool kept its size and holds more than one candidate, and is reset otherwise |
| Tournament.PlayRound | main.py:93-141 | the next pool holds every survivor exactly once; it is a subset of the pool and never larger; it is empty exactly when there were no survivors |
| Tournament.PlayFrom | main.py:88-150 | a winner is a member of the pool; there are at most two rounds per candidate; no round is played on a pool of at most one candidate |
| Tournament.PlayFromLog | main.py:88-150 | every logged round is played by the rules; each starts from its predecessor's pool and counter; the last round decides the outcome |
| Tournament.ProcessInBatches | main.py:83-150 | with at most one candidate, no round is played and the result is that candidate or `None`; batch size 0 raises on a longer list; the winner is one of the input; round 1 starts from the input with counter 0, and the rounds are chained and played by the rules |
| Tournament.NoDownloadsNoWinner | main.py:108-132 | when nothing ever downloads, the first round has no survivors and the result is `None` |
| Tournament.NothingRenders | main.py:108-111 | when nothing downloads, no batch contributes |
| Tournament.EverythingApproved | main.py:102-128 | when everything downloads and the judge approves every tile, the survivors are the pool, in order |
| Tournament.ApprovedRound | main.py:134-141 | such a round keeps every candidate of a duplicate-free pool and counts as a stalemate |
| Tournament.SecondStalemate | main.py:137-146 | on a duplicate-free pool where every download succeeds, a second approving round, under the directive, ends the tournament with a winner |
| Tournament.ApprovingJudgeOverruled | main.py:93-146 | when every download succeeds and the candidates are distinct, a judge that approves everything is overruled after exactly two rounds, the second under the directive |
| ReferenceTournament.RefBatchWinners | refenrence/image_composer.py:187-207 | a batch only contributes candidates of that batch |
| ReferenceTournament.RefBatchesWinners | refenrence/image_composer.py:179-207 | every winner comes from one of the batches |
| ReferenceTournament.RefSurvivors | refenrence/image_composer.py:174-212 | every member of the next pool comes from the pool |
| ReferenceTournament.RefLoop | refenrence/image_composer.py:174-216 | a winner comes from the pool when every round narrows; a non-empty pool never ends without a final winner |
| ReferenceTournament.RoundNarrows | refenrence/image_composer.py:201-212 | the reference round only keeps candidates of its pool |
| ReferenceTournament.RefTournament | refenrence/image_composer.py:168-218 | an empty input raises `ValueError`, and only an empty one; the winner is one of the input; a single candidate wins without a round |
| ReferenceTournament.SizeKeepingNeverEnds | refenrence/image_composer.py:174-212 | a loop whose rounds keep the pool's size never ends on two or more candidates |
| ReferenceTournament.ShrinkingEnds | refenrence/image_composer.py:174-212 | a loop whose rounds shrink the pool ends within as many rounds as there are candidates |
| ReferenceTournament.ApprovedSurvivorsKeepSize | refenrence/image_composer.py:179-212 | with every download succeeding and every tile selected, a round keeps the pool's size |
| ReferenceTournament.ApprovingSelectorNeverEnds | refenrence/image_composer.py:174-212 | when every download succeeds, an approving judge makes the reference loop run forever |
| ReferenceTournament.SingleChoiceShrinks | refenrence/image_composer.py:179-212 | a judge naming at most one tile per collage leaves fewer candidates than the round started with |
| ReferenceTournament.SingleChoiceEnds | refenrence/image_composer.py:174-212 | such a judge makes the loop end within as many rounds as there are candidates |
| ReferenceTournament.NothingDownloads | refenrence/image_composer.py:192-210 | when nothing downloads, the first round raises the no-winners `RuntimeError` |
| ReferenceTournament.Callback | refenrence/main_scraper.py:75-99 | the callback passes on at most one label; it passes one exactly when the judge answered a number in `1..num_images`, and then it passes that number |
| ReferenceTournament.CallbackEnds | refenrence/main_scraper.py:75-104 | the command-line tool's tournament always ends, whatever the judge answers |
| ReferenceTournament.RepeatedLabelsGrowPool | refenrence/image_composer.py:201-212 | two candidates judged `[1, 1, 1]` become three: the reference pool can grow |

## Left out

- HTTP downloading: `_download_image` and `_download_and_process_image`, with their sessions, timeouts and headers. Whether a candidate downloads and decodes is an oracle.
- Pillow work: decoding, resizing, pasting, fonts, PNG encoding and saving debug collages. Only the integer layout is kept.
- Collage.LabelBoxInsideTile: covers only the production label box. The reference box depends on the font's text bounding box (refenrence/image_composer.py:126-137), which is not modelled.
- Grid.Rows: requires `columns > 0`. A zero column count would raise `ZeroDivisionError`, but both renderers always pass 4.
- Verdict.ParseReply: two inputs that make the source raise inside its `try` and retry are read as labels instead. First, a digit string or digit run longer than 4300 digits: `int()` raises `ValueError` under CPython's integer-string conversion limit (3.10.7 and later) at vlm.py:63 or vlm.py:79, the exception is caught at vlm.py:81, and after three such replies the result is `[]` (vlm.py:87); the model returns the number. Second, a `selected_indices` string that `isdigit()` accepts but `int()` rejects, such as `"²"`: the source raises and retries, while the model, whose digits are ASCII, drops the element.
- Verdict.SelectFromCollage: inherits both gaps of `Verdict.ParseReply`; a reply that would raise in the parser counts as an answer, not as a failed attempt.
- Decimal.ParseNat: reads ASCII digits only. Python's `\d`, `isdigit()` and `int()` also accept other Unicode digits.
- Verdict.StructuredIndices: `json.loads` is an oracle `decode`. Only the selection logic over its result is modelled.
- Verdict.SelectFromCollage: the prompt text, the base64 encoding of the collage, logging and the two-second sleeps are left out. A call that raises is `None` from the `attempt` oracle.
- Tournament.ProcessInBatches: `random.choice` is the `choose` oracle, taken modulo the pool's size. Uniformity is not modelled: the winner is only proved to be one of the survivors.
- Tournament.PlayRound: the order of `list(set(...))` is the `arrange` oracle. Only its set content and the absence of repeats are assumed.
- Concurrency: `asyncio.gather`, `ThreadPoolExecutor` and `as_completed` are modelled sequentially. Completion order comes from the `pick` oracle.
- ReferenceTournament.RefLoop: runs for at most `fuel` rounds. `OutOfFuel` stands for a loop still running, so "never ends" is stated as "runs out of every amount of fuel".
- The image search scrapers (`scraper.py`, `refenrence/bing_image_scraper.py`) and the OpenAI selector (`refenrence/vlm_selector.py`) are not part of this model. The scraped list is an input, and the selector's answer is the `answer` oracle of `ReferenceTournament.Callback`.
- AstrBot plumbing: the command handler, provider lookup, message chains and re-downloading the winner (main.py:23-81). Also the argument parsing and printing of refenrence/main_scraper.py.
