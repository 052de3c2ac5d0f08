/** Collage bookkeeping: which candidates of a batch make it into the
    labelled grid, and in which order. Downloading and decoding are an oracle
    `fetched(i)` telling whether the `i`-th candidate of the batch yields a
    usable image; pixels, fonts and PNG encoding are not modelled. */
module Collage {
  import opened Seqs
  import opened Grid

  /** The production collage: 256-pixel tiles, 4 columns. */
  const TileSize: nat := 256
  const Columns: nat := 4

  /** `(None, [])`, or the grid layout together with the candidates shown in it;
      tile `i` of the layout shows `urls[i]`. */
  datatype Rendering<T> = NoCollage | Rendered(layout: Layout, urls: seq<T>)
  {
    /** The candidate list the renderer hands back (`[]` for no collage). */
    function Shown(): seq<T>
    {
      if NoCollage? then [] else urls
    }
  }

  /** The positions `from <= i < n` whose download succeeded, ascending. */
  function KeptFrom(from: nat, n: nat, fetched: nat -> bool): (r: seq<nat>)
    ensures forall k :: 0 <= k < |r| ==> from <= r[k] < n && fetched(r[k])
    ensures forall k, l :: 0 <= k < l < |r| ==> r[k] < r[l]
    ensures forall i :: from <= i < n && fetched(i) ==> i in r
    decreases n - from
  {
    if from >= n then []
    else if fetched(from) then [from] + KeptFrom(from + 1, n, fetched)
    else KeptFrom(from + 1, n, fetched)
  }

  /** `sub` is `urls` at the ascending positions `idx`, which are exactly the
      positions whose download succeeded. */
  ghost predicate KeptInOrder<T>(sub: seq<T>, urls: seq<T>, fetched: nat -> bool, idx: seq<nat>)
  {
    && |idx| == |sub|
    && (forall k :: 0 <= k < |idx| ==> idx[k] < |urls| && fetched(idx[k]) && sub[k] == urls[idx[k]])
    && (forall k, l :: 0 <= k < l < |idx| ==> idx[k] < idx[l])
    && (forall i :: 0 <= i < |urls| && fetched(i) ==> i in idx)
  }

  /** The candidates at positions `idx`, in that order. */
  function Select<T>(urls: seq<T>, idx: seq<nat>): (r: seq<T>)
    requires forall k :: 0 <= k < |idx| ==> idx[k] < |urls|
    ensures |r| == |idx|
    ensures forall k :: 0 <= k < |idx| ==> r[k] == urls[idx[k]]
  {
    seq(|idx|, k requires 0 <= k < |idx| => urls[idx[k]])
  }

  /** The production renderer: the successful candidates, in input order
      (the downloads are gathered in input order), laid out four to a row. */
  function CreateCollage<T>(urls: seq<T>, fetched: nat -> bool): (c: Rendering<T>)
    ensures c.NoCollage? <==> forall i :: 0 <= i < |urls| ==> !fetched(i)
    ensures c.Rendered? ==> |c.urls| > 0 && c.layout == GridLayout(|c.urls|, TileSize, Columns)
    ensures exists idx :: KeptInOrder(c.Shown(), urls, fetched, idx)
    ensures forall u :: u in c.Shown() ==> u in urls
  {
    var idx := KeptFrom(0, |urls|, fetched);
    var shown := Select(urls, idx);
    KeptFacts(urls, fetched);
    var c := if |idx| == 0 then NoCollage else Rendered(GridLayout(|shown|, TileSize, Columns), shown);
    assert c.Shown() == shown;
    c
  }

  lemma KeptFacts<T>(urls: seq<T>, fetched: nat -> bool)
    ensures var idx := KeptFrom(0, |urls|, fetched);
      && KeptInOrder(Select(urls, idx), urls, fetched, idx)
      && (|idx| == 0 <==> forall i :: 0 <= i < |urls| ==> !fetched(i))
      && forall u :: u in Select(urls, idx) ==> u in urls
  {
    var idx := KeptFrom(0, |urls|, fetched);
    if |idx| > 0 {
      assert fetched(idx[0]);
    }
  }

  /** When every download succeeds the collage shows the whole batch, in order. */
  lemma AllFetched<T>(urls: seq<T>, fetched: nat -> bool)
    requires forall i :: 0 <= i < |urls| ==> fetched(i)
    ensures CreateCollage(urls, fetched).Shown() == urls
  {
    KeptAll(0, |urls|, fetched);
    var idx := KeptFrom(0, |urls|, fetched);
    assert Select(urls, idx) == urls;
  }

  lemma {:induction false} KeptAll(from: nat, n: nat, fetched: nat -> bool)
    requires from <= n && forall i :: from <= i < n ==> fetched(i)
    ensures |KeptFrom(from, n, fetched)| == n - from
    ensures forall k :: 0 <= k < n - from ==> KeptFrom(from, n, fetched)[k] == from + k
    decreases n - from
  {
    if from < n {
      KeptAll(from + 1, n, fetched);
      assert fetched(from);
      assert KeptFrom(from, n, fetched) == [from] + KeptFrom(from + 1, n, fetched);
    }
  }

  /** The label background `[x + 5, y + 5, x + 28, y + 28]` and the label text
      origin `(x + 8, y + 8)` of a production tile. */
  datatype LabelBox = LabelBox(left: int, top: int, right: int, bottom: int)

  function BoxOf(t: Tile): LabelBox
  {
    LabelBox(t.x + 5, t.y + 5, t.x + 28, t.y + 28)
  }

  /** Every label box of a production collage lies inside its own tile, so no
      label covers a neighbouring image. */
  lemma LabelBoxInsideTile<T>(c: Rendering<T>, i: nat)
    requires c.Rendered? && c.layout == GridLayout(|c.urls|, TileSize, Columns) && i < |c.urls|
    ensures var t, b := c.layout.tiles[i], BoxOf(c.layout.tiles[i]);
      t.x <= b.left < b.right < t.x + TileSize && t.y <= b.top < b.bottom < t.y + TileSize
  {
  }

  /** The order in which pending downloads complete. At each step the oracle
      `pick` names which of the still-pending positions finishes next, so every
      completion order can be expressed and each position completes once. */
  function CompletionOrder(pending: seq<nat>, pick: nat -> nat): (order: seq<nat>)
    ensures |order| == |pending|
    ensures forall i :: i in order <==> i in pending
    ensures Distinct(pending) ==> Distinct(order)
    decreases |pending|
  {
    if |pending| == 0 then []
    else
      var j := pick(|pending|) % |pending|;
      var rest := pending[..j] + pending[j + 1..];
      RemoveAt(pending, j);
      [pending[j]] + CompletionOrder(rest, pick)
  }

  /** Taking out position `j` leaves every other element, and in a
      duplicate-free sequence removes `s[j]` altogether. */
  lemma RemoveAt(s: seq<nat>, j: nat)
    requires j < |s|
    ensures forall i :: i in s <==> i == s[j] || i in s[..j] + s[j + 1..]
    ensures Distinct(s) ==> s[j] !in s[..j] + s[j + 1..] && Distinct(s[..j] + s[j + 1..])
  {
    var rest := s[..j] + s[j + 1..];
    assert s == s[..j] + [s[j]] + s[j + 1..];
    if Distinct(s) {
      forall k | 0 <= k < |rest| ensures rest[k] != s[j] {
        if k < j { assert rest[k] == s[k]; } else { assert rest[k] == s[k + 1]; }
      }
      forall k, l | 0 <= k < l < |rest| ensures rest[k] != rest[l] {
        var k', l' := if k < j then k else k + 1, if l < j then l else l + 1;
        assert rest[k] == s[k'] && rest[l] == s[l'];
      }
    }
  }

  /** The completed positions whose download succeeded, in completion order. */
  function Succeeded(order: seq<nat>, fetched: nat -> bool): (r: seq<nat>)
    ensures |r| <= |order|
    ensures forall i :: i in r <==> i in order && fetched(i)
    ensures Distinct(order) ==> Distinct(r)
  {
    if |order| == 0 then []
    else
      var rest := Succeeded(order[1..], fetched);
      assert forall i :: i in order <==> i == order[0] || i in order[1..];
      if fetched(order[0]) then [order[0]] + rest else rest
  }

  /** The positions 0..n-1. */
  function Positions(n: nat): (r: seq<nat>)
    ensures |r| == n && Distinct(r)
    ensures forall i :: i in r <==> 0 <= i < n
  {
    var r := seq(n, i requires 0 <= i => i);
    assert forall i :: i in r <==> 0 <= i < n by {
      forall i | 0 <= i < n ensures i in r { assert r[i] == i; }
    }
    r
  }

  /** The reference renderer: an empty batch gives no collage; otherwise the
      successful candidates are collected in completion order, so the result
      is drawn from the batch, holds every successful candidate, and is
      duplicate-free when the batch is, but need not keep the batch's order. */
  function CreateImageCollage<T(==,!new)>(urls: seq<T>, fetched: nat -> bool, pick: nat -> nat): (c: Rendering<T>)
    ensures c.NoCollage? <==> forall i :: 0 <= i < |urls| ==> !fetched(i)
    ensures c.Rendered? ==> |c.urls| > 0 && c.layout == GridLayout(|c.urls|, TileSize, Columns)
    ensures |c.Shown()| <= |urls|
    ensures forall u :: u in c.Shown() <==> exists i :: 0 <= i < |urls| && fetched(i) && urls[i] == u
    ensures Distinct(urls) ==> Distinct(c.Shown())
  {
    if |urls| == 0 then NoCollage
    else
      var order := CompletionOrder(Positions(|urls|), pick);
      var ok := Succeeded(order, fetched);
      assert forall k :: 0 <= k < |ok| ==> ok[k] < |urls| by {
        forall k | 0 <= k < |ok| ensures ok[k] < |urls| { assert ok[k] in ok; }
      }
      var shown := seq(|ok|, k requires 0 <= k < |ok| => urls[ok[k]]);
      assert forall u :: u in shown <==> exists i :: 0 <= i < |urls| && fetched(i) && urls[i] == u by {
        forall u ensures u in shown <==> exists i :: 0 <= i < |urls| && fetched(i) && urls[i] == u {
          if u in shown {
            var k :| 0 <= k < |shown| && shown[k] == u;
            assert ok[k] in ok;
          }
          if exists i :: 0 <= i < |urls| && fetched(i) && urls[i] == u {
            var i :| 0 <= i < |urls| && fetched(i) && urls[i] == u;
            assert i in ok;
            var k :| 0 <= k < |ok| && ok[k] == i;
            assert shown[k] == u;
          }
        }
      }
      if |ok| == 0 then NoCollage
      else
        assert fetched(ok[0]) && ok[0] in order;
        assert Distinct(urls) ==> Distinct(shown) by {
          if Distinct(urls) {
            forall k, l | 0 <= k < l < |shown| ensures shown[k] != shown[l] {
              assert ok[k] != ok[l] && ok[k] in order && ok[l] in order;
            }
          }
        }
        Rendered(GridLayout(|shown|, TileSize, Columns), shown)
  }

  /** Selecting at concatenated positions concatenates the selections. */
  lemma SelectAppend<T>(urls: seq<T>, a: seq<nat>, b: seq<nat>)
    requires forall k :: 0 <= k < |a| ==> a[k] < |urls|
    requires forall k :: 0 <= k < |b| ==> b[k] < |urls|
    ensures Select(urls, a + b) == Select(urls, a) + Select(urls, b)
  {
  }

  /** Selecting at a permutation of the positions permutes the selection, so
      every candidate is shown as many times as its positions are listed. */
  lemma {:induction false} SelectPermutation<T>(urls: seq<T>, a: seq<nat>, b: seq<nat>)
    requires forall k :: 0 <= k < |a| ==> a[k] < |urls|
    requires forall k :: 0 <= k < |b| ==> b[k] < |urls|
    requires multiset(a) == multiset(b)
    ensures multiset(Select(urls, a)) == multiset(Select(urls, b))
    decreases |a|
  {
    if |a| == 0 {
      assert |b| == |multiset(b)| == 0;
    } else {
      var x := a[0];
      assert x in multiset(b);
      var j :| 0 <= j < |b| && b[j] == x;
      var rest := b[..j] + b[j + 1..];
      RemoveMatching(a, b, j);
      SelectPermutation(urls, a[1..], rest);
      SelectRemove(urls, b, j);
      SelectAppend(urls, [x], a[1..]);
      assert [x] + a[1..] == a;
      assert Select(urls, [x]) == [urls[x]];
      var tail := Select(urls, a[1..]);
      assert Select(urls, a) == [urls[x]] + tail;
      assert multiset(Select(urls, a)) == multiset{urls[x]} + multiset(tail);
      assert multiset(tail) == multiset(Select(urls, rest));
    }
  }

  /** Taking the first element off one side and an equal element off the
      other keeps two permutations permutations. */
  lemma RemoveMatching(a: seq<nat>, b: seq<nat>, j: nat)
    requires |a| > 0 && j < |b| && b[j] == a[0] && multiset(a) == multiset(b)
    ensures multiset(a[1..]) == multiset(b[..j] + b[j + 1..])
  {
    var rest := b[..j] + b[j + 1..];
    assert a == [a[0]] + a[1..];
    assert b == b[..j] + [b[j]] + b[j + 1..];
    forall y ensures multiset(a[1..])[y] == multiset(rest)[y] {
      assert multiset(a)[y] == multiset(b)[y];
    }
  }

  /** Selecting at all positions but the `j`-th misses exactly one copy of
      the candidate at `b[j]`. */
  lemma SelectRemove<T>(urls: seq<T>, b: seq<nat>, j: nat)
    requires j < |b| && forall k :: 0 <= k < |b| ==> b[k] < |urls|
    ensures multiset(Select(urls, b)) == multiset(Select(urls, b[..j] + b[j + 1..])) + multiset{urls[b[j]]}
  {
    var p, y, q := b[..j], b[j], b[j + 1..];
    assert b == p + [y] + q;
    SelectAppend(urls, p + [y], q);
    SelectAppend(urls, p, [y]);
    SelectAppend(urls, p, q);
    var sp, sq := Select(urls, p), Select(urls, q);
    assert Select(urls, [y]) == [urls[y]];
    assert Select(urls, b) == sp + [urls[y]] + sq;
    assert Select(urls, p + q) == sp + sq;
    assert multiset(sp + [urls[y]] + sq) == multiset(sp + sq) + multiset{urls[y]};
  }

  /** The reference renderer shows one tile per successful download: its
      candidates are, counted with multiplicity, exactly the successful
      candidates of the batch, only in completion order. A candidate listed
      twice and downloaded twice is shown twice. */
  lemma ImageCollageTiles<T(!new)>(urls: seq<T>, fetched: nat -> bool, pick: nat -> nat)
    ensures multiset(CreateImageCollage(urls, fetched, pick).Shown()) == multiset(Select(urls, KeptFrom(0, |urls|, fetched)))
    ensures |CreateImageCollage(urls, fetched, pick).Shown()| == |KeptFrom(0, |urls|, fetched)|
  {
    var kept := KeptFrom(0, |urls|, fetched);
    var c := CreateImageCollage(urls, fetched, pick);
    if |urls| == 0 {
      assert kept == [];
    } else {
      var order := CompletionOrder(Positions(|urls|), pick);
      var ok := Succeeded(order, fetched);
      assert forall k :: 0 <= k < |ok| ==> ok[k] < |urls| by {
        forall k | 0 <= k < |ok| ensures ok[k] < |urls| { assert ok[k] in ok; }
      }
      assert c.Shown() == Select(urls, ok);
      assert Distinct(kept) by {
        forall k, l | 0 <= k < l < |kept| ensures kept[k] != kept[l] { }
      }
      SameElemsPermutation(ok, kept);
      SelectPermutation(urls, ok, kept);
    }
    assert |c.Shown()| == |multiset(c.Shown())|;
    assert |Select(urls, kept)| == |multiset(Select(urls, kept))|;
  }

  /** When every position succeeds, nothing is filtered out. */
  lemma {:induction false} SucceededAll(order: seq<nat>, fetched: nat -> bool)
    requires forall k :: 0 <= k < |order| ==> fetched(order[k])
    ensures Succeeded(order, fetched) == order
    decreases |order|
  {
    if |order| > 0 {
      SucceededAll(order[1..], fetched);
    }
  }

  /** When every download of a non-empty batch succeeds, the reference
      renderer shows one tile per candidate. */
  lemma ImageCollageAllFetched<T(!new)>(urls: seq<T>, fetched: nat -> bool, pick: nat -> nat)
    requires |urls| > 0
    requires forall i :: 0 <= i < |urls| ==> fetched(i)
    ensures CreateImageCollage(urls, fetched, pick).Rendered?
    ensures |CreateImageCollage(urls, fetched, pick).Shown()| == |urls|
  {
    var order := CompletionOrder(Positions(|urls|), pick);
    forall k | 0 <= k < |order| ensures fetched(order[k]) {
      assert order[k] in order;
    }
    SucceededAll(order, fetched);
  }
}
