/** Mapping a judge's 1-based labels back to the candidates shown in a
    collage: label `k` names `urls[k - 1]` when `1 <= k <= |urls|`; any other
    label is dropped without error. */
module Labels {
  import opened Wrappers

  /** The labels of `labels` that name a tile of an `n`-tile collage, in order. */
  function ValidLabels(labels: seq<int>, n: nat): (r: seq<int>)
    ensures |r| <= |labels|
    ensures forall i :: 0 <= i < |r| ==> 1 <= r[i] <= n
  {
    if |labels| == 0 then []
    else
      var rest := ValidLabels(labels[1..], n);
      if 1 <= labels[0] <= n then [labels[0]] + rest else rest
  }

  /** A label survives the range filter exactly when it was given and is in range. */
  lemma {:induction false} ValidLabelsIff(labels: seq<int>, n: nat, k: int)
    ensures k in ValidLabels(labels, n) <==> k in labels && 1 <= k <= n
  {
    if |labels| > 0 {
      ValidLabelsIff(labels[1..], n, k);
      assert k in labels <==> k == labels[0] || k in labels[1..];
    }
  }

  /** Filtering a label list piecewise is filtering it whole: order and
      repeated labels are kept, so one label named twice selects its candidate
      twice. */
  lemma {:induction false} ValidLabelsAppend(a: seq<int>, b: seq<int>, n: nat)
    ensures ValidLabels(a + b, n) == ValidLabels(a, n) + ValidLabels(b, n)
  {
    if |a| == 0 {
      assert a + b == b;
    } else {
      assert (a + b)[1..] == a[1..] + b;
      ValidLabelsAppend(a[1..], b, n);
    }
  }

  /** One label is kept exactly when it is in range. */
  lemma ValidLabelsSingle(k: int, n: nat)
    ensures ValidLabels([k], n) == if 1 <= k <= n then [k] else []
  {
    assert [k][1..] == [];
  }

  /** The candidates a verdict selects: each in-range label, in order, replaced
      by the candidate it names; out-of-range labels contribute nothing. */
  function MapLabels<T>(labels: seq<int>, urls: seq<T>): (r: seq<T>)
    ensures |r| == |ValidLabels(labels, |urls|)|
    ensures forall i :: 0 <= i < |r| ==> r[i] == urls[ValidLabels(labels, |urls|)[i] - 1]
    ensures forall x :: x in r ==> x in urls
  {
    if |labels| == 0 then []
    else
      var rest := MapLabels(labels[1..], urls);
      if 1 <= labels[0] <= |urls| then [urls[labels[0] - 1]] + rest else rest
  }

  /** A candidate is selected exactly when some in-range label names it. */
  lemma SelectedIff<T>(labels: seq<int>, urls: seq<T>, x: T)
    ensures x in MapLabels(labels, urls) <==>
      exists k :: k in labels && 1 <= k <= |urls| && urls[k - 1] == x
  {
    if x in MapLabels(labels, urls) {
      SelectedNamed(labels, urls, x);
    }
    if exists k :: k in labels && 1 <= k <= |urls| && urls[k - 1] == x {
      var k :| k in labels && 1 <= k <= |urls| && urls[k - 1] == x;
      NamedSelected(labels, urls, k);
    }
  }

  lemma SelectedNamed<T>(labels: seq<int>, urls: seq<T>, x: T)
    requires x in MapLabels(labels, urls)
    ensures exists k :: k in labels && 1 <= k <= |urls| && urls[k - 1] == x
  {
    var r := MapLabels(labels, urls);
    var v := ValidLabels(labels, |urls|);
    var i :| 0 <= i < |r| && r[i] == x;
    var k := v[i];
    assert k in v;
    ValidLabelsIff(labels, |urls|, k);
    assert k in labels && 1 <= k <= |urls| && urls[k - 1] == x;
  }

  lemma NamedSelected<T>(labels: seq<int>, urls: seq<T>, k: int)
    requires k in labels && 1 <= k <= |urls|
    ensures urls[k - 1] in MapLabels(labels, urls)
  {
    var v := ValidLabels(labels, |urls|);
    ValidLabelsIff(labels, |urls|, k);
    assert k in v;
    var i :| 0 <= i < |v| && v[i] == k;
    assert MapLabels(labels, urls)[i] == urls[k - 1];
  }

  /** The labels 1..n, i.e. every tile of an n-tile collage. */
  function AllLabels(n: nat): (r: seq<int>)
    ensures |r| == n
    ensures forall i :: 0 <= i < n ==> r[i] == i + 1
  {
    seq(n, i => i + 1)
  }

  /** A judge that approves every tile keeps every candidate, in order. */
  lemma ApproveAll<T>(urls: seq<T>)
    ensures MapLabels(AllLabels(|urls|), urls) == urls
  {
    ApproveFrom(urls, AllLabels(|urls|), 0);
  }

  /** The labels `from + 1, ..., |urls|` select `urls[from..]`. */
  lemma {:induction false} ApproveFrom<T>(urls: seq<T>, labels: seq<int>, from: nat)
    requires from + |labels| == |urls|
    requires forall i :: 0 <= i < |labels| ==> labels[i] == from + i + 1
    ensures MapLabels(labels, urls) == urls[from..]
    decreases |labels|
  {
    if |labels| > 0 {
      ApproveFrom(urls, labels[1..], from + 1);
      assert urls[from..] == [urls[from]] + urls[from + 1..];
    }
  }

  /** Labels that all fall outside the collage select nothing. */
  lemma NoneInRange<T>(labels: seq<int>, urls: seq<T>)
    requires forall k :: k in labels ==> k < 1 || k > |urls|
    ensures MapLabels(labels, urls) == []
  {
    var v := ValidLabels(labels, |urls|);
    if |v| > 0 {
      ValidLabelsIff(labels, |urls|, v[0]);
    }
  }

  /** The range guard of the reference command-line judge: an optional single
      answer becomes a one-element label list when it names a tile of the
      `numImages`-tile collage, and an empty list otherwise. */
  function SingleLabel(answer: Option<int>, numImages: int): (r: seq<int>)
    ensures |r| <= 1
    ensures forall k :: k in r ==> 1 <= k <= numImages
    ensures r != [] <==> answer.Some? && 1 <= answer.value <= numImages
    ensures r != [] ==> r == [answer.value]
  {
    match answer
    case None => []
    case Some(n) => if 1 <= n <= numImages then [n] else []
  }
}
