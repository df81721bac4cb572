/** The shape shared by every dimension pass of the matchmakers: an outer loop over one
    list, an inner loop that stops at the first element of a second list satisfying a
    pair predicate `m`, the paired element appended to a "matched" list and an element
    without partner appended to a "new unmatched" list. */
module Pairing {
  import opened Outcomes

  /** d has a partner in bs under m. */
  predicate Paired<D, B>(d: D, bs: seq<B>, m: (D, B) -> bool) {
    exists k :: 0 <= k < |bs| && m(d, bs[k])
  }

  /** Every element of ds has a partner in bs. */
  predicate AllPaired<D, B>(ds: seq<D>, bs: seq<B>, m: (D, B) -> bool) {
    forall i :: 0 <= i < |ds| ==> Paired(ds[i], bs, m)
  }

  /** The partner the inner loop stops at: the first element of bs paired with d. */
  function FirstPairing<D, B>(d: D, bs: seq<B>, m: (D, B) -> bool): (r: Option<B>)
    ensures r.Some? <==> Paired(d, bs, m)
    ensures r.Some? ==> r.value in bs && m(d, r.value)
  {
    if |bs| == 0 then None
    else if m(d, bs[0]) then Some(bs[0])
    else
      var r := FirstPairing(d, bs[1..], m);
      assert Paired(d, bs[1..], m) ==> Paired(d, bs, m) by {
        if Paired(d, bs[1..], m) {
          var k :| 0 <= k < |bs[1..]| && m(d, bs[1..][k]);
          assert m(d, bs[k + 1]);
        }
      }
      r
  }

  /** The element at j is the one the inner loop stops at. */
  lemma {:induction false} FirstPairingAt<D, B>(d: D, bs: seq<B>, m: (D, B) -> bool, j: nat)
    requires j < |bs| && m(d, bs[j])
    requires forall k :: 0 <= k < j ==> !m(d, bs[k])
    ensures FirstPairing(d, bs, m) == Some(bs[j])
  {
    if j > 0 {
      FirstPairingAt(d, bs[1..], m, j - 1);
    }
  }

  /** The elements of ds with no partner in bs, in their original order. */
  function Unpaired<D, B>(ds: seq<D>, bs: seq<B>, m: (D, B) -> bool): (r: seq<D>)
    ensures |r| <= |ds|
  {
    if |ds| == 0 then []
    else
      var last := ds[|ds| - 1];
      Unpaired(ds[..|ds| - 1], bs, m) + if Paired(last, bs, m) then [] else [last]
  }

  /** The partners found, one per element of ds that has one, in the order of ds. */
  function Pairings<D, B>(ds: seq<D>, bs: seq<B>, m: (D, B) -> bool): (r: seq<B>)
    ensures |r| + |Unpaired(ds, bs, m)| == |ds|
    ensures forall y :: y in r ==> y in bs
  {
    if |ds| == 0 then []
    else
      var last := ds[|ds| - 1];
      Pairings(ds[..|ds| - 1], bs, m) + match FirstPairing(last, bs, m) case Some(b) => [b] case None => []
  }

  /** The elements of ds that have a partner in bs, in their original order. */
  function PairedOnes<D, B>(ds: seq<D>, bs: seq<B>, m: (D, B) -> bool): (r: seq<D>)
    ensures |r| + |Unpaired(ds, bs, m)| == |ds|
  {
    if |ds| == 0 then []
    else
      var last := ds[|ds| - 1];
      PairedOnes(ds[..|ds| - 1], bs, m) + if Paired(last, bs, m) then [last] else []
  }

  /** One iteration of the outer loop: the element at i is appended to exactly one of the
      two result lists, and its partner (if any) to the list of partners. */
  lemma PassStep<D, B>(ds: seq<D>, bs: seq<B>, m: (D, B) -> bool, i: nat)
    requires i < |ds|
    ensures Unpaired(ds[..i + 1], bs, m) ==
              Unpaired(ds[..i], bs, m) + if Paired(ds[i], bs, m) then [] else [ds[i]]
    ensures PairedOnes(ds[..i + 1], bs, m) ==
              PairedOnes(ds[..i], bs, m) + if Paired(ds[i], bs, m) then [ds[i]] else []
    ensures Pairings(ds[..i + 1], bs, m) ==
              Pairings(ds[..i], bs, m) + match FirstPairing(ds[i], bs, m) case Some(b) => [b] case None => []
  {
    assert ds[..i + 1][..i] == ds[..i];
  }

  /** An element is left unmatched exactly when it belongs to ds and has no partner. */
  lemma {:induction false} UnpairedMembers<D, B>(ds: seq<D>, bs: seq<B>, m: (D, B) -> bool, x: D)
    ensures x in Unpaired(ds, bs, m) <==> x in ds && !Paired(x, bs, m)
  {
    if |ds| > 0 {
      var init := ds[..|ds| - 1];
      UnpairedMembers(init, bs, m, x);
      assert ds == init + [ds[|ds| - 1]];
    }
  }

  /** An element is recorded as matched exactly when it belongs to ds and has a partner. */
  lemma {:induction false} PairedOnesMembers<D, B>(ds: seq<D>, bs: seq<B>, m: (D, B) -> bool, x: D)
    ensures x in PairedOnes(ds, bs, m) <==> x in ds && Paired(x, bs, m)
  {
    if |ds| > 0 {
      var init := ds[..|ds| - 1];
      PairedOnesMembers(init, bs, m, x);
      assert ds == init + [ds[|ds| - 1]];
    }
  }

  /** The partners line up with the matched elements: the j-th partner recorded is the one
      the inner loop stops at for the j-th element recorded as matched. */
  lemma {:induction false} PairingsAlign<D, B>(ds: seq<D>, bs: seq<B>, m: (D, B) -> bool)
    ensures |Pairings(ds, bs, m)| == |PairedOnes(ds, bs, m)|
    ensures forall j :: 0 <= j < |Pairings(ds, bs, m)| ==>
              FirstPairing(PairedOnes(ds, bs, m)[j], bs, m) == Some(Pairings(ds, bs, m)[j])
  {
    if |ds| > 0 {
      var init, last := ds[..|ds| - 1], ds[|ds| - 1];
      PairingsAlign(init, bs, m);
      var ps, qs := Pairings(init, bs, m), PairedOnes(init, bs, m);
      match FirstPairing(last, bs, m)
      case Some(b) =>
        assert Pairings(ds, bs, m) == ps + [b];
        assert PairedOnes(ds, bs, m) == qs + [last];
      case None =>
        assert Pairings(ds, bs, m) == ps;
        assert PairedOnes(ds, bs, m) == qs;
    }
  }

  /** Nothing is left unmatched exactly when every element has a partner. */
  lemma {:induction false} UnpairedEmptyIffAllPaired<D, B>(ds: seq<D>, bs: seq<B>, m: (D, B) -> bool)
    ensures Unpaired(ds, bs, m) == [] <==> AllPaired(ds, bs, m)
  {
    if |ds| > 0 {
      var init := ds[..|ds| - 1];
      UnpairedEmptyIffAllPaired(init, bs, m);
      if Unpaired(ds, bs, m) == [] {
        assert Unpaired(init, bs, m) == [];
        forall i | 0 <= i < |ds| ensures Paired(ds[i], bs, m) {
          if i < |ds| - 1 {
            assert ds[i] == init[i];
          }
        }
      }
    }
  }

  /** Filtering a concatenation filters each part. */
  lemma {:induction false} UnpairedAppend<D, B>(xs: seq<D>, ys: seq<D>, bs: seq<B>, m: (D, B) -> bool)
    ensures Unpaired(xs + ys, bs, m) == Unpaired(xs, bs, m) + Unpaired(ys, bs, m)
    decreases |ys|
  {
    if |ys| > 0 {
      var ys' := ys[..|ys| - 1];
      assert (xs + ys)[..|xs + ys| - 1] == xs + ys';
      UnpairedAppend(xs, ys', bs, m);
    } else {
      assert xs + ys == xs;
    }
  }

  /** Among the elements of ds and bs, m1 pairs nothing that m2 does not pair. */
  predicate Weaker<D, B>(ds: seq<D>, bs: seq<B>, m1: (D, B) -> bool, m2: (D, B) -> bool) {
    forall i, k :: 0 <= i < |ds| && 0 <= k < |bs| && m1(ds[i], bs[k]) ==> m2(ds[i], bs[k])
  }

  /** Re-running a pass with a predicate at least as permissive over what an earlier pass
      left unmatched leaves the same elements as running it over the whole list. */
  lemma {:induction false} RerunOverUnpaired<D, B>(ds: seq<D>, bs: seq<B>, m1: (D, B) -> bool, m2: (D, B) -> bool)
    requires Weaker(ds, bs, m1, m2)
    ensures Unpaired(Unpaired(ds, bs, m1), bs, m2) == Unpaired(ds, bs, m2)
  {
    if |ds| > 0 {
      var init, last := ds[..|ds| - 1], ds[|ds| - 1];
      assert Weaker(init, bs, m1, m2) by {
        forall i, k | 0 <= i < |init| && 0 <= k < |bs| && m1(init[i], bs[k]) ensures m2(init[i], bs[k]) {
          assert init[i] == ds[i];
        }
      }
      RerunOverUnpaired(init, bs, m1, m2);
      var tail := if Paired(last, bs, m1) then [] else [last];
      UnpairedAppend(Unpaired(init, bs, m1), tail, bs, m2);
      if Paired(last, bs, m1) {
        var k :| 0 <= k < |bs| && m1(last, bs[k]);
        assert m2(ds[|ds| - 1], bs[k]);
        assert Unpaired(tail, bs, m2) == [];
      } else {
        assert tail[..0] == [];
        assert Unpaired(tail, bs, m2) == Unpaired([last], bs, m2);
      }
    }
  }

  /** Re-running a pass with the same predicate over what it left unmatched pairs nothing. */
  lemma {:induction false} RerunFindsNothing<D, B>(ds: seq<D>, bs: seq<B>, m: (D, B) -> bool)
    ensures Pairings(Unpaired(ds, bs, m), bs, m) == []
  {
    var u := Unpaired(ds, bs, m);
    forall x | x in u ensures !Paired(x, bs, m) {
      UnpairedMembers(ds, bs, m, x);
    }
    NoPartnersNoPairings(u, bs, m);
  }

  lemma {:induction false} NoPartnersNoPairings<D, B>(ds: seq<D>, bs: seq<B>, m: (D, B) -> bool)
    requires forall x :: x in ds ==> !Paired(x, bs, m)
    ensures Pairings(ds, bs, m) == []
  {
    if |ds| > 0 {
      var init := ds[..|ds| - 1];
      assert forall x :: x in init ==> x in ds;
      NoPartnersNoPairings(init, bs, m);
      assert ds[|ds| - 1] in ds;
    }
  }

  /** When every element has a partner under m1, it has one under the more permissive m2. */
  lemma WeakerAllPaired<D, B>(ds: seq<D>, bs: seq<B>, m1: (D, B) -> bool, m2: (D, B) -> bool)
    requires Weaker(ds, bs, m1, m2) && AllPaired(ds, bs, m1)
    ensures AllPaired(ds, bs, m2)
  {
    forall i | 0 <= i < |ds| ensures Paired(ds[i], bs, m2) {
      var k :| 0 <= k < |bs| && m1(ds[i], bs[k]);
      assert m2(ds[i], bs[k]);
    }
  }
}
