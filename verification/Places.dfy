/** Places in nested text: a place is a path of indices, and places are ordered as the text is read. */
module Places {
  type Place = seq<nat>

  /** `a` comes before `b`: they part at some index, where `a` turns off earlier. */
  predicate Earlier(a: Place, b: Place) {
    exists k :: 0 <= k < |a| && k < |b| && a[..k] == b[..k] && a[k] < b[k]
  }

  predicate InTextOrder(ps: seq<Place>) {
    forall i, j :: 0 <= i < j < |ps| ==> Earlier(ps[i], ps[j])
  }

  /** The places below `q`. */
  function Below(q: Place, ps: seq<Place>): seq<Place> {
    seq(|ps|, i requires 0 <= i < |ps| => q + ps[i])
  }

  lemma EarlierBelow(q: Place, a: Place, b: Place)
    requires Earlier(a, b)
    ensures Earlier(q + a, q + b)
  {
    var k :| 0 <= k < |a| && k < |b| && a[..k] == b[..k] && a[k] < b[k];
    var n := |q| + k;
    assert (q + a)[..n] == q + a[..k] && (q + b)[..n] == q + b[..k];
    assert (q + a)[n] < (q + b)[n];
  }

  lemma OrderBelow(q: Place, ps: seq<Place>)
    requires InTextOrder(ps)
    ensures InTextOrder(Below(q, ps))
  {
    forall i, j | 0 <= i < j < |ps|
      ensures Earlier(Below(q, ps)[i], Below(q, ps)[j])
    {
      EarlierBelow(q, ps[i], ps[j]);
    }
  }

  /** The places part at index `n`, where `a` turns off earlier. */
  predicate PartsAt(a: Place, b: Place, n: nat) {
    n < |a| && n < |b| && a[..n] == b[..n] && a[n] < b[n]
  }

  /** Two rows of places, the first of which parts from the second at index `n`. */
  lemma OrderJoined(a: seq<Place>, b: seq<Place>, n: nat)
    requires InTextOrder(a) && InTextOrder(b)
    requires forall i, j :: 0 <= i < |a| && 0 <= j < |b| ==> PartsAt(a[i], b[j], n)
    ensures InTextOrder(a + b)
  {
    var ps := a + b;
    forall i, j | 0 <= i < j < |ps|
      ensures Earlier(ps[i], ps[j])
    {
      if i < |a| <= j {
        assert ps[i] == a[i] && ps[j] == b[j - |a|] && PartsAt(a[i], b[j - |a|], n);
      }
    }
  }

  lemma EarlierIsStrict(a: Place, b: Place)
    requires Earlier(a, b)
    ensures !Earlier(b, a)
  {
    var k :| 0 <= k < |a| && k < |b| && a[..k] == b[..k] && a[k] < b[k];
    assert forall i :: 0 <= i < k ==> a[i] == a[..k][i] == b[i];
    forall m | 0 <= m < |b| && m < |a| && b[m] < a[m]
      ensures b[..m] != a[..m]
    {
      assert k < m;
      assert a[..m][k] != b[..m][k];
    }
  }

  // ---------------------------------------------------------------- listings

  /** The values stand at the places, which come in text order, and nothing else stands anywhere. */
  ghost predicate Listing<T(!new)>(ps: seq<Place>, vs: seq<T>, standing: iset<(Place, T)>) {
    && |ps| == |vs| && InTextOrder(ps)
    && (forall k :: 0 <= k < |ps| ==> (ps[k], vs[k]) in standing)
    && (forall x :: x in standing ==> x.0 in ps)
  }

  /** What stands somewhere, moved below `q`. */
  ghost function Moved<T(!new)>(q: Place, standing: iset<(Place, T)>): iset<(Place, T)> {
    iset x: (Place, T) | q <= x.0 && (x.0[|q|..], x.1) in standing
  }

  lemma ListingBelow<T(!new)>(q: Place, ps: seq<Place>, vs: seq<T>, standing: iset<(Place, T)>)
    requires Listing(ps, vs, standing)
    ensures Listing(Below(q, ps), vs, Moved(q, standing))
  {
    OrderBelow(q, ps);
    var qs := Below(q, ps);
    forall k | 0 <= k < |qs|
      ensures (qs[k], vs[k]) in Moved(q, standing)
    {
      assert qs[k][|q|..] == ps[k];
    }
    forall x | x in Moved(q, standing)
      ensures x.0 in qs
    {
      var k :| 0 <= k < |ps| && ps[k] == x.0[|q|..];
      assert x.0 == q + ps[k] && qs[k] == x.0;
    }
  }

  /** All places of the first set part from all of the second at index `n`, towards earlier. */
  ghost predicate Apart<T(!new)>(first: iset<(Place, T)>, second: iset<(Place, T)>, n: nat) {
    forall x, y :: x in first && y in second ==> PartsAt(x.0, y.0, n)
  }

  lemma ListingJoined<T(!new)>(a: seq<Place>, va: seq<T>, first: iset<(Place, T)>,
                         b: seq<Place>, vb: seq<T>, second: iset<(Place, T)>, n: nat)
    requires Listing(a, va, first) && Listing(b, vb, second) && Apart(first, second, n)
    ensures Listing(a + b, va + vb, first + second)
  {
    forall i, j | 0 <= i < |a| && 0 <= j < |b|
      ensures PartsAt(a[i], b[j], n)
    {
      assert (a[i], va[i]) in first && (b[j], vb[j]) in second;
    }
    OrderJoined(a, b, n);
    var ps, vs := a + b, va + vb;
    forall k | 0 <= k < |ps|
      ensures (ps[k], vs[k]) in first + second
    {
      if k < |a| {
        assert (ps[k], vs[k]) == (a[k], va[k]);
      } else {
        assert (ps[k], vs[k]) == (b[k - |a|], vb[k - |a|]);
      }
    }
  }

  lemma ListingNothing<T(!new)>()
    ensures Listing<T>([], [], iset{})
  {
  }
}
