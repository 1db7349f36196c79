/** The reassembler's store of pending segments: an ordered map from a
    segment's first absolute index to its bytes, kept as a sequence sorted
    by key.  This module gives the store its meaning (the byte held at each
    index) and the two ordered-map lookups the reassembler uses.
 */
module PendingStore {
  import opened ByteStreams

  datatype Option<T> = None | Some(value: T)

  /** A stored run of bytes: `data[j]` is the byte at absolute index `start + j`. */
  datatype Segment = Segment(start: nat, data: seq<Byte>) {
    function End(): (e: nat) {
      start + |data|
    }

    predicate Covers(i: nat) {
      start <= i < End()
    }
  }

  /** Keys strictly ascending, as the keys of an ordered map are. */
  ghost predicate KeysAscending(ps: seq<Segment>) {
    forall i, j :: 0 <= i < j < |ps| ==> ps[i].start < ps[j].start
  }

  /** The shape of the store between operations: no empty segment, and
      every segment ends at or before the next one starts (adjacent
      segments may stay separate). */
  ghost predicate WellFormed(ps: seq<Segment>) {
    (forall j :: 0 <= j < |ps| ==> ps[j].data != []) &&
    (forall i, j :: 0 <= i < j < |ps| ==> ps[i].End() <= ps[j].start)
  }

  /** Every segment lies inside [lo, hi). */
  ghost predicate Within(ps: seq<Segment>, lo: nat, hi: nat) {
    forall j :: 0 <= j < |ps| ==> lo <= ps[j].start && ps[j].End() <= hi
  }

  /** The byte the store holds at absolute index `i`, if any.  When two
      segments both cover `i` the earlier one in the sequence wins; in a
      well-formed store at most one does. */
  ghost function At(ps: seq<Segment>, i: nat): (r: Option<Byte>)
    decreases |ps|
  {
    if ps == [] then None
    else if ps[0].Covers(i) then Some(ps[0].data[i - ps[0].start])
    else At(ps[1..], i)
  }

  /** The contents of `ps` with the run `data` laid over it at `first`:
      the new bytes win wherever both hold a byte. */
  ghost function Overlay(ps: seq<Segment>, first: nat, data: seq<Byte>, i: nat): (r: Option<Byte>) {
    if first <= i < first + |data| then Some(data[i - first]) else At(ps, i)
  }

  /** Sum of the segment lengths (what count_bytes_pending adds up). */
  function TotalLength(ps: seq<Segment>): (r: nat) {
    if ps == [] then 0 else |ps[0].data| + TotalLength(ps[1..])
  }

  /** std::map::lower_bound: the position of the first key not below `key`. */
  function LowerBound(ps: seq<Segment>, key: nat): (k: nat)
    requires KeysAscending(ps)
    ensures k <= |ps|
    ensures forall j :: 0 <= j < k ==> ps[j].start < key
    ensures forall j :: k <= j < |ps| ==> key <= ps[j].start
  {
    if ps == [] || key <= ps[0].start then 0
    else 1 + LowerBound(ps[1..], key)
  }

  /** std::map::find: the position of the segment keyed exactly `key`. */
  function Find(ps: seq<Segment>, key: nat): (r: Option<nat>)
    requires KeysAscending(ps)
    ensures r.Some? ==> r.value < |ps| && ps[r.value].start == key
    ensures r.None? ==> forall j :: 0 <= j < |ps| ==> ps[j].start != key
  {
    var k := LowerBound(ps, key);
    if k < |ps| && ps[k].start == key then Some(k) else None
  }

  // ------------------------------------------------------------------ lemmas

  lemma WellFormedKeysAscending(ps: seq<Segment>)
    requires WellFormed(ps)
    ensures KeysAscending(ps)
  {
  }

  /** Erasing one segment keeps a store well formed. */
  lemma WellFormedRemove(ps: seq<Segment>, k: nat)
    requires WellFormed(ps) && k < |ps|
    ensures WellFormed(ps[..k] + ps[k + 1..])
  {
    var qs := ps[..k] + ps[k + 1..];
    forall i, j | 0 <= i < j < |qs| ensures qs[i].End() <= qs[j].start {
      var i' := if i < k then i else i + 1;
      var j' := if j < k then j else j + 1;
      assert qs[i] == ps[i'] && qs[j] == ps[j'];
    }
  }

  /** Looking up in a concatenation looks in the front part first. */
  lemma {:induction false} AtConcat(a: seq<Segment>, b: seq<Segment>, i: nat)
    ensures At(a + b, i) == if At(a, i).Some? then At(a, i) else At(b, i)
  {
    if a == [] {
      assert a + b == b;
    } else {
      assert (a + b)[1..] == a[1..] + b;
      AtConcat(a[1..], b, i);
    }
  }

  /** Replacing a middle part by one with the same contents keeps the contents. */
  lemma AtSplice(a: seq<Segment>, x: seq<Segment>, y: seq<Segment>, b: seq<Segment>, i: nat)
    requires At(x, i) == At(y, i)
    ensures At(a + x + b, i) == At(a + y + b, i)
  {
    AtConcat(a, x, i);
    AtConcat(a, y, i);
    AtConcat(a + x, b, i);
    AtConcat(a + y, b, i);
  }

  /** No segment covers `i`, so nothing is held there. */
  lemma {:induction false} AtUncovered(ps: seq<Segment>, i: nat)
    requires forall j :: 0 <= j < |ps| ==> !ps[j].Covers(i)
    ensures At(ps, i) == None
  {
    if ps != [] {
      assert !ps[0].Covers(i);
      AtUncovered(ps[1..], i);
    }
  }

  /** In a well-formed store the byte at `i` is the one of the segment covering it. */
  lemma {:induction false} AtCovered(ps: seq<Segment>, j: nat, i: nat)
    requires WellFormed(ps)
    requires j < |ps| && ps[j].Covers(i)
    ensures At(ps, i) == Some(ps[j].data[i - ps[j].start])
  {
    if j > 0 {
      assert ps[0].End() <= ps[j].start;
      assert ps[1..][j - 1] == ps[j];
      AtCovered(ps[1..], j - 1, i);
    }
  }

  /** The pending bytes of a well-formed store inside [lo, hi) number at
      most hi - lo: no byte is counted twice. */
  lemma {:induction false} TotalLengthWithin(ps: seq<Segment>, lo: nat, hi: nat)
    requires WellFormed(ps) && Within(ps, lo, hi) && lo <= hi
    ensures TotalLength(ps) <= hi - lo
  {
    if ps != [] {
      assert Within(ps[1..], ps[0].End(), hi) by {
        forall j | 0 <= j < |ps[1..]|
          ensures ps[0].End() <= ps[1..][j].start && ps[1..][j].End() <= hi
        {
          assert ps[1..][j] == ps[j + 1];
        }
      }
      TotalLengthWithin(ps[1..], ps[0].End(), hi);
    }
  }

  /** A store inside [lo, hi) holds bytes only inside that range. */
  lemma HeldInside(ps: seq<Segment>, lo: nat, hi: nat, i: nat)
    requires Within(ps, lo, hi) && At(ps, i).Some?
    ensures lo <= i < hi
  {
  }

  /** A well-formed store holding a store inside [lo, hi) overlaid with a
      run inside [lo, hi) lies inside [lo, hi) itself. */
  lemma OverlayWithin(ps: seq<Segment>, first: nat, data: seq<Byte>, qs: seq<Segment>, lo: nat, hi: nat)
    requires Within(ps, lo, hi) && lo <= first && first + |data| <= hi
    requires WellFormed(qs)
    requires forall i: nat :: At(qs, i) == Overlay(ps, first, data, i)
    ensures Within(qs, lo, hi)
  {
    forall j | 0 <= j < |qs| ensures lo <= qs[j].start && qs[j].End() <= hi {
      var a, b := qs[j].start, qs[j].End() - 1;
      AtCovered(qs, j, a);
      AtCovered(qs, j, b);
      if !(first <= a < first + |data|) {
        HeldInside(ps, lo, hi, a);
      }
      if !(first <= b < first + |data|) {
        HeldInside(ps, lo, hi, b);
      }
    }
  }
}
