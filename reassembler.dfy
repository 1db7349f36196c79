/** The reassembler: accepts (first_index, data, is_last) segments in any
    order and with any overlap, keeps the ones it cannot deliver yet in a
    store of pending segments, and pushes the contiguous prefix into its
    output ByteStream, closing the stream once the final index is reached.
 */
module Reassembly {
  import opened ByteStreams
  import opened PendingStore

  // ------------------------------------------------------------ merge_segment

  /** One fusion step of merge_segment: extends the run `run` backwards by
      the part of `seg` before it and forwards by the part after it.  The
      result spans both, and holds `run`'s bytes where both hold one. */
  method ExtendRun(run: Segment, seg: Segment) returns (fused: Segment)
    requires seg.start <= run.End() && run.start <= seg.End()
    ensures fused.start == if seg.start < run.start then seg.start else run.start
    ensures fused.End() == if seg.End() > run.End() then seg.End() else run.End()
    ensures forall i: nat :: At([fused], i) == At([run, seg], i)
  {
    var mergedData := run.data;
    var mergedStart := run.start;
    var mergedEnd := run.End();
    if seg.start < mergedStart {
      mergedData := seg.data[..mergedStart - seg.start] + mergedData;
      mergedStart := seg.start;
    }
    if seg.End() > mergedEnd {
      mergedData := mergedData + seg.data[mergedEnd - seg.start..];
      mergedEnd := seg.End();
    }
    fused := Segment(mergedStart, mergedData);

    ghost var pre := if seg.start < run.start then seg.data[..run.start - seg.start] else [];
    ghost var suf := if seg.End() > run.End() then seg.data[run.End() - seg.start..] else [];
    assert fused.data == pre + run.data + suf;
    assert [run, seg][1..] == [seg];
    assert [fused][1..] == [];
    assert [seg][1..] == [];
    forall i: nat ensures At([fused], i) == At([run, seg], i) {
      if fused.Covers(i) {
        var x := i - fused.start;
        if i < run.start {
          assert fused.data[x] == pre[x];
        } else if i < run.End() {
          assert fused.data[x] == run.data[i - run.start];
        } else {
          assert fused.data[x] == suf[i - run.End()];
        }
      }
    }
  }

  /** A well-formed run, a segment after it and a well-formed run after
      that form a well-formed store. */
  lemma WellFormedSplice(a: seq<Segment>, m: Segment, b: seq<Segment>)
    requires WellFormed(a) && WellFormed(b) && m.data != []
    requires forall j :: 0 <= j < |a| ==> a[j].End() <= m.start
    requires forall j :: 0 <= j < |b| ==> m.End() <= b[j].start
    ensures WellFormed(a + [m] + b)
  {
    var c := a + [m] + b;
    forall i, j | 0 <= i < j < |c| ensures c[i].End() <= c[j].start {
      if j < |a| {
      } else if j == |a| {
      } else if i < |a| {
        assert c[i].End() <= m.start < m.End() <= c[j].start;
      } else if i == |a| {
      } else {
        assert c[i] == b[i - |a| - 1] && c[j] == b[j - |a| - 1];
      }
    }
  }

  /** Erasing `ps[k]` keeps every other segment and adds none. */
  lemma RemoveMembers(ps: seq<Segment>, k: nat)
    requires k < |ps|
    ensures forall s :: s in ps[..k] + ps[k + 1..] ==> s in ps
    ensures forall s :: s in ps && s != ps[k] ==> s in ps[..k] + ps[k + 1..]
  {
  }

  /** The loop invariant of merge_segment.  `P` is the store on entry, `ps`
      the store with the segments fused so far erased, `k` the iterator
      position and `m` the fused run so far; placing `m` at position `k`
      of `ps` would give the intended contents at every stage. */
  ghost predicate MergeInv(P: seq<Segment>, first: nat, data: seq<Byte>, ps: seq<Segment>, k: nat, m: Segment) {
    k <= |ps| && WellFormed(ps) &&
    m.start <= first && first + |data| <= m.End() &&
    (forall j :: 0 <= j < k ==> ps[j].End() <= m.start) &&
    (forall j :: k < j < |ps| ==> first <= ps[j].start) &&
    (k < |ps| && ps[k].start < first ==> first < ps[k].End()) &&
    (m.End() == first + |data| || forall j :: k <= j < |ps| ==> m.End() <= ps[j].start) &&
    (forall i: nat :: At(ps[..k] + [m] + ps[k..], i) == Overlay(P, first, data, i)) &&
    (forall s :: s in ps ==> s in P) &&
    (forall s :: s in P && (s.End() <= first || first + |data| <= s.start) ==> s in ps)
  }

  /** Before the loop of merge_segment: the iterator stands at the
      predecessor of `first` if that one reaches past `first`, else at the
      lower bound of `first`. */
  lemma MergeInit(P: seq<Segment>, first: nat, data: seq<Byte>, lb: nat, k: nat)
    requires WellFormed(P) && data != [] && lb <= |P|
    requires forall j :: 0 <= j < lb ==> P[j].start < first
    requires forall j :: lb <= j < |P| ==> first <= P[j].start
    requires k == lb || (k + 1 == lb && first < P[k].End())
    requires k == lb && lb > 0 ==> P[lb - 1].End() <= first
    ensures MergeInv(P, first, data, P, k, Segment(first, data))
  {
    var n := Segment(first, data);
    forall j | 0 <= j < k ensures P[j].End() <= first {
      if j < lb - 1 {
        assert P[j].End() <= P[lb - 1].start;
      }
    }
    forall i: nat ensures At(P[..k] + [n] + P[k..], i) == Overlay(P, first, data, i) {
      MergeInitAt(P, first, data, k, i);
    }
  }

  /** Placing the new segment after every segment that ends at or before
      `first` gives the intended byte at `i`. */
  lemma MergeInitAt(P: seq<Segment>, first: nat, data: seq<Byte>, k: nat, i: nat)
    requires k <= |P|
    requires forall j :: 0 <= j < k ==> P[j].End() <= first
    ensures At(P[..k] + [Segment(first, data)] + P[k..], i) == Overlay(P, first, data, i)
  {
    var n := Segment(first, data);
    assert P == P[..k] + P[k..];
    AtConcat(P[..k], P[k..], i);
    AtConcat(P[..k] + [n], P[k..], i);
    AtConcat(P[..k], [n], i);
    assert [n][1..] == [];
    if first <= i < first + |data| {
      AtUncovered(P[..k], i);
    }
  }

  /** The contents part of one turn of the loop of merge_segment. */
  lemma MergeStepContent(P: seq<Segment>, first: nat, data: seq<Byte>, ps: seq<Segment>, k: nat,
                         m: Segment, f: Segment)
    requires k < |ps|
    requires forall i: nat :: At([f], i) == At([m, ps[k]], i)
    requires forall i: nat :: At(ps[..k] + [m] + ps[k..], i) == Overlay(P, first, data, i)
    ensures forall i: nat :: At((ps[..k] + ps[k + 1..])[..k] + [f] + (ps[..k] + ps[k + 1..])[k..], i)
                             == Overlay(P, first, data, i)
  {
    var qs := ps[..k] + ps[k + 1..];
    assert qs[..k] == ps[..k] && qs[k..] == ps[k + 1..];
    assert ps[k..] == [ps[k]] + ps[k + 1..];
    assert ps[..k] + [m] + ps[k..] == ps[..k] + [m, ps[k]] + ps[k + 1..];
    forall i: nat
      ensures At(ps[..k] + [f] + ps[k + 1..], i) == Overlay(P, first, data, i)
    {
      AtSplice(ps[..k], [m, ps[k]], [f], ps[k + 1..], i);
    }
  }

  /** The shape part of one turn of the loop of merge_segment. */
  lemma MergeStepShape(P: seq<Segment>, first: nat, data: seq<Byte>, ps: seq<Segment>, k: nat,
                       m: Segment, f: Segment)
    requires MergeInv(P, first, data, ps, k, m)
    requires k < |ps| && ps[k].start < first + |data|
    requires f.start == (if ps[k].start < m.start then ps[k].start else m.start)
    requires f.End() == (if ps[k].End() > m.End() then ps[k].End() else m.End())
    ensures var qs := ps[..k] + ps[k + 1..];
            && k <= |qs| && WellFormed(qs)
            && f.start <= first && first + |data| <= f.End()
            && (forall j :: 0 <= j < k ==> qs[j].End() <= f.start)
            && (forall j :: k < j < |qs| ==> first <= qs[j].start)
            && (k < |qs| && qs[k].start < first ==> first < qs[k].End())
            && (f.End() == first + |data| || forall j :: k <= j < |qs| ==> f.End() <= qs[j].start)
  {
    var qs := ps[..k] + ps[k + 1..];
    WellFormedRemove(ps, k);
    forall j | k <= j < |qs| ensures qs[j] == ps[j + 1] && ps[k].End() <= qs[j].start {
    }
  }

  /** At each turn of the loop of merge_segment the segment at the
      iterator touches the run fused so far. */
  lemma MergeStep(P: seq<Segment>, first: nat, data: seq<Byte>, ps: seq<Segment>, k: nat, m: Segment)
    requires MergeInv(P, first, data, ps, k, m)
    requires k < |ps| && ps[k].start < first + |data|
    ensures ps[k].start <= m.End() && m.start < ps[k].End()
  {
  }

  /** Erasing the segment at the iterator after fusing it into the run
      keeps the loop invariant of merge_segment. */
  lemma MergeStepDone(P: seq<Segment>, first: nat, data: seq<Byte>, ps: seq<Segment>, k: nat,
                      m: Segment, f: Segment)
    requires MergeInv(P, first, data, ps, k, m)
    requires k < |ps| && ps[k].start < first + |data|
    requires f.start == (if ps[k].start < m.start then ps[k].start else m.start)
    requires f.End() == (if ps[k].End() > m.End() then ps[k].End() else m.End())
    requires forall i: nat :: At([f], i) == At([m, ps[k]], i)
    ensures MergeInv(P, first, data, ps[..k] + ps[k + 1..], k, f)
  {
    MergeStepShape(P, first, data, ps, k, m, f);
    MergeStepContent(P, first, data, ps, k, m, f);
    RemoveMembers(ps, k);
  }

  /** After the loop of merge_segment: the fused run, stored back at
      position `k`, leaves a well-formed store. */
  lemma MergeFinishShape(P: seq<Segment>, first: nat, data: seq<Byte>, ps: seq<Segment>, k: nat, m: Segment)
    requires MergeInv(P, first, data, ps, k, m) && data != []
    requires !(k < |ps| && ps[k].start < first + |data|)
    ensures WellFormed(ps[..k] + [m] + ps[k..])
  {
    forall j | 0 <= j < |ps[k..]| ensures m.End() <= ps[k..][j].start {
      assert ps[k..][j] == ps[k + j];
      if j > 0 {
        assert ps[k].End() <= ps[k + j].start;
      }
    }
    WellFormedSplice(ps[..k], m, ps[k..]);
  }

  /** After the loop of merge_segment: the stored segments are the
      untouched ones and the fused run. */
  lemma MergeFinishMembers(P: seq<Segment>, first: nat, data: seq<Byte>, ps: seq<Segment>, k: nat, m: Segment)
    requires MergeInv(P, first, data, ps, k, m)
    ensures forall s :: s in P && (s.End() <= first || first + |data| <= s.start) ==> s in ps[..k] + [m] + ps[k..]
    ensures forall s :: s in ps[..k] + [m] + ps[k..] ==> s in P || (s.start <= first && first + |data| <= s.End())
  {
  }

  /** merge_segment, on the store as a value: lays the non-empty run `data`
      at `first` over `pending`, fusing it with every stored segment it
      overlaps into one segment.  Segments that only touch it end to end
      stay separate. */
  method MergeSegment(pending: seq<Segment>, first: nat, data: seq<Byte>)
    returns (merged: seq<Segment>)
    requires WellFormed(pending)
    requires data != []
    ensures WellFormed(merged)
    ensures forall i: nat :: At(merged, i) == Overlay(pending, first, data, i)
    ensures forall s :: s in pending && (s.End() <= first || first + |data| <= s.start) ==> s in merged
    ensures forall s :: s in merged ==> s in pending || (s.start <= first && first + |data| <= s.End())
  {
    var endIndex: nat := first + |data|;
    WellFormedKeysAscending(pending);
    var k := LowerBound(pending, first);
    ghost var lb := k;
    // step back to the predecessor, and forward again if it ends before `first`
    if k > 0 {
      k := k - 1;
      if pending[k].End() <= first {
        k := k + 1;
      }
    }
    MergeInit(pending, first, data, lb, k);

    var run := Segment(first, data);
    var ps := pending;
    while k < |ps| && ps[k].start < endIndex
      invariant MergeInv(pending, first, data, ps, k, run)
      decreases |ps| - k
    {
      MergeStep(pending, first, data, ps, k, run);
      // merge_segment's `else ++it` branch (src/reassembler.cc:108-110) is never taken
      assert ps[k].start <= run.End();
      var fused := ExtendRun(run, ps[k]);
      MergeStepDone(pending, first, data, ps, k, run, fused);
      run := fused;
      ps := ps[..k] + ps[k + 1..];
    }

    MergeFinishShape(pending, first, data, ps, k, run);
    MergeFinishMembers(pending, first, data, ps, k, run);
    merged := ps[..k] + [run] + ps[k..];
  }


  // ------------------------------------------------------------ insert

  /** What the reassembler should hold at absolute index `i` once the
      segment (first, data) has arrived over the store `ps`: the segment's
      byte where `i` lies inside the acceptance window [lo, hi), otherwise
      what the store held. */
  ghost function Arrival(ps: seq<Segment>, first: nat, data: seq<Byte>, lo: nat, hi: nat, i: nat): (r: Option<Byte>) {
    if lo <= i < hi && first <= i < first + |data| then Some(data[i - first]) else At(ps, i)
  }

  /** A segment with no byte inside the window leaves the contents as they were. */
  lemma NoArrival(ps: seq<Segment>, first: nat, data: seq<Byte>, lo: nat, hi: nat)
    requires hi <= first || first + |data| <= lo || hi <= lo
    ensures forall i: nat :: Arrival(ps, first, data, lo, hi, i) == At(ps, i)
  {
  }

  /** Clipping a segment to the window and laying the clipped run over
      the store gives the contents Arrival describes. */
  lemma ClippedArrival(ps: seq<Segment>, firstIndex: nat, data: seq<Byte>, lo: nat, hi: nat,
                       first: nat, d: seq<Byte>)
    requires first == (if firstIndex < lo then lo else firstIndex)
    requires first + |d| == (if firstIndex + |data| < hi then firstIndex + |data| else hi)
    requires d == data[first - firstIndex .. first - firstIndex + |d|]
    ensures forall i: nat :: Arrival(ps, firstIndex, data, lo, hi, i) == Overlay(ps, first, d, i)
  {
  }

  /** The bytes written so far and the pending bytes agree with the byte
      sequence `S` the sender transmits: the written bytes are a prefix of
      `S`, and every pending byte is `S`'s byte at that index. */
  ghost predicate Agrees(S: seq<Byte>, written: seq<Byte>, ps: seq<Segment>) {
    |written| <= |S| && written == S[..|written|] &&
    forall i: nat :: At(ps, i).Some? ==> i < |S| && At(ps, i).value == S[i]
  }

  /** The segment (first, data) is a piece of `S`. */
  ghost predicate FromSource(S: seq<Byte>, first: nat, data: seq<Byte>) {
    first + |data| <= |S| && data == S[first..first + |data|]
  }

  /** What an insert of (first, data) leaves behind, starting from the
      store `p0` with `w0` written and the window [lo, hi): the stream
      `w` extends `w0` by the bytes Arrival gives, and the store `ps`
      holds exactly what Arrival gives past the end of `w`. */
  ghost predicate Delivered(p0: seq<Segment>, w0: seq<Byte>, first: nat, data: seq<Byte>, lo: nat, hi: nat,
                            ps: seq<Segment>, w: seq<Byte>) {
    |w0| <= |w| && w[..|w0|] == w0 &&
    (forall i :: |w0| <= i < |w| ==> Arrival(p0, first, data, lo, hi, i) == Some(w[i])) &&
    (forall i: nat :: |w| <= i ==> At(ps, i) == Arrival(p0, first, data, lo, hi, i))
  }

  /** An insert whose bytes all fall outside the window delivers nothing. */
  lemma DeliveredNothing(p0: seq<Segment>, w0: seq<Byte>, first: nat, data: seq<Byte>, lo: nat, hi: nat)
    requires hi <= first || first + |data| <= lo || hi <= lo
    ensures Delivered(p0, w0, first, data, lo, hi, p0, w0)
  {
    NoArrival(p0, first, data, lo, hi);
  }

  /** Given the shape the store has between inserts, an insert with no byte
      inside the window changes nothing: the stream receives no byte and
      the store holds the same bytes at every index. */
  lemma DiscardChangesNothing(p0: seq<Segment>, w0: seq<Byte>, first: nat, data: seq<Byte>, lo: nat, hi: nat,
                              ps: seq<Segment>, w: seq<Byte>)
    requires hi <= first || first + |data| <= lo || hi <= lo
    requires |w0| == lo
    requires forall j :: 0 <= j < |p0| ==> lo < p0[j].start
    requires forall j :: 0 <= j < |ps| ==> |w| <= ps[j].start
    requires Delivered(p0, w0, first, data, lo, hi, ps, w)
    ensures w == w0
    ensures forall i: nat :: At(ps, i) == At(p0, i)
  {
    NoArrival(p0, first, data, lo, hi);
    if |w| > |w0| {
      AtUncovered(p0, |w0|);
      assert false;
    }
    assert w == w[..|w0|];
    forall i: nat ensures At(ps, i) == At(p0, i) {
      if i < |w| {
        AtUncovered(ps, i);
        AtUncovered(p0, i);
      }
    }
  }

  /** Draining a store that holds the run (first, data), which lies inside
      the window, laid over `p0` delivers what Arrival describes. */
  lemma DeliveredByDrain(p0: seq<Segment>, w0: seq<Byte>, first: nat, data: seq<Byte>, lo: nat, hi: nat,
                         p1: seq<Segment>, ps: seq<Segment>, w: seq<Byte>)
    requires lo <= first && first + |data| <= hi
    requires forall i: nat :: At(p1, i) == Overlay(p0, first, data, i)
    requires Drained(p1, w0, ps, w)
    ensures Delivered(p0, w0, first, data, lo, hi, ps, w)
  {
  }

  /** What is delivered for the clipped run is what is delivered for the
      segment as it arrived. */
  lemma DeliveredClip(p0: seq<Segment>, w0: seq<Byte>, firstIndex: nat, data: seq<Byte>, lo: nat, hi: nat,
                      first: nat, d: seq<Byte>, ps: seq<Segment>, w: seq<Byte>)
    requires first == (if firstIndex < lo then lo else firstIndex)
    requires first + |d| == (if firstIndex + |data| < hi then firstIndex + |data| else hi)
    requires d == data[first - firstIndex .. first - firstIndex + |d|]
    requires Delivered(p0, w0, first, d, lo, hi, ps, w)
    ensures Delivered(p0, w0, firstIndex, data, lo, hi, ps, w)
  {
    ClippedArrival(p0, firstIndex, data, lo, hi, first, d);
    forall i: nat ensures Arrival(p0, first, d, lo, hi, i) == Arrival(p0, firstIndex, data, lo, hi, i) {
    }
  }

  /** Once nothing is keyed at the write position, or there is no room
      left and every segment ends within the room, every key lies past the
      write position. */
  lemma NothingAtNext(ps: seq<Segment>, next: nat, room: nat)
    requires WellFormed(ps) && Within(ps, 0, next + room)
    requires forall j :: 0 <= j < |ps| ==> next <= ps[j].start
    requires (forall j :: 0 <= j < |ps| ==> ps[j].start != next) || room == 0
    ensures forall j :: 0 <= j < |ps| ==> next < ps[j].start
  {
  }

  /** An insert of a piece of `S` keeps the reassembler in agreement with
      `S`: in particular everything written so far is a prefix of `S`. */
  lemma DeliveredAgrees(S: seq<Byte>, p0: seq<Segment>, w0: seq<Byte>, first: nat, data: seq<Byte>,
                        lo: nat, hi: nat, ps: seq<Segment>, w: seq<Byte>)
    requires Agrees(S, w0, p0) && FromSource(S, first, data)
    requires Delivered(p0, w0, first, data, lo, hi, ps, w)
    requires forall j :: 0 <= j < |ps| ==> |w| <= ps[j].start
    ensures Agrees(S, w, ps)
  {
    forall i | |w0| <= i < |w| ensures i < |S| && w[i] == S[i] {
      assert Arrival(p0, first, data, lo, hi, i) == Some(w[i]);
      if lo <= i < hi && first <= i < first + |data| {
        assert data[i - first] == S[i];
      } else {
        assert At(p0, i).Some?;
      }
    }
    assert |w| <= |S| by {
      if |w| > |w0| {
        var i := |w| - 1;
        assert i < |S| && w[i] == S[i];
      }
    }
    forall i | 0 <= i < |w| ensures w[i] == S[i] {
      if i < |w0| {
        assert w[i] == w[..|w0|][i];
      }
    }
    forall i: nat | At(ps, i).Some? ensures i < |S| && At(ps, i).value == S[i] {
      if i < |w| {
        AtUncovered(ps, i);
      }
    }
  }

  // ------------------------------------------------------------ assemble_consecutive_data

  /** The store after its first segment has had its first `n` bytes
      pushed: the rest of that segment, if any, stays at its new key. */
  ghost function Drain(ps: seq<Segment>, n: nat): (r: seq<Segment>)
    requires ps != [] && n <= |ps[0].data|
  {
    if n < |ps[0].data| then [Segment(ps[0].start + n, ps[0].data[n..])] + ps[1..] else ps[1..]
  }

  /** The loop invariant of assemble_consecutive_data, on values.  Starting
      from the store `p0` with `w0` written, the bytes written since are
      the ones `p0` held there, the store `ps` still holds every byte of
      `p0` past them. */
  ghost predicate Drained(p0: seq<Segment>, w0: seq<Byte>, ps: seq<Segment>, w: seq<Byte>) {
    |w0| <= |w| && w[..|w0|] == w0 &&
    (forall i :: |w0| <= i < |w| ==> At(p0, i) == Some(w[i])) &&
    (forall i: nat :: |w| <= i ==> At(ps, i) == At(p0, i))
  }

  /** Nothing written yet: the invariant holds on entry. */
  lemma DrainedInit(ps: seq<Segment>, w: seq<Byte>)
    ensures Drained(ps, w, ps, w)
  {
  }

  /** Draining keeps the store well formed, with no key below the new
      write position. */
  lemma DrainShape(ps: seq<Segment>, n: nat)
    requires WellFormed(ps) && ps != [] && n <= |ps[0].data|
    ensures WellFormed(Drain(ps, n))
    ensures forall j :: 0 <= j < |Drain(ps, n)| ==> ps[0].start + n <= Drain(ps, n)[j].start
  {
    var s, qs := ps[0], Drain(ps, n);
    forall j | 0 <= j < |ps[1..]| ensures s.End() <= ps[1..][j].start {
      assert ps[1..][j] == ps[j + 1];
    }
    if n < |s.data| {
      var r := Segment(s.start + n, s.data[n..]);
      assert qs == [] + [r] + ps[1..];
      WellFormedSplice([], r, ps[1..]);
    } else {
      assert qs == ps[1..];
    }
  }

  /** Draining moves no byte past the write position. */
  lemma DrainKept(ps: seq<Segment>, n: nat, i: nat)
    requires ps != [] && n <= |ps[0].data| && ps[0].start + n <= i
    ensures At(Drain(ps, n), i) == At(ps, i)
  {
  }

  /** Draining keeps the store below any bound it was below. */
  lemma DrainBound(ps: seq<Segment>, n: nat, bound: nat)
    requires ps != [] && n <= |ps[0].data| && Within(ps, 0, bound)
    ensures Within(Drain(ps, n), 0, bound)
  {
  }

  /** The bytes pushed are the bytes the store held there. */
  lemma DrainWritten(p0: seq<Segment>, w0: seq<Byte>, ps: seq<Segment>, w: seq<Byte>, n: nat)
    requires Drained(p0, w0, ps, w)
    requires ps != [] && ps[0].start == |w| && n <= |ps[0].data|
    ensures var w' := w + ps[0].data[..n];
            w'[..|w0|] == w0 && forall i :: |w0| <= i < |w'| ==> At(p0, i) == Some(w'[i])
  {
  }

  /** Pushing the first `n` bytes of the segment keyed at the write
      position keeps the invariant. */
  lemma DrainStep(p0: seq<Segment>, w0: seq<Byte>, ps: seq<Segment>, w: seq<Byte>, n: nat)
    requires Drained(p0, w0, ps, w)
    requires ps != [] && ps[0].start == |w| && n <= |ps[0].data|
    ensures Drained(p0, w0, Drain(ps, n), w + ps[0].data[..n])
  {
    DrainWritten(p0, w0, ps, w, n);
    forall i: nat | |w| + n <= i ensures At(Drain(ps, n), i) == At(p0, i) {
      DrainKept(ps, n, i);
    }
  }

  /** Two stretches of draining make one. */
  lemma DrainedTrans(p0: seq<Segment>, w0: seq<Byte>, p1: seq<Segment>, w1: seq<Byte>,
                     p2: seq<Segment>, w2: seq<Byte>)
    requires Drained(p0, w0, p1, w1) && Drained(p1, w1, p2, w2)
    ensures Drained(p0, w0, p2, w2)
  {
  }

  // ------------------------------------------------------------ the reassembler

  /** The clipping done by insert: the segment (firstIndex, data) is
      discarded when it starts at or past the window end `maxAcceptable`,
      or starts before `next` and has nothing left once cut at
      `maxAcceptable` and at `next`; otherwise it is cut to the part inside
      [next, maxAcceptable) (empty only when the segment itself was). */
  method Clip(firstIndex: nat, data: seq<Byte>, next: nat, maxAcceptable: nat)
    returns (keep: bool, first: nat, d: seq<Byte>)
    requires next <= maxAcceptable
    ensures keep <==> firstIndex < maxAcceptable &&
                      (next <= firstIndex || (next < firstIndex + |data| && next < maxAcceptable))
    ensures keep ==> first == (if firstIndex < next then next else firstIndex)
    ensures keep ==> first + |d| == (if firstIndex + |data| < maxAcceptable then firstIndex + |data| else maxAcceptable)
    ensures keep ==> next <= first <= firstIndex + |data| && first + |d| <= maxAcceptable
    ensures keep ==> firstIndex <= first && first + |d| <= firstIndex + |data| &&
                     d == data[first - firstIndex .. first - firstIndex + |d|]
  {
    if firstIndex >= maxAcceptable {
      return false, firstIndex, data;
    }
    first, d := firstIndex, data;
    if first + |d| > maxAcceptable {
      d := d[..maxAcceptable - first];
    }
    if first < next {
      if first + |d| <= next {
        return false, first, d;
      }
      d := d[next - first..];
      first := next;
    }
    keep := true;
  }

  class Reassembler {
    const output: ByteStream
    /** The index of the next byte the stream expects. */
    var next: nat
    var finalKnown: bool
    var finalIndex: nat
    /** The pending store, sorted by key. */
    var pending: seq<Segment>

    /** The reassembler is the only writer of `output`, so the stream holds
        exactly the bytes before `next`; the store is well formed and
        holds nothing before `next`. */
    ghost predicate Sound()
      reads this`next, this`pending, output
    {
      output.Valid() && |output.written| == next &&
      WellFormed(pending) &&
      forall j :: 0 <= j < |pending| ==> next <= pending[j].start
    }

    /** Every pending byte lies below next + available capacity. */
    ghost predicate InWindow()
      reads this`next, this`pending, output
    {
      output.Valid() && Within(pending, 0, next + output.AvailableCapacity())
    }

    /** The state between two calls: sound, inside the window, and
        nothing pending at `next` itself (it would have been pushed). */
    ghost predicate Valid()
      reads this`next, this`pending, output
    {
      Sound() && InWindow() &&
      forall j :: 0 <= j < |pending| ==> next < pending[j].start
    }

    constructor (output: ByteStream)
      requires output.Valid() && output.pushed == 0
      ensures this.output == output
      ensures next == 0 && !finalKnown && pending == []
      ensures Valid()
    {
      this.output := output;
      next := 0;
      finalKnown := false;
      finalIndex := 0;
      pending := [];
    }

    /** Closes the stream once the final index is known and reached. */
    method CheckClose()
      requires output.Valid()
      modifies output
      ensures output.Valid()
      ensures output.closed == (old(output.closed) || (finalKnown && next >= finalIndex))
      ensures output.buffer == old(output.buffer) && output.written == old(output.written)
      ensures output.pushed == old(output.pushed) && output.popped == old(output.popped)
      ensures output.error == old(output.error)
    {
      if finalKnown && next >= finalIndex {
        output.Close();
      }
    }

    /** Pushes the pending bytes that continue the stream at `next` into the
        output, as far as its capacity allows. */
    method AssembleConsecutive()
      requires Sound()
      modifies this`next, this`pending, output
      ensures Sound()
      ensures Drained(old(pending), old(output.written), pending, output.written)
      ensures (forall j :: 0 <= j < |pending| ==> pending[j].start != next) || output.AvailableCapacity() == 0
      ensures next + output.AvailableCapacity() == old(next + output.AvailableCapacity())
      ensures old(InWindow()) ==> InWindow()
      ensures output.popped == old(output.popped) && output.closed == old(output.closed)
      ensures output.error == old(output.error)
    {
      DrainedInit(pending, output.written);
      while true
        invariant Sound()
        invariant Drained(old(pending), old(output.written), pending, output.written)
        invariant next + output.AvailableCapacity() == old(next + output.AvailableCapacity())
        invariant old(InWindow()) ==> InWindow()
        invariant output.popped == old(output.popped) && output.closed == old(output.closed)
        invariant output.error == old(output.error)
        decreases |pending|
      {
        ghost var p1, w1 := pending, output.written;
        var done := AssembleOne();
        DrainedTrans(old(pending), old(output.written), p1, w1, pending, output.written);
        if done {
          break;
        }
      }
    }

    /** One turn of the loop of assemble_consecutive_data: looks up the
        segment keyed at `next` and pushes as much of it as fits, putting
        the rest back.  `done` says the loop stops here. */
    method AssembleOne() returns (done: bool)
      requires Sound()
      modifies this`next, this`pending, output
      ensures Sound()
      ensures Drained(old(pending), old(output.written), pending, output.written)
      ensures done ==> (forall j :: 0 <= j < |pending| ==> pending[j].start != next) || output.AvailableCapacity() == 0
      ensures !done ==> |pending| < old(|pending|)
      ensures next + output.AvailableCapacity() == old(next + output.AvailableCapacity())
      ensures old(InWindow()) ==> InWindow()
      ensures output.popped == old(output.popped) && output.closed == old(output.closed)
      ensures output.error == old(output.error)
    {
      DrainedInit(pending, output.written);
      WellFormedKeysAscending(pending);
      var found := Find(pending, next);
      if found.None? {
        return true;
      }
      var k := found.value;
      // every key is at least `next`, so the one equal to it comes first
      // and erasing it leaves the tail of the store
      assert k == 0;
      ghost var before, written0, bound := pending, output.written, next + output.AvailableCapacity();
      var seg := pending[k];
      pending := pending[k + 1..];
      var n := Min(|seg.data|, output.AvailableCapacity());
      if n > 0 {
        PushAndAdvance(seg.data[..n]);
      }
      done := false;
      if n < |seg.data| {
        // the remainder's key is below every key left in the store
        pending := [Segment(next, seg.data[n..])] + pending;
        done := true;
      }
      assert pending == Drain(before, n);
      assert output.written == written0 + seg.data[..n];
      DrainStep(before, written0, before, written0, n);
      DrainShape(before, n);
      if Within(before, 0, bound) {
        DrainBound(before, n, bound);
      }
    }

    /** insert: takes the segment (firstIndex, data), flagged as the last one
        or not, clips it to the window of indices the stream can take, merges
        what is left into the store, pushes whatever now continues the
        stream and closes the stream once the final index is reached. */
    method Insert(firstIndex: nat, data: seq<Byte>, isLastSubstring: bool)
      requires Valid()
      modifies this, output
      ensures Valid()
      ensures isLastSubstring ==> finalKnown && finalIndex == firstIndex + |data|
      ensures !isLastSubstring ==> finalKnown == old(finalKnown) && finalIndex == old(finalIndex)
      ensures Delivered(old(pending), old(output.written), firstIndex, data,
                        old(next), old(next + output.AvailableCapacity()), pending, output.written)
      ensures output.closed == (old(output.closed) || (finalKnown && next >= finalIndex))
      ensures output.popped == old(output.popped) && output.error == old(output.error)
    {
      if isLastSubstring {
        finalKnown := true;
        finalIndex := firstIndex + |data|;
      }
      Accept(firstIndex, data);
      CheckClose();
    }

    /** The body of insert between marking the final index and checking
        the close condition: clips (firstIndex, data) to the window
        [next, next + available capacity), discarding it when nothing is
        left, and hands what is left to the store. */
    method Accept(firstIndex: nat, data: seq<Byte>)
      requires Valid()
      modifies this`pending, this`next, output
      ensures Valid()
      ensures Delivered(old(pending), old(output.written), firstIndex, data,
                        old(next), old(next + output.AvailableCapacity()), pending, output.written)
      ensures output.popped == old(output.popped) && output.closed == old(output.closed)
      ensures output.error == old(output.error)
    {
      var maxAcceptable := next + output.AvailableCapacity();
      ghost var p0, w0, lo := pending, output.written, next;
      var keep, first, d := Clip(firstIndex, data, next, maxAcceptable);
      if keep {
        StoreAndAssemble(first, d);
        DeliveredClip(p0, w0, firstIndex, data, lo, maxAcceptable, first, d, pending, output.written);
      } else {
        DeliveredNothing(p0, w0, firstIndex, data, lo, maxAcceptable);
      }
    }

    /** The tail of insert, once the segment is clipped to the window: stores
        the run (first, d) if it is not empty, then pushes what continues
        the stream. */
    method StoreAndAssemble(first: nat, d: seq<Byte>)
      requires Valid()
      requires next <= first && first + |d| <= next + output.AvailableCapacity()
      modifies this`pending, this`next, output
      ensures Valid()
      ensures Delivered(old(pending), old(output.written), first, d,
                        old(next), old(next + output.AvailableCapacity()), pending, output.written)
      ensures output.popped == old(output.popped) && output.closed == old(output.closed)
      ensures output.error == old(output.error)
    {
      ghost var p0, w0, lo, hi := pending, output.written, next, next + output.AvailableCapacity();
      if d != [] {
        pending := MergeSegment(pending, first, d);
        OverlayWithin(p0, first, d, pending, lo, hi);
      }
      ghost var p1 := pending;
      AssembleConsecutive();
      DeliveredByDrain(p0, w0, first, d, lo, hi, p1, pending, output.written);
      NothingAtNext(pending, next, output.AvailableCapacity());
    }

    /** count_bytes_pending: the number of bytes held in the store. */
    method CountBytesPending() returns (total: nat)
      ensures total == TotalLength(pending)
      ensures Valid() ==> total <= output.AvailableCapacity()
    {
      total := 0;
      var j := 0;
      while j < |pending|
        invariant j <= |pending|
        invariant total + TotalLength(pending[j..]) == TotalLength(pending)
      {
        assert pending[j..][1..] == pending[j + 1..];
        total := total + |pending[j].data|;
        j := j + 1;
      }
      if Valid() {
        TotalLengthWithin(pending, next, next + output.AvailableCapacity());
      }
    }

    /** A pop by the stream's reader between two inserts keeps the
        reassembler's invariant: it leaves the written bytes alone and
        only adds room to the window. */
    method ReaderPop(len: nat)
      requires Valid()
      modifies output
      ensures Valid()
      ensures output.written == old(output.written) && output.closed == old(output.closed)
      ensures len > |old(output.buffer)| ==>
                output.error && output.buffer == old(output.buffer) && output.popped == old(output.popped)
      ensures len <= |old(output.buffer)| ==>
                output.buffer == old(output.buffer)[len..] && output.popped == old(output.popped) + len
                && output.error == old(output.error)
      ensures output.AvailableCapacity() >= old(output.AvailableCapacity())
    {
      output.Pop(len);
    }

    /** Pushes `chunk`, which fits, and moves `next` past it. */
    method PushAndAdvance(chunk: seq<Byte>)
      requires output.Valid() && |chunk| <= output.AvailableCapacity()
      modifies this`next, output
      ensures output.Valid()
      ensures output.written == old(output.written) + chunk && next == old(next) + |chunk|
      ensures output.AvailableCapacity() == old(output.AvailableCapacity()) - |chunk|
      ensures output.popped == old(output.popped) && output.closed == old(output.closed)
      ensures output.error == old(output.error)
    {
      output.Push(chunk);
      next := next + |chunk|;
    }
  }
}
