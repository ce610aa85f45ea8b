/** The 64-slot anti-replay window of the record layer (`window` and
    `window.accept` in gocode/rtc/rtc.go), the sliding-window scheme of
    section 3.4.3 of RFC 4303: `maxSeq` is the highest sequence number
    accepted so far and bit k of `bitmap` records that `maxSeq - k` was
    accepted.

    Go keeps the bitmap in a `uint64`; here it is the sequence of its 64 bits,
    least significant first, and the three operations `accept` applies to it
    (`<<=`, `|=` and `(b >> k) & 1`) are written out on those bits. */
module ReplayWindow {
  import opened Bytes

  /** The `size` every window is created with; the bitmap has one bit per slot. */
  const WindowSize: nat := 64

  /** A `uint64` as its 64 bits; `b[k]` is bit k. */
  type Bitmap = b: seq<bool> | |b| == 64 witness Zero()

  /** The `uint64` 0. */
  function Zero(): (b: seq<bool>)
    ensures |b| == 64 && forall k :: 0 <= k < 64 ==> !b[k]
  {
    seq(64, k => false)
  }

  /** `b << n` on a `uint64`: bit k takes bit `k - n`, bits shifted past 63 are lost. */
  function ShiftLeft(b: Bitmap, n: nat): (r: Bitmap)
    ensures forall k :: 0 <= k < 64 ==> r[k] == (n <= k && b[k - n])
  {
    if n >= 64 then Zero() else Zero()[..n] + b[..64 - n]
  }

  /** `b | (1 << k)`: bit k set, the others kept. */
  function SetBit(b: Bitmap, k: nat): (r: Bitmap)
    requires k < 64
    ensures forall j :: 0 <= j < 64 ==> r[j] == (j == k || b[j])
  {
    b[k := true]
  }

  /** The value held by a window: Go's `maxSeq` and `bitmap` fields. */
  datatype WindowState = WindowState(maxSeq: u64, bitmap: Bitmap)

  /** The window `NewSession` installs: `maxSeq = 0`, `bitmap = 0`. */
  function Initial(): WindowState
  {
    WindowState(0, Zero())
  }

  /** One call of `accept(s)`: the window afterwards and the verdict. */
  function AcceptStep(w: WindowState, s: u64): (WindowState, bool)
  {
    if s > w.maxSeq then
      var shift := s - w.maxSeq;
      var moved := if shift >= WindowSize then Zero() else ShiftLeft(w.bitmap, shift);
      (WindowState(s, SetBit(moved, 0)), true)
    else
      var offset := w.maxSeq - s;
      if offset >= WindowSize then (w, false)
      else if w.bitmap[offset] then (w, false)
      else (WindowState(w.maxSeq, SetBit(w.bitmap, offset)), true)
  }

  // What one call does, case by case (rtc.go lines 194-213).

  /** A newer `s` is accepted and becomes `maxSeq`; bit 0 is set, and every
      other bit is the old bit `k - shift`, none surviving a shift of 64 or more. */
  lemma AcceptNewer(w: WindowState, s: u64)
    requires s > w.maxSeq
    ensures var (w', ok) := AcceptStep(w, s);
      ok && w'.maxSeq == s && w'.bitmap[0] &&
      forall k :: 1 <= k < 64 ==>
        w'.bitmap[k] == (s - w.maxSeq < WindowSize && s - w.maxSeq <= k && w.bitmap[k - (s - w.maxSeq)])
  {
  }

  /** Anything 64 or more behind `maxSeq` is turned away and changes nothing. */
  lemma AcceptTooOld(w: WindowState, s: u64)
    requires s <= w.maxSeq && w.maxSeq - s >= WindowSize
    ensures AcceptStep(w, s) == (w, false)
  {
  }

  /** Inside the window: a marked `s` is turned away with nothing changed;
      an unmarked one is accepted, its bit alone is set and `maxSeq` stays. */
  lemma AcceptInWindow(w: WindowState, s: u64)
    requires s <= w.maxSeq && w.maxSeq - s < WindowSize
    ensures var (w', ok) := AcceptStep(w, s);
      var offset := w.maxSeq - s;
      (w.bitmap[offset] ==> w' == w && !ok) &&
      (!w.bitmap[offset] ==>
         ok && w'.maxSeq == w.maxSeq &&
         forall k :: 0 <= k < 64 ==> w'.bitmap[k] == (k == offset || w.bitmap[k]))
  {
  }

  /** `s` is something the window turns away: not newer than `maxSeq`, and
      either 64 or more behind it or already marked in the bitmap. */
  predicate Rejects(w: WindowState, s: u64)
  {
    s <= w.maxSeq && (w.maxSeq - s >= WindowSize || w.bitmap[w.maxSeq - s])
  }

  /** `accept` says no exactly to what the window rejects, and never lowers `maxSeq`. */
  lemma AcceptVerdict(w: WindowState, s: u64)
    ensures AcceptStep(w, s).1 <==> !Rejects(w, s)
    ensures AcceptStep(w, s).0.maxSeq >= w.maxSeq
  {
  }

  /** Once accepted, a sequence number is rejected by the window that results. */
  lemma AcceptedNowRejected(w: WindowState, s: u64)
    requires AcceptStep(w, s).1
    ensures Rejects(AcceptStep(w, s).0, s)
  {
  }

  /** A rejected sequence number stays rejected whatever is offered next:
      it either keeps its bit, moved up with the rest, or falls 64 behind. */
  lemma RejectsStable(w: WindowState, s: u64, t: u64)
    requires Rejects(w, s)
    ensures Rejects(AcceptStep(w, t).0, s)
  {
    var w' := AcceptStep(w, t).0;
    if t > w.maxSeq {
      var shift := t - w.maxSeq;
      var k := t - s;
      if k < WindowSize {
        assert w.bitmap[k - shift];
      }
    }
  }

  /** `acc` is exactly the set of sequence numbers accepted so far, as far
      as the window can tell: none is above `maxSeq`, and bit k is set
      exactly when `maxSeq - k` is in `acc`. */
  ghost predicate Tracks(w: WindowState, acc: set<u64>)
  {
    (forall s :: s in acc ==> s <= w.maxSeq) &&
    (forall k :: 0 <= k < 64 ==> (w.bitmap[k] <==> k <= w.maxSeq && w.maxSeq - k in acc))
  }

  lemma InitialTracks()
    ensures Tracks(Initial(), {})
  {
  }

  /** The central fact about `accept`: from a window that tracks `acc`, it
      accepts `s` exactly when `s` is newer than `maxSeq`, or less than 64
      behind it and not accepted before (so no replay gets through and nothing
      fresh inside the window is refused); the new window tracks `acc` with
      `s` added when it was accepted. */
  lemma AcceptTracks(w: WindowState, acc: set<u64>, s: u64)
    requires Tracks(w, acc)
    ensures AcceptStep(w, s).1 <==> !(s <= w.maxSeq && (w.maxSeq - s >= WindowSize || s in acc))
    ensures Tracks(AcceptStep(w, s).0, if AcceptStep(w, s).1 then acc + {s} else acc)
  {
    var (w', ok) := AcceptStep(w, s);
    if s > w.maxSeq {
      var shift := s - w.maxSeq;
      forall k | 0 <= k < 64
        ensures w'.bitmap[k] <==> k <= w'.maxSeq && w'.maxSeq - k in acc + {s}
      {
        if 0 < k && shift <= k && shift < WindowSize {
          assert w.maxSeq - (k - shift) == s - k;
        }
      }
    } else if w.maxSeq - s < WindowSize {
      assert s == w.maxSeq - (w.maxSeq - s);
    }
  }

  // A run of calls on one window.

  /** The window after offering `seqs` in order, and each call's verdict. */
  function Run(w: WindowState, seqs: seq<u64>): (r: (WindowState, seq<bool>))
    ensures |r.1| == |seqs|
    decreases seqs
  {
    if seqs == [] then (w, [])
    else
      var (w1, ok) := AcceptStep(w, seqs[0]);
      var (wn, oks) := Run(w1, seqs[1..]);
      (wn, [ok] + oks)
  }

  /** A sequence number the window rejects is rejected at every later offer
      and is still rejected at the end. */
  lemma {:induction false} RunKeepsRejecting(w: WindowState, seqs: seq<u64>, s: u64)
    requires Rejects(w, s)
    ensures Rejects(Run(w, seqs).0, s)
    ensures forall j :: 0 <= j < |seqs| && seqs[j] == s ==> !Run(w, seqs).1[j]
    decreases seqs
  {
    if seqs != [] {
      var w1 := AcceptStep(w, seqs[0]).0;
      AcceptVerdict(w, seqs[0]);
      RejectsStable(w, s, seqs[0]);
      RunKeepsRejecting(w1, seqs[1..], s);
      forall j | 1 <= j < |seqs| && seqs[j] == s
        ensures !Run(w, seqs).1[j]
      {
        assert seqs[1..][j - 1] == s;
      }
    }
  }

  /** Replay safety: once `accept(s)` has returned true, every later
      `accept(s)` on the same window returns false. */
  lemma {:induction false} ReplaySafe(w: WindowState, seqs: seq<u64>, i: nat, j: nat)
    requires i < j < |seqs| && seqs[i] == seqs[j]
    requires Run(w, seqs).1[i]
    ensures !Run(w, seqs).1[j]
    decreases seqs
  {
    var w1 := AcceptStep(w, seqs[0]).0;
    if i == 0 {
      AcceptedNowRejected(w, seqs[0]);
      RunKeepsRejecting(w1, seqs[1..], seqs[0]);
      assert seqs[1..][j - 1] == seqs[0];
    } else {
      ReplaySafe(w1, seqs[1..], i - 1, j - 1);
    }
  }

  /** The largest of m and the elements of `seqs`. */
  function MaxOf(m: u64, seqs: seq<u64>): (r: u64)
    ensures r >= m && forall j :: 0 <= j < |seqs| ==> r >= seqs[j]
    ensures r == m || exists j :: 0 <= j < |seqs| && r == seqs[j]
    decreases seqs
  {
    if seqs == [] then m
    else
      var r := MaxOf(if seqs[0] > m then seqs[0] else m, seqs[1..]);
      assert forall j :: 1 <= j < |seqs| ==> seqs[j] == seqs[1..][j - 1];
      r
  }

  /** `maxSeq` never decreases: after a run it is the largest of its old value
      and every sequence number offered. */
  lemma {:induction false} RunMaxSeq(w: WindowState, seqs: seq<u64>)
    ensures Run(w, seqs).0.maxSeq == MaxOf(w.maxSeq, seqs)
    ensures Run(w, seqs).0.maxSeq >= w.maxSeq
    decreases seqs
  {
    if seqs != [] {
      var w1 := AcceptStep(w, seqs[0]).0;
      assert w1.maxSeq == if seqs[0] > w.maxSeq then seqs[0] else w.maxSeq;
      RunMaxSeq(w1, seqs[1..]);
    }
  }

  /** A window whose `maxSeq` has reached 2^64 - 1 refuses every number 64
      or more below it, at every offer, whatever else arrives in between. */
  lemma SaturatedRunRefuses(w: WindowState, seqs: seq<u64>)
    requires w.maxSeq == TwoTo64 - 1
    ensures forall j :: 0 <= j < |seqs| && seqs[j] < TwoTo64 - WindowSize ==> !Run(w, seqs).1[j]
  {
    forall j | 0 <= j < |seqs| && seqs[j] < TwoTo64 - WindowSize
      ensures !Run(w, seqs).1[j]
    {
      RunKeepsRejecting(w, seqs, seqs[j]);
    }
  }

  /** Records delivered in order are all accepted: a strictly increasing run
      of sequence numbers above `maxSeq` gets a yes for every call. */
  lemma {:induction false} InOrderAccepted(w: WindowState, seqs: seq<u64>)
    requires forall i, j :: 0 <= i < j < |seqs| ==> seqs[i] < seqs[j]
    requires forall i :: 0 <= i < |seqs| ==> seqs[i] > w.maxSeq
    ensures forall j :: 0 <= j < |seqs| ==> Run(w, seqs).1[j]
    decreases seqs
  {
    if seqs != [] {
      var w1 := AcceptStep(w, seqs[0]).0;
      assert w1.maxSeq == seqs[0];
      InOrderAccepted(w1, seqs[1..]);
      forall j | 1 <= j < |seqs|
        ensures Run(w, seqs).1[j]
      {
        assert Run(w, seqs).1[j] == Run(w1, seqs[1..]).1[j - 1];
      }
    }
  }

  /** Go's `window`, updated in place by `accept`. The ghost field `accepted`
      is the set of sequence numbers accepted so far; the invariant ties it to
      `maxSeq` and `bitmap`. */
  class Window {
    var size: u64
    var maxSeq: u64
    var bitmap: Bitmap
    ghost var accepted: set<u64>

    ghost predicate Valid()
      reads this
    {
      size == WindowSize && Tracks(State(), accepted)
    }

    function State(): WindowState
      reads this
    {
      WindowState(maxSeq, bitmap)
    }

    /** `&window{size: 64, maxSeq: 0, bitmap: 0}` as `NewSession` builds it. */
    constructor ()
      ensures Valid() && State() == Initial() && accepted == {}
    {
      size, maxSeq, bitmap := 64, 0, Zero();
      accepted := {};
      InitialTracks();
    }

    /** `accept(seq)`: the verdict and the new window are those of `AcceptStep`;
        the verdict is yes exactly when `s` is newer than `maxSeq`, or less
        than 64 behind it and not accepted before. */
    method Accept(s: u64) returns (ok: bool)
      requires Valid()
      modifies this
      ensures Valid()
      ensures (State(), ok) == AcceptStep(old(State()), s)
      ensures ok <==> !(s <= old(maxSeq) && (old(maxSeq) - s >= WindowSize || s in old(accepted)))
      ensures accepted == if ok then old(accepted) + {s} else old(accepted)
    {
      AcceptTracks(State(), accepted, s);
      if s > maxSeq {
        var shift := s - maxSeq;
        if shift >= size {
          bitmap := Zero();
        } else {
          bitmap := ShiftLeft(bitmap, shift);
        }
        bitmap := SetBit(bitmap, 0);
        maxSeq := s;
        accepted := accepted + {s};
        return true;
      }
      var offset := maxSeq - s;
      if offset >= size {
        return false;
      }
      if bitmap[offset] {
        return false;
      }
      bitmap := SetBit(bitmap, offset);
      accepted := accepted + {s};
      return true;
    }
  }
}
