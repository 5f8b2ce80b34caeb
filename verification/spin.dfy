/**
 The draw state machine of the picker: the `isSpinning` flag and the
 pre-chosen `finalIndex`, the click guard of `selectRandomItem`, the
 animation tick of `updateDisplayItems` (over integer milliseconds) and
 the commit of `finishSelection`.
 */
module Spin {
  import opened Items
  import opened Pool

  /** A value of `Math.random()`, written as the exact fraction num/den; it
      lies in [0, 1). */
  datatype Fraction = Fraction(num: nat, den: nat)
  type Sample = f: Fraction | f.num < f.den witness Fraction(0, 1)

  /** `Math.floor(sample * n)`: the index whose n-th of [0, 1) holds the
      sample. */
  function IndexFor(sample: Sample, n: nat): (i: nat)
    requires n > 0
    ensures i * sample.den <= sample.num * n < (i + 1) * sample.den
    ensures i < n
  {
    var x := sample.num * n;
    var i := x / sample.den;
    assert x == i * sample.den + x % sample.den;
    assert (i + 1) * sample.den == i * sample.den + sample.den;
    assert (sample.den - sample.num) * n == sample.den * n - x;
    assert (sample.den - sample.num) * n > 0;
    CancelFactor(i, n, sample.den);
    i
  }

  /** A common positive factor can be cancelled from a strict inequality. */
  lemma CancelFactor(x: int, y: int, d: int)
    requires d > 0 && x * d < y * d
    ensures x < y
  {
    assert (y - x) * d == y * d - x * d;
  }

  /** Every position of a non-empty pool is the outcome of some sample: the
      sample k/n selects position k. */
  lemma EveryIndexReachable(n: nat, k: nat)
    requires k < n
    ensures IndexFor(Fraction(k, n), n) == k
  {
    var i := IndexFor(Fraction(k, n), n);
    assert i * n <= k * n < (i + 1) * n;
    CancelFactor(k, i + 1, n);
    assert (k + 1) * n == k * n + n;
    CancelFactor(i, k + 1, n);
  }

  /** The picker state: the pool, the `isSpinning` flag and the index chosen
      for the draw in progress. */
  datatype Picker = Picker(pool: Pool, spinning: bool, target: nat)

  /** The picker invariant: the pool invariant, and while a draw is in
      progress its index points into the pool. */
  predicate PickerValid(p: Picker) {
    Valid(p.pool) && (p.spinning ==> p.target < |p.pool.items|)
  }

  /** A picker at rest over the given pool. */
  function Idle(pool: Pool): (p: Picker)
    ensures !p.spinning && p.pool == pool
    ensures Valid(pool) ==> PickerValid(p)
  {
    Picker(pool, false, 0)
  }

  /** The outcome of a click: the next state, and whether the
      "everything has been drawn" alert was shown. */
  datatype Selection = Selection(next: Picker, alerted: bool)

  /** `selectRandomItem`: a click while spinning or on an empty pool changes
      nothing (the empty case raises the alert); otherwise the picker starts
      spinning towards an index chosen by `sample`. The pool is never
      touched. */
  function Select(p: Picker, sample: Sample): (s: Selection)
    ensures s.next.pool == p.pool
    ensures s.alerted <==> |p.pool.items| == 0
    ensures p.spinning || |p.pool.items| == 0 ==> s.next == p
    ensures !p.spinning && |p.pool.items| > 0 ==>
              s.next.spinning && s.next.target < |p.pool.items|
    ensures !p.spinning && |p.pool.items| > 0 ==>
              s.next.target == IndexFor(sample, |p.pool.items|)
    ensures PickerValid(p) ==> PickerValid(s.next)
  {
    if p.spinning || |p.pool.items| == 0 then Selection(p, |p.pool.items| == 0)
    else Selection(Picker(p.pool, true, IndexFor(sample, |p.pool.items|)), false)
  }

  /** An idle click on a non-empty pool can start a draw towards any of its
      positions: the sample k/n aims the spin at position k. */
  lemma SelectReachesEveryIndex(p: Picker, k: nat)
    requires !p.spinning && k < |p.pool.items|
    ensures Select(p, Fraction(k, |p.pool.items|)).next.target == k
    ensures !Select(p, Fraction(k, |p.pool.items|)).alerted
  {
    EveryIndexReachable(|p.pool.items|, k);
  }

  /** `finishSelection(finalIndex)`: the chosen item is committed to the
      drawn list and the picker stops spinning. */
  function Finish(p: Picker): (r: Picker)
    requires p.target < |p.pool.items|
    ensures !r.spinning
    ensures r.pool.removed == p.pool.removed + [p.pool.items[p.target]]
    ensures PickerValid(p) ==>
              && r.pool.items == p.pool.items[..p.target] + p.pool.items[p.target + 1..]
              && PickerValid(r)
  {
    var r := Picker(Commit(p.pool, p.target), false, p.target);
    if Valid(p.pool) then CommitMovesOne(p.pool, p.target); r else r
  }

  /** What one animation tick does: show three slots, or settle the draw. */
  datatype Tick =
    | Show(prev: Item, current: Item, next: Item)
    | Settle(after: Picker)

  /** Total length of a spin, in milliseconds. */
  const SpinDuration: nat := 3000

  /** `updateDisplayItems` over integer milliseconds: before the duration has
      elapsed, three slots are filled with items drawn by the samples, and
      once more than four fifths of it has elapsed the centre slot is pinned
      to the chosen item; at or after the duration the draw is committed. */
  function TickAt(p: Picker, elapsed: int, duration: nat, a: Sample, b: Sample, c: Sample): (t: Tick)
    requires duration > 0
    requires p.target < |p.pool.items|
    ensures t.Show? <==> elapsed < duration
    ensures t.Show? && 5 * elapsed > 4 * duration ==> t.current == p.pool.items[p.target]
    ensures t.Show? ==>
              t.prev in p.pool.items && t.current in p.pool.items && t.next in p.pool.items
    ensures t.Settle? ==> t.after == Finish(p)
  {
    var items := p.pool.items;
    if elapsed < duration then
      var centre := if 5 * elapsed > 4 * duration then items[p.target]
                    else items[IndexFor(b, |items|)];
      Show(items[IndexFor(a, |items|)], centre, items[IndexFor(c, |items|)])
    else
      Settle(Finish(p))
  }

  /** `resetItems` while the picker may be spinning: the pool is reset and the
      spin goes on. Existing items stay in front, so the item the spin will
      land on is unchanged. */
  function ResetPicker(p: Picker): (r: Picker)
    ensures r.spinning == p.spinning && r.target == p.target
    ensures r.pool == Reset(p.pool) && r.pool.removed == []
    ensures p.target < |p.pool.items| ==>
              r.target < |r.pool.items| && r.pool.items[r.target] == p.pool.items[p.target]
    ensures PickerValid(p) ==> PickerValid(r)
  {
    ResetProperties(p.pool);
    Picker(Reset(p.pool), p.spinning, p.target)
  }

  /** `handleFileUpload` on the picker: only the pool changes; the spin flag
      and index are left as they are. */
  function UploadPicker(p: Picker, upload: Upload): (r: Picker)
    ensures r.spinning == p.spinning && r.target == p.target
    ensures r.pool == HandleUpload(p.pool, upload)
    ensures PickerValid(p) && !p.spinning ==> PickerValid(r)
  {
    Picker(HandleUpload(p.pool, upload), p.spinning, p.target)
  }

  /** The events that drive the picker: a click on the pick button with the
      sample `Math.random()` returns, an animation frame at `elapsed`
      milliseconds into the spin with the three slot samples, a click on the
      reset button, and a file chosen in the file input. */
  datatype Event =
    | Pick(sample: Sample)
    | Frame(elapsed: int, a: Sample, b: Sample, c: Sample)
    | ResetClick
    | FileChosen(upload: Upload)

  /** One event. Frames only arrive while a spin is pending; a frame in any
      other state has no callback to run and changes nothing. A frame before
      the spin duration only redraws the slots; the first one at or after it
      commits the draw and stops the spin. */
  function Step(p: Picker, e: Event): (r: Picker)
    ensures e.Pick? ==> r == Select(p, e.sample).next
    ensures e.Frame? && p.spinning && p.target < |p.pool.items| ==>
              if e.elapsed < SpinDuration then r == p
              else !r.spinning && r.pool == Commit(p.pool, p.target)
    ensures e.Frame? && !(p.spinning && p.target < |p.pool.items|) ==> r == p
    ensures e.ResetClick? ==> r == ResetPicker(p)
    ensures e.FileChosen? ==> r == UploadPicker(p, e.upload)
  {
    match e
    case Pick(sample) => Select(p, sample).next
    case Frame(elapsed, a, b, c) =>
      if p.spinning && p.target < |p.pool.items| then
        match TickAt(p, elapsed, SpinDuration, a, b, c)
        case Show(_, _, _) => p
        case Settle(after) => after
      else p
    case ResetClick => ResetPicker(p)
    case FileChosen(upload) => UploadPicker(p, upload)
  }

  /** The state after a sequence of events, taken in order. Clicks on the
      pick button alone never change the pool. */
  function Run(p: Picker, events: seq<Event>): (r: Picker)
    ensures |events| == 0 ==> r == p
    ensures (forall k :: 0 <= k < |events| ==> events[k].Pick?) ==> r.pool == p.pool
    decreases |events|
  {
    if |events| == 0 then p else Run(Step(p, events[0]), events[1..])
  }

  /** Events are handled one after another: running a trace and then one
      more event is stepping the state the trace left. */
  lemma {:induction false} RunAppend(p: Picker, events: seq<Event>, e: Event)
    ensures Run(p, events + [e]) == Step(Run(p, events), e)
    decreases |events|
  {
    if |events| == 0 {
      assert [] + [e] == [e];
      assert [e][1..] == [];
    } else {
      assert (events + [e])[0] == events[0];
      assert (events + [e])[1..] == events[1..] + [e];
      RunAppend(Step(p, events[0]), events[1..], e);
    }
  }

  /** No file arrives while a spin is in progress. */
  predicate NoUploadMidSpin(p: Picker, events: seq<Event>)
    decreases |events|
  {
    |events| == 0 ||
    (!(events[0].FileChosen? && p.spinning) && NoUploadMidSpin(Step(p, events[0]), events[1..]))
  }

  /** Every single event keeps the picker invariant, except a file upload
      that lands in the middle of a spin. */
  lemma StepPreservesValid(p: Picker, e: Event)
    requires PickerValid(p)
    requires !(e.FileChosen? && p.spinning)
    ensures PickerValid(Step(p, e))
  {
  }

  /** After any sequence of clicks, frames, resets and idle-time uploads the
      ids across remaining and drawn items are still pairwise distinct, and
      a pending draw still points into the pool. */
  lemma {:induction false} RunPreservesValid(p: Picker, events: seq<Event>)
    requires PickerValid(p)
    requires NoUploadMidSpin(p, events)
    ensures PickerValid(Run(p, events))
    decreases |events|
  {
    if |events| > 0 {
      StepPreservesValid(p, events[0]);
      RunPreservesValid(Step(p, events[0]), events[1..]);
    }
  }

  /** Events never create or lose items except through an upload: without
      uploads the multiset of all items is the one the run started with. */
  lemma {:induction false} RunConservesItems(p: Picker, events: seq<Event>)
    requires PickerValid(p)
    requires forall k :: 0 <= k < |events| ==> !events[k].FileChosen?
    ensures var q := Run(p, events);
      multiset(q.pool.items + q.pool.removed) == multiset(p.pool.items + p.pool.removed)
    decreases |events|
  {
    if |events| > 0 {
      var q := Step(p, events[0]);
      StepPreservesValid(p, events[0]);
      match events[0] {
        case Pick(_) =>
        case Frame(elapsed, a, b, c) =>
          if p.spinning && p.target < |p.pool.items| {
            CommitMovesOne(p.pool, p.target);
          }
        case ResetClick =>
          ResetProperties(p.pool);
      }
      assert forall k :: 0 <= k < |events[1..]| ==> events[1..][k] == events[k + 1];
      RunConservesItems(q, events[1..]);
    }
  }
}
