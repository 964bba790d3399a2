/** The training policy every algorithm inherits: with a positive training interval
    (in minutes of simulated time) new items and clicks are buffered and handed over as
    one batch once the newest buffered click is at least that far past the previous
    batch; otherwise they are handed over at once. Also the whole-history substitution
    applied before each recommendation. */
module Training {
  import opened Wrappers
  import opened Events
  import opened JavaNum

  /** One call of the algorithm's own training routine. */
  datatype Batch = Batch(items: seq<Item>, clicks: seq<ClickData>)

  datatype TrainState = TrainState(
    interval: int,
    itemBuffer: seq<Item>,
    clickBuffer: seq<ClickData>,
    lastTrainTime: int)

  /** A fresh algorithm: empty buffers and a last training time of 0. */
  function Init(interval: int): TrainState {
    TrainState(interval, [], [], 0)
  }

  /** Whole minutes of simulated time from the last batch to the newest buffered click,
      by truncating long division. */
  function MinutesSince(st: TrainState, clicks: seq<ClickData>): int
    requires |clicks| > 0
  {
    JavaDiv(JavaDiv(clicks[|clicks| - 1].click.timestamp - st.lastTrainTime, 1000), 60)
  }

  /** `train`: the new state and the batch handed to the training routine, if any. */
  function Train(st: TrainState, items: seq<Item>, clicks: seq<ClickData>): (r: (TrainState, Option<Batch>))
    ensures st.interval <= 0 ==> r == (st, Some(Batch(items, clicks)))
    ensures r.0.interval == st.interval
    ensures st.interval > 0 ==>
      var buffered := st.clickBuffer + clicks;
      (r.1.Some? <==> |buffered| > 0 && MinutesSince(st, buffered) >= st.interval)
    ensures st.interval > 0 && r.1.Some? ==>
      r.1.value == Batch(st.itemBuffer + items, st.clickBuffer + clicks) &&
      r.0.itemBuffer == [] && r.0.clickBuffer == [] &&
      r.0.lastTrainTime == (st.clickBuffer + clicks)[|st.clickBuffer| + |clicks| - 1].click.timestamp
    ensures st.interval > 0 && r.1.None? ==>
      r.0 == TrainState(st.interval, st.itemBuffer + items, st.clickBuffer + clicks, st.lastTrainTime)
  {
    if st.interval <= 0 then (st, Some(Batch(items, clicks)))
    else
      var ib := st.itemBuffer + items;
      var cb := st.clickBuffer + clicks;
      if |cb| > 0 && MinutesSince(st, cb) >= st.interval then
        (TrainState(st.interval, [], [], cb[|cb| - 1].click.timestamp), Some(Batch(ib, cb)))
      else
        (TrainState(st.interval, ib, cb, st.lastTrainTime), None)
  }

  /** Between calls a buffering state holds no click buffer that is already due. */
  ghost predicate Waiting(st: TrainState) {
    st.interval > 0 && (|st.clickBuffer| == 0 || MinutesSince(st, st.clickBuffer) < st.interval)
  }

  /** Every `train` call of a buffering algorithm leaves it waiting again, and a call
      without clicks never hands over a batch: items alone are delivered with the next
      batch. */
  lemma TrainKeepsWaiting(st: TrainState, items: seq<Item>, clicks: seq<ClickData>)
    requires Waiting(st)
    ensures Waiting(Train(st, items, clicks).0)
    ensures |clicks| == 0 ==> Train(st, items, clicks).1.None?
  {
    if |clicks| == 0 {
      assert st.clickBuffer + clicks == st.clickBuffer;
    }
  }

  lemma InitWaiting(interval: int)
    requires interval > 0
    ensures Waiting(Init(interval))
  {
  }

  /** A sequence of `train` calls: the final state and the batches handed over in order. */
  function TrainAll(st: TrainState, calls: seq<Batch>): (r: (TrainState, seq<Batch>))
    decreases |calls|
  {
    if |calls| == 0 then (st, [])
    else
      var (st1, out) := Train(st, calls[0].items, calls[0].clicks);
      var (st2, outs) := TrainAll(st1, calls[1..]);
      (st2, (if out.Some? then [out.value] else []) + outs)
  }

  function AllItems(bs: seq<Batch>): seq<Item> {
    if |bs| == 0 then [] else bs[0].items + AllItems(bs[1..])
  }

  function AllClicks(bs: seq<Batch>): seq<ClickData> {
    if |bs| == 0 then [] else bs[0].clicks + AllClicks(bs[1..])
  }

  /** What one batch hands over from a call sequence. */
  function OutItems(out: Option<Batch>): seq<Item> {
    if out.Some? then out.value.items else []
  }

  function OutClicks(out: Option<Batch>): seq<ClickData> {
    if out.Some? then out.value.clicks else []
  }

  /** The states `TrainingConservesData` starts from: buffering, or empty buffers. */
  predicate Consistent(st: TrainState) {
    st.interval > 0 || (st.itemBuffer == [] && st.clickBuffer == [])
  }

  /** One `train` call hands over (then keeps buffered) exactly the old buffer followed
      by the new data. */
  lemma TrainStepConserves(st: TrainState, b: Batch)
    requires Consistent(st)
    ensures Consistent(Train(st, b.items, b.clicks).0)
    ensures OutItems(Train(st, b.items, b.clicks).1) + Train(st, b.items, b.clicks).0.itemBuffer
            == st.itemBuffer + b.items
    ensures OutClicks(Train(st, b.items, b.clicks).1) + Train(st, b.items, b.clicks).0.clickBuffer
            == st.clickBuffer + b.clicks
  {
  }

  /** Concatenation regrouped: the step of the conservation proofs. */
  lemma Regroup<T>(all: seq<T>, out: seq<T>, outs: seq<T>, buffer: seq<T>,
                   mid: seq<T>, tail: seq<T>, before: seq<T>, head: seq<T>)
    requires all == out + outs
    requires outs + buffer == mid + tail
    requires out + mid == before + head
    ensures all + buffer == before + (head + tail)
  {
    calc {
      all + buffer;
      out + (outs + buffer);
      (out + mid) + tail;
      before + (head + tail);
    }
  }

  /** Nothing is lost, duplicated or reordered: the batches handed over, followed by what
      is still buffered, are the buffered data followed by everything passed to `train`. */
  lemma {:induction false} ItemsConserved(st: TrainState, calls: seq<Batch>)
    requires Consistent(st)
    ensures AllItems(TrainAll(st, calls).1) + TrainAll(st, calls).0.itemBuffer
            == st.itemBuffer + AllItems(calls)
    decreases |calls|
  {
    if |calls| > 0 {
      var r1 := Train(st, calls[0].items, calls[0].clicks);
      TrainStepConserves(st, calls[0]);
      ItemsConserved(r1.0, calls[1..]);
      var rest := TrainAll(r1.0, calls[1..]);
      var all := (if r1.1.Some? then [r1.1.value] else []) + rest.1;
      assert TrainAll(st, calls) == (rest.0, all);
      assert AllItems(all) == OutItems(r1.1) + AllItems(rest.1) by {
        if r1.1.Some? { assert all[1..] == rest.1; } else { assert all == rest.1; }
      }
      Regroup(AllItems(all), OutItems(r1.1), AllItems(rest.1), rest.0.itemBuffer,
              r1.0.itemBuffer, AllItems(calls[1..]), st.itemBuffer, calls[0].items);
    }
  }

  lemma {:induction false} ClicksConserved(st: TrainState, calls: seq<Batch>)
    requires Consistent(st)
    ensures AllClicks(TrainAll(st, calls).1) + TrainAll(st, calls).0.clickBuffer
            == st.clickBuffer + AllClicks(calls)
    decreases |calls|
  {
    if |calls| > 0 {
      var r1 := Train(st, calls[0].items, calls[0].clicks);
      TrainStepConserves(st, calls[0]);
      ClicksConserved(r1.0, calls[1..]);
      var rest := TrainAll(r1.0, calls[1..]);
      var all := (if r1.1.Some? then [r1.1.value] else []) + rest.1;
      assert TrainAll(st, calls) == (rest.0, all);
      assert AllClicks(all) == OutClicks(r1.1) + AllClicks(rest.1) by {
        if r1.1.Some? { assert all[1..] == rest.1; } else { assert all == rest.1; }
      }
      Regroup(AllClicks(all), OutClicks(r1.1), AllClicks(rest.1), rest.0.clickBuffer,
              r1.0.clickBuffer, AllClicks(calls[1..]), st.clickBuffer, calls[0].clicks);
    }
  }

  /** Without a training interval every call is handed over unchanged and the buffers
      stay empty. */
  lemma {:induction false} NoIntervalPassesThrough(st: TrainState, calls: seq<Batch>)
    requires st.interval <= 0
    ensures TrainAll(st, calls) == (st, calls)
    decreases |calls|
  {
    if |calls| > 0 {
      NoIntervalPassesThrough(st, calls[1..]);
      assert [Batch(calls[0].items, calls[0].clicks)] + calls[1..] == calls;
    }
  }

  // ---------------------------------------------------------------------------
  // Whole-history substitution

  /** `recommend`: with whole-history mode the session is replaced by the user's whole
      history; the click and the history are kept. */
  function ForRecommendation(wholeUserHistory: bool, cd: ClickData): (r: ClickData)
    ensures r.click == cd.click && r.wholeUserHistory == cd.wholeUserHistory
    ensures wholeUserHistory ==> r.session == cd.wholeUserHistory
    ensures !wholeUserHistory ==> r == cd
  {
    if wholeUserHistory then ClickData(cd.click, cd.wholeUserHistory, cd.wholeUserHistory) else cd
  }

  /** Applying the substitution twice changes nothing more. */
  lemma SubstitutionIdempotent(wholeUserHistory: bool, cd: ClickData)
    ensures ForRecommendation(wholeUserHistory, ForRecommendation(wholeUserHistory, cd))
         == ForRecommendation(wholeUserHistory, cd)
  {
  }
}
