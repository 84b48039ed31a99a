/** The record-counting loop of `warctest`: records are pulled one at a time from the WARC
    stream; a record whose headers do not parse, or whose body cannot be buffered, ends the
    run. `count` is incremented before the body is buffered; `skipped` is never changed. */
module Records {
  import opened Wrappers
  import opened Bytes

  /** One `next_item()` of the record stream: a header parse error, or a record whose body
      `into_buffered` either reads (`Some`) or fails to read (`None`). */
  datatype Item = HeaderError | Record(body: Option<seq<byte>>)

  /** Where the loop ended: the stream ran out, or the item at `index` failed. */
  datatype Stop = EndOfStream | RecordFailed(index: nat) | BodyFailed(index: nat)

  /** The totals the loop prints, and why it stopped. */
  datatype Report = Report(count: nat, skipped: nat, stop: Stop)

  /** An item the loop passes over completely. */
  predicate Complete(item: Item) {
    item.Record? && item.body.Some?
  }

  /** Index of the first item the loop does not get past, or `|items|` when there is none. */
  function FirstIncomplete(items: seq<Item>): (k: nat)
    ensures k <= |items|
    ensures forall j :: 0 <= j < k ==> Complete(items[j])
    ensures k < |items| ==> !Complete(items[k])
  {
    if items == [] || !Complete(items[0]) then 0
    else 1 + FirstIncomplete(items[1..])
  }

  /** The number of records the loop counts: the complete ones, plus the record whose body
      failed, since it was counted before its body was read. */
  function Counted(items: seq<Item>): (n: nat)
    ensures n <= |items|
    ensures forall j :: 0 <= j < n ==> items[j].Record?
    ensures forall j :: 0 <= j < n - 1 ==> Complete(items[j])
    ensures StopOf(items) == EndOfStream ==> n == |items|
    ensures StopOf(items).RecordFailed? ==> n == StopOf(items).index
    ensures StopOf(items).BodyFailed? ==> n == StopOf(items).index + 1
  {
    var k := FirstIncomplete(items);
    if k < |items| && items[k].Record? then k + 1 else k
  }

  /** Why the loop stops over `items`. */
  function StopOf(items: seq<Item>): (stop: Stop)
    ensures stop == EndOfStream <==> forall j :: 0 <= j < |items| ==> Complete(items[j])
    ensures stop.RecordFailed? ==> stop.index < |items| && items[stop.index] == HeaderError
    ensures stop.BodyFailed? ==> stop.index < |items| && items[stop.index] == Record(None)
    ensures stop != EndOfStream ==> forall j :: 0 <= j < stop.index ==> Complete(items[j])
  {
    var k := FirstIncomplete(items);
    if k == |items| then EndOfStream
    else if items[k].HeaderError? then RecordFailed(k)
    else BodyFailed(k)
  }

  /** A reference count, independent of the loop: the records before the first header error. */
  function OkBeforeFirstError(items: seq<Item>): (n: nat)
    ensures n <= |items|
  {
    if items == [] || items[0].HeaderError? then 0
    else 1 + OkBeforeFirstError(items[1..])
  }

  /** Lines 75-92: the `while let` over the record stream. */
  method CountRecords(items: seq<Item>) returns (report: Report)
    ensures report.count == Counted(items) && report.stop == StopOf(items)
    ensures report.skipped == 0 && report.skipped <= report.count
  {
    var count: nat := 0;
    var skipped: nat := 0;
    var i := 0;
    while i < |items|
      invariant 0 <= i <= |items|
      invariant count == i && skipped <= count
      invariant forall j :: 0 <= j < i ==> Complete(items[j])
    {
      var record := items[i];
      if record.HeaderError? {
        FirstIncompleteAt(items, i);
        return Report(count, skipped, RecordFailed(i));
      }
      count := count + 1;
      if record.body.None? {
        FirstIncompleteAt(items, i);
        return Report(count, skipped, BodyFailed(i));
      }
      i := i + 1;
    }
    FirstIncompleteAt(items, i);
    return Report(count, skipped, EndOfStream);
  }

  /** The first incomplete item is determined by the complete prefix before it. */
  lemma FirstIncompleteAt(items: seq<Item>, i: nat)
    requires i <= |items|
    requires forall j :: 0 <= j < i ==> Complete(items[j])
    requires i < |items| ==> !Complete(items[i])
    ensures FirstIncomplete(items) == i
  {
  }

  /** The count never exceeds the number of items, and equals it with a clean end exactly
      when every item is a record with a readable body. */
  lemma CountedBounds(items: seq<Item>)
    ensures Counted(items) <= |items|
    ensures StopOf(items) == EndOfStream <==> forall j :: 0 <= j < |items| ==> Complete(items[j])
    ensures StopOf(items) == EndOfStream ==> Counted(items) == |items|
  {
  }

  /** When every body reads, the count is exactly the number of records before the first
      header error (or before the end of the stream). */
  lemma {:induction false} CountedIsOkBeforeFirstError(items: seq<Item>)
    requires forall j :: 0 <= j < |items| && items[j].Record? ==> items[j].body.Some?
    ensures Counted(items) == OkBeforeFirstError(items)
    ensures StopOf(items) == EndOfStream || StopOf(items) == RecordFailed(OkBeforeFirstError(items))
  {
    if items != [] && items[0].Record? {
      var rest := items[1..];
      forall j | 0 <= j < |rest| && rest[j].Record? ensures rest[j].body.Some? {
        assert rest[j] == items[j + 1];
      }
      CountedIsOkBeforeFirstError(rest);
    }
  }

  /** The loop stops at the first failure: whatever follows the failing item is never looked at. */
  lemma {:induction false} StopsAtFirstFailure(items: seq<Item>, tail: seq<Item>)
    requires StopOf(items) != EndOfStream
    ensures Counted(items + tail) == Counted(items)
    ensures StopOf(items + tail) == StopOf(items)
  {
    var k := FirstIncomplete(items);
    var whole := items + tail;
    assert forall j :: 0 <= j <= k ==> whole[j] == items[j];
    FirstIncompleteAt(whole, k);
  }

  /** Counting is additive over a stream of complete records followed by more items. */
  lemma {:induction false} CompletePrefixAdds(done: seq<Item>, more: seq<Item>)
    requires forall j :: 0 <= j < |done| ==> Complete(done[j])
    ensures Counted(done + more) == |done| + Counted(more)
    ensures StopOf(more) == EndOfStream ==> StopOf(done + more) == EndOfStream
  {
    var whole := done + more;
    var k := FirstIncomplete(more);
    assert forall j :: 0 <= j < |done| ==> whole[j] == done[j];
    assert forall j :: 0 <= j < |more| ==> whole[|done| + j] == more[j];
    FirstIncompleteAt(whole, |done| + k);
  }
}
