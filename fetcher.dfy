/** The paginated peek loop of `load_messages`: resolve the target queue,
    choose bounded or unbounded mode and the page size, then peek page after
    page, resuming one past the last sequence number seen, until a page comes
    back empty or, in bounded mode, the cursor reaches the maximum. */
module Fetcher {
  import opened Wrappers
  import opened Text
  import opened Broker

  /** The broker's reserved path segment for a queue's dead-letter sub-queue. */
  const DeadLetterSuffix: string := "/$DeadLetterQueue"

  /** The largest number of messages one peek asks for. */
  const PageCap: nat := 300

  /** The "Queue" / "Dead-Letter" radio buttons. */
  datatype QueueType = Queue | DeadLetter

  /** The queue path the receiver is opened on. */
  function TargetQueue(name: string, queueType: QueueType): (path: string)
    ensures |name| <= |path| && path[..|name|] == name
    ensures queueType == Queue ==> path == name
    ensures queueType == DeadLetter ==> path[|name|..] == DeadLetterSuffix
  {
    if queueType == DeadLetter then name + DeadLetterSuffix else name
  }

  /** Queue names cannot contain `$`, so the target path determines both the
      queue name and whether the dead-letter sub-queue was selected. */
  lemma TargetQueueInjective(name1: string, type1: QueueType, name2: string, type2: QueueType)
    requires '$' !in name1 && '$' !in name2
    requires TargetQueue(name1, type1) == TargetQueue(name2, type2)
    ensures name1 == name2 && type1 == type2
  {
    var path := TargetQueue(name1, type1);
    if type1 == DeadLetter && type2 == DeadLetter {
      assert |name1| == |name2|;
      assert name1 == path[..|name1|] == name2;
    }
  }

  /** The sequence-number window: bounded only when both entries were filled in. */
  datatype Window = Unbounded | Bounded(min: nat, max: nat)

  /** The window read from the two sequence-number entries (already restricted
      to digits by their validator). */
  function WindowOf(minEntry: string, maxEntry: string): (w: Window)
    requires AllDigits(minEntry) && AllDigits(maxEntry)
    ensures w.Bounded? <==> minEntry != "" && maxEntry != ""
    ensures w.Bounded? ==> w.min == DecimalValue(minEntry) && w.max == DecimalValue(maxEntry)
  {
    if minEntry != "" && maxEntry != "" then Bounded(DecimalValue(minEntry), DecimalValue(maxEntry))
    else Unbounded
  }

  /** `sequence_range`: computed once, before the loop; 0 when unbounded. */
  function SequenceRange(w: Window): int {
    if w.Bounded? then w.max - w.min else 0
  }

  /** The `max_message_count` of every peek: the whole range when bounded and
      below the cap, the cap otherwise. */
  function PageSize(w: Window): (n: int)
    ensures n <= PageCap
    ensures w.Unbounded? ==> n == PageCap
    ensures w.Bounded? && w.min < w.max ==> 0 < n
    ensures w.Bounded? && w.max - w.min < PageCap ==> n == w.max - w.min
    ensures w.Bounded? && w.max - w.min >= PageCap ==> n == PageCap
  {
    if w.Bounded? && SequenceRange(w) < PageCap then SequenceRange(w) else PageCap
  }

  /** `last_seq_num` before the loop: the minimum when bounded, absent otherwise. */
  function InitialCursor(w: Window): Option<int> {
    if w.Bounded? then Some(w.min) else None
  }

  /** The loop guard. */
  predicate Continues(w: Window, cursor: Option<int>) {
    w.Unbounded? || (cursor.Some? && cursor.value < w.max)
  }

  /** Where the next peek starts: from the head with no cursor, else one past it. */
  function StartOf(cursor: Option<int>): Option<int> {
    match cursor
    case None => None
    case Some(c) => Some(c + 1)
  }

  /** In bounded mode the cursor is present and never below the minimum. */
  ghost predicate CursorInWindow(w: Window, cursor: Option<int>) {
    w.Bounded? ==> cursor.Some? && cursor.value >= w.min
  }

  /** The number of messages the next peek can still reach: those above the
      cursor, or the whole queue while there is no cursor. */
  function Above(ms: seq<RawMessage>, cursor: Option<int>): nat {
    |Pool(ms, StartOf(cursor))|
  }

  function LastSeq(page: seq<RawMessage>): nat
    requires page != []
  {
    page[|page| - 1].sequenceNumber
  }

  /** One `peek_messages` call: what it asked for and what came back. */
  datatype PeekCall = PeekCall(count: nat, start: Option<int>, page: seq<RawMessage>)

  /** After a non-empty page, the messages the next peek can reach are
      exactly those that followed the page. */
  lemma NextPool(ms: seq<RawMessage>, w: Window, cursor: Option<int>)
    requires Ascending(ms) && CursorInWindow(w, cursor) && Continues(w, cursor)
    requires Peek(ms, PageSize(w) as nat, StartOf(cursor)) != []
    ensures var page := Peek(ms, PageSize(w) as nat, StartOf(cursor));
            var pool := Pool(ms, StartOf(cursor));
            && |page| <= |pool|
            && page == pool[..|page|]
            && Pool(ms, StartOf(Some(LastSeq(page)))) == pool[|page|..]
  {
    var page := Peek(ms, PageSize(w) as nat, StartOf(cursor));
    ResumeAfterPage(ms, PageSize(w) as nat, StartOf(cursor));
    PeekPrefix(ms, PageSize(w) as nat, StartOf(cursor));
    assert LastSeq(page) == page[|page| - 1].sequenceNumber;
  }

  /** After a non-empty page the cursor moves to its last sequence number:
      still inside the window, with strictly fewer messages above it. */
  lemma NextCursor(ms: seq<RawMessage>, w: Window, cursor: Option<int>)
    requires Ascending(ms) && CursorInWindow(w, cursor) && Continues(w, cursor)
    requires Peek(ms, PageSize(w) as nat, StartOf(cursor)) != []
    ensures var page := Peek(ms, PageSize(w) as nat, StartOf(cursor));
            && CursorInWindow(w, Some(LastSeq(page)))
            && Above(ms, Some(LastSeq(page))) < Above(ms, cursor)
            && (StartOf(cursor).Some? ==> StartOf(cursor).value <= LastSeq(page))
  {
    var page := Peek(ms, PageSize(w) as nat, StartOf(cursor));
    ResumeAfterPage(ms, PageSize(w) as nat, StartOf(cursor));
    NextPool(ms, w, cursor);
    assert LastSeq(page) == page[|page| - 1].sequenceNumber;
  }

  /** Every peek the loop issues against queue `ms`, in order, starting from
      `cursor`. */
  ghost function Trace(ms: seq<RawMessage>, w: Window, cursor: Option<int>): seq<PeekCall>
    requires Ascending(ms) && CursorInWindow(w, cursor)
    decreases Above(ms, cursor)
  {
    if !Continues(w, cursor) then []
    else
      var count := PageSize(w) as nat;
      var page := Peek(ms, count, StartOf(cursor));
      if page == [] then [PeekCall(count, StartOf(cursor), page)]
      else
        NextCursor(ms, w, cursor);
        [PeekCall(count, StartOf(cursor), page)] + Trace(ms, w, Some(LastSeq(page)))
  }

  /** The messages a sequence of peeks returned, in order. */
  function Fetched(trace: seq<PeekCall>): seq<RawMessage> {
    if trace == [] then [] else trace[0].page + Fetched(trace[1..])
  }

  /** `last_seq_num` after the loop has fetched `fetched` from `cursor`. */
  function CursorAfter(cursor: Option<int>, fetched: seq<RawMessage>): Option<int> {
    if fetched == [] then cursor else Some(LastSeq(fetched))
  }

  /** A prefix of `pool` followed by a prefix of the rest of `pool` is a
      prefix of `pool`, and all of it when the second part is all the rest. */
  lemma PrefixJoin(pool: seq<RawMessage>, page: seq<RawMessage>, rest: seq<RawMessage>)
    requires |page| <= |pool| && page == pool[..|page|]
    requires |rest| <= |pool| - |page| && rest == pool[|page|..][..|rest|]
    ensures page + rest == pool[..|page| + |rest|]
    ensures rest == pool[|page|..] ==> page + rest == pool
  {
    assert pool == page + pool[|page|..];
  }

  /** The loop reads the messages it can reach in order, skipping and
      repeating none. */
  lemma {:induction false} FetchedPrefix(ms: seq<RawMessage>, w: Window, cursor: Option<int>)
    requires Ascending(ms) && CursorInWindow(w, cursor)
    ensures var fetched := Fetched(Trace(ms, w, cursor));
            var pool := Pool(ms, StartOf(cursor));
            |fetched| <= |pool| && fetched == pool[..|fetched|]
    decreases Above(ms, cursor)
  {
    if Continues(w, cursor) {
      TraceStep(ms, w, cursor);
      var count := PageSize(w) as nat;
      var page := Peek(ms, count, StartOf(cursor));
      if page != [] {
        var next := Some(LastSeq(page));
        NextCursor(ms, w, cursor);
        NextPool(ms, w, cursor);
        FetchedPrefix(ms, w, next);
        PrefixJoin(Pool(ms, StartOf(cursor)), page, Fetched(Trace(ms, w, next)));
      }
    }
  }

  /** The loop stops only once it has every message it can reach, or once
      the last sequence number it saw makes the guard fail. */
  lemma {:induction false} FetchedStops(ms: seq<RawMessage>, w: Window, cursor: Option<int>)
    requires Ascending(ms) && CursorInWindow(w, cursor)
    ensures var fetched := Fetched(Trace(ms, w, cursor));
            fetched == Pool(ms, StartOf(cursor)) || !Continues(w, CursorAfter(cursor, fetched))
    decreases Above(ms, cursor)
  {
    if Continues(w, cursor) {
      TraceStep(ms, w, cursor);
      var count := PageSize(w) as nat;
      var page := Peek(ms, count, StartOf(cursor));
      PeekPrefix(ms, count, StartOf(cursor));
      if page != [] {
        var next := Some(LastSeq(page));
        NextCursor(ms, w, cursor);
        NextPool(ms, w, cursor);
        FetchedStops(ms, w, next);
        FetchedPrefix(ms, w, next);
        var rest := Fetched(Trace(ms, w, next));
        PrefixJoin(Pool(ms, StartOf(cursor)), page, rest);
        if rest != [] {
          assert LastSeq(page + rest) == LastSeq(rest);
        }
      }
    }
  }

  /** Where the loop begins: with no peek at all exactly when the window is
      bounded and its minimum is not below its maximum; otherwise the first
      peek starts one past the minimum in bounded mode, at the head of the
      queue in unbounded mode. */
  lemma FirstPeek(ms: seq<RawMessage>, w: Window)
    requires Ascending(ms)
    ensures var trace := Trace(ms, w, InitialCursor(w));
            && (trace == [] <==> w.Bounded? && w.min >= w.max)
            && (trace != [] && w.Bounded? ==> trace[0].start == Some(w.min + 1))
            && (trace != [] && w.Unbounded? ==> trace[0].start == None)
  {
    TraceCounts(ms, w, InitialCursor(w));
    TraceStarts(ms, w, InitialCursor(w));
  }

  /** In unbounded mode, peeking from `cursor` ends only after an empty page:
      it issues one peek per started page of 300 and one more. */
  lemma {:induction false} UnboundedCalls(ms: seq<RawMessage>, cursor: Option<int>)
    requires Ascending(ms)
    ensures |Trace(ms, Unbounded, cursor)| == (|Pool(ms, StartOf(cursor))| + PageCap - 1) / PageCap + 1
    ensures var trace := Trace(ms, Unbounded, cursor);
            trace != [] && trace[|trace| - 1].page == []
    decreases Above(ms, cursor)
  {
    var w := Unbounded;
    TraceStep(ms, w, cursor);
    TraceHead(ms, w, cursor);
    var page := Peek(ms, PageCap, StartOf(cursor));
    var pool := Pool(ms, StartOf(cursor));
    PeekPrefix(ms, PageCap, StartOf(cursor));
    if page != [] {
      NextCursor(ms, w, cursor);
      NextPool(ms, w, cursor);
      var next := Some(LastSeq(page));
      UnboundedCalls(ms, next);
      assert |Pool(ms, StartOf(next))| == |pool| - |page|;
      var trace := Trace(ms, w, cursor);
      assert trace[|trace| - 1] == Trace(ms, w, next)[|trace| - 2];
    }
  }

  /** Unbounded mode fetches the whole queue, in queue order, with
      `ceil(N / 300) + 1` peeks. */
  lemma UnboundedFetchesAll(ms: seq<RawMessage>)
    requires Ascending(ms)
    ensures Fetched(Trace(ms, Unbounded, None)) == ms
    ensures |Trace(ms, Unbounded, None)| == (|ms| + PageCap - 1) / PageCap + 1
    ensures PeekOutcome(ms, Unbounded, None) == Success(ms)
  {
    FetchedStops(ms, Unbounded, None);
    UnboundedCalls(ms, None);
  }

  /** Bounded mode fetches, in queue order, a run of consecutive messages
      from the first one numbered above the minimum. */
  lemma BoundedFetch(ms: seq<RawMessage>, min: nat, max: nat)
    requires Ascending(ms)
    ensures var fetched := Fetched(Trace(ms, Bounded(min, max), Some(min)));
            var above := From(ms, min + 1);
            |fetched| <= |above| && fetched == above[..|fetched|]
  {
    FetchedPrefix(ms, Bounded(min, max), Some(min));
    assert Pool(ms, StartOf(Some(min))) == From(ms, min + 1);
  }

  /** With the minimum not below the maximum no peek is made at all, so
      nothing is fetched and no transport fault can occur. */
  lemma EmptyWindow(ms: seq<RawMessage>, min: nat, max: nat, faultAt: Option<nat>)
    requires Ascending(ms) && min >= max
    ensures Trace(ms, Bounded(min, max), Some(min)) == []
    ensures PeekOutcome(ms, Bounded(min, max), faultAt) == Success([])
  {
    TraceCounts(ms, Bounded(min, max), Some(min));
  }

  /** Bounded mode fetches no message numbered at or below the minimum. */
  lemma BoundedAboveMin(ms: seq<RawMessage>, min: nat, max: nat)
    requires Ascending(ms)
    ensures var fetched := Fetched(Trace(ms, Bounded(min, max), Some(min)));
            forall i :: 0 <= i < |fetched| ==> fetched[i].sequenceNumber > min
  {
    var fetched := Fetched(Trace(ms, Bounded(min, max), Some(min)));
    var above := From(ms, min + 1);
    BoundedFetch(ms, min, max);
    FromAtLeast(ms, min + 1);
    forall i | 0 <= i < |fetched|
      ensures fetched[i].sequenceNumber > min
    {
      assert fetched[i] == above[i];
    }
  }

  /** Why a bounded fetch stopped: it read everything above the minimum, or
      the window was empty from the start, or the last message it read is
      numbered at or above the maximum. */
  lemma BoundedStop(ms: seq<RawMessage>, min: nat, max: nat)
    requires Ascending(ms)
    ensures var fetched := Fetched(Trace(ms, Bounded(min, max), Some(min)));
            || fetched == From(ms, min + 1)
            || (fetched == [] && min >= max)
            || (fetched != [] && LastSeq(fetched) >= max)
  {
    FetchedStops(ms, Bounded(min, max), Some(min));
  }

  /** Everything the loop did not fetch in bounded mode is numbered above the
      maximum: it fetches every message numbered up to the maximum (and, when
      its last page overshoots, some beyond it). */
  lemma BoundedComplete(ms: seq<RawMessage>, min: nat, max: nat)
    requires Ascending(ms)
    ensures var fetched := Fetched(Trace(ms, Bounded(min, max), Some(min)));
            var above := From(ms, min + 1);
            forall i :: |fetched| <= i < |above| ==> above[i].sequenceNumber > max
  {
    var fetched := Fetched(Trace(ms, Bounded(min, max), Some(min)));
    var above := From(ms, min + 1);
    BoundedFetch(ms, min, max);
    BoundedStop(ms, min, max);
    FromMembers(ms, min + 1);
    FromAtLeast(ms, min + 1);
    if fetched != [] && fetched != above {
      assert LastSeq(fetched) == above[|fetched| - 1].sequenceNumber;
      AscendingTail(above, |fetched| - 1, max);
    }
  }

  /** Why a fetch failed: the namespace could not be reached, the queue does
      not exist, or the transport failed on the given peek call. */
  datatype FetchError = Unreachable | QueueNotFound | TransportFault(call: nat)

  /** What the peek loop yields on queue `ms` when peek number `faultAt` (if
      any) raises: the in-order concatenation of all pages, or the fault. */
  ghost function PeekOutcome(ms: seq<RawMessage>, w: Window, faultAt: Option<nat>): (r: Result<seq<RawMessage>, FetchError>)
    requires Ascending(ms)
    ensures faultAt.None? ==> r.Success?
    ensures r.Failure? ==> faultAt.Some? && r == Failure(TransportFault(faultAt.value))
  {
    var trace := Trace(ms, w, InitialCursor(w));
    if faultAt.Some? && faultAt.value < |trace| then Failure(TransportFault(faultAt.value))
    else Success(Fetched(trace))
  }

  /** `r` with `prefix` put in front of its messages; a failure stays as it is. */
  function Prepend(prefix: seq<RawMessage>, r: Result<seq<RawMessage>, FetchError>): Result<seq<RawMessage>, FetchError> {
    match r
    case Success(rest) => Success(prefix + rest)
    case Failure(e) => Failure(e)
  }

  lemma PrependTwice(a: seq<RawMessage>, b: seq<RawMessage>, r: Result<seq<RawMessage>, FetchError>)
    ensures Prepend(a, Prepend(b, r)) == Prepend(a + b, r)
  {
    if r.Success? {
      assert a + (b + r.value) == (a + b) + r.value;
    }
  }

  lemma PrependNothing(r: Result<seq<RawMessage>, FetchError>)
    ensures Prepend([], r) == r
  {
    if r.Success? {
      assert [] + r.value == r.value;
    }
  }

  /** What the rest of the loop yields from `cursor` once `calls` peeks have
      been made, peek by peek. */
  ghost function Run(ms: seq<RawMessage>, w: Window, cursor: Option<int>, calls: nat, faultAt: Option<nat>): (r: Result<seq<RawMessage>, FetchError>)
    requires Ascending(ms) && CursorInWindow(w, cursor)
    ensures r.Failure? ==> faultAt.Some? && calls <= faultAt.value && r == Failure(TransportFault(faultAt.value))
    decreases Above(ms, cursor)
  {
    if !Continues(w, cursor) then Success([])
    else if faultAt == Some(calls) then Failure(TransportFault(calls))
    else
      var page := Peek(ms, PageSize(w) as nat, StartOf(cursor));
      if page == [] then Success([])
      else
        NextCursor(ms, w, cursor);
        Prepend(page, Run(ms, w, Some(LastSeq(page)), calls + 1, faultAt))
  }

  /** One peek of the trace: a non-empty page is followed by the trace from
      its last sequence number; an empty page ends it. */
  lemma TraceStep(ms: seq<RawMessage>, w: Window, cursor: Option<int>)
    requires Ascending(ms) && CursorInWindow(w, cursor) && Continues(w, cursor)
    ensures var page := Peek(ms, PageSize(w) as nat, StartOf(cursor));
            page == [] ==> |Trace(ms, w, cursor)| == 1 && Fetched(Trace(ms, w, cursor)) == []
    ensures var page := Peek(ms, PageSize(w) as nat, StartOf(cursor));
            page != [] ==>
              && CursorInWindow(w, Some(LastSeq(page)))
              && |Trace(ms, w, cursor)| == 1 + |Trace(ms, w, Some(LastSeq(page)))|
              && Fetched(Trace(ms, w, cursor)) == page + Fetched(Trace(ms, w, Some(LastSeq(page))))
  {
    var page := Peek(ms, PageSize(w) as nat, StartOf(cursor));
    var call := PeekCall(PageSize(w) as nat, StartOf(cursor), page);
    if page != [] {
      NextCursor(ms, w, cursor);
      var rest := Trace(ms, w, Some(LastSeq(page)));
      assert Trace(ms, w, cursor) == [call] + rest;
      assert ([call] + rest)[1..] == rest;
    } else {
      assert Fetched([call]) == [] + Fetched([]);
    }
  }

  /** The first peek of the trace and what follows it. */
  lemma TraceHead(ms: seq<RawMessage>, w: Window, cursor: Option<int>)
    requires Ascending(ms) && CursorInWindow(w, cursor) && Continues(w, cursor)
    ensures var page := Peek(ms, PageSize(w) as nat, StartOf(cursor));
            var trace := Trace(ms, w, cursor);
            && trace != []
            && trace[0] == PeekCall(PageSize(w) as nat, StartOf(cursor), page)
            && (page == [] ==> |trace| == 1)
            && (page != [] ==> CursorInWindow(w, Some(LastSeq(page))) && trace[1..] == Trace(ms, w, Some(LastSeq(page))))
  {
    var page := Peek(ms, PageSize(w) as nat, StartOf(cursor));
    if page != [] {
      NextCursor(ms, w, cursor);
      var call := PeekCall(PageSize(w) as nat, StartOf(cursor), page);
      var rest := Trace(ms, w, Some(LastSeq(page)));
      assert Trace(ms, w, cursor) == [call] + rest;
      assert ([call] + rest)[1..] == rest;
    }
  }

  /** Every peek of the trace got what the broker's peek returns for its
      count and start, and only the last one may have come back empty. */
  lemma {:induction false} TracePages(ms: seq<RawMessage>, w: Window, cursor: Option<int>)
    requires Ascending(ms) && CursorInWindow(w, cursor)
    ensures var trace := Trace(ms, w, cursor);
            forall i :: 0 <= i < |trace| ==> trace[i].page == Peek(ms, trace[i].count, trace[i].start)
    ensures var trace := Trace(ms, w, cursor);
            forall i :: 0 <= i < |trace| - 1 ==> trace[i].page != []
    decreases Above(ms, cursor)
  {
    if Continues(w, cursor) {
      TraceHead(ms, w, cursor);
      var page := Peek(ms, PageSize(w) as nat, StartOf(cursor));
      if page != [] {
        var next := Some(LastSeq(page));
        NextCursor(ms, w, cursor);
        TracePages(ms, w, next);
        var trace := Trace(ms, w, cursor);
        forall i | 1 <= i < |trace|
          ensures trace[i].page == Peek(ms, trace[i].count, trace[i].start)
          ensures i < |trace| - 1 ==> trace[i].page != []
        {
          assert trace[i] == Trace(ms, w, next)[i - 1];
        }
      }
    }
  }

  /** The loop peeks at all exactly when its guard holds at the start, and
      every peek asks for the same page size, between 1 and the cap. */
  lemma {:induction false} TraceCounts(ms: seq<RawMessage>, w: Window, cursor: Option<int>)
    requires Ascending(ms) && CursorInWindow(w, cursor)
    ensures Trace(ms, w, cursor) == [] <==> !Continues(w, cursor)
    ensures forall i :: 0 <= i < |Trace(ms, w, cursor)| ==>
              Trace(ms, w, cursor)[i].count == PageSize(w) && 1 <= Trace(ms, w, cursor)[i].count <= PageCap
    decreases Above(ms, cursor)
  {
    if Continues(w, cursor) {
      TraceHead(ms, w, cursor);
      var page := Peek(ms, PageSize(w) as nat, StartOf(cursor));
      if page != [] {
        NextCursor(ms, w, cursor);
        TraceCounts(ms, w, Some(LastSeq(page)));
        var trace := Trace(ms, w, cursor);
        forall i | 1 <= i < |trace|
          ensures trace[i].count == PageSize(w)
        {
          assert trace[i] == trace[1..][i - 1];
        }
      }
    }
  }

  /** Peek `b` directly follows peek `a`: `a` returned a non-empty page
      that left the guard holding, `b` starts one past that page's last
      sequence number, which is at or above where `a` started. */
  predicate Linked(w: Window, a: PeekCall, b: PeekCall) {
    && a.page != []
    && Continues(w, Some(LastSeq(a.page)))
    && b.start == Some(LastSeq(a.page) + 1)
    && (a.start.Some? ==> a.start.value <= LastSeq(a.page))
  }

  /** Links along `rest` carry over to `call` followed by `rest` once the
      new first peek is linked to the old one. */
  lemma LinkedCons(w: Window, trace: seq<PeekCall>, rest: seq<PeekCall>)
    requires trace != [] && trace[1..] == rest
    requires |rest| > 0 ==> Linked(w, trace[0], rest[0])
    requires forall i :: 0 <= i < |rest| - 1 ==> Linked(w, rest[i], rest[i + 1])
    ensures forall i :: 0 <= i < |trace| - 1 ==> Linked(w, trace[i], trace[i + 1])
  {
    forall i | 0 <= i < |trace| - 1
      ensures Linked(w, trace[i], trace[i + 1])
    {
      if i > 0 {
        assert trace[i] == rest[i - 1] && trace[i + 1] == rest[i];
      }
    }
  }

  /** Where each peek starts: the first at `StartOf(cursor)` (one past the
      minimum in bounded mode, the head otherwise), every later one linked to
      the one before it. */
  lemma {:induction false} TraceStarts(ms: seq<RawMessage>, w: Window, cursor: Option<int>)
    requires Ascending(ms) && CursorInWindow(w, cursor)
    ensures Trace(ms, w, cursor) != [] ==> Trace(ms, w, cursor)[0].start == StartOf(cursor)
    ensures forall i :: 0 <= i < |Trace(ms, w, cursor)| - 1 ==>
              Linked(w, Trace(ms, w, cursor)[i], Trace(ms, w, cursor)[i + 1])
    decreases Above(ms, cursor)
  {
    if Continues(w, cursor) {
      TraceHead(ms, w, cursor);
      var page := Peek(ms, PageSize(w) as nat, StartOf(cursor));
      if page != [] {
        var next := Some(LastSeq(page));
        NextCursor(ms, w, cursor);
        TraceStarts(ms, w, next);
        TraceCounts(ms, w, next);
        var trace := Trace(ms, w, cursor);
        var rest := Trace(ms, w, next);
        if rest != [] {
          assert Linked(w, trace[0], rest[0]);
        }
        LinkedCons(w, trace, rest);
      }
    }
  }

  /** So the start positions strictly increase: every peek after the first
      starts at a sequence number, above the start of the one before. */
  lemma StartsIncrease(ms: seq<RawMessage>, w: Window, cursor: Option<int>, i: nat)
    requires Ascending(ms) && CursorInWindow(w, cursor)
    requires i + 1 < |Trace(ms, w, cursor)|
    ensures var trace := Trace(ms, w, cursor);
            && trace[i + 1].start.Some?
            && (trace[i].start.Some? ==> trace[i].start.value < trace[i + 1].start.value)
  {
    TraceStarts(ms, w, cursor);
    assert Linked(w, Trace(ms, w, cursor)[i], Trace(ms, w, cursor)[i + 1]);
  }

  /** Why the loop stopped: its last peek came back empty, or the last
      sequence number it saw made the guard fail (in bounded mode, reached the
      maximum). */
  lemma {:induction false} TraceEnds(ms: seq<RawMessage>, w: Window, cursor: Option<int>)
    requires Ascending(ms) && CursorInWindow(w, cursor)
    ensures var trace := Trace(ms, w, cursor);
            trace != [] ==>
              var last := trace[|trace| - 1];
              last.page == [] || !Continues(w, Some(LastSeq(last.page)))
    decreases Above(ms, cursor)
  {
    if Continues(w, cursor) {
      TraceHead(ms, w, cursor);
      var page := Peek(ms, PageSize(w) as nat, StartOf(cursor));
      if page != [] {
        var next := Some(LastSeq(page));
        NextCursor(ms, w, cursor);
        TraceEnds(ms, w, next);
        var trace := Trace(ms, w, cursor);
        if |trace| > 1 {
          assert trace[|trace| - 1] == Trace(ms, w, next)[|trace| - 2];
        }
      }
    }
  }

  /** The outcome of `calls` onwards when peek `calls` returned `page` and
      the `n` later peeks returned `rest`, given the outcome from `calls + 1`. */
  lemma PrependOutcome(page: seq<RawMessage>, rest: seq<RawMessage>, n: nat, calls: nat, faultAt: Option<nat>, later: Result<seq<RawMessage>, FetchError>)
    requires faultAt != Some(calls)
    requires later == if faultAt.Some? && calls + 1 <= faultAt.value < calls + 1 + n then Failure(TransportFault(faultAt.value))
                      else Success(rest)
    ensures Prepend(page, later) == if faultAt.Some? && calls <= faultAt.value < calls + 1 + n then Failure(TransportFault(faultAt.value))
                                   else Success(page + rest)
  {
  }

  /** What running the loop from `cursor`, with `calls` peeks made, should
      yield according to the trace from `cursor`. */
  ghost predicate RunAsTraced(ms: seq<RawMessage>, w: Window, cursor: Option<int>, calls: nat, faultAt: Option<nat>)
    requires Ascending(ms) && CursorInWindow(w, cursor)
  {
    var trace := Trace(ms, w, cursor);
    Run(ms, w, cursor, calls, faultAt)
      == if faultAt.Some? && calls <= faultAt.value < calls + |trace| then Failure(TransportFault(faultAt.value))
         else Success(Fetched(trace))
  }

  /** The fault falls on the next peek. */
  lemma RunFaultsNow(ms: seq<RawMessage>, w: Window, cursor: Option<int>, calls: nat)
    requires Ascending(ms) && CursorInWindow(w, cursor) && Continues(w, cursor)
    ensures RunAsTraced(ms, w, cursor, calls, Some(calls))
  {
    TraceStep(ms, w, cursor);
    assert Run(ms, w, cursor, calls, Some(calls)) == Failure(TransportFault(calls));
  }

  /** The next peek comes back empty and does not fault. */
  lemma RunEndsEmpty(ms: seq<RawMessage>, w: Window, cursor: Option<int>, calls: nat, faultAt: Option<nat>)
    requires Ascending(ms) && CursorInWindow(w, cursor) && Continues(w, cursor)
    requires faultAt != Some(calls) && Peek(ms, PageSize(w) as nat, StartOf(cursor)) == []
    ensures RunAsTraced(ms, w, cursor, calls, faultAt)
  {
    TraceStep(ms, w, cursor);
    assert Run(ms, w, cursor, calls, faultAt) == Success([]);
  }

  /** The next peek returns a page and does not fault, and the rest of the
      run matches the rest of the trace. */
  lemma RunGoesOn(ms: seq<RawMessage>, w: Window, cursor: Option<int>, calls: nat, faultAt: Option<nat>)
    requires Ascending(ms) && CursorInWindow(w, cursor) && Continues(w, cursor)
    requires faultAt != Some(calls)
    requires var page := Peek(ms, PageSize(w) as nat, StartOf(cursor));
             page != [] && CursorInWindow(w, Some(LastSeq(page)))
             && RunAsTraced(ms, w, Some(LastSeq(page)), calls + 1, faultAt)
    ensures RunAsTraced(ms, w, cursor, calls, faultAt)
  {
    TraceStep(ms, w, cursor);
    var page := Peek(ms, PageSize(w) as nat, StartOf(cursor));
    var next := Some(LastSeq(page));
    NextCursor(ms, w, cursor);
    var later := Run(ms, w, next, calls + 1, faultAt);
    assert Run(ms, w, cursor, calls, faultAt) == Prepend(page, later);
    PrependOutcome(page, Fetched(Trace(ms, w, next)), |Trace(ms, w, next)|, calls, faultAt, later);
  }

  /** Running the loop peek by peek yields what the whole trace determines:
      the fault, when it falls on one of the remaining peeks, or else every
      page in order. */
  lemma {:induction false} RunMatchesTrace(ms: seq<RawMessage>, w: Window, cursor: Option<int>, calls: nat, faultAt: Option<nat>)
    requires Ascending(ms) && CursorInWindow(w, cursor)
    ensures RunAsTraced(ms, w, cursor, calls, faultAt)
    decreases Above(ms, cursor)
  {
    if !Continues(w, cursor) {
      assert Trace(ms, w, cursor) == [] && Run(ms, w, cursor, calls, faultAt) == Success([]);
    } else if faultAt == Some(calls) {
      RunFaultsNow(ms, w, cursor, calls);
    } else if Peek(ms, PageSize(w) as nat, StartOf(cursor)) == [] {
      RunEndsEmpty(ms, w, cursor, calls, faultAt);
    } else {
      var page := Peek(ms, PageSize(w) as nat, StartOf(cursor));
      NextCursor(ms, w, cursor);
      RunMatchesTrace(ms, w, Some(LastSeq(page)), calls + 1, faultAt);
      RunGoesOn(ms, w, cursor, calls, faultAt);
    }
  }

  /** The loop's outcome from the start is the trace's outcome. */
  lemma PeekAllOutcome(ms: seq<RawMessage>, w: Window, faultAt: Option<nat>)
    requires Ascending(ms)
    ensures Run(ms, w, InitialCursor(w), 0, faultAt) == PeekOutcome(ms, w, faultAt)
  {
    RunMatchesTrace(ms, w, InitialCursor(w), 0, faultAt);
  }

  /** The `while` loop of `load_messages`. */
  method PeekAll(ms: seq<RawMessage>, w: Window, faultAt: Option<nat>) returns (r: Result<seq<RawMessage>, FetchError>)
    requires Ascending(ms)
    ensures r == Run(ms, w, InitialCursor(w), 0, faultAt)
  {
    var allMessages: seq<RawMessage> := [];
    var lastSeqNum := InitialCursor(w);
    var calls: nat := 0;
    PrependNothing(Run(ms, w, lastSeqNum, calls, faultAt));
    while Continues(w, lastSeqNum)
      invariant CursorInWindow(w, lastSeqNum)
      invariant Run(ms, w, InitialCursor(w), 0, faultAt) == Prepend(allMessages, Run(ms, w, lastSeqNum, calls, faultAt))
      decreases Above(ms, lastSeqNum)
    {
      if faultAt == Some(calls) {
        return Failure(TransportFault(calls));
      }
      var count := PageSize(w) as nat;
      // from the head while there is no cursor, else one past the cursor
      var messages := Peek(ms, count, StartOf(lastSeqNum));
      if messages == [] {
        break;
      }
      NextCursor(ms, w, lastSeqNum);
      PrependTwice(allMessages, messages, Run(ms, w, Some(LastSeq(messages)), calls + 1, faultAt));
      allMessages := allMessages + messages;
      calls := calls + 1;
      // the sequence number of the last message on the page
      lastSeqNum := Some(LastSeq(messages));
    }
    assert allMessages + [] == allMessages;
    return Success(allMessages);
  }

  /** What receiving from `target` in namespace `ns` yields: the namespace
      and the queue must exist, then the peek loop runs on the queue with the
      namespace's transport fault, if any. */
  ghost function FetchOutcome(ns: Namespace, target: string, w: Window): (r: Result<seq<RawMessage>, FetchError>)
    requires ns.Ordered()
    ensures !ns.reachable ==> r == Failure(Unreachable)
    ensures ns.reachable && target !in ns.queues ==> r == Failure(QueueNotFound)
    ensures ns.reachable && target in ns.queues && ns.faultAt.None? ==> r.Success?
    ensures r.Failure? && r.error.TransportFault? ==> ns.faultAt == Some(r.error.call)
  {
    if !ns.reachable then Failure(Unreachable)
    else if target !in ns.queues then Failure(QueueNotFound)
    else PeekOutcome(ns.queues[target], w, ns.faultAt)
  }

  /** The `with ServiceBusClient ... with receiver:` block of
      `load_messages`: open a receiver on `target` and run the peek loop. */
  method FetchMessages(ns: Namespace, target: string, w: Window) returns (r: Result<seq<RawMessage>, FetchError>)
    requires ns.Ordered()
    ensures r == FetchOutcome(ns, target, w)
  {
    if !ns.reachable {
      return Failure(Unreachable);
    }
    if target !in ns.queues {
      return Failure(QueueNotFound);
    }
    var ms := ns.queues[target];
    r := PeekAll(ms, w, ns.faultAt);
    PeekAllOutcome(ms, w, ns.faultAt);
  }
}
