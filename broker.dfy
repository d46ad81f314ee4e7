/** The message broker as the viewer sees it: named queues holding messages
    in ascending sequence-number order, read only by non-destructive peeks. */
module Broker {
  import opened Wrappers

  /** The enqueue time of a message, carried through unchanged; `text` is how
      it prints. */
  datatype Timestamp = Timestamp(text: string)

  /** A peeked message: sequence number, message id, body text, enqueue time
      and application properties (absent when the message has none). */
  datatype RawMessage = RawMessage(
    sequenceNumber: nat,
    messageId: Option<string>,
    body: string,
    enqueuedTimeUtc: Option<Timestamp>,
    applicationProperties: Option<map<string, string>>)

  /** Message `i` of the queue is numbered below message `j`. */
  predicate Precedes(ms: seq<RawMessage>, i: nat, j: nat)
    requires i < |ms| && j < |ms|
  {
    ms[i].sequenceNumber < ms[j].sequenceNumber
  }

  /** Sequence numbers strictly increase along the queue. (The trigger keeps
      the solver from comparing every pair of messages it comes across; proofs
      name the pairs they need.) */
  predicate Ascending(ms: seq<RawMessage>) {
    forall i, j {:trigger Precedes(ms, i, j)} :: 0 <= i < j < |ms| ==> Precedes(ms, i, j)
  }

  /** Any slice of an ascending queue is ascending. */
  lemma AscendingSlice(ms: seq<RawMessage>, lo: nat, hi: nat)
    requires Ascending(ms) && lo <= hi <= |ms|
    ensures Ascending(ms[lo..hi])
  {
    var s := ms[lo..hi];
    forall i, j | 0 <= i < j < |s|
      ensures Precedes(s, i, j)
    {
      assert Precedes(ms, lo + i, lo + j);
    }
  }

  /** Index of the first message whose sequence number is at least `s`
      (the length of the queue when there is none). */
  function FirstAtLeast(ms: seq<RawMessage>, s: int): (k: nat)
    ensures k <= |ms|
  {
    if ms == [] || ms[0].sequenceNumber >= s then 0 else 1 + FirstAtLeast(ms[1..], s)
  }

  /** Every message before `FirstAtLeast` is numbered below `s`, and the one
      at it (if any) is numbered `s` or above. */
  lemma {:induction false} FirstAtLeastSplits(ms: seq<RawMessage>, s: int)
    ensures forall j :: 0 <= j < FirstAtLeast(ms, s) ==> ms[j].sequenceNumber < s
    ensures FirstAtLeast(ms, s) < |ms| ==> ms[FirstAtLeast(ms, s)].sequenceNumber >= s
  {
    if ms != [] && ms[0].sequenceNumber < s {
      FirstAtLeastSplits(ms[1..], s);
      forall j | 1 <= j < FirstAtLeast(ms, s)
        ensures ms[j].sequenceNumber < s
      {
        assert ms[j] == ms[1..][j - 1];
      }
    }
  }

  /** The part of the queue a peek at sequence number `start` reads: from the
      first message numbered `start` or above to the end. */
  function From(ms: seq<RawMessage>, start: int): seq<RawMessage> {
    ms[FirstAtLeast(ms, start)..]
  }

  /** On an ascending queue, `From` starts exactly at the first message
      numbered `start` or above, and stays in queue order. */
  lemma FromMembers(ms: seq<RawMessage>, start: int)
    requires Ascending(ms)
    ensures forall i :: 0 <= i < |ms| ==> (i >= FirstAtLeast(ms, start) <==> ms[i].sequenceNumber >= start)
    ensures Ascending(From(ms, start))
  {
    var k := FirstAtLeast(ms, start);
    FirstAtLeastSplits(ms, start);
    forall i | 0 <= i < |ms|
      ensures i >= k <==> ms[i].sequenceNumber >= start
    {
      if k < i {
        assert Precedes(ms, k, i);
      }
    }
    AscendingSlice(ms, k, |ms|);
    assert ms[k..|ms|] == From(ms, start);
  }

  /** Every message from `start` on is numbered `start` or above. */
  lemma FromAtLeast(ms: seq<RawMessage>, start: int)
    requires Ascending(ms)
    ensures forall i :: 0 <= i < |From(ms, start)| ==> From(ms, start)[i].sequenceNumber >= start
  {
    var k := FirstAtLeast(ms, start);
    FromMembers(ms, start);
    forall i | 0 <= i < |From(ms, start)|
      ensures From(ms, start)[i].sequenceNumber >= start
    {
      assert From(ms, start)[i] == ms[k + i];
    }
  }

  /** In an ascending queue every message after one numbered `bound` or
      above is numbered above `bound`. */
  lemma AscendingTail(ms: seq<RawMessage>, k: nat, bound: int)
    requires Ascending(ms) && k < |ms| && ms[k].sequenceNumber >= bound
    ensures forall i :: k < i < |ms| ==> ms[i].sequenceNumber > bound
  {
    forall i | k < i < |ms|
      ensures ms[i].sequenceNumber > bound
    {
      assert Precedes(ms, k, i);
    }
  }

  /** Where a peek begins: the head of the queue, or the first message whose
      sequence number is at least the requested one. */
  function Pool(ms: seq<RawMessage>, start: Option<int>): seq<RawMessage> {
    match start
    case None => ms
    case Some(s) => From(ms, s)
  }

  /** Index of the first message a peek from `start` returns. */
  function PoolStart(ms: seq<RawMessage>, start: Option<int>): (k: nat)
    ensures k <= |ms| && Pool(ms, start) == ms[k..]
  {
    match start
    case None => 0
    case Some(s) => FirstAtLeast(ms, s)
  }

  /** `peek_messages(max_message_count = count, sequence_number = start)`:
      the first `count` messages of the queue from `start` on (from the head
      when `start` is absent). Fewer come back only when fewer exist. */
  function Peek(ms: seq<RawMessage>, count: nat, start: Option<int>): (page: seq<RawMessage>)
    ensures |page| <= count
  {
    var pool := Pool(ms, start);
    if count < |pool| then pool[..count] else pool
  }

  /** A page is the head of what the peek could reach: `count` messages when
      that many exist, all of them otherwise. */
  lemma PeekPrefix(ms: seq<RawMessage>, count: nat, start: Option<int>)
    ensures var page := Peek(ms, count, start);
            page == Pool(ms, start)[..|page|]
    ensures var page := Peek(ms, count, start);
            |page| == count || page == Pool(ms, start)
  {
  }

  /** A page peeked from an ascending queue is ascending, and every message on
      it is numbered at or above the requested start. */
  lemma PageInOrder(ms: seq<RawMessage>, count: nat, start: Option<int>)
    requires Ascending(ms)
    ensures Ascending(Peek(ms, count, start))
    ensures start.Some? ==> forall i :: 0 <= i < |Peek(ms, count, start)| ==> Peek(ms, count, start)[i].sequenceNumber >= start.value
  {
    var k := PoolStart(ms, start);
    var page := Peek(ms, count, start);
    PeekPrefix(ms, count, start);
    assert page == ms[k..k + |page|];
    AscendingSlice(ms, k, k + |page|);
    if start.Some? {
      FromMembers(ms, start.value);
    }
  }

  /** `FirstAtLeast` is the unique index splitting the queue into messages
      below `s` and a first message at or above it. */
  lemma SplitPoint(ms: seq<RawMessage>, s: int, k: nat)
    requires k <= |ms|
    requires forall j :: 0 <= j < k ==> ms[j].sequenceNumber < s
    requires k < |ms| ==> ms[k].sequenceNumber >= s
    ensures FirstAtLeast(ms, s) == k
    decreases k
  {
    if k > 0 {
      assert ms[0].sequenceNumber < s;
      forall j | 0 <= j < k - 1
        ensures ms[1..][j].sequenceNumber < s
      {
        assert ms[1..][j] == ms[j + 1];
      }
      SplitPoint(ms[1..], s, k - 1);
    }
  }

  /** In an ascending queue, the first message numbered above `ms[i]` is the
      one right after it. */
  lemma SplitAfter(ms: seq<RawMessage>, i: nat)
    requires Ascending(ms) && i < |ms|
    ensures FirstAtLeast(ms, ms[i].sequenceNumber + 1) == i + 1
  {
    var s := ms[i].sequenceNumber + 1;
    forall j | 0 <= j < i + 1
      ensures ms[j].sequenceNumber < s
    {
      if j < i {
        assert Precedes(ms, j, i);
      }
    }
    if i + 1 < |ms| {
      assert Precedes(ms, i, i + 1);
    }
    SplitPoint(ms, s, i + 1);
  }

  /** After a non-empty page, the messages above its last sequence number are
      exactly what followed the page: resuming at `last + 1` neither skips nor
      repeats a message. */
  lemma ResumeAfterPage(ms: seq<RawMessage>, count: nat, start: Option<int>)
    requires Ascending(ms)
    requires Peek(ms, count, start) != []
    ensures |Peek(ms, count, start)| <= |Pool(ms, start)|
    ensures var page := Peek(ms, count, start);
            From(ms, page[|page| - 1].sequenceNumber + 1) == Pool(ms, start)[|page|..]
    ensures var page := Peek(ms, count, start);
            start.Some? ==> page[|page| - 1].sequenceNumber >= start.value
  {
    var k := PoolStart(ms, start);
    var page := Peek(ms, count, start);
    var p := |page|;
    PeekPrefix(ms, count, start);
    var i := k + p - 1;
    assert page[p - 1] == ms[i];
    SplitAfter(ms, i);
    assert Pool(ms, start)[p..] == ms[i + 1..];
    if start.Some? {
      FromMembers(ms, start.value);
    }
  }

  /** A namespace reached through one connection string: whether it can be
      reached at all, the queues it holds by path, and the number of the peek
      call (counting from 0) at which the transport fails, if it does. */
  datatype Namespace = Namespace(
    reachable: bool,
    queues: map<string, seq<RawMessage>>,
    faultAt: Option<nat>)
  {
    /** The broker keeps every queue in ascending sequence-number order. */
    predicate Ordered() {
      forall q :: q in queues ==> Ascending(queues[q])
    }
  }
}
