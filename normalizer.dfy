/** The record normaliser of `load_messages`: one flat row per fetched
    message, numbered from 1, with the sequence number and message id turned
    into text, line breaks taken out of the body, and the two dead-letter
    columns added when the dead-letter sub-queue was read. */
module Normalizer {
  import opened Wrappers
  import opened Text
  import opened Broker

  /** Application-property keys the broker sets on dead-lettered messages. */
  const DeadLetterReasonKey: string := "DeadLetterReason"
  const DeadLetterErrorDescriptionKey: string := "DeadLetterErrorDescription"

  /** The two extra columns of a dead-letter row. */
  datatype DeadLetterInfo = DeadLetterInfo(reason: string, errorDescription: string)

  /** One `msg_object`: `id`, `sequence_num`, `message_id`, `message`,
      `enqueued_time_utc` and, for dead-letter queues only, the dead-letter
      columns. */
  datatype Row = Row(
    id: nat,
    sequenceNum: string,
    messageId: string,
    message: string,
    enqueuedTimeUtc: Option<Timestamp>,
    deadLetter: Option<DeadLetterInfo>)

  /** `str(n) if n else ""`: empty exactly for sequence number 0, otherwise
      the numeral that reads back as `n`. */
  function SequenceNumText(n: nat): (t: string)
    ensures t == "" <==> n == 0
    ensures t != "" ==> Canonical(t) && DecimalValue(t) == n
  {
    if n == 0 then "" else DecimalRoundTrip(n); NatToDecimal(n)
  }

  /** `.replace('\n', ' ').replace('\r', '')`: no line break is left, each
      carriage return is dropped, and in text without carriage returns each
      `\n` becomes a space and every other character stays where it is. */
  function CleanText(s: string): (r: string)
    ensures '\n' !in r && '\r' !in r
    ensures |r| == |s| - Count(s, '\r')
    ensures '\r' !in s ==> |r| == |s| && forall k :: 0 <= k < |s| ==> r[k] == (if s[k] == '\n' then ' ' else s[k])
    ensures '\n' !in s && '\r' !in s ==> r == s
  {
    var spaced := ReplaceChar(s, '\n', ' ');
    ReplaceRemoves(s, '\n', ' ');
    DeleteCharLength(spaced, '\r');
    CountAfterReplace(s, '\n', ' ', '\r');
    if '\r' in s then DeleteChar(spaced, '\r')
    else
      ReplaceAbsent(s, '\n', ' ', '\r');
      DeleteChar(spaced, '\r')
  }

  /** Cleaning works character by character: it distributes over
      concatenation ... */
  lemma CleanTextConcat(a: string, b: string)
    ensures CleanText(a + b) == CleanText(a) + CleanText(b)
  {
    ReplaceCharConcat(a, b, '\n', ' ');
    DeleteCharConcat(ReplaceChar(a, '\n', ' '), ReplaceChar(b, '\n', ' '), '\r');
  }

  /** ... and on one character drops a carriage return, turns a line feed
      into a space and keeps anything else. */
  lemma CleanTextSingle(x: char)
    ensures CleanText([x]) == if x == '\r' then [] else if x == '\n' then [' '] else [x]
  {
    var spaced := ReplaceChar([x], '\n', ' ');
    assert spaced == [if x == '\n' then ' ' else x];
    DeleteCharSingle(spaced[0], '\r');
  }

  /** `(msg.application_properties or {}).get(key, '')`. */
  function PropertyText(props: Option<map<string, string>>, key: string): (t: string)
    ensures props.Some? && key in props.value ==> t == props.value[key]
    ensures props.None? || key !in props.value ==> t == ""
  {
    if props.Some? && key in props.value then props.value[key] else ""
  }

  /** The row for message `m` at position `id` (counting from 1). */
  function NormalizeMessage(m: RawMessage, id: nat, deadLetter: bool): (r: Row)
    ensures r.id == id
    ensures r.sequenceNum == "" <==> m.sequenceNumber == 0
    ensures r.sequenceNum != "" ==> Canonical(r.sequenceNum) && DecimalValue(r.sequenceNum) == m.sequenceNumber
    ensures r.messageId == "" <==> m.messageId.None? || m.messageId.value == ""
    ensures m.messageId.Some? ==> r.messageId == m.messageId.value
    ensures r.message == CleanText(m.body)
    ensures '\n' !in r.message && '\r' !in r.message
    ensures r.enqueuedTimeUtc == m.enqueuedTimeUtc
    ensures r.deadLetter.Some? <==> deadLetter
    ensures deadLetter ==> r.deadLetter.value.reason == PropertyText(m.applicationProperties, DeadLetterReasonKey)
    ensures deadLetter ==> r.deadLetter.value.errorDescription == PropertyText(m.applicationProperties, DeadLetterErrorDescriptionKey)
  {
    Row(
      id,
      SequenceNumText(m.sequenceNumber),
      if m.messageId.Some? then m.messageId.value else "",
      CleanText(m.body),
      m.enqueuedTimeUtc,
      if deadLetter then
        Some(DeadLetterInfo(
          PropertyText(m.applicationProperties, DeadLetterReasonKey),
          PropertyText(m.applicationProperties, DeadLetterErrorDescriptionKey)))
      else None)
  }

  /** `messages_data` for the fetched list `ms`: one row per message, in
      fetch order, numbered 1 to N. */
  function Normalized(ms: seq<RawMessage>, deadLetter: bool): (rows: seq<Row>)
    ensures |rows| == |ms|
    ensures forall i :: 0 <= i < |ms| ==> rows[i] == NormalizeMessage(ms[i], i + 1, deadLetter)
    ensures forall i, j :: 0 <= i < j < |rows| ==> rows[i].id < rows[j].id
  {
    seq(|ms|, i requires 0 <= i < |ms| => NormalizeMessage(ms[i], i + 1, deadLetter))
  }

  /** On an ascending queue no two rows show the same sequence-number text:
      only the first message can be numbered 0 and shown as `""`. */
  lemma SequenceNumbersDistinct(ms: seq<RawMessage>, deadLetter: bool, i: nat, j: nat)
    requires Ascending(ms) && i < j < |ms|
    ensures Normalized(ms, deadLetter)[i].sequenceNum != Normalized(ms, deadLetter)[j].sequenceNum
  {
    assert Precedes(ms, i, j);
  }

  /** The normaliser loop: bump `count` and append one row per message. */
  method Normalize(ms: seq<RawMessage>, deadLetter: bool) returns (rows: seq<Row>)
    ensures rows == Normalized(ms, deadLetter)
  {
    rows := [];
    var count := 1;
    for i := 0 to |ms|
      invariant count == i + 1
      invariant |rows| == i
      invariant forall k :: 0 <= k < i ==> rows[k] == NormalizeMessage(ms[k], k + 1, deadLetter)
    {
      var msg := ms[i];
      rows := rows + [NormalizeMessage(msg, count, deadLetter)];
      count := count + 1;
    }
  }
}
