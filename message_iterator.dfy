/** The rosbag2 message iterator: raw rows from a queue of sources, each
    drained in turn, turned into messages with an optional decoder. A
    source is modelled as the rows it has yet to yield; `front.next()`
    takes the first of them. */
module Bag2Messages {
  import opened Wrappers
  import opened Bytes

  datatype Time = Time(sec: int, nsec: int)

  datatype RawMessage = RawMessage(topic: string, timestamp: Time, data: seq<byte>)

  /** A message; `value` is `None` where the source leaves it undefined. */
  datatype Message<V> = Message(topic: string, timestamp: Time, data: seq<byte>, value: Option<V>)

  /** What `next()` resolves to: a message, or `done`. */
  datatype IteratorResult<V> = Yielded(message: Message<V>) | Done

  /** Every row still to come, source after source. */
  function Rows(sources: seq<seq<RawMessage>>): seq<RawMessage> {
    if sources == [] then [] else sources[0] + Rows(sources[1..])
  }

  /** The row message with the decoder's value, if there is a decoder. */
  function ToMessage<V>(decoder: Option<RawMessage -> V>, raw: RawMessage): (m: Message<V>)
    ensures m.topic == raw.topic && m.timestamp == raw.timestamp && m.data == raw.data
    ensures m.value.None? <==> decoder.None?
    ensures decoder.Some? ==> m.value == Some(decoder.value(raw))
  {
    match decoder
    case None => Message(raw.topic, raw.timestamp, raw.data, None)
    case Some(decode) => Message(raw.topic, raw.timestamp, raw.data, Some(decode(raw)))
  }

  /** One call of `next` on the sources: exhausted sources are dropped from
      the front, then the first row of the first live source is taken. */
  function Step(sources: seq<seq<RawMessage>>): (r: (Option<RawMessage>, seq<seq<RawMessage>>))
    ensures r.0.None? <==> Rows(sources) == []
    ensures r.0.None? ==> r.1 == []
    ensures r.0.Some? ==> [r.0.value] + Rows(r.1) == Rows(sources)
  {
    if sources == [] then (None, [])
    else if sources[0] == [] then
      assert Rows(sources) == Rows(sources[1..]);
      Step(sources[1..])
    else
      var rest := [sources[0][1..]] + sources[1..];
      assert rest[1..] == sources[1..];
      assert sources[0] == [sources[0][0]] + sources[0][1..];
      (Some(sources[0][0]), rest)
  }

  /** What calling `next` until `done` yields. */
  function Replay(sources: seq<seq<RawMessage>>): seq<RawMessage>
    decreases |Rows(sources)|
  {
    var (row, rest) := Step(sources);
    if row.None? then [] else [row.value] + Replay(rest)
  }

  /** The rows come out as the in-order concatenation of all sources. */
  lemma {:induction false} ReplayIsConcatenation(sources: seq<seq<RawMessage>>)
    ensures Replay(sources) == Rows(sources)
    decreases |Rows(sources)|
  {
    var (row, rest) := Step(sources);
    if row.Some? {
      ReplayIsConcatenation(rest);
    }
  }

  class MessageIterator<V> {
    var rowIterators: seq<seq<RawMessage>>
    const decoder: Option<RawMessage -> V>

    constructor(rowIterators: seq<seq<RawMessage>>, decoder: Option<RawMessage -> V>)
      ensures this.rowIterators == rowIterators && this.decoder == decoder
    {
      this.rowIterators := rowIterators;
      this.decoder := decoder;
    }

    /** `next()`: `done` only once no source has a row left; otherwise the
        next row in order, converted. */
    method Next() returns (r: IteratorResult<V>)
      modifies this`rowIterators
      ensures r.Done? <==> Step(old(rowIterators)).0.None?
      ensures r.Yielded? ==> r.message == ToMessage(decoder, Step(old(rowIterators)).0.value)
      ensures rowIterators == Step(old(rowIterators)).1
    {
      while |rowIterators| > 0
        invariant Step(rowIterators) == Step(old(rowIterators))
        decreases |rowIterators|
      {
        var front := rowIterators[0];
        if front == [] {
          rowIterators := rowIterators[1..];
          continue;
        }
        var rawMessage := front[0];
        rowIterators := [front[1..]] + rowIterators[1..];
        if decoder.None? {
          return Yielded(Message(rawMessage.topic, rawMessage.timestamp, rawMessage.data, None));
        }
        return Yielded(Message(rawMessage.topic, rawMessage.timestamp, rawMessage.data, Some(decoder.value(rawMessage))));
      }
      return Done;
    }
  }

  /** After `next` yields, the rows still to come are the old ones less the
      first; after `done`, no source remains. */
  lemma NextConsumesOneRow(sources: seq<seq<RawMessage>>)
    ensures Step(sources).0.Some? ==> Rows(Step(sources).1) == Rows(sources)[1..]
    ensures Step(sources).0.None? ==> Step(sources).1 == [] && Rows(sources) == []
    ensures Step(sources).0.Some? ==> Step(sources).0.value == Rows(sources)[0]
  {
    var (row, rest) := Step(sources);
    if row.Some? {
      assert Rows(sources) == [row.value] + Rows(rest);
    }
  }
}
