/** One turn of `e450_push_task` in place: debug ring, receive buffer, frame parser, definition/value machine and
    cache, composed. */
module PushTask {
  import opened Bytes
  import opened HdlcParser
  import opened PushBuffer
  import opened PushSession
  import opened ReadingCache
  import PushPipeline
  import Rings

  /** What the loop keeps from turn to turn. */
  datatype Chain = Chain(rx: seq<byte>, session: Session, cache: Cache)

  const STARTED := Chain([], INITIAL, map[])

  /** What a frame that has been taken out does; one that does not parse does nothing. */
  function Delivered(c: Chain, frame: seq<byte>): Chain {
    match Parse(frame)
    case None => c
    case Some(f) =>
      var h := Handle(c.session, f.info);
      Chain(c.rx, h.session, CachedAll(c.cache, h.published))
  }

  function TurnOf(c: Chain, ev: Event): Chain {
    var turn := Step(c.rx, ev);
    var next := c.(rx := turn.rx);
    if turn.frame.Some? then Delivered(next, turn.frame.value) else next
  }

  function RunOf(c: Chain, events: seq<Event>): Chain
    decreases |events|
  {
    if events == [] then c else RunOf(TurnOf(c, events[0]), events[1..])
  }

  /** Any run of turns is the run of the buffer, the machine over the information of the frames it takes out that
      parse, and the cache over what the machine publishes. */
  lemma {:induction false} RunIsPipeline(c: Chain, events: seq<Event>)
    ensures var o := PushBuffer.Run(c.rx, events); var h := HandleAll(c.session, PushPipeline.Infos(o.frames));
      RunOf(c, events) == Chain(o.rx, h.session, CachedAll(c.cache, h.published))
    decreases |events|
  {
    hide Step, Parse, Handle, Cached;
    if events != [] {
      var turn, next := Step(c.rx, events[0]), TurnOf(c, events[0]);
      RunIsPipeline(next, events[1..]);
      var more := PushBuffer.Run(turn.rx, events[1..]).frames;
      if turn.frame.Some? {
        assert ([turn.frame.value] + more)[1..] == more;
        var infos := PushPipeline.Infos(more);
        var f := Parse(turn.frame.value);
        if f.Some? {
          assert ([f.value.info] + infos)[1..] == infos;
          var h := Handle(c.session, f.value.info);
          CachedAllConcat(c.cache, h.published, HandleAll(h.session, infos).published);
        } else {
          assert [] + infos == infos;
        }
      } else {
        assert [] + more == more;
      }
    }
  }

  /** From the start the cache holds what the pipeline publishes. */
  lemma CacheIsPipeline(events: seq<Event>)
    ensures RunOf(STARTED, events).cache == CachedAll(map[], PushPipeline.Published(PushBuffer.Run([], events).frames))
  {
    RunIsPipeline(STARTED, events);
  }

  class E450Push {
    const receiver: PushReceiver
    const frame: FrameBuffer
    const machine: PushMachine
    const cache: DashboardCache
    const debug: Rings.Ring

    constructor ()
      ensures Valid() && Contents() == STARTED && debug.log == []
    {
      receiver := new PushReceiver();
      frame := new FrameBuffer();
      machine := new PushMachine();
      cache := new DashboardCache();
      debug := new Rings.Ring();
    }

    ghost predicate Valid()
      reads receiver, frame, machine, cache, cache.slots, debug, debug.buf
    {
      && receiver.Valid() && frame.Valid() && machine.Valid() && cache.Valid() && debug.Valid()
      && receiver.rxBuf != frame.info && debug.buf != receiver.rxBuf && debug.buf != frame.info
    }

    ghost function Contents(): Chain
      requires Valid()
      reads receiver, receiver.rxBuf, frame, machine, machine.obisList, cache, cache.slots, debug, debug.buf
    {
      Chain(receiver.Received(), machine.State(), cache.Contents())
    }

    /** A frame that has been taken out is parsed, handled and cached. */
    method Deliver(data: seq<byte>)
      requires Valid()
      modifies frame, frame.info, machine, machine.obisList, cache.slots
      ensures Valid() && Contents() == Delivered(old(Contents()), data)
    {
      hide Parse, Handle, CachedAll;
      var parsed := ParseFrame(data, frame);
      if parsed {
        var published := machine.HandleInfo(frame.info[..frame.infoLen]);
        cache.CacheReadings(published);
      }
    }

    /** One turn, after a read that returned bytes or timed out. */
    method OnTurn(ev: Event)
      requires Valid() && Feasible(Contents().rx, ev)
      modifies receiver`rxLen, receiver.rxBuf, frame, frame.info, machine, machine.obisList, cache.slots, debug,
        debug.buf
      ensures Valid() && Contents() == TurnOf(old(Contents()), ev)
      ensures debug.log == old(debug.log) + Arriving(ev)
    {
      hide Step, Delivered;
      match ev {
        case Data(bytes) =>
          debug.AppendAll(bytes);
          var taken := receiver.OnBytes(bytes);
          if taken.Some? { Deliver(taken.value); }
        case Idle =>
          receiver.OnTimeout();
      }
    }
  }
}
