/** The `Symphonia` decoder object, proved against the functions of `SampleSource`. */
module Decoder {
  import opened Wrappers
  import opened SampleSource

  /** `Symphonia`: the source's fields, updated in place. */
  class Symphonia<S> {
    /** The results `format_reader` has yet to give. */
    var input: seq<Read<S>>
    var errorCount: nat
    var finished: bool
    var buffer: Option<seq<S>>
    var pos: nat
    /** The `ELAPSED` global. */
    var elapsed: nat
    /** The `DURATION` global, set once by `new`. */
    const duration: nat
    /** The positions of the reader seeks issued so far. */
    ghost var seeks: seq<nat>

    function Packets(): PacketState<S>
      reads this
    {
      PacketState(input, errorCount, finished, elapsed, duration)
    }

    function State(): Source<S>
      reads this
    {
      Source(Packets(), buffer, pos)
    }

    ghost predicate Valid()
      reads this
    {
      Inv(State())
    }

    /**
      `new`: the duration is the track's start timestamp plus its frame
      count (0 when unknown); no errors, not finished, no buffer. `new` does
      not write `ELAPSED`, so it keeps the value `elapsed` it had.
     */
    constructor (startTs: nat, nFrames: Option<nat>, input: seq<Read<S>>, elapsed: nat)
      ensures Valid() && seeks == []
      ensures State() == Source(
        PacketState(input, 0, false, elapsed, startTs + if nFrames.Some? then nFrames.value else 0),
        None, 0)
    {
      this.input := input;
      this.elapsed := elapsed;
      duration := startTs + if nFrames.Some? then nFrames.value else 0;
      errorCount := 0;
      finished := false;
      buffer := None;
      pos := 0;
      seeks := [];
    }

    /** `seek(target)`, where `after` is what the reader gives once sought. */
    method Seek(target: nat, after: seq<Read<S>>)
      requires Valid()
      modifies this
      ensures Valid()
      ensures State() == SampleSource.Seek(old(State()), target, after)
      ensures seeks == if target > duration then old(seeks) else old(seeks) + [target]
    {
      if target > duration {
        finished := true;
        return;
      }
      input := after;
      seeks := seeks + [target];
      elapsed := target;
    }

    /** `next_packet`, its self-recursive retries run as a loop. */
    method NextPacket() returns (r: Option<seq<S>>)
      requires Valid()
      modifies this
      ensures Valid()
      ensures (r, Packets()) == SampleSource.NextPacket(old(Packets()))
      ensures buffer == old(buffer) && pos == old(pos) && seeks == old(seeks)
    {
      while true
        invariant Inv(State())
        invariant SampleSource.NextPacket(Packets()) == SampleSource.NextPacket(old(Packets()))
        invariant buffer == old(buffer) && pos == old(pos) && seeks == old(seeks)
        decreases |input|, if errorCount > 2 then 0 else 3 - errorCount
      {
        if errorCount > 2 || finished {
          return None;
        }
        var read: Read<S>;
        if input == [] {
          read := UnexpectedEof;
        } else {
          read := input[0];
          input := input[1..];
        }
        match read {
          case Packet(ts, decoded) =>
            errorCount := 0;
            elapsed := ts;
            if elapsed > duration {
              finished := true;
              return None;
            }
            match decoded {
              case Samples(samples) =>
                return Some(samples);
              case DecodeError =>
                errorCount := errorCount + 1;
            }
          case UnexpectedEof =>
            if elapsed + ONE_SECOND > duration {
              finished := true;
              return None;
            }
            errorCount := errorCount + 1;
          case ReadError =>
            errorCount := errorCount + 1;
        }
      }
    }

    /** `next_sample`, its self-recursion on an exhausted buffer run as a loop. */
    method NextSample() returns (r: Option<S>)
      requires Valid()
      modifies this
      ensures Valid()
      ensures (r, State()) == SampleSource.NextSample(old(State()))
      ensures seeks == old(seeks)
    {
      while true
        invariant Inv(State())
        invariant SampleSource.NextSample(State()) == SampleSource.NextSample(old(State()))
        invariant seeks == old(seeks)
        decreases |input|, if buffer.Some? then 1 else 0
      {
        if buffer.None? {
          var packet := NextPacket();
          if packet.Some? {
            buffer := packet;
          }
        }
        match buffer {
          case None =>
            return None;
          case Some(b) =>
            if pos < |b| {
              r := Some(b[pos]);
              pos := pos + 1;
              return;
            }
            pos := 0;
            buffer := None;
        }
      }
    }
  }
}
