/**
  The sample source over a streaming decoder. The container reader and the
  codec are opaque: the reader is the sequence of results its `next_packet`
  will give, and each packet carries what decoding it gives. Reading past
  the end of that sequence gives `UnexpectedEof`, as a reader at the end of
  its file does. Timestamps, the elapsed position and the duration are whole
  nanoseconds.
 */
module SampleSource {
  import opened Wrappers

  /** `Duration::from_secs(1)`, the end-of-stream tolerance. */
  const ONE_SECOND: nat := 1_000_000_000

  /** What `decoder.decode` gives for a packet. */
  datatype Decoded<S> = Samples(samples: seq<S>) | DecodeError

  /** What `format_reader.next_packet` gives. */
  datatype Read<S> = Packet(ts: nat, decoded: Decoded<S>) | UnexpectedEof | ReadError

  /**
    What `next_packet` reads and writes: the reader's remaining results,
    `error_count`, `finished`, and the `ELAPSED` and `DURATION` globals.
   */
  datatype PacketState<S> = PacketState(
    input: seq<Read<S>>, errorCount: nat, finished: bool, elapsed: nat, duration: nat)

  /** The whole sample source: the packet state, the current sample buffer and the cursor. */
  datatype Source<S> = Source(packets: PacketState<S>, buffer: Option<seq<S>>, pos: nat)

  /** `error_count` never passes 3: the fourth read is never attempted. */
  predicate PacketInv<S>(p: PacketState<S>) {
    p.errorCount <= 3
  }

  /** The cursor stays within the buffer, and is 0 when there is none. */
  predicate Inv<S>(s: Source<S>) {
    && PacketInv(s.packets)
    && (s.buffer.None? ==> s.pos == 0)
    && (s.buffer.Some? ==> s.pos <= |s.buffer.value|)
  }

  /** Whether `next_packet` gives up at once, without consulting the reader. */
  predicate Halted<S>(p: PacketState<S>) {
    p.errorCount > 2 || p.finished
  }

  /** The reader's next result and what remains after it. */
  function Fetch<S>(input: seq<Read<S>>): (r: (Read<S>, seq<Read<S>>))
    ensures input == [] ==> r == (UnexpectedEof, [])
    ensures input != [] ==> [r.0] + r.1 == input
  {
    if input == [] then (UnexpectedEof, []) else (input[0], input[1..])
  }

  /** One read by `next_packet`: either its answer, or the state it retries from. */
  datatype Attempt<S> = Answer(packet: Option<seq<S>>, state: PacketState<S>) | Retry(state: PacketState<S>)

  /**
    The body of `next_packet` up to its self-call: one read, the bookkeeping
    of `error_count`, `finished` and the elapsed position, and one decode.
   */
  function TryRead<S>(p: PacketState<S>): (a: Attempt<S>)
    requires !Halted(p)
    ensures a.state.duration == p.duration
    ensures a.state.input == if p.input == [] then [] else p.input[1..]
    ensures a.Retry? ==> !a.state.finished
    ensures a.Retry? && p.input == [] ==> a.state.errorCount == p.errorCount + 1
    ensures a.Retry? ==> a.state.errorCount <= p.errorCount + 1
    ensures a.Answer? && a.packet.None? ==> a.state.finished
    ensures a.Answer? && a.packet.Some? ==>
      && p.input != [] && p.input[0] == Packet(a.state.elapsed, Samples(a.packet.value))
      && a.state.errorCount == 0 && !a.state.finished && a.state.elapsed <= a.state.duration
    ensures Fetch(p.input).0.ReadError? ==>
      a == Retry(p.(input := Fetch(p.input).1, errorCount := p.errorCount + 1))
    ensures Fetch(p.input).0.UnexpectedEof? && p.elapsed + ONE_SECOND > p.duration ==>
      a == Answer(None, p.(input := Fetch(p.input).1, finished := true))
    ensures Fetch(p.input).0.UnexpectedEof? && p.elapsed + ONE_SECOND <= p.duration ==>
      a == Retry(p.(input := Fetch(p.input).1, errorCount := p.errorCount + 1))
    ensures Fetch(p.input).0.Packet? && Fetch(p.input).0.ts > p.duration ==>
      a == Answer(None, p.(input := Fetch(p.input).1, errorCount := 0,
                           elapsed := Fetch(p.input).0.ts, finished := true))
    ensures Fetch(p.input).0.Packet? && Fetch(p.input).0.ts <= p.duration
            && Fetch(p.input).0.decoded.DecodeError? ==>
      a == Retry(p.(input := Fetch(p.input).1, errorCount := 1, elapsed := Fetch(p.input).0.ts))
    ensures Fetch(p.input).0.Packet? && Fetch(p.input).0.ts <= p.duration
            && Fetch(p.input).0.decoded.Samples? ==>
      a == Answer(Some(Fetch(p.input).0.decoded.samples),
                  p.(input := Fetch(p.input).1, errorCount := 0, elapsed := Fetch(p.input).0.ts))
  {
    var (read, rest) := Fetch(p.input);
    match read
    case Packet(ts, decoded) =>
      var p' := p.(input := rest, errorCount := 0, elapsed := ts);
      if ts > p.duration then Answer(None, p'.(finished := true))
      else if decoded.DecodeError? then Retry(p'.(errorCount := 1))
      else Answer(Some(decoded.samples), p')
    case UnexpectedEof =>
      if p.elapsed + ONE_SECOND > p.duration then Answer(None, p.(input := rest, finished := true))
      else Retry(p.(input := rest, errorCount := p.errorCount + 1))
    case ReadError =>
      Retry(p.(input := rest, errorCount := p.errorCount + 1))
  }

  /** Dropping one element and then a prefix is dropping a prefix. */
  lemma SuffixOfRest<S>(xs: seq<S>, ys: seq<S>)
    requires xs != [] && |ys| <= |xs| - 1 && ys == xs[1..][|xs| - 1 - |ys|..]
    ensures ys == xs[|xs| - |ys|..]
  {
  }

  /**
    `next_packet`: the next successfully decoded packet's samples, or None
    once the source is finished or has failed three reads in a row. A failed
    read or decode is retried; a successful read resets `error_count` and sets
    the elapsed position to the packet's timestamp.
   */
  function NextPacket<S>(p: PacketState<S>): (r: (Option<seq<S>>, PacketState<S>))
    ensures Halted(p) ==> r == (None, p)
    ensures PacketInv(p) ==> PacketInv(r.1)
    ensures r.1.duration == p.duration
    ensures |r.1.input| <= |p.input|
    ensures r.0.None? ==> Halted(r.1)
    ensures r.0.Some? ==>
      && |r.1.input| < |p.input|
      && r.1.errorCount == 0 && !r.1.finished && r.1.elapsed <= r.1.duration
    decreases |p.input|, if p.errorCount > 2 then 0 else 3 - p.errorCount
  {
    if Halted(p) then (None, p)
    else
      match TryRead(p)
      case Answer(packet, q) => (packet, q)
      case Retry(q) => NextPacket(q)
  }

  /**
    `next_packet` consumes the reader's results in order: what is left is a
    suffix of what there was, and a packet it returns is the last result it
    read, stamped with the new elapsed position.
   */
  lemma {:induction false} NextPacketReadsInOrder<S>(p: PacketState<S>)
    ensures var r := NextPacket(p);
      && r.1.input == p.input[|p.input| - |r.1.input|..]
      && (r.0.Some? ==> p.input[|p.input| - |r.1.input| - 1] == Packet(r.1.elapsed, Samples(r.0.value)))
    decreases |p.input|, if p.errorCount > 2 then 0 else 3 - p.errorCount
  {
    var r := NextPacket(p);
    if !Halted(p) {
      match TryRead(p)
      case Answer(_, _) =>
      case Retry(q) =>
        NextPacketReadsInOrder(q);
        if p.input != [] {
          SuffixOfRest(p.input, r.1.input);
          if r.0.Some? {
            assert p.input[|p.input| - |r.1.input| - 1] == q.input[|q.input| - |r.1.input| - 1];
          }
        }
    }
  }

  /**
    `next_sample`: the sample under the cursor; when there is no buffer a
    packet is fetched first, and an exhausted buffer is dropped and the
    next packet tried.
   */
  function NextSample<S>(s: Source<S>): (r: (Option<S>, Source<S>))
    requires Inv(s)
    ensures Inv(r.1)
    ensures r.1.packets.duration == s.packets.duration
    ensures s.packets.finished ==> r.1.packets.finished
    ensures s.buffer.Some? && s.pos < |s.buffer.value| ==>
      r == (Some(s.buffer.value[s.pos]), s.(pos := s.pos + 1))
    ensures r.0.Some? ==> r.1.buffer.Some? && 0 < r.1.pos && r.0.value == r.1.buffer.value[r.1.pos - 1]
    ensures r.0.None? ==> r.1.buffer.None? && Halted(r.1.packets)
    decreases |s.packets.input|, if s.buffer.Some? then 1 else 0
  {
    var s' :=
      if s.buffer.Some? then s
      else
        var (packet, next) := NextPacket(s.packets);
        Source(next, if packet.Some? then packet else s.buffer, s.pos);
    match s'.buffer
    case None => (None, s')
    case Some(b) =>
      if s'.pos < |b| then (Some(b[s'.pos]), s'.(pos := s'.pos + 1))
      else NextSample(s'.(pos := 0, buffer := None))
  }

  /**
    `seek` to `target`: past the duration it only sets `finished`; otherwise
    the reader is sought (to the results `after`, whatever they are) and the
    elapsed position is set to `target`. Buffer, cursor and `error_count`
    are left alone either way.
   */
  function Seek<S>(s: Source<S>, target: nat, after: seq<Read<S>>): (r: Source<S>)
    ensures r.buffer == s.buffer && r.pos == s.pos
    ensures r.packets.errorCount == s.packets.errorCount && r.packets.duration == s.packets.duration
    ensures r.packets.finished <==> s.packets.finished || target > s.packets.duration
    ensures target > s.packets.duration ==> r.packets.elapsed == s.packets.elapsed && r.packets.input == s.packets.input
    ensures target <= s.packets.duration ==> r.packets.elapsed == target && r.packets.input == after
  {
    if target > s.packets.duration then s.(packets := s.packets.(finished := true))
    else s.(packets := s.packets.(input := after, elapsed := target))
  }

  // ---------------------------------------------------------------------
  // Reference meaning: everything a source will ever produce

  function Flatten<S>(ss: seq<seq<S>>): seq<S> {
    if ss == [] then [] else ss[0] + Flatten(ss[1..])
  }

  /** The samples of every packet `next_packet` returns from `p` on, until it returns None. */
  function Packets<S>(p: PacketState<S>): seq<seq<S>>
    decreases |p.input|
  {
    var (packet, next) := NextPacket(p);
    if packet.None? then [] else [packet.value] + Packets(next)
  }

  /** What is left of the current buffer. */
  function Pending<S>(s: Source<S>): seq<S>
    requires Inv(s)
  {
    if s.buffer.Some? then s.buffer.value[s.pos..] else []
  }

  /** All samples the source will still produce. */
  function Output<S>(s: Source<S>): seq<S>
    requires Inv(s)
  {
    Pending(s) + Flatten(Packets(s.packets))
  }

  /**
    `next_sample` yields exactly the rest of the current buffer followed by
    the samples of the packets `next_packet` returns, in order; None means
    nothing is left, now or later.
   */
  lemma {:induction false} NextSampleYieldsOutput<S>(s: Source<S>)
    requires Inv(s)
    ensures NextSample(s).0.Some? ==> Output(s) == [NextSample(s).0.value] + Output(NextSample(s).1)
    ensures NextSample(s).0.None? ==> Output(s) == [] && Output(NextSample(s).1) == []
    decreases |s.packets.input|, if s.buffer.Some? then 1 else 0
  {
    var r := NextSample(s);
    if s.buffer.Some? {
      var b := s.buffer.value;
      if s.pos < |b| {
        assert b[s.pos..] == [b[s.pos]] + b[s.pos + 1..];
      } else {
        var s2 := s.(pos := 0, buffer := None);
        assert Output(s2) == Output(s);
        NextSampleYieldsOutput(s2);
      }
    } else {
      var (packet, next) := NextPacket(s.packets);
      var s1 := Source(next, if packet.Some? then packet else s.buffer, s.pos);
      if packet.None? {
        assert Packets(next) == [];
      } else {
        var x := packet.value;
        assert Packets(s.packets) == [x] + Packets(next);
        assert Output(s) == x + Flatten(Packets(next));
        if 0 < |x| {
          assert x == [x[0]] + x[1..];
        } else {
          var s2 := s1.(pos := 0, buffer := None);
          assert Output(s2) == Output(s);
          NextSampleYieldsOutput(s2);
        }
      }
    }
  }

  // ---------------------------------------------------------------------
  // Retry and end-of-stream behaviour of next_packet

  /** A read that `next_packet` counts as an error and retries. */
  predicate Transient<S>(p: PacketState<S>, read: Read<S>) {
    read.ReadError? || (read.UnexpectedEof? && p.elapsed + ONE_SECOND <= p.duration)
  }

  /** One transient failure is skipped, adding one to `error_count`. */
  lemma RetryStep<S>(p: PacketState<S>)
    requires !Halted(p) && p.input != [] && Transient(p, p.input[0])
    ensures NextPacket(p) == NextPacket(p.(input := p.input[1..], errorCount := p.errorCount + 1))
  {
    assert TryRead(p) == Retry(p.(input := p.input[1..], errorCount := p.errorCount + 1));
  }

  /** Each transient failure adds one to `error_count` and is skipped. */
  lemma {:induction false} TransientFailures<S>(p: PacketState<S>, k: nat)
    requires !p.finished && p.errorCount + k <= 3 && k <= |p.input|
    requires forall i :: 0 <= i < k ==> Transient(p, p.input[i])
    ensures NextPacket(p) == NextPacket(p.(input := p.input[k..], errorCount := p.errorCount + k))
    decreases k
  {
    if k == 0 {
      assert p.input[0..] == p.input;
      assert p == p.(input := p.input[0..], errorCount := p.errorCount);
    } else {
      assert Transient(p, p.input[0]);
      var q := p.(input := p.input[1..], errorCount := p.errorCount + 1);
      RetryStep(p);
      forall i | 0 <= i < k - 1 ensures Transient(q, q.input[i]) {
        assert q.input[i] == p.input[i + 1];
      }
      TransientFailures(q, k - 1);
      assert q.input[k - 1..] == p.input[k..];
    }
  }

  /** Three transient failures in a row make `next_packet` give up, with `error_count` 3. */
  lemma GivesUpAfterThreeFailures<S>(p: PacketState<S>)
    requires !p.finished && p.errorCount == 0 && 3 <= |p.input|
    requires forall i :: 0 <= i < 3 ==> Transient(p, p.input[i])
    ensures NextPacket(p) == (None, p.(input := p.input[3..], errorCount := 3))
  {
    TransientFailures(p, 3);
  }

  /** Fewer than three transient failures before a good packet are skipped, and the count is reset. */
  lemma RecoversAfterFewerFailures<S>(p: PacketState<S>, k: nat, ts: nat, x: seq<S>)
    requires !p.finished && p.errorCount + k <= 2 && k < |p.input|
    requires forall i :: 0 <= i < k ==> Transient(p, p.input[i])
    requires p.input[k] == Packet(ts, Samples(x)) && ts <= p.duration
    ensures NextPacket(p) == (Some(x), p.(input := p.input[k + 1..], errorCount := 0, elapsed := ts))
  {
    TransientFailures(p, k);
    var q := p.(input := p.input[k..], errorCount := p.errorCount + k);
    assert q.input[0] == Packet(ts, Samples(x));
    assert q.input[1..] == p.input[k + 1..];
  }

  /**
    At the end of the reader's input an `UnexpectedEof` within one second of
    the duration finishes the source; further from it the read is retried
    until `error_count` reaches 3, and the source is not marked finished.
   */
  lemma {:induction false} ExhaustedReader<S>(p: PacketState<S>)
    requires p.input == [] && !p.finished && p.errorCount <= 3
    ensures p.errorCount <= 2 && p.elapsed + ONE_SECOND > p.duration ==>
      NextPacket(p) == (None, p.(finished := true))
    ensures p.errorCount <= 2 && p.elapsed + ONE_SECOND <= p.duration ==>
      NextPacket(p) == (None, p.(errorCount := 3))
    decreases 3 - p.errorCount
  {
    if p.errorCount <= 2 && p.elapsed + ONE_SECOND <= p.duration {
      ExhaustedReader(p.(errorCount := p.errorCount + 1));
    }
  }

  /**
    An `UnexpectedEof` within one second of the duration, read anywhere in
    the input, finishes the source.
   */
  lemma EofNearEndFinishes<S>(p: PacketState<S>)
    requires !Halted(p) && p.input != [] && p.input[0] == UnexpectedEof
    requires p.elapsed + ONE_SECOND > p.duration
    ensures NextPacket(p) == (None, p.(input := p.input[1..], finished := true))
  {
  }

  /** A packet stamped past the duration finishes the source whatever decoding it would give. */
  lemma PacketPastDuration<S>(p: PacketState<S>, ts: nat, decoded: Decoded<S>)
    requires !Halted(p) && p.input != [] && p.input[0] == Packet(ts, decoded) && ts > p.duration
    ensures NextPacket(p) ==
      (None, p.(input := p.input[1..], errorCount := 0, elapsed := ts, finished := true))
  {
  }

  /** A packet is "undecodable" when it reads fine, is within the duration, and fails to decode. */
  predicate Undecodable<S>(p: PacketState<S>, read: Read<S>) {
    read.Packet? && read.ts <= p.duration && read.decoded.DecodeError?
  }

  /**
    Undecodable packets alone never reach the error limit: every successful
    read resets `error_count`, so any number of undecodable packets before a
    good one are skipped.
   */
  lemma {:induction false} DecodeFailuresDoNotAccumulate<S>(p: PacketState<S>, k: nat, ts: nat, x: seq<S>)
    requires !p.finished && p.errorCount <= 2 && k < |p.input|
    requires forall i :: 0 <= i < k ==> Undecodable(p, p.input[i])
    requires p.input[k] == Packet(ts, Samples(x)) && ts <= p.duration
    ensures NextPacket(p) == (Some(x), p.(input := p.input[k + 1..], errorCount := 0, elapsed := ts))
    decreases k
  {
    if k == 0 {
    } else {
      var q := p.(input := p.input[1..], errorCount := 1, elapsed := p.input[0].ts);
      assert NextPacket(p) == NextPacket(q);
      forall i | 0 <= i < k - 1 ensures Undecodable(q, q.input[i]) {
        assert q.input[i] == p.input[i + 1];
      }
      DecodeFailuresDoNotAccumulate(q, k - 1, ts, x);
      assert q.input[k..] == p.input[k + 1..];
    }
  }


  /**
    A decode failure still counts toward the limit as the first of three
    failures in a row: it leaves `error_count` at 1, and two failed reads
    after it make `next_packet` give up.
   */
  lemma DecodeThenTwoReadErrorsGivesUp<S>(p: PacketState<S>, ts: nat)
    requires !p.finished && p.errorCount == 0 && ts <= p.duration
    requires p.input == [Packet(ts, DecodeError), ReadError, ReadError]
    ensures NextPacket(p) == (None, p.(input := [], errorCount := 3, elapsed := ts))
  {
    var q := p.(input := p.input[1..], errorCount := 1, elapsed := ts);
    assert TryRead(p) == Retry(q);
    RetryStep(q);
    var q' := q.(input := q.input[1..], errorCount := 2);
    RetryStep(q');
    assert q'.input[1..] == [];
  }

  // ---------------------------------------------------------------------
  // Seek

  /** Seeking past the duration leaves only the rest of the current buffer to play. */
  lemma SeekPastEndDrains<S>(s: Source<S>, target: nat, after: seq<Read<S>>)
    requires Inv(s) && target > s.packets.duration
    ensures Inv(Seek(s, target, after)) && Output(Seek(s, target, after)) == Pending(s)
  {
    var p := Seek(s, target, after).packets;
    assert Packets(p) == [];
  }

  /**
    Once three reads in a row have failed, no seek revives the source: only
    the rest of the current buffer is still produced.
   */
  lemma ErrorLimitSurvivesSeek<S>(s: Source<S>, target: nat, after: seq<Read<S>>)
    requires Inv(s) && s.packets.errorCount > 2
    ensures Inv(Seek(s, target, after)) && Output(Seek(s, target, after)) == Pending(s)
  {
    var p := Seek(s, target, after).packets;
    assert Packets(p) == [];
  }

  /** A finished source stays finished across a seek to any position. */
  lemma FinishedSurvivesSeek<S>(s: Source<S>, target: nat, after: seq<Read<S>>)
    requires Inv(s) && s.packets.finished
    ensures Seek(s, target, after).packets.finished
    ensures Output(Seek(s, target, after)) == Pending(s)
  {
    var p := Seek(s, target, after).packets;
    assert Packets(p) == [];
  }
}
