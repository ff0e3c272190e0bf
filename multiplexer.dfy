/**
  The readiness multiplexer of subproclines.py: `parallel_reader_xpoll`
  (shared by the `epoll` and `poll` variants) and `parallel_read_select`.
  The operating system is abstracted away: what `poll.poll()` or
  `select.select()` reports in each cycle, and the bytes each reported
  descriptor holds, are an input sequence of cycles; `os.read` is modelled by
  `Read`. A generator that could run forever is observed over finitely many
  cycles.
 */
module Multiplexer {
  import opened Chunks

  /** `errno.EINVAL`, which `os.read` raises for a negative length. */
  const EINVAL: int := 22

  datatype Option<T> = None | Some(value: T)

  /** The exceptions the loops can raise. */
  datatype Error = ValueError(message: seq<char>) | OSError(errno: int) | KeyError(key: int)

  datatype Result<T> = Ok(value: T) | Err(error: Error)

  /** One entry of `poll.poll()`: a descriptor, the events reported for it,
      and the bytes waiting to be read from it (empty at end of file). */
  datatype Ready = Ready(fd: int, events: bv32, available: seq<byte>)

  /** A descriptor about to be read, with the bytes waiting in it. */
  datatype Readable = Readable(fd: int, available: seq<byte>)

  /** Why the loop stopped: a cycle without data, an exception, or the
      observed cycles ran out while the loop would go on polling. */
  datatype Stop = Dry | Raised(error: Error) | Running

  /** What a multiplexer yields, how many cycles it polled, and why it stopped. */
  datatype Reading = Reading(events: seq<Event>, cycles: nat, stop: Stop)

  /** `os.read(fd, n)` on a non-blocking descriptor holding `available`:
      a negative length raises `OSError(EINVAL)`; otherwise it returns at
      most `n` of the waiting bytes, and `b''` at end of file or for `n == 0`. */
  function Read(available: seq<byte>, n: int): Result<seq<byte>>
  {
    if n < 0 then Err(OSError(EINVAL))
    else if n < |available| then Ok(available[..n])
    else Ok(available)
  }

  /** `os.read` fails exactly for a negative length; otherwise it returns a
      prefix of the waiting bytes of at most `n` bytes, empty only for
      `n == 0` or at end of file. */
  lemma ReadSpec(available: seq<byte>, n: int)
    ensures n < 0 <==> Read(available, n).Err?
    ensures Read(available, n).Ok? ==> |Read(available, n).value| <= n && Read(available, n).value <= available
    ensures Read(available, n).Ok? ==> (Read(available, n).value == [] <==> n == 0 || available == [])
  {
  }

  // ---------------------------------------------------------------------
  // Registration (lines 16-26 and 55-62).
  // ---------------------------------------------------------------------

  /** `fd_map` after registering `fds` in order: each descriptor maps to its
      position, and a descriptor given twice to its last position. */
  function FdMap(fds: seq<int>): map<int, int>
  {
    if fds == [] then map[]
    else FdMap(fds[..|fds| - 1])[fds[|fds| - 1] := |fds| - 1]
  }

  /** `fd_map` knows exactly the registered descriptors, and maps each to
      the last position at which it was registered. */
  lemma {:induction false} FdMapSpec(fds: seq<int>, fd: int)
    ensures fd in FdMap(fds) <==> fd in fds
    ensures fd in FdMap(fds) ==>
      var i := FdMap(fds)[fd];
      0 <= i < |fds| && fds[i] == fd && forall k :: i < k < |fds| ==> fds[k] != fd
    decreases |fds|
  {
    if fds != [] {
      var init := fds[..|fds| - 1];
      FdMapSpec(init, fd);
      InDropLast(fds, fd);
      assert forall k :: 0 <= k < |init| ==> init[k] == fds[k];
    }
  }

  /** Lines 16-26: register every stream for `POLLIN` and record its position.
      `fds` is built as in the source, where nothing reads it afterwards. */
  method Register(streams: seq<int>, pollin: bv32)
    returns (fds: seq<int>, fdMap: map<int, int>, interest: map<int, bv32>)
    ensures fds == streams
    ensures fdMap == FdMap(streams)
    ensures forall fd :: fd in interest <==> fd in streams
    ensures forall fd :: fd in interest ==> interest[fd] == pollin
  {
    fds, fdMap, interest := [], map[], map[];
    for i := 0 to |streams|
      invariant fds == streams[..i]
      invariant fdMap == FdMap(streams[..i])
      invariant forall fd :: fd in interest <==> fd in streams[..i]
      invariant forall fd :: fd in interest ==> interest[fd] == pollin
    {
      var fd := streams[i];
      assert streams[..i + 1][..i] == streams[..i];
      InDropLast(streams[..i + 1], fd);
      forall x ensures x in streams[..i + 1] <==> x in streams[..i] || x == fd {
        InDropLast(streams[..i + 1], x);
      }
      // `poll.register(fd, POLLIN)`: the hang-up mask is never registered
      interest := interest[fd := pollin];
      fds := fds + [fd];
      fdMap := fdMap[fd := i];
    }
    assert streams[..|streams|] == streams;
  }

  // ---------------------------------------------------------------------
  // One polling cycle, and the loop over cycles.
  // ---------------------------------------------------------------------

  /** The state of one pass over the descriptors a cycle reported: what was
      yielded, whether any read returned data, and an exception, if any. */
  datatype Pass = Pass(events: seq<Event>, gotData: bool, error: Option<Error>)

  /** Reading one reported descriptor: an empty read changes nothing; a
      non-empty one sets `got_data` and yields the chunk tagged `fd_map[fd]`. */
  function Step(fdMap: map<int, int>, n: int, p: Pass, r: Readable): Pass
  {
    if p.error.Some? then p
    else match Read(r.available, n)
      case Err(e) => Pass(p.events, p.gotData, Some(e))
      case Ok(chunk) =>
        if chunk == [] then p
        else if r.fd !in fdMap then Pass(p.events, true, Some(KeyError(r.fd)))
        else Pass(p.events + [Event(fdMap[r.fd], chunk)], true, None)
  }

  /** The pass over the descriptors of one cycle, in the order reported. */
  function CyclePass(fdMap: map<int, int>, n: int, cycle: seq<Readable>): Pass
  {
    if cycle == [] then Pass([], false, None)
    else Step(fdMap, n, CyclePass(fdMap, n, cycle[..|cycle| - 1]), cycle[|cycle| - 1])
  }

  /** The `while True` loop over the observed cycles: stop after a cycle in
      which no read returned data, or at the first exception. */
  function Drain(fdMap: map<int, int>, n: int, cycles: seq<seq<Readable>>): Reading
  {
    if cycles == [] then Reading([], 0, Running)
    else
      var p := CyclePass(fdMap, n, cycles[0]);
      if p.error.Some? then Reading(p.events, 1, Raised(p.error.value))
      else if !p.gotData then Reading(p.events, 1, Dry)
      else
        var r := Drain(fdMap, n, cycles[1..]);
        Reading(p.events + r.events, 1 + r.cycles, r.stop)
  }

  /** The events reported for an entry of a `poll.poll()` result include `POLLIN`. */
  predicate Pollin(pollin: bv32, r: Ready)
  {
    r.events & pollin != 0
  }

  /** An entry of a `poll.poll()` result is read when its events include `POLLIN`. */
  function Polled(pollin: bv32, r: Ready): seq<Readable>
  {
    if Pollin(pollin, r) then [Readable(r.fd, r.available)] else []
  }

  /** The descriptors of a `poll.poll()` result whose events include `POLLIN`. */
  function Readables(pollin: bv32, cycle: seq<Ready>): seq<Readable>
  {
    if cycle == [] then []
    else Readables(pollin, cycle[..|cycle| - 1]) + Polled(pollin, cycle[|cycle| - 1])
  }

  /** What `parallel_reader_xpoll` yields: a buffer size below one raises
      `ValueError` on the first pull, before anything is registered. */
  function XpollSpec(streams: seq<int>, pollin: bv32, n: int, cycles: seq<seq<Ready>>): Reading
  {
    if n < 1 then Reading([], 0, Raised(ValueError("buffer size must be >= 1")))
    else Drain(FdMap(streams), n, seq(|cycles|, k requires 0 <= k < |cycles| => Readables(pollin, cycles[k])))
  }

  /** What `parallel_read_select` yields, as written: `cycles` are the
      descriptors `select.select()` reported readable, with the bytes waiting
      in each; the buffer size is not checked. */
  function SelectSpec(streams: seq<int>, n: int, cycles: seq<seq<Readable>>): Reading
  {
    Drain(FdMap(streams), n, cycles)
  }

  /** `parallel_read_select` with the check of lines 13-14 added. */
  function CheckedSelectSpec(streams: seq<int>, n: int, cycles: seq<seq<Readable>>): Reading
  {
    if n < 1 then Reading([], 0, Raised(ValueError("buffer size must be >= 1")))
    else Drain(FdMap(streams), n, cycles)
  }

  // ---------------------------------------------------------------------
  // Facts about one cycle.
  // ---------------------------------------------------------------------

  lemma CyclePassSnoc(fdMap: map<int, int>, n: int, cycle: seq<Readable>, r: Readable)
    ensures CyclePass(fdMap, n, cycle + [r]) == Step(fdMap, n, CyclePass(fdMap, n, cycle), r)
  {
    assert (cycle + [r])[..|cycle|] == cycle;
  }

  /** Once a pass has raised, the rest of the cycle is not read. */
  lemma {:induction false} CyclePassRaised(fdMap: map<int, int>, n: int, a: seq<Readable>, b: seq<Readable>)
    requires CyclePass(fdMap, n, a).error.Some?
    ensures CyclePass(fdMap, n, a + b) == CyclePass(fdMap, n, a)
    decreases |b|
  {
    if b == [] {
      assert a + b == a;
    } else {
      AppendDropLast(a, b);
      CyclePassRaised(fdMap, n, a, b[..|b| - 1]);
    }
  }

  /** Everything a pass yields is a non-empty chunk of at most `n` bytes,
      tagged with a registration position; a pass that did not raise found
      data exactly when it yielded something. */
  lemma {:induction false} CyclePassYields(fdMap: map<int, int>, n: int, cycle: seq<Readable>)
    ensures var p := CyclePass(fdMap, n, cycle);
      && (p.error.None? ==> (p.gotData <==> p.events != []))
      && (forall k :: 0 <= k < |p.events| ==> IsChunk(fdMap, n, p.events[k]))
      && exists ts :: TracedCycle(fdMap, n, cycle, p.events, ts)
    decreases |cycle|
  {
    CyclePassTrace(fdMap, n, cycle);
    if cycle != [] {
      var init := cycle[..|cycle| - 1];
      CyclePassYields(fdMap, n, init);
      var p := CyclePass(fdMap, n, init);
      var q := CyclePass(fdMap, n, cycle);
      assert forall k :: 0 <= k < |p.events| ==> q.events[k] == p.events[k] || q == p;
    }
  }

  /** A chunk the multiplexer may yield: non-empty, at most `n` bytes, and
      tagged with the position of a registered descriptor. */
  predicate IsChunk(fdMap: map<int, int>, n: int, e: Event)
  {
    e.data != [] && |e.data| <= n && IsPosition(fdMap, e.index)
  }

  /** `i` is the position recorded for some registered descriptor. */
  predicate IsPosition(fdMap: map<int, int>, i: int)
  {
    exists fd :: fd in fdMap && fdMap[fd] == i
  }

  /** With a positive buffer size and only registered descriptors reported, a pass never raises. */
  lemma {:induction false} CyclePassSafe(fdMap: map<int, int>, n: int, cycle: seq<Readable>)
    requires n >= 1
    requires forall k :: 0 <= k < |cycle| ==> cycle[k].fd in fdMap
    ensures CyclePass(fdMap, n, cycle).error.None?
    decreases |cycle|
  {
    if cycle != [] {
      var init := cycle[..|cycle| - 1];
      assert forall k :: 0 <= k < |init| ==> init[k] == cycle[k];
      CyclePassSafe(fdMap, n, init);
    }
  }

  /** A cycle whose descriptors all hold nothing (end of file) yields nothing and finds no data. */
  lemma {:induction false} CyclePassEmpty(fdMap: map<int, int>, n: int, cycle: seq<Readable>)
    requires n >= 0
    requires forall k :: 0 <= k < |cycle| ==> cycle[k].available == []
    ensures CyclePass(fdMap, n, cycle) == Pass([], false, None)
    decreases |cycle|
  {
    if cycle != [] {
      var init := cycle[..|cycle| - 1];
      assert forall k :: 0 <= k < |init| ==> init[k] == cycle[k];
      CyclePassEmpty(fdMap, n, init);
    }
  }

  /** Reads of length zero return nothing, so a pass with `n == 0` never finds data. */
  lemma {:induction false} CyclePassZero(fdMap: map<int, int>, cycle: seq<Readable>)
    ensures CyclePass(fdMap, 0, cycle) == Pass([], false, None)
    decreases |cycle|
  {
    if cycle != [] {
      CyclePassZero(fdMap, cycle[..|cycle| - 1]);
    }
  }

  // ---------------------------------------------------------------------
  // Facts about the loop.
  // ---------------------------------------------------------------------

  /** The loop stops right after the first cycle in which no read returned
      data: every cycle before the last one polled found data, the last one
      found none (or raised), and only when all observed cycles found data
      does the loop go on. */
  lemma {:induction false} DrainStops(fdMap: map<int, int>, n: int, cycles: seq<seq<Readable>>)
    ensures var r := Drain(fdMap, n, cycles);
      && r.cycles <= |cycles|
      && (forall c :: 0 <= c < r.cycles - 1 ==> CyclePass(fdMap, n, cycles[c]).gotData)
      && (forall c :: 0 <= c < r.cycles - 1 ==> CyclePass(fdMap, n, cycles[c]).error.None?)
      && (r.stop == Dry ==> 0 < r.cycles && !CyclePass(fdMap, n, cycles[r.cycles - 1]).gotData)
      && (r.stop.Raised? ==> 0 < r.cycles && CyclePass(fdMap, n, cycles[r.cycles - 1]).error == Some(r.stop.error))
      && (r.stop == Running ==> r.cycles == |cycles|)
      && (r.stop == Running ==> forall c :: 0 <= c < |cycles| ==>
            CyclePass(fdMap, n, cycles[c]).gotData && CyclePass(fdMap, n, cycles[c]).error.None?)
    decreases |cycles|
  {
    if cycles != [] {
      var p := CyclePass(fdMap, n, cycles[0]);
      if p.error.None? && p.gotData {
        DrainStops(fdMap, n, cycles[1..]);
        var r := Drain(fdMap, n, cycles[1..]);
        assert forall c :: 1 <= c < |cycles| ==> cycles[c] == cycles[1..][c - 1];
      }
    }
  }

  /** Everything the loop yields is a chunk of some cycle's pass, in cycle order. */
  lemma {:induction false} DrainYields(fdMap: map<int, int>, n: int, cycles: seq<seq<Readable>>)
    ensures forall k :: 0 <= k < |Drain(fdMap, n, cycles).events| ==> IsChunk(fdMap, n, Drain(fdMap, n, cycles).events[k])
    ensures FromReads(fdMap, n, cycles, Drain(fdMap, n, cycles).cycles, Drain(fdMap, n, cycles).events)
    decreases |cycles|
  {
    DrainFrom(fdMap, n, cycles);
    if cycles != [] {
      CyclePassYields(fdMap, n, cycles[0]);
      var p := CyclePass(fdMap, n, cycles[0]);
      if p.error.None? && p.gotData {
        DrainYields(fdMap, n, cycles[1..]);
        var a, b := p.events, Drain(fdMap, n, cycles[1..]).events;
        assert forall k :: 0 <= k < |a + b| ==> (a + b)[k] == if k < |a| then a[k] else b[k - |a|];
      }
    }
  }

  /** A cycle that reports no readable data, such as one where every stream
      has hung up, is the last one polled. */
  lemma DrainStopsAtEof(fdMap: map<int, int>, n: int, cycles: seq<seq<Readable>>)
    requires n >= 0 && cycles != []
    requires forall k :: 0 <= k < |cycles[0]| ==> cycles[0][k].available == []
    ensures Drain(fdMap, n, cycles) == Reading([], 1, Dry)
  {
    CyclePassEmpty(fdMap, n, cycles[0]);
  }

  /** With a positive buffer size, the loop raises nothing when every
      descriptor reported is registered. */
  lemma {:induction false} DrainSafe(fdMap: map<int, int>, n: int, rs: seq<seq<Readable>>)
    requires n >= 1
    requires forall c, k :: 0 <= c < |rs| && 0 <= k < |rs[c]| ==> rs[c][k].fd in fdMap
    ensures !Drain(fdMap, n, rs).stop.Raised?
    decreases |rs|
  {
    if rs != [] {
      CyclePassSafe(fdMap, n, rs[0]);
      DrainSafe(fdMap, n, rs[1..]);
    }
  }

  // Provenance: every yielded chunk is the read of one reported descriptor,
  // tagged with that descriptor's position, in the order reported.

  /** A reported descriptor whose read yields: it is registered and `os.read` returned data. */
  predicate Yielding(fdMap: map<int, int>, n: int, r: Readable)
  {
    r.fd in fdMap && Read(r.available, n).Ok? && Read(r.available, n).value != []
  }

  /** What a yielding read produces: its chunk, tagged `fd_map[fd]`. */
  function ChunkOf(fdMap: map<int, int>, n: int, r: Readable): Event
    requires Yielding(fdMap, n, r)
  {
    Event(fdMap[r.fd], Read(r.available, n).value)
  }

  /** Event `k` of `evs` is the chunk of the yielding entry `ts[k]` of the
      cycle, and the entries come in the order the cycle reported them. */
  ghost predicate TracedCycle(fdMap: map<int, int>, n: int, cycle: seq<Readable>, evs: seq<Event>, ts: seq<nat>)
  {
    && |ts| == |evs|
    && (forall k :: 0 <= k < |evs| ==> ts[k] < |cycle| && Yielding(fdMap, n, cycle[ts[k]]) && evs[k] == ChunkOf(fdMap, n, cycle[ts[k]]))
    && (forall a, b :: 0 <= a < b < |ts| ==> ts[a] < ts[b])
  }

  /** The entries of a cycle a pass yields from, in the order reported: every
      yielding entry before the first exception. */
  function YieldPositions(fdMap: map<int, int>, n: int, cycle: seq<Readable>): seq<nat>
  {
    if cycle == [] then []
    else
      var last := |cycle| - 1;
      var ts := YieldPositions(fdMap, n, cycle[..last]);
      if CyclePass(fdMap, n, cycle[..last]).error.None? && Yielding(fdMap, n, cycle[last]) then ts + [last] else ts
  }

  /** Event `k` of a pass is the chunk of the yielding entry `YieldPositions(..)[k]`
      of the cycle, and the entries come in the order the cycle reported them. */
  lemma {:induction false} CyclePassTrace(fdMap: map<int, int>, n: int, cycle: seq<Readable>)
    ensures TracedCycle(fdMap, n, cycle, CyclePass(fdMap, n, cycle).events, YieldPositions(fdMap, n, cycle))
    decreases |cycle|
  {
    if cycle != [] {
      var last := |cycle| - 1;
      var init := cycle[..last];
      CyclePassTrace(fdMap, n, init);
      assert forall t :: 0 <= t < last ==> init[t] == cycle[t];
      var p, ts0 := CyclePass(fdMap, n, init), YieldPositions(fdMap, n, init);
      if p.error.None? && Yielding(fdMap, n, cycle[last]) {
        assert CyclePass(fdMap, n, cycle).events == p.events + [ChunkOf(fdMap, n, cycle[last])];
        assert YieldPositions(fdMap, n, cycle) == ts0 + [last];
      } else {
        assert CyclePass(fdMap, n, cycle).events == p.events;
        assert YieldPositions(fdMap, n, cycle) == ts0;
      }
    }
  }

  /** Conversely, in a pass that raised nothing every yielding entry has its
      own event: its position is among those the events are traced to. */
  lemma {:induction false} CyclePassComplete(fdMap: map<int, int>, n: int, cycle: seq<Readable>, t: nat)
    requires t < |cycle| && Yielding(fdMap, n, cycle[t])
    requires CyclePass(fdMap, n, cycle).error.None?
    ensures t in YieldPositions(fdMap, n, cycle)
    ensures ChunkOf(fdMap, n, cycle[t]) in CyclePass(fdMap, n, cycle).events
    decreases |cycle|
  {
    var last := |cycle| - 1;
    var init := cycle[..last];
    var p := CyclePass(fdMap, n, init);
    assert p.error.None?;
    if t < last {
      assert init[t] == cycle[t];
      CyclePassComplete(fdMap, n, init, t);
    }
  }

  /** `events` are chunks of yielding entries of `cycles`: event `k` is the
      chunk of entry `ts[k]` of cycle `cs[k]`, a cycle before `bound`, and the
      events follow the cycles and, within a cycle, the reported order. */
  ghost predicate Traced(fdMap: map<int, int>, n: int, cycles: seq<seq<Readable>>, bound: nat,
                         events: seq<Event>, cs: seq<nat>, ts: seq<nat>)
  {
    && |cs| == |events| && |ts| == |events|
    && (forall k :: 0 <= k < |events| ==>
          && cs[k] < bound && cs[k] < |cycles| && ts[k] < |cycles[cs[k]]|
          && Yielding(fdMap, n, cycles[cs[k]][ts[k]])
          && events[k] == ChunkOf(fdMap, n, cycles[cs[k]][ts[k]]))
    && (forall a, b :: 0 <= a < b < |events| ==> cs[a] < cs[b] || (cs[a] == cs[b] && ts[a] < ts[b]))
  }

  /** Where the events of a loop come from: event `k` is read from entry
      `ts[k]` of cycle `cs[k]`. */
  datatype Origins = Origins(cs: seq<nat>, ts: seq<nat>)

  /** Entry `ts[k]` of cycle `cs[k]` is among those `o` traces events to. */
  ghost predicate Origin(o: Origins, c: nat, t: nat)
  {
    exists k :: 0 <= k < |o.cs| && k < |o.ts| && o.cs[k] == c && o.ts[k] == t
  }

  /** The entries the loop yields from: those of each pass, cycle after cycle,
      up to the cycle that ends the loop. */
  function DrainOrigins(fdMap: map<int, int>, n: int, cycles: seq<seq<Readable>>): (o: Origins)
    ensures |o.cs| == |o.ts|
  {
    if cycles == [] then Origins([], [])
    else
      var p := CyclePass(fdMap, n, cycles[0]);
      var t0 := YieldPositions(fdMap, n, cycles[0]);
      if p.error.Some? || !p.gotData then Origins(Zeros(|t0|), t0)
      else
        var o1 := DrainOrigins(fdMap, n, cycles[1..]);
        Origins(Zeros(|t0|) + Shift(o1.cs), t0 + o1.ts)
  }

  /** Every event the loop yields is the chunk of a yielding entry of a cycle it
      polled, tagged `fd_map[fd]` of that entry, in cycle order and, within a
      cycle, in the order reported. */
  lemma {:induction false} DrainTrace(fdMap: map<int, int>, n: int, cycles: seq<seq<Readable>>)
    ensures var o := DrainOrigins(fdMap, n, cycles);
      Traced(fdMap, n, cycles, Drain(fdMap, n, cycles).cycles, Drain(fdMap, n, cycles).events, o.cs, o.ts)
    decreases |cycles|
  {
    if cycles != [] {
      var p := CyclePass(fdMap, n, cycles[0]);
      var t0 := YieldPositions(fdMap, n, cycles[0]);
      CyclePassTrace(fdMap, n, cycles[0]);
      if p.error.Some? || !p.gotData {
        TracedJoin(fdMap, n, cycles, 1, p.events, t0, [], [], []);
        assert p.events + [] == p.events && t0 + [] == t0;
        assert Zeros(|t0|) + Shift([]) == Zeros(|t0|);
      } else {
        DrainTrace(fdMap, n, cycles[1..]);
        var o1 := DrainOrigins(fdMap, n, cycles[1..]);
        var r1 := Drain(fdMap, n, cycles[1..]);
        TracedJoin(fdMap, n, cycles, 1 + r1.cycles, p.events, t0, r1.events, o1.cs, o1.ts);
      }
    }
  }

  function Zeros(m: nat): seq<nat>
  {
    seq(m, k => 0)
  }

  function Shift(cs: seq<nat>): seq<nat>
  {
    seq(|cs|, k requires 0 <= k < |cs| => cs[k] + 1)
  }

  /** The events of the first cycle, followed by events traced in the later cycles. */
  lemma TracedJoin(fdMap: map<int, int>, n: int, cycles: seq<seq<Readable>>, bound: nat,
                   e0: seq<Event>, t0: seq<nat>, e1: seq<Event>, cs1: seq<nat>, ts1: seq<nat>)
    requires cycles != [] && bound >= 1
    requires TracedCycle(fdMap, n, cycles[0], e0, t0)
    requires Traced(fdMap, n, cycles[1..], bound - 1, e1, cs1, ts1)
    ensures Traced(fdMap, n, cycles, bound, e0 + e1, Zeros(|t0|) + Shift(cs1), t0 + ts1)
  {
    var cs, ts, es := Zeros(|t0|) + Shift(cs1), t0 + ts1, e0 + e1;
    forall k | |e0| <= k < |es|
      ensures cs[k] < bound && cs[k] < |cycles| && ts[k] < |cycles[cs[k]]|
      ensures Yielding(fdMap, n, cycles[cs[k]][ts[k]]) && es[k] == ChunkOf(fdMap, n, cycles[cs[k]][ts[k]])
    {
      var j := k - |e0|;
      assert cs[k] == cs1[j] + 1 && ts[k] == ts1[j] && es[k] == e1[j];
      assert cycles[1..][cs1[j]] == cycles[cs[k]];
    }
    forall k | 0 <= k < |e0|
      ensures cs[k] == 0 && ts[k] == t0[k] && es[k] == e0[k]
    {
    }
    OrderJoin(t0, cs1, ts1);
  }

  /** Positions in the first cycle, then positions in later cycles, stay in order. */
  lemma OrderJoin(t0: seq<nat>, cs1: seq<nat>, ts1: seq<nat>)
    requires |cs1| == |ts1|
    requires forall a, b :: 0 <= a < b < |t0| ==> t0[a] < t0[b]
    requires forall a, b :: 0 <= a < b < |cs1| ==> cs1[a] < cs1[b] || (cs1[a] == cs1[b] && ts1[a] < ts1[b])
    ensures var cs, ts := Zeros(|t0|) + Shift(cs1), t0 + ts1;
      |cs| == |ts| && forall a, b :: 0 <= a < b < |cs| ==> cs[a] < cs[b] || (cs[a] == cs[b] && ts[a] < ts[b])
  {
    var cs, ts := Zeros(|t0|) + Shift(cs1), t0 + ts1;
    forall a, b | 0 <= a < b < |cs|
      ensures cs[a] < cs[b] || (cs[a] == cs[b] && ts[a] < ts[b])
    {
      if |t0| <= a {
        assert cs[a] == cs1[a - |t0|] + 1 && cs[b] == cs1[b - |t0|] + 1;
        assert ts[a] == ts1[a - |t0|] && ts[b] == ts1[b - |t0|];
      }
    }
  }

  /** The loop yields events traced to the cycles it polled. */
  ghost predicate FromReads(fdMap: map<int, int>, n: int, cycles: seq<seq<Readable>>, bound: nat, events: seq<Event>)
  {
    exists cs, ts :: Traced(fdMap, n, cycles, bound, events, cs, ts)
  }

  lemma DrainFrom(fdMap: map<int, int>, n: int, cycles: seq<seq<Readable>>)
    ensures FromReads(fdMap, n, cycles, Drain(fdMap, n, cycles).cycles, Drain(fdMap, n, cycles).events)
  {
    DrainTrace(fdMap, n, cycles);
    var o := DrainOrigins(fdMap, n, cycles);
    assert Traced(fdMap, n, cycles, Drain(fdMap, n, cycles).cycles, Drain(fdMap, n, cycles).events, o.cs, o.ts);
  }

  /** Conversely, every yielding entry of every cycle the loop polled whose
      pass raised nothing has its own event: the entry is among those the
      events are traced to, so no chunk is dropped, even one equal to another. */
  lemma {:induction false} DrainComplete(fdMap: map<int, int>, n: int, cycles: seq<seq<Readable>>, c: nat, t: nat)
    requires c < |cycles| && c < Drain(fdMap, n, cycles).cycles
    requires t < |cycles[c]| && Yielding(fdMap, n, cycles[c][t])
    requires CyclePass(fdMap, n, cycles[c]).error.None?
    ensures Origin(DrainOrigins(fdMap, n, cycles), c, t)
    ensures ChunkOf(fdMap, n, cycles[c][t]) in Drain(fdMap, n, cycles).events
    decreases c
  {
    if c == 0 {
      CyclePassComplete(fdMap, n, cycles[0], t);
      OriginFirst(fdMap, n, cycles, t);
    } else {
      assert cycles[1..][c - 1] == cycles[c];
      DrainComplete(fdMap, n, cycles[1..], c - 1, t);
      OriginLater(fdMap, n, cycles, c, t);
    }
  }

  /** An entry the first pass yields from is an origin of the loop's events. */
  lemma OriginFirst(fdMap: map<int, int>, n: int, cycles: seq<seq<Readable>>, t: nat)
    requires cycles != [] && t in YieldPositions(fdMap, n, cycles[0])
    ensures Origin(DrainOrigins(fdMap, n, cycles), 0, t)
  {
    var t0 := YieldPositions(fdMap, n, cycles[0]);
    var o := DrainOrigins(fdMap, n, cycles);
    var k :| 0 <= k < |t0| && t0[k] == t;
    assert o.cs[k] == 0 && o.ts[k] == t;
  }

  /** After a first cycle with data and no exception, the origins of the
      later cycles are origins of the loop's events, one cycle on. */
  lemma OriginLater(fdMap: map<int, int>, n: int, cycles: seq<seq<Readable>>, c: nat, t: nat)
    requires cycles != [] && c >= 1
    requires CyclePass(fdMap, n, cycles[0]).error.None? && CyclePass(fdMap, n, cycles[0]).gotData
    requires Origin(DrainOrigins(fdMap, n, cycles[1..]), c - 1, t)
    ensures Origin(DrainOrigins(fdMap, n, cycles), c, t)
  {
    var t0 := YieldPositions(fdMap, n, cycles[0]);
    var o, o1 := DrainOrigins(fdMap, n, cycles), DrainOrigins(fdMap, n, cycles[1..]);
    var k :| 0 <= k < |o1.cs| && k < |o1.ts| && o1.cs[k] == c - 1 && o1.ts[k] == t;
    var zs, sh := Zeros(|t0|), Shift(o1.cs);
    assert o == Origins(zs + sh, t0 + o1.ts);
    assert sh[k] == c;
    assert (zs + sh)[|t0| + k] == sh[k];
    assert (t0 + o1.ts)[|t0| + k] == o1.ts[k];
  }

  /** A process printing `x` in two cycles is read twice: both equal chunks are
      yielded, and the third, dry cycle ends the loop. */
  lemma RepeatedChunksKept()
    ensures Drain(map[3 := 0], 1, [[Readable(3, [120])], [Readable(3, [120])], []])
      == Reading([Event(0, [120]), Event(0, [120])], 3, Dry)
  {
    var cycles := [[Readable(3, [120])], [Readable(3, [120])], []];
    assert cycles[1..][1..] == [[]];
    assert [Readable(3, [120])][..0] == [];
  }

  /** With a positive buffer size, `parallel_reader_xpoll` raises nothing when
      poll reports only registered descriptors. */
  lemma XpollSafe(streams: seq<int>, pollin: bv32, n: int, cycles: seq<seq<Ready>>)
    requires n >= 1
    requires forall c, k :: 0 <= c < |cycles| && 0 <= k < |cycles[c]| ==> cycles[c][k].fd in streams
    ensures !XpollSpec(streams, pollin, n, cycles).stop.Raised?
  {
    var rs: seq<seq<Readable>> := seq(|cycles|, k requires 0 <= k < |cycles| => Readables(pollin, cycles[k]));
    forall c | 0 <= c < |rs| ensures forall k :: 0 <= k < |rs[c]| ==> rs[c][k].fd in FdMap(streams) {
      ReadablesRegistered(FdMap(streams), streams, pollin, cycles[c]);
    }
    DrainSafe(FdMap(streams), n, rs);
  }

  /** The positions `fd_map` holds are positions of the registered streams. */
  lemma FdMapValues(fds: seq<int>)
    ensures forall i :: IsPosition(FdMap(fds), i) ==> 0 <= i < |fds|
  {
    forall i | IsPosition(FdMap(fds), i) ensures 0 <= i < |fds| {
      var fd :| fd in FdMap(fds) && FdMap(fds)[fd] == i;
      FdMapSpec(fds, fd);
    }
  }

  /** Everything `parallel_reader_xpoll` yields is a non-empty chunk of at
      most `n` bytes, tagged with the position of one of the streams. */
  lemma XpollYields(streams: seq<int>, pollin: bv32, n: int, cycles: seq<seq<Ready>>)
    ensures var r := XpollSpec(streams, pollin, n, cycles);
      forall k :: 0 <= k < |r.events| ==>
        r.events[k].data != [] && |r.events[k].data| <= n && 0 <= r.events[k].index < |streams|
    ensures var r := XpollSpec(streams, pollin, n, cycles);
      FromPolls(FdMap(streams), n, pollin, cycles, r.cycles, r.events)
  {
    XpollTrace(streams, pollin, n, cycles);
    var o := XpollOrigins(streams, pollin, n, cycles);
    var r := XpollSpec(streams, pollin, n, cycles);
    assert PollTraced(FdMap(streams), n, pollin, cycles, r.cycles, r.events, o.cs, o.ts);
    if n >= 1 {
      var rs := seq(|cycles|, k requires 0 <= k < |cycles| => Readables(pollin, cycles[k]));
      DrainYields(FdMap(streams), n, rs);
      FdMapValues(streams);
    }
  }

  /** The descriptor and waiting bytes of an entry of a `poll.poll()` result. */
  function Entry(r: Ready): Readable
  {
    Readable(r.fd, r.available)
  }

  /** The positions, in a `poll.poll()` result, of the entries with `POLLIN` set. */
  function PollinPositions(pollin: bv32, cycle: seq<Ready>): seq<nat>
  {
    if cycle == [] then []
    else PollinPositions(pollin, cycle[..|cycle| - 1]) + (if Pollin(pollin, cycle[|cycle| - 1]) then [|cycle| - 1] else [])
  }

  /** `us` lists, in increasing order, exactly the entries of `cycle` with
      `POLLIN` set, and entry `us[j]` is the `j`-th descriptor read. */
  ghost predicate Positions(pollin: bv32, cycle: seq<Ready>, us: seq<nat>)
  {
    && |us| == |Readables(pollin, cycle)|
    && (forall j :: 0 <= j < |us| ==>
          us[j] < |cycle| && Pollin(pollin, cycle[us[j]]) && Readables(pollin, cycle)[j] == Entry(cycle[us[j]]))
    && (forall a, b :: 0 <= a < b < |us| ==> us[a] < us[b])
    && (forall t :: 0 <= t < |cycle| && Pollin(pollin, cycle[t]) ==> t in us)
  }

  lemma {:induction false} PollinPositionsSpec(pollin: bv32, cycle: seq<Ready>)
    ensures Positions(pollin, cycle, PollinPositions(pollin, cycle))
    decreases |cycle|
  {
    if cycle != [] {
      PollinPositionsSpec(pollin, cycle[..|cycle| - 1]);
      PositionsSnoc(pollin, cycle);
    }
  }

  /** One more entry of a `poll.poll()` result: its position is listed exactly when `POLLIN` is set. */
  lemma PositionsSnoc(pollin: bv32, cycle: seq<Ready>)
    requires cycle != []
    requires Positions(pollin, cycle[..|cycle| - 1], PollinPositions(pollin, cycle[..|cycle| - 1]))
    ensures Positions(pollin, cycle, PollinPositions(pollin, cycle))
  {
    var last := |cycle| - 1;
    var init := cycle[..last];
    var u0, us := PollinPositions(pollin, init), PollinPositions(pollin, cycle);
    var r0, rs := Readables(pollin, init), Readables(pollin, cycle);
    var hit := Pollin(pollin, cycle[last]);
    assert us == u0 + (if hit then [last] else []);
    assert rs == r0 + Polled(pollin, cycle[last]);
    forall j | 0 <= j < |u0|
      ensures us[j] == u0[j] && rs[j] == r0[j] && u0[j] < last && init[u0[j]] == cycle[u0[j]]
    {
    }
    forall t | 0 <= t < |cycle| && Pollin(pollin, cycle[t])
      ensures t in us
    {
      if t < last {
        assert init[t] == cycle[t];
        assert Pollin(pollin, init[t]);
        var j :| 0 <= j < |u0| && u0[j] == t;
        assert us[j] == t;
      } else {
        assert t == last && hit;
        assert us == u0 + [last];
      }
    }
  }

  /** Event `k` of `events` is the chunk read from entry `ts[k]`, which has
      `POLLIN` set, of the `poll.poll()` result `cs[k]`, one polled before
      `bound`; the events follow the cycles and, within a cycle, the order reported. */
  ghost predicate PollTraced(fdMap: map<int, int>, n: int, pollin: bv32, cycles: seq<seq<Ready>>, bound: nat,
                             events: seq<Event>, cs: seq<nat>, ts: seq<nat>)
  {
    && |cs| == |events| && |ts| == |events|
    && (forall k :: 0 <= k < |events| ==>
          && cs[k] < bound && cs[k] < |cycles| && ts[k] < |cycles[cs[k]]|
          && Pollin(pollin, cycles[cs[k]][ts[k]])
          && Yielding(fdMap, n, Entry(cycles[cs[k]][ts[k]]))
          && events[k] == ChunkOf(fdMap, n, Entry(cycles[cs[k]][ts[k]])))
    && (forall a, b :: 0 <= a < b < |events| ==> cs[a] < cs[b] || (cs[a] == cs[b] && ts[a] < ts[b]))
  }

  /** `parallel_reader_xpoll` yields events traced to the `poll.poll()` results it polled. */
  ghost predicate FromPolls(fdMap: map<int, int>, n: int, pollin: bv32, cycles: seq<seq<Ready>>, bound: nat, events: seq<Event>)
  {
    exists cs, ts :: PollTraced(fdMap, n, pollin, cycles, bound, events, cs, ts)
  }

  /** Lines 30-35: every chunk `parallel_reader_xpoll` yields is `read(fd, n)`
      of an entry a `poll.poll()` result reported with `POLLIN`, tagged
      `fd_map[fd]`, in the order of the cycles and of each result. */
  lemma XpollTrace(streams: seq<int>, pollin: bv32, n: int, cycles: seq<seq<Ready>>)
    ensures var r, o := XpollSpec(streams, pollin, n, cycles), XpollOrigins(streams, pollin, n, cycles);
      PollTraced(FdMap(streams), n, pollin, cycles, r.cycles, r.events, o.cs, o.ts)
  {
    if n >= 1 {
      var fdMap := FdMap(streams);
      var rs := seq(|cycles|, k requires 0 <= k < |cycles| => Readables(pollin, cycles[k]));
      var r := Drain(fdMap, n, rs);
      DrainTrace(fdMap, n, rs);
      var o0 := DrainOrigins(fdMap, n, rs);
      forall c | 0 <= c < |cycles|
        ensures Positions(pollin, cycles[c], PollinPositions(pollin, cycles[c]))
      {
        PollinPositionsSpec(pollin, cycles[c]);
      }
      RelocateTraced(fdMap, n, pollin, cycles, rs, r.cycles, r.events, o0.cs, o0.ts);
    }
  }

  /** The entries of the `poll.poll()` results `parallel_reader_xpoll` yields from. */
  function XpollOrigins(streams: seq<int>, pollin: bv32, n: int, cycles: seq<seq<Ready>>): Origins
  {
    if n < 1 then Origins([], [])
    else
      var o := DrainOrigins(FdMap(streams), n, seq(|cycles|, k requires 0 <= k < |cycles| => Readables(pollin, cycles[k])));
      Origins(o.cs, Relocate(pollin, cycles, o.cs, o.ts))
  }

  /** Positions in the `poll.poll()` results of the descriptors read at `ts[k]` in cycle `cs[k]`. */
  function Relocate(pollin: bv32, cycles: seq<seq<Ready>>, cs: seq<nat>, ts: seq<nat>): seq<nat>
    requires |cs| == |ts|
  {
    seq(|ts|, k requires 0 <= k < |ts| =>
      if cs[k] < |cycles| && ts[k] < |PollinPositions(pollin, cycles[cs[k]])|
      then PollinPositions(pollin, cycles[cs[k]])[ts[k]] else 0)
  }

  /** Events traced to the descriptors read are traced to the entries of the `poll.poll()` results. */
  lemma RelocateTraced(fdMap: map<int, int>, n: int, pollin: bv32, cycles: seq<seq<Ready>>, rs: seq<seq<Readable>>,
                       bound: nat, events: seq<Event>, cs: seq<nat>, ts: seq<nat>)
    requires |rs| == |cycles| && forall c :: 0 <= c < |cycles| ==> rs[c] == Readables(pollin, cycles[c])
    requires forall c :: 0 <= c < |cycles| ==> Positions(pollin, cycles[c], PollinPositions(pollin, cycles[c]))
    requires Traced(fdMap, n, rs, bound, events, cs, ts)
    ensures PollTraced(fdMap, n, pollin, cycles, bound, events, cs, Relocate(pollin, cycles, cs, ts))
  {
    var us := Relocate(pollin, cycles, cs, ts);
    forall k | 0 <= k < |events|
      ensures cs[k] < bound && cs[k] < |cycles| && us[k] < |cycles[cs[k]]|
      ensures Pollin(pollin, cycles[cs[k]][us[k]])
      ensures Yielding(fdMap, n, Entry(cycles[cs[k]][us[k]])) && events[k] == ChunkOf(fdMap, n, Entry(cycles[cs[k]][us[k]]))
    {
      var c := cs[k];
      assert rs[c][ts[k]] == Entry(cycles[c][PollinPositions(pollin, cycles[c])[ts[k]]]);
    }
    forall a, b | 0 <= a < b < |events|
      ensures cs[a] < cs[b] || (cs[a] == cs[b] && us[a] < us[b])
    {
    }
  }

  /** Conversely, every entry reported with `POLLIN` whose read yields data,
      in every cycle `parallel_reader_xpoll` polled whose pass raised nothing,
      has its own event. */
  lemma XpollComplete(streams: seq<int>, pollin: bv32, n: int, cycles: seq<seq<Ready>>, c: nat, t: nat)
    requires c < |cycles| && c < XpollSpec(streams, pollin, n, cycles).cycles
    requires t < |cycles[c]| && Pollin(pollin, cycles[c][t])
    requires Yielding(FdMap(streams), n, Entry(cycles[c][t]))
    requires CyclePass(FdMap(streams), n, Readables(pollin, cycles[c])).error.None?
    ensures Origin(XpollOrigins(streams, pollin, n, cycles), c, t)
    ensures ChunkOf(FdMap(streams), n, Entry(cycles[c][t])) in XpollSpec(streams, pollin, n, cycles).events
  {
    var rs := seq(|cycles|, k requires 0 <= k < |cycles| => Readables(pollin, cycles[k]));
    PollinPositionsSpec(pollin, cycles[c]);
    var us := PollinPositions(pollin, cycles[c]);
    var j :| 0 <= j < |us| && us[j] == t;
    assert rs[c][j] == Entry(cycles[c][t]);
    DrainComplete(FdMap(streams), n, rs, c, j);
    var o0 := DrainOrigins(FdMap(streams), n, rs);
    RelocateOrigin(pollin, cycles, o0, c, j);
  }

  /** An entry read in cycle `c` as the `j`-th descriptor is, once relocated,
      the `j`-th entry with `POLLIN` set of that `poll.poll()` result. */
  lemma RelocateOrigin(pollin: bv32, cycles: seq<seq<Ready>>, o: Origins, c: nat, j: nat)
    requires |o.cs| == |o.ts| && c < |cycles| && j < |PollinPositions(pollin, cycles[c])|
    requires Origin(o, c, j)
    ensures Origin(Origins(o.cs, Relocate(pollin, cycles, o.cs, o.ts)), c, PollinPositions(pollin, cycles[c])[j])
  {
    var k :| 0 <= k < |o.cs| && k < |o.ts| && o.cs[k] == c && o.ts[k] == j;
    assert Relocate(pollin, cycles, o.cs, o.ts)[k] == PollinPositions(pollin, cycles[c])[j];
  }

  /** Readables of a cycle name only descriptors the cycle reported. */
  lemma {:induction false} ReadablesRegistered(fdMap: map<int, int>, streams: seq<int>, pollin: bv32, cycle: seq<Ready>)
    requires fdMap == FdMap(streams)
    requires forall k :: 0 <= k < |cycle| ==> cycle[k].fd in streams
    ensures forall k :: 0 <= k < |Readables(pollin, cycle)| ==> Readables(pollin, cycle)[k].fd in fdMap
    decreases |cycle|
  {
    if cycle != [] {
      var init := cycle[..|cycle| - 1];
      assert forall k :: 0 <= k < |init| ==> init[k] == cycle[k];
      ReadablesRegistered(fdMap, streams, pollin, init);
      FdMapSpec(streams, cycle[|cycle| - 1].fd);
      var a := Readables(pollin, init);
      var b := Readables(pollin, cycle);
      assert forall k :: 0 <= k < |a| ==> b[k] == a[k];
    }
  }

  /** A cycle in which no reported descriptor has `POLLIN` set (only
      `POLLHUP`, say) reads nothing, so `parallel_reader_xpoll` stops there. */
  lemma {:induction false} HangupOnlyStops(streams: seq<int>, pollin: bv32, n: int, cycles: seq<seq<Ready>>)
    requires n >= 1 && cycles != []
    requires forall k :: 0 <= k < |cycles[0]| ==> cycles[0][k].events & pollin == 0
    ensures XpollSpec(streams, pollin, n, cycles) == Reading([], 1, Dry)
  {
    NoneReadable(pollin, cycles[0]);
    var rs := seq(|cycles|, k requires 0 <= k < |cycles| => Readables(pollin, cycles[k]));
    assert rs[0] == [];
  }

  lemma {:induction false} NoneReadable(pollin: bv32, cycle: seq<Ready>)
    requires forall k :: 0 <= k < |cycle| ==> cycle[k].events & pollin == 0
    ensures Readables(pollin, cycle) == []
    decreases |cycle|
  {
    if cycle != [] {
      var init := cycle[..|cycle| - 1];
      assert forall k :: 0 <= k < |init| ==> init[k] == cycle[k];
      NoneReadable(pollin, init);
    }
  }

  // ---------------------------------------------------------------------
  // The loops as the program runs them.
  // ---------------------------------------------------------------------

  lemma DrainNext(fdMap: map<int, int>, n: int, rs: seq<seq<Readable>>, c: nat)
    requires c < |rs|
    ensures var p := CyclePass(fdMap, n, rs[c]);
      Drain(fdMap, n, rs[c..]) ==
        if p.error.Some? then Reading(p.events, 1, Raised(p.error.value))
        else if !p.gotData then Reading(p.events, 1, Dry)
        else
          var r := Drain(fdMap, n, rs[c + 1..]);
          Reading(p.events + r.events, 1 + r.cycles, r.stop)
  {
    assert rs[c..][0] == rs[c];
    assert rs[c..][1..] == rs[c + 1..];
  }

  /** One more cycle's events accounted for: the loop's invariant carried to the next cycle. */
  lemma Advance(whole: Reading, out: seq<Event>, c: nat, events: seq<Event>, r: Reading)
    requires whole == Reading(out + (events + r.events), c + (1 + r.cycles), r.stop)
    ensures whole == Reading((out + events) + r.events, (c + 1) + r.cycles, r.stop)
  {
    assert out + (events + r.events) == (out + events) + r.events;
  }

  lemma ReadablesSnoc(pollin: bv32, ready: seq<Ready>, t: nat)
    requires t < |ready|
    ensures Readables(pollin, ready[..t + 1]) == Readables(pollin, ready[..t]) + Polled(pollin, ready[t])
  {
    assert ready[..t + 1][..t] == ready[..t];
  }

  /** The pass over one more entry of a `poll.poll()` result. */
  lemma PollSnoc(fdMap: map<int, int>, n: int, pollin: bv32, ready: seq<Ready>, t: nat)
    requires t < |ready|
    ensures var p := CyclePass(fdMap, n, Readables(pollin, ready[..t]));
      CyclePass(fdMap, n, Readables(pollin, ready[..t + 1])) ==
        if ready[t].events & pollin != 0 then Step(fdMap, n, p, Readable(ready[t].fd, ready[t].available)) else p
  {
    ReadablesSnoc(pollin, ready, t);
    var a := Readables(pollin, ready[..t]);
    if ready[t].events & pollin != 0 {
      CyclePassSnoc(fdMap, n, a, Readable(ready[t].fd, ready[t].available));
    } else {
      assert a + Polled(pollin, ready[t]) == a;
    }
  }

  lemma {:induction false} ReadablesAppend(pollin: bv32, a: seq<Ready>, b: seq<Ready>)
    ensures Readables(pollin, a + b) == Readables(pollin, a) + Readables(pollin, b)
    decreases |b|
  {
    if b == [] {
      assert a + b == a;
    } else {
      AppendDropLast(a, b);
      ReadablesAppend(pollin, a, b[..|b| - 1]);
    }
  }

  /** A pass over a `poll.poll()` result that raised at entry `t` is the pass over the whole result. */
  lemma XpollRaised(fdMap: map<int, int>, n: int, pollin: bv32, ready: seq<Ready>, t: nat)
    requires t < |ready| && CyclePass(fdMap, n, Readables(pollin, ready[..t + 1])).error.Some?
    ensures CyclePass(fdMap, n, Readables(pollin, ready)) == CyclePass(fdMap, n, Readables(pollin, ready[..t + 1]))
  {
    assert ready[..t + 1] + ready[t + 1..] == ready;
    ReadablesAppend(pollin, ready[..t + 1], ready[t + 1..]);
    CyclePassRaised(fdMap, n, Readables(pollin, ready[..t + 1]), Readables(pollin, ready[t + 1..]));
  }

  /** Lines 32-35 (and 69-72): read one reported descriptor and yield its
      chunk, tagged `fd_map[fd]`, when the read returned data. */
  method ReadInto(fdMap: map<int, int>, n: int, r: Readable, events: seq<Event>, gotData: bool)
    returns (events': seq<Event>, gotData': bool, error: Option<Error>)
    ensures Pass(events', gotData', error) == Step(fdMap, n, Pass(events, gotData, None), r)
  {
    events', gotData', error := events, gotData, None;
    var chunk := Read(r.available, n);
    if chunk.Err? {
      error := Some(chunk.error);
    } else if chunk.value != [] {
      gotData' := true;
      if r.fd !in fdMap {
        error := Some(KeyError(r.fd));
      } else {
        events' := events' + [Event(fdMap[r.fd], chunk.value)];
      }
    }
  }

  /** Lines 30-35: one pass over a `poll.poll()` result, reading every
      descriptor reported with `POLLIN` and yielding its non-empty chunks. */
  method PollPass(fdMap: map<int, int>, n: int, pollin: bv32, ready: seq<Ready>)
    returns (events: seq<Event>, gotData: bool, error: Option<Error>)
    ensures Pass(events, gotData, error) == CyclePass(fdMap, n, Readables(pollin, ready))
  {
    events, gotData, error := [], false, None;
    for t := 0 to |ready|
      invariant error.None?
      invariant Pass(events, gotData, error) == CyclePass(fdMap, n, Readables(pollin, ready[..t]))
    {
      PollSnoc(fdMap, n, pollin, ready, t);
      if ready[t].events & pollin != 0 {
        events, gotData, error := ReadInto(fdMap, n, Readable(ready[t].fd, ready[t].available), events, gotData);
        if error.Some? {
          XpollRaised(fdMap, n, pollin, ready, t);
          return;
        }
      }
    }
    assert ready[..|ready|] == ready;
  }

  /** Lines 12-38: `parallel_reader_xpoll`, observed over `cycles`, the
      successive results of `poll.poll()`. The hang-up mask is accepted and
      never used, so the result does not depend on it. `interest` is what
      was registered with `poll`: nothing when the buffer size is rejected,
      since the check comes first, and otherwise every stream for `POLLIN`. */
  method ParallelReaderXpoll(streams: seq<int>, pollin: bv32, pollhup: bv32, bufferSize: int, cycles: seq<seq<Ready>>)
    returns (r: Reading, interest: map<int, bv32>)
    ensures r == XpollSpec(streams, pollin, bufferSize, cycles)
    ensures bufferSize < 1 ==> interest == map[]
    ensures bufferSize >= 1 ==> (forall fd :: fd in interest <==> fd in streams) && forall fd :: fd in interest ==> interest[fd] == pollin
  {
    if bufferSize < 1 {
      return Reading([], 0, Raised(ValueError("buffer size must be >= 1"))), map[];
    }
    var fds, fdMap;
    fds, fdMap, interest := Register(streams, pollin);
    ghost var rs := seq(|cycles|, k requires 0 <= k < |cycles| => Readables(pollin, cycles[k]));
    var out: seq<Event> := [];
    var c := 0;
    assert rs[0..] == rs;
    while c < |cycles|
      invariant c <= |cycles|
      invariant Drain(fdMap, bufferSize, rs) ==
        var rest := Drain(fdMap, bufferSize, rs[c..]);
        Reading(out + rest.events, c + rest.cycles, rest.stop)
      decreases |cycles| - c
    {
      DrainNext(fdMap, bufferSize, rs, c);
      var events, gotData, error := PollPass(fdMap, bufferSize, pollin, cycles[c]);
      if error.Some? {
        return Reading(out + events, c + 1, Raised(error.value)), interest;
      }
      if !gotData {
        return Reading(out + events, c + 1, Dry), interest;
      }
      Advance(Drain(fdMap, bufferSize, rs), out, c, events, Drain(fdMap, bufferSize, rs[c + 1..]));
      out := out + events;
      c := c + 1;
    }
    assert rs[c..] == [];
    return Reading(out, c, Running), interest;
  }

  /** Lines 57-62: record the position of every stream and list it for `select`. */
  method RegisterSelect(streams: seq<int>) returns (rlist: seq<int>, fdMap: map<int, int>)
    ensures rlist == streams
    ensures fdMap == FdMap(streams)
  {
    rlist, fdMap := [], map[];
    for i := 0 to |streams|
      invariant rlist == streams[..i]
      invariant fdMap == FdMap(streams[..i])
    {
      assert streams[..i + 1][..i] == streams[..i];
      rlist := rlist + [streams[i]];
      fdMap := fdMap[streams[i] := i];
    }
    assert streams[..|streams|] == streams;
  }

  /** Lines 68-72: one pass over the descriptors `select.select()` reported readable. */
  method SelectPass(fdMap: map<int, int>, n: int, ravail: seq<Readable>)
    returns (events: seq<Event>, gotData: bool, error: Option<Error>)
    ensures Pass(events, gotData, error) == CyclePass(fdMap, n, ravail)
  {
    events, gotData, error := [], false, None;
    for t := 0 to |ravail|
      invariant error.None?
      invariant Pass(events, gotData, error) == CyclePass(fdMap, n, ravail[..t])
    {
      CyclePassSnoc(fdMap, n, ravail[..t], ravail[t]);
      assert ravail[..t] + [ravail[t]] == ravail[..t + 1];
      events, gotData, error := ReadInto(fdMap, n, ravail[t], events, gotData);
      if error.Some? {
        assert ravail[..t + 1] + ravail[t + 1..] == ravail;
        CyclePassRaised(fdMap, n, ravail[..t + 1], ravail[t + 1..]);
        return;
      }
    }
    assert ravail[..|ravail|] == ravail;
  }

  /** Lines 51-75: `parallel_read_select` as written, observed over `cycles`,
      the descriptors each `select.select()` reported readable. The buffer
      size is not checked. */
  method ParallelReadSelect(streams: seq<int>, bufferSize: int, cycles: seq<seq<Readable>>) returns (r: Reading)
    ensures r == SelectSpec(streams, bufferSize, cycles)
  {
    var rlist, fdMap := RegisterSelect(streams);
    var out: seq<Event> := [];
    var c := 0;
    assert cycles[0..] == cycles;
    while c < |cycles|
      invariant c <= |cycles|
      invariant Drain(fdMap, bufferSize, cycles) ==
        var rest := Drain(fdMap, bufferSize, cycles[c..]);
        Reading(out + rest.events, c + rest.cycles, rest.stop)
      decreases |cycles| - c
    {
      DrainNext(fdMap, bufferSize, cycles, c);
      var events, gotData, error := SelectPass(fdMap, bufferSize, cycles[c]);
      if error.Some? {
        return Reading(out + events, c + 1, Raised(error.value));
      }
      if !gotData {
        return Reading(out + events, c + 1, Dry);
      }
      Advance(Drain(fdMap, bufferSize, cycles), out, c, events, Drain(fdMap, bufferSize, cycles[c + 1..]));
      out := out + events;
      c := c + 1;
    }
    assert cycles[c..] == [];
    return Reading(out, c, Running);
  }

  /** `parallel_read_select` with the check of lines 13-14 added in front. */
  method ParallelReadSelectChecked(streams: seq<int>, bufferSize: int, cycles: seq<seq<Readable>>) returns (r: Reading)
    ensures r == CheckedSelectSpec(streams, bufferSize, cycles)
  {
    if bufferSize < 1 {
      return Reading([], 0, Raised(ValueError("buffer size must be >= 1")));
    }
    r := ParallelReadSelect(streams, bufferSize, cycles);
  }

  // ---------------------------------------------------------------------
  // The select variant does not check its buffer size.
  // ---------------------------------------------------------------------

  /** A pass raises only what a read or the `fd_map` lookup raises, never `ValueError`. */
  lemma {:induction false} CyclePassErrors(fdMap: map<int, int>, n: int, cycle: seq<Readable>)
    ensures CyclePass(fdMap, n, cycle).error.Some? ==> !CyclePass(fdMap, n, cycle).error.value.ValueError?
    decreases |cycle|
  {
    if cycle != [] {
      CyclePassErrors(fdMap, n, cycle[..|cycle| - 1]);
    }
  }

  /** The loop raises only what its passes raise, never `ValueError`. */
  lemma {:induction false} DrainErrors(fdMap: map<int, int>, n: int, cycles: seq<seq<Readable>>)
    ensures Drain(fdMap, n, cycles).stop.Raised? ==> !Drain(fdMap, n, cycles).stop.error.ValueError?
    decreases |cycles|
  {
    if cycles != [] {
      CyclePassErrors(fdMap, n, cycles[0]);
      DrainErrors(fdMap, n, cycles[1..]);
    }
  }

  /** Lines 13-14: `parallel_reader_xpoll` raises `ValueError` exactly when the
      buffer size is below one, and then before any cycle is polled and with
      nothing yielded. */
  lemma XpollArgumentCheck(streams: seq<int>, pollin: bv32, n: int, cycles: seq<seq<Ready>>)
    ensures n < 1 ==> XpollSpec(streams, pollin, n, cycles) == Reading([], 0, Raised(ValueError("buffer size must be >= 1")))
    ensures var r := XpollSpec(streams, pollin, n, cycles);
      r.stop.Raised? && r.stop.error.ValueError? ==> n < 1
  {
    if n >= 1 {
      DrainErrors(FdMap(streams), n, seq(|cycles|, k requires 0 <= k < |cycles| => Readables(pollin, cycles[k])));
    }
  }

  /** As written, a zero buffer size makes every read return `b''`, so
      `parallel_read_select` stops after its first cycle and yields nothing,
      however much data is waiting; the poll variants raise `ValueError`
      whatever `poll` would report. */
  lemma SelectZeroBufferDropsData(streams: seq<int>, cycles: seq<seq<Readable>>)
    requires cycles != []
    ensures SelectSpec(streams, 0, cycles) == Reading([], 1, Dry)
    ensures forall pollin: bv32, polls: seq<seq<Ready>> ::
      XpollSpec(streams, pollin, 0, polls) == Reading([], 0, Raised(ValueError("buffer size must be >= 1")))
  {
    CyclePassZero(FdMap(streams), cycles[0]);
  }

  /** The input that shows it: one stream on descriptor 3 holding `b"x"`. */
  lemma SelectZeroBufferExample()
    ensures SelectSpec([3], 0, [[Readable(3, [120])]]) == Reading([], 1, Dry)
  {
    SelectZeroBufferDropsData([3], [[Readable(3, [120])]]);
  }

  /** As written, a negative buffer size is only noticed by the first read,
      after `select` has waited, and raises `OSError(EINVAL)` instead of `ValueError`. */
  lemma SelectNegativeBufferRaisesLate(streams: seq<int>, n: int, cycles: seq<seq<Readable>>)
    requires n < 0 && cycles != [] && cycles[0] != []
    ensures SelectSpec(streams, n, cycles) == Reading([], 1, Raised(OSError(EINVAL)))
  {
    var cycle := cycles[0];
    CyclePassSnoc(FdMap(streams), n, [], cycle[0]);
    assert [] + [cycle[0]] == cycle[..1];
    CyclePassRaised(FdMap(streams), n, cycle[..1], cycle[1..]);
    assert cycle[..1] + cycle[1..] == cycle;
  }

  /** With the check, a buffer size below one raises `ValueError` before any
      cycle; otherwise nothing is raised when only registered descriptors are
      reported, and everything yielded is a non-empty chunk of at most `n`
      bytes tagged with a stream's position. */
  lemma CheckedSelectSpecProps(streams: seq<int>, n: int, cycles: seq<seq<Readable>>)
    ensures n < 1 ==> CheckedSelectSpec(streams, n, cycles) == Reading([], 0, Raised(ValueError("buffer size must be >= 1")))
    ensures n >= 1 && (forall c, k :: 0 <= c < |cycles| && 0 <= k < |cycles[c]| ==> cycles[c][k].fd in streams) ==>
      !CheckedSelectSpec(streams, n, cycles).stop.Raised?
    ensures var r := CheckedSelectSpec(streams, n, cycles);
      forall k :: 0 <= k < |r.events| ==>
        r.events[k].data != [] && |r.events[k].data| <= n && 0 <= r.events[k].index < |streams|
    ensures var r := CheckedSelectSpec(streams, n, cycles);
      FromReads(FdMap(streams), n, cycles, r.cycles, r.events)
  {
    if n < 1 {
      var cs: seq<nat>, ts: seq<nat> := [], [];
      assert Traced(FdMap(streams), n, cycles, 0, [], cs, ts);
    }
    if n >= 1 {
      DrainYields(FdMap(streams), n, cycles);
      FdMapValues(streams);
      if forall c, k :: 0 <= c < |cycles| && 0 <= k < |cycles[c]| ==> cycles[c][k].fd in streams {
        forall c, k | 0 <= c < |cycles| && 0 <= k < |cycles[c]| ensures cycles[c][k].fd in FdMap(streams) {
          FdMapSpec(streams, cycles[c][k].fd);
        }
        DrainSafe(FdMap(streams), n, cycles);
      }
    }
  }

  /** The checked select variant behaves exactly like `parallel_reader_xpoll`
      when `select` reports the descriptors `poll` reports with `POLLIN`. */
  lemma CheckedSelectAgreesWithXpoll(streams: seq<int>, pollin: bv32, n: int, cycles: seq<seq<Ready>>, ravail: seq<seq<Readable>>)
    requires |ravail| == |cycles|
    requires forall c :: 0 <= c < |cycles| ==> ravail[c] == Readables(pollin, cycles[c])
    ensures CheckedSelectSpec(streams, n, ravail) == XpollSpec(streams, pollin, n, cycles)
  {
    var rs := seq(|cycles|, k requires 0 <= k < |cycles| => Readables(pollin, cycles[k]));
    assert rs == ravail;
  }
}
