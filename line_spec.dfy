/**
  A reference definition of `parallel_lines` (subproclines.py): what the
  reassembler emits for a finite sequence of `(index, chunk)` events, stated
  over the pending bytes of each index rather than over lists of fragments,
  together with the properties the reassembler promises.
 */
module LineSpec {
  import opened Chunks

  /** A complete line: it ends with the separator, and that is its only separator. */
  predicate IsTerminated(l: seq<byte>)
  {
    |l| > 0 && l[|l| - 1] == NL && NL !in l[..|l| - 1]
  }

  /** A line the reassembler may emit: a complete line, or a non-empty fragment without separator. */
  predicate IsEmitted(l: seq<byte>)
  {
    l != [] && (IsTerminated(l) || NL !in l)
  }

  // ---------------------------------------------------------------------
  // Cutting bytes into lines.
  // ---------------------------------------------------------------------

  /** Complete lines cut from some bytes, and the unterminated remainder. */
  datatype Split = Split(lines: seq<seq<byte>>, rest: seq<byte>)

  /** The complete lines of `s[j..]`, left to right, and what follows the last separator. */
  function SplitFrom(s: seq<byte>, j: nat): Split
    requires j <= |s|
    decreases |s| - j
  {
    var p := Find(s, j);
    if p < 0 then Split([], s[j..])
    else
      var t := SplitFrom(s, p + 1);
      Split([s[j..p + 1]] + t.lines, t.rest)
  }

  /** `SplitFrom` loses no byte, leaves no separator in the remainder, and
      every line it cuts is complete. */
  lemma {:induction false} SplitFromSpec(s: seq<byte>, j: nat)
    requires j <= |s|
    ensures IsSplit(SplitFrom(s, j), s[j..])
    decreases |s| - j
  {
    FindSpec(s, j);
    var p := Find(s, j);
    if p >= 0 {
      var t := SplitFrom(s, p + 1);
      SplitFromSpec(s, p + 1);
      SplitAt(s, j, p);
      CutLine(s, j, p, t);
    } else {
      NoSeparator(s, j);
    }
  }

  /** `r` cuts `s` into complete lines and a remainder without separator, losing no byte. */
  ghost predicate IsSplit(r: Split, s: seq<byte>)
  {
    && Join(r.lines) + r.rest == s
    && NL !in r.rest
    && forall k :: 0 <= k < |r.lines| ==> IsTerminated(r.lines[k])
  }

  lemma NoSeparator(s: seq<byte>, j: nat)
    requires j <= |s| && forall k :: j <= k < |s| ==> s[k] != NL
    ensures IsSplit(Split([], s[j..]), s[j..])
  {
    assert forall k :: 0 <= k < |s[j..]| ==> s[j..][k] == s[j + k];
  }

  /** Cutting `s[j..p + 1]` off at the first separator `p` yields a complete
      line, which goes in front of the split of what follows it. */
  lemma CutLine(s: seq<byte>, j: nat, p: nat, t: Split)
    requires j <= p < |s| && s[p] == NL
    requires forall k :: j <= k < p ==> s[k] != NL
    requires IsSplit(t, s[p + 1..])
    ensures IsSplit(Split([s[j..p + 1]] + t.lines, t.rest), s[j..])
  {
    var l := s[j..p + 1];
    assert l[..|l| - 1] == s[j..p];
    var x := Join(t.lines);
    calc {
      Join([l] + t.lines) + t.rest;
    == { JoinAppend([l], t.lines); JoinOne(l); }
      (l + x) + t.rest;
    ==
      l + (x + t.rest);
    ==
      s[j..];
    }
    var ls := [l] + t.lines;
    assert forall k :: 1 <= k < |ls| ==> ls[k] == t.lines[k - 1];
  }

  /** `SplitFrom` when the next separator is at `p`: the line up to it, then the split of what follows. */
  lemma SplitAt(s: seq<byte>, j: nat, p: nat)
    requires j <= p < |s| && Find(s, j) == p
    ensures SplitFrom(s, j) == Split([s[j..p + 1]] + SplitFrom(s, p + 1).lines, SplitFrom(s, p + 1).rest)
  {
  }

  /** Nothing is left to split at the end of the bytes. */
  lemma SplitEnd(s: seq<byte>)
    ensures SplitFrom(s, |s|) == Split([], [])
  {
  }

  /** The lines emitted for one chunk `c` of an index whose pending bytes are
      `b`, and the bytes left pending afterwards: an empty chunk flushes `b`
      as it is; otherwise `b` goes in front of the first line of `c`, or in
      front of its remainder when `c` holds no separator. */
  function ChunkLines(b: seq<byte>, c: seq<byte>): Split
  {
    if c == [] then
      if b == [] then Split([], []) else Split([b], [])
    else
      var s := SplitFrom(c, 0);
      if s.lines == [] then Split([], b + s.rest)
      else Split([b + s.lines[0]] + s.lines[1..], s.rest)
  }

  /** One chunk loses no byte: the emitted lines followed by the new pending
      bytes are the old pending bytes followed by the chunk. */
  lemma ChunkLinesRoundTrip(b: seq<byte>, c: seq<byte>)
    ensures Join(ChunkLines(b, c).lines) + ChunkLines(b, c).rest == b + c
  {
    if c == [] {
      if b != [] { JoinOne(b); }
    } else {
      SplitFromSpec(c, 0);
      assert c[0..] == c;
      var s := SplitFrom(c, 0);
      if s.lines != [] {
        PrependFirstLine(b, s.lines);
        var x := Join(s.lines);
        assert (b + x) + s.rest == b + (x + s.rest);
      }
    }
  }

  /** When nothing pending holds a separator, a non-empty chunk emits only
      complete lines and leaves no separator pending, and an empty chunk
      emits at most one line, without separator, and leaves nothing pending. */
  lemma ChunkLinesShape(b: seq<byte>, c: seq<byte>)
    requires NL !in b
    ensures NL !in ChunkLines(b, c).rest
    ensures forall k :: 0 <= k < |ChunkLines(b, c).lines| ==> IsEmitted(ChunkLines(b, c).lines[k])
    ensures c != [] ==> forall k :: 0 <= k < |ChunkLines(b, c).lines| ==> IsTerminated(ChunkLines(b, c).lines[k])
    ensures c == [] ==> ChunkLines(b, c).rest == [] && |ChunkLines(b, c).lines| <= 1 && forall k :: 0 <= k < |ChunkLines(b, c).lines| ==> NL !in ChunkLines(b, c).lines[k]
  {
    if c != [] {
      SplitFromSpec(c, 0);
      var s := SplitFrom(c, 0);
      if s.lines != [] {
        PrependTerminated(b, s.lines[0]);
        var r := ChunkLines(b, c);
        assert forall k :: 1 <= k < |r.lines| ==> r.lines[k] == s.lines[k];
      }
    }
  }

  /** A complete line with unterminated bytes put in front of it is still a complete line. */
  lemma PrependTerminated(b: seq<byte>, l: seq<byte>)
    ensures NL !in b && IsTerminated(l) ==> IsTerminated(b + l)
  {
    if |l| > 0 {
      assert (b + l)[..|b + l| - 1] == b + l[..|l| - 1];
    }
  }

  /** Pending bytes put in front of the first line of a chunk come out in front of its bytes. */
  lemma PrependFirstLine(b: seq<byte>, lines: seq<seq<byte>>)
    requires lines != []
    ensures Join([b + lines[0]] + lines[1..]) == b + Join(lines)
  {
    var l, t := lines[0], lines[1..];
    var j := Join(t);
    calc {
      Join([b + l] + t);
    == { JoinAppend([b + l], t); JoinOne(b + l); }
      (b + l) + j;
    ==
      b + (l + j);
    == { JoinAppend([l], t); JoinOne(l); assert [l] + t == lines; }
      b + Join(lines);
    }
  }

  // ---------------------------------------------------------------------
  // The reassembler's buffers, and the whole of `parallel_lines`.
  // ---------------------------------------------------------------------

  /** The buffers of the reassembler: the pending bytes of every index seen so
      far, and the indices in the order they were first seen (the insertion
      order of the `defaultdict`). */
  datatype Pending = Pending(buf: map<int, seq<byte>>, order: seq<int>)

  ghost predicate Valid(p: Pending)
  {
    && (forall i :: i in p.buf <==> i in p.order)
    && (forall k :: 0 <= k < |p.order| ==> p.order[k] in p.buf)
    && (forall a, b :: 0 <= a < b < |p.order| ==> p.order[a] != p.order[b])
    && (forall i :: i in p.buf ==> NL !in p.buf[i])
  }

  /** The pending bytes of index `i`; an index never seen has none. */
  function Get(p: Pending, i: int): seq<byte>
  {
    if i in p.buf then p.buf[i] else []
  }

  datatype Fed = Fed(state: Pending, out: seq<Event>)

  /** Handling one event: look the index up (creating its buffer), then emit
      the chunk's lines tagged with the chunk's index. */
  function Feed(p: Pending, e: Event): Fed
  {
    var r := ChunkLines(Get(p, e.index), e.data);
    var order := if e.index in p.buf then p.order else p.order + [e.index];
    Fed(Pending(p.buf[e.index := r.rest], order), Tag(e.index, r.lines))
  }

  /** Handling an event keeps the buffers well formed. */
  lemma FeedValid(p: Pending, e: Event)
    requires Valid(p)
    ensures Valid(Feed(p, e).state)
  {
    ChunkRestClean(Get(p, e.index), e.data);
    StorePending(p, e.index, ChunkLines(Get(p, e.index), e.data).rest);
  }

  /** Nothing pending holds a separator after a chunk, if nothing did before. */
  lemma ChunkRestClean(b: seq<byte>, c: seq<byte>)
    requires NL !in b
    ensures NL !in ChunkLines(b, c).rest
  {
    if c != [] {
      SplitFromSpec(c, 0);
    }
  }

  /** Storing new pending bytes without separator for `i` keeps the buffers well formed. */
  lemma StorePending(p: Pending, i: int, rest: seq<byte>)
    requires Valid(p) && NL !in rest
    ensures Valid(Pending(p.buf[i := rest], if i in p.buf then p.order else p.order + [i]))
  {
  }

  /** The state and the output after handling every event of `input`, in order. */
  function Run(input: seq<Event>): Fed
  {
    if input == [] then Fed(Pending(map[], []), [])
    else
      var f := Run(input[..|input| - 1]);
      var g := Feed(f.state, input[|input| - 1]);
      Fed(g.state, f.out + g.out)
  }

  /** The buffers stay well formed while events are handled. */
  lemma {:induction false} RunValid(input: seq<Event>)
    ensures Valid(Run(input).state)
    decreases |input|
  {
    if input != [] {
      RunValid(input[..|input| - 1]);
      FeedValid(Run(input[..|input| - 1]).state, input[|input| - 1]);
    }
  }

  /** Handling one more event: the definition of `Run`, read forwards. */
  lemma RunSnoc(input: seq<Event>, e: Event, input': seq<Event>)
    requires input' == input + [e]
    ensures Run(input').state == Feed(Run(input).state, e).state
    ensures Run(input').out == Run(input).out + Feed(Run(input).state, e).out
  {
    assert input'[..|input|] == input;
  }

  /** The final flush over `order`: one event per index whose pending bytes are non-empty. */
  function FlushOrder(buf: map<int, seq<byte>>, order: seq<int>): seq<Event>
    requires forall k :: 0 <= k < |order| ==> order[k] in buf
  {
    if order == [] then []
    else
      var i := order[|order| - 1];
      FlushOrder(buf, order[..|order| - 1]) + (if buf[i] != [] then [Event(i, buf[i])] else [])
  }

  function Flush(p: Pending): seq<Event>
    requires Valid(p)
  {
    FlushOrder(p.buf, p.order)
  }

  /** Everything `parallel_lines` yields for `input`. */
  function Lines(input: seq<Event>): seq<Event>
  {
    RunValid(input);
    Run(input).out + Flush(Run(input).state)
  }

  /** The indices of `input` without repetition, in the order of their first occurrence. */
  function FirstSeen(input: seq<Event>): seq<int>
  {
    if input == [] then []
    else
      var r := FirstSeen(input[..|input| - 1]);
      var i := input[|input| - 1].index;
      if i in r then r else r + [i]
  }

  /** `FirstSeen` holds exactly the indices that occur in the input. */
  lemma {:induction false} FirstSeenIndices(input: seq<Event>)
    ensures forall i :: i in FirstSeen(input) <==> exists k :: 0 <= k < |input| && input[k].index == i
    decreases |input|
  {
    if input != [] {
      var init := input[..|input| - 1];
      FirstSeenIndices(init);
      assert forall k :: 0 <= k < |init| ==> init[k] == input[k];
    }
  }

  /** Position of `x` in a sequence that contains it. */
  function IndexOf(s: seq<int>, x: int): (r: nat)
    requires x in s
    ensures r < |s| && s[r] == x && x !in s[..r]
  {
    if s[0] == x then 0 else
      assert s[1..][..IndexOf(s[1..], x)] == s[1..IndexOf(s[1..], x) + 1];
      1 + IndexOf(s[1..], x)
  }

  // ---------------------------------------------------------------------
  // Round trip: per index, the emitted lines give back the input chunks.
  // ---------------------------------------------------------------------

  /** One event moves bytes of its own index from pending to emitted without
      losing or reordering any, and leaves every other index alone. */
  lemma FeedRoundTrip(p: Pending, e: Event, i: int)
    ensures DataFor(Feed(p, e).out, i) + Get(Feed(p, e).state, i)
         == Get(p, i) + if e.index == i then e.data else []
    ensures i != e.index ==> Get(Feed(p, e).state, i) == Get(p, i) && DataFor(Feed(p, e).out, i) == []
  {
    var r := ChunkLines(Get(p, e.index), e.data);
    ChunkLinesRoundTrip(Get(p, e.index), e.data);
    DataForTag(e.index, r.lines, i);
  }

  /** While events are handled, the lines emitted for `i` followed by its
      pending bytes are exactly the bytes received for `i`. */
  lemma {:induction false} RunRoundTrip(input: seq<Event>, i: int)
    ensures DataFor(Run(input).out, i) + Get(Run(input).state, i) == DataFor(input, i)
    decreases |input|
  {
    if input != [] {
      var init, e := input[..|input| - 1], input[|input| - 1];
      var f := Run(init);
      var g := Feed(f.state, e);
      var x := if e.index == i then e.data else [];
      RunRoundTrip(init, i);
      FeedRoundTrip(f.state, e, i);
      DataForAppend(f.out, g.out, i);
      Regroup(DataFor(f.out, i), DataFor(g.out, i), Get(g.state, i), Get(f.state, i), x);
    }
  }

  lemma Regroup(a: seq<byte>, t: seq<byte>, g: seq<byte>, p: seq<byte>, x: seq<byte>)
    requires t + g == p + x
    ensures (a + t) + g == (a + p) + x
  {
    assert (a + t) + g == a + (t + g);
    assert (a + p) + x == a + (p + x);
  }

  /** The final flush carries, for each index, exactly its pending bytes. */
  lemma {:induction false} FlushOrderData(buf: map<int, seq<byte>>, order: seq<int>, i: int)
    requires forall k :: 0 <= k < |order| ==> order[k] in buf
    requires forall a, b :: 0 <= a < b < |order| ==> order[a] != order[b]
    ensures DataFor(FlushOrder(buf, order), i) == if i in order then buf[i] else []
    decreases |order|
  {
    if order != [] {
      var init, last := order[..|order| - 1], order[|order| - 1];
      var tail := if buf[last] != [] then [Event(last, buf[last])] else [];
      FlushOrderData(buf, init, i);
      DataForAppend(FlushOrder(buf, init), tail, i);
      if buf[last] != [] { DataForOne(Event(last, buf[last]), i); }
      InDropLast(order, i);
      assert last !in init;
    }
  }

  /** The round trip: for every index, concatenating the lines emitted for it,
      in emission order, gives the concatenation of its input chunks. */
  lemma LinesRoundTrip(input: seq<Event>, i: int)
    ensures DataFor(Lines(input), i) == DataFor(input, i)
  {
    RunValid(input);
    var f := Run(input);
    RunRoundTrip(input, i);
    FlushOrderData(f.state.buf, f.state.order, i);
    DataForAppend(f.out, Flush(f.state), i);
  }

  // ---------------------------------------------------------------------
  // The shape of every emitted line.
  // ---------------------------------------------------------------------

  /** The lines one event emits, when nothing pending for its index holds a separator. */
  lemma FeedShape(p: Pending, e: Event)
    requires NL !in Get(p, e.index)
    ensures forall k :: 0 <= k < |Feed(p, e).out| ==> Feed(p, e).out[k].index == e.index
    ensures AllEmitted(Feed(p, e).out)
    ensures e.data != [] ==> AllTerminated(Feed(p, e).out)
  {
    ChunkLinesShape(Get(p, e.index), e.data);
  }

  /** Every event of `evs` carries a line the reassembler may emit. */
  predicate AllEmitted(evs: seq<Event>)
  {
    forall k :: 0 <= k < |evs| ==> IsEmitted(evs[k].data)
  }

  /** Every event of `evs` carries a complete line. */
  predicate AllTerminated(evs: seq<Event>)
  {
    forall k :: 0 <= k < |evs| ==> IsTerminated(evs[k].data)
  }

  /** No event of `evs` carries an empty chunk. */
  predicate NoEmptyChunk(evs: seq<Event>)
  {
    forall k :: 0 <= k < |evs| ==> evs[k].data != []
  }

  lemma ShapeAppend(a: seq<Event>, b: seq<Event>)
    ensures AllEmitted(a) && AllEmitted(b) ==> AllEmitted(a + b)
    ensures AllTerminated(a) && AllTerminated(b) ==> AllTerminated(a + b)
  {
    assert forall k :: 0 <= k < |a + b| ==> (a + b)[k] == if k < |a| then a[k] else b[k - |a|];
  }

  lemma NoEmptyChunkInit(input: seq<Event>)
    requires input != [] && NoEmptyChunk(input)
    ensures NoEmptyChunk(input[..|input| - 1]) && input[|input| - 1].data != []
  {
    var init := input[..|input| - 1];
    assert forall k :: 0 <= k < |init| ==> init[k] == input[k];
  }

  lemma ValidGet(p: Pending, i: int)
    requires Valid(p)
    ensures NL !in Get(p, i)
  {
  }

  /** Lines emitted while events are handled are non-empty and either
      complete or flushed fragments; when no chunk is empty they are all complete. */
  lemma {:induction false} RunShape(input: seq<Event>)
    ensures AllEmitted(Run(input).out)
    ensures NoEmptyChunk(input) ==> AllTerminated(Run(input).out)
    decreases |input|
  {
    if input != [] {
      var init, e := input[..|input| - 1], input[|input| - 1];
      RunShape(init);
      RunValid(init);
      ValidGet(Run(init).state, e.index);
      FeedShape(Run(init).state, e);
      ShapeAppend(Run(init).out, Feed(Run(init).state, e).out);
      if NoEmptyChunk(input) {
        NoEmptyChunkInit(input);
      }
    }
  }

  /** Each line of the final flush is the non-empty pending bytes of an index, without separator. */
  lemma {:induction false} FlushOrderLines(buf: map<int, seq<byte>>, order: seq<int>)
    requires forall k :: 0 <= k < |order| ==> order[k] in buf
    requires forall i :: i in buf ==> NL !in buf[i]
    ensures forall k :: 0 <= k < |FlushOrder(buf, order)| ==>
      var e := FlushOrder(buf, order)[k];
      e.index in order && e.data == buf[e.index] && e.data != [] && NL !in e.data
    decreases |order|
  {
    if order != [] {
      var init, last := order[..|order| - 1], order[|order| - 1];
      FlushOrderLines(buf, init);
      var g := FlushOrder(buf, init);
      var f := FlushOrder(buf, order);
      assert forall k :: 0 <= k < |init| ==> init[k] == order[k];
      forall k | 0 <= k < |f|
        ensures f[k].index in order && f[k].data == buf[f[k].index] && f[k].data != [] && NL !in f[k].data
      {
        if k < |g| { assert f[k] == g[k]; } else { assert f[k] == Event(last, buf[last]); }
      }
    }
  }

  /** Every index of `order` with pending bytes gets a line in the final flush. */
  lemma {:induction false} FlushOrderCovers(buf: map<int, seq<byte>>, order: seq<int>, i: int)
    requires forall k :: 0 <= k < |order| ==> order[k] in buf
    requires i in order && buf[i] != []
    ensures exists k :: 0 <= k < |FlushOrder(buf, order)| && FlushOrder(buf, order)[k].index == i
    decreases |order|
  {
    var init, last := order[..|order| - 1], order[|order| - 1];
    var g := FlushOrder(buf, init);
    var f := FlushOrder(buf, order);
    if i == last {
      assert f[|f| - 1].index == i;
    } else {
      assert i in init;
      FlushOrderCovers(buf, init, i);
      var k :| 0 <= k < |g| && g[k].index == i;
      assert f[k] == g[k];
    }
  }

  /** The final flush emits its lines in the order of `order`, so no index twice. */
  lemma {:induction false} FlushOrderSorted(buf: map<int, seq<byte>>, order: seq<int>)
    requires forall k :: 0 <= k < |order| ==> order[k] in buf
    requires forall a, b :: 0 <= a < b < |order| ==> order[a] != order[b]
    ensures forall a, b :: 0 <= a < b < |FlushOrder(buf, order)| ==>
      && FlushOrder(buf, order)[a].index in order
      && FlushOrder(buf, order)[b].index in order
      && IndexOf(order, FlushOrder(buf, order)[a].index) < IndexOf(order, FlushOrder(buf, order)[b].index)
    decreases |order|
  {
    if order != [] {
      var init, last := order[..|order| - 1], order[|order| - 1];
      FlushOrderSorted(buf, init);
      FlushOrderIndices(buf, init);
      var g := FlushOrder(buf, init);
      var f := FlushOrder(buf, order);
      assert forall k :: 0 <= k < |init| ==> init[k] == order[k];
      forall k | 0 <= k < |g|
        ensures g[k].index in order && IndexOf(order, g[k].index) == IndexOf(init, g[k].index) < |init|
      {
        IndexOfPrefix(order, init, g[k].index);
      }
      assert IndexOf(order, last) == |init| by {
        IndexOfLast(order);
      }
      forall a, b | 0 <= a < b < |f|
        ensures f[a].index in order && f[b].index in order && IndexOf(order, f[a].index) < IndexOf(order, f[b].index)
      {
        assert f[a] == g[a];
        if b < |g| {
          assert f[b] == g[b];
          assert IndexOf(init, g[a].index) < IndexOf(init, g[b].index);
        } else {
          assert f[b].index == last;
        }
      }
    } else {
      assert FlushOrder(buf, order) == [];
    }
  }

  lemma {:induction false} FlushOrderIndices(buf: map<int, seq<byte>>, order: seq<int>)
    requires forall k :: 0 <= k < |order| ==> order[k] in buf
    ensures forall k :: 0 <= k < |FlushOrder(buf, order)| ==> FlushOrder(buf, order)[k].index in order
    decreases |order|
  {
    if order != [] {
      var init := order[..|order| - 1];
      FlushOrderIndices(buf, init);
      assert forall k :: 0 <= k < |init| ==> init[k] == order[k];
      var g := FlushOrder(buf, init);
      var f := FlushOrder(buf, order);
      forall k | 0 <= k < |f| ensures f[k].index in order {
        if k < |g| { assert f[k] == g[k]; }
      }
    }
  }

  lemma IndexOfPrefix(s: seq<int>, t: seq<int>, x: int)
    requires x in t && |t| <= |s| && t == s[..|t|]
    ensures IndexOf(s, x) == IndexOf(t, x)
  {
    var a, b := IndexOf(s, x), IndexOf(t, x);
    assert s[b] == x;
  }

  lemma IndexOfLast(s: seq<int>)
    requires |s| > 0
    requires forall a, b :: 0 <= a < b < |s| ==> s[a] != s[b]
    ensures IndexOf(s, s[|s| - 1]) == |s| - 1
  {
  }

  /** Every line `parallel_lines` yields is non-empty, and is either a
      complete line or a flushed fragment without separator. */
  lemma LinesShape(input: seq<Event>)
    ensures forall k :: 0 <= k < |Lines(input)| ==> IsEmitted(Lines(input)[k].data)
  {
    RunValid(input);
    var f := Run(input);
    RunShape(input);
    FlushOrderLines(f.state.buf, f.state.order);
    var out := Lines(input);
    forall k | 0 <= k < |out| ensures IsEmitted(out[k].data) {
      if k >= |f.out| {
        assert out[k] == Flush(f.state)[k - |f.out|];
      }
    }
  }

  // ---------------------------------------------------------------------
  // Order and causality.
  // ---------------------------------------------------------------------

  /** Handling one more event only appends to the output; what it appends is
      tagged with the event's index, and it moves that index's bytes from
      pending to emitted without reordering them. */
  lemma RunStep(input: seq<Event>, e: Event)
    ensures var before, after := Run(input), Run(input + [e]);
      && |before.out| <= |after.out|
      && after.out[..|before.out|] == before.out
      && (forall k :: |before.out| <= k < |after.out| ==> after.out[k].index == e.index)
      && DataFor(after.out[|before.out|..], e.index) + Get(after.state, e.index) == Get(before.state, e.index) + e.data
      && (forall i :: i != e.index ==> Get(after.state, i) == Get(before.state, i))
  {
    var before := Run(input);
    var g := Feed(before.state, e);
    RunSnoc(input, e, input + [e]);
    assert Run(input + [e]).out[|before.out|..] == g.out;
    FeedRoundTrip(before.state, e, e.index);
  }

  /** Output never depends on later input: the lines emitted while handling a
      prefix of the input are a prefix of everything yielded. */
  lemma {:induction false} RunPrefix(input: seq<Event>, n: nat)
    requires n <= |input|
    ensures |Run(input[..n]).out| <= |Run(input).out|
    ensures Run(input).out[..|Run(input[..n]).out|] == Run(input[..n]).out
    decreases |input|
  {
    if n < |input| {
      var init := input[..|input| - 1];
      assert init[..n] == input[..n];
      RunPrefix(init, n);
      PrefixOfAppend(Run(input[..n]).out, Run(init).out, Feed(Run(init).state, input[|input| - 1]).out);
    } else {
      assert input[..n] == input;
    }
  }

  lemma PrefixOfAppend(a: seq<Event>, b: seq<Event>, c: seq<Event>)
    requires |a| <= |b| && b[..|a|] == a
    ensures |a| <= |b + c| && (b + c)[..|a|] == a
  {
    assert (b + c)[..|a|] == b[..|a|];
  }

  /** An empty chunk for `i` flushes exactly the bytes received for `i` that
      were not yet emitted, as one line without separator (nothing when there
      are none), and leaves `i` with nothing pending. */
  lemma EmptyChunkFlushes(input: seq<Event>, i: int)
    ensures var before, after := Run(input), Run(input + [Event(i, [])]);
      var pending := Get(before.state, i);
      && DataFor(before.out, i) + pending == DataFor(input, i)
      && NL !in pending
      && after.out == before.out + (if pending == [] then [] else [Event(i, pending)])
      && Get(after.state, i) == []
  {
    RunValid(input);
    RunSnoc(input, Event(i, []), input + [Event(i, [])]);
    FeedEmpty(Run(input).state, i);
    RunRoundTrip(input, i);
  }

  /** An empty chunk emits the pending bytes of its index, if any, and empties them. */
  lemma FeedEmpty(p: Pending, i: int)
    ensures var f := Feed(p, Event(i, []));
      f.out == (if Get(p, i) == [] then [] else [Event(i, Get(p, i))]) && Get(f.state, i) == []
  {
    TagOne(i, Get(p, i));
  }

  /** The final flush follows the order in which indices were first seen,
      including indices whose only chunks were empty. */
  lemma {:induction false} RunOrder(input: seq<Event>)
    ensures Run(input).state.order == FirstSeen(input)
    decreases |input|
  {
    if input != [] {
      var init := input[..|input| - 1];
      RunOrder(init);
      RunValid(init);
    }
  }

  /** After the input is exhausted, exactly one line is emitted per index with
      pending bytes, holding exactly those bytes, in first-seen order. */
  lemma FinalFlush(input: seq<Event>)
    ensures Valid(Run(input).state)
    ensures var p := Run(input).state;
      var f := Flush(p);
      && Lines(input) == Run(input).out + f
      && (forall k :: 0 <= k < |f| ==> f[k].data == Get(p, f[k].index) && f[k].data != [] && NL !in f[k].data)
      && (forall i :: Get(p, i) != [] ==> exists k :: 0 <= k < |f| && f[k].index == i)
      && (forall a, b :: 0 <= a < b < |f| ==>
            f[a].index in FirstSeen(input) && f[b].index in FirstSeen(input) &&
            IndexOf(FirstSeen(input), f[a].index) < IndexOf(FirstSeen(input), f[b].index))
  {
    RunValid(input);
    RunOrder(input);
    FlushShape(Run(input).state);
  }

  /** The final flush of a valid state, stated over its pending bytes and its first-seen order. */
  lemma FlushShape(p: Pending)
    requires Valid(p)
    ensures var f := Flush(p);
      && (forall k :: 0 <= k < |f| ==> f[k].data == Get(p, f[k].index) && f[k].data != [] && NL !in f[k].data)
      && (forall i :: Get(p, i) != [] ==> exists k :: 0 <= k < |f| && f[k].index == i)
      && (forall a, b :: 0 <= a < b < |f| ==>
            f[a].index in p.order && f[b].index in p.order &&
            IndexOf(p.order, f[a].index) < IndexOf(p.order, f[b].index))
  {
    FlushOrderLines(p.buf, p.order);
    FlushOrderSorted(p.buf, p.order);
    forall i | Get(p, i) != []
      ensures exists k :: 0 <= k < |Flush(p)| && Flush(p)[k].index == i
    {
      FlushOrderCovers(p.buf, p.order, i);
      var f := FlushOrder(p.buf, p.order);
      var k :| 0 <= k < |f| && f[k].index == i;
      assert Flush(p)[k] == f[k];
    }
  }

  // ---------------------------------------------------------------------
  // Worked examples, and the general facts they are instances of.
  // ---------------------------------------------------------------------

  /** No input, no output. */
  lemma EmptyInput()
    ensures Lines([]) == []
  {
  }

  /** `[(0, b"ab"), (0, b"cd\n"), (0, b"ef")]` yields `[(0, b"abcd\n"), (0, b"ef")]`. */
  lemma PartialLinesAreJoined()
    ensures Lines([Event(0, [97, 98]), Event(0, [99, 100, 10]), Event(0, [101, 102])])
         == [Event(0, [97, 98, 99, 100, 10]), Event(0, [101, 102])]
  {
    var ab: seq<byte>, cd: seq<byte>, ef: seq<byte> := [97, 98], [99, 100, 10], [101, 102];
    assert cd[..2] == [99, 100];
    HeldFragmentJoins(0, ab, cd, ef);
    assert ab + cd == [97, 98, 99, 100, 10];
  }

  /** A fragment without separator is held back and put in front of the next
      line of its index; a trailing fragment comes out at the final flush. */
  lemma HeldFragmentJoins(i: int, a: seq<byte>, b: seq<byte>, c: seq<byte>)
    requires a != [] && NL !in a && IsTerminated(b) && c != [] && NL !in c
    ensures Lines([Event(i, a), Event(i, b), Event(i, c)]) == [Event(i, a + b), Event(i, c)]
  {
    HeldFragmentRun(i, a, b, c);
    FlushOne(Run([Event(i, a), Event(i, b), Event(i, c)]).state, i);
  }

  lemma HeldFragmentRun(i: int, a: seq<byte>, b: seq<byte>, c: seq<byte>)
    requires a != [] && NL !in a && IsTerminated(b) && c != [] && NL !in c
    ensures var f := Run([Event(i, a), Event(i, b), Event(i, c)]);
      f.out == [Event(i, a + b)] && f.state.order == [i] && i in f.state.buf && Get(f.state, i) == c
  {
    var s2, s3 := [Event(i, a), Event(i, b)], [Event(i, a), Event(i, b), Event(i, c)];
    HeldFragmentLine(i, a, b);
    Triple(Event(i, a), Event(i, b), Event(i, c));
    RunSnoc(s2, Event(i, c), s3);
    FeedUnterminated(Run(s2).state, Event(i, c));
    assert Get(Run(s2).state, i) + c == c;
  }

  lemma HeldFragmentLine(i: int, a: seq<byte>, b: seq<byte>)
    requires a != [] && NL !in a && IsTerminated(b)
    ensures var f := Run([Event(i, a), Event(i, b)]);
      f.out == [Event(i, a + b)] && f.state.order == [i] && i in f.state.buf && Get(f.state, i) == []
  {
    var s1, s2 := [Event(i, a)], [Event(i, a), Event(i, b)];
    FirstEvent(Event(i, a));
    FeedUnterminated(Pending(map[], []), Event(i, a));
    assert [] + a == a;
    Pair(Event(i, a), Event(i, b));
    RunSnoc(s1, Event(i, b), s2);
    FeedLine(Run(s1).state, Event(i, b));
  }

  /** The state and output after one event are those of handling it in the initial state. */
  lemma FirstEvent(e: Event)
    ensures Run([e]) == Feed(Pending(map[], []), e)
  {
    assert [e][..0] == [];
  }

  /** A non-empty chunk without separator is appended to the pending bytes of its index. */
  lemma FeedUnterminated(p: Pending, e: Event)
    requires e.data != [] && NL !in e.data
    ensures var f := Feed(p, e);
      && f.out == []
      && Get(f.state, e.index) == Get(p, e.index) + e.data
      && e.index in f.state.buf
      && f.state.order == if e.index in p.buf then p.order else p.order + [e.index]
  {
    UnterminatedChunk(Get(p, e.index), e.data);
    TagOne(e.index, []);
  }

  /** A chunk that is one complete line is emitted behind the pending bytes of its index. */
  lemma FeedLine(p: Pending, e: Event)
    requires IsTerminated(e.data)
    ensures var f := Feed(p, e);
      && f.out == [Event(e.index, Get(p, e.index) + e.data)]
      && Get(f.state, e.index) == []
      && (forall i :: i != e.index ==> Get(f.state, i) == Get(p, i))
      && e.index in f.state.buf
      && f.state.order == if e.index in p.buf then p.order else p.order + [e.index]
  {
    OneLineChunk(Get(p, e.index), e.data);
    TagOne(e.index, Get(p, e.index) + e.data);
  }

  lemma UnterminatedChunk(b: seq<byte>, c: seq<byte>)
    requires c != [] && NL !in c
    ensures ChunkLines(b, c) == Split([], b + c)
  {
    FindSpec(c, 0);
    assert c[0..] == c;
  }

  lemma OneLineChunk(b: seq<byte>, c: seq<byte>)
    requires IsTerminated(c)
    ensures ChunkLines(b, c) == Split([b + c], [])
  {
    assert forall k :: 0 <= k < |c| - 1 ==> c[k] == c[..|c| - 1][k];
    FindAt(c, 0, |c| - 1);
    SplitEnd(c);
    SplitAt(c, 0, |c| - 1);
    assert c[0..|c|] == c;
  }

  /** The final flush of a state holding one index. */
  lemma FlushOne(p: Pending, i: int)
    requires p.order == [i] && i in p.buf
    ensures FlushOrder(p.buf, p.order) == if Get(p, i) == [] then [] else [Event(i, Get(p, i))]
  {
    assert p.order[..0] == [];
  }

  /** `[(0, b"line1\nline2\n")]` yields `[(0, b"line1\n"), (0, b"line2\n")]`. */
  lemma TwoLinesInOneChunk()
    ensures Lines([Event(0, [108, 105, 110, 101, 49, 10, 108, 105, 110, 101, 50, 10])])
         == [Event(0, [108, 105, 110, 101, 49, 10]), Event(0, [108, 105, 110, 101, 50, 10])]
  {
    var l1: seq<byte>, l2: seq<byte> := [108, 105, 110, 101, 49, 10], [108, 105, 110, 101, 50, 10];
    assert l1[..5] == [108, 105, 110, 101, 49] && l2[..5] == [108, 105, 110, 101, 50];
    TwoCompleteLines(0, l1, l2);
    assert l1 + l2 == [108, 105, 110, 101, 49, 10, 108, 105, 110, 101, 50, 10];
  }

  /** A chunk holding two complete lines, for an index never seen before, yields both lines in order. */
  lemma TwoCompleteLines(i: int, a: seq<byte>, b: seq<byte>)
    requires IsTerminated(a) && IsTerminated(b)
    ensures Lines([Event(i, a + b)]) == [Event(i, a), Event(i, b)]
  {
    TwoLinesFeed(i, a, b);
    FirstEvent(Event(i, a + b));
    FlushOne(Run([Event(i, a + b)]).state, i);
  }

  lemma TwoLinesFeed(i: int, a: seq<byte>, b: seq<byte>)
    requires IsTerminated(a) && IsTerminated(b)
    ensures var f := Feed(Pending(map[], []), Event(i, a + b));
      f.out == [Event(i, a), Event(i, b)] && f.state.order == [i] && i in f.state.buf && Get(f.state, i) == []
  {
    TwoLinesSplit(a, b);
    FreshChunk(a + b);
    assert Tag(i, [a, b]) == [Event(i, a), Event(i, b)];
  }

  /** Two complete lines, back to back, split into exactly those lines. */
  lemma TwoLinesSplit(a: seq<byte>, b: seq<byte>)
    requires IsTerminated(a) && IsTerminated(b)
    ensures SplitFrom(a + b, 0) == Split([a, b], [])
  {
    var c := a + b;
    var p, q := |a| - 1, |c| - 1;
    assert c[..p] == a[..p] && c[|a|..q] == b[..|b| - 1];
    forall k | 0 <= k < p ensures c[k] != NL {
      assert c[k] == c[..p][k];
    }
    forall k | |a| <= k < q ensures c[k] != NL {
      assert c[k] == c[|a|..q][k - |a|];
    }
    FindAt(c, 0, p);
    FindAt(c, |a|, q);
    SplitEnd(c);
    SplitAt(c, |a|, q);
    SplitAt(c, 0, p);
    assert c[0..|a|] == a && c[|a|..q + 1] == b;
  }

  /** For an index with nothing pending, a non-empty chunk is cut into lines exactly as `SplitFrom` cuts it. */
  lemma FreshChunk(c: seq<byte>)
    requires c != []
    ensures ChunkLines([], c) == SplitFrom(c, 0)
  {
    var s := SplitFrom(c, 0);
    if s.lines != [] {
      var none: seq<byte> := [];
      assert none + s.lines[0] == s.lines[0];
      assert [s.lines[0]] + s.lines[1..] == s.lines;
    }
  }

  /** `[(1, b"x\n"), (0, b"y\n")]` yields `[(1, b"x\n"), (0, b"y\n")]`: arrival order, not index order. */
  lemma ArrivalOrder()
    ensures Lines([Event(1, [120, 10]), Event(0, [121, 10])]) == [Event(1, [120, 10]), Event(0, [121, 10])]
  {
    var input: seq<Event> := [Event(1, [120, 10]), Event(0, [121, 10])];
    assert input[0].data[..1] == [120] && input[1].data[..1] == [121];
    CompleteLinesPassThrough(input);
  }

  /** Chunks that are each one complete line come out unchanged and in arrival order. */
  lemma CompleteLinesPassThrough(input: seq<Event>)
    requires forall k :: 0 <= k < |input| ==> IsTerminated(input[k].data)
    ensures Lines(input) == input
  {
    CompleteLinesRun(input);
    RunValid(input);
    NothingPending(Run(input).state);
  }

  lemma NothingPending(p: Pending)
    requires Valid(p)
    requires forall i :: Get(p, i) == []
    ensures Flush(p) == []
  {
    forall k | 0 <= k < |p.order| ensures p.buf[p.order[k]] == [] {
      assert Get(p, p.order[k]) == [];
    }
    FlushNothingPending(p.buf, p.order);
  }

  lemma {:induction false} CompleteLinesRun(input: seq<Event>)
    requires forall k :: 0 <= k < |input| ==> IsTerminated(input[k].data)
    ensures Run(input).out == input
    ensures forall i :: Get(Run(input).state, i) == []
    decreases |input|
  {
    if input != [] {
      var init, e := input[..|input| - 1], input[|input| - 1];
      assert forall k :: 0 <= k < |init| ==> init[k] == input[k];
      CompleteLinesRun(init);
      CompleteLineStep(Run(init).state, e);
      LastSplit(input);
    }
  }

  lemma CompleteLineStep(p: Pending, e: Event)
    requires IsTerminated(e.data)
    requires forall i :: Get(p, i) == []
    ensures Feed(p, e).out == [e]
    ensures forall i :: Get(Feed(p, e).state, i) == []
  {
    FeedLine(p, e);
    assert Get(p, e.index) + e.data == e.data;
  }

  lemma {:induction false} FlushNothingPending(buf: map<int, seq<byte>>, order: seq<int>)
    requires forall k :: 0 <= k < |order| ==> order[k] in buf && buf[order[k]] == []
    ensures FlushOrder(buf, order) == []
    decreases |order|
  {
    if order != [] {
      FlushNothingPending(buf, order[..|order| - 1]);
    }
  }
}
