/**
  `parallel_lines` (subproclines.py) as the program runs it: a dictionary of
  fragment lists, one per index and kept in insertion order, that each chunk
  updates in place, and a final flush over the dictionary. Each step is
  proved to do what `LineSpec.Feed` and `LineSpec.FlushOrder` say, so the
  whole is proved to yield `LineSpec.Lines`.
 */
module LineReassembler {
  import opened Chunks
  import opened LineSpec

  /** The fragment lists of the `defaultdict(list)`; a Python dictionary
      iterates its keys in insertion order, which `order` records. */
  type Buffers = map<int, seq<seq<byte>>>

  /** A buffer holds only non-empty fragments without separator. */
  predicate CleanBuffer(frags: seq<seq<byte>>)
  {
    forall k :: 0 <= k < |frags| ==> frags[k] != [] && NL !in frags[k]
  }

  ghost predicate Clean(buffers: Buffers)
  {
    forall i :: i in buffers ==> CleanBuffer(buffers[i])
  }

  /** The pending bytes the fragment lists stand for. */
  function Abstract(buffers: Buffers, order: seq<int>): Pending
  {
    Pending(map i | i in buffers :: Join(buffers[i]), order)
  }

  /** A clean buffer joins to bytes without separator, which are empty exactly
      when the buffer holds no fragment. */
  lemma {:induction false} CleanJoin(frags: seq<seq<byte>>)
    requires CleanBuffer(frags)
    ensures NL !in Join(frags)
    ensures Join(frags) == [] <==> frags == []
    decreases |frags|
  {
    if frags != [] {
      var init := frags[..|frags| - 1];
      assert CleanBuffer(init) by {
        assert forall k :: 0 <= k < |init| ==> init[k] == frags[k];
      }
      CleanJoin(init);
    }
  }

  lemma AbstractUpdate(buffers: Buffers, order: seq<int>, order': seq<int>, i: int, frags: seq<seq<byte>>)
    ensures Abstract(buffers[i := frags], order') == Pending(Abstract(buffers, order).buf[i := Join(frags)], order')
  {
  }

  lemma AbstractGet(buffers: Buffers, order: seq<int>, i: int)
    ensures i in Abstract(buffers, order).buf <==> i in buffers
    ensures Get(Abstract(buffers, order), i) == if i in buffers then Join(buffers[i]) else []
  {
  }

  /** Appending a fragment to a buffer appends its bytes to the buffer's join. */
  lemma JoinSnoc(frags: seq<seq<byte>>, frag: seq<byte>)
    ensures Join(frags + [frag]) == Join(frags) + frag
  {
    JoinAppend(frags, [frag]);
    JoinOne(frag);
  }

  /** When the first separator of a chunk is at `pos`, its first line goes
      behind the pending bytes and the rest of the chunk is split as usual. */
  lemma FirstLine(b: seq<byte>, c: seq<byte>, pos: nat)
    requires pos < |c| && Find(c, 0) == pos
    ensures ChunkLines(b, c).lines == [b + c[..pos + 1]] + SplitFrom(c, pos + 1).lines
    ensures ChunkLines(b, c).rest == SplitFrom(c, pos + 1).rest
  {
    SplitAt(c, 0, pos);
    assert c[0..pos + 1] == c[..pos + 1];
  }

  /** One more line cut from the chunk, moved from what is left to split to what was emitted. */
  lemma NextLine(lines: seq<Event>, i: int, l: seq<byte>, t: seq<seq<byte>>)
    ensures (lines + [Event(i, l)]) + Tag(i, t) == lines + Tag(i, [l] + t)
  {
    TagAppend(i, [l], t);
    TagOne(i, l);
  }

  /** The loop of `ScanLines` has emitted `lines` and stands at `k`: what is
      left to emit from `k` completes the lines from `j`, with the same remainder. */
  ghost predicate Scanned(i: int, chunk: seq<byte>, j: nat, k: nat, lines: seq<Event>)
  {
    && j <= k <= |chunk|
    && lines + Tag(i, SplitFrom(chunk, k).lines) == Tag(i, SplitFrom(chunk, j).lines)
    && SplitFrom(chunk, k).rest == SplitFrom(chunk, j).rest
  }

  /** Emitting the line that ends at the next separator keeps the loop on track. */
  lemma ScanStep(i: int, chunk: seq<byte>, j: nat, k: nat, lines: seq<Event>)
    requires Scanned(i, chunk, j, k, lines)
    requires k <= Find(chunk, k)
    ensures Scanned(i, chunk, j, Find(chunk, k) + 1, lines + [Event(i, chunk[k..Find(chunk, k) + 1])])
  {
    var pos := Find(chunk, k);
    SplitAt(chunk, k, pos);
    NextLine(lines, i, chunk[k..pos + 1], SplitFrom(chunk, pos + 1).lines);
  }

  /** With no separator left after `k`, the loop has emitted every line and
      what follows `k` is the remainder. */
  lemma ScanRest(i: int, chunk: seq<byte>, j: nat, k: nat, lines: seq<Event>)
    requires Scanned(i, chunk, j, k, lines)
    requires Find(chunk, k) < 0
    ensures lines == Tag(i, SplitFrom(chunk, j).lines)
    ensures chunk[k..] == SplitFrom(chunk, j).rest
  {
    TagOne(i, []);
    assert lines + [] == lines;
  }

  /** The bytes after the last separator, when there are any, make a clean one-fragment buffer. */
  lemma RestBuffer(chunk: seq<byte>, k: nat)
    requires k < |chunk| && Find(chunk, k) < 0
    ensures CleanBuffer([chunk[k..]])
    ensures Join([chunk[k..]]) == chunk[k..]
  {
    FindSpec(chunk, k);
    JoinOne(chunk[k..]);
  }

  /** Lines 110-125: the lines of `chunk` after position `j`, each tagged with
      `i`, and the buffer that holds what follows the last separator. */
  method ScanLines(i: int, chunk: seq<byte>, j: nat) returns (buf: seq<seq<byte>>, lines: seq<Event>)
    requires j <= |chunk|
    ensures CleanBuffer(buf)
    ensures Join(buf) == SplitFrom(chunk, j).rest
    ensures lines == Tag(i, SplitFrom(chunk, j).lines)
  {
    buf, lines := [], [];
    var n := |chunk|;
    var k := j;
    TagOne(i, []);
    while k < n
      invariant Scanned(i, chunk, j, k, lines)
      decreases n - k
    {
      var pos := Find(chunk, k);
      if pos < 0 {
        // no more separators: the rest of the chunk stays pending
        ScanRest(i, chunk, j, k, lines);
        RestBuffer(chunk, k);
        buf := [chunk[k..]];
        return;
      }
      ScanStep(i, chunk, j, k, lines);
      lines := lines + [Event(i, chunk[k..pos + 1])];
      k := pos + 1;
    }
    SplitEnd(chunk);
    ScanRest(i, chunk, j, k, lines);
  }

  /** Lines 89-125: cut one chunk of index `i` into lines, given the buffer of
      fragments pending for `i`; returns the new buffer and the lines emitted. */
  method ChunkIntoLines(buf: seq<seq<byte>>, i: int, chunk: seq<byte>) returns (buf': seq<seq<byte>>, lines: seq<Event>)
    requires CleanBuffer(buf)
    ensures CleanBuffer(buf')
    ensures Join(buf') == ChunkLines(Join(buf), chunk).rest
    ensures lines == Tag(i, ChunkLines(Join(buf), chunk).lines)
  {
    ghost var b := Join(buf);
    CleanJoin(buf);
    buf', lines := buf, [];
    var pos := Find(chunk, 0);
    if pos < 0 {
      FindSpec(chunk, 0);
      if chunk != [] {
        // no separator, just more data
        UnterminatedChunk(b, chunk);
        JoinSnoc(buf', chunk);
        buf' := buf' + [chunk];
      } else if buf' != [] {
        // an empty chunk flushes the unterminated line
        lines := [Event(i, Join(buf'))];
        buf' := [];
      }
      TagOne(i, b);
      TagOne(i, []);
    } else {
      var end := pos + 1;
      FirstLine(b, chunk, pos);
      ghost var first := b + chunk[..end];
      if buf' != [] {
        JoinSnoc(buf', chunk[..end]);
        buf' := buf' + [chunk[..end]];
        lines := [Event(i, Join(buf'))];
        buf' := [];
      } else {
        assert first == chunk[..end];
        lines := [Event(i, chunk[..end])];
      }
      var rest, more := ScanLines(i, chunk, end);
      TagAppend(i, [first], SplitFrom(chunk, end).lines);
      TagOne(i, first);
      lines := lines + more;
      assert [] + rest == rest;
      buf' := buf' + rest;
    }
  }

  /** Lines 88-125: handle one chunk `chunk` read for index `i`. */
  method FeedChunk(buffers: Buffers, order: seq<int>, i: int, chunk: seq<byte>)
    returns (buffers': Buffers, order': seq<int>, lines: seq<Event>)
    requires Clean(buffers)
    ensures Clean(buffers')
    ensures Abstract(buffers', order') == Feed(Abstract(buffers, order), Event(i, chunk)).state
    ensures lines == Feed(Abstract(buffers, order), Event(i, chunk)).out
  {
    // `buffers[i]` creates an empty list for an index not seen before
    var buf: seq<seq<byte>> := if i in buffers then buffers[i] else [];
    order' := if i in buffers then order else order + [i];
    buf, lines := ChunkIntoLines(buf, i, chunk);
    buffers' := buffers[i := buf];
    AbstractGet(buffers, order, i);
    AbstractUpdate(buffers, order, order', i, buf);
  }

  /** Lines 127-131: after the input is exhausted, every non-empty buffer is
      yielded as one line, in the order the indices were first seen. */
  method FlushBuffers(buffers: Buffers, order: seq<int>) returns (lines: seq<Event>)
    requires Clean(buffers)
    requires forall k :: 0 <= k < |order| ==> order[k] in buffers
    ensures lines == FlushOrder(Abstract(buffers, order).buf, order)
  {
    ghost var pending := Abstract(buffers, order).buf;
    lines := [];
    for t := 0 to |order|
      invariant lines == FlushOrder(pending, order[..t])
    {
      var i := order[t];
      var buf := buffers[i];
      CleanJoin(buf);
      assert order[..t + 1][..t] == order[..t];
      if buf != [] {
        lines := lines + [Event(i, Join(buf))];
      }
    }
    assert order[..|order|] == order;
  }

  /** `parallel_lines` over a finite input: the lines it yields are those of
      `LineSpec.Lines`, so for every index they give back the bytes read for
      it, and each is a complete line or a non-empty unterminated tail. */
  method ParallelLines(input: seq<Event>) returns (out: seq<Event>)
    ensures out == Lines(input)
    ensures forall i :: DataFor(out, i) == DataFor(input, i)
    ensures forall k :: 0 <= k < |out| ==> IsEmitted(out[k].data)
  {
    var buffers: Buffers := map[];
    var order: seq<int> := [];
    out := [];
    for k := 0 to |input|
      invariant Clean(buffers)
      invariant Abstract(buffers, order) == Run(input[..k]).state
      invariant out == Run(input[..k]).out
    {
      var lines;
      RunSnoc(input[..k], input[k], input[..k + 1]);
      buffers, order, lines := FeedChunk(buffers, order, input[k].index, input[k].data);
      out := out + lines;
    }
    assert input[..|input|] == input;
    RunValid(input);
    ghost var p := Run(input).state;
    assert forall k :: 0 <= k < |order| ==> order[k] in buffers by {
      assert forall k :: 0 <= k < |p.order| ==> p.order[k] in p.buf;
    }
    var tail := FlushBuffers(buffers, order);
    out := out + tail;
    forall i ensures DataFor(out, i) == DataFor(input, i) {
      LinesRoundTrip(input, i);
    }
    LinesShape(input);
  }
}
