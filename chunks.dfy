/**
  Bytes, newline search and the `(index, bytes)` pairs that flow between the
  readiness multiplexer and the line reassembler of subproclines.py.
 */
module Chunks {

  /** One byte of a Python `bytes` object. */
  newtype byte = b: int | 0 <= b < 256

  /** The record separator `b'\n'`. */
  const NL: byte := 10

  /** An `(index, bytes)` pair: a chunk read from the stream registered at
      position `index`, or a line reassembled for that stream. */
  datatype Event = Event(index: int, data: seq<byte>)

  // Sequence facts, stated once so that the proofs that need them do not
  // have to rediscover them in a larger context.

  lemma LastSplit<T>(s: seq<T>)
    requires s != []
    ensures s == s[..|s| - 1] + [s[|s| - 1]]
  {
  }

  lemma AppendDropLast<T>(a: seq<T>, b: seq<T>)
    requires b != []
    ensures (a + b)[..|a + b| - 1] == a + b[..|b| - 1]
    ensures (a + b)[|a + b| - 1] == b[|b| - 1]
  {
  }

  lemma InDropLast<T>(s: seq<T>, x: T)
    requires s != []
    ensures x in s <==> x in s[..|s| - 1] || x == s[|s| - 1]
  {
    LastSplit(s);
  }

  lemma Pair<T>(x: T, y: T)
    ensures [x] + [y] == [x, y]
  {
  }

  lemma Triple<T>(x: T, y: T, z: T)
    ensures [x, y] + [z] == [x, y, z]
  {
  }

  /** `b''.join(frags)`; defined from the back so that appending a fragment
      to a buffer appends its bytes to the join. */
  function Join(frags: seq<seq<byte>>): seq<byte>
  {
    if frags == [] then [] else Join(frags[..|frags| - 1]) + frags[|frags| - 1]
  }

  lemma {:induction false} JoinAppend(a: seq<seq<byte>>, b: seq<seq<byte>>)
    ensures Join(a + b) == Join(a) + Join(b)
    decreases |b|
  {
    if b == [] {
      assert a + b == a;
    } else {
      AppendDropLast(a, b);
      JoinAppend(a, b[..|b| - 1]);
    }
  }

  lemma JoinOne(frag: seq<byte>)
    ensures Join([frag]) == frag
  {
    assert [frag][..0] == [];
  }

  /** `s.find(b'\n', start)`: the position of the first newline at or after
      `start`, or -1 when there is none (also when `start` is past the end). */
  function Find(s: seq<byte>, start: nat): (r: int)
    ensures -1 <= r < |s|
    ensures r != -1 ==> start <= r && s[r] == NL
    decreases |s| - start
  {
    if start >= |s| then -1
    else if s[start] == NL then start
    else Find(s, start + 1)
  }

  /** `Find` answers -1 exactly when there is no newline at or after `start`,
      and otherwise no newline lies between `start` and its answer. */
  lemma {:induction false} FindSpec(s: seq<byte>, start: nat)
    ensures Find(s, start) == -1 <==> forall k :: start <= k < |s| ==> s[k] != NL
    ensures forall k :: start <= k < Find(s, start) ==> s[k] != NL
    decreases |s| - start
  {
    if start < |s| && s[start] != NL {
      FindSpec(s, start + 1);
    }
  }

  /** `Find` stops at the first newline at or after `start`. */
  lemma FindAt(s: seq<byte>, start: nat, p: nat)
    requires start <= p < |s| && s[p] == NL
    requires forall k :: start <= k < p ==> s[k] != NL
    ensures Find(s, start) == p
  {
    FindSpec(s, start);
  }

  /** The events of `lines`, each tagged with `i`, in order. */
  function Tag(i: int, lines: seq<seq<byte>>): seq<Event>
  {
    seq(|lines|, k requires 0 <= k < |lines| => Event(i, lines[k]))
  }

  lemma TagOne(i: int, l: seq<byte>)
    ensures Tag(i, []) == []
    ensures Tag(i, [l]) == [Event(i, l)]
  {
  }

  lemma TagAppend(i: int, a: seq<seq<byte>>, b: seq<seq<byte>>)
    ensures Tag(i, a + b) == Tag(i, a) + Tag(i, b)
  {
    assert forall k :: 0 <= k < |a + b| ==> (a + b)[k] == if k < |a| then a[k] else b[k - |a|];
  }

  /** The bytes carried by the events tagged `i`, concatenated in order. */
  function DataFor(evs: seq<Event>, i: int): seq<byte>
  {
    if evs == [] then []
    else DataFor(evs[..|evs| - 1], i) + (if evs[|evs| - 1].index == i then evs[|evs| - 1].data else [])
  }

  lemma {:induction false} DataForAppend(a: seq<Event>, b: seq<Event>, i: int)
    ensures DataFor(a + b, i) == DataFor(a, i) + DataFor(b, i)
    decreases |b|
  {
    if b == [] {
      assert a + b == a;
    } else {
      AppendDropLast(a, b);
      DataForAppend(a, b[..|b| - 1], i);
    }
  }

  lemma DataForOne(e: Event, i: int)
    ensures DataFor([e], i) == if e.index == i then e.data else []
  {
    assert [e][..0] == [];
  }

  /** Tagging lines with `i` carries exactly their joined bytes for `i`, and nothing for any other index. */
  lemma {:induction false} DataForTag(i: int, lines: seq<seq<byte>>, j: int)
    ensures DataFor(Tag(i, lines), j) == if i == j then Join(lines) else []
    decreases |lines|
  {
    if lines != [] {
      var t := Tag(i, lines);
      assert t[..|t| - 1] == Tag(i, lines[..|lines| - 1]);
      DataForTag(i, lines[..|lines| - 1], j);
    }
  }
}
