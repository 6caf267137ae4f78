/** `captureOutputTail`: the last bytes of a stream, whatever its chunks. The source caps at 16 MiB; any cap will do. */
module OutputTail {
  import opened Basics

  function Concat(chunks: seq<seq<Byte>>): seq<Byte> {
    if chunks == [] then [] else Concat(chunks[..|chunks| - 1]) + chunks[|chunks| - 1]
  }

  lemma {:induction false} ConcatSplit(a: seq<seq<Byte>>, b: seq<seq<Byte>>)
    ensures Concat(a + b) == Concat(a) + Concat(b)
  {
    if b == [] {
      assert a + b == a;
    } else {
      assert (a + b)[..|a + b| - 1] == a + b[..|b| - 1];
      ConcatSplit(a, b[..|b| - 1]);
    }
  }

  lemma ConcatFirst(chunks: seq<seq<Byte>>)
    requires chunks != []
    ensures Concat(chunks) == chunks[0] + Concat(chunks[1..])
  {
    assert chunks == [chunks[0]] + chunks[1..];
    ConcatSplit([chunks[0]], chunks[1..]);
    var one: seq<seq<Byte>> := [chunks[0]];
    assert one[..0] == [];
    assert Concat(one) == [] + chunks[0];
  }

  lemma ConcatNext(chunks: seq<seq<Byte>>, n: nat)
    requires n < |chunks|
    ensures Concat(chunks[..n + 1]) == Concat(chunks[..n]) + chunks[n]
  {
    assert chunks[..n + 1][..n] == chunks[..n];
  }

  lemma ConcatPrefix(chunks: seq<seq<Byte>>, n: nat)
    requires n <= |chunks|
    ensures |Concat(chunks[..n])| <= |Concat(chunks)|
  {
    ConcatSplit(chunks[..n], chunks[n..]);
    assert chunks[..n] + chunks[n..] == chunks;
  }

  /** The last `cap` elements, or all of them. */
  function Tail(bytes: seq<Byte>, cap: nat): seq<Byte> {
    if |bytes| <= cap then bytes else bytes[|bytes| - cap..]
  }

  /** It is what is left when as little as possible is dropped in front. */
  lemma TailIsLongest(bytes: seq<Byte>, dropped: nat, cap: nat)
    requires dropped <= |bytes|
    ensures |bytes| - dropped <= cap ==> |Tail(bytes, cap)| >= |bytes| - dropped
    ensures bytes[dropped..] == Tail(bytes, cap) <==> dropped == if |bytes| > cap then |bytes| - cap else 0
  {
  }

  lemma TailOfTail(a: seq<Byte>, b: seq<Byte>, cap: nat)
    ensures Tail(Tail(a, cap) + b, cap) == Tail(a + b, cap)
    ensures Tail(a + Tail(b, cap), cap) == Tail(a + b, cap)
  {
    if |b| > cap {
      assert (a + b)[|a| + |b| - cap..] == b[|b| - cap..];
      assert (Tail(a, cap) + b)[|Tail(a, cap)| + |b| - cap..] == b[|b| - cap..];
      assert (a + Tail(b, cap))[|a|..] == Tail(b, cap);
    } else if |a| + |b| > cap {
      assert Tail(b, cap) == b;
      if |a| > cap {
        var kept := a[|a| - cap..];
        assert (a + b)[|a| + |b| - cap..] == kept[|b|..] + b == (kept + b)[|b|..];
      }
    }
  }

  /** Drops the `overflow` oldest bytes from the queue: whole chunks first, then part of one. */
  method Evict(queue: seq<seq<Byte>>, retained: nat, cap: nat, discarded: nat)
    returns (chunks: seq<seq<Byte>>, retainedBytes: nat, discardedBytes: nat)
    requires retained == |Concat(queue)|
    ensures Concat(chunks) == Tail(Concat(queue), cap) && retainedBytes == |Concat(chunks)|
    ensures discardedBytes + retainedBytes == discarded + retained
  {
    chunks, retainedBytes, discardedBytes := queue, retained, discarded;
    while retainedBytes > cap
      invariant retainedBytes == |Concat(chunks)|
      invariant discardedBytes + retainedBytes == discarded + retained
      invariant Tail(Concat(chunks), cap) == Tail(Concat(queue), cap)
      invariant |Concat(queue)| <= cap ==> chunks == queue
      invariant |Concat(queue)| > cap ==> |Concat(chunks)| >= cap
      decreases |chunks|, retainedBytes
    {
      var overflowBytes := retainedBytes - cap;
      ConcatFirst(chunks);
      var firstChunk := chunks[0];
      if |firstChunk| <= overflowBytes {
        discardedBytes := discardedBytes + |firstChunk|;
        retainedBytes := retainedBytes - |firstChunk|;
        chunks := chunks[1..];
        continue;
      }
      discardedBytes := discardedBytes + overflowBytes;
      ghost var before := chunks;
      chunks := chunks[0 := firstChunk[overflowBytes..]];
      ConcatFirst(chunks);
      assert chunks[1..] == before[1..];
      retainedBytes := retainedBytes - overflowBytes;
    }
  }

  lemma PushedTail(queue: seq<seq<Byte>>, read: seq<Byte>, chunk: seq<Byte>, cap: nat)
    requires Concat(queue) == Tail(read, cap)
    ensures Concat(queue + [Tail(chunk, cap)]) == Tail(read, cap) + Tail(chunk, cap)
    ensures Tail(Concat(queue + [Tail(chunk, cap)]), cap) == Tail(read + chunk, cap)
  {
    var longer := queue + [Tail(chunk, cap)];
    assert longer[..|queue|] == queue;
    TailOfTail(read, Tail(chunk, cap), cap);
    TailOfTail(read, chunk, cap);
  }

  method CaptureOutputTail(stream: Option<seq<seq<Byte>>>, cap: nat) returns (bytes: seq<Byte>, truncatedBytes: nat)
    ensures stream.None? ==> bytes == [] && truncatedBytes == 0
    ensures stream.Some? ==> bytes == Tail(Concat(stream.value), cap)
    ensures stream.Some? ==> truncatedBytes + |bytes| == |Concat(stream.value)|
  {
    if stream.None? { return [], 0; }
    var input := stream.value;
    var chunks: seq<seq<Byte>> := [];
    var retainedBytes, discardedBytes := 0, 0;
    assert input[..0] == chunks;
    hide Concat;
    for n := 0 to |input|
      invariant retainedBytes == |Concat(chunks)|
      invariant Concat(chunks) == Tail(Concat(input[..n]), cap)
      invariant discardedBytes + retainedBytes == |Concat(input[..n])|
    {
      PushedTail(chunks, Concat(input[..n]), input[n], cap);
      ConcatNext(input, n);
      var retainedChunk := input[n];
      if |retainedChunk| > cap {
        discardedBytes := discardedBytes + |retainedChunk| - cap;
        retainedChunk := retainedChunk[|retainedChunk| - cap..];
      }
      chunks := chunks + [retainedChunk];
      retainedBytes := retainedBytes + |retainedChunk|;
      chunks, retainedBytes, discardedBytes := Evict(chunks, retainedBytes, cap, discardedBytes);
    }
    assert input[..|input|] == input;
    bytes := JoinChunks(chunks, retainedBytes);
    return bytes, discardedBytes;
  }

  method JoinChunks(chunks: seq<seq<Byte>>, retainedBytes: nat) returns (bytes: seq<Byte>)
    requires retainedBytes == |Concat(chunks)|
    ensures bytes == Concat(chunks)
  {
    var output := new Byte[retainedBytes];
    var offset := 0;
    for n := 0 to |chunks|
      invariant offset == |Concat(chunks[..n])| <= output.Length
      invariant output[..offset] == Concat(chunks[..n])
    {
      ConcatNext(chunks, n);
      ConcatPrefix(chunks, n + 1);
      Set(output, chunks[n], offset);
      offset := offset + |chunks[n]|;
    }
    assert chunks[..|chunks|] == chunks;
    return output[..];
  }

  /** `output.set(chunk, offset)` */
  method Set(output: array<Byte>, chunk: seq<Byte>, offset: nat)
    requires offset + |chunk| <= output.Length
    modifies output
    ensures output[..offset + |chunk|] == old(output[..offset]) + chunk
  {
    forall i | 0 <= i < |chunk| {
      output[offset + i] := chunk[i];
    }
  }
}
