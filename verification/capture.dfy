/** The chunk loop of `download_stream`: the live response is a sequence of
    chunks, each stamped with the clock reading taken when the loop looks at
    it; the loop stops at the first chunk read after the segment duration has
    elapsed, without writing that chunk. */
module Capture {

  /** One chunk of the response body and the clock reading (in seconds) at
      which the loop checks the elapsed time for it. */
  datatype Arrival = Arrival(at: int, chunk: seq<bv8>)

  /** The duration check: the elapsed time strictly exceeds the duration. */
  predicate Overdue(a: Arrival, start: int, duration: int)
  {
    a.at - start > duration
  }

  /** Concatenation of a sequence of chunks. */
  function Flatten(chunks: seq<seq<bv8>>): (r: seq<bv8>)
    ensures |chunks| == 0 ==> r == []
    decreases |chunks|
  {
    if |chunks| == 0 then [] else chunks[0] + Flatten(chunks[1..])
  }

  /** The chunk payloads of a stream, in order. */
  function Chunks(stream: seq<Arrival>): (r: seq<seq<bv8>>)
    ensures |r| == |stream|
    ensures forall i :: 0 <= i < |stream| ==> r[i] == stream[i].chunk
  {
    seq(|stream|, i requires 0 <= i < |stream| => stream[i].chunk)
  }

  /** The chunks that are not empty, in order. */
  function NonEmpty(chunks: seq<seq<bv8>>): (r: seq<seq<bv8>>)
    ensures |r| <= |chunks|
    ensures forall i :: 0 <= i < |r| ==> r[i] != []
    decreases |chunks|
  {
    if |chunks| == 0 then []
    else if chunks[0] == [] then NonEmpty(chunks[1..])
    else [chunks[0]] + NonEmpty(chunks[1..])
  }

  /** The index of the first overdue chunk, or the length of the stream when
      none is overdue: the number of chunks that pass the duration check. When
      one is overdue the loop also reads it from the stream, then breaks. */
  function CutIndex(stream: seq<Arrival>, start: int, duration: int): (k: nat)
    ensures k <= |stream|
    ensures forall i :: 0 <= i < k ==> !Overdue(stream[i], start, duration)
    ensures k < |stream| ==> Overdue(stream[k], start, duration)
    decreases |stream|
  {
    if |stream| == 0 then 0
    else if Overdue(stream[0], start, duration) then 0
    else 1 + CutIndex(stream[1..], start, duration)
  }

  lemma {:induction false} FlattenAppend(a: seq<seq<bv8>>, b: seq<seq<bv8>>)
    ensures Flatten(a + b) == Flatten(a) + Flatten(b)
    decreases |a|
  {
    if |a| == 0 {
      assert a + b == b;
    } else {
      assert (a + b)[1..] == a[1..] + b;
      FlattenAppend(a[1..], b);
    }
  }

  lemma {:induction false} NonEmptyAppend(a: seq<seq<bv8>>, b: seq<seq<bv8>>)
    ensures NonEmpty(a + b) == NonEmpty(a) + NonEmpty(b)
    decreases |a|
  {
    if |a| == 0 {
      assert a + b == b;
    } else {
      assert (a + b)[1..] == a[1..] + b;
      NonEmptyAppend(a[1..], b);
    }
  }

  /** Skipping empty chunks does not change the bytes written. */
  lemma {:induction false} FlattenNonEmpty(chunks: seq<seq<bv8>>)
    ensures Flatten(NonEmpty(chunks)) == Flatten(chunks)
    decreases |chunks|
  {
    if |chunks| > 0 {
      FlattenNonEmpty(chunks[1..]);
      if chunks[0] != [] {
        assert NonEmpty(chunks) == [chunks[0]] + NonEmpty(chunks[1..]);
        FlattenAppend([chunks[0]], NonEmpty(chunks[1..]));
        assert Flatten([chunks[0]]) == chunks[0];
      } else {
        assert chunks[0] + Flatten(chunks[1..]) == Flatten(chunks[1..]);
      }
    }
  }

  /** The bytes of a prefix of the stream are a prefix of all its bytes. */
  lemma FlattenPrefix(stream: seq<Arrival>, k: nat)
    requires k <= |stream|
    ensures Flatten(Chunks(stream[..k])) <= Flatten(Chunks(stream))
  {
    assert Chunks(stream) == Chunks(stream[..k]) + Chunks(stream[k..]);
    FlattenAppend(Chunks(stream[..k]), Chunks(stream[k..]));
  }

  /** The loop of `download_stream`: for each chunk, first the duration check,
      which ends the loop, then the write of a non-empty chunk. Returns the
      file contents and the chunks passed to the individual writes. */
  method CaptureSegment(stream: seq<Arrival>, start: int, duration: int)
    returns (file: seq<bv8>, writes: seq<seq<bv8>>)
    // exactly the chunks before the first overdue one are written, in order
    ensures file == Flatten(Chunks(stream[..CutIndex(stream, start, duration)]))
    ensures writes == NonEmpty(Chunks(stream[..CutIndex(stream, start, duration)]))
    ensures Flatten(writes) == file
    // the file is a prefix of the whole stream
    ensures file <= Flatten(Chunks(stream))
    // a stream that ends before the cut-off is written in full
    ensures (forall i :: 0 <= i < |stream| ==> !Overdue(stream[i], start, duration))
      ==> file == Flatten(Chunks(stream))
  {
    file := [];
    writes := [];
    var i := 0;
    while i < |stream|
      invariant 0 <= i <= |stream|
      invariant forall j :: 0 <= j < i ==> !Overdue(stream[j], start, duration)
      invariant file == Flatten(Chunks(stream[..i]))
      invariant writes == NonEmpty(Chunks(stream[..i]))
    {
      var a := stream[i];
      if a.at - start > duration {
        break;
      }
      assert Chunks(stream[..i + 1]) == Chunks(stream[..i]) + [a.chunk];
      FlattenAppend(Chunks(stream[..i]), [a.chunk]);
      NonEmptyAppend(Chunks(stream[..i]), [a.chunk]);
      assert Flatten([a.chunk]) == a.chunk;
      if |a.chunk| > 0 {
        file := file + a.chunk;
        writes := writes + [a.chunk];
      }
      i := i + 1;
    }
    assert i == CutIndex(stream, start, duration);
    FlattenNonEmpty(Chunks(stream[..i]));
    FlattenPrefix(stream, i);
    assert stream[..|stream|] == stream;
  }

  /** Clock readings that never go backwards. */
  predicate Chronological(stream: seq<Arrival>)
  {
    forall i, j :: 0 <= i <= j < |stream| ==> stream[i].at <= stream[j].at
  }

  /** The chunks whose elapsed time is within the duration. */
  function OnTime(stream: seq<Arrival>, start: int, duration: int): (r: seq<Arrival>)
    ensures forall i :: 0 <= i < |r| ==> !Overdue(r[i], start, duration)
    decreases |stream|
  {
    if |stream| == 0 then []
    else if Overdue(stream[0], start, duration) then OnTime(stream[1..], start, duration)
    else [stream[0]] + OnTime(stream[1..], start, duration)
  }

  /** When the clock never goes backwards, the chunks consumed before the cut
      are exactly the chunks that arrived within the duration. */
  lemma {:induction false} ChronologicalCut(stream: seq<Arrival>, start: int, duration: int)
    requires Chronological(stream)
    ensures stream[..CutIndex(stream, start, duration)] == OnTime(stream, start, duration)
    decreases |stream|
  {
    if |stream| > 0 {
      if Overdue(stream[0], start, duration) {
        OnTimeNoneAfterOverdue(stream, start, duration);
      } else {
        ChronologicalCut(stream[1..], start, duration);
        assert stream[..CutIndex(stream, start, duration)]
            == [stream[0]] + stream[1..][..CutIndex(stream[1..], start, duration)];
      }
    }
  }

  /** Once the first chunk is overdue, every later one is too. */
  lemma {:induction false} OnTimeNoneAfterOverdue(stream: seq<Arrival>, start: int, duration: int)
    requires Chronological(stream)
    requires |stream| > 0 && Overdue(stream[0], start, duration)
    ensures OnTime(stream, start, duration) == []
    decreases |stream|
  {
    if |stream| > 1 {
      assert stream[0].at <= stream[1].at;
      OnTimeNoneAfterOverdue(stream[1..], start, duration);
    }
  }

  /** Every chunk of `n` bytes: the chunks together hold `|chunks| * n` bytes. */
  lemma {:induction false} FlattenUniformLength(chunks: seq<seq<bv8>>, n: nat)
    requires forall i :: 0 <= i < |chunks| ==> |chunks[i]| == n
    ensures |Flatten(chunks)| == |chunks| * n
    decreases |chunks|
  {
    if |chunks| > 0 {
      FlattenUniformLength(chunks[1..], n);
      assert |chunks| * n == n + (|chunks| - 1) * n;
    }
  }

  /** One chunk of `n` bytes per second starting at the segment start, and the
      stream lasting past the duration: the segment holds the chunks at elapsed
      seconds 0 through `duration`, that is `duration + 1` chunks. */
  lemma SteadyStreamSize(stream: seq<Arrival>, start: int, duration: nat, n: nat)
    requires |stream| > duration + 1
    requires forall i :: 0 <= i < |stream| ==> stream[i].at == start + i && |stream[i].chunk| == n
    ensures CutIndex(stream, start, duration) == duration + 1
    ensures |Flatten(Chunks(stream[..CutIndex(stream, start, duration)]))| == (duration + 1) * n
  {
    var k := CutIndex(stream, start, duration);
    assert Overdue(stream[duration + 1], start, duration);
    FlattenUniformLength(Chunks(stream[..k]), n);
  }
}
