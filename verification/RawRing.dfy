/** The bounded raw-byte ring with absolute offsets (src/backend/raw_capture.rs). */
module RawRing {
  import opened Common

  const RAW_RING_CAPACITY: nat := 262_144

  class RawCapture {
    var bytes: seq<Byte>
    var dropped: nat
    var total: nat
    /** Every byte ever absorbed since the last reset. */
    ghost var stream: seq<Byte>

    ghost predicate Valid()
      reads this
    {
      && total == |stream|
      && bytes == LastN(stream, RAW_RING_CAPACITY)
      && dropped + |bytes| == total
    }

    constructor ()
      ensures Valid() && stream == []
    {
      bytes, dropped, total, stream := [], 0, 0, [];
    }

    method Absorb(chunk: seq<Byte>)
      requires Valid()
      modifies this
      ensures Valid() && stream == old(stream) + chunk
    {
      total := total + |chunk|;
      for i := 0 to |chunk|
        invariant total == |old(stream)| + |chunk|
        invariant stream == old(stream) + chunk[..i]
        invariant bytes == LastN(stream, RAW_RING_CAPACITY) && dropped + |bytes| == |stream|
      {
        LastNPush(stream, chunk[i], RAW_RING_CAPACITY);
        assert chunk[..i + 1] == chunk[..i] + [chunk[i]];
        hide LastN;
        if |bytes| >= RAW_RING_CAPACITY {
          bytes := bytes[1..];
          dropped := dropped + 1;
        }
        bytes := bytes + [chunk[i]];
        stream := stream + [chunk[i]];
      }
      assert chunk[..|chunk|] == chunk;
    }

    method Clear()
      modifies this
      ensures Valid() && stream == []
    {
      bytes, dropped, total, stream := [], 0, 0, [];
    }
  }

  /** A window over the end of a stream, addressed by absolute offsets. */
  function Slice(window: seq<Byte>, total: nat, from: nat, to: nat): Option<seq<Byte>> {
    var start := total - |window|;
    if start <= from <= to <= total then Some(window[from - start..to - start]) else None
  }

  /**
   What was absorbed between two `total` snapshots is the matching slice of a
   later window exactly when the window still reaches back to the first one.
  */
  lemma SliceIsBracketed(before: seq<Byte>, during: seq<Byte>, after: seq<Byte>)
    ensures var stream := before + during + after;
            var window := LastN(stream, RAW_RING_CAPACITY);
            Slice(window, |stream|, |before|, |before + during|)
            == if |during + after| <= RAW_RING_CAPACITY then Some(during) else None
  {
    var stream := before + during + after;
    var window := LastN(stream, RAW_RING_CAPACITY);
    var start := |stream| - |window|;
    if |during + after| <= RAW_RING_CAPACITY {
      assert window[|before| - start..|before| + |during| - start] == during;
    }
  }
}
