/** Serialisation of a handle to bytes (`get_vec`) and back (`from_vec`): the two
    specification functions `Flatten` and `Pack`, their properties, and the two loops of the
    source proved against them. */
module Serialize {
  import opened Words
  import opened Handle

  function Min(a: int, b: int): int
  {
    if a <= b then a else b
  }

  /** The native-order bytes of `ws`, word after word. */
  function Flatten(e: Endian, ws: seq<u32>): seq<u8>
  {
    if ws == [] then [] else WordBytes(e, ws[0]) + Flatten(e, ws[1..])
  }

  /** A chunk of at most four bytes, completed with zero bytes at its end; this is the
      `[u8; 4]` array `from_vec` builds for each chunk. */
  function Pad(chunk: seq<u8>): (b: seq<u8>)
    requires |chunk| <= 4
    ensures |b| == 4
  {
    chunk + Zeros(4 - |chunk|)
  }

  /** The number of zero bytes `Pad` adds to the last chunk of `n` bytes. */
  function PadLen(n: nat): nat
  {
    (4 - n % 4) % 4
  }

  /** The words of `bs` read four bytes at a time, a short last chunk zero-filled. */
  function Pack(e: Endian, bs: seq<u8>): seq<u32>
    decreases |bs|
  {
    if |bs| == 0 then []
    else if |bs| <= 4 then [WordOf(e, Pad(bs))]
    else [WordOf(e, bs[..4])] + Pack(e, bs[4..])
  }

  lemma {:induction false} FlattenLength(e: Endian, ws: seq<u32>)
    ensures |Flatten(e, ws)| == 4 * |ws|
  {
    if ws != [] {
      FlattenLength(e, ws[1..]);
    }
  }

  /** Bytes `4i .. 4i+3` of the serialisation are the native-order bytes of word `i`. */
  lemma {:induction false} FlattenAt(e: Endian, ws: seq<u32>, i: int, k: int)
    requires 0 <= i < |ws| && 0 <= k < 4
    ensures |Flatten(e, ws)| == 4 * |ws|
    ensures Flatten(e, ws)[4 * i + k] == WordBytes(e, ws[i])[k]
  {
    FlattenLength(e, ws);
    if i > 0 {
      FlattenAt(e, ws[1..], i - 1, k);
      assert Flatten(e, ws)[4 * i + k] == Flatten(e, ws[1..])[4 * (i - 1) + k];
    }
  }

  lemma {:induction false} FlattenAppend(e: Endian, a: seq<u32>, b: seq<u32>)
    ensures Flatten(e, a + b) == Flatten(e, a) + Flatten(e, b)
  {
    if a == [] {
      assert a + b == b;
    } else {
      assert (a + b)[1..] == a[1..] + b;
      FlattenAppend(e, a[1..], b);
    }
  }

  /** `from_vec` yields `ceil(len / 4)` words. */
  lemma {:induction false} PackLength(e: Endian, bs: seq<u8>)
    ensures |Pack(e, bs)| == (|bs| + 3) / 4
    decreases |bs|
  {
    if |bs| > 4 {
      PackLength(e, bs[4..]);
    }
  }

  /** Word `k` is built from bytes `4k .. min(4k+4, len)`, zero-filled. */
  lemma {:induction false} PackAt(e: Endian, bs: seq<u8>, k: int)
    requires 0 <= k < (|bs| + 3) / 4
    ensures |Pack(e, bs)| == (|bs| + 3) / 4
    ensures Pack(e, bs)[k] == WordOf(e, Pad(bs[4 * k .. Min(4 * k + 4, |bs|)]))
    decreases |bs|
  {
    PackLength(e, bs);
    if |bs| > 4 {
      if k == 0 {
        assert Pad(bs[..4]) == bs[..4];
      } else {
        PackAt(e, bs[4..], k - 1);
        assert bs[4..][4 * (k - 1) .. Min(4 * (k - 1) + 4, |bs| - 4)]
            == bs[4 * k .. Min(4 * k + 4, |bs|)];
      }
    }
  }

  /** Packing a whole number of words and then more bytes packs the two parts apart. */
  lemma {:induction false} PackAppend(e: Endian, a: seq<u8>, b: seq<u8>)
    requires |a| % 4 == 0
    ensures Pack(e, a + b) == Pack(e, a) + Pack(e, b)
    decreases |a|
  {
    if |a| == 0 {
      assert a + b == b;
    } else if |a + b| <= 4 {
      assert |a| == 4 && b == [];
      assert a + b == a;
    } else {
      assert (a + b)[..4] == a[..4];
      assert (a + b)[4..] == a[4..] + b;
      if |a| == 4 {
        assert Pad(a) == a[..4];
        assert a[4..] + b == b;
      } else {
        PackAppend(e, a[4..], b);
      }
    }
  }

  /** Round trip on words: unpacking the serialisation gives back every word. */
  lemma {:induction false} PackFlatten(e: Endian, ws: seq<u32>)
    ensures Pack(e, Flatten(e, ws)) == ws
  {
    if ws != [] {
      var f := Flatten(e, ws);
      FlattenLength(e, ws[1..]);
      WordRoundTrip(e, ws[0]);
      if |ws| == 1 {
        assert Flatten(e, ws[1..]) == [];
        assert Pad(f) == f == WordBytes(e, ws[0]);
      } else {
        assert f[..4] == WordBytes(e, ws[0]);
        assert f[4..] == Flatten(e, ws[1..]);
        PackFlatten(e, ws[1..]);
      }
    }
  }

  /** Round trip on bytes: serialising the packed words gives back `bs` followed by the
      zero bytes that filled its last chunk, so nothing is lost exactly when the length is
      a multiple of 4. */
  lemma {:induction false} FlattenPack(e: Endian, bs: seq<u8>)
    ensures Flatten(e, Pack(e, bs)) == bs + Zeros(PadLen(|bs|))
    decreases |bs|
  {
    if |bs| == 0 {
      assert bs + Zeros(0) == [];
    } else if |bs| <= 4 {
      var w := WordOf(e, Pad(bs));
      BytesRoundTrip(e, Pad(bs));
      assert Flatten(e, [w]) == WordBytes(e, w) + Flatten(e, []);
      assert PadLen(|bs|) == 4 - |bs|;
    } else {
      var w := WordOf(e, bs[..4]);
      var rest := Pack(e, bs[4..]);
      BytesRoundTrip(e, bs[..4]);
      FlattenPack(e, bs[4..]);
      assert ([w] + rest)[1..] == rest;
      assert Flatten(e, [w] + rest) == bs[..4] + Flatten(e, rest);
      assert PadLen(|bs| - 4) == PadLen(|bs|);
      assert bs == bs[..4] + bs[4..];
    }
  }

  /** One iteration of `from_vec`'s loop: the chunk at a word boundary `i` adds one word. */
  lemma PackStep(e: Endian, src: seq<u8>, i: int)
    requires 0 <= i < |src| && i % 4 == 0
    ensures Pack(e, src[..Min(i + 4, |src|)])
         == Pack(e, src[..i]) + [WordOf(e, Pad(src[i .. Min(i + 4, |src|)]))]
  {
    var chunk := src[i .. Min(i + 4, |src|)];
    PackAppend(e, src[..i], chunk);
    assert src[..i] + chunk == src[..Min(i + 4, |src|)];
  }

  /** A byte string of whole words survives `from_vec` followed by `get_vec` unchanged. */
  lemma {:induction false} AlignedBytesRoundTrip(e: Endian, bs: seq<u8>)
    requires |bs| % 4 == 0
    ensures Flatten(e, Pack(e, bs)) == bs
  {
    FlattenPack(e, bs);
    assert bs + Zeros(0) == bs;
  }

  /** The reservation `from_vec` makes covers every word it pushes. */
  lemma {:induction false} ReserveCoversPack(e: Endian, bs: seq<u8>)
    requires |bs| <= ISIZE_MAX
    ensures |Pack(e, bs)| <= GetAlignedFhSize(|bs|)
    ensures |bs| % 4 == 0 ==> |Pack(e, bs)| + 1 == GetAlignedFhSize(|bs|)
  {
    PackLength(e, bs);
  }

  /** `get_vec`: the handle's words flattened to native-order bytes. */
  method GetVec(e: Endian, h: LinuxFileHandle) returns (result: seq<u8>)
    ensures result == Flatten(e, h.v)
    ensures |result| == 4 * |h.v|
    ensures forall i, k :: 0 <= i < |h.v| && 0 <= k < 4 ==>
              result[4 * i + k] == WordBytes(e, h.v[i])[k]
  {
    result := [];
    var i := 0;
    while i < |h.v|
      invariant 0 <= i <= |h.v|
      invariant result == Flatten(e, h.v[..i])
    {
      var bytes := WordBytes(e, h.v[i]);
      var j := 0;
      while j < 4
        invariant 0 <= j <= 4
        invariant result == Flatten(e, h.v[..i]) + bytes[..j]
      {
        result := result + [bytes[j]];
        j := j + 1;
      }
      FlattenAppend(e, h.v[..i], [h.v[i]]);
      assert h.v[..i + 1] == h.v[..i] + [h.v[i]];
      assert Flatten(e, [h.v[i]]) == bytes + Flatten(e, []);
      i := i + 1;
    }
    assert h.v[..i] == h.v;
    forall i, k | 0 <= i < |h.v| && 0 <= k < 4
      ensures |result| == 4 * |h.v| && result[4 * i + k] == WordBytes(e, h.v[i])[k]
    {
      FlattenAt(e, h.v, i, k);
    }
    FlattenLength(e, h.v);
  }

  /** `from_vec`: the handle whose words are `src` read in chunks of four bytes; its mount
      is unknown. The requires is the bound Rust puts on every slice length. */
  method FromVec(e: Endian, src: seq<u8>) returns (h: LinuxFileHandle)
    requires |src| <= ISIZE_MAX
    ensures h.v == Pack(e, src) && h.mntId == UNKNOWN_MOUNT
    ensures |h.v| == (|src| + 3) / 4
    ensures |h.v| <= GetAlignedFhSize(|src|)
    ensures GetMntId(h) == None
  {
    var reserved := GetAlignedFhSize(|src|);
    var result: seq<u32> := [];
    var i := 0;
    while i < |src|
      invariant 0 <= i <= |src|
      invariant i % 4 == 0 || i == |src|
      invariant result == Pack(e, src[..i])
      invariant |result| == (i + 3) / 4 <= reserved
    {
      var chunk := src[i .. Min(i + 4, |src|)];
      var arr := new u8[4](_ => 0);
      var count := 0;
      while count < |chunk|
        invariant 0 <= count <= |chunk|
        invariant forall t :: 0 <= t < count ==> arr[t] == chunk[t]
        invariant forall t :: count <= t < 4 ==> arr[t] == 0
      {
        arr[count] := chunk[count];
        count := count + 1;
      }
      assert arr[..] == Pad(chunk);
      PackStep(e, src, i);
      result := result + [WordOf(e, arr[..])];
      i := i + |chunk|;
    }
    assert src[..i] == src;
    h := LinuxFileHandle(result, UNKNOWN_MOUNT);
    PackLength(e, src);
  }

  /** Serialising a handle and reading it back keeps its words and forgets its mount,
      whatever that mount was. */
  lemma SerializationRoundTrip(e: Endian, h: LinuxFileHandle)
    ensures GetSlice(LinuxFileHandle(Pack(e, Flatten(e, h.v)), UNKNOWN_MOUNT)) == GetSlice(h)
    ensures GetMntId(LinuxFileHandle(Pack(e, Flatten(e, h.v)), UNKNOWN_MOUNT)) == None
  {
    PackFlatten(e, h.v);
  }
}
