/** The Tuya TS1201 coder: little-endian words cut into length-prefixed blocks of at most 32 bytes. */
module TuyaChunk {
  import opened Wrappers
  import opened Payload
  import opened Integers
  import opened Sequences

  const BLOCK := 32

  /** Blocks of at most 32 bytes, each preceded by its length minus one. */
  function Frame(p: seq<Byte>): seq<Byte> {
    if p == [] then []
    else
      var n := if |p| < BLOCK then |p| else BLOCK;
      [n - 1] + p[..n] + Frame(p[n..])
  }

  /** The bytes collected so far, followed by the blocks of the rest of the stream. */
  function Unframe(data: seq<Byte>, flat: seq<Byte>): Result<seq<Byte>, CodecError>
    decreases |data|
  {
    if data == [] then Ok(flat)
    else
      var n: int := data[0] as int + 1;
      if 1 + n > |data| then Err(ChunkLength)
      else Unframe(data[1 + n..], flat + data[1..1 + n])
  }

  function Encode(raw: seq<int>): seq<Byte> {
    Frame(WordBytes(raw))
  }

  function Decode(data: seq<Byte>): Result<seq<int>, CodecError> {
    if data == [] then Err(EmptyPayload)
    else
      match Unframe(data, [])
      case Err(e) => Err(e)
      case Ok(flat) => if |flat| % 2 != 0 then Err(OddByteCount) else Ok(Words(flat))
  }

  // ---------- the source's loops ----------

  lemma FrameStep(done: seq<Byte>, p: seq<Byte>, i: nat, next: nat, block: seq<Byte>)
    requires i < |p| && next == Min(i + BLOCK, |p|) && block == [next - i - 1] + p[i..next]
    ensures done + Frame(p[i..]) == done + block + Frame(p[next..])
  {
    var rest, n := p[i..], next - i;
    assert rest[..n] == p[i..next] && rest[n..] == p[next..];
    assert Frame(rest) == block + Frame(p[next..]);
    Reassociate(done, block, Frame(p[next..]));
  }

  method FrameBlocks(p: seq<Byte>) returns (encoded: seq<Byte>)
    ensures encoded == Frame(p)
  {
    encoded := [];
    var i := 0;
    assert p[0..] == p && [] + Frame(p) == Frame(p);
    while i < |p|
      invariant 0 <= i <= |p|
      invariant encoded + Frame(p[i..]) == Frame(p)
    {
      var next := Min(i + BLOCK, |p|);
      var block := [next - i - 1] + p[i..next];
      FrameStep(encoded, p, i, next, block);
      encoded := encoded + block;
      i := next;
    }
    assert p[i..] == [];
  }

  method EncodeRawToTuya(raw: seq<int>) returns (encoded: seq<Byte>)
    ensures encoded == Encode(raw)
  {
    var payload := FlattenTimings(raw);
    encoded := FrameBlocks(payload);
  }

  method DecodeTuyaToRaw(data: seq<Byte>) returns (r: Result<seq<int>, CodecError>)
    ensures r == Decode(data)
  {
    if data == [] {
      return Err(EmptyPayload);
    }
    var pos, flat := 0, [];
    assert data[0..] == data;
    while pos < |data|
      invariant 0 <= pos <= |data|
      invariant Unframe(data[pos..], flat) == Unframe(data, [])
    {
      ghost var rest := data[pos..];
      var n: int := data[pos] as int + 1;
      pos := pos + 1;
      if pos + n > |data| {
        return Err(ChunkLength);
      }
      assert rest[1..1 + n] == data[pos..pos + n] && rest[1 + n..] == data[pos + n..];
      flat := flat + data[pos..pos + n];
      pos := pos + n;
    }
    if |flat| % 2 != 0 {
      return Err(OddByteCount);
    }
    var timings := RebuildTimings(flat);
    r := Ok(timings);
  }

  // ---------- round trip ----------

  lemma {:induction false} UnframeInvertsFrame(p: seq<Byte>, flat: seq<Byte>)
    ensures Unframe(Frame(p), flat) == Ok(flat + p)
    decreases |p|
  {
    if p == [] {
      assert flat + p == flat;
    } else {
      var n := if |p| < BLOCK then |p| else BLOCK;
      var data := Frame(p);
      assert data[1..1 + n] == p[..n] && data[1 + n..] == Frame(p[n..]);
      UnframeInvertsFrame(p[n..], flat + p[..n]);
      assert (flat + p[..n]) + p[n..] == flat + p;
    }
  }

  /** Decoding an encoded list gives it back with magnitudes clamped and signs rebuilt; so it gives
      the list itself exactly when the list alternates and fits 16 bits. */
  lemma RoundTrip(raw: seq<int>)
    requires raw != []
    ensures Decode(Encode(raw)) == Ok(Saturated(raw))
    ensures Decode(Encode(raw)) == Ok(raw) <==> Alternates(raw) && FitsU16(raw)
  {
    UnframeInvertsFrame(WordBytes(raw), []);
    assert [] + WordBytes(raw) == WordBytes(raw);
    WordsInvertWordBytes(raw);
    SaturatedIsIdentity(raw);
  }

  /** One byte of header for every 32 bytes begun. */
  lemma {:induction false} FrameSize(p: seq<Byte>)
    ensures |Frame(p)| == |p| + (|p| + 31) / 32
    decreases |p|
  {
    if |p| > 32 {
      FrameSize(p[32..]);
    }
  }

  // ---------- what the decoder accepts ----------

  /** Blocks of one to 256 bytes. */
  predicate Blocks(bs: seq<seq<Byte>>) {
    forall b :: b in bs ==> 1 <= |b| <= 256
  }

  function Spelled(bs: seq<seq<Byte>>): seq<Byte>
    requires Blocks(bs)
  {
    if bs == [] then [] else [|bs[0]| - 1] + bs[0] + Spelled(bs[1..])
  }

  function Joined(bs: seq<seq<Byte>>): seq<Byte> {
    if bs == [] then [] else bs[0] + Joined(bs[1..])
  }

  lemma {:induction false} UnframesBlocks(bs: seq<seq<Byte>>, flat: seq<Byte>)
    requires Blocks(bs)
    ensures Unframe(Spelled(bs), flat) == Ok(flat + Joined(bs))
    decreases |bs|
  {
    if bs == [] {
      assert flat + [] == flat;
    } else {
      var b, rest := bs[0], Spelled(bs[1..]);
      var data := [|b| - 1] + b + rest;
      assert data[1..1 + |b|] == b && data[1 + |b|..] == rest;
      UnframesBlocks(bs[1..], flat + b);
      Reassociate(flat, b, Joined(bs[1..]));
    }
  }

  lemma FirstBlock(data: seq<Byte>, flat: seq<Byte>) returns (b: seq<Byte>, rest: seq<Byte>)
    requires data != [] && Unframe(data, flat).Ok?
    ensures 1 <= |b| <= 256 && data == [|b| - 1] + b + rest
    ensures Unframe(data, flat) == Unframe(rest, flat + b)
  {
    var n: int := data[0] as int + 1;
    b, rest := data[1..1 + n], data[1 + n..];
  }

  lemma {:induction false} UnframedIsBlocks(data: seq<Byte>, flat: seq<Byte>) returns (bs: seq<seq<Byte>>)
    requires Unframe(data, flat).Ok?
    ensures Blocks(bs) && Spelled(bs) == data && Unframe(data, flat) == Ok(flat + Joined(bs))
    decreases |data|
  {
    if data == [] {
      bs := [];
      assert flat + [] == flat;
    } else {
      var b, rest := FirstBlock(data, flat);
      var more := UnframedIsBlocks(rest, flat + b);
      bs := [b] + more;
      assert bs[1..] == more;
      Reassociate(flat, b, Joined(more));
    }
  }

  ghost predicate Carried(bs: seq<seq<Byte>>, data: seq<Byte>, raw: seq<int>) {
    && Blocks(bs) && Spelled(bs) == data
    && |Joined(bs)| % 2 == 0 && Words(Joined(bs)) == raw
  }

  /** The decoder accepts exactly non-empty sequences of blocks of up to 256 bytes, each after its length
      less one, that hold an even number of bytes in all; and reads those as words. */
  lemma DecodesExactlyBlocks(data: seq<Byte>, raw: seq<int>)
    ensures Decode(data) == Ok(raw) <==> data != [] && exists bs :: Carried(bs, data, raw)
  {
    if Decode(data) == Ok(raw) {
      var bs := UnframedIsBlocks(data, []);
      assert [] + Joined(bs) == Joined(bs);
      assert Carried(bs, data, raw);
    }
    forall bs | data != [] && Carried(bs, data, raw)
      ensures Decode(data) == Ok(raw)
    {
      UnframesBlocks(bs, []);
      assert [] + Joined(bs) == Joined(bs);
    }
  }

  /** The two other ways a non-empty payload can end: cut off inside a block, or an odd number of bytes. */
  lemma Refusals(data: seq<Byte>)
    requires data != []
    ensures Decode(data) == Err(OddByteCount) <==> exists bs :: Blocks(bs) && Spelled(bs) == data && |Joined(bs)| % 2 != 0
    ensures Decode(data) == Err(ChunkLength) <==> !exists bs :: Blocks(bs) && Spelled(bs) == data
  {
    if Unframe(data, []).Ok? {
      var bs := UnframedIsBlocks(data, []);
      assert [] + Joined(bs) == Joined(bs);
    }
    forall bs | Blocks(bs) && Spelled(bs) == data
      ensures Unframe(data, []) == Ok(Joined(bs))
    {
      UnframesBlocks(bs, []);
      assert [] + Joined(bs) == Joined(bs);
    }
    UnframeError(data, []);
  }

  lemma {:induction false} UnframeError(data: seq<Byte>, flat: seq<Byte>)
    ensures Unframe(data, flat).Err? ==> Unframe(data, flat) == Err(ChunkLength)
    decreases |data|
  {
    if data != [] && 2 + data[0] as int <= |data| {
      UnframeError(data[2 + data[0] as int..], flat + data[1..2 + data[0] as int]);
    }
  }
}
