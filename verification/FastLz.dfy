/** The Tuya learn stream: a FastLZ-compatible token format, its decompressor with the doubling
    back-reference copy, and the literal-only compressor. */
module FastLz {
  import opened Wrappers
  import opened Payload
  import opened Integers
  import TuyaChunk

  // ---------- the format ----------

  datatype Token =
    | Literal(bytes: seq<Byte>)
    | Copy(length: nat, distance: nat)

  /** The tokens the format can express. */
  predicate Expressible(t: Token) {
    match t
    case Literal(bytes) => 1 <= |bytes| <= 32
    case Copy(length, distance) => 3 <= length <= 264 && 1 <= distance <= 8192
  }

  /** The bytes that stand for a token. */
  function TokenBytes(t: Token): (r: seq<Byte>)
    requires Expressible(t)
    ensures |r| >= 2
  {
    match t
    case Literal(bytes) => [|bytes| - 1] + bytes
    case Copy(length, distance) =>
      var hi, lo := (distance - 1) / 256, (distance - 1) % 256;
      if length < 9 then [(length - 2) * 32 + hi, lo]
      else [7 * 32 + hi, length - 9, lo]
  }

  function StreamBytes(ts: seq<Token>): seq<Byte>
    requires forall t :: t in ts ==> Expressible(t)
  {
    if ts == [] then [] else TokenBytes(ts[0]) + StreamBytes(ts[1..])
  }

  // ---------- what the format means ----------

  /** The reference meaning of a copy: one byte at a time, each read from a buffer that may already
      contain bytes the same copy wrote. */
  function CopyBytewise(out: seq<Byte>, start: nat, count: nat): (r: seq<Byte>)
    requires start < |out|
    ensures |r| == |out| + count
    decreases count
  {
    if count == 0 then out else CopyBytewise(out + [out[start]], start + 1, count - 1)
  }

  function Apply(out: seq<Byte>, t: Token): seq<Byte>
    requires t.Copy? ==> 1 <= t.distance <= |out|
  {
    match t
    case Literal(bytes) => out + bytes
    case Copy(length, distance) => CopyBytewise(out, |out| - distance, length)
  }

  /** Every token is expressible and every copy stays inside the output written before it. */
  predicate WellFormed(ts: seq<Token>, out: seq<Byte>)
    decreases |ts|
  {
    ts == [] || (
      && Expressible(ts[0])
      && (ts[0].Copy? ==> ts[0].distance <= |out|)
      && WellFormed(ts[1..], Apply(out, ts[0])))
  }

  function Meaning(ts: seq<Token>, out: seq<Byte>): seq<Byte>
    requires WellFormed(ts, out)
    decreases |ts|
  {
    if ts == [] then out else Meaning(ts[1..], Apply(out, ts[0]))
  }

  // ---------- the decoder ----------

  /** One token from the front of the stream, with the number of bytes it takes. */
  function ReadToken(data: seq<Byte>): Result<(Token, nat), CodecError>
    requires data != []
  {
    var code: int := data[0] as int / 32;
    var low: int := data[0] as int % 32;
    if code == 0 then
      if 2 + low > |data| then Err(LiteralLength)
      else Ok((Literal(data[1..2 + low]), 2 + low))
    else if code == 7 then
      if |data| < 2 then Err(ExtendedLength)
      else if |data| < 3 then Err(MissingDistance)
      else Ok((Copy(9 + data[1] as int, low * 256 + data[2] as int + 1), 3))
    else if |data| < 2 then Err(MissingDistance)
    else Ok((Copy(code + 2, low * 256 + data[1] as int + 1), 2))
  }

  function Decompressed(data: seq<Byte>, out: seq<Byte>): Result<seq<Byte>, CodecError>
    decreases |data|
  {
    if data == [] then Ok(out)
    else
      match ReadToken(data)
      case Err(e) => Err(e)
      case Ok((t, n)) =>
        if t.Copy? && t.distance > |out| then Err(BackrefWindow)
        else Decompressed(data[n..], Apply(out, t))
  }

  // ---------- the doubling copy ----------

  /** `out` extends `base`, and every appended byte equals the one a copy distance before it. */
  ghost predicate Repeats(out: seq<Byte>, base: seq<Byte>, start: nat)
    requires start < |base|
  {
    && |base| <= |out|
    && out[..|base|] == base
    && forall k :: |base| <= k < |out| ==> out[k] == out[k - (|base| - start)]
  }

  lemma {:induction false} BytewiseRepeats(base: seq<Byte>, start: nat, count: nat)
    requires start < |base|
    ensures Repeats(CopyBytewise(base, start, count), base, start)
    decreases count
  {
    if count > 0 {
      var next := base + [base[start]];
      var r := CopyBytewise(base, start, count);
      BytewiseRepeats(next, start + 1, count - 1);
      assert r[..|base|] == r[..|next|][..|base|];
      assert r[|base|] == r[..|next|][|base|] && r[start] == r[..|next|][start];
    }
  }

  lemma {:induction false} RepeatsDetermined(a: seq<Byte>, b: seq<Byte>, base: seq<Byte>, start: nat, n: nat)
    requires start < |base| && Repeats(a, base, start) && Repeats(b, base, start)
    requires n <= |a| && n <= |b|
    ensures a[..n] == b[..n]
    decreases n
  {
    if n > |base| {
      RepeatsDetermined(a, b, base, start, n - 1);
      var k := n - 1 - (|base| - start);
      assert a[k] == a[..n - 1][k] && b[k] == b[..n - 1][k];
      assert a[..n] == a[..n - 1] + [a[n - 1]] && b[..n] == b[..n - 1] + [b[n - 1]];
    } else {
      assert a[..n] == a[..|base|][..n] && b[..n] == b[..|base|][..n];
    }
  }

  /** Going back a whole number of distances finds the same byte. */
  lemma {:induction false} ShiftBack(out: seq<Byte>, base: seq<Byte>, start: nat, d: nat, i: nat, q: nat)
    requires start < |base| && Repeats(out, base, start) && d == |base| - start
    requires start <= i && i + d * q < |out|
    ensures out[i + d * q] == out[i]
    decreases q
  {
    if q > 0 {
      assert d * q == d * (q - 1) + d && d * (q - 1) >= 0;
      ShiftBack(out, base, start, d, i, q - 1);
    }
  }

  lemma Decompose(j: nat, d: nat) returns (q: nat, m: nat)
    requires d > 0
    ensures j == d * q + m && d * (q + 1) == d * q + d && m < d && m == j % d
  {
    q, m := j / d, j % d;
  }

  /** Appended byte `j` of a copy is byte `j mod distance` of the window it starts from. */
  lemma CopyClosedForm(base: seq<Byte>, start: nat, count: nat, j: nat)
    requires start < |base| && j < count
    ensures CopyBytewise(base, start, count)[|base| + j] == base[start + j % (|base| - start)]
  {
    var d, r := |base| - start, CopyBytewise(base, start, count);
    var q, m := Decompose(j, d);
    BytewiseRepeats(base, start, count);
    ShiftBack(r, base, start, d, start + m, q + 1);
    assert r[start + m] == r[..|base|][start + m];
  }

  /** Re-slicing the grown window continues the repetition, because the window is a whole number of
      distances long. */
  lemma SliceRepeats(out: seq<Byte>, base: seq<Byte>, start: nat, d: nat, p: nat, chunk: seq<Byte>)
    requires start < |base| && Repeats(out, base, start) && d == |base| - start
    requires p >= 1 && |out| - start == d * p
    requires |chunk| <= |out| - start && chunk == out[start..start + |chunk|]
    ensures Repeats(out + chunk, base, start)
  {
    var grown := out + chunk;
    assert grown[..|base|] == out[..|base|];
    forall k | |out| <= k < |grown|
      ensures grown[k] == grown[k - d]
    {
      var j := k - |out|;
      assert grown[k] == out[start + j];
      if j < d {
        assert d * (p - 1) == d * p - d;
        ShiftBack(out, base, start, d, start + j, p - 1);
      } else {
        assert grown[k - d] == chunk[j - d] == out[start + j - d];
      }
    }
  }

  lemma {:induction false} PowerOfTwoMonotone(a: nat, b: nat)
    requires a <= b
    ensures PowerOfTwo(a) <= PowerOfTwo(b)
    decreases b
  {
    if a < b {
      PowerOfTwoMonotone(a, b - 1);
    }
  }

  /** A window of `d * p` bytes holds at least `p - 1` bytes beyond its first `d`. */
  lemma WindowSize(d: nat, p: nat)
    requires d >= 1 && p >= 1
    ensures p - 1 <= d * p - d && d * p >= 1 && d * (2 * p) == 2 * (d * p)
  {
    assert (d - 1) * (p - 1) >= 0;
  }

  /** The source's copy loop: `start` never moves, the slice is taken again from the grown buffer,
      so the copied amount doubles each round. The result is the byte-by-byte copy, the "empty
      chunk" error cannot occur, and a copy of fewer than `2^k` bytes takes at most `k` rounds, so
      one the format can express takes at most nine. */
  method DoublingCopy(out0: seq<Byte>, start: nat, count: nat)
    returns (r: Result<seq<Byte>, CodecError>, ghost rounds: nat)
    requires start < |out0|
    ensures r == Ok(CopyBytewise(out0, start, count))
    ensures forall k: nat :: count < PowerOfTwo(k) ==> rounds <= k
    ensures count <= 264 ==> rounds <= 9
  {
    var out, left := out0, count;
    rounds := 0;
    ghost var d, p := |out0| - start, 1;
    while left > 0
      invariant 0 <= left <= count
      invariant Repeats(out, out0, start) && |out| == |out0| + count - left
      invariant p == PowerOfTwo(rounds)
      invariant left > 0 ==> |out| - start == d * p
      invariant rounds > 0 ==> PowerOfTwo(rounds - 1) <= count
      decreases left
    {
      WindowSize(d, p);
      var chunk := out[start..Min(start + left, |out|)];
      if chunk == [] {
        return Err(EmptyBackref), rounds;
      }
      SliceRepeats(out, out0, start, d, p, chunk);
      out := out + chunk;
      left := left - |chunk|;
      rounds, p := rounds + 1, 2 * p;
    }
    BytewiseRepeats(out0, start, count);
    RepeatsDetermined(out, CopyBytewise(out0, start, count), out0, start, |out|);
    assert out[..|out|] == out && CopyBytewise(out0, start, count)[..|out|] == CopyBytewise(out0, start, count);
    forall k: nat | count < PowerOfTwo(k)
      ensures rounds <= k
    {
      if rounds > k {
        PowerOfTwoMonotone(k, rounds - 1);
      }
    }
    assert PowerOfTwo(9) == 512;
    r := Ok(out);
  }

  // ---------- the source's loops ----------

  lemma FrontTokenStep(rest: seq<Byte>, tail: seq<Byte>, out: seq<Byte>, t: Token, n: nat)
    requires rest != [] && 0 < n <= |rest| && Expressible(t) && ReadToken(rest) == Ok((t, n)) && tail == rest[n..]
    ensures Decompressed(rest, out) == if t.Copy? && t.distance > |out| then Err(BackrefWindow)
                                       else Decompressed(tail, Apply(out, t))
  {
  }

  lemma TokenStep(data: seq<Byte>, pos: nat, out: seq<Byte>, t: Token, next: nat)
    requires pos < next <= |data| && Expressible(t) && ReadToken(data[pos..]) == Ok((t, next - pos))
    ensures Decompressed(data[pos..], out) == if t.Copy? && t.distance > |out| then Err(BackrefWindow)
                                              else Decompressed(data[next..], Apply(out, t))
  {
    TailOfTail(data, pos, next);
    FrontTokenStep(data[pos..], data[next..], out, t, next - pos);
  }

  lemma TailOfTail(data: seq<Byte>, pos: nat, next: nat)
    requires pos <= next <= |data|
    ensures data[pos..][next - pos..] == data[next..]
  {
  }

  lemma LiteralAt(data: seq<Byte>, pos: nat)
    requires pos < |data| && data[pos] as int / 32 == 0
    ensures var end := pos + 2 + data[pos] as int % 32;
      ReadToken(data[pos..]) == if end > |data| then Err(LiteralLength)
                                else Ok((Literal(data[pos + 1..end]), end - pos))
  {
    var end := pos + 2 + data[pos] as int % 32;
    if end <= |data| {
      assert data[pos..][1..end - pos] == data[pos + 1..end];
    }
  }

  /** The two or three bytes of a back-reference: optional extended length, then distance. */
  method ReadBackref(data: seq<Byte>, from: nat) returns (r: Result<(Token, nat), CodecError>)
    requires from < |data| && data[from] as int / 32 != 0
    ensures r.Err? ==> ReadToken(data[from..]) == Err(r.error)
    ensures r.Ok? ==> r.value.0.Copy? && from < r.value.1 <= |data|
                      && Expressible(r.value.0)
                      && ReadToken(data[from..]) == Ok((r.value.0, r.value.1 - from))
  {
    var lengthCode, distanceHi := data[from] as int / 32, data[from] as int % 32;
    var pos := from + 1;
    if lengthCode == 7 {
      if pos >= |data| {
        return Err(ExtendedLength);
      }
      lengthCode := lengthCode + data[pos] as int;
      pos := pos + 1;
    }
    if pos >= |data| {
      return Err(MissingDistance);
    }
    var distance := distanceHi * 256 + data[pos] as int + 1;
    r := Ok((Copy(lengthCode + 2, distance), pos + 1));
  }

  /** One turn of the decompressor's loop. */
  method DecompressToken(data: seq<Byte>, pos: nat, out: seq<Byte>)
    returns (r: Result<(seq<Byte>, nat), CodecError>)
    requires pos < |data|
    ensures r.Err? ==> Decompressed(data[pos..], out) == Err(r.error)
    ensures r.Ok? ==> pos < r.value.1 <= |data|
                      && Decompressed(data[pos..], out) == Decompressed(data[r.value.1..], r.value.0)
  {
    if data[pos] as int / 32 == 0 {
      LiteralAt(data, pos);
      var end := pos + 1 + (data[pos] as int % 32 + 1);
      if end > |data| {
        return Err(LiteralLength);
      }
      TokenStep(data, pos, out, Literal(data[pos + 1..end]), end);
      return Ok((out + data[pos + 1..end], end));
    }
    var backref := ReadBackref(data, pos);
    if backref.Err? {
      return Err(backref.error);
    }
    var (t, next) := backref.value;
    TokenStep(data, pos, out, t, next);
    if t.distance > |out| {
      return Err(BackrefWindow);
    }
    var copied, _ := DoublingCopy(out, |out| - t.distance, t.length);
    return Ok((copied.value, next));
  }

  method FastLzDecompress(data: seq<Byte>) returns (r: Result<seq<Byte>, CodecError>)
    ensures r == Decompressed(data, [])
  {
    var pos, out := 0, [];
    assert data[0..] == data;
    while pos < |data|
      invariant 0 <= pos <= |data|
      invariant Decompressed(data[pos..], out) == Decompressed(data, [])
    {
      var turn := DecompressToken(data, pos, out);
      if turn.Err? {
        return Err(turn.error);
      }
      out, pos := turn.value.0, turn.value.1;
    }
    r := Ok(out);
  }

  /** The tokens of the literal-only compressor: literals of 32 bytes, the last one possibly shorter. */
  function LiteralTokens(p: seq<Byte>): (ts: seq<Token>)
    ensures forall t :: t in ts ==> Expressible(t) && t.Literal?
  {
    if p == [] then []
    else if |p| <= 32 then [Literal(p)]
    else [Literal(p[..32])] + LiteralTokens(p[32..])
  }

  /** They spell the chunk coder's blocks, */
  lemma {:induction false} LiteralTokensAreBlocks(p: seq<Byte>)
    ensures StreamBytes(LiteralTokens(p)) == TuyaChunk.Frame(p)
    decreases |p|
  {
    if |p| > 32 {
      LiteralTokensAreBlocks(p[32..]);
    } else if p != [] {
      assert p[..|p|] == p && p[|p|..] == [];
    }
  }

  /** and mean the bytes they were cut from. */
  lemma {:induction false} LiteralTokensMean(p: seq<Byte>, out: seq<Byte>)
    ensures WellFormed(LiteralTokens(p), out) && Meaning(LiteralTokens(p), out) == out + p
    decreases |p|
  {
    if |p| > 32 {
      LiteralTokensMean(p[32..], out + p[..32]);
      assert out + p[..32] + p[32..] == out + p;
    } else if p == [] {
      assert out + p == out;
    }
  }

  /** The literal-only compressor; the skipped empty chunk cannot occur inside the range. */
  method CompressLiteral(data: seq<Byte>) returns (out: seq<Byte>)
    ensures out == StreamBytes(LiteralTokens(data))
  {
    out := [];
    var i := 0;
    assert data[0..] == data && [] + TuyaChunk.Frame(data) == TuyaChunk.Frame(data);
    while i < |data|
      invariant 0 <= i <= |data|
      invariant out + TuyaChunk.Frame(data[i..]) == TuyaChunk.Frame(data)
    {
      var next := Min(i + 32, |data|);
      var block := [next - i - 1] + data[i..next];
      TuyaChunk.FrameStep(out, data, i, next, block);
      out := out + block;
      i := next;
    }
    assert data[i..] == [];
    LiteralTokensAreBlocks(data);
  }

  // ---------- accepted streams are exactly the well-formed token lists ----------

  lemma ReadsBackToken(t: Token, rest: seq<Byte>)
    requires Expressible(t)
    ensures ReadToken(TokenBytes(t) + rest) == Ok((t, |TokenBytes(t)|))
    ensures (TokenBytes(t) + rest)[|TokenBytes(t)|..] == rest
  {
    var data := TokenBytes(t) + rest;
    if t.Literal? {
      assert data[1..1 + |t.bytes|] == t.bytes;
    } else {
      var hi, lo := (t.distance - 1) / 256, (t.distance - 1) % 256;
      assert 0 <= hi < 32;
    }
  }

  lemma TokenReadIsExpressible(data: seq<Byte>)
    requires data != [] && ReadToken(data).Ok?
    ensures var (t, n) := ReadToken(data).value;
      Expressible(t) && 2 <= n <= |data| && data[..n] == TokenBytes(t)
  {
    var (t, n) := ReadToken(data).value;
    if t.Literal? {
      assert [data[0]] + data[1..n] == data[..n];
    } else {
      assert (t.distance - 1) / 256 == data[0] as int % 32;
      assert (t.distance - 1) % 256 == data[n - 1] as int;
      assert data[..n] == if n == 2 then [data[0], data[1]] else [data[0], data[1], data[2]];
    }
  }

  lemma {:induction false} WellFormedIsExpressible(ts: seq<Token>, out: seq<Byte>)
    requires WellFormed(ts, out)
    ensures forall t :: t in ts ==> Expressible(t)
    decreases |ts|
  {
    if ts != [] {
      WellFormedIsExpressible(ts[1..], Apply(out, ts[0]));
      assert forall t :: t in ts ==> t == ts[0] || t in ts[1..];
    }
  }

  /** Completeness: every well-formed token list is accepted and yields its meaning. */
  lemma {:induction false} AcceptsWellFormed(ts: seq<Token>, out: seq<Byte>)
    requires WellFormed(ts, out)
    requires forall t :: t in ts ==> Expressible(t)
    ensures Decompressed(StreamBytes(ts), out) == Ok(Meaning(ts, out))
    decreases |ts|
  {
    if ts != [] {
      ReadsBackToken(ts[0], StreamBytes(ts[1..]));
      AcceptsWellFormed(ts[1..], Apply(out, ts[0]));
    }
  }

  /** Soundness: an accepted stream is some well-formed token list, and what comes out is its meaning. */
  lemma {:induction false} AcceptedIsWellFormed(data: seq<Byte>, out: seq<Byte>) returns (ts: seq<Token>)
    requires Decompressed(data, out).Ok?
    ensures WellFormed(ts, out) && (forall t :: t in ts ==> Expressible(t))
    ensures StreamBytes(ts) == data && Decompressed(data, out) == Ok(Meaning(ts, out))
    decreases |data|
  {
    if data == [] {
      ts := [];
    } else {
      TokenReadIsExpressible(data);
      var (t, n) := ReadToken(data).value;
      var more := AcceptedIsWellFormed(data[n..], Apply(out, t));
      ts := [t] + more;
      PrependToken(t, more, out);
      assert data[..n] + data[n..] == data;
    }
  }

  lemma PrependToken(t: Token, more: seq<Token>, out: seq<Byte>)
    requires Expressible(t) && (t.Copy? ==> t.distance <= |out|)
    requires WellFormed(more, Apply(out, t)) && (forall u :: u in more ==> Expressible(u))
    ensures WellFormed([t] + more, out) && (forall u :: u in [t] + more ==> Expressible(u))
    ensures StreamBytes([t] + more) == TokenBytes(t) + StreamBytes(more)
    ensures Meaning([t] + more, out) == Meaning(more, Apply(out, t))
  {
    assert ([t] + more)[1..] == more;
  }

  /** The format is unambiguous: no two token lists share a byte stream. */
  lemma {:induction false} StreamBytesInjective(ts: seq<Token>, us: seq<Token>)
    requires forall t :: t in ts ==> Expressible(t)
    requires forall u :: u in us ==> Expressible(u)
    requires StreamBytes(ts) == StreamBytes(us)
    ensures ts == us
  {
    if ts != [] && us != [] {
      ReadsBackToken(ts[0], StreamBytes(ts[1..]));
      ReadsBackToken(us[0], StreamBytes(us[1..]));
      StreamBytesInjective(ts[1..], us[1..]);
      assert ts == [ts[0]] + ts[1..] && us == [us[0]] + us[1..];
    }
  }

  ghost predicate Denotes(ts: seq<Token>, data: seq<Byte>, result: seq<Byte>) {
    && WellFormed(ts, [])
    && (forall t :: t in ts ==> Expressible(t))
    && StreamBytes(ts) == data
    && Meaning(ts, []) == result
  }

  /** The decoder accepts a stream exactly when it spells a well-formed token list, that list is the
      only one, and the output is what the list means. */
  lemma DecoderCorrect(data: seq<Byte>, result: seq<Byte>)
    ensures Decompressed(data, []) == Ok(result) <==> exists ts :: Denotes(ts, data, result)
    ensures forall ts, us, other :: Denotes(ts, data, result) && Denotes(us, data, other) ==> ts == us && result == other
  {
    if Decompressed(data, []) == Ok(result) {
      var ts := AcceptedIsWellFormed(data, []);
      assert Denotes(ts, data, result);
    }
    forall ts | Denotes(ts, data, result)
      ensures Decompressed(data, []) == Ok(result)
    {
      AcceptsWellFormed(ts, []);
    }
    forall ts, us, other | Denotes(ts, data, result) && Denotes(us, data, other)
      ensures ts == us && result == other
    {
      StreamBytesInjective(ts, us);
    }
  }

  /** Expansion is bounded: three bytes of input yield at most 264 bytes of output. */
  lemma {:induction false} OutputBound(data: seq<Byte>, out: seq<Byte>)
    requires Decompressed(data, out).Ok?
    ensures |Decompressed(data, out).value| <= |out| + 88 * |data|
    decreases |data|
  {
    if data != [] {
      TokenReadIsExpressible(data);
      var (t, n) := ReadToken(data).value;
      assert |Apply(out, t)| <= |out| + 88 * n;
      OutputBound(data[n..], Apply(out, t));
    }
  }

  /** The bound is reached: one literal byte, then copies of 264 at distance 1, 88 bytes per byte. */
  lemma OutputBoundIsTight()
    ensures Decompressed([0, 7, 7 * 32, 255, 0], []).Ok?
    ensures |Decompressed([0, 7, 7 * 32, 255, 0], []).value| == 1 + 88 * 3
  {
    var data: seq<Byte> := [0, 7, 7 * 32, 255, 0];
    assert ReadToken(data) == Ok((Literal([7]), 2)) by { assert data[1..2] == [7]; }
    assert data[2..] == [7 * 32, 255, 0];
    assert ReadToken(data[2..]) == Ok((Copy(264, 1), 3));
    assert data[2..][3..] == [];
  }

  // ---------- agreement with the chunk coder ----------

  /** Every block header the chunk reader meets is below 32. */
  predicate LiteralHeaders(data: seq<Byte>) {
    data == [] || (
      && data[0] as int < 32
      && (2 + data[0] as int <= |data| ==> LiteralHeaders(data[2 + data[0] as int..])))
  }

  lemma LiteralHeaderRead(data: seq<Byte>, n: int)
    requires data != [] && n == data[0] as int + 1 && n <= 32
    ensures ReadToken(data) == if 1 + n > |data| then Err(LiteralLength) else Ok((Literal(data[1..1 + n]), 1 + n))
  {
  }

  lemma LiteralHeaderStep(data: seq<Byte>, out: seq<Byte>, n: int)
    requires data != [] && n == data[0] as int + 1 && n <= 32
    ensures Decompressed(data, out) == if 1 + n > |data| then Err(LiteralLength)
                                       else Decompressed(data[1 + n..], out + data[1..1 + n])
  {
    LiteralHeaderRead(data, n);
  }

  /** On such streams both decoders extract the same bytes, or both refuse. */
  lemma {:induction false} AgreesWithChunks(data: seq<Byte>, out: seq<Byte>)
    requires LiteralHeaders(data)
    ensures match (Decompressed(data, out), TuyaChunk.Unframe(data, out))
            case (Ok(a), Ok(b)) => a == b
            case (Err(_), Err(_)) => true
            case _ => false
    decreases |data|
  {
    if data != [] {
      var n: int := data[0] as int + 1;
      LiteralHeaderStep(data, out, n);
      if 1 + n <= |data| {
        AgreesWithChunks(data[1 + n..], out + data[1..1 + n]);
      }
    }
  }

  lemma {:induction false} FramesHaveLiteralHeaders(p: seq<Byte>)
    ensures LiteralHeaders(TuyaChunk.Frame(p))
    decreases |p|
  {
    if p != [] {
      var n := if |p| < TuyaChunk.BLOCK then |p| else TuyaChunk.BLOCK;
      assert TuyaChunk.Frame(p)[1 + n..] == TuyaChunk.Frame(p[n..]);
      FramesHaveLiteralHeaders(p[n..]);
    }
  }

  /** The decompressor undoes the compressor on every input. */
  lemma DecompressInvertsCompress(p: seq<Byte>)
    ensures Decompressed(StreamBytes(LiteralTokens(p)), []) == Ok(p)
  {
    LiteralTokensMean(p, []);
    AcceptsWellFormed(LiteralTokens(p), []);
    assert [] + p == p;
  }
}
