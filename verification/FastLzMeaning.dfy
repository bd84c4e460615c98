/** What an accepted stream means, without the decoder's own buffer operations: each token describes a
    stretch of the finished output, a copy by repeating what stands a distance before it. */
module FastLzMeaning {
  import opened Wrappers
  import opened Payload
  import opened FastLz

  /** The tokens describe the output from position `pos` to its end. */
  ghost predicate Describes(ts: seq<Token>, result: seq<Byte>, pos: nat)
    decreases |ts|
  {
    if ts == [] then pos == |result|
    else
      match ts[0]
      case Literal(bytes) =>
        pos + |bytes| <= |result| && result[pos..pos + |bytes|] == bytes && Describes(ts[1..], result, pos + |bytes|)
      case Copy(length, distance) =>
        && 1 <= distance <= pos && pos + length <= |result|
        && RepeatsBack(result, pos, length, distance)
        && Describes(ts[1..], result, pos + length)
  }

  /** Every byte of the stretch equals the one `distance` before it. */
  ghost predicate RepeatsBack(result: seq<Byte>, pos: nat, length: nat, distance: nat)
    requires 1 <= distance <= pos && pos + length <= |result|
  {
    forall k :: pos <= k < pos + length ==> result[k] == result[k - distance]
  }

  /** A copy leaves the output so far in place and appends bytes each equal to the one a distance back
      from the end, those it has written itself included. */
  lemma CopyRepeatsFromEnd(out: seq<Byte>, length: nat, distance: nat)
    requires 1 <= distance <= |out|
    ensures var r := Apply(out, Copy(length, distance));
      && |r| == |out| + length && r[..|out|] == out
      && RepeatsBack(r, |out|, length, distance)
  {
    BytewiseRepeats(out, |out| - distance, length);
  }

  /** Nothing else does. */
  lemma CopyIsDetermined(out: seq<Byte>, length: nat, distance: nat, r: seq<Byte>)
    requires 1 <= distance <= |out| && |r| == |out| + length && r[..|out|] == out
    requires RepeatsBack(r, |out|, length, distance)
    ensures r == Apply(out, Copy(length, distance))
  {
    var start := |out| - distance;
    var c := Apply(out, Copy(length, distance));
    BytewiseRepeats(out, start, length);
    assert Repeats(r, out, start);
    RepeatsDetermined(r, c, out, start, |r|);
    assert r[..|r|] == r && c[..|r|] == c;
  }

  lemma LiteralAppends(out: seq<Byte>, bytes: seq<Byte>)
    ensures Apply(out, Literal(bytes)) == out + bytes
  {
  }

  // ---------- the meaning of token lists ----------

  /** What the tokens leave is in front of what they add, and they describe what they add. */
  lemma {:induction false} MeaningIsDescribed(ts: seq<Token>, out: seq<Byte>)
    requires WellFormed(ts, out)
    ensures var r := Meaning(ts, out);
      |out| <= |r| && r[..|out|] == out && Describes(ts, r, |out|)
    decreases |ts|
  {
    if ts != [] {
      var next, r := Apply(out, ts[0]), Meaning(ts, out);
      MeaningIsDescribed(ts[1..], next);
      FrontStays(ts[0], out, next, r);
    }
  }

  lemma FrontStays(t: Token, out: seq<Byte>, next: seq<Byte>, r: seq<Byte>)
    requires Expressible(t) && (t.Copy? ==> t.distance <= |out|)
    requires next == Apply(out, t) && |next| <= |r| && r[..|next|] == next
    ensures |out| <= |r| && r[..|out|] == out
    ensures t.Literal? ==> |next| == |out| + |t.bytes| && r[|out|..|next|] == t.bytes
    ensures t.Copy? ==> |next| == |out| + t.length && RepeatsBack(r, |out|, t.length, t.distance)
  {
    if t.Copy? {
      CopyRepeatsFromEnd(out, t.length, t.distance);
      forall k | |out| <= k < |next|
        ensures r[k] == r[k - t.distance]
      {
        assert r[k] == r[..|next|][k] && r[k - t.distance] == r[..|next|][k - t.distance];
      }
    } else {
      assert r[|out|..|next|] == r[..|next|][|out|..];
    }
    assert r[..|out|] == r[..|next|][..|out|];
  }

  /** Conversely, an output the tokens describe is the one they mean. */
  lemma {:induction false} DescribedIsMeaning(ts: seq<Token>, out: seq<Byte>, r: seq<Byte>)
    requires forall t :: t in ts ==> Expressible(t)
    requires |out| <= |r| && r[..|out|] == out && Describes(ts, r, |out|)
    ensures WellFormed(ts, out) && Meaning(ts, out) == r
    decreases |ts|
  {
    if ts == [] {
      assert r[..|out|] == r;
    } else {
      NextFront(ts[0], out, r);
      DescribedIsMeaning(ts[1..], Apply(out, ts[0]), r);
    }
  }

  lemma NextFront(t: Token, out: seq<Byte>, r: seq<Byte>)
    requires |out| <= |r| && r[..|out|] == out
    requires t.Literal? ==> |out| + |t.bytes| <= |r| && r[|out|..|out| + |t.bytes|] == t.bytes
    requires t.Copy? ==> 1 <= t.distance <= |out| && |out| + t.length <= |r| && RepeatsBack(r, |out|, t.length, t.distance)
    ensures var n := |out| + if t.Literal? then |t.bytes| else t.length;
      n <= |r| && r[..n] == Apply(out, t)
  {
    if t.Copy? {
      var front := r[..|out| + t.length];
      assert front[..|out|] == out;
      CopyIsDetermined(out, t.length, t.distance, front);
    } else {
      assert r[..|out| + |t.bytes|] == r[..|out|] + r[|out|..|out| + |t.bytes|];
    }
  }

  ghost predicate Spells(ts: seq<Token>, data: seq<Byte>) {
    (forall t :: t in ts ==> Expressible(t)) && StreamBytes(ts) == data
  }

  /** The decoder yields a result exactly when the stream spells tokens that describe it from its first
      byte to its last. */
  lemma DecodesWhatIsDescribed(data: seq<Byte>, result: seq<Byte>)
    ensures Decompressed(data, []) == Ok(result) <==> exists ts :: Spells(ts, data) && Describes(ts, result, 0)
  {
    if Decompressed(data, []) == Ok(result) {
      var ts := AcceptedIsWellFormed(data, []);
      MeaningIsDescribed(ts, []);
      assert Spells(ts, data) && Describes(ts, result, 0);
    }
    forall ts | Spells(ts, data) && Describes(ts, result, 0)
      ensures Decompressed(data, []) == Ok(result)
    {
      assert result[..0] == [];
      DescribedIsMeaning(ts, [], result);
      AcceptsWellFormed(ts, []);
    }
  }

  // ---------- the layout of tokens ----------

  /** Three literal bytes, then three bytes from distance one: the last literal byte again and again. */
  lemma RunSample()
    ensures Decompressed([2, 1, 2, 3, 32, 0], []) == Ok([1, 2, 3, 3, 3, 3])
  {
    var ts, data: seq<Byte> := [Literal([1, 2, 3]), Copy(3, 1)], [2, 1, 2, 3, 32, 0];
    var result: seq<Byte> := [1, 2, 3, 3, 3, 3];
    assert ts[1..] == [Copy(3, 1)] && ts[1..][1..] == [];
    assert StreamBytes(ts[1..]) == [32, 0];
    assert Describes(ts[1..][1..], result, 6);
    assert Describes(ts[1..], result, 3);
    assert result[0..3] == [1, 2, 3];
    DescribedIsDecoded(ts, data, result);
  }

  lemma DescribedIsDecoded(ts: seq<Token>, data: seq<Byte>, result: seq<Byte>)
    requires Spells(ts, data) && Describes(ts, result, 0)
    ensures Decompressed(data, []) == Ok(result)
  {
    DecodesWhatIsDescribed(data, result);
  }

  /** The two layouts of a copy: length code in the top three bits of the first byte, the high part of
      the distance in the other five, then an extra length byte if the code is seven, then the low part
      of the distance. */
  lemma CopyLayout(code: nat, high: nat, more: Byte, low: Byte)
    requires 1 <= code <= 6 && high < 32
    ensures TokenBytes(Copy(2 + code, 256 * high + low + 1)) == [32 * code + high, low]
    ensures TokenBytes(Copy(9 + more, 256 * high + low + 1)) == [224 + high, more, low]
  {
  }

  // ---------- refusals ----------

  /** Why the decoder stops at what is left of a stream after `n` bytes of output, if it does. */
  function Cause(rest: seq<Byte>, n: nat): Option<CodecError>
    requires rest != []
  {
    var head: int := rest[0];
    if head < 32 then (if |rest| < 2 + head then Some(LiteralLength) else None)
    else if head >= 224 then
      if |rest| == 1 then Some(ExtendedLength)
      else if |rest| == 2 then Some(MissingDistance)
      else if (head - 224) * 256 + rest[2] as int + 1 > n then Some(BackrefWindow)
      else None
    else
      if |rest| == 1 then Some(MissingDistance)
      else if head % 32 * 256 + rest[1] as int + 1 > n then Some(BackrefWindow)
      else None
  }

  lemma StepCause(rest: seq<Byte>, out: seq<Byte>)
    requires rest != []
    ensures match ReadToken(rest)
            case Err(e) => Cause(rest, |out|) == Some(e)
            case Ok((t, n)) => Cause(rest, |out|) == if t.Copy? && t.distance > |out| then Some(BackrefWindow) else None
  {
  }

  /** The decoder refuses a stream only at the first place where it cannot go on, after a well-formed
      beginning, and the error names the cause. */
  lemma {:induction false} StopsForCause(data: seq<Byte>, out: seq<Byte>) returns (ts: seq<Token>, rest: seq<Byte>)
    requires Decompressed(data, out).Err?
    ensures WellFormed(ts, out) && (forall t :: t in ts ==> Expressible(t))
    ensures StreamBytes(ts) + rest == data && rest != []
    ensures Cause(rest, |Meaning(ts, out)|) == Some(Decompressed(data, out).error)
    decreases |data|
  {
    if Cause(data, |out|).Some? {
      StepCause(data, out);
      ts, rest := [], data;
      assert [] + data == data;
    } else {
      var t, n := NextToken(data, out);
      var more;
      more, rest := StopsForCause(data[n..], Apply(out, t));
      ts := [t] + more;
      PrependToken(t, more, out);
      Rejoin(data, n, StreamBytes(more), rest);
    }
  }

  lemma NextToken(data: seq<Byte>, out: seq<Byte>) returns (t: Token, n: nat)
    requires data != [] && Cause(data, |out|).None?
    ensures Expressible(t) && (t.Copy? ==> t.distance <= |out|) && 2 <= n <= |data| && data[..n] == TokenBytes(t)
    ensures Decompressed(data, out) == Decompressed(data[n..], Apply(out, t))
  {
    StepCause(data, out);
    TokenReadIsExpressible(data);
    t, n := ReadToken(data).value.0, ReadToken(data).value.1;
  }

  lemma Rejoin(data: seq<Byte>, n: nat, middle: seq<Byte>, rest: seq<Byte>)
    requires n <= |data| && data[n..] == middle + rest
    ensures data[..n] + middle + rest == data
  {
  }
}
