/*
 * The variable-length-code LZW decoder of GIF89a (Appendix F): codes are read
 * least significant bit first out of the image data, a clear code restarts the
 * dictionary, an end code stops, and the code size grows up to 12 bits.
 *
 * `LzwDecode` is the reference definition: it reads code k directly as a
 * window of bits of the data.  `Decode` is the source's loop, with its bit
 * buffer, its byte iterator and its dictionary, and is proved to compute the
 * same result.
 */
module Lzw {
  import opened Bits
  import opened Wrappers

  /** The `params` dict of the decoder. */
  datatype Params = Params(clearCode: nat, endCode: nat, codeSize: nat, nextCode: nat, maxCodeSize: nat)

  /** The exceptions `decode` can raise: `codes.extend(None)` and a missing `dictionary[old_code]`. */
  datatype LzwError = TypeError | KeyError

  /** Code -> the colour indices it stands for. */
  type Dictionary = map<nat, seq<nat>>

  /** Everything `decode` carries from one code to the next, apart from the bit reader. */
  datatype Decoder = Decoder(params: Params, dictionary: Dictionary, oldCode: Option<nat>, codes: seq<nat>)

  // ---------------------------------------------------------------------------
  // Parameters and the initial dictionary

  /** `initialize_parameters`. */
  function InitializeParameters(minCodeSize: nat): (r: Params)
    ensures r.clearCode == Pow2(minCodeSize) && r.endCode == r.clearCode + 1
    ensures r.codeSize == minCodeSize + 1 && r.nextCode == r.clearCode + 2
    ensures r.maxCodeSize == 12
  {
    var clearCode := Shl(1, minCodeSize);
    var endCode := clearCode + 1;
    Params(clearCode, endCode, minCodeSize + 1, endCode + 1, 12)
  }

  /** `reset_parameters`, written out separately in the source; it yields the initial parameters again. */
  function ResetParameters(minCodeSize: nat): (r: Params)
    ensures r == InitializeParameters(minCodeSize)
  {
    Params(Shl(1, minCodeSize), Shl(1, minCodeSize) + 1, minCodeSize + 1, Shl(1, minCodeSize) + 2, 12)
  }

  /** `{i: [i] for i in range(clear_code)}`. */
  function InitialDictionary(clearCode: nat): (d: Dictionary)
    ensures forall k: nat :: k in d <==> k < clearCode
    ensures forall k :: k in d ==> d[k] == [k]
    ensures clearCode !in d && clearCode + 1 !in d
  {
    map i: nat | i < clearCode :: [i]
  }

  predicate EntriesNonEmpty(d: Dictionary)
  {
    forall k :: k in d ==> d[k] != []
  }

  // ---------------------------------------------------------------------------
  // The bit reader

  /** The code of codeSize bits starting at bit `consumed`, if the data holds that many bits. */
  function CodeAt(data: seq<byte>, consumed: nat, codeSize: nat): (r: Option<nat>)
    ensures r.Some? <==> consumed + codeSize <= 8 * |data|
    ensures r.Some? ==> r.value < Pow2(codeSize)
  {
    if consumed + codeSize <= 8 * |data| then Some(Window(data, consumed, codeSize)) else None
  }

  /**
   * The reader's state after `consumed` bits have been handed out as codes:
   * `pos` bytes have been pulled, and the buffer holds the bits between.
   */
  ghost predicate ReaderInv(data: seq<byte>, consumed: nat, bitBuffer: nat, bitsInBuffer: nat, pos: nat)
  {
    pos <= |data| && consumed + bitsInBuffer == 8 * pos && bitBuffer == Window(data, consumed, bitsInBuffer)
  }

  /**
   * `read_next_code`: pull bytes into the buffer until it holds codeSize bits
   * or the data is exhausted; then cut off the low codeSize bits as the code.
   * The iterator is the data with its position `pos`.
   */
  method ReadNextCode(bitBuffer: nat, bitsInBuffer: nat, codeSize: nat, data: seq<byte>, pos: nat, ghost consumed: nat)
    returns (code: Option<nat>, bitBuffer': nat, bitsInBuffer': nat, pos': nat)
    requires pos <= |data|
    ensures pos <= pos' <= |data|
    ensures code.Some? ==> code.value < Pow2(codeSize)
    ensures code.None? ==> pos' == |data| && bitsInBuffer' < codeSize
    ensures ReaderInv(data, consumed, bitBuffer, bitsInBuffer, pos) ==>
      code == CodeAt(data, consumed, codeSize) &&
      ReaderInv(data, consumed + (if code.Some? then codeSize else 0), bitBuffer', bitsInBuffer', pos')
  {
    var buffer: nat, bits: nat, p: nat := bitBuffer, bitsInBuffer, pos;
    ghost var inv := ReaderInv(data, consumed, bitBuffer, bitsInBuffer, pos);
    while bits < codeSize
      invariant pos <= p <= |data|
      invariant inv ==> ReaderInv(data, consumed, buffer, bits, p)
      decreases |data| - p
    {
      if p == |data| {
        break;
      }
      if inv {
        PullByte(data, consumed, buffer, bits, p);
      }
      buffer := BitOr(buffer, Shl(data[p], bits));
      bits := bits + 8;
      p := p + 1;
    }

    if bits < codeSize {
      return None, buffer, bits, p;
    }

    code := Some(BitAnd(buffer, Shl(1, codeSize) - 1));
    AndLowMask(buffer, codeSize);
    if inv {
      TakeCode(data, consumed, buffer, bits, p, codeSize);
    }
    bitBuffer', bitsInBuffer', pos' := Shr(buffer, codeSize), bits - codeSize, p;
  }

  /** OR-ing byte p in above the buffered bits extends the buffer by that byte. */
  lemma PullByte(data: seq<byte>, consumed: nat, buffer: nat, bits: nat, p: nat)
    requires ReaderInv(data, consumed, buffer, bits, p) && p < |data|
    ensures ReaderInv(data, consumed, BitOr(buffer, Shl(data[p], bits)), bits + 8, p + 1)
  {
    var b := data[p];
    assert buffer < Pow2(bits);
    OrDisjoint(buffer, b, bits);
    ByteWindow(data, p);
    assert Window(data, consumed + bits, 8) == b;
    WindowSplit(data, consumed, bits, 8);
    assert Shl(b, bits) == Pow2(bits) * b;
  }

  /** The low codeSize bits of a buffer holding at least that many are the next code; the rest stay buffered. */
  lemma TakeCode(data: seq<byte>, consumed: nat, buffer: nat, bits: nat, p: nat, codeSize: nat)
    requires ReaderInv(data, consumed, buffer, bits, p) && codeSize <= bits
    ensures LowBits(buffer, codeSize) == Window(data, consumed, codeSize)
    ensures ReaderInv(data, consumed + codeSize, Shr(buffer, codeSize), bits - codeSize, p)
  {
    WindowSplit(data, consumed, codeSize, bits - codeSize);
    LowHighUnique(buffer, codeSize, Window(data, consumed, codeSize), Window(data, consumed + codeSize, bits - codeSize));
  }

  // ---------------------------------------------------------------------------
  // One code

  /**
   * `process_code`: extend the output by the code's entry (or, for a code not yet
   * in the dictionary, by the previous entry plus its own first index), then, if
   * there was a previous code, store one new entry at next_code and widen the
   * code size when next_code reaches 2^code_size, up to max_code_size.
   */
  function ProcessCode(code: nat, st: Decoder): (r: Result<Decoder, LzwError>)
    requires EntriesNonEmpty(st.dictionary)
    ensures r.Failure? <==>
      (code !in st.dictionary && st.oldCode.None?) || (st.oldCode.Some? && st.oldCode.value !in st.dictionary)
    ensures r.Failure? ==> r.error == if st.oldCode.None? then TypeError else KeyError
    ensures r.Success? ==> r.value.oldCode == Some(code) && EntriesNonEmpty(r.value.dictionary)
    ensures r.Success? && code in st.dictionary ==> r.value.codes == st.codes + st.dictionary[code]
    ensures r.Success? && code !in st.dictionary ==>
      var w := st.dictionary[st.oldCode.value]; r.value.codes == st.codes + w + [w[0]]
    ensures r.Success? && st.oldCode.None? ==>
      r.value.dictionary == st.dictionary && r.value.params == st.params
    ensures r.Success? && st.oldCode.Some? ==>
      |r.value.codes| > |st.codes| &&
      r.value.dictionary == st.dictionary[st.params.nextCode := st.dictionary[st.oldCode.value] + [r.value.codes[|st.codes|]]] &&
      r.value.params == st.params.(
        nextCode := st.params.nextCode + 1,
        codeSize := if st.params.nextCode + 1 >= Pow2(st.params.codeSize) && st.params.codeSize < st.params.maxCodeSize
                    then st.params.codeSize + 1 else st.params.codeSize)
  {
    if code !in st.dictionary && st.oldCode.None? then Failure(TypeError)
    else if st.oldCode.Some? && st.oldCode.value !in st.dictionary then Failure(KeyError)
    else
      var entry :=
        if code in st.dictionary then st.dictionary[code]
        else st.dictionary[st.oldCode.value] + [st.dictionary[st.oldCode.value][0]];
      var codes := st.codes + entry;
      if st.oldCode.None? then
        Success(st.(codes := codes, oldCode := Some(code)))
      else
        var p := st.params;
        var dictionary := st.dictionary[p.nextCode := st.dictionary[st.oldCode.value] + [entry[0]]];
        var nextCode := p.nextCode + 1;
        var codeSize := if nextCode >= Shl(1, p.codeSize) && p.codeSize < p.maxCodeSize then p.codeSize + 1 else p.codeSize;
        Success(Decoder(p.(nextCode := nextCode, codeSize := codeSize), dictionary, Some(code), codes))
  }

  // ---------------------------------------------------------------------------
  // The whole stream

  /** The decoder state after a clear code: fresh dictionary and parameters, no previous code. */
  function Restart(minCodeSize: nat, clearCode: nat, codes: seq<nat>): Decoder
  {
    Decoder(ResetParameters(minCodeSize), InitialDictionary(clearCode), None, codes)
  }

  /**
   * The reference decoder: the codes are the consecutive bit windows of the data,
   * each as wide as the code size at that point.
   */
  function DecodeFrom(minCodeSize: nat, data: seq<byte>, consumed: nat, st: Decoder): (r: Result<seq<nat>, LzwError>)
    requires st.params.codeSize >= 1 && EntriesNonEmpty(st.dictionary)
    ensures r.Success? ==> st.codes <= r.value
    decreases 8 * |data| - consumed
  {
    match CodeAt(data, consumed, st.params.codeSize)
    case None => Success(st.codes)
    case Some(code) =>
      var next := consumed + st.params.codeSize;
      if code == st.params.clearCode then
        DecodeFrom(minCodeSize, data, next, Restart(minCodeSize, st.params.clearCode, st.codes))
      else if code == st.params.endCode then
        Success(st.codes)
      else
        match ProcessCode(code, st)
        case Failure(e) => Failure(e)
        case Success(st') => DecodeFrom(minCodeSize, data, next, st')
  }

  function Start(minCodeSize: nat): Decoder
  {
    Decoder(InitializeParameters(minCodeSize), InitialDictionary(Pow2(minCodeSize)), None, [])
  }

  /** What `LZWDecompressor(min_code_size, data).decode()` returns or raises. */
  function LzwDecode(minCodeSize: nat, data: seq<byte>): (r: Result<seq<nat>, LzwError>)
    ensures r.Success? ==> AllBelow(r.value, Pow2(minCodeSize))
  {
    StartValid(minCodeSize);
    DecodeFromValid(minCodeSize, data, 0, Start(minCodeSize));
    DecodeFrom(minCodeSize, data, 0, Start(minCodeSize))
  }

  /** `decode`: the source's loop over the bit reader, proved equal to the reference decoder. */
  method Decode(minCodeSize: nat, data: seq<byte>) returns (r: Result<seq<nat>, LzwError>)
    ensures r == LzwDecode(minCodeSize, data)
  {
    var params := InitializeParameters(minCodeSize);
    var dictionary := InitialDictionary(params.clearCode);
    var bitBuffer, bitsInBuffer := 0, 0;
    var pos := 0;
    var codes := [];
    var oldCode := None;
    ghost var consumed := 0;

    while true
      invariant ReaderInv(data, consumed, bitBuffer, bitsInBuffer, pos)
      invariant params.codeSize >= 1 && EntriesNonEmpty(dictionary)
      invariant DecodeFrom(minCodeSize, data, consumed, Decoder(params, dictionary, oldCode, codes)) == LzwDecode(minCodeSize, data)
      decreases 8 * |data| - consumed
    {
      var currentCode;
      currentCode, bitBuffer, bitsInBuffer, pos := ReadNextCode(bitBuffer, bitsInBuffer, params.codeSize, data, pos, consumed);

      if currentCode.None? {
        break;
      }
      consumed := consumed + params.codeSize;

      if currentCode.value == params.clearCode {
        dictionary := InitialDictionary(params.clearCode);
        params := ResetParameters(minCodeSize);
        oldCode := None;
        continue;
      } else if currentCode.value == params.endCode {
        break;
      }

      var processed := ProcessCode(currentCode.value, Decoder(params, dictionary, oldCode, codes));
      if processed.Failure? {
        return Failure(processed.error);
      }
      params, dictionary, oldCode, codes := processed.value.params, processed.value.dictionary, processed.value.oldCode, processed.value.codes;
    }
    return Success(codes);
  }

  // ---------------------------------------------------------------------------
  // Properties of the decoder

  predicate AllBelow(s: seq<nat>, bound: nat)
  {
    forall i :: 0 <= i < |s| ==> s[i] < bound
  }

  /**
   * The shape every decoder state reachable from `Start(minCodeSize)` has:
   * fixed clear/end codes; the code size between min_code_size + 1 and
   * max(12, min_code_size + 1); the dictionary holds exactly the codes below
   * clear_code and those from clear_code + 2 up to next_code; every entry, and
   * the output, consists of colour indices below clear_code.
   */
  ghost predicate Valid(minCodeSize: nat, st: Decoder)
  {
    var p := st.params;
    p.clearCode == Pow2(minCodeSize) && p.endCode == p.clearCode + 1 && p.maxCodeSize == 12 &&
    minCodeSize + 1 <= p.codeSize && (p.codeSize <= 12 || p.codeSize == minCodeSize + 1) &&
    p.nextCode >= p.clearCode + 2 &&
    (forall k: nat :: k in st.dictionary <==> k < p.clearCode || p.clearCode + 2 <= k < p.nextCode) &&
    (forall k :: k in st.dictionary ==> st.dictionary[k] != [] && AllBelow(st.dictionary[k], p.clearCode)) &&
    AllBelow(st.codes, p.clearCode)
  }

  lemma StartValid(minCodeSize: nat)
    ensures Valid(minCodeSize, Start(minCodeSize))
  {
  }

  /** A clear code restores the initial dictionary and parameters, forgets old_code and keeps the output. */
  lemma RestartValid(minCodeSize: nat, st: Decoder)
    requires Valid(minCodeSize, st)
    ensures Valid(minCodeSize, Restart(minCodeSize, st.params.clearCode, st.codes))
    ensures Restart(minCodeSize, st.params.clearCode, st.codes) == Start(minCodeSize).(codes := st.codes)
  {
  }

  /** `process_code` keeps the decoder's shape: one new entry at next_code, code size capped at 12. */
  lemma ProcessCodeKeepsValid(minCodeSize: nat, code: nat, st: Decoder)
    requires Valid(minCodeSize, st) && ProcessCode(code, st).Success?
    ensures Valid(minCodeSize, ProcessCode(code, st).value)
  {
    var st' := ProcessCode(code, st).value;
    var clear := st.params.clearCode;
    var added := st'.codes[|st.codes|..];
    assert st'.codes == st.codes + added;
    assert AllBelow(added, clear);
    if st.oldCode.Some? {
      var w := st.dictionary[st.oldCode.value];
      assert AllBelow(w + [st'.codes[|st.codes|]], clear);
    }
  }

  /**
   * Decoding from a valid state only appends to the output, and every index it
   * appends is below clear_code = 2^min_code_size.
   */
  lemma {:induction false} DecodeFromValid(minCodeSize: nat, data: seq<byte>, consumed: nat, st: Decoder)
    requires Valid(minCodeSize, st)
    ensures var r := DecodeFrom(minCodeSize, data, consumed, st);
      r.Success? ==> st.codes <= r.value && AllBelow(r.value, Pow2(minCodeSize))
    decreases 8 * |data| - consumed
  {
    match CodeAt(data, consumed, st.params.codeSize)
    case None =>
    case Some(code) =>
      var next := consumed + st.params.codeSize;
      if code == st.params.clearCode {
        RestartValid(minCodeSize, st);
        DecodeFromValid(minCodeSize, data, next, Restart(minCodeSize, st.params.clearCode, st.codes));
      } else if code != st.params.endCode && ProcessCode(code, st).Success? {
        var st' := ProcessCode(code, st).value;
        ProcessCodeKeepsValid(minCodeSize, code, st);
        DecodeFromValid(minCodeSize, data, next, st');
        assert st.codes <= st'.codes;
      }
  }

  /** Empty data decodes to the empty list. */
  lemma DecodeEmpty(minCodeSize: nat)
    ensures LzwDecode(minCodeSize, []) == Success([])
  {
  }

  /**
   * With min code size 2, the bytes 'D' 0x01 hold a clear code, index 0 and the
   * end code; whatever follows them is ignored.
   */
  lemma DecodeStopsAtEndCode(rest: seq<byte>)
    ensures LzwDecode(2, [0x44, 0x01] + rest) == Success([0])
  {
    var data: seq<byte> := [0x44, 0x01] + rest;
    var head: seq<byte> := [0x44, 0x01];
    assert data[..2] == head;
    assert LeValue(head) == 324 by {
      assert LittleEndian16(0x44, 0x01) == 324;
    }
    WindowPrefix(data, 2, 0, 3);
    WindowPrefix(data, 2, 3, 3);
    WindowPrefix(data, 2, 6, 3);
    assert CodeAt(data, 0, 3) == Some(4);
    assert CodeAt(data, 3, 3) == Some(0);
    assert CodeAt(data, 6, 3) == Some(5);
    var s0 := Start(2);
    assert s0.params == Params(4, 5, 3, 6, 12);
    var s1 := Restart(2, 4, []);
    assert DecodeFrom(2, data, 0, s0) == DecodeFrom(2, data, 3, s1);
    var s2 := ProcessCode(0, s1).value;
    assert s2.codes == [0];
    assert DecodeFrom(2, data, 3, s1) == DecodeFrom(2, data, 6, s2);
  }
}
