/**
 Streaming AES-GCM operations (keymaster/aes_operation.cpp).  Associated data is
 realigned to whole blocks, and decryption holds back the last tag-length bytes.
 */
module AesGcm {
  import opened Wrappers
  import opened Bytes
  import opened GcmSpec

  datatype GcmError = KM_OK | KM_INVALID_TAG | KM_INVALID_INPUT_LENGTH | KM_VERIFICATION_FAILED | KM_LIBRARY_ERROR

  /**
   The library's cipher context.  Each piece of associated data is padded to whole
   blocks on its own, and any call may fail.
   */
  class EvpCipher {
    const g: Gcm
    const encrypting: bool
    const fails: nat -> bool
    var calls: nat
    var absorbed: seq<byte>
    var aadLength: nat
    var text: seq<byte>
    var tag: seq<byte>

    constructor (g: Gcm, encrypting: bool, fails: nat -> bool)
      ensures this.g == g && this.encrypting == encrypting && this.fails == fails
      ensures absorbed == [] && aadLength == 0 && text == tag == []
    {
      this.g, this.encrypting, this.fails := g, encrypting, fails;
      calls, absorbed, aadLength, text, tag := 0, [], 0, [], [];
    }

    /** Associated data must come before any text. */
    method UpdateAad(data: seq<byte>) returns (ok: bool)
      requires text == []
      modifies `calls, `absorbed, `aadLength
      ensures calls == old(calls) + 1 && ok == !fails(old(calls))
      ensures ok ==> absorbed == old(absorbed) + Pad16(data) && aadLength == old(aadLength) + |data|
    {
      ok := !fails(calls);
      calls := calls + 1;
      if ok {
        absorbed, aadLength := absorbed + Pad16(data), aadLength + |data|;
      }
    }

    method UpdateText(data: seq<byte>) returns (ok: bool, out: seq<byte>)
      modifies `calls, `text
      ensures calls == old(calls) + 1 && ok == !fails(old(calls))
      ensures ok ==> out == Crypt(if encrypting then g.enc else g.dec, old(|text|), data)
      ensures ok ==> text == old(text) + if encrypting then out else data
      ensures !ok ==> out == [] && text == old(text)
    {
      ok, out := !fails(calls), [];
      calls := calls + 1;
      if ok {
        out := Crypt(if encrypting then g.enc else g.dec, |text|, data);
        text := text + if encrypting then out else data;
      }
    }

    method SetTag(t: seq<byte>) returns (ok: bool)
      modifies `calls, `tag
      ensures calls == old(calls) + 1 && ok == !fails(old(calls))
      ensures ok ==> tag == t
    {
      ok := !fails(calls);
      calls := calls + 1;
      if ok {
        tag := t;
      }
    }

    /** The authenticator over everything given so far. */
    function Authenticator(): seq<byte>
      reads this
    {
      g.mac(absorbed, aadLength, text)
    }

    /** Decryption succeeds only if the tag that was set is right. */
    method Final() returns (ok: bool)
      requires |tag| <= AES_BLOCK_SIZE && GcmOk(g)
      modifies `calls
      ensures calls == old(calls) + 1
      ensures ok == (!fails(old(calls)) && (encrypting || Authenticator()[..|tag|] == tag))
    {
      ok := !fails(calls) && (encrypting || Authenticator()[..|tag|] == tag);
      calls := calls + 1;
    }
  }

  /** The associated data of a call, if it has any. */
  function Given(data: Option<seq<byte>>): seq<byte> {
    if data.Some? then data.value else []
  }

  /** What the library holds of the associated data, and what is still buffered. */
  predicate AadState(aad: seq<byte>, absorbed: seq<byte>, aadLength: nat, held: seq<byte>, started: bool) {
    && aadLength + |held| == |aad| && |held| < AES_BLOCK_SIZE
    && if started then held == [] && absorbed == Pad16(aad) else Whole(absorbed) && absorbed + held == aad
  }

  /** What the library holds of the text, and the candidate tag that is held back. */
  predicate TextState(input: seq<byte>, text: seq<byte>, held: seq<byte>, tagLength: nat) {
    text + held == input && |held| <= tagLength && (text != [] ==> |held| == tagLength)
  }

  lemma OneBlock(absorbed: seq<byte>, block: seq<byte>)
    requires Whole(absorbed) && |block| == AES_BLOCK_SIZE
    ensures Pad16(block) == block && Whole(absorbed + block)
  {
  }

  lemma WholeBlocks(absorbed: seq<byte>, data: seq<byte>, n: nat)
    requires Whole(absorbed) && n <= |data| && n == |data| / AES_BLOCK_SIZE * AES_BLOCK_SIZE
    ensures Pad16(data[..n]) == data[..n] && Whole(absorbed + data[..n])
  {
    assert Whole(data[..n]);
  }

  /** The length of the whole blocks at the front of n bytes. */
  function WholeLength(n: nat): (m: nat)
    ensures m <= n < m + AES_BLOCK_SIZE
  {
    n / AES_BLOCK_SIZE * AES_BLOCK_SIZE
  }

  lemma AppendParts(a: seq<byte>, b: seq<byte>, data: seq<byte>, n: nat)
    requires n <= |data| && (n > 0 ==> b == [])
    ensures (a + data[..n]) + (b + data[n..]) == (a + b) + data
  {
  }

  class AesGcmOperation {
    const evp: EvpCipher
    const tagLength: nat
    const aadBlockBuf: array<byte>
    var aadBlockBufLength: nat
    const tagBuf: array<byte>
    var tagBufLength: nat
    var dataStarted: bool

    // Everything the caller has supplied and received.
    ghost var aad: seq<byte>
    ghost var input: seq<byte>
    ghost var output: seq<byte>

    ghost predicate Valid()
      reads this
    {
      && 0 < tagLength <= AES_BLOCK_SIZE && aadBlockBuf != tagBuf && GcmOk(evp.g)
      && aadBlockBuf.Length == AES_BLOCK_SIZE && aadBlockBufLength <= AES_BLOCK_SIZE
      && tagBuf.Length == tagLength && tagBufLength <= tagLength
    }

    /** The associated-data block buffer. */
    function HeldAad(): (s: seq<byte>)
      reads this, aadBlockBuf
      requires aadBlockBufLength <= aadBlockBuf.Length
      ensures |s| == aadBlockBufLength
    {
      aadBlockBuf[..aadBlockBufLength]
    }

    /** The candidate tag. */
    function HeldTag(): (s: seq<byte>)
      reads this, tagBuf
      requires tagBufLength <= tagBuf.Length
      ensures |s| == tagBufLength
    {
      tagBuf[..tagBufLength]
    }

    /** The state between calls. */
    ghost predicate Streaming()
      reads this, evp, aadBlockBuf, tagBuf
    {
      && Valid()
      && AadState(aad, evp.absorbed, evp.aadLength, HeldAad(), dataStarted)
      && dataStarted == (input != [])
      && if evp.encrypting then
           evp.tag == [] && tagBufLength == 0 && output == evp.text == Crypt(evp.g.enc, 0, input)
         else
           TextState(input, evp.text, HeldTag(), tagLength) && output == Crypt(evp.g.dec, 0, evp.text)
    }

    constructor (g: Gcm, encrypting: bool, fails: nat -> bool, tagLength: nat)
      requires GcmOk(g) && 0 < tagLength <= AES_BLOCK_SIZE
      ensures Streaming() && fresh(evp) && fresh(aadBlockBuf) && fresh(tagBuf)
      ensures this.tagLength == tagLength && evp.g == g && evp.encrypting == encrypting && evp.fails == fails
      ensures aad == [] && input == [] && output == []
    {
      var e := new EvpCipher(g, encrypting, fails);
      evp := e;
      this.tagLength := tagLength;
      aadBlockBuf := new byte[AES_BLOCK_SIZE];
      tagBuf := new byte[tagLength];
      aadBlockBufLength, tagBufLength, dataStarted := 0, 0, false;
      aad, input, output := [], [], [];
    }

    /** FillBufferedAadBlock: moves as much as fits into the block buffer. */
    method FillBufferedAadBlock(data: seq<byte>) returns (rest: seq<byte>)
      requires Valid()
      modifies `aadBlockBufLength, aadBlockBuf
      ensures Valid()
      ensures var room := AES_BLOCK_SIZE - old(aadBlockBufLength);
              var k := if |data| < room then |data| else room;
              HeldAad() == old(HeldAad()) + data[..k] && rest == data[k..]
    {
      var k := if |data| < AES_BLOCK_SIZE - aadBlockBufLength then |data| else AES_BLOCK_SIZE - aadBlockBufLength;
      forall i | 0 <= i < k {
        aadBlockBuf[aadBlockBufLength + i] := data[i];
      }
      aadBlockBufLength := aadBlockBufLength + k;
      return data[k..];
    }

    /** ProcessBufferedAadBlock. */
    method ProcessBufferedAadBlock() returns (ok: bool)
      requires Valid() && evp.text == []
      modifies `aadBlockBufLength, evp`calls, evp`absorbed, evp`aadLength
      ensures Valid() && evp.calls == old(evp.calls) + 1 && ok == !evp.fails(old(evp.calls))
      ensures ok ==> && aadBlockBufLength == 0
                     && evp.absorbed == old(evp.absorbed) + Pad16(old(HeldAad()))
                     && evp.aadLength == old(evp.aadLength + aadBlockBufLength)
    {
      ok := evp.UpdateAad(HeldAad());
      if ok {
        aadBlockBufLength := 0;
      }
    }

    /** Completes a block that an earlier call left partial. */
    method CompleteBlock(data: seq<byte>) returns (ok: bool, rest: seq<byte>)
      requires Valid() && evp.text == [] && aadBlockBufLength < AES_BLOCK_SIZE && Whole(evp.absorbed)
      modifies `aadBlockBufLength, aadBlockBuf, evp`calls, evp`absorbed, evp`aadLength
      ensures Valid()
      ensures ok ==> && Whole(evp.absorbed) && aadBlockBufLength < AES_BLOCK_SIZE
                     && (rest == [] || aadBlockBufLength == 0)
                     && evp.absorbed + HeldAad() + rest == old(evp.absorbed + HeldAad()) + data
                     && evp.aadLength + aadBlockBufLength + |rest| == old(evp.aadLength + aadBlockBufLength) + |data|
      ensures (forall n :: !evp.fails(n)) ==> ok
    {
      hide Pad16, Whole;
      ok, rest := true, data;
      if aadBlockBufLength > 0 {
        rest := FillBufferedAadBlock(rest);
        ghost var k := |data| - |rest|;
        assert data == data[..k] + rest;
        if aadBlockBufLength == AES_BLOCK_SIZE {
          ghost var block := HeldAad();
          OneBlock(evp.absorbed, block);
          ok := ProcessBufferedAadBlock();
        }
      }
    }

    /** Hands on the whole blocks and buffers what is left. */
    method AbsorbBlocks(data: seq<byte>) returns (ok: bool)
      requires Valid() && evp.text == [] && aadBlockBufLength < AES_BLOCK_SIZE && Whole(evp.absorbed)
      requires data == [] || aadBlockBufLength == 0
      modifies `aadBlockBufLength, aadBlockBuf, evp`calls, evp`absorbed, evp`aadLength
      ensures Valid()
      ensures ok ==> && Whole(evp.absorbed) && aadBlockBufLength < AES_BLOCK_SIZE
                     && evp.absorbed + HeldAad() == old(evp.absorbed + HeldAad()) + data
                     && evp.aadLength + aadBlockBufLength == old(evp.aadLength + aadBlockBufLength) + |data|
      ensures (forall n :: !evp.fails(n)) ==> ok
    {
      hide Pad16, Whole;
      var n := WholeLength(|data|);
      AppendParts(evp.absorbed, HeldAad(), data, n);
      if n > 0 {
        WholeBlocks(evp.absorbed, data, n);
        ok := evp.UpdateAad(data[..n]);
        if !ok {
          return;
        }
      }
      hide WholeLength;
      var rest := FillBufferedAadBlock(data[n..]);
      ok := true;
    }

    /** The associated data of one call, before any text: whole blocks go to the library. */
    method AbsorbAad(data: seq<byte>) returns (ok: bool)
      requires Valid() && evp.text == [] && aadBlockBufLength < AES_BLOCK_SIZE && Whole(evp.absorbed)
      modifies `aadBlockBufLength, aadBlockBuf, evp`calls, evp`absorbed, evp`aadLength
      ensures Valid()
      ensures ok ==> && Whole(evp.absorbed) && aadBlockBufLength < AES_BLOCK_SIZE
                     && evp.absorbed + HeldAad() == old(evp.absorbed + HeldAad()) + data
                     && evp.aadLength + aadBlockBufLength == old(evp.aadLength + aadBlockBufLength) + |data|
      ensures (forall n :: !evp.fails(n)) ==> ok
    {
      hide Pad16, Whole;
      var rest;
      ok, rest := CompleteBlock(data);
      if ok {
        ok := AbsorbBlocks(rest);
      }
    }

    /** HandleAad. */
    method HandleAad(data: Option<seq<byte>>, more: seq<byte>) returns (error: GcmError)
      requires Streaming()
      modifies this, aadBlockBuf, evp`calls, evp`absorbed, evp`aadLength
      ensures Valid() && tagBufLength == old(tagBufLength) && input == old(input) && output == old(output)
      ensures error == KM_INVALID_TAG <==> data.Some? && old(dataStarted)
      ensures error in {KM_OK, KM_INVALID_TAG, KM_LIBRARY_ERROR}
      ensures (forall n :: !evp.fails(n)) ==> error != KM_LIBRARY_ERROR
      ensures error == KM_OK ==>
                && aad == old(aad) + (if data.Some? then data.value else [])
                && dataStarted == (old(dataStarted) || more != [])
                && AadState(aad, evp.absorbed, evp.aadLength, HeldAad(), dataStarted)
    {
      if data.Some? {
        if dataStarted {
          return KM_INVALID_TAG;
        }
        assert evp.text == [];
        var ok := AbsorbAad(data.value);
        if !ok {
          return KM_LIBRARY_ERROR;
        }
        aad := aad + data.value;
      }
      if more != [] {
        var ok := StartText();
        if !ok {
          return KM_LIBRARY_ERROR;
        }
      }
      return KM_OK;
    }

    /** The first text completes the associated data. */
    method StartText() returns (ok: bool)
      requires Valid() && AadState(aad, evp.absorbed, evp.aadLength, HeldAad(), dataStarted)
      requires !dataStarted ==> evp.text == []
      modifies `dataStarted, `aadBlockBufLength, evp`calls, evp`absorbed, evp`aadLength
      ensures Valid() && dataStarted
      ensures ok ==> AadState(aad, evp.absorbed, evp.aadLength, HeldAad(), true)
      ensures (forall n :: !evp.fails(n)) ==> ok
    {
      ghost var absorbed, held := evp.absorbed, HeldAad();
      dataStarted, ok := true, true;
      if aadBlockBufLength > 0 {
        ok := ProcessBufferedAadBlock();
        PadWhole(absorbed, held);
      }
    }

    /** InternalUpdate: the library is not called for no data. */
    method InternalUpdate(data: seq<byte>) returns (ok: bool, out: seq<byte>)
      modifies evp`calls, evp`text
      ensures ok ==> out == Crypt(if evp.encrypting then evp.g.enc else evp.g.dec, old(|evp.text|), data)
      ensures ok ==> evp.text == old(evp.text) + if evp.encrypting then out else data
      ensures (forall n :: !evp.fails(n)) ==> ok
    {
      if data == [] {
        return true, [];
      }
      ok, out := evp.UpdateText(data);
    }

    /** ProcessTagBufContentsAsData: the first k held bytes turn out to be text. */
    method ProcessTagBufContentsAsData(k: nat) returns (ok: bool, out: seq<byte>)
      requires Valid() && !evp.encrypting && k <= tagBufLength
      modifies `tagBufLength, tagBuf, evp`calls, evp`text
      ensures Valid()
      ensures ok ==> && out == Crypt(evp.g.dec, old(|evp.text|), old(HeldTag())[..k])
                     && evp.text == old(evp.text) + old(HeldTag())[..k]
                     && HeldTag() == old(HeldTag())[k..]
      ensures (forall n :: !evp.fails(n)) ==> ok
    {
      ok, out := InternalUpdate(tagBuf[..k]);
      if !ok {
        return;
      }
      assert tagBuf[..k] == HeldTag()[..k];
      if k < tagBufLength {
        forall i | 0 <= i < tagBufLength - k {
          tagBuf[i] := tagBuf[k + i];
        }
      }
      tagBufLength := tagBufLength - k;
    }

    /** BufferCandidateTagData. */
    method BufferCandidateTagData(data: seq<byte>)
      requires Valid() && tagBufLength + |data| <= tagLength
      modifies `tagBufLength, tagBuf
      ensures Valid() && HeldTag() == old(HeldTag()) + data
    {
      forall i | 0 <= i < |data| {
        tagBuf[tagBufLength + i] := data[i];
      }
      tagBufLength := tagBufLength + |data|;
    }

    /** ProcessAllButTagLengthBytes. */
    method ProcessAllButTagLengthBytes(data: seq<byte>) returns (ok: bool, out: seq<byte>)
      requires Valid() && !evp.encrypting && (evp.text != [] ==> tagBufLength == tagLength)
      modifies `tagBufLength, tagBuf, evp`calls, evp`text
      ensures Valid()
      ensures ok ==> TextState(old(evp.text + HeldTag()) + data, evp.text, HeldTag(), tagLength)
      ensures ok ==> Crypt(evp.g.dec, 0, evp.text) == Crypt(evp.g.dec, 0, old(evp.text)) + out
      ensures (forall n :: !evp.fails(n)) ==> ok
    {
      hide Crypt;
      ghost var text, held := evp.text, HeldTag();
      if |data| <= tagLength - tagBufLength {
        BufferCandidateTagData(data);
        assert Crypt(evp.g.dec, 0, text) + [] == Crypt(evp.g.dec, 0, text);
        return true, [];
      }
      var total := tagBufLength + |data| - tagLength;
      var k := if total < tagBufLength then total else tagBufLength;
      var m := total - k;
      ok, out := ProcessTagBufContentsAsData(k);
      if !ok {
        return;
      }
      var more;
      ok, more := InternalUpdate(data[..m]);
      if !ok {
        return;
      }
      BufferCandidateTagData(data[m..]);
      AllButTag(evp.g.dec, text, held, data, k, m);
      out := out + more;
    }

    /** Update, for either purpose. */
    method Update(data: Option<seq<byte>>, more: seq<byte>) returns (error: GcmError, out: seq<byte>)
      requires Streaming()
      modifies this, evp, aadBlockBuf, tagBuf
      ensures Valid()
      ensures error == KM_INVALID_TAG <==> data.Some? && old(dataStarted)
      ensures error in {KM_OK, KM_INVALID_TAG, KM_LIBRARY_ERROR}
      ensures (forall n :: !evp.fails(n)) ==> error != KM_LIBRARY_ERROR
      ensures error == KM_OK ==>
                && Streaming() && aad == old(aad) + (if data.Some? then data.value else [])
                && input == old(input) + more && output == old(output) + out
    {
      hide Pad16, Crypt, AadState;
      error := HandleAad(data, more);
      if error != KM_OK {
        return error, [];
      }
      ghost var text, held := evp.text, HeldTag();
      var ok;
      if evp.encrypting {
        ok, out := InternalUpdate(more);
        CryptConcat(evp.g.enc, 0, input, more);
      } else {
        ok, out := ProcessAllButTagLengthBytes(more);
      }
      if !ok {
        return KM_LIBRARY_ERROR, [];
      }
      input, output := input + more, output + out;
    }

    /** UpdateForFinish. */
    method UpdateForFinish(data: Option<seq<byte>>, more: seq<byte>) returns (error: GcmError, out: seq<byte>)
      requires Streaming()
      modifies this, evp, aadBlockBuf, tagBuf
      ensures Valid()
      ensures error == KM_INVALID_TAG <==> data.Some? && old(dataStarted)
      ensures error in {KM_OK, KM_INVALID_TAG, KM_LIBRARY_ERROR}
      ensures (forall n :: !evp.fails(n)) ==> error != KM_LIBRARY_ERROR
      ensures error == KM_OK ==>
                && Streaming() && aad == old(aad) + (if data.Some? then data.value else [])
                && input == old(input) + more && output == old(output) + out
    {
      if data.Some? || more != [] {
        error, out := Update(data, more);
        return;
      }
      assert input + more == input && output + [] == output && aad + Given(data) == aad;
      return KM_OK, [];
    }

    /** AesEvpOperation::Finish once no input is left: flushes buffered associated data and closes the cipher. */
    method FlushAndFinal() returns (error: GcmError)
      requires Streaming() && |evp.tag| <= AES_BLOCK_SIZE
      modifies `aadBlockBufLength, evp`calls, evp`absorbed, evp`aadLength
      ensures error in {KM_OK, KM_VERIFICATION_FAILED, KM_LIBRARY_ERROR}
      ensures error != KM_LIBRARY_ERROR ==> evp.absorbed == Pad16(aad) && evp.aadLength == |aad|
      ensures error == KM_OK ==> evp.encrypting || evp.Authenticator()[..|evp.tag|] == evp.tag
      ensures (forall n :: !evp.fails(n)) ==>
                && error != KM_LIBRARY_ERROR
                && (error == KM_VERIFICATION_FAILED ==> !evp.encrypting && evp.Authenticator()[..|evp.tag|] != evp.tag)
    {
      hide Pad16, Crypt, Whole;
      if !dataStarted {
        PadWhole(evp.absorbed, HeldAad());
      }
      if aadBlockBufLength > 0 {
        var ok := ProcessBufferedAadBlock();
        if !ok {
          return KM_LIBRARY_ERROR;
        }
      } else {
        NothingHeld(evp.absorbed, aad, HeldAad(), dataStarted);
      }
      var ok := evp.Final();
      return if ok then KM_OK else KM_VERIFICATION_FAILED;
    }

    /** AesEvpEncryptOperation::Finish: the whole output is that of one-shot encryption. */
    method FinishEncrypt(data: Option<seq<byte>>, more: seq<byte>) returns (error: GcmError, out: seq<byte>)
      requires Streaming() && evp.encrypting
      modifies this, evp, aadBlockBuf, tagBuf
      ensures error == KM_INVALID_TAG <==> data.Some? && old(dataStarted)
      ensures error == KM_OK ==> old(output) + out == Seal(evp.g, tagLength, old(aad) + Given(data), old(input) + more)
      ensures (forall n :: !evp.fails(n)) ==> error in {KM_OK, KM_INVALID_TAG}
    {
      hide Pad16, Crypt;
      error, out := UpdateForFinish(data, more);
      if error != KM_OK {
        return error, [];
      }
      error := FlushAndFinal();
      if error != KM_OK {
        return error, [];
      }
      var tag := evp.Authenticator()[..tagLength];
      out := out + tag;
    }

    /** AesEvpDecryptOperation::Finish: the outcome is that of one-shot decryption of all that was given. */
    method FinishDecrypt(data: Option<seq<byte>>, more: seq<byte>) returns (error: GcmError, out: seq<byte>)
      requires Streaming() && !evp.encrypting
      modifies this, evp, aadBlockBuf, tagBuf
      ensures error == KM_INVALID_TAG <==> data.Some? && old(dataStarted)
      ensures var r := Open(evp.g, tagLength, old(aad) + Given(data), old(input) + more);
              && (error == KM_OK ==> r == Opened(old(output) + out))
              && (error == KM_INVALID_INPUT_LENGTH ==> r == TooShort)
              && ((forall n :: !evp.fails(n)) ==>
                    && error != KM_LIBRARY_ERROR
                    && (error == KM_VERIFICATION_FAILED ==> r == Forged))
    {
      hide Pad16, Crypt, AadState;
      error, out := UpdateForFinish(data, more);
      if error != KM_OK {
        return error, [];
      }
      if tagBufLength < tagLength {
        return KM_INVALID_INPUT_LENGTH, [];
      }
      var ok := evp.SetTag(tagBuf[..]);
      if !ok {
        return KM_LIBRARY_ERROR, [];
      }
      ghost var n := |input| - tagLength;
      assert input[..n] == evp.text && input[n..] == tagBuf[..];
      error := FlushAndFinal();
    }
  }

  lemma NothingHeld(absorbed: seq<byte>, aad: seq<byte>, held: seq<byte>, started: bool)
    requires held == [] && AadState(aad, absorbed, |aad|, held, started)
    ensures absorbed == Pad16(aad)
  {
  }

  /** One call of a stream: associated data, if any, and text. */
  datatype Chunk = Chunk(aad: Option<seq<byte>>, text: seq<byte>)

  function AllAad(chunks: seq<Chunk>): seq<byte> {
    if chunks == [] then [] else AllAad(chunks[..|chunks| - 1]) + Given(chunks[|chunks| - 1].aad)
  }

  function AllText(chunks: seq<Chunk>): seq<byte> {
    if chunks == [] then [] else AllText(chunks[..|chunks| - 1]) + chunks[|chunks| - 1].text
  }

  /** No associated data after text has started. */
  predicate AadFirst(chunks: seq<Chunk>) {
    forall i | 0 <= i < |chunks| && chunks[i].aad.Some? :: AllText(chunks[..i]) == []
  }

  lemma ChunksSnoc(chunks: seq<Chunk>, i: nat)
    requires i < |chunks|
    ensures AllAad(chunks[..i + 1]) == AllAad(chunks[..i]) + Given(chunks[i].aad)
    ensures AllText(chunks[..i + 1]) == AllText(chunks[..i]) + chunks[i].text
  {
    assert chunks[..i + 1][..i] == chunks[..i];
  }

  /** All calls of a stream but the last. */
  method Feed(op: AesGcmOperation, chunks: seq<Chunk>) returns (error: GcmError, out: seq<byte>)
    requires op.Streaming() && op.aad == op.input == op.output == [] && chunks != []
    requires forall n :: !op.evp.fails(n)
    modifies op, op.evp, op.aadBlockBuf, op.tagBuf
    ensures error in {KM_OK, KM_INVALID_TAG}
    ensures error == KM_INVALID_TAG ==> !AadFirst(chunks)
    ensures error == KM_OK ==>
              && op.Streaming() && out == op.output
              && op.aad == AllAad(chunks[..|chunks| - 1]) && op.input == AllText(chunks[..|chunks| - 1])
              && forall j | 0 <= j < |chunks| - 1 && chunks[j].aad.Some? :: AllText(chunks[..j]) == []
  {
    hide AllAad, AllText, AesGcmOperation.Streaming;
    out := [];
    assert AllAad(chunks[..0]) == [] && AllText(chunks[..0]) == [] by {
      NoChunks(chunks[..0]);
    }
    var i := 0;
    while i < |chunks| - 1
      invariant 0 <= i <= |chunks| - 1
      invariant op.Streaming() && out == op.output
      invariant op.aad == AllAad(chunks[..i]) && op.input == AllText(chunks[..i])
      invariant forall j | 0 <= j < i && chunks[j].aad.Some? :: AllText(chunks[..j]) == []
    {
      var more;
      StartedIff(op);
      error, more := op.Update(chunks[i].aad, chunks[i].text);
      if error != KM_OK {
        assert chunks[i].aad.Some? && AllText(chunks[..i]) != [];
        return;
      }
      ChunksSnoc(chunks, i);
      out := out + more;
      i := i + 1;
    }
    error := KM_OK;
  }

  lemma NoChunks(chunks: seq<Chunk>)
    requires chunks == []
    ensures AllAad(chunks) == [] && AllText(chunks) == []
  {
  }

  lemma StartedIff(op: AesGcmOperation)
    requires op.Streaming()
    ensures op.dataStarted == (op.input != [])
  {
  }

  /**
   Streamed decryption equals one-shot decryption, for every way to cut the
   associated data and the ciphertext into calls.
   */
  method DecryptStream(g: Gcm, tagLength: nat, chunks: seq<Chunk>) returns (error: GcmError, out: seq<byte>)
    requires GcmOk(g) && 0 < tagLength <= AES_BLOCK_SIZE && chunks != []
    ensures error == KM_INVALID_TAG <==> !AadFirst(chunks)
    ensures error != KM_INVALID_TAG ==>
              match Open(g, tagLength, AllAad(chunks), AllText(chunks))
              case Opened(p) => error == KM_OK && out == p
              case Forged => error == KM_VERIFICATION_FAILED
              case TooShort => error == KM_INVALID_INPUT_LENGTH
  {
    hide AllAad, AllText, AesGcmOperation.Streaming, Open;
    var op := new AesGcmOperation(g, false, _ => false, tagLength);
    error, out := Feed(op, chunks);
    if error != KM_OK {
      return;
    }
    var n := |chunks| - 1;
    ChunksSnoc(chunks, n);
    assert chunks[..n + 1] == chunks;
    StartedIff(op);
    var more;
    error, more := op.FinishDecrypt(chunks[n].aad, chunks[n].text);
    out := out + more;
  }

  /** Streamed encryption equals one-shot encryption. */
  method EncryptStream(g: Gcm, tagLength: nat, chunks: seq<Chunk>) returns (error: GcmError, out: seq<byte>)
    requires GcmOk(g) && 0 < tagLength <= AES_BLOCK_SIZE && chunks != []
    ensures error == if AadFirst(chunks) then KM_OK else KM_INVALID_TAG
    ensures error == KM_OK ==> out == Seal(g, tagLength, AllAad(chunks), AllText(chunks))
  {
    hide AllAad, AllText, AesGcmOperation.Streaming, Seal;
    var op := new AesGcmOperation(g, true, _ => false, tagLength);
    error, out := Feed(op, chunks);
    if error != KM_OK {
      return;
    }
    var n := |chunks| - 1;
    ChunksSnoc(chunks, n);
    assert chunks[..n + 1] == chunks;
    StartedIff(op);
    var more;
    error, more := op.FinishEncrypt(chunks[n].aad, chunks[n].text);
    out := out + more;
  }

  /** The text cut at the given lengths, with the rest in a last piece. */
  function Cut(text: seq<byte>, lengths: seq<nat>): (pieces: seq<seq<byte>>)
    ensures pieces != []
  {
    if lengths == [] then [text]
    else
      var n := if lengths[0] < |text| then lengths[0] else |text|;
      [text[..n]] + Cut(text[n..], lengths[1..])
  }

  /** Associated data in any pieces, then text in any pieces. */
  function Stream(aad: seq<seq<byte>>, text: seq<seq<byte>>): seq<Chunk> {
    seq(|aad|, i requires 0 <= i < |aad| => Chunk(Some(aad[i]), [])) +
    seq(|text|, i requires 0 <= i < |text| => Chunk(None, text[i]))
  }

  function Joined(pieces: seq<seq<byte>>): seq<byte> {
    if pieces == [] then [] else Joined(pieces[..|pieces| - 1]) + pieces[|pieces| - 1]
  }

  lemma {:induction false} JoinedCons(piece: seq<byte>, pieces: seq<seq<byte>>)
    ensures Joined([piece] + pieces) == piece + Joined(pieces)
  {
    var all := [piece] + pieces;
    if pieces == [] {
      assert all == [piece] && Joined([]) == [];
    } else {
      var n := |pieces| - 1;
      assert all[..|all| - 1] == [piece] + pieces[..n];
      JoinedCons(piece, pieces[..n]);
    }
  }

  lemma JoinedStep(text: seq<byte>, n: nat, rest: seq<seq<byte>>)
    requires n <= |text| && Joined(rest) == text[n..]
    ensures Joined([text[..n]] + rest) == text
  {
    hide Joined;
    JoinedCons(text[..n], rest);
    assert text[..n] + text[n..] == text;
  }

  lemma JoinedOne(text: seq<byte>)
    ensures Joined([text]) == text
  {
    assert [text][..0] == [] && Joined([]) == [];
  }

  lemma {:induction false} CutJoins(text: seq<byte>, lengths: seq<nat>)
    ensures Joined(Cut(text, lengths)) == text
  {
    if lengths == [] {
      JoinedOne(text);
    } else {
      hide Joined, Cut;
      var n := CutFirst(text, lengths);
      CutJoins(text[n..], lengths[1..]);
      JoinedStep(text, n, Cut(text[n..], lengths[1..]));
    }
  }

  lemma CutFirst(text: seq<byte>, lengths: seq<nat>) returns (n: nat)
    requires lengths != []
    ensures n <= |text| && Cut(text, lengths) == [text[..n]] + Cut(text[n..], lengths[1..])
  {
    n := if lengths[0] < |text| then lengths[0] else |text|;
  }

  lemma {:induction false} StreamAad(aad: seq<seq<byte>>)
    ensures AllAad(Stream(aad, [])) == Joined(aad) && AllText(Stream(aad, [])) == []
  {
    var chunks := Stream(aad, []);
    if aad != [] {
      var n := |aad| - 1;
      StreamAad(aad[..n]);
      assert chunks[..n] == Stream(aad[..n], []);
    }
  }

  lemma {:induction false} StreamText(aad: seq<seq<byte>>, text: seq<seq<byte>>)
    ensures AllAad(Stream(aad, text)) == Joined(aad) && AllText(Stream(aad, text)) == Joined(text)
  {
    var chunks := Stream(aad, text);
    if text == [] {
      StreamAad(aad);
    } else {
      var n := |text| - 1;
      StreamText(aad, text[..n]);
      assert chunks[..|aad| + n] == Stream(aad, text[..n]);
    }
  }

  lemma StreamAadFirst(aad: seq<seq<byte>>, text: seq<seq<byte>>)
    ensures AadFirst(Stream(aad, text))
  {
    var chunks := Stream(aad, text);
    forall i | 0 <= i < |chunks| && chunks[i].aad.Some? ensures AllText(chunks[..i]) == [] {
      assert chunks[..i] == Stream(aad[..i], []);
      StreamAad(aad[..i]);
    }
  }

  /**
   Encrypts a stream, cuts the output anew at any lengths, and decrypts it in those
   pieces with the associated data cut anew as well: the text comes back.
   */
  method SealThenOpen(g: Gcm, tagLength: nat, sent: seq<Chunk>, aadLengths: seq<nat>, textLengths: seq<nat>)
    returns (error: GcmError, out: seq<byte>)
    requires GcmOk(g) && 0 < tagLength <= AES_BLOCK_SIZE && sent != [] && AadFirst(sent)
    ensures error == KM_OK && out == AllText(sent)
  {
    hide AllAad, AllText, AadFirst, Open, Seal, Stream, Cut;
    var ciphertext;
    error, ciphertext := EncryptStream(g, tagLength, sent);
    var aad := WholeAad(sent);
    var received := Stream(Cut(aad, aadLengths), Cut(ciphertext, textLengths));
    CutJoins(aad, aadLengths);
    CutJoins(ciphertext, textLengths);
    StreamText(Cut(aad, aadLengths), Cut(ciphertext, textLengths));
    StreamAadFirst(Cut(aad, aadLengths), Cut(ciphertext, textLengths));
    StreamNotEmpty(Cut(aad, aadLengths), Cut(ciphertext, textLengths));
    OpenSeal(g, tagLength, AllAad(sent), AllText(sent));
    error, out := DecryptStream(g, tagLength, received);
  }

  lemma StreamNotEmpty(aad: seq<seq<byte>>, text: seq<seq<byte>>)
    requires text != []
    ensures Stream(aad, text) != []
  {
  }

  /** The associated data of a stream. */
  method WholeAad(chunks: seq<Chunk>) returns (aad: seq<byte>)
    ensures aad == AllAad(chunks)
  {
    aad := [];
    for i := 0 to |chunks|
      invariant aad == AllAad(chunks[..i])
    {
      ChunksSnoc(chunks, i);
      aad := aad + Given(chunks[i].aad);
    }
    assert chunks[..|chunks|] == chunks;
  }

  /** Text taken from the front of what is held and from new data. */
  lemma AllButTag(f: (nat, byte) -> byte, text: seq<byte>, held: seq<byte>, data: seq<byte>, k: nat, m: nat)
    requires k <= |held| && m <= |data| && (m > 0 ==> k == |held|)
    ensures (text + held[..k] + data[..m]) + (held[k..] + data[m..]) == text + held + data
    ensures Crypt(f, 0, text + held[..k] + data[..m]) ==
            Crypt(f, 0, text) + (Crypt(f, |text|, held[..k]) + Crypt(f, |text + held[..k]|, data[..m]))
  {
    hide Crypt;
    CryptThree(f, text, held[..k], data[..m]);
    PiecesJoin(text, held, data, k, m);
  }

  lemma CryptThree(f: (nat, byte) -> byte, a: seq<byte>, b: seq<byte>, c: seq<byte>)
    ensures Crypt(f, 0, a + b + c) == Crypt(f, 0, a) + (Crypt(f, |a|, b) + Crypt(f, |a + b|, c))
  {
    hide Crypt;
    CryptConcat(f, 0, a, b);
    CryptConcat(f, 0, a + b, c);
    ThreeJoin(Crypt(f, 0, a), Crypt(f, |a|, b), Crypt(f, |a + b|, c));
  }

  lemma ThreeJoin(a: seq<byte>, b: seq<byte>, c: seq<byte>)
    ensures (a + b) + c == a + (b + c)
  {
  }

  lemma PiecesJoin(text: seq<byte>, held: seq<byte>, data: seq<byte>, k: nat, m: nat)
    requires k <= |held| && m <= |data| && (m > 0 ==> k == |held|)
    ensures (text + held[..k] + data[..m]) + (held[k..] + data[m..]) == text + held + data
  {
    assert held == held[..k] + held[k..] && data == data[..m] + data[m..];
  }
}
