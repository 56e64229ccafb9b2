/**
 The OCB context of keymaster/ocb.c in the configured build: 16-byte tags, a
 table of 16 L values and four blocks per iteration.
 */
module Ocb {
  import opened Wrappers
  import opened Bytes
  import opened Blocks
  import opened OcbSpec
  import opened OcbWords
  import opened OcbKeys
  import opened OcbAd
  import opened OcbText

  /** What a message has absorbed so far. */
  datatype Message = Message(nonce: seq<byte>, text: seq<Block>, adBlocks: seq<Block>, reuse: bool)

  class AeCtx {
    var key: Keyed
    var cachedTop: Block
    var ktopStr: seq<Word>
    var offset: Block
    var checksum: Block
    var blocksProcessed: nat
    var adOffset: Block
    var adChecksum: Block
    var adBlocksProcessed: nat

    // The message in progress, and the associated data of the last finished one.
    ghost var message: Message
    ghost var lastAd: seq<byte>

    /** The values computed from the key, and the nonce cache, are right. */
    ghost predicate Ready()
      reads `key, `cachedTop, `ktopStr
    {
      key.Ok() && CacheOk(key.cipher, cachedTop, ktopStr)
    }

    ghost predicate TextState()
      reads `key, `message, `offset, `checksum, `blocksProcessed
    {
      TextOk(key.cipher, message.nonce, message.text, offset, checksum, blocksProcessed)
    }

    ghost predicate AdState()
      reads `key, `message, `lastAd, `adOffset, `adChecksum, `adBlocksProcessed
    {
      AdOk(key.cipher, message, lastAd, adOffset, adChecksum, adBlocksProcessed)
    }

    /** A message has begun and is not finished. */
    ghost predicate InMessage()
      reads this
    {
      Ready() && TextState() && AdState()
    }

    /** ae_allocate: nothing about the context can be relied on. */
    constructor Allocate(k: Keyed)
    {
      key := k;
      offset, checksum, adChecksum, adOffset, cachedTop := *, *, *, *, *;
      ktopStr := *;
      adBlocksProcessed, blocksProcessed := *, *;
      message, lastAd := *, *;
    }

    /** ae_init for a key schedule c. */
    method Init(c: Cipher, nonceLen: int) returns (status: int)
      modifies this
      ensures nonceLen != 12 ==> status == AE_NOT_SUPPORTED && unchanged(this)
      ensures nonceLen == 12 ==>
                && status == AE_SUCCESS && Ready() && key.cipher == c
                && cachedTop == ZERO_BLOCK
                && lastAd == [] && adChecksum == Hash(c, lastAd)
    {
      if nonceLen != 12 {
        return AE_NOT_SUPPORTED;
      }
      key := ComputeKeyed(c);
      cachedTop, adChecksum := ZERO_BLOCK, ZERO_BLOCK;
      adBlocksProcessed := 0;
      lastAd := [];
      return AE_SUCCESS;
    }

    /** gen_offset_from_nonce: the cache never changes the result. */
    method GenOffsetFromNonce(n: seq<byte>) returns (o: Block)
      requires Ready() && |n| == 12
      modifies `cachedTop, `ktopStr
      ensures Ready()
      ensures o == Offset0(key.cipher, n)
    {
      var top := NonceTop(n);
      NonceTopNotZero(n);
      if top != cachedTop {
        cachedTop := top;
        ktopStr := KtopWords(key.cipher.enc(top));
      }
      o := GenOffset(ktopStr, NonceIndex(n));
      NonceOffset(key.cipher, n);
    }

    /** What a non-null nonce does at the head of ae_encrypt and ae_decrypt. */
    method Begin(n: seq<byte>, reuseAd: bool)
      requires Ready() && |n| == 12
      requires reuseAd ==> adChecksum == Hash(key.cipher, lastAd)
      modifies `offset, `checksum, `adOffset, `adChecksum, `cachedTop, `ktopStr,
               `adBlocksProcessed, `blocksProcessed, `message
      ensures InMessage()
      ensures message == Message(n, [], [], reuseAd)
    {
      hide Offset0, Offset, OcbSpec.Hash, HashSum, OcbSpec.Checksum, L, Keyed.Ok, CacheOk, TextOk, AdOk;
      offset := GenOffsetFromNonce(n);
      adOffset, checksum := ZERO_BLOCK, ZERO_BLOCK;
      adBlocksProcessed, blocksProcessed := 0, 0;
      if !reuseAd {
        adChecksum := ZERO_BLOCK;
      }
      message := Message(n, [], [], reuseAd);
      BeginOk(key.cipher, message, lastAd);
    }

    /** The associated-data step of ae_encrypt and ae_decrypt; None is a negative length. */
    method AbsorbAd(ad: Option<seq<byte>>, final: bool)
      requires Ready() && AdState()
      requires AdFits(message, ad, final)
      modifies `adOffset, `adChecksum, `adBlocksProcessed, `message, `lastAd
      ensures !final ==>
                && AdState() && lastAd == old(lastAd)
                && message == old(message).(adBlocks := old(message.adBlocks) + Split(Given(ad)))
      ensures final ==>
                && message == old(message)
                && lastAd == FullAd(old(message), old(lastAd), Given(ad)) && adChecksum == Hash(key.cipher, lastAd)
    {
      hide Offset, HashSum, OcbSpec.Hash, Split, Tail, Join, Keyed.Ok;
      ghost var full := FullAd(message, lastAd, Given(ad));
      if ad.Some? && |ad.value| > 0 {
        var o, c, n := ProcessAd(key, adOffset, adChecksum, adBlocksProcessed, ad.value, final, message.adBlocks);
        adOffset, adChecksum, adBlocksProcessed := o, c, n;
        if !final {
          message := message.(adBlocks := message.adBlocks + Split(ad.value));
        }
      } else {
        NoMoreAd(key.cipher, message.adBlocks);
      }
      if final {
        lastAd := full;
      }
    }

    /** The per-message values and the associated data, before any text. */
    method Prologue(n: Option<seq<byte>>, ad: Option<seq<byte>>, final: bool)
      requires Ready() && (if n.Some? then |n.value| == 12 else InMessage())
      requires n.Some? && ad.None? ==> adChecksum == Hash(key.cipher, lastAd)
      requires AdFits(Continued(n, ad, message), ad, final)
      modifies this
      ensures Ready() && key == old(key) && TextState()
      ensures !final ==>
                && AdState() && lastAd == old(lastAd)
                && message == Extended(Continued(n, ad, old(message)), [], Given(ad))
      ensures final ==>
                && message == Continued(n, ad, old(message))
                && lastAd == FullAd(message, old(lastAd), Given(ad))
                && adChecksum == Hash(key.cipher, lastAd)
    {
      hide OcbSpec.Hash, Split, Tail, Join, Keyed.Ok, TextOk, AdOk, CacheOk;
      if n.Some? {
        Begin(n.value, ad.None?);
      }
      AbsorbAd(ad, final);
    }

    /**
     ae_encrypt.  No nonce continues the message in progress, a null tag bundles
     the tag behind the ciphertext, and pt and ct may be the same buffer.
     */
    method Encrypt(n: Option<seq<byte>>, pt: array<byte>, len: nat, ad: Option<seq<byte>>,
                   ct: array<byte>, tag: array?<byte>, final: bool)
      returns (written: int)
      requires Ready() && (if n.Some? then |n.value| == 12 else InMessage())
      requires n.Some? && ad.None? ==> adChecksum == Hash(key.cipher, lastAd)
      requires AdFits(Continued(n, ad, message), ad, final)
      requires 16 * |Continued(n, ad, message).text| + len < 16 * BLOCK_LIMIT
      requires len <= pt.Length && len <= ct.Length
      requires final && tag == null ==> len + 16 <= ct.Length
      requires tag != null ==> tag.Length >= 16 && tag != ct && tag != pt
      requires final || len % 64 == 0
      modifies this, ct, tag
      ensures Ready() && key == old(key)
      ensures written == len + if final && tag == null then 16 else 0
      ensures ct[..len] == SealPiece(key.cipher, Continued(n, ad, old(message)), old(pt[..len]))
      ensures ct[written..] == old(ct[written..])
      ensures !final ==>
                && InMessage() && lastAd == old(lastAd)
                && message == Extended(Continued(n, ad, old(message)), Split(old(pt[..len])), Given(ad))
      ensures final ==>
                && lastAd == FullAd(Continued(n, ad, old(message)), old(lastAd), Given(ad))
                && adChecksum == Hash(key.cipher, lastAd)
                && (if tag == null then ct[len..written] else tag[..16]) ==
                   StoreBlock(SealTag(key.cipher, Continued(n, ad, old(message)), lastAd, old(pt[..len])))
    {
      hide OcbSpec.Hash, Split, Tail, Join, Keyed.Ok, CacheOk, Offset0, TagOf, StoreBlock, CipherPiece, TextOk,
           Offset, HashSum;
      Prologue(n, ad, final);
      written := SealText(pt, len, ct, tag, final);
    }

    /** The text of one ae_encrypt call, once the associated data is absorbed. */
    method SealText(pt: array<byte>, len: nat, ct: array<byte>, tag: array?<byte>, final: bool) returns (written: int)
      requires key.Ok() && TextState()
      requires 16 * |message.text| + len < 16 * BLOCK_LIMIT
      requires len <= pt.Length && len <= ct.Length
      requires final && tag == null ==> len + 16 <= ct.Length
      requires tag != null ==> tag.Length >= 16 && tag != ct && tag != pt
      requires final || len % 64 == 0
      modifies `offset, `checksum, `blocksProcessed, `message, ct, tag
      ensures written == len + if final && tag == null then 16 else 0
      ensures ct[..len] == CipherPiece(key.cipher, Offset0(key.cipher, old(message).nonce), |old(message).text|,
                                       old(pt[..len]))
      ensures ct[written..] == old(ct[written..])
      ensures !final ==> TextState() && message == old(message).(text := old(message).text + Split(old(pt[..len])))
      ensures final ==>
                && message == old(message)
                && (if tag == null then ct[len..written] else tag[..16]) ==
                   StoreBlock(TagOf(key.cipher, Offset0(key.cipher, message.nonce), adChecksum,
                                    message.text + Split(old(pt[..len])), Tail(old(pt[..len]))))
    {
      hide Offset, Split, Tail, Join, Keyed.Ok, OcbSpec.Checksum, Offset0, TagOf, StoreBlock, CipherPiece;
      ghost var m := message;
      ghost var p := pt[..len];
      var o, c, b;
      o, c, b, written := EncryptText(key, offset, checksum, blocksProcessed, adChecksum, pt, len, ct, tag, final,
                                      Offset0(key.cipher, m.nonce), m.text);
      offset, checksum, blocksProcessed := o, c, b;
      if !final {
        message := m.(text := m.text + Split(p));
      }
    }

    /**
     ae_decrypt.  With a null tag the last 16 of the ctLen bytes are the tag.  The
     result is AE_INVALID exactly when the given tag is not the computed one.
     */
    method Decrypt(n: Option<seq<byte>>, ct: array<byte>, ctLen: nat, ad: Option<seq<byte>>,
                   pt: array<byte>, tag: array?<byte>, final: bool)
      returns (result: int)
      requires Ready() && (if n.Some? then |n.value| == 12 else InMessage())
      requires n.Some? && ad.None? ==> adChecksum == Hash(key.cipher, lastAd)
      requires AdFits(Continued(n, ad, message), ad, final)
      requires final && tag == null ==> ctLen >= 16
      requires 16 * |Continued(n, ad, message).text| + TextLength(ctLen, tag == null, final) < 16 * BLOCK_LIMIT
      requires ctLen <= ct.Length && TextLength(ctLen, tag == null, final) <= pt.Length
      requires tag != null ==> tag.Length >= 16 && tag != ct && tag != pt
      requires final || ctLen % 64 == 0
      modifies this, pt
      ensures Ready() && key == old(key)
      ensures var len := TextLength(ctLen, tag == null, final);
              && pt[..len] == OpenPiece(key.cipher, Continued(n, ad, old(message)), old(ct[..len]))
              && pt[len..] == old(pt[len..])
      ensures !final ==>
                && result == ctLen && InMessage() && lastAd == old(lastAd)
                && message == Extended(Continued(n, ad, old(message)),
                                       OpenBlocks(key.cipher, Continued(n, ad, old(message)), old(ct[..ctLen])),
                                       Given(ad))
      ensures final ==>
                && lastAd == FullAd(Continued(n, ad, old(message)), old(lastAd), Given(ad))
                && adChecksum == Hash(key.cipher, lastAd)
                && var len := TextLength(ctLen, tag == null, final);
                   result == if old(if tag == null then ct[len..ctLen] else tag[..16]) ==
                                StoreBlock(OpenTag(key.cipher, Continued(n, ad, old(message)), lastAd, old(ct[..len])))
                             then len else AE_INVALID
    {
      hide OcbSpec.Hash, Split, Tail, Join, Keyed.Ok, CacheOk, Offset0, TagOf, StoreBlock, PlainPiece, PlainTail,
           DecryptBlocks, TextOk, Offset, HashSum;
      var len := ctLen;
      if final && tag == null {
        len := len - 16;
      }
      Prologue(n, ad, final);
      result := OpenText(ct, len, pt, tag, final);
    }

    /** The text of one ae_decrypt call, once the associated data is absorbed. */
    method OpenText(ct: array<byte>, len: nat, pt: array<byte>, tag: array?<byte>, final: bool) returns (result: int)
      requires key.Ok() && TextState()
      requires 16 * |message.text| + len < 16 * BLOCK_LIMIT
      requires len <= pt.Length && len <= ct.Length
      requires final && tag == null ==> len + 16 <= ct.Length
      requires tag != null ==> tag.Length >= 16 && tag != ct && tag != pt
      requires final || len % 64 == 0
      modifies `offset, `checksum, `blocksProcessed, `message, pt
      ensures pt[..len] == PlainPiece(key.cipher, Offset0(key.cipher, old(message).nonce), |old(message).text|,
                                      old(ct[..len]))
      ensures pt[len..] == old(pt[len..])
      ensures !final ==>
                && result == len && TextState()
                && message == old(message).(text := old(message).text +
                                            OpenBlocks(key.cipher, old(message), old(ct[..len])))
      ensures final ==>
                && message == old(message)
                && var start := Offset0(key.cipher, message.nonce);
                   result == if old(if tag == null then ct[len..len + 16] else tag[..16]) ==
                                StoreBlock(TagOf(key.cipher, start, adChecksum,
                                                 message.text + OpenBlocks(key.cipher, message, old(ct[..len])),
                                                 PlainTail(key.cipher, start, |message.text|, old(ct[..len]))))
                             then len else AE_INVALID
    {
      hide Offset, Split, Tail, Join, Keyed.Ok, OcbSpec.Checksum, Offset0, TagOf, StoreBlock, PlainPiece, PlainTail,
           DecryptBlocks;
      ghost var m := message;
      ghost var s := ct[..len];
      var o, c, b;
      o, c, b, result := DecryptText(key, offset, checksum, blocksProcessed, adChecksum, ct, len, pt, tag, final,
                                     Offset0(key.cipher, m.nonce), m.text);
      offset, checksum, blocksProcessed := o, c, b;
      if !final {
        message := m.(text := m.text + OpenBlocks(key.cipher, m, s));
      }
    }
  }

  // What a call does to the message and to its buffers.

  function Extended(m: Message, text: seq<Block>, ad: seq<byte>): Message {
    m.(text := m.text + text, adBlocks := m.adBlocks + Split(ad))
  }

  /** The associated data of a message whose last piece is `ad`. */
  function FullAd(m: Message, lastAd: seq<byte>, ad: seq<byte>): seq<byte> {
    if m.reuse then lastAd else Join(m.adBlocks) + ad
  }

  function SealPiece(c: Cipher, m: Message, p: seq<byte>): seq<byte>
    requires |m.nonce| == 12
  {
    CipherPiece(c, Offset0(c, m.nonce), |m.text|, p)
  }

  function SealTag(c: Cipher, m: Message, fullAd: seq<byte>, p: seq<byte>): Block
    requires |m.nonce| == 12
  {
    TagOf(c, Offset0(c, m.nonce), Hash(c, fullAd), m.text + Split(p), Tail(p))
  }

  /** The ciphertext length once a bundled tag is taken off. */
  function TextLength(ctLen: nat, bundled: bool, final: bool): nat
    requires final && bundled ==> ctLen >= 16
  {
    if final && bundled then ctLen - 16 else ctLen
  }

  function OpenBlocks(c: Cipher, m: Message, s: seq<byte>): seq<Block>
    requires |m.nonce| == 12
  {
    DecryptBlocks(c, Offset0(c, m.nonce), |m.text|, Split(s))
  }

  function OpenPiece(c: Cipher, m: Message, s: seq<byte>): seq<byte>
    requires |m.nonce| == 12
  {
    PlainPiece(c, Offset0(c, m.nonce), |m.text|, s)
  }

  function OpenTag(c: Cipher, m: Message, fullAd: seq<byte>, s: seq<byte>): Block
    requires |m.nonce| == 12
  {
    var start := Offset0(c, m.nonce);
    TagOf(c, start, Hash(c, fullAd), m.text + OpenBlocks(c, m, s), PlainTail(c, start, |m.text|, s))
  }

  /** A null or absent piece of associated data is empty. */
  function Given(ad: Option<seq<byte>>): seq<byte> {
    if ad.Some? then ad.value else []
  }

  /** The message a call works on: a new one if a nonce is given. */
  function Continued(n: Option<seq<byte>>, ad: Option<seq<byte>>, m: Message): Message {
    if n.Some? then Message(n.value, [], [], ad.None?) else m
  }

  /**
   Associated data stays below the block limit, arrives in whole groups of four
   blocks until the last call, and is not given where that of the last message is
   used again.
   */
  predicate AdFits(m: Message, ad: Option<seq<byte>>, final: bool) {
    && 16 * |m.adBlocks| + |Given(ad)| < 16 * BLOCK_LIMIT
    && (final || |Given(ad)| % 64 == 0)
    && (m.reuse ==> Given(ad) == [])
  }

  lemma NoMoreAd(c: Cipher, blocks: seq<Block>)
    ensures blocks + Split([]) == blocks
    ensures HashSum(c, blocks) == Hash(c, Join(blocks) + [])
  {
    SplitTailJoin(blocks, []);
    assert blocks + Split([]) == blocks;
  }

  ghost predicate CacheOk(c: Cipher, cachedTop: Block, ktopStr: seq<Word>) {
    cachedTop != ZERO_BLOCK ==> ktopStr == KtopWords(c.enc(cachedTop))
  }

  ghost predicate TextOk(c: Cipher, nonce: seq<byte>, text: seq<Block>,
                         offset: Block, checksum: Block, blocksProcessed: nat)
  {
    && |nonce| == 12
    && offset == Offset(c, Offset0(c, nonce), |text|) && checksum == Checksum(text)
    && blocksProcessed == |text| && blocksProcessed % 4 == 0
  }

  ghost predicate AdOk(c: Cipher, m: Message, lastAd: seq<byte>,
                       adOffset: Block, adChecksum: Block, adBlocksProcessed: nat)
  {
    && adOffset == Offset(c, ZERO_BLOCK, |m.adBlocks|)
    && adBlocksProcessed == |m.adBlocks| && adBlocksProcessed % 4 == 0
    && (m.reuse ==> m.adBlocks == [])
    && adChecksum == if m.reuse then Hash(c, lastAd) else HashSum(c, m.adBlocks)
  }

  lemma BeginOk(c: Cipher, m: Message, lastAd: seq<byte>)
    requires |m.nonce| == 12 && m.text == [] && m.adBlocks == []
    ensures TextOk(c, m.nonce, m.text, Offset0(c, m.nonce), ZERO_BLOCK, 0)
    ensures AdOk(c, m, lastAd, ZERO_BLOCK, if m.reuse then Hash(c, lastAd) else ZERO_BLOCK, 0)
  {
  }
}
