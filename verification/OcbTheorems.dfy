/**
 What the OCB context computes over whole messages: RFC 7253 for one call and for
 any number of pending calls, and decryption as the inverse of encryption.
 */
module OcbTheorems {
  import opened Wrappers
  import opened Bytes
  import opened Blocks
  import opened OcbSpec
  import opened OcbSums
  import opened OcbKeys
  import opened OcbText
  import opened Memory
  import opened Ocb

  /** The associated data and the text of one call. */
  datatype Piece = Piece(ad: seq<byte>, text: seq<byte>)

  function WholeText(pieces: seq<Piece>): seq<byte> {
    if pieces == [] then [] else WholeText(pieces[..|pieces| - 1]) + pieces[|pieces| - 1].text
  }

  function WholeAd(pieces: seq<Piece>): seq<byte> {
    if pieces == [] then [] else WholeAd(pieces[..|pieces| - 1]) + pieces[|pieces| - 1].ad
  }

  lemma WholeSnoc(pieces: seq<Piece>, p: Piece)
    ensures WholeText(pieces + [p]) == WholeText(pieces) + p.text
    ensures WholeAd(pieces + [p]) == WholeAd(pieces) + p.ad
  {
    assert (pieces + [p])[..|pieces|] == pieces;
  }

  /** Every pending call brings whole groups of four blocks. */
  predicate InGroups(pieces: seq<Piece>) {
    forall i | 0 <= i < |pieces| :: |pieces[i].ad| % 64 == 0 && |pieces[i].text| % 64 == 0
  }

  lemma {:induction false} WholeInGroups(pieces: seq<Piece>)
    requires InGroups(pieces)
    ensures |WholeText(pieces)| % 64 == 0 && |WholeAd(pieces)| % 64 == 0
  {
    if pieces != [] {
      var n := |pieces| - 1;
      WholeInGroups(pieces[..n]);
      SumInGroups(|WholeText(pieces[..n])|, |pieces[n].text|);
      SumInGroups(|WholeAd(pieces[..n])|, |pieces[n].ad|);
    }
  }

  lemma SumInGroups(a: nat, b: nat)
    requires a % 64 == 0 && b % 64 == 0
    ensures (a + b) % 64 == 0
  {
  }

  lemma {:induction false} WholeBound(pieces: seq<Piece>, i: nat)
    requires i <= |pieces|
    ensures |WholeText(pieces[..i])| <= |WholeText(pieces)|
    ensures |WholeAd(pieces[..i])| <= |WholeAd(pieces)|
    decreases |pieces| - i
  {
    if i == |pieces| {
      assert pieces[..i] == pieces;
    } else {
      WholeBound(pieces, i + 1);
      assert pieces[..i + 1] == pieces[..i] + [pieces[i]];
      WholeSnoc(pieces[..i], pieces[i]);
    }
  }

  /** Appending to whole groups appends blocks. */
  lemma SplitConcat(a: seq<byte>, b: seq<byte>)
    requires |a| % 64 == 0
    ensures Split(a + b) == Split(a) + Split(b) && Tail(a + b) == Tail(b)
    ensures |Split(a)| == |a| / 16 && Tail(a) == [] && Join(Split(a)) == a
  {
    hide Split, Tail, Join;
    var k := |a| / 16;
    SplitCount(a, k);
    JoinSplitTail(a);
    SplitTailJoin(Split(a), b);
    assert Join(Split(a)) + [] == Join(Split(a));
  }

  lemma XorTailNone(pad: Block)
    ensures XorTail([], pad) == []
  {
  }

  lemma CipherPieceConcat(c: Cipher, start: Block, from: nat, a: seq<byte>, b: seq<byte>)
    requires |a| % 64 == 0
    ensures CipherPiece(c, start, from, a + b) ==
            CipherPiece(c, start, from, a) + CipherPiece(c, start, from + |Split(a)|, b)
  {
    hide Split, Tail, Join, EncryptBlocks, XorTail, FinalPad;
    SplitConcat(a, b);
    XorTailNone(FinalPad(c, start, from + |Split(a)|));
    EncryptBlocksConcat(c, start, from, Split(a), Split(b));
    JoinConcat(EncryptBlocks(c, start, from, Split(a)), EncryptBlocks(c, start, from + |Split(a)|, Split(b)));
  }

  lemma PlainPieceConcat(c: Cipher, start: Block, from: nat, a: seq<byte>, b: seq<byte>)
    requires |a| % 64 == 0
    ensures PlainPiece(c, start, from, a + b) ==
            PlainPiece(c, start, from, a) + PlainPiece(c, start, from + |Split(a)|, b)
  {
    hide Split, Tail, Join, DecryptBlocks, XorTail, FinalPad;
    SplitConcat(a, b);
    XorTailNone(FinalPad(c, start, from + |Split(a)|));
    DecryptBlocksConcat(c, start, from, Split(a), Split(b));
    JoinConcat(DecryptBlocks(c, start, from, Split(a)), DecryptBlocks(c, start, from + |Split(a)|, Split(b)));
  }

  /** The message after the pieces so far. */
  ghost function Sealing(nonce: seq<byte>, pieces: seq<Piece>): Message {
    Message(nonce, Split(WholeText(pieces)), Split(WholeAd(pieces)), false)
  }

  lemma SealingMore(nonce: seq<byte>, pieces: seq<Piece>, p: Piece)
    requires InGroups(pieces)
    ensures Sealing(nonce, pieces + [p]) == Extended(Sealing(nonce, pieces), Split(p.text), p.ad)
  {
    hide Split, WholeText, WholeAd;
    WholeInGroups(pieces);
    WholeSnoc(pieces, p);
    SplitConcat(WholeText(pieces), p.text);
    SplitConcat(WholeAd(pieces), p.ad);
  }

  /** The final call of a message in pieces completes the RFC result. */
  lemma SealLast(c: Cipher, nonce: seq<byte>, pieces: seq<Piece>, last: Piece, lastAd: seq<byte>)
    requires |nonce| == 12 && InGroups(pieces)
    ensures var m := Sealing(nonce, pieces);
            var fullAd := FullAd(m, lastAd, last.ad);
            var all := pieces + [last];
            Sealed(CipherText(c, Offset0(c, nonce), WholeText(pieces)) + SealPiece(c, m, last.text),
                   SealTag(c, m, fullAd, last.text)) ==
            OcbSpec.Encrypt(c, nonce, WholeAd(all), WholeText(all))
  {
    hide Split, Tail, Join, Offset0, TagOf, CipherPiece, OcbSpec.Hash, WholeText, WholeAd;
    WholeInGroups(pieces);
    WholeSnoc(pieces, last);
    SplitConcat(WholeText(pieces), last.text);
    SplitConcat(WholeAd(pieces), last.ad);
    CipherPieceConcat(c, Offset0(c, nonce), 0, WholeText(pieces), last.text);
  }

  method ArrayOf(s: seq<byte>) returns (a: array<byte>)
    ensures fresh(a) && a[..] == s
  {
    a := new byte[|s|](i requires 0 <= i < |s| => s[i]);
  }

  /**
   Encrypts a message cut into any number of pending calls and one final call.
   Every text buffer is encrypted in place.
   */
  method SealInPieces(ctx: AeCtx, nonce: seq<byte>, pieces: seq<Piece>, last: Piece)
    returns (out: seq<byte>, tag: seq<byte>)
    requires ctx.Ready() && |nonce| == 12 && InGroups(pieces)
    requires |WholeText(pieces + [last])| < 16 * BLOCK_LIMIT
    requires |WholeAd(pieces + [last])| < 16 * BLOCK_LIMIT
    modifies ctx
    ensures ctx.Ready() && |tag| == 16
    ensures Sealed(out, LoadBlock(tag)) ==
            OcbSpec.Encrypt(old(ctx.key.cipher), nonce, WholeAd(pieces + [last]), WholeText(pieces + [last]))
  {
    hide Split, Tail, Join, Offset0, TagOf, CipherPiece, OcbSpec.Hash, WholeText, WholeAd, Keyed.Ok, CacheOk,
         TextOk, AdOk, LoadBlock, StoreBlock;
    ghost var c := ctx.key.cipher;
    out := [];
    var i := 0;
    WholeSnoc(pieces, last);
    NothingSealed(c, nonce);
    while i < |pieces|
      invariant 0 <= i <= |pieces|
      invariant ctx.Ready() && ctx.key.cipher == c
      invariant i > 0 ==> ctx.InMessage() && ctx.message == Sealing(nonce, pieces[..i])
      invariant out == CipherText(c, Offset0(c, nonce), WholeText(pieces[..i]))
    {
      var n := if i == 0 then Some(nonce) else None;
      StepFits(pieces, i, last);
      ghost var m := Continued(n, Some(pieces[i].ad), ctx.message);
      assert m == Sealing(nonce, pieces[..i]) by { SealingNone(nonce, pieces); }
      var buffer := ArrayOf(pieces[i].text);
      assert buffer[..|pieces[i].text|] == pieces[i].text;
      var written := ctx.Encrypt(n, buffer, |pieces[i].text|, Some(pieces[i].ad), buffer, null, false);
      assert pieces[..i + 1] == pieces[..i] + [pieces[i]];
      SealingMore(nonce, pieces[..i], pieces[i]);
      WholeSnoc(pieces[..i], pieces[i]);
      WholeInGroups(pieces[..i]);
      CipherPieceConcat(c, Offset0(c, nonce), 0, WholeText(pieces[..i]), pieces[i].text);
      out := out + buffer[..|pieces[i].text|];
      i := i + 1;
    }
    assert pieces[..i] == pieces;
    var n := if i == 0 then Some(nonce) else None;
    LastFits(pieces, last);
    ghost var m := Continued(n, Some(last.ad), ctx.message);
    assert m == Sealing(nonce, pieces) by { SealingNone(nonce, pieces); }
    SealLast(c, nonce, pieces, last, ctx.lastAd);
    var buffer := ArrayOf(last.text);
    assert buffer[..|last.text|] == last.text;
    var tagBuffer := new byte[16];
    var written := ctx.Encrypt(n, buffer, |last.text|, Some(last.ad), buffer, tagBuffer, true);
    LoadStore(SealTag(c, m, ctx.lastAd, last.text));
    out := out + buffer[..|last.text|];
    tag := tagBuffer[..16];
  }

  /**
   Encrypts one message with associated data and then another without any, which
   takes that of the first.
   */
  method SealWithSameAd(ctx: AeCtx, nonce1: seq<byte>, ad: seq<byte>, text1: seq<byte>,
                        nonce2: seq<byte>, text2: seq<byte>)
    returns (out: seq<byte>, tag: seq<byte>)
    requires ctx.Ready() && |nonce1| == |nonce2| == 12
    requires |text1| < 16 * BLOCK_LIMIT && |text2| < 16 * BLOCK_LIMIT && |ad| < 16 * BLOCK_LIMIT
    modifies ctx
    ensures ctx.Ready() && |tag| == 16
    ensures Sealed(out, LoadBlock(tag)) == OcbSpec.Encrypt(old(ctx.key.cipher), nonce2, ad, text2)
  {
    hide Split, Tail, Join, Offset0, TagOf, CipherPiece, OcbSpec.Hash, Keyed.Ok, CacheOk, TextOk, AdOk, LoadBlock,
         StoreBlock, SealTag, SealPiece;
    ghost var c := ctx.key.cipher;
    var buffer := ArrayOf(text1);
    var tagBuffer := new byte[16];
    var written := ctx.Encrypt(Some(nonce1), buffer, |text1|, Some(ad), buffer, tagBuffer, true);
    NoBlocksYet(ad);
    assert ctx.lastAd == ad;
    buffer := ArrayOf(text2);
    assert buffer[..|text2|] == text2;
    written := ctx.Encrypt(Some(nonce2), buffer, |text2|, None, buffer, tagBuffer, true);
    ghost var m := Message(nonce2, [], [], true);
    LoadStore(SealTag(c, m, ad, text2));
    SealedOnce(c, nonce2, ad, text2);
    out, tag := buffer[..|text2|], tagBuffer[..16];
  }

  lemma NoBlocksYet(ad: seq<byte>)
    ensures Join([]) + ad == ad
  {
  }

  lemma SealedOnce(c: Cipher, nonce: seq<byte>, ad: seq<byte>, p: seq<byte>)
    requires |nonce| == 12
    ensures var m := Message(nonce, [], [], true);
            Sealed(SealPiece(c, m, p), SealTag(c, m, ad, p)) == OcbSpec.Encrypt(c, nonce, ad, p)
  {
    hide Split, Tail, Offset0, TagOf, CipherPiece, OcbSpec.Hash;
    assert [] + Split(p) == Split(p);
  }

  lemma NothingSealed(c: Cipher, nonce: seq<byte>)
    requires |nonce| == 12
    ensures CipherText(c, Offset0(c, nonce), WholeText([])) == []
  {
  }

  lemma SealingNone(nonce: seq<byte>, pieces: seq<Piece>)
    ensures Sealing(nonce, pieces[..0]) == Message(nonce, [], [], false)
  {
  }

  lemma StepFits(pieces: seq<Piece>, i: nat, last: Piece)
    requires i < |pieces| && InGroups(pieces)
    requires |WholeText(pieces + [last])| < 16 * BLOCK_LIMIT
    requires |WholeAd(pieces + [last])| < 16 * BLOCK_LIMIT
    ensures 16 * |Split(WholeText(pieces[..i]))| + |pieces[i].text| < 16 * BLOCK_LIMIT
    ensures 16 * |Split(WholeAd(pieces[..i]))| + |pieces[i].ad| < 16 * BLOCK_LIMIT
  {
    hide Split, Tail;
    WholeSnoc(pieces, last);
    WholeBound(pieces, i + 1);
    assert pieces[..i + 1] == pieces[..i] + [pieces[i]];
    WholeSnoc(pieces[..i], pieces[i]);
    WholeInGroups(pieces[..i]);
    SplitConcat(WholeText(pieces[..i]), []);
    SplitConcat(WholeAd(pieces[..i]), []);
  }

  lemma LastFits(pieces: seq<Piece>, last: Piece)
    requires InGroups(pieces)
    requires |WholeText(pieces + [last])| < 16 * BLOCK_LIMIT
    requires |WholeAd(pieces + [last])| < 16 * BLOCK_LIMIT
    ensures 16 * |Split(WholeText(pieces))| + |last.text| < 16 * BLOCK_LIMIT
    ensures 16 * |Split(WholeAd(pieces))| + |last.ad| < 16 * BLOCK_LIMIT
  {
    hide Split, Tail;
    WholeSnoc(pieces, last);
    WholeInGroups(pieces);
    SplitConcat(WholeText(pieces), []);
    SplitConcat(WholeAd(pieces), []);
  }

  /** The blocks and the short rest of a recovered plaintext. */
  lemma PlainSplit(c: Cipher, start: Block, from: nat, s: seq<byte>)
    ensures Split(PlainPiece(c, start, from, s)) == DecryptBlocks(c, start, from, Split(s))
    ensures Tail(PlainPiece(c, start, from, s)) == PlainTail(c, start, from, s)
  {
    hide XorTail, FinalPad, DecryptBlocks, Join;
    var t := PlainTail(c, start, from, s);
    SplitTailJoin(DecryptBlocks(c, start, from, Split(s)), t);
    assert Split(t) == [] && Tail(t) == t;
  }

  ghost function Opening(c: Cipher, nonce: seq<byte>, pieces: seq<Piece>): Message
    requires |nonce| == 12
  {
    Message(nonce, DecryptBlocks(c, Offset0(c, nonce), 0, Split(WholeText(pieces))), Split(WholeAd(pieces)), false)
  }

  lemma OpeningMore(c: Cipher, nonce: seq<byte>, pieces: seq<Piece>, p: Piece)
    requires |nonce| == 12 && InGroups(pieces)
    ensures var m := Opening(c, nonce, pieces);
            Opening(c, nonce, pieces + [p]) == Extended(m, OpenBlocks(c, m, p.text), p.ad)
  {
    hide Split, WholeText, WholeAd, DecryptBlocks, Offset0;
    WholeInGroups(pieces);
    WholeSnoc(pieces, p);
    SplitConcat(WholeText(pieces), p.text);
    SplitConcat(WholeAd(pieces), p.ad);
    DecryptBlocksConcat(c, Offset0(c, nonce), 0, Split(WholeText(pieces)), Split(p.text));
  }

  /** The final call of a ciphertext in pieces completes the RFC result. */
  lemma OpenLast(c: Cipher, nonce: seq<byte>, pieces: seq<Piece>, last: Piece, lastAd: seq<byte>)
    requires |nonce| == 12 && InGroups(pieces)
    ensures var m := Opening(c, nonce, pieces);
            var start := Offset0(c, nonce);
            var all := pieces + [last];
            var plain := PlainText(c, start, WholeText(all));
            && PlainText(c, start, WholeText(pieces)) + OpenPiece(c, m, last.text) == plain
            && OpenTag(c, m, FullAd(m, lastAd, last.ad), last.text) == Tag(c, start, WholeAd(all), plain)
  {
    hide Split, Tail, Join, Offset0, TagOf, PlainPiece, DecryptBlocks, OcbSpec.Hash, WholeText, WholeAd, FinalPad,
         XorTail;
    WholeInGroups(pieces);
    WholeSnoc(pieces, last);
    SplitConcat(WholeText(pieces), last.text);
    SplitConcat(WholeAd(pieces), last.ad);
    var start := Offset0(c, nonce);
    PlainPieceConcat(c, start, 0, WholeText(pieces), last.text);
    DecryptBlocksConcat(c, start, 0, Split(WholeText(pieces)), Split(last.text));
    PlainSplit(c, start, 0, WholeText(pieces + [last]));
  }

  /**
   Decrypts a ciphertext cut into any number of pending calls and one final call,
   in place, and checks the tag.
   */
  method OpenInPieces(ctx: AeCtx, nonce: seq<byte>, pieces: seq<Piece>, last: Piece, tag: seq<byte>)
    returns (r: Opened)
    requires ctx.Ready() && |nonce| == 12 && InGroups(pieces) && |tag| == 16
    requires |WholeText(pieces + [last])| < 16 * BLOCK_LIMIT
    requires |WholeAd(pieces + [last])| < 16 * BLOCK_LIMIT
    modifies ctx
    ensures ctx.Ready()
    ensures r == OcbSpec.Decrypt(old(ctx.key.cipher), nonce, WholeAd(pieces + [last]),
                                 Sealed(WholeText(pieces + [last]), LoadBlock(tag)))
  {
    hide Split, Tail, Join, Offset0, TagOf, PlainPiece, OcbSpec.Hash, WholeText, WholeAd, Keyed.Ok, CacheOk,
         TextOk, AdOk, LoadBlock, StoreBlock, DecryptBlocks, OpenTag;
    ghost var c := ctx.key.cipher;
    var out := [];
    var i := 0;
    WholeSnoc(pieces, last);
    NothingOpened(c, nonce, pieces);
    while i < |pieces|
      invariant 0 <= i <= |pieces|
      invariant ctx.Ready() && ctx.key.cipher == c
      invariant i > 0 ==> ctx.InMessage() && ctx.message == Opening(c, nonce, pieces[..i])
      invariant out == PlainText(c, Offset0(c, nonce), WholeText(pieces[..i]))
    {
      var n := if i == 0 then Some(nonce) else None;
      StepFits(pieces, i, last);
      ghost var m := Continued(n, Some(pieces[i].ad), ctx.message);
      assert m == Opening(c, nonce, pieces[..i]);
      var buffer := ArrayOf(pieces[i].text);
      assert buffer[..|pieces[i].text|] == pieces[i].text;
      var result := ctx.Decrypt(n, buffer, |pieces[i].text|, Some(pieces[i].ad), buffer, null, false);
      assert pieces[..i + 1] == pieces[..i] + [pieces[i]];
      OpeningMore(c, nonce, pieces[..i], pieces[i]);
      WholeSnoc(pieces[..i], pieces[i]);
      WholeInGroups(pieces[..i]);
      PlainPieceConcat(c, Offset0(c, nonce), 0, WholeText(pieces[..i]), pieces[i].text);
      out := out + buffer[..|pieces[i].text|];
      i := i + 1;
    }
    assert pieces[..i] == pieces;
    var n := if i == 0 then Some(nonce) else None;
    LastFits(pieces, last);
    ghost var m := Continued(n, Some(last.ad), ctx.message);
    assert m == Opening(c, nonce, pieces);
    OpenLast(c, nonce, pieces, last, ctx.lastAd);
    var buffer := ArrayOf(last.text);
    assert buffer[..|last.text|] == last.text;
    var tagBuffer := ArrayOf(tag);
    assert tagBuffer[..16] == tag;
    var result := ctx.Decrypt(n, buffer, |last.text|, Some(last.ad), buffer, tagBuffer, true);
    LoadStore(OpenTag(c, m, ctx.lastAd, last.text));
    StoreLoad(tag);
    out := out + buffer[..|last.text|];
    r := if result == AE_INVALID then Invalid else Opened(out);
  }

  lemma NothingOpened(c: Cipher, nonce: seq<byte>, pieces: seq<Piece>)
    requires |nonce| == 12
    ensures PlainText(c, Offset0(c, nonce), WholeText(pieces[..0])) == []
    ensures Opening(c, nonce, pieces[..0]) == Message(nonce, [], [], false)
  {
  }

  /** Opening what was sealed at the same point of a message recovers it, and its tag agrees. */
  lemma OpenUndoesSeal(c: Cipher, m: Message, fullAd: seq<byte>, p: seq<byte>)
    requires IsPermutation(c) && |m.nonce| == 12
    ensures OpenPiece(c, m, SealPiece(c, m, p)) == p
    ensures OpenTag(c, m, fullAd, SealPiece(c, m, p)) == SealTag(c, m, fullAd, p)
  {
    hide Split, Tail, Join, Offset0, TagOf, PlainPiece, CipherPiece, DecryptBlocks, OcbSpec.Hash, FinalPad, XorTail;
    var start := Offset0(c, m.nonce);
    PlainCipherPiece(c, start, |m.text|, p);
    PlainSplit(c, start, |m.text|, SealPiece(c, m, p));
  }

  /** Encrypts in place with a bundled tag and decrypts the same buffer again. */
  method BundledRoundTrip(ctx: AeCtx, nonce: seq<byte>, ad: seq<byte>, buffer: array<byte>, len: nat)
    returns (sealedLen: int, result: int)
    requires ctx.Ready() && IsPermutation(ctx.key.cipher) && |nonce| == 12
    requires len < 16 * BLOCK_LIMIT && |ad| < 16 * BLOCK_LIMIT && len + 16 <= buffer.Length
    modifies ctx, buffer
    ensures ctx.Ready() && sealedLen == len + 16
    ensures result == len && buffer[..len] == old(buffer[..len])
  {
    hide Split, Tail, Join, Offset0, TagOf, CipherPiece, PlainPiece, OcbSpec.Hash, Keyed.Ok, CacheOk,
         TextOk, AdOk, StoreBlock, SealTag, OpenTag, SealPiece, OpenPiece;
    ghost var p := buffer[..len];
    ghost var m := Message(nonce, [], [], false);
    ghost var full := FullAd(m, [], ad);
    OpenUndoesSeal(ctx.key.cipher, m, full, p);
    sealedLen := ctx.Encrypt(Some(nonce), buffer, len, Some(ad), buffer, null, true);
    result := ctx.Decrypt(Some(nonce), buffer, sealedLen, Some(ad), buffer, null, true);
  }
}
