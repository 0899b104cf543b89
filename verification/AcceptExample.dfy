/** The worked example of section 1.3 of RFC 6455, calculated: the accept value of the key
    "dGhlIHNhbXBsZSBub25jZQ==". The text hashed fills two blocks; `IsFirst` and `IsSecond` are those
    blocks, the schedules are taken sixteen words and the rounds eight at a time. */
module AcceptExample {
  import opened Bytes
  import opened Sha1
  import Base64
  import Handshake
  import Mask
  import Utf8

  const KEY := "dGhlIHNhbXBsZSBub25jZQ=="
  const ACCEPT := "s3pPLMBiTxaQ9kYGzzhZRbK+xOo="

  // ---- One step of the calculation ------------------------------------------------------------------

  /** One more word of the schedule. */
  lemma NextWord(block: Block, t: nat, w: bv32)
    requires t >= 16
    requires (W(block, t - 3) ^ W(block, t - 8) ^ W(block, t - 14) ^ W(block, t - 16)).RotateLeft(1) == w
    ensures W(block, t) == w
  {
    hide W;
    WStep(block, t);
  }

  /** One more round. */
  lemma NextRound(block: Block, t: nat, h: Words, v: Words, w: bv32, a: bv32) returns (r: Words)
    requires Rounds(block, t, h) == v && W(block, t) == w
    requires Add(Add(Add(Add(Rotl(v.a, 5), F(t, v.b, v.c, v.d)), v.e), K(t)), w) == a
    ensures Rounds(block, t + 1, h) == r == Words(a, v.a, Rotl(v.b, 30), v.c, v.d)
  {
    hide W, F, K, Add, Rotl;
    r := Words(a, v.a, Rotl(v.b, 30), v.c, v.d);
  }

  // ---- The blocks -----------------------------------------------------------------------------------

  predicate IsFirst(block: Block) {
    W(block, 0) == 0x6447686C && W(block, 1) == 0x49484E68 && W(block, 2) == 0x62584273 &&
    W(block, 3) == 0x5A534275 && W(block, 4) == 0x6232356A && W(block, 5) == 0x5A513D3D &&
    W(block, 6) == 0x32353845 && W(block, 7) == 0x41464135 && W(block, 8) == 0x2D453931 &&
    W(block, 9) == 0x342D3437 && W(block, 10) == 0x44412D39 && W(block, 11) == 0x3543412D &&
    W(block, 12) == 0x43354142 && W(block, 13) == 0x30444338 && W(block, 14) == 0x35423131 &&
    W(block, 15) == 0x80000000
  }

  predicate IsSecond(block: Block) {
    W(block, 0) == 0x00000000 && W(block, 1) == 0x00000000 && W(block, 2) == 0x00000000 &&
    W(block, 3) == 0x00000000 && W(block, 4) == 0x00000000 && W(block, 5) == 0x00000000 &&
    W(block, 6) == 0x00000000 && W(block, 7) == 0x00000000 && W(block, 8) == 0x00000000 &&
    W(block, 9) == 0x00000000 && W(block, 10) == 0x00000000 && W(block, 11) == 0x00000000 &&
    W(block, 12) == 0x00000000 && W(block, 13) == 0x00000000 && W(block, 14) == 0x00000000 &&
    W(block, 15) == 0x000001E0
  }

  /** The hash value between the two blocks, and behind them. */
  const MIDDLE := Words(0x5BCF7727, 0x7327416A, 0xBE7BFBF9, 0x5A781878, 0x5E46A4E2)
  const FINAL := Words(0xB37A4F2C, 0xC0624F16, 0x90F64606, 0xCF385945, 0xB2BEC4EA)

  // ---- The first block ------------------------------------------------------------------------------

  lemma FirstWords16(block: Block)
    requires IsFirst(block)
    ensures W(block, 16) == 0x363CA02C && W(block, 17) == 0x24E81236 && W(block, 18) == 0x8856B441
    ensures W(block, 19) == 0x06FB3C92 && W(block, 20) == 0x6FB4BCB6 && W(block, 21) == 0x460B16E3
    ensures W(block, 22) == 0x599219AE && W(block, 23) == 0x35BF9369
  {
    hide W;
    NextWord(block, 16, 0x363CA02C);
    NextWord(block, 17, 0x24E81236);
    NextWord(block, 18, 0x8856B441);
    NextWord(block, 19, 0x06FB3C92);
    NextWord(block, 20, 0x6FB4BCB6);
    NextWord(block, 21, 0x460B16E3);
    NextWord(block, 22, 0x599219AE);
    NextWord(block, 23, 0x35BF9369);
  }

  lemma FirstWords24(block: Block)
    requires IsFirst(block)
    ensures W(block, 24) == 0x3267458E && W(block, 25) == 0xF828FD04 && W(block, 26) == 0x753A96A7
    ensures W(block, 27) == 0x6336F612 && W(block, 28) == 0xC3D66383 && W(block, 29) == 0x06EB86F9
    ensures W(block, 30) == 0x73B4FD42 && W(block, 31) == 0xA503C5B8
  {
    hide W;
    FirstWords16(block);
    NextWord(block, 24, 0x3267458E);
    NextWord(block, 25, 0xF828FD04);
    NextWord(block, 26, 0x753A96A7);
    NextWord(block, 27, 0x6336F612);
    NextWord(block, 28, 0xC3D66383);
    NextWord(block, 29, 0x06EB86F9);
    NextWord(block, 30, 0x73B4FD42);
    NextWord(block, 31, 0xA503C5B8);
  }

  lemma FirstWords32(block: Block)
    requires IsFirst(block)
    ensures W(block, 32) == 0x15CDAE35 && W(block, 33) == 0x531E5DC5 && W(block, 34) == 0x6FB6B7D0
    ensures W(block, 35) == 0x6C16E4AC && W(block, 36) == 0x4DDD36BD && W(block, 37) == 0x35D36946
    ensures W(block, 38) == 0xE8AE8B9C && W(block, 39) == 0x4A933AD0
  {
    hide W;
    FirstWords16(block);
    FirstWords24(block);
    NextWord(block, 32, 0x15CDAE35);
    NextWord(block, 33, 0x531E5DC5);
    NextWord(block, 34, 0x6FB6B7D0);
    NextWord(block, 35, 0x6C16E4AC);
    NextWord(block, 36, 0x4DDD36BD);
    NextWord(block, 37, 0x35D36946);
    NextWord(block, 38, 0xE8AE8B9C);
    NextWord(block, 39, 0x4A933AD0);
  }

  lemma FirstWords40(block: Block)
    requires IsFirst(block)
    ensures W(block, 40) == 0xCE8628B4 && W(block, 41) == 0x415DBA9E && W(block, 42) == 0x2792F049
    ensures W(block, 43) == 0x8E9B79E7 && W(block, 44) == 0x79C425C5 && W(block, 45) == 0x6353B49D
    ensures W(block, 46) == 0x00994218 && W(block, 47) == 0x8A950ED1
  {
    hide W;
    FirstWords24(block);
    FirstWords32(block);
    NextWord(block, 40, 0xCE8628B4);
    NextWord(block, 41, 0x415DBA9E);
    NextWord(block, 42, 0x2792F049);
    NextWord(block, 43, 0x8E9B79E7);
    NextWord(block, 44, 0x79C425C5);
    NextWord(block, 45, 0x6353B49D);
    NextWord(block, 46, 0x00994218);
    NextWord(block, 47, 0x8A950ED1);
  }

  lemma FirstWords48(block: Block)
    requires IsFirst(block)
    ensures W(block, 48) == 0xAF5D0B99 && W(block, 49) == 0xFD9883DE && W(block, 50) == 0x1ED8FFEB
    ensures W(block, 51) == 0xF007FF28 && W(block, 52) == 0x425E3674 && W(block, 53) == 0x059631C0
    ensures W(block, 54) == 0xAD6C3C31 && W(block, 55) == 0x860B71D7
  {
    hide W;
    FirstWords32(block);
    FirstWords40(block);
    NextWord(block, 48, 0xAF5D0B99);
    NextWord(block, 49, 0xFD9883DE);
    NextWord(block, 50, 0x1ED8FFEB);
    NextWord(block, 51, 0xF007FF28);
    NextWord(block, 52, 0x425E3674);
    NextWord(block, 53, 0x059631C0);
    NextWord(block, 54, 0xAD6C3C31);
    NextWord(block, 55, 0x860B71D7);
  }

  lemma FirstWords56(block: Block)
    requires IsFirst(block)
    ensures W(block, 56) == 0x87BFC548 && W(block, 57) == 0x3E64F92D && W(block, 58) == 0x8D0AB761
    ensures W(block, 59) == 0x34E1EE35 && W(block, 60) == 0x0ACF5108 && W(block, 61) == 0xC2B479DA
    ensures W(block, 62) == 0x6C93370A && W(block, 63) == 0xF7935BA1
  {
    hide W;
    FirstWords40(block);
    FirstWords48(block);
    NextWord(block, 56, 0x87BFC548);
    NextWord(block, 57, 0x3E64F92D);
    NextWord(block, 58, 0x8D0AB761);
    NextWord(block, 59, 0x34E1EE35);
    NextWord(block, 60, 0x0ACF5108);
    NextWord(block, 61, 0xC2B479DA);
    NextWord(block, 62, 0x6C93370A);
    NextWord(block, 63, 0xF7935BA1);
  }

  lemma FirstWords64(block: Block)
    requires IsFirst(block)
    ensures W(block, 64) == 0xE91C91C1 && W(block, 65) == 0xBED165A2 && W(block, 66) == 0x4C3E4ABE
    ensures W(block, 67) == 0x50D96238 && W(block, 68) == 0xB6587DDE && W(block, 69) == 0x1A2EE6E6
    ensures W(block, 70) == 0x2D335896 && W(block, 71) == 0xF3495D0B
  {
    hide W;
    FirstWords48(block);
    FirstWords56(block);
    NextWord(block, 64, 0xE91C91C1);
    NextWord(block, 65, 0xBED165A2);
    NextWord(block, 66, 0x4C3E4ABE);
    NextWord(block, 67, 0x50D96238);
    NextWord(block, 68, 0xB6587DDE);
    NextWord(block, 69, 0x1A2EE6E6);
    NextWord(block, 70, 0x2D335896);
    NextWord(block, 71, 0xF3495D0B);
  }

  lemma FirstWords72(block: Block)
    requires IsFirst(block)
    ensures W(block, 72) == 0xF30E0A1D && W(block, 73) == 0x32CE5459 && W(block, 74) == 0x7165E3B8
    ensures W(block, 75) == 0xAB05FF94 && W(block, 76) == 0xC5949F0B && W(block, 77) == 0xBCD84E4A
    ensures W(block, 78) == 0x07720392 && W(block, 79) == 0xFF3FF806
  {
    hide W;
    FirstWords56(block);
    FirstWords64(block);
    NextWord(block, 72, 0xF30E0A1D);
    NextWord(block, 73, 0x32CE5459);
    NextWord(block, 74, 0x7165E3B8);
    NextWord(block, 75, 0xAB05FF94);
    NextWord(block, 76, 0xC5949F0B);
    NextWord(block, 77, 0xBCD84E4A);
    NextWord(block, 78, 0x07720392);
    NextWord(block, 79, 0xFF3FF806);
  }

  lemma FirstRounds0(block: Block)
    requires IsFirst(block)
    ensures Rounds(block, 8, INITIAL) == Words(0x2E0CE601, 0x73553E84, 0x5CC82E5A, 0xB7631F04, 0x14F80E6B)
  {
    hide W, Rounds;
    NoRounds(block, INITIAL);
    var v := INITIAL;
    v := NextRound(block, 0, INITIAL, v, 0x6447686C, 0x03FC011F);
    v := NextRound(block, 1, INITIAL, v, 0x49484E68, 0x2F793F55);
    v := NextRound(block, 2, INITIAL, v, 0x62584273, 0xBE90EE8F);
    v := NextRound(block, 3, INITIAL, v, 0x5A534275, 0x53E039AC);
    v := NextRound(block, 4, INITIAL, v, 0x6232356A, 0xDD8C7C12);
    v := NextRound(block, 5, INITIAL, v, 0x5A513D3D, 0x7320B969);
    v := NextRound(block, 6, INITIAL, v, 0x32353845, 0x73553E84);
    v := NextRound(block, 7, INITIAL, v, 0x41464135, 0x2E0CE601);
  }

  lemma FirstRounds8(block: Block)
    requires IsFirst(block)
    ensures Rounds(block, 16, INITIAL) == Words(0xA004C468, 0xE922CC9D, 0xAB86825B, 0xD86F6CAF, 0x8D33AE61)
  {
    hide W, Rounds;
    FirstRounds0(block);
    var v := Words(0x2E0CE601, 0x73553E84, 0x5CC82E5A, 0xB7631F04, 0x14F80E6B);
    v := NextRound(block, 8, INITIAL, v, 0x2D453931, 0x32BEB05A);
    v := NextRound(block, 9, INITIAL, v, 0x342D3437, 0xFAAD2675);
    v := NextRound(block, 10, INITIAL, v, 0x44412D39, 0x5FF4238C);
    v := NextRound(block, 11, INITIAL, v, 0x3543412D, 0x34CEB986);
    v := NextRound(block, 12, INITIAL, v, 0x43354142, 0x61BDB2BF);
    v := NextRound(block, 13, INITIAL, v, 0x30444338, 0xAE1A096E);
    v := NextRound(block, 14, INITIAL, v, 0x35423131, 0xE922CC9D);
    v := NextRound(block, 15, INITIAL, v, 0x80000000, 0xA004C468);
  }

  lemma FirstRounds16(block: Block)
    requires IsFirst(block)
    ensures Rounds(block, 24, INITIAL) == Words(0x250E26EF, 0xBEAFD554, 0xB44BC2D5, 0xD4611C28, 0x0246AE5F)
  {
    hide W, Rounds;
    FirstRounds8(block);
    FirstWords16(block);
    var v := Words(0xA004C468, 0xE922CC9D, 0xAB86825B, 0xD86F6CAF, 0x8D33AE61);
    v := NextRound(block, 16, INITIAL, v, 0x363CA02C, 0xD7DAF575);
    v := NextRound(block, 17, INITIAL, v, 0x24E81236, 0x7EBB296B);
    v := NextRound(block, 18, INITIAL, v, 0x8856B441, 0x8DC510B6);
    v := NextRound(block, 19, INITIAL, v, 0x06FB3C92, 0x091AB97C);
    v := NextRound(block, 20, INITIAL, v, 0x6FB4BCB6, 0x518470A3);
    v := NextRound(block, 21, INITIAL, v, 0x460B16E3, 0xD12F0B56);
    v := NextRound(block, 22, INITIAL, v, 0x599219AE, 0xBEAFD554);
    v := NextRound(block, 23, INITIAL, v, 0x35BF9369, 0x250E26EF);
  }

  lemma FirstRounds24(block: Block)
    requires IsFirst(block)
    ensures Rounds(block, 32, INITIAL) == Words(0xA6680A1F, 0xB7DABC8B, 0x4206D8F9, 0xC6AEC70D, 0x95C7DF60)
  {
    hide W, Rounds;
    FirstRounds16(block);
    FirstWords24(block);
    var v := Words(0x250E26EF, 0xBEAFD554, 0xB44BC2D5, 0xD4611C28, 0x0246AE5F);
    v := NextRound(block, 24, INITIAL, v, 0x3267458E, 0x23D1C91B);
    v := NextRound(block, 25, INITIAL, v, 0xF828FD04, 0x748B39A0);
    v := NextRound(block, 26, INITIAL, v, 0x753A96A7, 0xEF012F20);
    v := NextRound(block, 27, INITIAL, v, 0x6336F612, 0x571F7D82);
    v := NextRound(block, 28, INITIAL, v, 0xC3D66383, 0x1ABB1C37);
    v := NextRound(block, 29, INITIAL, v, 0x06EB86F9, 0x081B63E5);
    v := NextRound(block, 30, INITIAL, v, 0x73B4FD42, 0xB7DABC8B);
    v := NextRound(block, 31, INITIAL, v, 0xA503C5B8, 0xA6680A1F);
  }

  lemma FirstRounds32(block: Block)
    requires IsFirst(block)
    ensures Rounds(block, 40, INITIAL) == Words(0x2BA2C83E, 0xD0869081, 0x1A1D8209, 0xD3334889, 0x2779E4F2)
  {
    hide W, Rounds;
    FirstRounds24(block);
    FirstWords32(block);
    var v := Words(0xA6680A1F, 0xB7DABC8B, 0x4206D8F9, 0xC6AEC70D, 0x95C7DF60);
    v := NextRound(block, 32, INITIAL, v, 0x15CDAE35, 0x1AE360A9);
    v := NextRound(block, 33, INITIAL, v, 0x531E5DC5, 0xEEABA35A);
    v := NextRound(block, 34, INITIAL, v, 0x6FB6B7D0, 0x149BB4D3);
    v := NextRound(block, 35, INITIAL, v, 0x6C16E4AC, 0x9DE793C8);
    v := NextRound(block, 36, INITIAL, v, 0x4DDD36BD, 0x4CCD2227);
    v := NextRound(block, 37, INITIAL, v, 0x35D36946, 0x68760824);
    v := NextRound(block, 38, INITIAL, v, 0xE8AE8B9C, 0xD0869081);
    v := NextRound(block, 39, INITIAL, v, 0x4A933AD0, 0x2BA2C83E);
  }

  lemma FirstRounds40(block: Block)
    requires IsFirst(block)
    ensures Rounds(block, 48, INITIAL) == Words(0xABE1748A, 0xDEE4B7A8, 0x5CBFCCD3, 0x97D7CD14, 0xDB71A8F5)
  {
    hide W, Rounds;
    FirstRounds32(block);
    FirstWords40(block);
    var v := Words(0x2BA2C83E, 0xD0869081, 0x1A1D8209, 0xD3334889, 0x2779E4F2);
    v := NextRound(block, 40, INITIAL, v, 0xCE8628B4, 0xCB8C52D0);
    v := NextRound(block, 41, INITIAL, v, 0x415DBA9E, 0x4F589A44);
    v := NextRound(block, 42, INITIAL, v, 0x2792F049, 0x868829B7);
    v := NextRound(block, 43, INITIAL, v, 0x8E9B79E7, 0x6DC6A3D7);
    v := NextRound(block, 44, INITIAL, v, 0x79C425C5, 0x5F5F3452);
    v := NextRound(block, 45, INITIAL, v, 0x6353B49D, 0x72FF334D);
    v := NextRound(block, 46, INITIAL, v, 0x00994218, 0xDEE4B7A8);
    v := NextRound(block, 47, INITIAL, v, 0x8A950ED1, 0xABE1748A);
  }

  lemma FirstRounds48(block: Block)
    requires IsFirst(block)
    ensures Rounds(block, 56, INITIAL) == Words(0x7E1242F2, 0x50C9104C, 0x131822B1, 0x49B1A4E5, 0x4439FD9C)
  {
    hide W, Rounds;
    FirstRounds40(block);
    FirstWords48(block);
    var v := Words(0xABE1748A, 0xDEE4B7A8, 0x5CBFCCD3, 0x97D7CD14, 0xDB71A8F5);
    v := NextRound(block, 48, INITIAL, v, 0xAF5D0B99, 0x7510D04F);
    v := NextRound(block, 49, INITIAL, v, 0xFD9883DE, 0x065F8486);
    v := NextRound(block, 50, INITIAL, v, 0x1ED8FFEB, 0x0E5D77C4);
    v := NextRound(block, 51, INITIAL, v, 0xF007FF28, 0x10E7F671);
    v := NextRound(block, 52, INITIAL, v, 0x425E3674, 0x26C69395);
    v := NextRound(block, 53, INITIAL, v, 0x059631C0, 0x4C608AC4);
    v := NextRound(block, 54, INITIAL, v, 0xAD6C3C31, 0x50C9104C);
    v := NextRound(block, 55, INITIAL, v, 0x860B71D7, 0x7E1242F2);
  }

  lemma FirstRounds56(block: Block)
    requires IsFirst(block)
    ensures Rounds(block, 64, INITIAL) == Words(0x685E2FF6, 0x840054D3, 0xE43C0363, 0x3350802E, 0x921CB616)
  {
    hide W, Rounds;
    FirstRounds48(block);
    FirstWords56(block);
    var v := Words(0x7E1242F2, 0x50C9104C, 0x131822B1, 0x49B1A4E5, 0x4439FD9C);
    v := NextRound(block, 56, INITIAL, v, 0x87BFC548, 0x6EF6FEF4);
    v := NextRound(block, 57, INITIAL, v, 0x3E64F92D, 0x0C247C2E);
    v := NextRound(block, 58, INITIAL, v, 0x8D0AB761, 0xD284F163);
    v := NextRound(block, 59, INITIAL, v, 0x34E1EE35, 0x4872D85A);
    v := NextRound(block, 60, INITIAL, v, 0x0ACF5108, 0xCD4200B8);
    v := NextRound(block, 61, INITIAL, v, 0xC2B479DA, 0x90F00D8F);
    v := NextRound(block, 62, INITIAL, v, 0x6C93370A, 0x840054D3);
    v := NextRound(block, 63, INITIAL, v, 0xF7935BA1, 0x685E2FF6);
  }

  lemma FirstRounds64(block: Block)
    requires IsFirst(block)
    ensures Rounds(block, 72, INITIAL) == Words(0x7E65E044, 0x80D59773, 0x81CE06DF, 0xA59B8126, 0x33E1963B)
  {
    hide W, Rounds;
    FirstRounds56(block);
    FirstWords64(block);
    var v := Words(0x685E2FF6, 0x840054D3, 0xE43C0363, 0x3350802E, 0x921CB616);
    v := NextRound(block, 64, INITIAL, v, 0xE91C91C1, 0xA4CEE018);
    v := NextRound(block, 65, INITIAL, v, 0xBED165A2, 0xC3C2E45B);
    v := NextRound(block, 66, INITIAL, v, 0x4C3E4ABE, 0x53131A40);
    v := NextRound(block, 67, INITIAL, v, 0x50D96238, 0xCF8658EC);
    v := NextRound(block, 68, INITIAL, v, 0xB6587DDE, 0x966E049A);
    v := NextRound(block, 69, INITIAL, v, 0x1A2EE6E6, 0x07381B7E);
    v := NextRound(block, 70, INITIAL, v, 0x2D335896, 0x80D59773);
    v := NextRound(block, 71, INITIAL, v, 0xF3495D0B, 0x7E65E044);
  }

  lemma FirstRounds72(block: Block)
    requires IsFirst(block)
    ensures Rounds(block, 80, INITIAL) == Words(0xF48A5426, 0x835995E1, 0x25C11EFB, 0x4A45C402, 0x9A73C2F2)
  {
    hide W, Rounds;
    FirstRounds64(block);
    FirstWords72(block);
    var v := Words(0x7E65E044, 0x80D59773, 0x81CE06DF, 0xA59B8126, 0x33E1963B);
    v := NextRound(block, 72, INITIAL, v, 0xF30E0A1D, 0x628E7B47);
    v := NextRound(block, 73, INITIAL, v, 0x32CE5459, 0x143A8388);
    v := NextRound(block, 74, INITIAL, v, 0x7165E3B8, 0xE20983F9);
    v := NextRound(block, 75, INITIAL, v, 0xAB05FF94, 0x69CF0BCA);
    v := NextRound(block, 76, INITIAL, v, 0xC5949F0B, 0x29171009);
    v := NextRound(block, 77, INITIAL, v, 0xBCD84E4A, 0x97047BEC);
    v := NextRound(block, 78, INITIAL, v, 0x07720392, 0x835995E1);
    v := NextRound(block, 79, INITIAL, v, 0xFF3FF806, 0xF48A5426);
  }

  lemma FirstBlock(block: Block)
    requires IsFirst(block)
    ensures Compressed(INITIAL, block) == MIDDLE
  {
    hide Rounds;
    FirstRounds72(block);
  }

  // ---- The second block -----------------------------------------------------------------------------

  lemma SecondWords16(block: Block)
    requires IsSecond(block)
    ensures W(block, 16) == 0x00000000 && W(block, 17) == 0x00000000 && W(block, 18) == 0x000003C0
    ensures W(block, 19) == 0x00000000 && W(block, 20) == 0x00000000 && W(block, 21) == 0x00000780
    ensures W(block, 22) == 0x00000000 && W(block, 23) == 0x000003C0
  {
    hide W;
    NextWord(block, 16, 0x00000000);
    NextWord(block, 17, 0x00000000);
    NextWord(block, 18, 0x000003C0);
    NextWord(block, 19, 0x00000000);
    NextWord(block, 20, 0x00000000);
    NextWord(block, 21, 0x00000780);
    NextWord(block, 22, 0x00000000);
    NextWord(block, 23, 0x000003C0);
  }

  lemma SecondWords24(block: Block)
    requires IsSecond(block)
    ensures W(block, 24) == 0x00000F00 && W(block, 25) == 0x00000000 && W(block, 26) == 0x00000000
    ensures W(block, 27) == 0x00001E00 && W(block, 28) == 0x00000000 && W(block, 29) == 0x00000CC0
    ensures W(block, 30) == 0x00003C00 && W(block, 31) == 0x00000440
  {
    hide W;
    SecondWords16(block);
    NextWord(block, 24, 0x00000F00);
    NextWord(block, 25, 0x00000000);
    NextWord(block, 26, 0x00000000);
    NextWord(block, 27, 0x00001E00);
    NextWord(block, 28, 0x00000000);
    NextWord(block, 29, 0x00000CC0);
    NextWord(block, 30, 0x00003C00);
    NextWord(block, 31, 0x00000440);
  }

  lemma SecondWords32(block: Block)
    requires IsSecond(block)
    ensures W(block, 32) == 0x00000000 && W(block, 33) == 0x00007800 && W(block, 34) == 0x00000F00
    ensures W(block, 35) == 0x00003300 && W(block, 36) == 0x0000F000 && W(block, 37) == 0x00000F00
    ensures W(block, 38) == 0x00000000 && W(block, 39) == 0x0001EF00
  {
    hide W;
    SecondWords16(block);
    SecondWords24(block);
    NextWord(block, 32, 0x00000000);
    NextWord(block, 33, 0x00007800);
    NextWord(block, 34, 0x00000F00);
    NextWord(block, 35, 0x00003300);
    NextWord(block, 36, 0x0000F000);
    NextWord(block, 37, 0x00000F00);
    NextWord(block, 38, 0x00000000);
    NextWord(block, 39, 0x0001EF00);
  }

  lemma SecondWords40(block: Block)
    requires IsSecond(block)
    ensures W(block, 40) == 0x00000000 && W(block, 41) == 0x0000CC00 && W(block, 42) == 0x0003C000
    ensures W(block, 43) == 0x00004380 && W(block, 44) == 0x00000000 && W(block, 45) == 0x00078F00
    ensures W(block, 46) == 0x0000FF00 && W(block, 47) == 0x00032680
  {
    hide W;
    SecondWords24(block);
    SecondWords32(block);
    NextWord(block, 40, 0x00000000);
    NextWord(block, 41, 0x0000CC00);
    NextWord(block, 42, 0x0003C000);
    NextWord(block, 43, 0x00004380);
    NextWord(block, 44, 0x00000000);
    NextWord(block, 45, 0x00078F00);
    NextWord(block, 46, 0x0000FF00);
    NextWord(block, 47, 0x00032680);
  }

  lemma SecondWords48(block: Block)
    requires IsSecond(block)
    ensures W(block, 48) == 0x000F0000 && W(block, 49) == 0x0000F000 && W(block, 50) == 0x00003300
    ensures W(block, 51) == 0x001EFF00 && W(block, 52) == 0x00000000 && W(block, 53) == 0x000CB800
    ensures W(block, 54) == 0x003C0000 && W(block, 55) == 0x00040B00
  {
    hide W;
    SecondWords32(block);
    SecondWords40(block);
    NextWord(block, 48, 0x000F0000);
    NextWord(block, 49, 0x0000F000);
    NextWord(block, 50, 0x00003300);
    NextWord(block, 51, 0x001EFF00);
    NextWord(block, 52, 0x00000000);
    NextWord(block, 53, 0x000CB800);
    NextWord(block, 54, 0x003C0000);
    NextWord(block, 55, 0x00040B00);
  }

  lemma SecondWords56(block: Block)
    requires IsSecond(block)
    ensures W(block, 56) == 0x0000F000 && W(block, 57) == 0x0078FF00 && W(block, 58) == 0x000FF000
    ensures W(block, 59) == 0x00338700 && W(block, 60) == 0x00F00000 && W(block, 61) == 0x000FC300
    ensures W(block, 62) == 0x0000F000 && W(block, 63) == 0x01EFBB00
  {
    hide W;
    SecondWords40(block);
    SecondWords48(block);
    NextWord(block, 56, 0x0000F000);
    NextWord(block, 57, 0x0078FF00);
    NextWord(block, 58, 0x000FF000);
    NextWord(block, 59, 0x00338700);
    NextWord(block, 60, 0x00F00000);
    NextWord(block, 61, 0x000FC300);
    NextWord(block, 62, 0x0000F000);
    NextWord(block, 63, 0x01EFBB00);
  }

  lemma SecondWords64(block: Block)
    requires IsSecond(block)
    ensures W(block, 64) == 0x00000000 && W(block, 65) == 0x00CC0000 && W(block, 66) == 0x03C0F000
    ensures W(block, 67) == 0x00438000 && W(block, 68) == 0x00000000 && W(block, 69) == 0x078F0000
    ensures W(block, 70) == 0x00FF0000 && W(block, 71) == 0x03269E00
  {
    hide W;
    SecondWords48(block);
    SecondWords56(block);
    NextWord(block, 64, 0x00000000);
    NextWord(block, 65, 0x00CC0000);
    NextWord(block, 66, 0x03C0F000);
    NextWord(block, 67, 0x00438000);
    NextWord(block, 68, 0x00000000);
    NextWord(block, 69, 0x078F0000);
    NextWord(block, 70, 0x00FF0000);
    NextWord(block, 71, 0x03269E00);
  }

  lemma SecondWords72(block: Block)
    requires IsSecond(block)
    ensures W(block, 72) == 0x0F000000 && W(block, 73) == 0x00F0F000 && W(block, 74) == 0x00333C00
    ensures W(block, 75) == 0x1EFF8800 && W(block, 76) == 0x00000000 && W(block, 77) == 0x0CB88800
    ensures W(block, 78) == 0x3C00F000 && W(block, 79) == 0x040A4A00
  {
    hide W;
    SecondWords56(block);
    SecondWords64(block);
    NextWord(block, 72, 0x0F000000);
    NextWord(block, 73, 0x00F0F000);
    NextWord(block, 74, 0x00333C00);
    NextWord(block, 75, 0x1EFF8800);
    NextWord(block, 76, 0x00000000);
    NextWord(block, 77, 0x0CB88800);
    NextWord(block, 78, 0x3C00F000);
    NextWord(block, 79, 0x040A4A00);
  }

  lemma SecondRounds0(block: Block)
    requires IsSecond(block)
    ensures Rounds(block, 8, MIDDLE) == Words(0x25C018BE, 0xB3BBCAFE, 0xE4E97BEE, 0xB90F74BC, 0xC5615548)
  {
    hide W, Rounds;
    NoRounds(block, MIDDLE);
    var v := MIDDLE;
    v := NextRound(block, 0, MIDDLE, v, 0x00000000, 0x6D335CDE);
    v := NextRound(block, 1, MIDDLE, v, 0x00000000, 0x186006B8);
    v := NextRound(block, 2, MIDDLE, v, 0x00000000, 0xF9FB295D);
    v := NextRound(block, 3, MIDDLE, v, 0x00000000, 0x15855523);
    v := NextRound(block, 4, MIDDLE, v, 0x00000000, 0xE43DD2F2);
    v := NextRound(block, 5, MIDDLE, v, 0x00000000, 0x93A5EFBB);
    v := NextRound(block, 6, MIDDLE, v, 0x00000000, 0xB3BBCAFE);
    v := NextRound(block, 7, MIDDLE, v, 0x00000000, 0x25C018BE);
  }

  lemma SecondRounds8(block: Block)
    requires IsSecond(block)
    ensures Rounds(block, 16, MIDDLE) == Words(0x986DF268, 0x990B7BE7, 0xAB50FCE7, 0x195DB4B7, 0x4941806B)
  {
    hide W, Rounds;
    SecondRounds0(block);
    var v := Words(0x25C018BE, 0xB3BBCAFE, 0xE4E97BEE, 0xB90F74BC, 0xC5615548);
    v := NextRound(block, 8, MIDDLE, v, 0x00000000, 0x80946593);
    v := NextRound(block, 9, MIDDLE, v, 0x00000000, 0x0B0814C3);
    v := NextRound(block, 10, MIDDLE, v, 0x00000000, 0x4CE92417);
    v := NextRound(block, 11, MIDDLE, v, 0x00000000, 0x250601AD);
    v := NextRound(block, 12, MIDDLE, v, 0x00000000, 0x6576D2DC);
    v := NextRound(block, 13, MIDDLE, v, 0x00000000, 0xAD43F39E);
    v := NextRound(block, 14, MIDDLE, v, 0x00000000, 0x990B7BE7);
    v := NextRound(block, 15, MIDDLE, v, 0x000001E0, 0x986DF268);
  }

  lemma SecondRounds16(block: Block)
    requires IsSecond(block)
    ensures Rounds(block, 24, MIDDLE) == Words(0x53C73650, 0x3E5179E7, 0x103EF3E6, 0xC48C56CA, 0x4A8022D4)
  {
    hide W, Rounds;
    SecondRounds8(block);
    SecondWords16(block);
    var v := Words(0x986DF268, 0x990B7BE7, 0xAB50FCE7, 0x195DB4B7, 0x4941806B);
    v := NextRound(block, 16, MIDDLE, v, 0x00000000, 0x3AD7440E);
    v := NextRound(block, 17, MIDDLE, v, 0x00000000, 0x72198F06);
    v := NextRound(block, 18, MIDDLE, v, 0x000003C0, 0x2F193A09);
    v := NextRound(block, 19, MIDDLE, v, 0x00000000, 0x2A008B51);
    v := NextRound(block, 20, MIDDLE, v, 0x00000000, 0x12315B2B);
    v := NextRound(block, 21, MIDDLE, v, 0x00000780, 0x40FBCF98);
    v := NextRound(block, 22, MIDDLE, v, 0x00000000, 0x3E5179E7);
    v := NextRound(block, 23, MIDDLE, v, 0x000003C0, 0x53C73650);
  }

  lemma SecondRounds24(block: Block)
    requires IsSecond(block)
    ensures Rounds(block, 32, MIDDLE) == Words(0x3CF6EB58, 0xF4DDD7B7, 0xC90FB815, 0xBD5F2D4F, 0xE4C9F7DB)
  {
    hide W, Rounds;
    SecondRounds16(block);
    SecondWords24(block);
    var v := Words(0x53C73650, 0x3E5179E7, 0x103EF3E6, 0xC48C56CA, 0x4A8022D4);
    v := NextRound(block, 24, MIDDLE, v, 0x00000F00, 0x1D24C44A);
    v := NextRound(block, 25, MIDDLE, v, 0x00000000, 0x646C677D);
    v := NextRound(block, 26, MIDDLE, v, 0x00000000, 0xD2E726DA);
    v := NextRound(block, 27, MIDDLE, v, 0x00001E00, 0x9327DF6F);
    v := NextRound(block, 28, MIDDLE, v, 0x00000000, 0xF57CB53E);
    v := NextRound(block, 29, MIDDLE, v, 0x00000CC0, 0x243EE057);
    v := NextRound(block, 30, MIDDLE, v, 0x00003C00, 0xF4DDD7B7);
    v := NextRound(block, 31, MIDDLE, v, 0x00000440, 0x3CF6EB58);
  }

  lemma SecondRounds32(block: Block)
    requires IsSecond(block)
    ensures Rounds(block, 40, MIDDLE) == Words(0x6F698F1A, 0xC6FF0CD3, 0xDE5AB7BC, 0x5F6F3CBB, 0x1DA48A85)
  {
    hide W, Rounds;
    SecondRounds24(block);
    SecondWords32(block);
    var v := Words(0x3CF6EB58, 0xF4DDD7B7, 0xC90FB815, 0xBD5F2D4F, 0xE4C9F7DB);
    v := NextRound(block, 32, MIDDLE, v, 0x00000000, 0x730E9170);
    v := NextRound(block, 33, MIDDLE, v, 0x00007800, 0x96D9E59E);
    v := NextRound(block, 34, MIDDLE, v, 0x00000F00, 0x942AC4D3);
    v := NextRound(block, 35, MIDDLE, v, 0x00003300, 0x76922A14);
    v := NextRound(block, 36, MIDDLE, v, 0x0000F000, 0x7DBCF2ED);
    v := NextRound(block, 37, MIDDLE, v, 0x00000F00, 0x796ADEF3);
    v := NextRound(block, 38, MIDDLE, v, 0x00000000, 0xC6FF0CD3);
    v := NextRound(block, 39, MIDDLE, v, 0x0001EF00, 0x6F698F1A);
  }

  lemma SecondRounds40(block: Block)
    requires IsSecond(block)
    ensures Rounds(block, 48, MIDDLE) == Words(0xA3EF857E, 0xC8CDA3DA, 0xCEF6480E, 0xFF1EF4D7, 0xC7A4D2B3)
  {
    hide W, Rounds;
    SecondRounds32(block);
    SecondWords40(block);
    var v := Words(0x6F698F1A, 0xC6FF0CD3, 0xDE5AB7BC, 0x5F6F3CBB, 0x1DA48A85);
    v := NextRound(block, 40, MIDDLE, v, 0x00000000, 0x78716769);
    v := NextRound(block, 41, MIDDLE, v, 0x0000CC00, 0xFC343A02);
    v := NextRound(block, 42, MIDDLE, v, 0x0003C000, 0xEDFCD85B);
    v := NextRound(block, 43, MIDDLE, v, 0x00004380, 0x1E934ACF);
    v := NextRound(block, 44, MIDDLE, v, 0x00000000, 0xFC7BD35F);
    v := NextRound(block, 45, MIDDLE, v, 0x00078F00, 0x3BD9203B);
    v := NextRound(block, 46, MIDDLE, v, 0x0000FF00, 0xC8CDA3DA);
    v := NextRound(block, 47, MIDDLE, v, 0x00032680, 0xA3EF857E);
  }

  lemma SecondRounds48(block: Block)
    requires IsSecond(block)
    ensures Rounds(block, 56, MIDDLE) == Words(0xA1B68141, 0x660DD0B1, 0x0B1CEF5E, 0xE795018D, 0xD7F8A8F6)
  {
    hide W, Rounds;
    SecondRounds40(block);
    SecondWords48(block);
    var v := Words(0xA3EF857E, 0xC8CDA3DA, 0xCEF6480E, 0xFF1EF4D7, 0xC7A4D2B3);
    v := NextRound(block, 48, MIDDLE, v, 0x000F0000, 0xA39F2041);
    v := NextRound(block, 49, MIDDLE, v, 0x0000F000, 0xA516F265);
    v := NextRound(block, 50, MIDDLE, v, 0x00003300, 0xA3ABE4F5);
    v := NextRound(block, 51, MIDDLE, v, 0x001EFF00, 0x5FE2A3DB);
    v := NextRound(block, 52, MIDDLE, v, 0x00000000, 0x9E540637);
    v := NextRound(block, 53, MIDDLE, v, 0x000CB800, 0x2C73BD78);
    v := NextRound(block, 54, MIDDLE, v, 0x003C0000, 0x660DD0B1);
    v := NextRound(block, 55, MIDDLE, v, 0x00040B00, 0xA1B68141);
  }

  lemma SecondRounds56(block: Block)
    requires IsSecond(block)
    ensures Rounds(block, 64, MIDDLE) == Words(0xA5937450, 0xD5EF1ED7, 0xC444CBE3, 0xDDD22788, 0x558467C6)
  {
    hide W, Rounds;
    SecondRounds48(block);
    SecondWords56(block);
    var v := Words(0xA1B68141, 0x660DD0B1, 0x0B1CEF5E, 0xE795018D, 0xD7F8A8F6);
    v := NextRound(block, 56, MIDDLE, v, 0x0000F000, 0x05033FA3);
    v := NextRound(block, 57, MIDDLE, v, 0x0078FF00, 0x21289715);
    v := NextRound(block, 58, MIDDLE, v, 0x000FF000, 0x085EB2FE);
    v := NextRound(block, 59, MIDDLE, v, 0x00338700, 0x56119F19);
    v := NextRound(block, 60, MIDDLE, v, 0x00F00000, 0x77489E23);
    v := NextRound(block, 61, MIDDLE, v, 0x000FC300, 0x11132F8F);
    v := NextRound(block, 62, MIDDLE, v, 0x0000F000, 0xD5EF1ED7);
    v := NextRound(block, 63, MIDDLE, v, 0x01EFBB00, 0xA5937450);
  }

  lemma SecondRounds64(block: Block)
    requires IsSecond(block)
    ensures Rounds(block, 72, MIDDLE) == Words(0xC90888CA, 0xF6D1AFEE, 0x6FCE9FE5, 0x538D8F6E, 0x025E9447)
  {
    hide W, Rounds;
    SecondRounds56(block);
    SecondWords64(block);
    var v := Words(0xA5937450, 0xD5EF1ED7, 0xC444CBE3, 0xDDD22788, 0x558467C6);
    v := NextRound(block, 64, MIDDLE, v, 0x00000000, 0x9ECFA66C);
    v := NextRound(block, 65, MIDDLE, v, 0x00CC0000, 0x17A22EF7);
    v := NextRound(block, 66, MIDDLE, v, 0x03C0F000, 0xC97F1968);
    v := NextRound(block, 67, MIDDLE, v, 0x00438000, 0x097A511C);
    v := NextRound(block, 68, MIDDLE, v, 0x00000000, 0x4E363DB9);
    v := NextRound(block, 69, MIDDLE, v, 0x078F0000, 0xBF3A7F95);
    v := NextRound(block, 70, MIDDLE, v, 0x00FF0000, 0xF6D1AFEE);
    v := NextRound(block, 71, MIDDLE, v, 0x03269E00, 0xC90888CA);
  }

  lemma SecondRounds72(block: Block)
    requires IsSecond(block)
    ensures Rounds(block, 80, MIDDLE) == Words(0x57AAD805, 0x4D3B0DAC, 0xD27A4A0D, 0x74C040CD, 0x54782008)
  {
    hide W, Rounds;
    SecondRounds64(block);
    SecondWords72(block);
    var v := Words(0xC90888CA, 0xF6D1AFEE, 0x6FCE9FE5, 0x538D8F6E, 0x025E9447);
    v := NextRound(block, 72, MIDDLE, v, 0x0F000000, 0xC7652EDB);
    v := NextRound(block, 73, MIDDLE, v, 0x00F0F000, 0x26F99990);
    v := NextRound(block, 74, MIDDLE, v, 0x00333C00, 0xE22B36D1);
    v := NextRound(block, 75, MIDDLE, v, 0x1EFF8800, 0x51E08021);
    v := NextRound(block, 76, MIDDLE, v, 0x00000000, 0xD3010335);
    v := NextRound(block, 77, MIDDLE, v, 0x0CB88800, 0x49E92837);
    v := NextRound(block, 78, MIDDLE, v, 0x3C00F000, 0x4D3B0DAC);
    v := NextRound(block, 79, MIDDLE, v, 0x040A4A00, 0x57AAD805);
  }

  lemma SecondBlock(block: Block)
    requires IsSecond(block)
    ensures Compressed(MIDDLE, block) == FINAL
  {
    hide Rounds;
    SecondRounds72(block);
  }

  lemma NoRounds(block: Block, h: Words)
    ensures Rounds(block, 0, h) == h
  {
  }

  // ---- The text and its blocks ----------------------------------------------------------------------

  /** Octets `4 * t` on of `octets` spell `s`. */
  predicate Spells(octets: seq<byte>, t: nat, s: string) {
    |s| == 4 && 4 * t + 4 <= |octets| && octets[4 * t] == s[0] as int && octets[4 * t + 1] == s[1] as int &&
    octets[4 * t + 2] == s[2] as int && octets[4 * t + 3] == s[3] as int
  }

  lemma WordIs(block: Block, t: nat, a: byte, b: byte, c: byte, d: byte, w: bv32)
    requires t < 16 && block[4 * t..4 * t + 4] == [a, b, c, d]
    requires 0x100_0000 * a + 0x1_0000 * b + 0x100 * c + d == w as int
    ensures W(block, t) == w
  {
    hide FromBE, W, Word;
    WStep(block, t);
    Mask.FromBE4([a, b, c, d]);
    WordValue([a, b, c, d], w);
  }

  lemma WordValue(s: seq<byte>, w: bv32)
    requires |s| == 4 && FromBE(s) == w as int
    ensures Word(s) == w
  {
    hide FromBE;
  }

  lemma WordOf(block: Block, t: nat, s: string, w: bv32)
    requires t < 16 && Spells(block, t, s)
    requires 0x100_0000 * (s[0] as int) + 0x1_0000 * (s[1] as int) + 0x100 * (s[2] as int) + s[3] as int == w as int
    ensures W(block, t) == w
  {
    hide W;
    WordIs(block, t, s[0] as int, s[1] as int, s[2] as int, s[3] as int, w);
  }

  /** The text that is hashed, the key and the GUID, four characters at a time. */
  predicate HoldsKey(octets: seq<byte>) {
    Spells(octets, 0, "dGhl") && Spells(octets, 1, "IHNh") && Spells(octets, 2, "bXBs") &&
    Spells(octets, 3, "ZSBu") && Spells(octets, 4, "b25j") && Spells(octets, 5, "ZQ==")
  }

  predicate HoldsGuid(octets: seq<byte>) {
    Spells(octets, 6, "258E") && Spells(octets, 7, "AFA5") && Spells(octets, 8, "-E91") &&
    Spells(octets, 9, "4-47") && Spells(octets, 10, "DA-9") && Spells(octets, 11, "5CA-") &&
    Spells(octets, 12, "C5AB") && Spells(octets, 13, "0DC8") && Spells(octets, 14, "5B11")
  }

  function TextOctets(): seq<byte> {
    Utf8.Encode(KEY) + Utf8.Encode(Handshake.WS_GUID)
  }

  lemma KeyIsAscii()
    ensures |KEY| == 24 && Utf8.IsAscii(KEY)
  {
  }

  lemma KeyCharacters0()
    ensures |KEY| == 24
    ensures KEY[0] == 'd' && KEY[1] == 'G'
    ensures KEY[2] == 'h' && KEY[3] == 'l'
  {
  }

  lemma KeyCharacters4()
    ensures |KEY| == 24
    ensures KEY[4] == 'I' && KEY[5] == 'H'
    ensures KEY[6] == 'N' && KEY[7] == 'h'
  {
  }

  lemma KeyCharacters8()
    ensures |KEY| == 24
    ensures KEY[8] == 'b' && KEY[9] == 'X'
    ensures KEY[10] == 'B' && KEY[11] == 's'
  {
  }

  lemma KeyCharacters12()
    ensures |KEY| == 24
    ensures KEY[12] == 'Z' && KEY[13] == 'S'
    ensures KEY[14] == 'B' && KEY[15] == 'u'
  {
  }

  lemma KeyCharacters16()
    ensures |KEY| == 24
    ensures KEY[16] == 'b' && KEY[17] == '2'
    ensures KEY[18] == '5' && KEY[19] == 'j'
  {
  }

  lemma KeyCharacters20()
    ensures |KEY| == 24
    ensures KEY[20] == 'Z' && KEY[21] == 'Q'
    ensures KEY[22] == '=' && KEY[23] == '='
  {
  }

  lemma GuidCharacters0()
    ensures |Handshake.WS_GUID| == 36
    ensures Handshake.WS_GUID[0] == '2' && Handshake.WS_GUID[1] == '5'
    ensures Handshake.WS_GUID[2] == '8' && Handshake.WS_GUID[3] == 'E'
  {
  }

  lemma GuidCharacters4()
    ensures |Handshake.WS_GUID| == 36
    ensures Handshake.WS_GUID[4] == 'A' && Handshake.WS_GUID[5] == 'F'
    ensures Handshake.WS_GUID[6] == 'A' && Handshake.WS_GUID[7] == '5'
  {
  }

  lemma GuidCharacters8()
    ensures |Handshake.WS_GUID| == 36
    ensures Handshake.WS_GUID[8] == '-' && Handshake.WS_GUID[9] == 'E'
    ensures Handshake.WS_GUID[10] == '9' && Handshake.WS_GUID[11] == '1'
  {
  }

  lemma GuidCharacters12()
    ensures |Handshake.WS_GUID| == 36
    ensures Handshake.WS_GUID[12] == '4' && Handshake.WS_GUID[13] == '-'
    ensures Handshake.WS_GUID[14] == '4' && Handshake.WS_GUID[15] == '7'
  {
  }

  lemma GuidCharacters16()
    ensures |Handshake.WS_GUID| == 36
    ensures Handshake.WS_GUID[16] == 'D' && Handshake.WS_GUID[17] == 'A'
    ensures Handshake.WS_GUID[18] == '-' && Handshake.WS_GUID[19] == '9'
  {
  }

  lemma GuidCharacters20()
    ensures |Handshake.WS_GUID| == 36
    ensures Handshake.WS_GUID[20] == '5' && Handshake.WS_GUID[21] == 'C'
    ensures Handshake.WS_GUID[22] == 'A' && Handshake.WS_GUID[23] == '-'
  {
  }

  lemma GuidCharacters24()
    ensures |Handshake.WS_GUID| == 36
    ensures Handshake.WS_GUID[24] == 'C' && Handshake.WS_GUID[25] == '5'
    ensures Handshake.WS_GUID[26] == 'A' && Handshake.WS_GUID[27] == 'B'
  {
  }

  lemma GuidCharacters28()
    ensures |Handshake.WS_GUID| == 36
    ensures Handshake.WS_GUID[28] == '0' && Handshake.WS_GUID[29] == 'D'
    ensures Handshake.WS_GUID[30] == 'C' && Handshake.WS_GUID[31] == '8'
  {
  }

  lemma GuidCharacters32()
    ensures |Handshake.WS_GUID| == 36
    ensures Handshake.WS_GUID[32] == '5' && Handshake.WS_GUID[33] == 'B'
    ensures Handshake.WS_GUID[34] == '1' && Handshake.WS_GUID[35] == '1'
  {
  }

  lemma KeyIsHeld(octets: seq<byte>)
    requires octets == Utf8.Encode(KEY)
    ensures |octets| == 24 && HoldsKey(octets)
  {
    hide Utf8.Encode, KEY;
    KeyIsAscii();
    KeyCharacters0();
    KeyCharacters4();
    KeyCharacters8();
    KeyCharacters12();
    KeyCharacters16();
    KeyCharacters20();
    Utf8.EncodeAscii(KEY);
  }

  lemma GuidIsHeld(front: seq<byte>, octets: seq<byte>)
    requires |front| == 24 && octets == Utf8.Encode(Handshake.WS_GUID)
    ensures |front + octets| == 60 && HoldsGuid(front + octets)
  {
    hide Utf8.Encode, Handshake.WS_GUID;
    Handshake.GuidIsAscii();
    GuidCharacters0();
    GuidCharacters4();
    GuidCharacters8();
    GuidCharacters12();
    GuidCharacters16();
    GuidCharacters20();
    GuidCharacters24();
    GuidCharacters28();
    GuidCharacters32();
    Utf8.EncodeAscii(Handshake.WS_GUID);
    forall i | 0 <= i < 36 ensures (front + octets)[24 + i] == Handshake.WS_GUID[i] as int {
    }
  }

  lemma TextIsHeld()
    ensures |TextOctets()| == 60 && HoldsKey(TextOctets()) && HoldsGuid(TextOctets())
  {
    hide Utf8.Encode, KEY, Handshake.WS_GUID, HoldsGuid;
    KeyIsHeld(Utf8.Encode(KEY));
    GuidIsHeld(Utf8.Encode(KEY), Utf8.Encode(Handshake.WS_GUID));
  }

  lemma HeldInFront(octets: seq<byte>, block: seq<byte>)
    requires octets <= block && HoldsKey(octets) && HoldsGuid(octets)
    ensures HoldsKey(block) && HoldsGuid(block)
  {
  }

  lemma KeyWords(block: Block)
    requires HoldsKey(block)
    ensures W(block, 0) == 0x6447686C && W(block, 1) == 0x49484E68 && W(block, 2) == 0x62584273
    ensures W(block, 3) == 0x5A534275 && W(block, 4) == 0x6232356A && W(block, 5) == 0x5A513D3D
  {
    hide W, Spells;
    WordOf(block, 0, "dGhl", 0x6447686C);
    WordOf(block, 1, "IHNh", 0x49484E68);
    WordOf(block, 2, "bXBs", 0x62584273);
    WordOf(block, 3, "ZSBu", 0x5A534275);
    WordOf(block, 4, "b25j", 0x6232356A);
    WordOf(block, 5, "ZQ==", 0x5A513D3D);
  }

  lemma GuidWords(block: Block)
    requires HoldsGuid(block)
    ensures W(block, 6) == 0x32353845 && W(block, 7) == 0x41464135 && W(block, 8) == 0x2D453931
    ensures W(block, 9) == 0x342D3437 && W(block, 10) == 0x44412D39 && W(block, 11) == 0x3543412D
    ensures W(block, 12) == 0x43354142 && W(block, 13) == 0x30444338 && W(block, 14) == 0x35423131
  {
    hide W, Spells;
    WordOf(block, 6, "258E", 0x32353845);
    WordOf(block, 7, "AFA5", 0x41464135);
    WordOf(block, 8, "-E91", 0x2D453931);
    WordOf(block, 9, "4-47", 0x342D3437);
    WordOf(block, 10, "DA-9", 0x44412D39);
    WordOf(block, 11, "5CA-", 0x3543412D);
    WordOf(block, 12, "C5AB", 0x43354142);
    WordOf(block, 13, "0DC8", 0x30444338);
    WordOf(block, 14, "5B11", 0x35423131);
  }

  lemma FirstIs(block: Block)
    requires HoldsKey(block) && HoldsGuid(block) && block[60..64] == [0x80, 0, 0, 0]
    ensures IsFirst(block)
  {
    hide W, HoldsKey, HoldsGuid;
    KeyWords(block);
    GuidWords(block);
    WordIs(block, 15, 0x80, 0, 0, 0, 0x80000000);
  }

  lemma SecondIs(block: Block)
    requires (forall i :: 0 <= i < 62 ==> block[i] == 0) && block[62] == 0x01 && block[63] == 0xE0
    ensures IsSecond(block)
  {
    hide W;
    forall t: nat | t < 15 ensures W(block, t) == 0 {
      WordIs(block, t, 0, 0, 0, 0, 0);
    }
    WordIs(block, 15, 0, 0, 0x01, 0xE0, 0x000001E0);
  }

  lemma LengthOctets()
    ensures ToBE(480, 8) == [0, 0, 0, 0, 0, 0, 1, 0xE0]
  {
    NothingToBE(6);
    assert ToBE(1, 7) == ToBE(0, 6) + [1];
    assert ToBE(480, 8) == ToBE(1, 7) + [0xE0];
  }

  lemma {:induction false} NothingToBE(k: nat)
    ensures ToBE(0, k) == Zeros(k)
  {
    if k == 0 {
    } else {
      NothingToBE(k - 1);
    }
  }

  /** The padding of sixty octets: a one bit, zeros, and the length, 480 bits. */
  lemma PaddedSixty(message: seq<byte>)
    requires |message| == 60
    ensures var p := Padded(message);
            |p| == 128 && message <= p[..64] && p[..64][60..64] == [0x80, 0, 0, 0] &&
            (forall i :: 0 <= i < 62 ==> p[64..][i] == 0) && p[64..][62] == 0x01 && p[64..][63] == 0xE0
  {
    hide Padded, ToBE, ZeroCount;
    PaddedParts(message);
    LengthOctets();
    SixtyZeros();
    assert 8 * |message| == 480;
    var tail: seq<byte> := [0, 0, 0, 0, 0, 0, 1, 0xE0];
    var p := Padded(message);
    assert p == message + [0x80] + Zeros(59) + tail;
    assert p[..64] == message + [0x80] + Zeros(3);
    assert p[64..] == Zeros(56) + tail;
  }

  lemma SixtyZeros()
    ensures ZeroCount(60) == 59
  {
  }

  // ---- The answer -----------------------------------------------------------------------------------

  lemma TwoBlocks(h: Words, p: seq<byte>)
    requires |p| == 128
    ensures Hashed(h, p) == Compressed(Compressed(h, p[..64]), p[64..])
  {
    hide Compressed;
    assert [] + p[..64] == p[..64] && p[..64] + p[64..] == p;
    HashedSnoc(h, [], p[..64]);
    HashedSnoc(h, p[..64], p[64..]);
  }

  lemma TextHash()
    ensures Hashed(INITIAL, Padded(TextOctets())) == FINAL
  {
    hide Padded, TextOctets, Compressed, Hashed, IsFirst, IsSecond, HoldsKey, HoldsGuid, INITIAL, MIDDLE, FINAL;
    TextIsHeld();
    PaddedSixty(TextOctets());
    var p := Padded(TextOctets());
    HeldInFront(TextOctets(), p[..64]);
    FirstIs(p[..64]);
    FirstBlock(p[..64]);
    SecondIs(p[64..]);
    SecondBlock(p[64..]);
    TwoBlocks(INITIAL, p);
  }

  /** The digest, three octets at a time. */
  const DIGEST: seq<byte> :=
    [0xB3, 0x7A, 0x4F] + ([0x2C, 0xC0, 0x62] + ([0x4F, 0x16, 0x90] + ([0xF6, 0x46, 0x06] +
    ([0xCF, 0x38, 0x59] + ([0x45, 0xB2, 0xBE] + ([0xC4, 0xEA]))))))

  lemma TextDigest()
    ensures Digest(TextOctets()) == DIGEST
  {
    hide Padded, Hashed, TextOctets, ToBE, INITIAL;
    TextHash();
    FourOctets(0xB37A4F2C, 0xB3, 0x7A, 0x4F, 0x2C);
    FourOctets(0xC0624F16, 0xC0, 0x62, 0x4F, 0x16);
    FourOctets(0x90F64606, 0x90, 0xF6, 0x46, 0x06);
    FourOctets(0xCF385945, 0xCF, 0x38, 0x59, 0x45);
    FourOctets(0xB2BEC4EA, 0xB2, 0xBE, 0xC4, 0xEA);
  }

  lemma FourOctets(n: nat, a: byte, b: byte, c: byte, d: byte)
    requires n == 0x100_0000 * a + 0x1_0000 * b + 0x100 * c + d
    ensures ToBE(n, 4) == [a, b, c, d]
  {
    assert n / 256 == 0x1_0000 * a + 0x100 * b + c && n % 256 == d;
    assert n / 256 / 256 == 0x100 * a + b && n / 256 % 256 == c;
    assert n / 256 / 256 / 256 == a && n / 256 / 256 % 256 == b;
    assert ToBE(a, 1) == [a];
    assert ToBE(n / 256 / 256, 2) == [a] + [b];
    assert ToBE(n / 256, 3) == [a, b] + [c];
  }

  /** A group of octets, by the values of its characters. */
  lemma GroupOfThree(a: byte, b: byte, c: byte, d0: nat, d1: nat, d2: nat, d3: nat, s: string)
    requires d0 < 64 && d1 < 64 && d2 < 64 && d3 < 64
    requires 0x1_0000 * a + 0x100 * b + c == 0x4_0000 * d0 + 0x1000 * d1 + 0x40 * d2 + d3
    requires |s| == 4 && s[0] as int == Base64.Code(d0) && s[1] as int == Base64.Code(d1)
    requires s[2] as int == Base64.Code(d2) && s[3] as int == Base64.Code(d3)
    ensures Base64.EncodeGroup([a, b, c]) == s
  {
    hide Base64.ALPHABET, Base64.Code, Base64.Digit;
    assert Base64.Triple(a, b, c) == Base64.Sextets(d0, d1, d2, d3);
    Base64.DigitsOf(d0, d1, d2, d3);
    Base64.AlphabetAt(d0);
    Base64.AlphabetAt(d1);
    Base64.AlphabetAt(d2);
    Base64.AlphabetAt(d3);
  }

  lemma GroupOfTwo(a: byte, b: byte, d0: nat, d1: nat, d2: nat, s: string)
    requires d0 < 64 && d1 < 64 && d2 < 64
    requires 0x1_0000 * a + 0x100 * b == 0x4_0000 * d0 + 0x1000 * d1 + 0x40 * d2
    requires |s| == 4 && s[0] as int == Base64.Code(d0) && s[1] as int == Base64.Code(d1)
    requires s[2] as int == Base64.Code(d2) && s[3] == '='
    ensures Base64.EncodeGroup([a, b]) == s
  {
    hide Base64.ALPHABET, Base64.Code, Base64.Digit;
    assert Base64.Triple(a, b, 0) == Base64.Sextets(d0, d1, d2, 0);
    Base64.DigitsOf(d0, d1, d2, 0);
    Base64.AlphabetAt(d0);
    Base64.AlphabetAt(d1);
    Base64.AlphabetAt(d2);
  }

  lemma EncodeMore(group: seq<byte>, rest: seq<byte>)
    requires |group| == 3
    ensures Base64.Encode(group + rest) == Base64.EncodeGroup(group) + Base64.Encode(rest)
  {
    hide Base64.EncodeGroup;
    assert (group + rest)[..3] == group && (group + rest)[3..] == rest;
  }

  lemma EncodeLast(group: seq<byte>)
    requires |group| == 2
    ensures Base64.Encode(group) == Base64.EncodeGroup(group)
  {
    hide Base64.EncodeGroup;
    assert group[..2] == group && group[2..] == [];
  }

  lemma AcceptGroups()
    ensures ACCEPT == "s3pP" + ("LMBi" + ("TxaQ" + ("9kYG" + ("zzhZ" + ("RbK+" + ("xOo="))))))
  {
  }

  /** Three octets in front of what is encoded already. */
  lemma ThreeMore(a: byte, b: byte, c: byte, d0: nat, d1: nat, d2: nat, d3: nat, s: string,
                  rest: seq<byte>, t: string)
    requires d0 < 64 && d1 < 64 && d2 < 64 && d3 < 64
    requires 0x1_0000 * a + 0x100 * b + c == 0x4_0000 * d0 + 0x1000 * d1 + 0x40 * d2 + d3
    requires |s| == 4 && s[0] as int == Base64.Code(d0) && s[1] as int == Base64.Code(d1)
    requires s[2] as int == Base64.Code(d2) && s[3] as int == Base64.Code(d3)
    requires Base64.Encode(rest) == t
    ensures Base64.Encode([a, b, c] + rest) == s + t
  {
    hide Base64.Encode, Base64.EncodeGroup;
    GroupOfThree(a, b, c, d0, d1, d2, d3, s);
    EncodeMore([a, b, c], rest);
  }

  lemma LastGroups() returns (t: seq<byte>, s: string)
    ensures t == [0xF6, 0x46, 0x06] + ([0xCF, 0x38, 0x59] + ([0x45, 0xB2, 0xBE] + ([0xC4, 0xEA])))
    ensures s == "9kYG" + ("zzhZ" + ("RbK+" + ("xOo=")))
    ensures Base64.Encode(t) == s
  {
    hide Base64.Encode, Base64.EncodeGroup;
    GroupOfTwo(0xC4, 0xEA, 49, 14, 40, "xOo=");
    EncodeLast([0xC4, 0xEA]);
    t, s := [0xC4, 0xEA], "xOo=";
    ThreeMore(0x45, 0xB2, 0xBE, 17, 27, 10, 62, "RbK+", t, s);
    t, s := [0x45, 0xB2, 0xBE] + t, "RbK+" + s;
    ThreeMore(0xCF, 0x38, 0x59, 51, 51, 33, 25, "zzhZ", t, s);
    t, s := [0xCF, 0x38, 0x59] + t, "zzhZ" + s;
    ThreeMore(0xF6, 0x46, 0x06, 61, 36, 24, 6, "9kYG", t, s);
    t, s := [0xF6, 0x46, 0x06] + t, "9kYG" + s;
  }

  lemma DigestEncoded()
    ensures Base64.Encode(DIGEST) == ACCEPT
  {
    hide Base64.Encode, ACCEPT;
    AcceptGroups();
    var t, s := LastGroups();
    ThreeMore(0x4F, 0x16, 0x90, 19, 49, 26, 16, "TxaQ", t, s);
    t, s := [0x4F, 0x16, 0x90] + t, "TxaQ" + s;
    ThreeMore(0x2C, 0xC0, 0x62, 11, 12, 1, 34, "LMBi", t, s);
    t, s := [0x2C, 0xC0, 0x62] + t, "LMBi" + s;
    ThreeMore(0xB3, 0x7A, 0x4F, 44, 55, 41, 15, "s3pP", t, s);
    t, s := [0xB3, 0x7A, 0x4F] + t, "s3pP" + s;
  }

  /** The worked example: the key of section 1.3 is answered with the accept value given there. */
  lemma WorkedExample()
    ensures Handshake.AcceptFor(Utf8.Encode(KEY)) == ACCEPT
  {
    hide Utf8.Encode, Digest, Base64.Encode;
    TextDigest();
    DigestEncoded();
  }
}
