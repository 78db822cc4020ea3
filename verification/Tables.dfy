/** The conversion matrices (tables.go), the equation that defines each row, and
    the column sums that decide whether a matrix product fits 64 bits. */
module Tables {
  import opened Radix
  import opened Words

  /** Row j holds 2^(32*(7-j)) in base 58^5, most significant limb first. */
  const ENC32_0: seq<uint32> :=
    [513735, 77223048, 437087610, 300156666, 605448490, 214625350, 141436834, 379377856]
  const ENC32_1: seq<uint32> := [0, 78508, 646269101, 118408823, 91512303, 209184527, 413102373, 153715680]
  const ENC32_2: seq<uint32> := [0, 0, 11997, 486083817, 3737691, 294005210, 247894721, 289024608]
  const ENC32_3: seq<uint32> := [0, 0, 0, 1833, 324463681, 385795061, 551597588, 21339008]
  const ENC32_4: seq<uint32> := [0, 0, 0, 0, 280, 127692781, 389432875, 357132832]
  const ENC32_5: seq<uint32> := [0, 0, 0, 0, 0, 42, 537767569, 410450016]
  const ENC32_6: seq<uint32> := [0, 0, 0, 0, 0, 0, 6, 356826688]
  const ENC32_7: seq<uint32> := [0, 0, 0, 0, 0, 0, 0, 1]
  const ENC32: seq<seq<uint32>> := [ENC32_0, ENC32_1, ENC32_2, ENC32_3, ENC32_4, ENC32_5, ENC32_6, ENC32_7]

  /** Row j holds 2^(32*(15-j)) in base 58^5. */
  const ENC64_0: seq<uint32> :=
    [2631, 149457141, 577092685, 632289089, 81912456, 221591423, 502967496, 403284731, 377738089, 492128779,
     746799, 366351977, 190199623, 38066284, 526403762, 650603058, 454901440]
  const ENC64_1: seq<uint32> :=
    [0, 402, 68350375, 30641941, 266024478, 208884256, 571208415, 337765723, 215140626, 129419325, 480359048,
     398051646, 635841659, 214020719, 136986618, 626219915, 49699360]
  const ENC64_2: seq<uint32> :=
    [0, 0, 61, 295059608, 141201404, 517024870, 239296485, 527697587, 212906911, 453637228, 467589845,
     144614682, 45134568, 184514320, 644355351, 104784612, 308625792]
  const ENC64_3: seq<uint32> :=
    [0, 0, 0, 9, 256449755, 500124311, 479690581, 372802935, 413254725, 487877412, 520263169, 176791855,
     78190744, 291820402, 74998585, 496097732, 59100544]
  const ENC64_4: seq<uint32> :=
    [0, 0, 0, 0, 1, 285573662, 455976778, 379818553, 100001224, 448949512, 109507367, 117185012, 347328982,
     522665809, 36908802, 577276849, 64504928]
  const ENC64_5: seq<uint32> :=
    [0, 0, 0, 0, 0, 0, 143945778, 651677945, 281429047, 535878743, 264290972, 526964023, 199595821, 597442702,
     499113091, 424550935, 458949280]
  const ENC64_6: seq<uint32> :=
    [0, 0, 0, 0, 0, 0, 0, 21997789, 294590275, 148640294, 595017589, 210481832, 404203788, 574729546,
     160126051, 430102516, 44963712]
  const ENC64_7: seq<uint32> :=
    [0, 0, 0, 0, 0, 0, 0, 0, 3361701, 325788598, 30977630, 513969330, 194569730, 164019635, 136596846,
     626087230, 503769920]
  const ENC64_8: seq<uint32> :=
    [0, 0, 0, 0, 0, 0, 0, 0, 0, 513735, 77223048, 437087610, 300156666, 605448490, 214625350, 141436834,
     379377856]
  const ENC64_9: seq<uint32> :=
    [0, 0, 0, 0, 0, 0, 0, 0, 0, 0, 78508, 646269101, 118408823, 91512303, 209184527, 413102373, 153715680]
  const ENC64_10: seq<uint32> :=
    [0, 0, 0, 0, 0, 0, 0, 0, 0, 0, 0, 11997, 486083817, 3737691, 294005210, 247894721, 289024608]
  const ENC64_11: seq<uint32> :=
    [0, 0, 0, 0, 0, 0, 0, 0, 0, 0, 0, 0, 1833, 324463681, 385795061, 551597588, 21339008]
  const ENC64_12: seq<uint32> := [0, 0, 0, 0, 0, 0, 0, 0, 0, 0, 0, 0, 0, 280, 127692781, 389432875, 357132832]
  const ENC64_13: seq<uint32> := [0, 0, 0, 0, 0, 0, 0, 0, 0, 0, 0, 0, 0, 0, 42, 537767569, 410450016]
  const ENC64_14: seq<uint32> := [0, 0, 0, 0, 0, 0, 0, 0, 0, 0, 0, 0, 0, 0, 0, 6, 356826688]
  const ENC64_15: seq<uint32> := [0, 0, 0, 0, 0, 0, 0, 0, 0, 0, 0, 0, 0, 0, 0, 0, 1]
  const ENC64: seq<seq<uint32>> :=
    [ENC64_0, ENC64_1, ENC64_2, ENC64_3, ENC64_4, ENC64_5, ENC64_6, ENC64_7, ENC64_8,
     ENC64_9, ENC64_10, ENC64_11, ENC64_12, ENC64_13, ENC64_14, ENC64_15]

  /** Row j holds 58^(5*(8-j)) in base 2^32. */
  const DEC32_0: seq<uint32> := [1277, 2650397687, 3801011509, 2074386530, 3248244966, 687255411, 2959155456, 0]
  const DEC32_1: seq<uint32> := [0, 8360, 1184754854, 3047609191, 3418394749, 132556120, 1199103528, 0]
  const DEC32_2: seq<uint32> := [0, 0, 54706, 2996985344, 1834629191, 3964963911, 485140318, 1073741824]
  const DEC32_3: seq<uint32> := [0, 0, 0, 357981, 1476998812, 3337178590, 1483338760, 4194304000]
  const DEC32_4: seq<uint32> := [0, 0, 0, 0, 2342503, 3052466824, 2595180627, 17825792]
  const DEC32_5: seq<uint32> := [0, 0, 0, 0, 0, 15328518, 1933902296, 4063920128]
  const DEC32_6: seq<uint32> := [0, 0, 0, 0, 0, 0, 100304420, 3355157504]
  const DEC32_7: seq<uint32> := [0, 0, 0, 0, 0, 0, 0, 656356768]
  const DEC32_8: seq<uint32> := [0, 0, 0, 0, 0, 0, 0, 1]
  const DEC32: seq<seq<uint32>> :=
    [DEC32_0, DEC32_1, DEC32_2, DEC32_3, DEC32_4, DEC32_5, DEC32_6, DEC32_7, DEC32_8]

  /** Row j holds 58^(5*(17-j)) in base 2^32. */
  const DEC64_0: seq<uint32> :=
    [249448, 3719864065, 173911550, 4021557284, 3115810883, 2498525019, 1035889824, 627529458, 3840888383,
     3728167192, 2901437456, 3863405776, 1540739182, 1570766848, 0, 0]
  const DEC64_1: seq<uint32> :=
    [0, 1632305, 1882780341, 4128706713, 1023671068, 2618421812, 2005415586, 1062993857, 3577221846,
     3960476767, 1695615427, 2597060712, 669472826, 104923136, 0, 0]
  const DEC64_2: seq<uint32> :=
    [0, 0, 10681231, 1422956801, 2406345166, 4058671871, 2143913881, 4169135587, 2414104418, 2549553452,
     997594232, 713340517, 2290070198, 1103833088, 0, 0]
  const DEC64_3: seq<uint32> :=
    [0, 0, 0, 69894212, 1038812943, 1785020643, 1285619000, 2301468615, 3492037905, 314610629, 2761740102,
     3410618104, 1699516363, 910779968, 0, 0]
  const DEC64_4: seq<uint32> :=
    [0, 0, 0, 0, 457363084, 927569770, 3976106370, 1389513021, 2107865525, 3716679421, 1828091393, 2088408376,
     439156799, 2579227194, 0, 0]
  const DEC64_5: seq<uint32> :=
    [0, 0, 0, 0, 0, 2992822783, 383623235, 3862831115, 112778334, 339767049, 1447250220, 486575164, 3495303162,
     2209946163, 268435456, 0]
  const DEC64_6: seq<uint32> :=
    [0, 0, 0, 0, 0, 4, 2404108010, 2962826229, 3998086794, 1893006839, 2266258239, 1429430446, 307953032,
     2361423716, 176160768, 0]
  const DEC64_7: seq<uint32> :=
    [0, 0, 0, 0, 0, 0, 29, 3596590989, 3044036677, 1332209423, 1014420882, 868688145, 4264082837, 3688771808,
     2485387264, 0]
  const DEC64_8: seq<uint32> :=
    [0, 0, 0, 0, 0, 0, 0, 195, 1054003707, 3711696540, 582574436, 3549229270, 1088536814, 2338440092,
     1468637184, 0]
  const DEC64_9: seq<uint32> :=
    [0, 0, 0, 0, 0, 0, 0, 0, 1277, 2650397687, 3801011509, 2074386530, 3248244966, 687255411, 2959155456, 0]
  const DEC64_10: seq<uint32> :=
    [0, 0, 0, 0, 0, 0, 0, 0, 0, 8360, 1184754854, 3047609191, 3418394749, 132556120, 1199103528, 0]
  const DEC64_11: seq<uint32> :=
    [0, 0, 0, 0, 0, 0, 0, 0, 0, 0, 54706, 2996985344, 1834629191, 3964963911, 485140318, 1073741824]
  const DEC64_12: seq<uint32> :=
    [0, 0, 0, 0, 0, 0, 0, 0, 0, 0, 0, 357981, 1476998812, 3337178590, 1483338760, 4194304000]
  const DEC64_13: seq<uint32> := [0, 0, 0, 0, 0, 0, 0, 0, 0, 0, 0, 0, 2342503, 3052466824, 2595180627, 17825792]
  const DEC64_14: seq<uint32> := [0, 0, 0, 0, 0, 0, 0, 0, 0, 0, 0, 0, 0, 15328518, 1933902296, 4063920128]
  const DEC64_15: seq<uint32> := [0, 0, 0, 0, 0, 0, 0, 0, 0, 0, 0, 0, 0, 0, 100304420, 3355157504]
  const DEC64_16: seq<uint32> := [0, 0, 0, 0, 0, 0, 0, 0, 0, 0, 0, 0, 0, 0, 0, 656356768]
  const DEC64_17: seq<uint32> := [0, 0, 0, 0, 0, 0, 0, 0, 0, 0, 0, 0, 0, 0, 0, 1]
  const DEC64: seq<seq<uint32>> :=
    [DEC64_0, DEC64_1, DEC64_2, DEC64_3, DEC64_4, DEC64_5, DEC64_6, DEC64_7, DEC64_8,
     DEC64_9, DEC64_10, DEC64_11, DEC64_12, DEC64_13, DEC64_14, DEC64_15, DEC64_16, DEC64_17]

  // ---- shapes ----

  lemma Shapes()
    ensures |ENC32| == 8 && forall i :: 0 <= i < 8 ==> |ENC32[i]| == 8
    ensures |ENC64| == 16 && forall i :: 0 <= i < 16 ==> |ENC64[i]| == 17
    ensures |DEC32| == 9 && forall i :: 0 <= i < 9 ==> |DEC32[i]| == 8
    ensures |DEC64| == 18 && forall i :: 0 <= i < 18 ==> |DEC64[i]| == 16
  {
  }

  // ---- rows ----

  /** Four Horner steps over s[i..i + 4). */
  function Horner4(v: nat, s: seq<nat>, i: nat, b: nat): nat
    requires i + 4 <= |s|
  {
    (((v * b + s[i]) * b + s[i + 1]) * b + s[i + 2]) * b + s[i + 3]
  }

  lemma ValBEStep4(s: seq<nat>, i: nat, b: nat)
    requires i + 4 <= |s|
    ensures ValBE(s[..i + 4], b) == Horner4(ValBE(s[..i], b), s, i, b)
  {
    hide ValBE;
    ValBEStep(s, i, b);
    ValBEStep(s, i + 1, b);
    ValBEStep(s, i + 2, b);
    ValBEStep(s, i + 3, b);
  }

  function Row8(s: seq<nat>, b: nat): nat
    requires |s| == 8
  {
    Horner4(Horner4(0, s, 0, b), s, 4, b)
  }

  function Row16(s: seq<nat>, b: nat): nat
    requires |s| == 16
  {
    Horner4(Horner4(Horner4(Horner4(0, s, 0, b), s, 4, b), s, 8, b), s, 12, b)
  }

  function Row17(s: seq<nat>, b: nat): nat
    requires |s| == 17
  {
    Horner4(Horner4(Horner4(Horner4(s[0], s, 1, b), s, 5, b), s, 9, b), s, 13, b)
  }

  lemma NoDigits(s: seq<nat>, b: nat)
    ensures ValBE(s[..0], b) == 0
  {
  }

  lemma Row8Value(s: seq<nat>, b: nat)
    requires |s| == 8
    ensures ValBE(s, b) == Row8(s, b)
  {
    hide ValBE, Horner4;
    NoDigits(s, b);
    ValBEStep4(s, 0, b);
    ValBEStep4(s, 4, b);
    assert s[..8] == s;
  }

  lemma Row16Value(s: seq<nat>, b: nat)
    requires |s| == 16
    ensures ValBE(s, b) == Row16(s, b)
  {
    hide ValBE, Horner4;
    NoDigits(s, b);
    ValBEStep4(s, 0, b);
    ValBEStep4(s, 4, b);
    ValBEStep4(s, 8, b);
    ValBEStep4(s, 12, b);
    assert s[..16] == s;
  }

  lemma Row17Value(s: seq<nat>, b: nat)
    requires |s| == 17
    ensures ValBE(s, b) == Row17(s, b)
  {
    hide ValBE, Horner4;
    NoDigits(s, b);
    ValBEStep(s, 0, b);
    ValBEStep4(s, 1, b);
    ValBEStep4(s, 5, b);
    ValBEStep4(s, 9, b);
    ValBEStep4(s, 13, b);
    assert s[..17] == s;
  }

  const W2: nat := W32 * W32
  const W4: nat := W2 * W2
  const W8: nat := W4 * W4
  const W16: nat := W8 * W8
  const L2: nat := LIMB * LIMB
  const L4: nat := L2 * L2
  const L8: nat := L4 * L4
  const L16: nat := L8 * L8

  lemma WordPowers()
    ensures Pow(W32, 0) == 1
    ensures Pow(W32, 1) == W32
    ensures Pow(W32, 2) == W2
    ensures Pow(W32, 3) == W2 * W32
    ensures Pow(W32, 4) == W4
    ensures Pow(W32, 5) == W4 * W32
    ensures Pow(W32, 6) == W4 * W2
    ensures Pow(W32, 7) == W4 * W2 * W32
    ensures Pow(W32, 8) == W8
    ensures Pow(W32, 9) == W8 * W32
    ensures Pow(W32, 10) == W8 * W2
    ensures Pow(W32, 11) == W8 * W2 * W32
    ensures Pow(W32, 12) == W8 * W4
    ensures Pow(W32, 13) == W8 * W4 * W32
    ensures Pow(W32, 14) == W8 * W4 * W2
    ensures Pow(W32, 15) == W8 * W4 * W2 * W32
    ensures Pow(W32, 16) == W16
  {
    WordPowersStart();
    hide Pow;
    PowAdd(W32, 1, 1);
    PowAdd(W32, 2, 1);
    PowAdd(W32, 2, 2);
    PowAdd(W32, 4, 1);
    PowAdd(W32, 4, 2);
    PowAdd(W32, 4, 3);
    PowAdd(W32, 4, 4);
    PowAdd(W32, 8, 1);
    PowAdd(W32, 8, 2);
    PowAdd(W32, 8, 3);
    PowAdd(W32, 8, 4);
    PowAdd(W32, 8, 5);
    PowAdd(W32, 8, 6);
    PowAdd(W32, 8, 7);
    PowAdd(W32, 8, 8);
  }

  lemma WordPowersStart()
    ensures Pow(W32, 0) == 1 && Pow(W32, 1) == W32
  {
  }

  lemma LimbsPowers()
    ensures Pow(LIMB, 0) == 1
    ensures Pow(LIMB, 1) == LIMB
    ensures Pow(LIMB, 2) == L2
    ensures Pow(LIMB, 3) == L2 * LIMB
    ensures Pow(LIMB, 4) == L4
    ensures Pow(LIMB, 5) == L4 * LIMB
    ensures Pow(LIMB, 6) == L4 * L2
    ensures Pow(LIMB, 7) == L4 * L2 * LIMB
    ensures Pow(LIMB, 8) == L8
    ensures Pow(LIMB, 9) == L8 * LIMB
    ensures Pow(LIMB, 10) == L8 * L2
    ensures Pow(LIMB, 11) == L8 * L2 * LIMB
    ensures Pow(LIMB, 12) == L8 * L4
    ensures Pow(LIMB, 13) == L8 * L4 * LIMB
    ensures Pow(LIMB, 14) == L8 * L4 * L2
    ensures Pow(LIMB, 15) == L8 * L4 * L2 * LIMB
    ensures Pow(LIMB, 16) == L16
    ensures Pow(LIMB, 17) == L16 * LIMB
    ensures Pow(LIMB, 18) == L16 * L2
  {
    LimbsPowersStart();
    hide Pow;
    PowAdd(LIMB, 1, 1);
    PowAdd(LIMB, 2, 1);
    PowAdd(LIMB, 2, 2);
    PowAdd(LIMB, 4, 1);
    PowAdd(LIMB, 4, 2);
    PowAdd(LIMB, 4, 3);
    PowAdd(LIMB, 4, 4);
    PowAdd(LIMB, 8, 1);
    PowAdd(LIMB, 8, 2);
    PowAdd(LIMB, 8, 3);
    PowAdd(LIMB, 8, 4);
    PowAdd(LIMB, 8, 5);
    PowAdd(LIMB, 8, 6);
    PowAdd(LIMB, 8, 7);
    PowAdd(LIMB, 8, 8);
    PowAdd(LIMB, 16, 1);
    PowAdd(LIMB, 16, 2);
  }

  lemma LimbsPowersStart()
    ensures Pow(LIMB, 0) == 1 && Pow(LIMB, 1) == LIMB
  {
  }

  lemma Enc32RowsA()
    ensures Row8(ENC32_0, LIMB) == W4 * W2 * W32
    ensures Row8(ENC32_1, LIMB) == W4 * W2
  {
  }

  lemma Enc32RowsB()
    ensures Row8(ENC32_2, LIMB) == W4 * W32
    ensures Row8(ENC32_3, LIMB) == W4
  {
  }

  lemma Enc32RowsC()
    ensures Row8(ENC32_4, LIMB) == W2 * W32
    ensures Row8(ENC32_5, LIMB) == W2
  {
  }

  lemma Enc32RowsD()
    ensures Row8(ENC32_6, LIMB) == W32
    ensures Row8(ENC32_7, LIMB) == 1
  {
  }

  lemma Enc64RowsA()
    ensures Row17(ENC64_0, LIMB) == W8 * W4 * W2 * W32
  {
  }

  lemma Enc64RowsB()
    ensures Row17(ENC64_1, LIMB) == W8 * W4 * W2
  {
  }

  lemma Enc64RowsC()
    ensures Row17(ENC64_2, LIMB) == W8 * W4 * W32
  {
  }

  lemma Enc64RowsD()
    ensures Row17(ENC64_3, LIMB) == W8 * W4
  {
  }

  lemma Enc64RowsE()
    ensures Row17(ENC64_4, LIMB) == W8 * W2 * W32
  {
  }

  lemma Enc64RowsF()
    ensures Row17(ENC64_5, LIMB) == W8 * W2
  {
  }

  lemma Enc64RowsG()
    ensures Row17(ENC64_6, LIMB) == W8 * W32
  {
  }

  lemma Enc64RowsH()
    ensures Row17(ENC64_7, LIMB) == W8
  {
  }

  lemma Dec32RowsA()
    ensures Row8(DEC32_0, W32) == L8
    ensures Row8(DEC32_1, W32) == L4 * L2 * LIMB
  {
  }

  lemma Dec32RowsB()
    ensures Row8(DEC32_2, W32) == L4 * L2
    ensures Row8(DEC32_3, W32) == L4 * LIMB
  {
  }

  lemma Dec32RowsC()
    ensures Row8(DEC32_4, W32) == L4
    ensures Row8(DEC32_5, W32) == L2 * LIMB
  {
  }

  lemma Dec32RowsD()
    ensures Row8(DEC32_6, W32) == L2
    ensures Row8(DEC32_7, W32) == LIMB
  {
  }

  lemma Dec32RowsE()
    ensures Row8(DEC32_8, W32) == 1
  {
  }

  lemma Dec64RowsA()
    ensures Row16(DEC64_0, W32) == L16 * LIMB
  {
  }

  lemma Dec64RowsB()
    ensures Row16(DEC64_1, W32) == L16
  {
  }

  lemma Dec64RowsC()
    ensures Row16(DEC64_2, W32) == L8 * L4 * L2 * LIMB
  {
  }

  lemma Dec64RowsD()
    ensures Row16(DEC64_3, W32) == L8 * L4 * L2
  {
  }

  lemma Dec64RowsE()
    ensures Row16(DEC64_4, W32) == L8 * L4 * LIMB
  {
  }

  lemma Dec64RowsF()
    ensures Row16(DEC64_5, W32) == L8 * L4
  {
  }

  lemma Dec64RowsG()
    ensures Row16(DEC64_6, W32) == L8 * L2 * LIMB
  {
  }

  lemma Dec64RowsH()
    ensures Row16(DEC64_7, W32) == L8 * L2
  {
  }

  lemma Dec64RowsI()
    ensures Row16(DEC64_8, W32) == L8 * LIMB
  {
  }

  /** The defining equation of encTable32. */
  lemma EncRow32(j: nat)
    requires j < 8
    ensures ValBE(ENC32[j], LIMB) == Pow(W32, 7 - j)
  {
    hide ValBE, Pow, Row8, ENC32_0, ENC32_1, ENC32_2, ENC32_3, ENC32_4, ENC32_5, ENC32_6, ENC32_7;
    Shapes();
    Row8Value(ENC32[j], LIMB);
    Enc32RowsA();
    Enc32RowsB();
    Enc32RowsC();
    Enc32RowsD();
    WordPowers();
    assert j == 0 || j == 1 || j == 2 || j == 3 || j == 4 || j == 5 || j == 6 || j == 7;
  }

  /** The defining equation of decTable32. */
  lemma DecRow32(j: nat)
    requires j < 9
    ensures ValBE(DEC32[j], W32) == Pow(LIMB, 8 - j)
  {
    hide ValBE, Pow, Row8, DEC32_0, DEC32_1, DEC32_2, DEC32_3, DEC32_4, DEC32_5, DEC32_6, DEC32_7, DEC32_8;
    Shapes();
    Row8Value(DEC32[j], W32);
    Dec32RowsA();
    Dec32RowsB();
    Dec32RowsC();
    Dec32RowsD();
    Dec32RowsE();
    LimbsPowers();
    assert j == 0 || j == 1 || j == 2 || j == 3 || j == 4 || j == 5 || j == 6 || j == 7 || j == 8;
  }

  /** Rows 8-15 of encTable64 are encTable32 moved nine columns right. */
  lemma EncTail(j: nat)
    requires j < 8
    ensures ENC64[j + 8] == Zeros(9) + ENC32[j]
  {
    Shapes();
    EncTailA();
    EncTailB();
    hide ENC64, ENC32;
    assert j == 0 || j == 1 || j == 2 || j == 3 || j == 4 || j == 5 || j == 6 || j == 7;
  }

  lemma EncTailA()
    ensures ENC64[8] == Zeros(9) + ENC32[0] && ENC64[9] == Zeros(9) + ENC32[1]
    ensures ENC64[10] == Zeros(9) + ENC32[2] && ENC64[11] == Zeros(9) + ENC32[3]
  {
  }

  lemma EncTailB()
    ensures ENC64[12] == Zeros(9) + ENC32[4] && ENC64[13] == Zeros(9) + ENC32[5]
    ensures ENC64[14] == Zeros(9) + ENC32[6] && ENC64[15] == Zeros(9) + ENC32[7]
  {
  }

  /** Rows 9-17 of decTable64 are decTable32 moved eight columns right. */
  lemma DecTail(j: nat)
    requires j < 9
    ensures DEC64[j + 9] == Zeros(8) + DEC32[j]
  {
    Shapes();
    DecTailA();
    DecTailB();
    hide DEC64, DEC32;
    assert j == 0 || j == 1 || j == 2 || j == 3 || j == 4 || j == 5 || j == 6 || j == 7 || j == 8;
  }

  lemma DecTailA()
    ensures DEC64[9] == Zeros(8) + DEC32[0] && DEC64[10] == Zeros(8) + DEC32[1]
    ensures DEC64[11] == Zeros(8) + DEC32[2] && DEC64[12] == Zeros(8) + DEC32[3]
    ensures DEC64[13] == Zeros(8) + DEC32[4]
  {
  }

  lemma DecTailB()
    ensures DEC64[14] == Zeros(8) + DEC32[5] && DEC64[15] == Zeros(8) + DEC32[6]
    ensures DEC64[16] == Zeros(8) + DEC32[7] && DEC64[17] == Zeros(8) + DEC32[8]
  {
  }

  /** The defining equation of encTable64. */
  lemma EncRow64(j: nat)
    requires j < 16
    ensures ValBE(ENC64[j], LIMB) == Pow(W32, 15 - j)
  {
    hide ValBE, Pow, Row17, ENC64_0, ENC64_1, ENC64_2, ENC64_3, ENC64_4, ENC64_5, ENC64_6, ENC64_7;
    Shapes();
    if j >= 8 {
      EncTail(j - 8);
      ValBELeadingZeros(9, ENC32[j - 8], LIMB);
      EncRow32(j - 8);
    } else {
      Row17Value(ENC64[j], LIMB);
      Enc64RowsA();
      Enc64RowsB();
      Enc64RowsC();
      Enc64RowsD();
      Enc64RowsE();
      Enc64RowsF();
      Enc64RowsG();
      Enc64RowsH();
      WordPowers();
      assert j == 0 || j == 1 || j == 2 || j == 3 || j == 4 || j == 5 || j == 6 || j == 7;
    }
  }

  /** The defining equation of decTable64. */
  lemma DecRow64(j: nat)
    requires j < 18
    ensures ValBE(DEC64[j], W32) == Pow(LIMB, 17 - j)
  {
    hide ValBE, Pow, Row16;
    hide DEC64_0, DEC64_1, DEC64_2, DEC64_3, DEC64_4, DEC64_5, DEC64_6, DEC64_7, DEC64_8;
    Shapes();
    if j >= 9 {
      DecTail(j - 9);
      ValBELeadingZeros(8, DEC32[j - 9], W32);
      DecRow32(j - 9);
    } else {
      Row16Value(DEC64[j], W32);
      Dec64RowsA();
      Dec64RowsB();
      Dec64RowsC();
      Dec64RowsD();
      Dec64RowsE();
      Dec64RowsF();
      Dec64RowsG();
      Dec64RowsH();
      Dec64RowsI();
      LimbsPowers();
      assert j == 0 || j == 1 || j == 2 || j == 3 || j == 4 || j == 5 || j == 6 || j == 7 || j == 8;
    }
  }

  // ---- columns ----

  predicate Rectangular(T: seq<seq<nat>>, width: nat) {
    forall j :: 0 <= j < |T| ==> |T[j]| == width
  }

  /** The sum of column k over rows lo to hi. */
  function ColSum(T: seq<seq<nat>>, width: nat, lo: nat, hi: nat, k: nat): nat
    requires Rectangular(T, width) && lo <= hi <= |T| && k < width
    decreases hi
  {
    if lo == hi then 0 else ColSum(T, width, lo, hi - 1, k) + T[hi - 1][k]
  }

  lemma {:induction false} ColSumMonotone(T: seq<seq<nat>>, width: nat, lo: nat, mid: nat, hi: nat, k: nat)
    requires Rectangular(T, width) && lo <= mid <= hi <= |T| && k < width
    ensures ColSum(T, width, lo, mid, k) <= ColSum(T, width, lo, hi, k)
    decreases hi
  {
    if mid < hi {
      ColSumMonotone(T, width, lo, mid, hi - 1, k);
    }
  }

  lemma {:induction false} ColSumSplit(T: seq<seq<nat>>, width: nat, lo: nat, mid: nat, hi: nat, k: nat)
    requires Rectangular(T, width) && lo <= mid <= hi <= |T| && k < width
    ensures ColSum(T, width, lo, hi, k) == ColSum(T, width, lo, mid, k) + ColSum(T, width, mid, hi, k)
    decreases hi
  {
    if mid < hi {
      ColSumSplit(T, width, lo, mid, hi - 1, k);
    }
  }

  function Eight(T: seq<seq<nat>>, lo: nat, k: nat): nat
    requires lo + 8 <= |T| && forall j :: lo <= j < lo + 8 ==> k < |T[j]|
  {
    T[lo][k] + T[lo + 1][k] + T[lo + 2][k] + T[lo + 3][k]
    + T[lo + 4][k] + T[lo + 5][k] + T[lo + 6][k] + T[lo + 7][k]
  }

  lemma ColSumOfEight(T: seq<seq<nat>>, width: nat, lo: nat, k: nat)
    requires Rectangular(T, width) && lo + 8 <= |T| && k < width
    ensures ColSum(T, width, lo, lo + 8, k) == Eight(T, lo, k)
  {
    assert ColSum(T, width, lo, lo, k) == 0;
    assert ColSum(T, width, lo, lo + 1, k) == ColSum(T, width, lo, lo, k) + T[lo][k];
    assert ColSum(T, width, lo, lo + 2, k) == ColSum(T, width, lo, lo + 1, k) + T[lo + 1][k];
    assert ColSum(T, width, lo, lo + 3, k) == ColSum(T, width, lo, lo + 2, k) + T[lo + 2][k];
    assert ColSum(T, width, lo, lo + 4, k) == ColSum(T, width, lo, lo + 3, k) + T[lo + 3][k];
    assert ColSum(T, width, lo, lo + 5, k) == ColSum(T, width, lo, lo + 4, k) + T[lo + 4][k];
    assert ColSum(T, width, lo, lo + 6, k) == ColSum(T, width, lo, lo + 5, k) + T[lo + 5][k];
    assert ColSum(T, width, lo, lo + 7, k) == ColSum(T, width, lo, lo + 6, k) + T[lo + 6][k];
    assert ColSum(T, width, lo, lo + 8, k) == ColSum(T, width, lo, lo + 7, k) + T[lo + 7][k];
  }

  lemma ColSumOfNine(T: seq<seq<nat>>, width: nat, lo: nat, k: nat)
    requires Rectangular(T, width) && lo + 9 <= |T| && k < width
    ensures ColSum(T, width, lo, lo + 9, k) == Eight(T, lo, k) + T[lo + 8][k]
  {
    ColSumOfEight(T, width, lo, k);
    assert ColSum(T, width, lo, lo + 9, k) == ColSum(T, width, lo, lo + 8, k) + T[lo + 8][k];
  }

  /** A column times a 32-bit word leaves 2^40 of a 64-bit cell free. */
  const ROOM: nat := 0xFFFF_FF00

  /** Column k of encTable64 fits, rows 0-7 and rows 8-15 apart, and together too
      unless k is 15: there the mini-reduction is needed. */
  predicate EncColumnFits(k: nat)
    requires |ENC64| == 16 && Rectangular(ENC64, 17) && k < 17
  {
    Eight(ENC64, 0, k) < ROOM && Eight(ENC64, 8, k) < ROOM
    && (k != 15 ==> Eight(ENC64, 0, k) + Eight(ENC64, 8, k) < ROOM)
  }

  /** Limbs below 58^5 times column k of an 18-row table leave 2^33 free. */
  predicate LimbColumnFits(T: seq<seq<nat>>, k: nat)
    requires |T| == 18 && Rectangular(T, 16) && k < 16
  {
    (LIMB - 1) * (Eight(T, 0, k) + T[8][k] + Eight(T, 9, k) + T[17][k]) + 0x2_0000_0000 < W64
  }

  /** Column 15 of encTable64 as a whole exceeds what 64 bits can hold. */
  lemma Column15()
    ensures |ENC64| == 16 && Rectangular(ENC64, 17)
    ensures Eight(ENC64, 0, 15) + Eight(ENC64, 8, 15) > W32 + 1
  {
    Shapes();
  }

  lemma EncColumnsA()
    requires |ENC64| == 16 && Rectangular(ENC64, 17)
    ensures EncColumnFits(0) && EncColumnFits(1) && EncColumnFits(2)
  {
  }

  lemma EncColumnsB()
    requires |ENC64| == 16 && Rectangular(ENC64, 17)
    ensures EncColumnFits(3) && EncColumnFits(4) && EncColumnFits(5)
  {
  }

  lemma EncColumnsC()
    requires |ENC64| == 16 && Rectangular(ENC64, 17)
    ensures EncColumnFits(6) && EncColumnFits(7) && EncColumnFits(8)
  {
  }

  lemma EncColumnsD()
    requires |ENC64| == 16 && Rectangular(ENC64, 17)
    ensures EncColumnFits(9) && EncColumnFits(10) && EncColumnFits(11)
  {
  }

  lemma EncColumnsE()
    requires |ENC64| == 16 && Rectangular(ENC64, 17)
    ensures EncColumnFits(12) && EncColumnFits(13) && EncColumnFits(14)
  {
  }

  lemma EncColumnsF()
    requires |ENC64| == 16 && Rectangular(ENC64, 17)
    ensures EncColumnFits(15) && EncColumnFits(16)
  {
  }

  lemma EncColumns(k: nat)
    requires k < 17
    ensures |ENC64| == 16 && Rectangular(ENC64, 17) && EncColumnFits(k)
  {
    Shapes();
    hide EncColumnFits;
    EncColumnsA();
    EncColumnsB();
    EncColumnsC();
    EncColumnsD();
    EncColumnsE();
    EncColumnsF();
    assert k == 0 || k == 1 || k == 2 || k == 3 || k == 4 || k == 5 || k == 6 || k == 7 || k == 8
        || k == 9 || k == 10 || k == 11 || k == 12 || k == 13 || k == 14 || k == 15 || k == 16;
  }

  lemma DecColumnsA()
    requires |DEC64| == 18 && Rectangular(DEC64, 16)
    ensures LimbColumnFits(DEC64, 0) && LimbColumnFits(DEC64, 1)
  {
  }

  lemma DecColumnsB()
    requires |DEC64| == 18 && Rectangular(DEC64, 16)
    ensures LimbColumnFits(DEC64, 2) && LimbColumnFits(DEC64, 3)
  {
  }

  lemma DecColumnsC()
    requires |DEC64| == 18 && Rectangular(DEC64, 16)
    ensures LimbColumnFits(DEC64, 4) && LimbColumnFits(DEC64, 5)
  {
  }

  lemma DecColumnsD()
    requires |DEC64| == 18 && Rectangular(DEC64, 16)
    ensures LimbColumnFits(DEC64, 6) && LimbColumnFits(DEC64, 7)
  {
  }

  lemma DecColumnsE()
    requires |DEC64| == 18 && Rectangular(DEC64, 16)
    ensures LimbColumnFits(DEC64, 8) && LimbColumnFits(DEC64, 9)
  {
  }

  lemma DecColumnsF()
    requires |DEC64| == 18 && Rectangular(DEC64, 16)
    ensures LimbColumnFits(DEC64, 10) && LimbColumnFits(DEC64, 11)
  {
  }

  lemma DecColumnsG()
    requires |DEC64| == 18 && Rectangular(DEC64, 16)
    ensures LimbColumnFits(DEC64, 12) && LimbColumnFits(DEC64, 13)
  {
  }

  lemma DecColumnsH()
    requires |DEC64| == 18 && Rectangular(DEC64, 16)
    ensures LimbColumnFits(DEC64, 14) && LimbColumnFits(DEC64, 15)
  {
  }

  lemma DecColumns(k: nat)
    requires k < 16
    ensures |DEC64| == 18 && Rectangular(DEC64, 16) && LimbColumnFits(DEC64, k)
  {
    Shapes();
    hide LimbColumnFits;
    DecColumnsA();
    DecColumnsB();
    DecColumnsC();
    DecColumnsD();
    DecColumnsE();
    DecColumnsF();
    DecColumnsG();
    DecColumnsH();
    assert k == 0 || k == 1 || k == 2 || k == 3 || k == 4 || k == 5 || k == 6 || k == 7
        || k == 8 || k == 9 || k == 10 || k == 11 || k == 12 || k == 13 || k == 14 || k == 15;
  }
}
