// Threshold table of the NEON fixed-weight sampler of ntruhps4096821.

module VtTable {
  import SampleRef

  /** The 832-entry uint16 table `vt`, held as 8 groups of 13 eight-lane
      vectors (the unit in which the sampler loads it). */
  const VtVectors: seq<seq<seq<int>>> := [
    [
      [756, 16, 96, 176, 256, 336, 416, 496],
      [576, 656, 736, 7, 88, 169, 250, 331],
      [412, 493, 574, 655, 736, 18, 100, 182],
      [264, 346, 428, 510, 592, 674, 756, 49],
      [132, 215, 298, 381, 464, 547, 630, 713],
      [16, 100, 184, 268, 352, 436, 520, 604],
      [688, 1, 86, 171, 256, 341, 426, 511],
      [596, 681, 4, 90, 176, 262, 348, 434],
      [520, 606, 692, 25, 112, 199, 286, 373],
      [460, 547, 634, 721, 64, 152, 240, 328],
      [416, 504, 592, 680, 32, 121, 210, 299],
      [388, 477, 566, 655, 16, 106, 196, 286],
      [376, 466, 556, 646, 16, 107, 198, 289]
    ],
    [
      [380, 471, 562, 653, 32, 124, 216, 308],
      [400, 492, 584, 676, 64, 157, 250, 343],
      [436, 529, 622, 18, 112, 206, 300, 394],
      [488, 582, 676, 81, 176, 271, 366, 461],
      [556, 651, 64, 160, 256, 352, 448, 544],
      [640, 61, 158, 255, 352, 449, 546, 643],
      [72, 170, 268, 366, 464, 562, 660, 97],
      [196, 295, 394, 493, 592, 36, 136, 236],
      [336, 436, 536, 636, 88, 189, 290, 391],
      [492, 593, 52, 154, 256, 358, 460, 562],
      [28, 131, 234, 337, 440, 543, 16, 120],
      [224, 328, 432, 536, 16, 121, 226, 331],
      [436, 541, 28, 134, 240, 346, 452, 558]
    ],
    [
      [52, 159, 266, 373, 480, 587, 88, 196],
      [304, 412, 520, 27, 136, 245, 354, 463],
      [572, 86, 196, 306, 416, 526, 46, 157],
      [268, 379, 490, 16, 128, 240, 352, 464],
      [576, 109, 222, 335, 448, 561, 100, 214],
      [328, 442, 556, 101, 216, 331, 446, 561],
      [112, 228, 344, 460, 16, 133, 250, 367],
      [484, 46, 164, 282, 400, 518, 86, 205],
      [324, 443, 16, 136, 256, 376, 496, 75],
      [196, 317, 438, 22, 144, 266, 388, 510],
      [100, 223, 346, 469, 64, 188, 312, 436],
      [36, 161, 286, 411, 16, 142, 268, 394],
      [4, 131, 258, 385, 0, 128, 256, 384]
    ],
    [
      [4, 133, 262, 391, 16, 146, 276, 406],
      [36, 167, 298, 429, 64, 196, 328, 460],
      [100, 233, 366, 10, 144, 278, 412, 61],
      [196, 331, 466, 120, 256, 392, 50, 187],
      [324, 461, 124, 262, 400, 67, 206, 345],
      [16, 156, 296, 436, 112, 253, 394, 74],
      [216, 358, 42, 185, 328, 16, 160, 304],
      [448, 141, 286, 431, 128, 274, 420, 121],
      [268, 415, 120, 268, 416, 125, 274, 423],
      [136, 286, 2, 153, 304, 24, 176, 328],
      [52, 205, 358, 86, 240, 394, 126, 281],
      [16, 172, 328, 67, 224, 381, 124, 282],
      [28, 187, 346, 96, 256, 9, 170, 331]
    ],
    [
      [88, 250, 10, 173, 336, 100, 264, 31],
      [196, 361, 132, 298, 72, 239, 16, 184],
      [352, 133, 302, 86, 256, 43, 214, 4],
      [176, 348, 142, 315, 112, 286, 86, 261],
      [64, 240, 46, 223, 32, 210, 22, 201],
      [16, 196, 14, 195, 16, 198, 22, 205],
      [32, 216, 46, 231, 64, 250, 86, 273],
      [112, 300, 142, 331, 176, 23, 214, 64],
      [256, 109, 302, 158, 16, 211, 72, 268],
      [132, 329, 196, 65, 264, 136, 10, 211],
      [88, 290, 170, 52, 256, 141, 28, 234],
      [124, 16, 224, 119, 16, 226, 126, 28],
      [240, 145, 52, 266, 176, 88, 2, 219]
    ],
    [
      [136, 55, 274, 196, 120, 46, 268, 197],
      [128, 61, 286, 222, 160, 100, 42, 271],
      [216, 163, 112, 63, 16, 250, 206, 164],
      [124, 86, 50, 16, 256, 225, 196, 169],
      [144, 121, 100, 81, 64, 49, 36, 25],
      [16, 9, 4, 1, 0, 1, 4, 9],
      [16, 25, 36, 49, 64, 81, 100, 121],
      [144, 169, 196, 225, 16, 50, 86, 124],
      [164, 206, 16, 63, 112, 163, 216, 42],
      [100, 160, 222, 61, 128, 197, 46, 120],
      [196, 55, 136, 2, 88, 176, 52, 145],
      [28, 126, 16, 119, 16, 124, 28, 141],
      [52, 170, 88, 10, 136, 65, 196, 132]
    ],
    [
      [72, 16, 158, 109, 64, 23, 176, 142],
      [112, 86, 64, 46, 32, 22, 16, 14],
      [16, 22, 32, 46, 64, 86, 112, 142],
      [4, 43, 86, 133, 16, 72, 132, 31],
      [100, 10, 88, 9, 96, 28, 124, 67],
      [16, 126, 86, 52, 24, 2, 136, 125],
      [120, 121, 128, 141, 16, 42, 74, 112],
      [16, 67, 124, 50, 120, 61, 10, 100],
      [64, 36, 16, 4, 0, 4, 16, 36],
      [64, 100, 22, 75, 16, 86, 46, 16],
      [112, 101, 100, 109, 16, 46, 86, 27],
      [88, 52, 28, 16, 16, 28, 52, 88],
      [36, 97, 72, 61, 64, 81, 18, 64]
    ],
    [
      [32, 16, 16, 32, 64, 25, 4, 1],
      [16, 49, 18, 7, 16, 45, 16, 9],
      [24, 61, 46, 55, 16, 3, 16, 55],
      [52, 10, 64, 16, 0, 16, 2, 22],
      [16, 46, 54, 43, 16, 31, 34, 28],
      [16, 1, 36, 23, 16, 18, 32, 16],
      [20, 4, 16, 18, 16, 16, 24, 9],
      [16, 16, 18, 31, 0, 2, 16, 25],
      [16, 7, 16, 11, 16, 9, 20, 16],
      [16, 5, 16, 1, 0, 1, 2, 3],
      [4, 9, 6, 7, 0, 2, 4, 1],
      [0, 1, 0, 0, 0, 0, 0, 0],
      [0, 0, 0, 0, 0, 0, 0, 0]
    ]
  ]

  /** Entry i of `vt`. */
  function Vt(i: int): (r: int)
    requires 0 <= i < 832
  {
    VtVectors[i / 104][(i % 104) / 8][i % 8]
  }

  /** What entry i must hold: 2^16 mod (N-1-i) for the N-1 sampled positions, 0 for padding. */
  function ThresholdAt(i: int): (r: int)
  {
    if 0 <= i < SampleRef.N - 1 then SampleRef.Threshold(SampleRef.N - 1 - i) else 0
  }

  lemma VtEntries0()
    ensures forall k :: 0 <= k < 13 ==> Vt(k) == ThresholdAt(k)
  {
    assert Vt(0) == ThresholdAt(0);
    assert Vt(1) == ThresholdAt(1);
    assert Vt(2) == ThresholdAt(2);
    assert Vt(3) == ThresholdAt(3);
    assert Vt(4) == ThresholdAt(4);
    assert Vt(5) == ThresholdAt(5);
    assert Vt(6) == ThresholdAt(6);
    assert Vt(7) == ThresholdAt(7);
    assert Vt(8) == ThresholdAt(8);
    assert Vt(9) == ThresholdAt(9);
    assert Vt(10) == ThresholdAt(10);
    assert Vt(11) == ThresholdAt(11);
    assert Vt(12) == ThresholdAt(12);
  }

  lemma VtEntries1()
    ensures forall k :: 13 <= k < 26 ==> Vt(k) == ThresholdAt(k)
  {
    assert Vt(13) == ThresholdAt(13);
    assert Vt(14) == ThresholdAt(14);
    assert Vt(15) == ThresholdAt(15);
    assert Vt(16) == ThresholdAt(16);
    assert Vt(17) == ThresholdAt(17);
    assert Vt(18) == ThresholdAt(18);
    assert Vt(19) == ThresholdAt(19);
    assert Vt(20) == ThresholdAt(20);
    assert Vt(21) == ThresholdAt(21);
    assert Vt(22) == ThresholdAt(22);
    assert Vt(23) == ThresholdAt(23);
    assert Vt(24) == ThresholdAt(24);
    assert Vt(25) == ThresholdAt(25);
  }

  lemma VtEntries2()
    ensures forall k :: 26 <= k < 39 ==> Vt(k) == ThresholdAt(k)
  {
    assert Vt(26) == ThresholdAt(26);
    assert Vt(27) == ThresholdAt(27);
    assert Vt(28) == ThresholdAt(28);
    assert Vt(29) == ThresholdAt(29);
    assert Vt(30) == ThresholdAt(30);
    assert Vt(31) == ThresholdAt(31);
    assert Vt(32) == ThresholdAt(32);
    assert Vt(33) == ThresholdAt(33);
    assert Vt(34) == ThresholdAt(34);
    assert Vt(35) == ThresholdAt(35);
    assert Vt(36) == ThresholdAt(36);
    assert Vt(37) == ThresholdAt(37);
    assert Vt(38) == ThresholdAt(38);
  }

  lemma VtEntries3()
    ensures forall k :: 39 <= k < 52 ==> Vt(k) == ThresholdAt(k)
  {
    assert Vt(39) == ThresholdAt(39);
    assert Vt(40) == ThresholdAt(40);
    assert Vt(41) == ThresholdAt(41);
    assert Vt(42) == ThresholdAt(42);
    assert Vt(43) == ThresholdAt(43);
    assert Vt(44) == ThresholdAt(44);
    assert Vt(45) == ThresholdAt(45);
    assert Vt(46) == ThresholdAt(46);
    assert Vt(47) == ThresholdAt(47);
    assert Vt(48) == ThresholdAt(48);
    assert Vt(49) == ThresholdAt(49);
    assert Vt(50) == ThresholdAt(50);
    assert Vt(51) == ThresholdAt(51);
  }

  lemma VtEntries4()
    ensures forall k :: 52 <= k < 65 ==> Vt(k) == ThresholdAt(k)
  {
    assert Vt(52) == ThresholdAt(52);
    assert Vt(53) == ThresholdAt(53);
    assert Vt(54) == ThresholdAt(54);
    assert Vt(55) == ThresholdAt(55);
    assert Vt(56) == ThresholdAt(56);
    assert Vt(57) == ThresholdAt(57);
    assert Vt(58) == ThresholdAt(58);
    assert Vt(59) == ThresholdAt(59);
    assert Vt(60) == ThresholdAt(60);
    assert Vt(61) == ThresholdAt(61);
    assert Vt(62) == ThresholdAt(62);
    assert Vt(63) == ThresholdAt(63);
    assert Vt(64) == ThresholdAt(64);
  }

  lemma VtEntries5()
    ensures forall k :: 65 <= k < 78 ==> Vt(k) == ThresholdAt(k)
  {
    assert Vt(65) == ThresholdAt(65);
    assert Vt(66) == ThresholdAt(66);
    assert Vt(67) == ThresholdAt(67);
    assert Vt(68) == ThresholdAt(68);
    assert Vt(69) == ThresholdAt(69);
    assert Vt(70) == ThresholdAt(70);
    assert Vt(71) == ThresholdAt(71);
    assert Vt(72) == ThresholdAt(72);
    assert Vt(73) == ThresholdAt(73);
    assert Vt(74) == ThresholdAt(74);
    assert Vt(75) == ThresholdAt(75);
    assert Vt(76) == ThresholdAt(76);
    assert Vt(77) == ThresholdAt(77);
  }

  lemma VtEntries6()
    ensures forall k :: 78 <= k < 91 ==> Vt(k) == ThresholdAt(k)
  {
    assert Vt(78) == ThresholdAt(78);
    assert Vt(79) == ThresholdAt(79);
    assert Vt(80) == ThresholdAt(80);
    assert Vt(81) == ThresholdAt(81);
    assert Vt(82) == ThresholdAt(82);
    assert Vt(83) == ThresholdAt(83);
    assert Vt(84) == ThresholdAt(84);
    assert Vt(85) == ThresholdAt(85);
    assert Vt(86) == ThresholdAt(86);
    assert Vt(87) == ThresholdAt(87);
    assert Vt(88) == ThresholdAt(88);
    assert Vt(89) == ThresholdAt(89);
    assert Vt(90) == ThresholdAt(90);
  }

  lemma VtEntries7()
    ensures forall k :: 91 <= k < 104 ==> Vt(k) == ThresholdAt(k)
  {
    assert Vt(91) == ThresholdAt(91);
    assert Vt(92) == ThresholdAt(92);
    assert Vt(93) == ThresholdAt(93);
    assert Vt(94) == ThresholdAt(94);
    assert Vt(95) == ThresholdAt(95);
    assert Vt(96) == ThresholdAt(96);
    assert Vt(97) == ThresholdAt(97);
    assert Vt(98) == ThresholdAt(98);
    assert Vt(99) == ThresholdAt(99);
    assert Vt(100) == ThresholdAt(100);
    assert Vt(101) == ThresholdAt(101);
    assert Vt(102) == ThresholdAt(102);
    assert Vt(103) == ThresholdAt(103);
  }

  lemma VtEntries8()
    ensures forall k :: 104 <= k < 117 ==> Vt(k) == ThresholdAt(k)
  {
    assert Vt(104) == ThresholdAt(104);
    assert Vt(105) == ThresholdAt(105);
    assert Vt(106) == ThresholdAt(106);
    assert Vt(107) == ThresholdAt(107);
    assert Vt(108) == ThresholdAt(108);
    assert Vt(109) == ThresholdAt(109);
    assert Vt(110) == ThresholdAt(110);
    assert Vt(111) == ThresholdAt(111);
    assert Vt(112) == ThresholdAt(112);
    assert Vt(113) == ThresholdAt(113);
    assert Vt(114) == ThresholdAt(114);
    assert Vt(115) == ThresholdAt(115);
    assert Vt(116) == ThresholdAt(116);
  }

  lemma VtEntries9()
    ensures forall k :: 117 <= k < 130 ==> Vt(k) == ThresholdAt(k)
  {
    assert Vt(117) == ThresholdAt(117);
    assert Vt(118) == ThresholdAt(118);
    assert Vt(119) == ThresholdAt(119);
    assert Vt(120) == ThresholdAt(120);
    assert Vt(121) == ThresholdAt(121);
    assert Vt(122) == ThresholdAt(122);
    assert Vt(123) == ThresholdAt(123);
    assert Vt(124) == ThresholdAt(124);
    assert Vt(125) == ThresholdAt(125);
    assert Vt(126) == ThresholdAt(126);
    assert Vt(127) == ThresholdAt(127);
    assert Vt(128) == ThresholdAt(128);
    assert Vt(129) == ThresholdAt(129);
  }

  lemma VtEntries10()
    ensures forall k :: 130 <= k < 143 ==> Vt(k) == ThresholdAt(k)
  {
    assert Vt(130) == ThresholdAt(130);
    assert Vt(131) == ThresholdAt(131);
    assert Vt(132) == ThresholdAt(132);
    assert Vt(133) == ThresholdAt(133);
    assert Vt(134) == ThresholdAt(134);
    assert Vt(135) == ThresholdAt(135);
    assert Vt(136) == ThresholdAt(136);
    assert Vt(137) == ThresholdAt(137);
    assert Vt(138) == ThresholdAt(138);
    assert Vt(139) == ThresholdAt(139);
    assert Vt(140) == ThresholdAt(140);
    assert Vt(141) == ThresholdAt(141);
    assert Vt(142) == ThresholdAt(142);
  }

  lemma VtEntries11()
    ensures forall k :: 143 <= k < 156 ==> Vt(k) == ThresholdAt(k)
  {
    assert Vt(143) == ThresholdAt(143);
    assert Vt(144) == ThresholdAt(144);
    assert Vt(145) == ThresholdAt(145);
    assert Vt(146) == ThresholdAt(146);
    assert Vt(147) == ThresholdAt(147);
    assert Vt(148) == ThresholdAt(148);
    assert Vt(149) == ThresholdAt(149);
    assert Vt(150) == ThresholdAt(150);
    assert Vt(151) == ThresholdAt(151);
    assert Vt(152) == ThresholdAt(152);
    assert Vt(153) == ThresholdAt(153);
    assert Vt(154) == ThresholdAt(154);
    assert Vt(155) == ThresholdAt(155);
  }

  lemma VtEntries12()
    ensures forall k :: 156 <= k < 169 ==> Vt(k) == ThresholdAt(k)
  {
    assert Vt(156) == ThresholdAt(156);
    assert Vt(157) == ThresholdAt(157);
    assert Vt(158) == ThresholdAt(158);
    assert Vt(159) == ThresholdAt(159);
    assert Vt(160) == ThresholdAt(160);
    assert Vt(161) == ThresholdAt(161);
    assert Vt(162) == ThresholdAt(162);
    assert Vt(163) == ThresholdAt(163);
    assert Vt(164) == ThresholdAt(164);
    assert Vt(165) == ThresholdAt(165);
    assert Vt(166) == ThresholdAt(166);
    assert Vt(167) == ThresholdAt(167);
    assert Vt(168) == ThresholdAt(168);
  }

  lemma VtEntries13()
    ensures forall k :: 169 <= k < 182 ==> Vt(k) == ThresholdAt(k)
  {
    assert Vt(169) == ThresholdAt(169);
    assert Vt(170) == ThresholdAt(170);
    assert Vt(171) == ThresholdAt(171);
    assert Vt(172) == ThresholdAt(172);
    assert Vt(173) == ThresholdAt(173);
    assert Vt(174) == ThresholdAt(174);
    assert Vt(175) == ThresholdAt(175);
    assert Vt(176) == ThresholdAt(176);
    assert Vt(177) == ThresholdAt(177);
    assert Vt(178) == ThresholdAt(178);
    assert Vt(179) == ThresholdAt(179);
    assert Vt(180) == ThresholdAt(180);
    assert Vt(181) == ThresholdAt(181);
  }

  lemma VtEntries14()
    ensures forall k :: 182 <= k < 195 ==> Vt(k) == ThresholdAt(k)
  {
    assert Vt(182) == ThresholdAt(182);
    assert Vt(183) == ThresholdAt(183);
    assert Vt(184) == ThresholdAt(184);
    assert Vt(185) == ThresholdAt(185);
    assert Vt(186) == ThresholdAt(186);
    assert Vt(187) == ThresholdAt(187);
    assert Vt(188) == ThresholdAt(188);
    assert Vt(189) == ThresholdAt(189);
    assert Vt(190) == ThresholdAt(190);
    assert Vt(191) == ThresholdAt(191);
    assert Vt(192) == ThresholdAt(192);
    assert Vt(193) == ThresholdAt(193);
    assert Vt(194) == ThresholdAt(194);
  }

  lemma VtEntries15()
    ensures forall k :: 195 <= k < 208 ==> Vt(k) == ThresholdAt(k)
  {
    assert Vt(195) == ThresholdAt(195);
    assert Vt(196) == ThresholdAt(196);
    assert Vt(197) == ThresholdAt(197);
    assert Vt(198) == ThresholdAt(198);
    assert Vt(199) == ThresholdAt(199);
    assert Vt(200) == ThresholdAt(200);
    assert Vt(201) == ThresholdAt(201);
    assert Vt(202) == ThresholdAt(202);
    assert Vt(203) == ThresholdAt(203);
    assert Vt(204) == ThresholdAt(204);
    assert Vt(205) == ThresholdAt(205);
    assert Vt(206) == ThresholdAt(206);
    assert Vt(207) == ThresholdAt(207);
  }

  lemma VtEntries16()
    ensures forall k :: 208 <= k < 221 ==> Vt(k) == ThresholdAt(k)
  {
    assert Vt(208) == ThresholdAt(208);
    assert Vt(209) == ThresholdAt(209);
    assert Vt(210) == ThresholdAt(210);
    assert Vt(211) == ThresholdAt(211);
    assert Vt(212) == ThresholdAt(212);
    assert Vt(213) == ThresholdAt(213);
    assert Vt(214) == ThresholdAt(214);
    assert Vt(215) == ThresholdAt(215);
    assert Vt(216) == ThresholdAt(216);
    assert Vt(217) == ThresholdAt(217);
    assert Vt(218) == ThresholdAt(218);
    assert Vt(219) == ThresholdAt(219);
    assert Vt(220) == ThresholdAt(220);
  }

  lemma VtEntries17()
    ensures forall k :: 221 <= k < 234 ==> Vt(k) == ThresholdAt(k)
  {
    assert Vt(221) == ThresholdAt(221);
    assert Vt(222) == ThresholdAt(222);
    assert Vt(223) == ThresholdAt(223);
    assert Vt(224) == ThresholdAt(224);
    assert Vt(225) == ThresholdAt(225);
    assert Vt(226) == ThresholdAt(226);
    assert Vt(227) == ThresholdAt(227);
    assert Vt(228) == ThresholdAt(228);
    assert Vt(229) == ThresholdAt(229);
    assert Vt(230) == ThresholdAt(230);
    assert Vt(231) == ThresholdAt(231);
    assert Vt(232) == ThresholdAt(232);
    assert Vt(233) == ThresholdAt(233);
  }

  lemma VtEntries18()
    ensures forall k :: 234 <= k < 247 ==> Vt(k) == ThresholdAt(k)
  {
    assert Vt(234) == ThresholdAt(234);
    assert Vt(235) == ThresholdAt(235);
    assert Vt(236) == ThresholdAt(236);
    assert Vt(237) == ThresholdAt(237);
    assert Vt(238) == ThresholdAt(238);
    assert Vt(239) == ThresholdAt(239);
    assert Vt(240) == ThresholdAt(240);
    assert Vt(241) == ThresholdAt(241);
    assert Vt(242) == ThresholdAt(242);
    assert Vt(243) == ThresholdAt(243);
    assert Vt(244) == ThresholdAt(244);
    assert Vt(245) == ThresholdAt(245);
    assert Vt(246) == ThresholdAt(246);
  }

  lemma VtEntries19()
    ensures forall k :: 247 <= k < 260 ==> Vt(k) == ThresholdAt(k)
  {
    assert Vt(247) == ThresholdAt(247);
    assert Vt(248) == ThresholdAt(248);
    assert Vt(249) == ThresholdAt(249);
    assert Vt(250) == ThresholdAt(250);
    assert Vt(251) == ThresholdAt(251);
    assert Vt(252) == ThresholdAt(252);
    assert Vt(253) == ThresholdAt(253);
    assert Vt(254) == ThresholdAt(254);
    assert Vt(255) == ThresholdAt(255);
    assert Vt(256) == ThresholdAt(256);
    assert Vt(257) == ThresholdAt(257);
    assert Vt(258) == ThresholdAt(258);
    assert Vt(259) == ThresholdAt(259);
  }

  lemma VtEntries20()
    ensures forall k :: 260 <= k < 273 ==> Vt(k) == ThresholdAt(k)
  {
    assert Vt(260) == ThresholdAt(260);
    assert Vt(261) == ThresholdAt(261);
    assert Vt(262) == ThresholdAt(262);
    assert Vt(263) == ThresholdAt(263);
    assert Vt(264) == ThresholdAt(264);
    assert Vt(265) == ThresholdAt(265);
    assert Vt(266) == ThresholdAt(266);
    assert Vt(267) == ThresholdAt(267);
    assert Vt(268) == ThresholdAt(268);
    assert Vt(269) == ThresholdAt(269);
    assert Vt(270) == ThresholdAt(270);
    assert Vt(271) == ThresholdAt(271);
    assert Vt(272) == ThresholdAt(272);
  }

  lemma VtEntries21()
    ensures forall k :: 273 <= k < 286 ==> Vt(k) == ThresholdAt(k)
  {
    assert Vt(273) == ThresholdAt(273);
    assert Vt(274) == ThresholdAt(274);
    assert Vt(275) == ThresholdAt(275);
    assert Vt(276) == ThresholdAt(276);
    assert Vt(277) == ThresholdAt(277);
    assert Vt(278) == ThresholdAt(278);
    assert Vt(279) == ThresholdAt(279);
    assert Vt(280) == ThresholdAt(280);
    assert Vt(281) == ThresholdAt(281);
    assert Vt(282) == ThresholdAt(282);
    assert Vt(283) == ThresholdAt(283);
    assert Vt(284) == ThresholdAt(284);
    assert Vt(285) == ThresholdAt(285);
  }

  lemma VtEntries22()
    ensures forall k :: 286 <= k < 299 ==> Vt(k) == ThresholdAt(k)
  {
    assert Vt(286) == ThresholdAt(286);
    assert Vt(287) == ThresholdAt(287);
    assert Vt(288) == ThresholdAt(288);
    assert Vt(289) == ThresholdAt(289);
    assert Vt(290) == ThresholdAt(290);
    assert Vt(291) == ThresholdAt(291);
    assert Vt(292) == ThresholdAt(292);
    assert Vt(293) == ThresholdAt(293);
    assert Vt(294) == ThresholdAt(294);
    assert Vt(295) == ThresholdAt(295);
    assert Vt(296) == ThresholdAt(296);
    assert Vt(297) == ThresholdAt(297);
    assert Vt(298) == ThresholdAt(298);
  }

  lemma VtEntries23()
    ensures forall k :: 299 <= k < 312 ==> Vt(k) == ThresholdAt(k)
  {
    assert Vt(299) == ThresholdAt(299);
    assert Vt(300) == ThresholdAt(300);
    assert Vt(301) == ThresholdAt(301);
    assert Vt(302) == ThresholdAt(302);
    assert Vt(303) == ThresholdAt(303);
    assert Vt(304) == ThresholdAt(304);
    assert Vt(305) == ThresholdAt(305);
    assert Vt(306) == ThresholdAt(306);
    assert Vt(307) == ThresholdAt(307);
    assert Vt(308) == ThresholdAt(308);
    assert Vt(309) == ThresholdAt(309);
    assert Vt(310) == ThresholdAt(310);
    assert Vt(311) == ThresholdAt(311);
  }

  lemma VtEntries24()
    ensures forall k :: 312 <= k < 325 ==> Vt(k) == ThresholdAt(k)
  {
    assert Vt(312) == ThresholdAt(312);
    assert Vt(313) == ThresholdAt(313);
    assert Vt(314) == ThresholdAt(314);
    assert Vt(315) == ThresholdAt(315);
    assert Vt(316) == ThresholdAt(316);
    assert Vt(317) == ThresholdAt(317);
    assert Vt(318) == ThresholdAt(318);
    assert Vt(319) == ThresholdAt(319);
    assert Vt(320) == ThresholdAt(320);
    assert Vt(321) == ThresholdAt(321);
    assert Vt(322) == ThresholdAt(322);
    assert Vt(323) == ThresholdAt(323);
    assert Vt(324) == ThresholdAt(324);
  }

  lemma VtEntries25()
    ensures forall k :: 325 <= k < 338 ==> Vt(k) == ThresholdAt(k)
  {
    assert Vt(325) == ThresholdAt(325);
    assert Vt(326) == ThresholdAt(326);
    assert Vt(327) == ThresholdAt(327);
    assert Vt(328) == ThresholdAt(328);
    assert Vt(329) == ThresholdAt(329);
    assert Vt(330) == ThresholdAt(330);
    assert Vt(331) == ThresholdAt(331);
    assert Vt(332) == ThresholdAt(332);
    assert Vt(333) == ThresholdAt(333);
    assert Vt(334) == ThresholdAt(334);
    assert Vt(335) == ThresholdAt(335);
    assert Vt(336) == ThresholdAt(336);
    assert Vt(337) == ThresholdAt(337);
  }

  lemma VtEntries26()
    ensures forall k :: 338 <= k < 351 ==> Vt(k) == ThresholdAt(k)
  {
    assert Vt(338) == ThresholdAt(338);
    assert Vt(339) == ThresholdAt(339);
    assert Vt(340) == ThresholdAt(340);
    assert Vt(341) == ThresholdAt(341);
    assert Vt(342) == ThresholdAt(342);
    assert Vt(343) == ThresholdAt(343);
    assert Vt(344) == ThresholdAt(344);
    assert Vt(345) == ThresholdAt(345);
    assert Vt(346) == ThresholdAt(346);
    assert Vt(347) == ThresholdAt(347);
    assert Vt(348) == ThresholdAt(348);
    assert Vt(349) == ThresholdAt(349);
    assert Vt(350) == ThresholdAt(350);
  }

  lemma VtEntries27()
    ensures forall k :: 351 <= k < 364 ==> Vt(k) == ThresholdAt(k)
  {
    assert Vt(351) == ThresholdAt(351);
    assert Vt(352) == ThresholdAt(352);
    assert Vt(353) == ThresholdAt(353);
    assert Vt(354) == ThresholdAt(354);
    assert Vt(355) == ThresholdAt(355);
    assert Vt(356) == ThresholdAt(356);
    assert Vt(357) == ThresholdAt(357);
    assert Vt(358) == ThresholdAt(358);
    assert Vt(359) == ThresholdAt(359);
    assert Vt(360) == ThresholdAt(360);
    assert Vt(361) == ThresholdAt(361);
    assert Vt(362) == ThresholdAt(362);
    assert Vt(363) == ThresholdAt(363);
  }

  lemma VtEntries28()
    ensures forall k :: 364 <= k < 377 ==> Vt(k) == ThresholdAt(k)
  {
    assert Vt(364) == ThresholdAt(364);
    assert Vt(365) == ThresholdAt(365);
    assert Vt(366) == ThresholdAt(366);
    assert Vt(367) == ThresholdAt(367);
    assert Vt(368) == ThresholdAt(368);
    assert Vt(369) == ThresholdAt(369);
    assert Vt(370) == ThresholdAt(370);
    assert Vt(371) == ThresholdAt(371);
    assert Vt(372) == ThresholdAt(372);
    assert Vt(373) == ThresholdAt(373);
    assert Vt(374) == ThresholdAt(374);
    assert Vt(375) == ThresholdAt(375);
    assert Vt(376) == ThresholdAt(376);
  }

  lemma VtEntries29()
    ensures forall k :: 377 <= k < 390 ==> Vt(k) == ThresholdAt(k)
  {
    assert Vt(377) == ThresholdAt(377);
    assert Vt(378) == ThresholdAt(378);
    assert Vt(379) == ThresholdAt(379);
    assert Vt(380) == ThresholdAt(380);
    assert Vt(381) == ThresholdAt(381);
    assert Vt(382) == ThresholdAt(382);
    assert Vt(383) == ThresholdAt(383);
    assert Vt(384) == ThresholdAt(384);
    assert Vt(385) == ThresholdAt(385);
    assert Vt(386) == ThresholdAt(386);
    assert Vt(387) == ThresholdAt(387);
    assert Vt(388) == ThresholdAt(388);
    assert Vt(389) == ThresholdAt(389);
  }

  lemma VtEntries30()
    ensures forall k :: 390 <= k < 403 ==> Vt(k) == ThresholdAt(k)
  {
    assert Vt(390) == ThresholdAt(390);
    assert Vt(391) == ThresholdAt(391);
    assert Vt(392) == ThresholdAt(392);
    assert Vt(393) == ThresholdAt(393);
    assert Vt(394) == ThresholdAt(394);
    assert Vt(395) == ThresholdAt(395);
    assert Vt(396) == ThresholdAt(396);
    assert Vt(397) == ThresholdAt(397);
    assert Vt(398) == ThresholdAt(398);
    assert Vt(399) == ThresholdAt(399);
    assert Vt(400) == ThresholdAt(400);
    assert Vt(401) == ThresholdAt(401);
    assert Vt(402) == ThresholdAt(402);
  }

  lemma VtEntries31()
    ensures forall k :: 403 <= k < 416 ==> Vt(k) == ThresholdAt(k)
  {
    assert Vt(403) == ThresholdAt(403);
    assert Vt(404) == ThresholdAt(404);
    assert Vt(405) == ThresholdAt(405);
    assert Vt(406) == ThresholdAt(406);
    assert Vt(407) == ThresholdAt(407);
    assert Vt(408) == ThresholdAt(408);
    assert Vt(409) == ThresholdAt(409);
    assert Vt(410) == ThresholdAt(410);
    assert Vt(411) == ThresholdAt(411);
    assert Vt(412) == ThresholdAt(412);
    assert Vt(413) == ThresholdAt(413);
    assert Vt(414) == ThresholdAt(414);
    assert Vt(415) == ThresholdAt(415);
  }

  lemma VtEntries32()
    ensures forall k :: 416 <= k < 429 ==> Vt(k) == ThresholdAt(k)
  {
    assert Vt(416) == ThresholdAt(416);
    assert Vt(417) == ThresholdAt(417);
    assert Vt(418) == ThresholdAt(418);
    assert Vt(419) == ThresholdAt(419);
    assert Vt(420) == ThresholdAt(420);
    assert Vt(421) == ThresholdAt(421);
    assert Vt(422) == ThresholdAt(422);
    assert Vt(423) == ThresholdAt(423);
    assert Vt(424) == ThresholdAt(424);
    assert Vt(425) == ThresholdAt(425);
    assert Vt(426) == ThresholdAt(426);
    assert Vt(427) == ThresholdAt(427);
    assert Vt(428) == ThresholdAt(428);
  }

  lemma VtEntries33()
    ensures forall k :: 429 <= k < 442 ==> Vt(k) == ThresholdAt(k)
  {
    assert Vt(429) == ThresholdAt(429);
    assert Vt(430) == ThresholdAt(430);
    assert Vt(431) == ThresholdAt(431);
    assert Vt(432) == ThresholdAt(432);
    assert Vt(433) == ThresholdAt(433);
    assert Vt(434) == ThresholdAt(434);
    assert Vt(435) == ThresholdAt(435);
    assert Vt(436) == ThresholdAt(436);
    assert Vt(437) == ThresholdAt(437);
    assert Vt(438) == ThresholdAt(438);
    assert Vt(439) == ThresholdAt(439);
    assert Vt(440) == ThresholdAt(440);
    assert Vt(441) == ThresholdAt(441);
  }

  lemma VtEntries34()
    ensures forall k :: 442 <= k < 455 ==> Vt(k) == ThresholdAt(k)
  {
    assert Vt(442) == ThresholdAt(442);
    assert Vt(443) == ThresholdAt(443);
    assert Vt(444) == ThresholdAt(444);
    assert Vt(445) == ThresholdAt(445);
    assert Vt(446) == ThresholdAt(446);
    assert Vt(447) == ThresholdAt(447);
    assert Vt(448) == ThresholdAt(448);
    assert Vt(449) == ThresholdAt(449);
    assert Vt(450) == ThresholdAt(450);
    assert Vt(451) == ThresholdAt(451);
    assert Vt(452) == ThresholdAt(452);
    assert Vt(453) == ThresholdAt(453);
    assert Vt(454) == ThresholdAt(454);
  }

  lemma VtEntries35()
    ensures forall k :: 455 <= k < 468 ==> Vt(k) == ThresholdAt(k)
  {
    assert Vt(455) == ThresholdAt(455);
    assert Vt(456) == ThresholdAt(456);
    assert Vt(457) == ThresholdAt(457);
    assert Vt(458) == ThresholdAt(458);
    assert Vt(459) == ThresholdAt(459);
    assert Vt(460) == ThresholdAt(460);
    assert Vt(461) == ThresholdAt(461);
    assert Vt(462) == ThresholdAt(462);
    assert Vt(463) == ThresholdAt(463);
    assert Vt(464) == ThresholdAt(464);
    assert Vt(465) == ThresholdAt(465);
    assert Vt(466) == ThresholdAt(466);
    assert Vt(467) == ThresholdAt(467);
  }

  lemma VtEntries36()
    ensures forall k :: 468 <= k < 481 ==> Vt(k) == ThresholdAt(k)
  {
    assert Vt(468) == ThresholdAt(468);
    assert Vt(469) == ThresholdAt(469);
    assert Vt(470) == ThresholdAt(470);
    assert Vt(471) == ThresholdAt(471);
    assert Vt(472) == ThresholdAt(472);
    assert Vt(473) == ThresholdAt(473);
    assert Vt(474) == ThresholdAt(474);
    assert Vt(475) == ThresholdAt(475);
    assert Vt(476) == ThresholdAt(476);
    assert Vt(477) == ThresholdAt(477);
    assert Vt(478) == ThresholdAt(478);
    assert Vt(479) == ThresholdAt(479);
    assert Vt(480) == ThresholdAt(480);
  }

  lemma VtEntries37()
    ensures forall k :: 481 <= k < 494 ==> Vt(k) == ThresholdAt(k)
  {
    assert Vt(481) == ThresholdAt(481);
    assert Vt(482) == ThresholdAt(482);
    assert Vt(483) == ThresholdAt(483);
    assert Vt(484) == ThresholdAt(484);
    assert Vt(485) == ThresholdAt(485);
    assert Vt(486) == ThresholdAt(486);
    assert Vt(487) == ThresholdAt(487);
    assert Vt(488) == ThresholdAt(488);
    assert Vt(489) == ThresholdAt(489);
    assert Vt(490) == ThresholdAt(490);
    assert Vt(491) == ThresholdAt(491);
    assert Vt(492) == ThresholdAt(492);
    assert Vt(493) == ThresholdAt(493);
  }

  lemma VtEntries38()
    ensures forall k :: 494 <= k < 507 ==> Vt(k) == ThresholdAt(k)
  {
    assert Vt(494) == ThresholdAt(494);
    assert Vt(495) == ThresholdAt(495);
    assert Vt(496) == ThresholdAt(496);
    assert Vt(497) == ThresholdAt(497);
    assert Vt(498) == ThresholdAt(498);
    assert Vt(499) == ThresholdAt(499);
    assert Vt(500) == ThresholdAt(500);
    assert Vt(501) == ThresholdAt(501);
    assert Vt(502) == ThresholdAt(502);
    assert Vt(503) == ThresholdAt(503);
    assert Vt(504) == ThresholdAt(504);
    assert Vt(505) == ThresholdAt(505);
    assert Vt(506) == ThresholdAt(506);
  }

  lemma VtEntries39()
    ensures forall k :: 507 <= k < 520 ==> Vt(k) == ThresholdAt(k)
  {
    assert Vt(507) == ThresholdAt(507);
    assert Vt(508) == ThresholdAt(508);
    assert Vt(509) == ThresholdAt(509);
    assert Vt(510) == ThresholdAt(510);
    assert Vt(511) == ThresholdAt(511);
    assert Vt(512) == ThresholdAt(512);
    assert Vt(513) == ThresholdAt(513);
    assert Vt(514) == ThresholdAt(514);
    assert Vt(515) == ThresholdAt(515);
    assert Vt(516) == ThresholdAt(516);
    assert Vt(517) == ThresholdAt(517);
    assert Vt(518) == ThresholdAt(518);
    assert Vt(519) == ThresholdAt(519);
  }

  lemma VtEntries40()
    ensures forall k :: 520 <= k < 533 ==> Vt(k) == ThresholdAt(k)
  {
    assert Vt(520) == ThresholdAt(520);
    assert Vt(521) == ThresholdAt(521);
    assert Vt(522) == ThresholdAt(522);
    assert Vt(523) == ThresholdAt(523);
    assert Vt(524) == ThresholdAt(524);
    assert Vt(525) == ThresholdAt(525);
    assert Vt(526) == ThresholdAt(526);
    assert Vt(527) == ThresholdAt(527);
    assert Vt(528) == ThresholdAt(528);
    assert Vt(529) == ThresholdAt(529);
    assert Vt(530) == ThresholdAt(530);
    assert Vt(531) == ThresholdAt(531);
    assert Vt(532) == ThresholdAt(532);
  }

  lemma VtEntries41()
    ensures forall k :: 533 <= k < 546 ==> Vt(k) == ThresholdAt(k)
  {
    assert Vt(533) == ThresholdAt(533);
    assert Vt(534) == ThresholdAt(534);
    assert Vt(535) == ThresholdAt(535);
    assert Vt(536) == ThresholdAt(536);
    assert Vt(537) == ThresholdAt(537);
    assert Vt(538) == ThresholdAt(538);
    assert Vt(539) == ThresholdAt(539);
    assert Vt(540) == ThresholdAt(540);
    assert Vt(541) == ThresholdAt(541);
    assert Vt(542) == ThresholdAt(542);
    assert Vt(543) == ThresholdAt(543);
    assert Vt(544) == ThresholdAt(544);
    assert Vt(545) == ThresholdAt(545);
  }

  lemma VtEntries42()
    ensures forall k :: 546 <= k < 559 ==> Vt(k) == ThresholdAt(k)
  {
    assert Vt(546) == ThresholdAt(546);
    assert Vt(547) == ThresholdAt(547);
    assert Vt(548) == ThresholdAt(548);
    assert Vt(549) == ThresholdAt(549);
    assert Vt(550) == ThresholdAt(550);
    assert Vt(551) == ThresholdAt(551);
    assert Vt(552) == ThresholdAt(552);
    assert Vt(553) == ThresholdAt(553);
    assert Vt(554) == ThresholdAt(554);
    assert Vt(555) == ThresholdAt(555);
    assert Vt(556) == ThresholdAt(556);
    assert Vt(557) == ThresholdAt(557);
    assert Vt(558) == ThresholdAt(558);
  }

  lemma VtEntries43()
    ensures forall k :: 559 <= k < 572 ==> Vt(k) == ThresholdAt(k)
  {
    assert Vt(559) == ThresholdAt(559);
    assert Vt(560) == ThresholdAt(560);
    assert Vt(561) == ThresholdAt(561);
    assert Vt(562) == ThresholdAt(562);
    assert Vt(563) == ThresholdAt(563);
    assert Vt(564) == ThresholdAt(564);
    assert Vt(565) == ThresholdAt(565);
    assert Vt(566) == ThresholdAt(566);
    assert Vt(567) == ThresholdAt(567);
    assert Vt(568) == ThresholdAt(568);
    assert Vt(569) == ThresholdAt(569);
    assert Vt(570) == ThresholdAt(570);
    assert Vt(571) == ThresholdAt(571);
  }

  lemma VtEntries44()
    ensures forall k :: 572 <= k < 585 ==> Vt(k) == ThresholdAt(k)
  {
    assert Vt(572) == ThresholdAt(572);
    assert Vt(573) == ThresholdAt(573);
    assert Vt(574) == ThresholdAt(574);
    assert Vt(575) == ThresholdAt(575);
    assert Vt(576) == ThresholdAt(576);
    assert Vt(577) == ThresholdAt(577);
    assert Vt(578) == ThresholdAt(578);
    assert Vt(579) == ThresholdAt(579);
    assert Vt(580) == ThresholdAt(580);
    assert Vt(581) == ThresholdAt(581);
    assert Vt(582) == ThresholdAt(582);
    assert Vt(583) == ThresholdAt(583);
    assert Vt(584) == ThresholdAt(584);
  }

  lemma VtEntries45()
    ensures forall k :: 585 <= k < 598 ==> Vt(k) == ThresholdAt(k)
  {
    assert Vt(585) == ThresholdAt(585);
    assert Vt(586) == ThresholdAt(586);
    assert Vt(587) == ThresholdAt(587);
    assert Vt(588) == ThresholdAt(588);
    assert Vt(589) == ThresholdAt(589);
    assert Vt(590) == ThresholdAt(590);
    assert Vt(591) == ThresholdAt(591);
    assert Vt(592) == ThresholdAt(592);
    assert Vt(593) == ThresholdAt(593);
    assert Vt(594) == ThresholdAt(594);
    assert Vt(595) == ThresholdAt(595);
    assert Vt(596) == ThresholdAt(596);
    assert Vt(597) == ThresholdAt(597);
  }

  lemma VtEntries46()
    ensures forall k :: 598 <= k < 611 ==> Vt(k) == ThresholdAt(k)
  {
    assert Vt(598) == ThresholdAt(598);
    assert Vt(599) == ThresholdAt(599);
    assert Vt(600) == ThresholdAt(600);
    assert Vt(601) == ThresholdAt(601);
    assert Vt(602) == ThresholdAt(602);
    assert Vt(603) == ThresholdAt(603);
    assert Vt(604) == ThresholdAt(604);
    assert Vt(605) == ThresholdAt(605);
    assert Vt(606) == ThresholdAt(606);
    assert Vt(607) == ThresholdAt(607);
    assert Vt(608) == ThresholdAt(608);
    assert Vt(609) == ThresholdAt(609);
    assert Vt(610) == ThresholdAt(610);
  }

  lemma VtEntries47()
    ensures forall k :: 611 <= k < 624 ==> Vt(k) == ThresholdAt(k)
  {
    assert Vt(611) == ThresholdAt(611);
    assert Vt(612) == ThresholdAt(612);
    assert Vt(613) == ThresholdAt(613);
    assert Vt(614) == ThresholdAt(614);
    assert Vt(615) == ThresholdAt(615);
    assert Vt(616) == ThresholdAt(616);
    assert Vt(617) == ThresholdAt(617);
    assert Vt(618) == ThresholdAt(618);
    assert Vt(619) == ThresholdAt(619);
    assert Vt(620) == ThresholdAt(620);
    assert Vt(621) == ThresholdAt(621);
    assert Vt(622) == ThresholdAt(622);
    assert Vt(623) == ThresholdAt(623);
  }

  lemma VtEntries48()
    ensures forall k :: 624 <= k < 637 ==> Vt(k) == ThresholdAt(k)
  {
    assert Vt(624) == ThresholdAt(624);
    assert Vt(625) == ThresholdAt(625);
    assert Vt(626) == ThresholdAt(626);
    assert Vt(627) == ThresholdAt(627);
    assert Vt(628) == ThresholdAt(628);
    assert Vt(629) == ThresholdAt(629);
    assert Vt(630) == ThresholdAt(630);
    assert Vt(631) == ThresholdAt(631);
    assert Vt(632) == ThresholdAt(632);
    assert Vt(633) == ThresholdAt(633);
    assert Vt(634) == ThresholdAt(634);
    assert Vt(635) == ThresholdAt(635);
    assert Vt(636) == ThresholdAt(636);
  }

  lemma VtEntries49()
    ensures forall k :: 637 <= k < 650 ==> Vt(k) == ThresholdAt(k)
  {
    assert Vt(637) == ThresholdAt(637);
    assert Vt(638) == ThresholdAt(638);
    assert Vt(639) == ThresholdAt(639);
    assert Vt(640) == ThresholdAt(640);
    assert Vt(641) == ThresholdAt(641);
    assert Vt(642) == ThresholdAt(642);
    assert Vt(643) == ThresholdAt(643);
    assert Vt(644) == ThresholdAt(644);
    assert Vt(645) == ThresholdAt(645);
    assert Vt(646) == ThresholdAt(646);
    assert Vt(647) == ThresholdAt(647);
    assert Vt(648) == ThresholdAt(648);
    assert Vt(649) == ThresholdAt(649);
  }

  lemma VtEntries50()
    ensures forall k :: 650 <= k < 663 ==> Vt(k) == ThresholdAt(k)
  {
    assert Vt(650) == ThresholdAt(650);
    assert Vt(651) == ThresholdAt(651);
    assert Vt(652) == ThresholdAt(652);
    assert Vt(653) == ThresholdAt(653);
    assert Vt(654) == ThresholdAt(654);
    assert Vt(655) == ThresholdAt(655);
    assert Vt(656) == ThresholdAt(656);
    assert Vt(657) == ThresholdAt(657);
    assert Vt(658) == ThresholdAt(658);
    assert Vt(659) == ThresholdAt(659);
    assert Vt(660) == ThresholdAt(660);
    assert Vt(661) == ThresholdAt(661);
    assert Vt(662) == ThresholdAt(662);
  }

  lemma VtEntries51()
    ensures forall k :: 663 <= k < 676 ==> Vt(k) == ThresholdAt(k)
  {
    assert Vt(663) == ThresholdAt(663);
    assert Vt(664) == ThresholdAt(664);
    assert Vt(665) == ThresholdAt(665);
    assert Vt(666) == ThresholdAt(666);
    assert Vt(667) == ThresholdAt(667);
    assert Vt(668) == ThresholdAt(668);
    assert Vt(669) == ThresholdAt(669);
    assert Vt(670) == ThresholdAt(670);
    assert Vt(671) == ThresholdAt(671);
    assert Vt(672) == ThresholdAt(672);
    assert Vt(673) == ThresholdAt(673);
    assert Vt(674) == ThresholdAt(674);
    assert Vt(675) == ThresholdAt(675);
  }

  lemma VtEntries52()
    ensures forall k :: 676 <= k < 689 ==> Vt(k) == ThresholdAt(k)
  {
    assert Vt(676) == ThresholdAt(676);
    assert Vt(677) == ThresholdAt(677);
    assert Vt(678) == ThresholdAt(678);
    assert Vt(679) == ThresholdAt(679);
    assert Vt(680) == ThresholdAt(680);
    assert Vt(681) == ThresholdAt(681);
    assert Vt(682) == ThresholdAt(682);
    assert Vt(683) == ThresholdAt(683);
    assert Vt(684) == ThresholdAt(684);
    assert Vt(685) == ThresholdAt(685);
    assert Vt(686) == ThresholdAt(686);
    assert Vt(687) == ThresholdAt(687);
    assert Vt(688) == ThresholdAt(688);
  }

  lemma VtEntries53()
    ensures forall k :: 689 <= k < 702 ==> Vt(k) == ThresholdAt(k)
  {
    assert Vt(689) == ThresholdAt(689);
    assert Vt(690) == ThresholdAt(690);
    assert Vt(691) == ThresholdAt(691);
    assert Vt(692) == ThresholdAt(692);
    assert Vt(693) == ThresholdAt(693);
    assert Vt(694) == ThresholdAt(694);
    assert Vt(695) == ThresholdAt(695);
    assert Vt(696) == ThresholdAt(696);
    assert Vt(697) == ThresholdAt(697);
    assert Vt(698) == ThresholdAt(698);
    assert Vt(699) == ThresholdAt(699);
    assert Vt(700) == ThresholdAt(700);
    assert Vt(701) == ThresholdAt(701);
  }

  lemma VtEntries54()
    ensures forall k :: 702 <= k < 715 ==> Vt(k) == ThresholdAt(k)
  {
    assert Vt(702) == ThresholdAt(702);
    assert Vt(703) == ThresholdAt(703);
    assert Vt(704) == ThresholdAt(704);
    assert Vt(705) == ThresholdAt(705);
    assert Vt(706) == ThresholdAt(706);
    assert Vt(707) == ThresholdAt(707);
    assert Vt(708) == ThresholdAt(708);
    assert Vt(709) == ThresholdAt(709);
    assert Vt(710) == ThresholdAt(710);
    assert Vt(711) == ThresholdAt(711);
    assert Vt(712) == ThresholdAt(712);
    assert Vt(713) == ThresholdAt(713);
    assert Vt(714) == ThresholdAt(714);
  }

  lemma VtEntries55()
    ensures forall k :: 715 <= k < 728 ==> Vt(k) == ThresholdAt(k)
  {
    assert Vt(715) == ThresholdAt(715);
    assert Vt(716) == ThresholdAt(716);
    assert Vt(717) == ThresholdAt(717);
    assert Vt(718) == ThresholdAt(718);
    assert Vt(719) == ThresholdAt(719);
    assert Vt(720) == ThresholdAt(720);
    assert Vt(721) == ThresholdAt(721);
    assert Vt(722) == ThresholdAt(722);
    assert Vt(723) == ThresholdAt(723);
    assert Vt(724) == ThresholdAt(724);
    assert Vt(725) == ThresholdAt(725);
    assert Vt(726) == ThresholdAt(726);
    assert Vt(727) == ThresholdAt(727);
  }

  lemma VtEntries56()
    ensures forall k :: 728 <= k < 741 ==> Vt(k) == ThresholdAt(k)
  {
    assert Vt(728) == ThresholdAt(728);
    assert Vt(729) == ThresholdAt(729);
    assert Vt(730) == ThresholdAt(730);
    assert Vt(731) == ThresholdAt(731);
    assert Vt(732) == ThresholdAt(732);
    assert Vt(733) == ThresholdAt(733);
    assert Vt(734) == ThresholdAt(734);
    assert Vt(735) == ThresholdAt(735);
    assert Vt(736) == ThresholdAt(736);
    assert Vt(737) == ThresholdAt(737);
    assert Vt(738) == ThresholdAt(738);
    assert Vt(739) == ThresholdAt(739);
    assert Vt(740) == ThresholdAt(740);
  }

  lemma VtEntries57()
    ensures forall k :: 741 <= k < 754 ==> Vt(k) == ThresholdAt(k)
  {
    assert Vt(741) == ThresholdAt(741);
    assert Vt(742) == ThresholdAt(742);
    assert Vt(743) == ThresholdAt(743);
    assert Vt(744) == ThresholdAt(744);
    assert Vt(745) == ThresholdAt(745);
    assert Vt(746) == ThresholdAt(746);
    assert Vt(747) == ThresholdAt(747);
    assert Vt(748) == ThresholdAt(748);
    assert Vt(749) == ThresholdAt(749);
    assert Vt(750) == ThresholdAt(750);
    assert Vt(751) == ThresholdAt(751);
    assert Vt(752) == ThresholdAt(752);
    assert Vt(753) == ThresholdAt(753);
  }

  lemma VtEntries58()
    ensures forall k :: 754 <= k < 767 ==> Vt(k) == ThresholdAt(k)
  {
    assert Vt(754) == ThresholdAt(754);
    assert Vt(755) == ThresholdAt(755);
    assert Vt(756) == ThresholdAt(756);
    assert Vt(757) == ThresholdAt(757);
    assert Vt(758) == ThresholdAt(758);
    assert Vt(759) == ThresholdAt(759);
    assert Vt(760) == ThresholdAt(760);
    assert Vt(761) == ThresholdAt(761);
    assert Vt(762) == ThresholdAt(762);
    assert Vt(763) == ThresholdAt(763);
    assert Vt(764) == ThresholdAt(764);
    assert Vt(765) == ThresholdAt(765);
    assert Vt(766) == ThresholdAt(766);
  }

  lemma VtEntries59()
    ensures forall k :: 767 <= k < 780 ==> Vt(k) == ThresholdAt(k)
  {
    assert Vt(767) == ThresholdAt(767);
    assert Vt(768) == ThresholdAt(768);
    assert Vt(769) == ThresholdAt(769);
    assert Vt(770) == ThresholdAt(770);
    assert Vt(771) == ThresholdAt(771);
    assert Vt(772) == ThresholdAt(772);
    assert Vt(773) == ThresholdAt(773);
    assert Vt(774) == ThresholdAt(774);
    assert Vt(775) == ThresholdAt(775);
    assert Vt(776) == ThresholdAt(776);
    assert Vt(777) == ThresholdAt(777);
    assert Vt(778) == ThresholdAt(778);
    assert Vt(779) == ThresholdAt(779);
  }

  lemma VtEntries60()
    ensures forall k :: 780 <= k < 793 ==> Vt(k) == ThresholdAt(k)
  {
    assert Vt(780) == ThresholdAt(780);
    assert Vt(781) == ThresholdAt(781);
    assert Vt(782) == ThresholdAt(782);
    assert Vt(783) == ThresholdAt(783);
    assert Vt(784) == ThresholdAt(784);
    assert Vt(785) == ThresholdAt(785);
    assert Vt(786) == ThresholdAt(786);
    assert Vt(787) == ThresholdAt(787);
    assert Vt(788) == ThresholdAt(788);
    assert Vt(789) == ThresholdAt(789);
    assert Vt(790) == ThresholdAt(790);
    assert Vt(791) == ThresholdAt(791);
    assert Vt(792) == ThresholdAt(792);
  }

  lemma VtEntries61()
    ensures forall k :: 793 <= k < 806 ==> Vt(k) == ThresholdAt(k)
  {
    assert Vt(793) == ThresholdAt(793);
    assert Vt(794) == ThresholdAt(794);
    assert Vt(795) == ThresholdAt(795);
    assert Vt(796) == ThresholdAt(796);
    assert Vt(797) == ThresholdAt(797);
    assert Vt(798) == ThresholdAt(798);
    assert Vt(799) == ThresholdAt(799);
    assert Vt(800) == ThresholdAt(800);
    assert Vt(801) == ThresholdAt(801);
    assert Vt(802) == ThresholdAt(802);
    assert Vt(803) == ThresholdAt(803);
    assert Vt(804) == ThresholdAt(804);
    assert Vt(805) == ThresholdAt(805);
  }

  lemma VtEntries62()
    ensures forall k :: 806 <= k < 819 ==> Vt(k) == ThresholdAt(k)
  {
    assert Vt(806) == ThresholdAt(806);
    assert Vt(807) == ThresholdAt(807);
    assert Vt(808) == ThresholdAt(808);
    assert Vt(809) == ThresholdAt(809);
    assert Vt(810) == ThresholdAt(810);
    assert Vt(811) == ThresholdAt(811);
    assert Vt(812) == ThresholdAt(812);
    assert Vt(813) == ThresholdAt(813);
    assert Vt(814) == ThresholdAt(814);
    assert Vt(815) == ThresholdAt(815);
    assert Vt(816) == ThresholdAt(816);
    assert Vt(817) == ThresholdAt(817);
    assert Vt(818) == ThresholdAt(818);
  }

  lemma VtEntries63()
    ensures forall k :: 819 <= k < 832 ==> Vt(k) == ThresholdAt(k)
  {
    assert Vt(819) == ThresholdAt(819);
    assert Vt(820) == ThresholdAt(820);
    assert Vt(821) == ThresholdAt(821);
    assert Vt(822) == ThresholdAt(822);
    assert Vt(823) == ThresholdAt(823);
    assert Vt(824) == ThresholdAt(824);
    assert Vt(825) == ThresholdAt(825);
    assert Vt(826) == ThresholdAt(826);
    assert Vt(827) == ThresholdAt(827);
    assert Vt(828) == ThresholdAt(828);
    assert Vt(829) == ThresholdAt(829);
    assert Vt(830) == ThresholdAt(830);
    assert Vt(831) == ThresholdAt(831);
  }

  /** The table holds the rejection threshold of every position. */
  lemma VtIsThreshold()
    ensures forall k :: 0 <= k < 832 ==> Vt(k) == ThresholdAt(k)
  {
    VtEntries0();
    VtEntries1();
    VtEntries2();
    VtEntries3();
    VtEntries4();
    VtEntries5();
    VtEntries6();
    VtEntries7();
    VtEntries8();
    VtEntries9();
    VtEntries10();
    VtEntries11();
    VtEntries12();
    VtEntries13();
    VtEntries14();
    VtEntries15();
    VtEntries16();
    VtEntries17();
    VtEntries18();
    VtEntries19();
    VtEntries20();
    VtEntries21();
    VtEntries22();
    VtEntries23();
    VtEntries24();
    VtEntries25();
    VtEntries26();
    VtEntries27();
    VtEntries28();
    VtEntries29();
    VtEntries30();
    VtEntries31();
    VtEntries32();
    VtEntries33();
    VtEntries34();
    VtEntries35();
    VtEntries36();
    VtEntries37();
    VtEntries38();
    VtEntries39();
    VtEntries40();
    VtEntries41();
    VtEntries42();
    VtEntries43();
    VtEntries44();
    VtEntries45();
    VtEntries46();
    VtEntries47();
    VtEntries48();
    VtEntries49();
    VtEntries50();
    VtEntries51();
    VtEntries52();
    VtEntries53();
    VtEntries54();
    VtEntries55();
    VtEntries56();
    VtEntries57();
    VtEntries58();
    VtEntries59();
    VtEntries60();
    VtEntries61();
    VtEntries62();
    VtEntries63();
  }
}
