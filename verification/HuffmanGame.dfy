/** The tree that src/engine/shared/huffman.cpp builds from the table of the game, node by node, and the
    compressed message that src/test/huffman.cpp expects of every implementation. */
module HuffmanGame {
  import opened Arith
  import opened Utf8
  import opened Sequences
  import opened Huffman
  import opened HuffmanTable
  import opened HuffmanDepth
  import opened HuffmanOrder
  import opened HuffmanCodec
  import opened NetBase

  // ---- the nodes above the symbols ----

  const NODES0: seq<(nat, nat)> :=
    [(256, 119), (257, 248), (108, 126), (118, 240), (122, 99), (241, 127), (103, 102), (94, 228)]
  const NODES1: seq<(nat, nat)> :=
    [(90, 258), (231, 220), (107, 106), (96, 95), (112, 92), (62, 252), (124, 117), (111, 98)]
  const NODES2: seq<(nat, nat)> :=
    [(259, 250), (233, 226), (218, 123), (120, 110), (105, 104), (249, 247), (236, 60), (54, 260)]
  const NODES3: seq<(nat, nat)> :=
    [(245, 238), (229, 212), (203, 121), (116, 58), (261, 253), (239, 235), (232, 225), (222, 221)]
  const NODES4: seq<(nat, nat)> :=
    [(215, 125), (113, 57), (56, 234), (227, 115), (109, 93), (59, 263), (262, 251), (246, 224)]
  const NODES5: seq<(nat, nat)> :=
    [(202, 196), (101, 100), (97, 53), (264, 219), (209, 205), (199, 194), (63, 244), (243, 208)]
  const NODES6: seq<(nat, nat)> :=
    [(207, 193), (55, 265), (214, 204), (268, 267), (266, 254), (91, 242), (211, 269), (237, 217)]
  const NODES7: seq<(nat, nat)> :=
    [(197, 192), (270, 223), (213, 210), (201, 272), (271, 195), (277, 276), (275, 274), (273, 206)]
  const NODES8: seq<(nat, nat)> :=
    [(198, 279), (278, 200), (280, 230), (284, 283), (282, 281), (114, 290), (289, 288), (287, 286)]
  const NODES9: seq<(nat, nat)> :=
    [(285, 291), (61, 293), (292, 294), (216, 299), (298, 297), (296, 295), (52, 302), (301, 300)]
  const NODES10: seq<(nat, nat)> :=
    [(303, 89), (305, 304), (306, 307), (87, 309), (308, 310), (86, 311), (155, 313), (312, 78)]
  const NODES11: seq<(nat, nat)> :=
    [(181, 151), (315, 314), (316, 317), (185, 183), (80, 320), (319, 318), (179, 135), (133, 187)]
  const NODES12: seq<(nat, nat)> :=
    [(82, 321), (137, 157), (322, 323), (175, 81), (145, 141), (325, 324), (131, 79), (77, 173)]
  const NODES13: seq<(nat, nat)> :=
    [(147, 88), (71, 326), (139, 84), (328, 327), (329, 171), (330, 331), (167, 76), (143, 67)]
  const NODES14: seq<(nat, nat)> :=
    [(332, 334), (333, 159), (70, 335), (72, 336), (337, 338), (69, 153), (149, 339), (74, 191)]
  const NODES15: seq<(nat, nat)> :=
    [(340, 161), (68, 341), (66, 51), (342, 343), (344, 345), (346, 35), (47, 169), (347, 45)]
  const NODES16: seq<(nat, nat)> :=
    [(189, 46), (31, 348), (349, 351), (350, 48), (352, 163), (353, 354), (49, 162), (50, 355)]
  const NODES17: seq<(nat, nat)> :=
    [(21, 356), (357, 129), (43, 359), (358, 180), (27, 360), (36, 361), (362, 178), (363, 184)]
  const NODES18: seq<(nat, nat)> :=
    [(177, 364), (174, 365), (22, 152), (140, 44), (366, 190), (165, 367), (33, 368), (146, 130)]
  const NODES19: seq<(nat, nat)> :=
    [(85, 32), (186, 369), (370, 158), (371, 25), (188, 65), (23, 372), (160, 142), (26, 42)]
  const NODES20: seq<(nat, nat)> :=
    [(134, 373), (172, 156), (150, 138), (39, 374), (28, 182), (37, 375), (154, 376), (19, 75)]
  const NODES21: seq<(nat, nat)> :=
    [(377, 132), (170, 378), (136, 379), (168, 38), (380, 34), (381, 144), (17, 382), (166, 383)]
  const NODES22: seq<(nat, nat)> :=
    [(384, 164), (385, 386), (387, 388), (15, 389), (390, 391), (392, 393), (394, 395), (396, 397)]
  const NODES23: seq<(nat, nat)> :=
    [(398, 176), (399, 20), (400, 73), (401, 402), (403, 404), (405, 14), (406, 407), (408, 409)]
  const NODES24: seq<(nat, nat)> :=
    [(410, 411), (412, 413), (414, 415), (416, 255), (417, 418), (419, 420), (421, 422), (64, 30)]
  const NODES25: seq<(nat, nat)> :=
    [(423, 424), (425, 426), (427, 428), (41, 429), (430, 431), (3, 432), (6, 433), (434, 435)]
  const NODES26: seq<(nat, nat)> :=
    [(7, 436), (437, 438), (439, 11), (24, 440), (441, 442), (443, 444), (445, 446), (447, 9)]
  const NODES27: seq<(nat, nat)> :=
    [(448, 83), (449, 18), (450, 451), (452, 453), (454, 12), (455, 456), (457, 16), (458, 459)]
  const NODES28: seq<(nat, nat)> :=
    [(460, 10), (461, 29), (462, 40), (463, 5), (464, 465), (466, 467), (468, 469), (470, 471)]
  const NODES29: seq<(nat, nat)> :=
    [(472, 473), (474, 475), (476, 477), (478, 479), (480, 481), (148, 482), (483, 484), (13, 485)]
  const NODES30: seq<(nat, nat)> :=
    [(4, 486), (128, 487), (8, 488), (489, 490), (2, 491), (492, 493), (494, 495), (496, 497)]
  const NODES31: seq<(nat, nat)> :=
    [(498, 1), (499, 500), (501, 502), (503, 504), (505, 506), (507, 508), (509, 510), (511, 0)]

  /** The zero child and the one child of node 257 and those after it. */
  function Node(id: nat): (nat, nat)
    requires 257 <= id < 513
  {
    if id < 265 then NODES0[id - 257]
    else if id < 273 then NODES1[id - 265]
    else if id < 281 then NODES2[id - 273]
    else if id < 289 then NODES3[id - 281]
    else if id < 297 then NODES4[id - 289]
    else if id < 305 then NODES5[id - 297]
    else if id < 313 then NODES6[id - 305]
    else if id < 321 then NODES7[id - 313]
    else if id < 329 then NODES8[id - 321]
    else if id < 337 then NODES9[id - 329]
    else if id < 345 then NODES10[id - 337]
    else if id < 353 then NODES11[id - 345]
    else if id < 361 then NODES12[id - 353]
    else if id < 369 then NODES13[id - 361]
    else if id < 377 then NODES14[id - 369]
    else if id < 385 then NODES15[id - 377]
    else if id < 393 then NODES16[id - 385]
    else if id < 401 then NODES17[id - 393]
    else if id < 409 then NODES18[id - 401]
    else if id < 417 then NODES19[id - 409]
    else if id < 425 then NODES20[id - 417]
    else if id < 433 then NODES21[id - 425]
    else if id < 441 then NODES22[id - 433]
    else if id < 449 then NODES23[id - 441]
    else if id < 457 then NODES24[id - 449]
    else if id < 465 then NODES25[id - 457]
    else if id < 473 then NODES26[id - 465]
    else if id < 481 then NODES27[id - 473]
    else if id < 489 then NODES28[id - 481]
    else if id < 497 then NODES29[id - 489]
    else if id < 505 then NODES30[id - 497]
    else NODES31[id - 505]
  }

  const WEIGHTS0: seq<nat> :=
    [6, 12, 15, 17, 18, 20, 20, 21]
  const WEIGHTS1: seq<nat> :=
    [23, 24, 24, 24, 26, 27, 28, 28]
  const WEIGHTS2: seq<nat> :=
    [30, 30, 30, 30, 30, 32, 32, 33]
  const WEIGHTS3: seq<nat> :=
    [34, 34, 34, 34, 36, 36, 36, 36]
  const WEIGHTS4: seq<nat> :=
    [36, 36, 37, 38, 38, 39, 40, 40]
  const WEIGHTS5: seq<nat> :=
    [40, 40, 40, 42, 42, 42, 43, 44]
  const WEIGHTS6: seq<nat> :=
    [44, 45, 46, 48, 48, 49, 51, 52]
  const WEIGHTS7: seq<nat> :=
    [52, 54, 54, 55, 56, 60, 60, 60]
  const WEIGHTS8: seq<nat> :=
    [62, 64, 66, 68, 68, 71, 72, 72]
  const WEIGHTS9: seq<nat> :=
    [73, 75, 77, 79, 80, 80, 83, 84]
  const WEIGHTS10: seq<nat> :=
    [86, 88, 91, 94, 97, 101, 103, 104]
  const WEIGHTS11: seq<nat> :=
    [106, 108, 111, 114, 119, 120, 120, 121]
  const WEIGHTS12: seq<nat> :=
    [123, 125, 130, 132, 134, 136, 136, 137]
  const WEIGHTS13: seq<nat> :=
    [138, 141, 142, 144, 146, 152, 154, 156]
  const WEIGHTS14: seq<nat> :=
    [159, 160, 164, 167, 174, 177, 181, 183]
  const WEIGHTS15: seq<nat> :=
    [188, 192, 199, 204, 210, 216, 219, 222]
  const WEIGHTS16: seq<nat> :=
    [225, 227, 239, 240, 243, 248, 254, 259]
  const WEIGHTS17: seq<nat> :=
    [263, 268, 270, 272, 273, 275, 282, 284]
  const WEIGHTS18: seq<nat> :=
    [287, 291, 293, 299, 304, 307, 310, 313]
  const WEIGHTS19: seq<nat> :=
    [314, 317, 323, 328, 332, 333, 334, 335]
  const WEIGHTS20: seq<nat> :=
    [344, 348, 349, 353, 359, 361, 364, 373]
  const WEIGHTS21: seq<nat> :=
    [376, 382, 393, 402, 408, 421, 428, 437]
  const WEIGHTS22: seq<nat> :=
    [445, 452, 479, 483, 502, 522, 538, 545]
  const WEIGHTS23: seq<nat> :=
    [552, 565, 568, 578, 592, 608, 617, 627]
  const WEIGHTS24: seq<nat> :=
    [640, 660, 667, 670, 692, 702, 720, 725]
  const WEIGHTS25: seq<nat> :=
    [737, 758, 795, 812, 849, 868, 889, 931]
  const WEIGHTS26: seq<nat> :=
    [965, 1024, 1080, 1088, 1117, 1146, 1200, 1234]
  const WEIGHTS27: seq<nat> :=
    [1265, 1287, 1327, 1362, 1417, 1445, 1491, 1553]
  const WEIGHTS28: seq<nat> :=
    [1650, 1708, 1740, 1808, 1896, 2104, 2205, 2346]
  const WEIGHTS29: seq<nat> :=
    [2499, 2614, 2779, 2936, 3203, 3382, 3548, 3710]
  const WEIGHTS30: seq<nat> :=
    [4054, 4378, 4590, 5113, 5436, 6139, 6930, 7764]
  const WEIGHTS31: seq<nat> :=
    [8923, 9703, 11575, 14694, 18626, 26269, 44895, 1073786719]

  /** What the symbols and the nodes weigh. */
  function Load(x: nat): nat
    requires x < 513
  {
    if x < 257 then SymbolLoad(x)
    else if x < 265 then WEIGHTS0[x - 257]
    else if x < 273 then WEIGHTS1[x - 265]
    else if x < 281 then WEIGHTS2[x - 273]
    else if x < 289 then WEIGHTS3[x - 281]
    else if x < 297 then WEIGHTS4[x - 289]
    else if x < 305 then WEIGHTS5[x - 297]
    else if x < 313 then WEIGHTS6[x - 305]
    else if x < 321 then WEIGHTS7[x - 313]
    else if x < 329 then WEIGHTS8[x - 321]
    else if x < 337 then WEIGHTS9[x - 329]
    else if x < 345 then WEIGHTS10[x - 337]
    else if x < 353 then WEIGHTS11[x - 345]
    else if x < 361 then WEIGHTS12[x - 353]
    else if x < 369 then WEIGHTS13[x - 361]
    else if x < 377 then WEIGHTS14[x - 369]
    else if x < 385 then WEIGHTS15[x - 377]
    else if x < 393 then WEIGHTS16[x - 385]
    else if x < 401 then WEIGHTS17[x - 393]
    else if x < 409 then WEIGHTS18[x - 401]
    else if x < 417 then WEIGHTS19[x - 409]
    else if x < 425 then WEIGHTS20[x - 417]
    else if x < 433 then WEIGHTS21[x - 425]
    else if x < 441 then WEIGHTS22[x - 433]
    else if x < 449 then WEIGHTS23[x - 441]
    else if x < 457 then WEIGHTS24[x - 449]
    else if x < 465 then WEIGHTS25[x - 457]
    else if x < 473 then WEIGHTS26[x - 465]
    else if x < 481 then WEIGHTS27[x - 473]
    else if x < 489 then WEIGHTS28[x - 481]
    else if x < 497 then WEIGHTS29[x - 489]
    else if x < 505 then WEIGHTS30[x - 497]
    else WEIGHTS31[x - 505]
  }

  function SymbolLoad(s: nat): nat
    requires s < 257
  {
    if s == 256 then 1
    else if s < 20 then ROW0[s]
    else if s < 40 then ROW1[s - 20]
    else if s < 60 then ROW2[s - 40]
    else if s < 80 then ROW3[s - 60]
    else if s < 100 then ROW4[s - 80]
    else if s < 120 then ROW5[s - 100]
    else if s < 140 then ROW6[s - 120]
    else if s < 160 then ROW7[s - 140]
    else if s < 180 then ROW8[s - 160]
    else if s < 200 then ROW9[s - 180]
    else if s < 220 then ROW10[s - 200]
    else if s < 240 then ROW11[s - 220]
    else ROW12[s - 240]
  }

  /** a comes before b: heavier, or as heavy and older. */
  predicate Comes(a: nat, b: nat)
    requires a < 513 && b < 513
  {
    Load(a) > Load(b) || (Load(a) == Load(b) && a < b)
  }

  /** A node is made of older ones, weighs what they do, and comes in order behind the node before it. */
  predicate NodeOk(id: nat)
    requires 257 <= id < 513
  {
    var (z, o) := Node(id);
    && z < id && o < id && Load(id) == Load(z) + Load(o) && Comes(o, z)
    && (id > 257 ==> Node(id - 1).1 < 513 && Comes(z, Node(id - 1).1))
  }

  lemma Nodes257()
    ensures NodeOk(257) && NodeOk(258)
  {
  }

  lemma Nodes259()
    ensures NodeOk(259) && NodeOk(260)
  {
  }

  lemma Nodes261()
    ensures NodeOk(261) && NodeOk(262)
  {
  }

  lemma Nodes263()
    ensures NodeOk(263) && NodeOk(264)
  {
  }

  lemma Nodes265()
    ensures NodeOk(265) && NodeOk(266)
  {
  }

  lemma Nodes267()
    ensures NodeOk(267) && NodeOk(268)
  {
  }

  lemma Nodes269()
    ensures NodeOk(269) && NodeOk(270)
  {
  }

  lemma Nodes271()
    ensures NodeOk(271) && NodeOk(272)
  {
  }

  lemma Nodes273()
    ensures NodeOk(273) && NodeOk(274)
  {
  }

  lemma Nodes275()
    ensures NodeOk(275) && NodeOk(276)
  {
  }

  lemma Nodes277()
    ensures NodeOk(277) && NodeOk(278)
  {
  }

  lemma Nodes279()
    ensures NodeOk(279) && NodeOk(280)
  {
  }

  lemma Nodes281()
    ensures NodeOk(281) && NodeOk(282)
  {
  }

  lemma Nodes283()
    ensures NodeOk(283) && NodeOk(284)
  {
  }

  lemma Nodes285()
    ensures NodeOk(285) && NodeOk(286)
  {
  }

  lemma Nodes287()
    ensures NodeOk(287) && NodeOk(288)
  {
  }

  lemma Nodes289()
    ensures NodeOk(289) && NodeOk(290)
  {
  }

  lemma Nodes291()
    ensures NodeOk(291) && NodeOk(292)
  {
  }

  lemma Nodes293()
    ensures NodeOk(293) && NodeOk(294) && NodeOk(295)
  {
  }

  lemma Nodes296()
    ensures NodeOk(296) && NodeOk(297)
  {
  }

  lemma Nodes298()
    ensures NodeOk(298) && NodeOk(299)
  {
  }

  lemma Nodes300()
    ensures NodeOk(300) && NodeOk(301)
  {
  }

  lemma Nodes302()
    ensures NodeOk(302) && NodeOk(303)
  {
  }

  lemma Nodes304()
    ensures NodeOk(304) && NodeOk(305)
  {
  }

  lemma Nodes306()
    ensures NodeOk(306) && NodeOk(307) && NodeOk(308)
  {
  }

  lemma Nodes309()
    ensures NodeOk(309) && NodeOk(310) && NodeOk(311)
  {
  }

  lemma Nodes312()
    ensures NodeOk(312) && NodeOk(313)
  {
  }

  lemma Nodes314()
    ensures NodeOk(314) && NodeOk(315) && NodeOk(316)
  {
  }

  lemma Nodes317()
    ensures NodeOk(317) && NodeOk(318) && NodeOk(319) && NodeOk(320)
  {
  }

  lemma Nodes321()
    ensures NodeOk(321) && NodeOk(322) && NodeOk(323)
  {
  }

  lemma Nodes324()
    ensures NodeOk(324) && NodeOk(325) && NodeOk(326) && NodeOk(327) && NodeOk(328)
  {
  }

  lemma Nodes329()
    ensures NodeOk(329) && NodeOk(330) && NodeOk(331) && NodeOk(332) && NodeOk(333)
  {
  }

  lemma Nodes334()
    ensures NodeOk(334) && NodeOk(335) && NodeOk(336) && NodeOk(337) && NodeOk(338)
  {
  }

  lemma Nodes339()
    ensures NodeOk(339) && NodeOk(340) && NodeOk(341) && NodeOk(342)
  {
  }

  lemma Nodes343()
    ensures NodeOk(343) && NodeOk(344) && NodeOk(345)
  {
  }

  lemma Nodes346()
    ensures NodeOk(346) && NodeOk(347) && NodeOk(348) && NodeOk(349)
  {
  }

  lemma Nodes350()
    ensures NodeOk(350) && NodeOk(351) && NodeOk(352)
  {
  }

  lemma Nodes353()
    ensures NodeOk(353) && NodeOk(354) && NodeOk(355)
  {
  }

  lemma Nodes356()
    ensures NodeOk(356) && NodeOk(357) && NodeOk(358)
  {
  }

  lemma Nodes359()
    ensures NodeOk(359) && NodeOk(360)
  {
  }

  lemma Nodes361()
    ensures NodeOk(361) && NodeOk(362)
  {
  }

  lemma Nodes363()
    ensures NodeOk(363) && NodeOk(364) && NodeOk(365) && NodeOk(366)
  {
  }

  lemma Nodes367()
    ensures NodeOk(367) && NodeOk(368) && NodeOk(369)
  {
  }

  lemma Nodes370()
    ensures NodeOk(370) && NodeOk(371) && NodeOk(372) && NodeOk(373)
  {
  }

  lemma Nodes374()
    ensures NodeOk(374) && NodeOk(375) && NodeOk(376)
  {
  }

  lemma Nodes377()
    ensures NodeOk(377) && NodeOk(378) && NodeOk(379)
  {
  }

  lemma Nodes380()
    ensures NodeOk(380) && NodeOk(381) && NodeOk(382) && NodeOk(383)
  {
  }

  lemma Nodes384()
    ensures NodeOk(384) && NodeOk(385) && NodeOk(386)
  {
  }

  lemma Nodes387()
    ensures NodeOk(387) && NodeOk(388) && NodeOk(389) && NodeOk(390)
  {
  }

  lemma Nodes391()
    ensures NodeOk(391) && NodeOk(392) && NodeOk(393)
  {
  }

  lemma Nodes394()
    ensures NodeOk(394) && NodeOk(395) && NodeOk(396)
  {
  }

  lemma Nodes397()
    ensures NodeOk(397) && NodeOk(398) && NodeOk(399)
  {
  }

  lemma Nodes400()
    ensures NodeOk(400) && NodeOk(401) && NodeOk(402)
  {
  }

  lemma Nodes403()
    ensures NodeOk(403) && NodeOk(404)
  {
  }

  lemma Nodes405()
    ensures NodeOk(405) && NodeOk(406) && NodeOk(407)
  {
  }

  lemma Nodes408()
    ensures NodeOk(408) && NodeOk(409)
  {
  }

  lemma Nodes410()
    ensures NodeOk(410) && NodeOk(411) && NodeOk(412)
  {
  }

  lemma Nodes413()
    ensures NodeOk(413) && NodeOk(414)
  {
  }

  lemma Nodes415()
    ensures NodeOk(415) && NodeOk(416)
  {
  }

  lemma Nodes417()
    ensures NodeOk(417) && NodeOk(418)
  {
  }

  lemma Nodes419()
    ensures NodeOk(419) && NodeOk(420)
  {
  }

  lemma Nodes421()
    ensures NodeOk(421) && NodeOk(422) && NodeOk(423)
  {
  }

  lemma Nodes424()
    ensures NodeOk(424) && NodeOk(425) && NodeOk(426)
  {
  }

  lemma Nodes427()
    ensures NodeOk(427) && NodeOk(428) && NodeOk(429)
  {
  }

  lemma Nodes430()
    ensures NodeOk(430) && NodeOk(431) && NodeOk(432)
  {
  }

  lemma Nodes433()
    ensures NodeOk(433) && NodeOk(434) && NodeOk(435) && NodeOk(436) && NodeOk(437)
  {
  }

  lemma Nodes438()
    ensures NodeOk(438) && NodeOk(439) && NodeOk(440) && NodeOk(441) && NodeOk(442)
  {
  }

  lemma Nodes443()
    ensures NodeOk(443) && NodeOk(444) && NodeOk(445) && NodeOk(446)
  {
  }

  lemma Nodes447()
    ensures NodeOk(447) && NodeOk(448) && NodeOk(449) && NodeOk(450) && NodeOk(451)
  {
  }

  lemma Nodes452()
    ensures NodeOk(452) && NodeOk(453) && NodeOk(454) && NodeOk(455)
  {
  }

  lemma Nodes456()
    ensures NodeOk(456) && NodeOk(457) && NodeOk(458) && NodeOk(459)
  {
  }

  lemma Nodes460()
    ensures NodeOk(460) && NodeOk(461) && NodeOk(462) && NodeOk(463)
  {
  }

  lemma Nodes464()
    ensures NodeOk(464) && NodeOk(465) && NodeOk(466) && NodeOk(467)
  {
  }

  lemma Nodes468()
    ensures NodeOk(468) && NodeOk(469) && NodeOk(470) && NodeOk(471) && NodeOk(472)
  {
  }

  lemma Nodes473()
    ensures NodeOk(473) && NodeOk(474) && NodeOk(475) && NodeOk(476)
  {
  }

  lemma Nodes477()
    ensures NodeOk(477) && NodeOk(478) && NodeOk(479) && NodeOk(480)
  {
  }

  lemma Nodes481()
    ensures NodeOk(481) && NodeOk(482) && NodeOk(483)
  {
  }

  lemma Nodes484()
    ensures NodeOk(484) && NodeOk(485) && NodeOk(486) && NodeOk(487) && NodeOk(488)
  {
  }

  lemma Nodes489()
    ensures NodeOk(489) && NodeOk(490) && NodeOk(491) && NodeOk(492) && NodeOk(493)
  {
  }

  lemma Nodes494()
    ensures NodeOk(494) && NodeOk(495) && NodeOk(496) && NodeOk(497)
  {
  }

  lemma Nodes498()
    ensures NodeOk(498) && NodeOk(499) && NodeOk(500) && NodeOk(501)
  {
  }

  lemma Nodes502()
    ensures NodeOk(502) && NodeOk(503) && NodeOk(504) && NodeOk(505) && NodeOk(506)
  {
  }

  lemma Nodes507()
    ensures NodeOk(507) && NodeOk(508) && NodeOk(509) && NodeOk(510) && NodeOk(511)
  {
  }

  lemma Nodes512()
    ensures NodeOk(512)
  {
  }

  lemma From257(id: nat)
    requires 257 <= id < 296
    ensures NodeOk(id)
  {
    hide NodeOk;
    if id < 259 { Nodes257(); }
    else if id < 261 { Nodes259(); }
    else if id < 263 { Nodes261(); }
    else if id < 265 { Nodes263(); }
    else if id < 267 { Nodes265(); }
    else if id < 269 { Nodes267(); }
    else if id < 271 { Nodes269(); }
    else if id < 273 { Nodes271(); }
    else if id < 275 { Nodes273(); }
    else if id < 277 { Nodes275(); }
    else if id < 279 { Nodes277(); }
    else if id < 281 { Nodes279(); }
    else if id < 283 { Nodes281(); }
    else if id < 285 { Nodes283(); }
    else if id < 287 { Nodes285(); }
    else if id < 289 { Nodes287(); }
    else if id < 291 { Nodes289(); }
    else if id < 293 { Nodes291(); }
    else { Nodes293(); }
  }

  lemma From296(id: nat)
    requires 296 <= id < 356
    ensures NodeOk(id)
  {
    hide NodeOk;
    if id < 298 { Nodes296(); }
    else if id < 300 { Nodes298(); }
    else if id < 302 { Nodes300(); }
    else if id < 304 { Nodes302(); }
    else if id < 306 { Nodes304(); }
    else if id < 309 { Nodes306(); }
    else if id < 312 { Nodes309(); }
    else if id < 314 { Nodes312(); }
    else if id < 317 { Nodes314(); }
    else if id < 321 { Nodes317(); }
    else if id < 324 { Nodes321(); }
    else if id < 329 { Nodes324(); }
    else if id < 334 { Nodes329(); }
    else if id < 339 { Nodes334(); }
    else if id < 343 { Nodes339(); }
    else if id < 346 { Nodes343(); }
    else if id < 350 { Nodes346(); }
    else if id < 353 { Nodes350(); }
    else { Nodes353(); }
  }

  lemma From356(id: nat)
    requires 356 <= id < 413
    ensures NodeOk(id)
  {
    hide NodeOk;
    if id < 359 { Nodes356(); }
    else if id < 361 { Nodes359(); }
    else if id < 363 { Nodes361(); }
    else if id < 367 { Nodes363(); }
    else if id < 370 { Nodes367(); }
    else if id < 374 { Nodes370(); }
    else if id < 377 { Nodes374(); }
    else if id < 380 { Nodes377(); }
    else if id < 384 { Nodes380(); }
    else if id < 387 { Nodes384(); }
    else if id < 391 { Nodes387(); }
    else if id < 394 { Nodes391(); }
    else if id < 397 { Nodes394(); }
    else if id < 400 { Nodes397(); }
    else if id < 403 { Nodes400(); }
    else if id < 405 { Nodes403(); }
    else if id < 408 { Nodes405(); }
    else if id < 410 { Nodes408(); }
    else { Nodes410(); }
  }

  lemma From413(id: nat)
    requires 413 <= id < 481
    ensures NodeOk(id)
  {
    hide NodeOk;
    if id < 415 { Nodes413(); }
    else if id < 417 { Nodes415(); }
    else if id < 419 { Nodes417(); }
    else if id < 421 { Nodes419(); }
    else if id < 424 { Nodes421(); }
    else if id < 427 { Nodes424(); }
    else if id < 430 { Nodes427(); }
    else if id < 433 { Nodes430(); }
    else if id < 438 { Nodes433(); }
    else if id < 443 { Nodes438(); }
    else if id < 447 { Nodes443(); }
    else if id < 452 { Nodes447(); }
    else if id < 456 { Nodes452(); }
    else if id < 460 { Nodes456(); }
    else if id < 464 { Nodes460(); }
    else if id < 468 { Nodes464(); }
    else if id < 473 { Nodes468(); }
    else if id < 477 { Nodes473(); }
    else { Nodes477(); }
  }

  lemma From481(id: nat)
    requires 481 <= id < 513
    ensures NodeOk(id)
  {
    hide NodeOk;
    if id < 484 { Nodes481(); }
    else if id < 489 { Nodes484(); }
    else if id < 494 { Nodes489(); }
    else if id < 498 { Nodes494(); }
    else if id < 502 { Nodes498(); }
    else if id < 507 { Nodes502(); }
    else if id < 512 { Nodes507(); }
    else { Nodes512(); }
  }

  lemma EveryNode(id: nat)
    requires 257 <= id < 513
    ensures NodeOk(id)
  {
    hide NodeOk;
    if id < 296 { From257(id); }
    else if id < 356 { From296(id); }
    else if id < 413 { From356(id); }
    else if id < 481 { From413(id); }
    else { From481(id); }
  }

  // ---- these nodes are the tree ----

  function Tree(): (t: seq<Children>)
    ensures |t| == 513
  {
    NoChildren() + seq(256, i requires 0 <= i < 256 => Children(Node(257 + i).0, Node(257 + i).1))
  }

  lemma TreeNode(id: nat)
    requires 257 <= id < 513
    ensures Tree()[id] == Children(Node(id).0, Node(id).1) && Node(id).0 < id && Node(id).1 < id
  {
    hide Node, Load, Comes;
    EveryNode(id);
  }

  lemma TreeIsTable()
    ensures IsTable(Tree()) && Tree()[..MAX_SYMBOLS] == NoChildren()
  {
    hide Node, Tree;
    forall id: nat | 257 <= id < 513 ensures Tree()[id].zero < id && Tree()[id].one < id { TreeNode(id); }
    assert Tree()[..MAX_SYMBOLS] == NoChildren() by { TreeStart(); }
  }

  lemma TreeStart()
    ensures Tree()[..MAX_SYMBOLS] == NoChildren()
  {
    hide Node;
  }

  /** The table of the game in rows. */
  lemma LoadIsFrequency(s: nat)
    requires s < 257
    ensures |FreqTable()| == MAX_SYMBOLS && SymbolLoad(s) == Frequency(FreqTable(), s)
  {
    hide FreqTable, Rows, SymbolLoad;
    RowAt(s / 20);
    RowLengths();
    RowLoad(s);
    assert s != 256 ==> FreqTable()[s] == FreqTable()[20 * (s / 20)..20 * (s / 20) + |Rows()[s / 20]|][s % 20];
  }

  lemma RowLoad(s: nat)
    requires s < 257
    ensures |Rows()| == 13 && s % 20 < |Rows()[s / 20]| && SymbolLoad(s) == if s == 256 then 1 else Rows()[s / 20][s % 20]
  {
    RowLengths();
    hide Rows, SymbolLoad;
    if s < 80 { LowRows(s); } else if s < 160 { MiddleRows(s); } else { HighRows(s); }
  }

  lemma LowRows(s: nat)
    requires s < 80
    ensures |Rows()| == 13 && s % 20 < |Rows()[s / 20]| && SymbolLoad(s) == Rows()[s / 20][s % 20]
  {
    assert s / 20 == if s < 20 then 0 else if s < 40 then 1 else if s < 60 then 2 else 3;
  }

  lemma MiddleRows(s: nat)
    requires 80 <= s < 160
    ensures |Rows()| == 13 && s % 20 < |Rows()[s / 20]| && SymbolLoad(s) == Rows()[s / 20][s % 20]
  {
    assert s / 20 == if s < 100 then 4 else if s < 120 then 5 else if s < 140 then 6 else 7;
  }

  lemma HighRows(s: nat)
    requires 160 <= s < 257
    ensures |Rows()| == 13 && s % 20 < |Rows()[s / 20]| && SymbolLoad(s) == if s == 256 then 1 else Rows()[s / 20][s % 20]
  {
    assert s / 20 == if s < 180 then 8 else if s < 200 then 9 else if s < 220 then 10 else if s < 240 then 11 else 12;
  }

  lemma {:induction false} LoadIsWeight(x: nat)
    requires x < 513
    ensures IsTable(Tree()) && |FreqTable()| == MAX_SYMBOLS && Weight(Tree(), x, FreqTable()) == Load(x)
    decreases x
  {
    hide FreqTable, Tree, Node, SymbolLoad;
    TreeIsTable();
    LoadIsFrequency(0);
    if x < 257 {
      LoadIsFrequency(x);
      assert Load(x) == SymbolLoad(x);
    } else {
      hide Load;
      EveryNode(x);
      TreeNode(x);
      LoadIsWeight(Node(x).0);
      LoadIsWeight(Node(x).1);
    }
  }

  // ---- the order in which trees are taken ----

  /** The trees in the order in which they get parents. */
  function Taken(k: nat): nat
    requires k < 512
  {
    if k % 2 == 0 then Node(257 + k / 2).0 else Node(257 + k / 2).1
  }

  lemma TakenNext(k: nat)
    requires k < 511
    ensures Taken(k) < 512 && Taken(k + 1) < 512 && Comes(Taken(k + 1), Taken(k))
  {
    hide Node, Load;
    EveryNode(257 + k / 2);
    EveryNode(257 + (k + 1) / 2);
    if k % 2 == 1 { assert (k + 1) / 2 == k / 2 + 1; }
  }

  lemma {:induction false} TakenLater(j: nat, k: nat)
    requires j < k < 512
    ensures Taken(j) < 512 && Taken(k) < 512 && Comes(Taken(k), Taken(j))
    decreases k - j
  {
    hide Taken, Load;
    TakenNext(j);
    if j + 1 < k { TakenLater(j + 1, k); }
  }

  ghost function Numbers(n: nat): set<nat> { if n == 0 then {} else Numbers(n - 1) + {n - 1} }

  lemma {:induction false} NumbersSize(n: nat)
    ensures |Numbers(n)| == n && forall i: nat :: i in Numbers(n) <==> i < n
  {
    if n > 0 { NumbersSize(n - 1); }
  }

  ghost function FirstTaken(n: nat): set<nat>
    requires n <= 512
  {
    if n == 0 then {} else FirstTaken(n - 1) + {Taken(n - 1)}
  }

  lemma {:induction false} FirstTakenSize(n: nat)
    requires n <= 512
    ensures |FirstTaken(n)| == n && forall x: nat :: x in FirstTaken(n) ==> x < 512 && exists k: nat :: k < n && Taken(k) == x
  {
    hide Taken, Comes;
    if n > 0 {
      FirstTakenSize(n - 1);
      if n > 1 { TakenNext(n - 2); } else { TakenNext(0); }
      if Taken(n - 1) in FirstTaken(n - 1) {
        var k: nat :| k < n - 1 && Taken(k) == Taken(n - 1);
        TakenLater(k, n - 1);
        NotBefore(Taken(k));
        assert false;
      }
      forall x: nat | x in FirstTaken(n) ensures x < 512 && exists k: nat :: k < n && Taken(k) == x {
        if x != Taken(n - 1) { assert x in FirstTaken(n - 1); }
      }
    }
  }

  lemma NotBefore(x: nat)
    requires x < 513
    ensures !Comes(x, x)
  {
    hide Load;
  }

  /** Every tree but the last is taken. */
  lemma EveryTaken(x: nat) returns (k: nat)
    requires x < 512
    ensures k < 512 && Taken(k) == x
  {
    hide Taken, FirstTaken, Numbers;
    FirstTakenSize(512);
    NumbersSize(512);
    assert FirstTaken(512) <= Numbers(512);
    SubsetSameSize(FirstTaken(512), Numbers(512), x);
    k :| k < 512 && Taken(k) == x;
  }

  lemma ComesIsBefore(a: nat, b: nat)
    requires a < 513 && b < 513 && Comes(a, b)
    ensures IsTable(Tree()) && |FreqTable()| == MAX_SYMBOLS && Before(Tree(), FreqTable(), a, b)
  {
    hide Tree, FreqTable, Load, Weight;
    LoadIsWeight(a);
    LoadIsWeight(b);
  }

  /** What is taken second-next or later is a root until then. */
  lemma TakenIsRoot(k: nat, id: nat)
    requires k < 512 && 257 <= id < 513 && id <= 257 + k / 2
    ensures Taken(k) < id ==> IsRoot(Tree(), id, Taken(k))
  {
    hide Tree, Taken;
    if Taken(k) < id {
      forall j: nat | 257 <= j < id ensures Tree()[j].zero != Taken(k) && Tree()[j].one != Taken(k) { NotTakenBefore(k, j); }
    }
  }

  lemma NotTakenBefore(k: nat, j: nat)
    requires 257 <= j && 2 * (j - 257) + 1 < k < 512
    ensures Tree()[j].zero != Taken(k) && Tree()[j].one != Taken(k)
  {
    hide Tree, Taken, Comes, Node;
    TreeNode(j);
    TakenPair(j);
    var n := 2 * (j - 257);
    TakenLater(n, k);
    TakenLater(n + 1, k);
    NotBefore(Taken(k));
  }

  lemma RootIsTakenLater(id: nat, x: nat) returns (k: nat)
    requires 257 <= id < 513 && IsRoot(Tree(), id, x)
    ensures 2 * (id - 257) <= k < 512 && Taken(k) == x
  {
    hide Tree, IsRoot;
    RootBelow(id, x);
    k := EveryTaken(x);
    if k < 2 * (id - 257) {
      TreeNode(257 + k / 2);
      NoParent(id, x, 257 + k / 2);
      assert false;
    }
  }

  lemma RootBelow(id: nat, x: nat)
    requires id < 513 && IsRoot(Tree(), id, x)
    ensures x < id
  {
    hide Tree;
  }

  lemma NoParent(id: nat, x: nat, j: nat)
    requires id < 513 && IsRoot(Tree(), id, x) && 257 <= j < id
    ensures Tree()[j].zero != x && Tree()[j].one != x
  {
    hide Tree;
  }

  lemma NodePicks(id: nat)
    requires 257 <= id < 513
    ensures IsTable(Tree()) && |FreqTable()| == MAX_SYMBOLS && Picks(Tree(), FreqTable(), id)
  {
    hide Tree, FreqTable, IsRoot, Before, Comes, Taken, Node, Load;
    TreeNode(id);
    var n := 2 * (id - 257);
    TakenPair(id);
    TakenLater(n, n + 1);
    ComesIsBefore(Taken(n + 1), Taken(n));
    TakenIsRoot(n, id);
    TakenIsRoot(n + 1, id);
    forall x: nat | x < id && IsRoot(Tree(), id, x) && x != Taken(n) && x != Taken(n + 1)
      ensures Before(Tree(), FreqTable(), x, Taken(n + 1))
    {
      var k := RootIsTakenLater(id, x);
      TakenLater(n + 1, k);
      ComesIsBefore(x, Taken(n + 1));
    }
  }

  lemma TakenPair(id: nat)
    requires 257 <= id < 513
    ensures Taken(2 * (id - 257)) == Node(id).0 && Taken(2 * (id - 257) + 1) == Node(id).1
  {
    hide Node;
  }

  /** The tree of the game. */
  lemma TreeOfGame()
    ensures |FreqTable()| == MAX_SYMBOLS && TreeOf(FreqTable()) == Tree()
  {
    hide FreqTable, Tree, Picks, TreeOf;
    TableIsShallow();
    TreeIsTable();
    NodePicks(257);
    forall id: nat | 257 <= id < 513 ensures Picks(Tree(), FreqTable(), id) { NodePicks(id); }
    TreeIsOnly(FreqTable(), Tree());
  }

  // ---- codes ----

  /** A walk down a tree in which no symbol hangs twice is the path to the symbol it hits. */
  lemma {:induction false} PathIsOnly(t: seq<Children>, id: nat, s: nat, bits: nat, k: nat)
    requires IsTable(t) && id < |t| && Proper(t, id) && Reads(t, id, bits, k, s) && bits < Pow2(k)
    ensures s in Leaves(t, id) && PathTo(t, id, s) == Code(bits, k)
    decreases k
  {
    if k > 0 {
      PathIsOnly(t, Child(t, id, bits), s, bits / 2, k - 1);
    }
  }

  /** One step up: from a child to its node. */
  lemma Up(id: nat, child: nat, bit: nat, bits: nat, k: nat, s: nat)
    requires 257 <= id < 513 && bit < 2 && child < 513 && IsTable(Tree())
    requires child == (if bit == 1 then Node(id).1 else Node(id).0)
    requires Reads(Tree(), child, bits, k, s) && bits < Pow2(k)
    ensures Reads(Tree(), id, 2 * bits + bit, k + 1, s) && 2 * bits + bit < Pow2(k + 1)
  {
    hide Tree, Reads, Node, Pow2;
    TreeNode(id);
    ReadsBehind(Tree(), id, bits, bit, k, s);
  }

  lemma Bottom(s: nat)
    requires s < 257
    ensures IsTable(Tree()) && Reads(Tree(), s, 0, 0, s) && 0 < Pow2(0)
  {
    hide Tree;
    TreeIsTable();
  }

  lemma Walk0()
    ensures IsTable(Tree()) && Reads(Tree(), 512, 1, 1, 0) && 1 < Pow2(1)
  {
    hide Tree, Reads, Pow2;
    Bottom(0);
    Up(512, 0, 1, 0, 0, 0);
  }

  lemma Walk1()
    ensures IsTable(Tree()) && Reads(Tree(), 512, 8, 4, 1) && 8 < Pow2(4)
  {
    hide Tree, Reads, Pow2;
    Bottom(1);
    Up(505, 1, 1, 0, 0, 1);
    Up(509, 505, 0, 1, 1, 1);
    Up(511, 509, 0, 2, 2, 1);
    Up(512, 511, 0, 4, 3, 1);
  }

  lemma Walk2()
    ensures IsTable(Tree()) && Reads(Tree(), 512, 2, 5, 2) && 2 < Pow2(5)
  {
    hide Tree, Reads, Pow2;
    Bottom(2);
    Up(501, 2, 0, 0, 0, 2);
    Up(507, 501, 0, 0, 1, 2);
    Up(510, 507, 0, 0, 2, 2);
    Up(511, 510, 1, 0, 3, 2);
    Up(512, 511, 0, 1, 4, 2);
  }

  lemma Walk3()
    ensures IsTable(Tree()) && Reads(Tree(), 512, 22, 8, 3) && 22 < Pow2(8)
  {
    hide Tree, Reads, Pow2;
    Bottom(3);
    Up(462, 3, 0, 0, 0, 3);
    Up(483, 462, 0, 0, 1, 3);
    Up(495, 483, 0, 0, 2, 3);
    Up(503, 495, 1, 0, 3, 3);
    Up(508, 503, 0, 1, 4, 3);
    Up(510, 508, 1, 2, 5, 3);
    Up(511, 510, 1, 5, 6, 3);
    Up(512, 511, 0, 11, 7, 3);
  }

  lemma Walk4()
    ensures IsTable(Tree()) && Reads(Tree(), 512, 30, 6, 4) && 30 < Pow2(6)
  {
    hide Tree, Reads, Pow2;
    Bottom(4);
    Up(497, 4, 0, 0, 0, 4);
    Up(504, 497, 1, 0, 1, 4);
    Up(508, 504, 1, 1, 2, 4);
    Up(510, 508, 1, 3, 3, 4);
    Up(511, 510, 1, 7, 4, 4);
    Up(512, 511, 0, 15, 5, 4);
  }

  lemma Walk5()
    ensures IsTable(Tree()) && Reads(Tree(), 512, 118, 7, 5) && 118 < Pow2(7)
  {
    hide Tree, Reads, Pow2;
    Bottom(5);
    Up(484, 5, 1, 0, 0, 5);
    Up(495, 484, 1, 1, 1, 5);
    Up(503, 495, 1, 3, 2, 5);
    Up(508, 503, 0, 7, 3, 5);
    Up(510, 508, 1, 14, 4, 5);
    Up(511, 510, 1, 29, 5, 5);
    Up(512, 511, 0, 59, 6, 5);
  }

  lemma Walk6()
    ensures IsTable(Tree()) && Reads(Tree(), 512, 54, 8, 6) && 54 < Pow2(8)
  {
    hide Tree, Reads, Pow2;
    Bottom(6);
    Up(463, 6, 0, 0, 0, 6);
    Up(484, 463, 0, 0, 1, 6);
    Up(495, 484, 1, 0, 2, 6);
    Up(503, 495, 1, 1, 3, 6);
    Up(508, 503, 0, 3, 4, 6);
    Up(510, 508, 1, 6, 5, 6);
    Up(511, 510, 1, 13, 6, 6);
    Up(512, 511, 0, 27, 7, 6);
  }

  lemma Walk7()
    ensures IsTable(Tree()) && Reads(Tree(), 512, 110, 8, 7) && 110 < Pow2(8)
  {
    hide Tree, Reads, Pow2;
    Bottom(7);
    Up(465, 7, 0, 0, 0, 7);
    Up(485, 465, 1, 0, 1, 7);
    Up(496, 485, 1, 1, 2, 7);
    Up(504, 496, 0, 3, 3, 7);
    Up(508, 504, 1, 6, 4, 7);
    Up(510, 508, 1, 13, 5, 7);
    Up(511, 510, 1, 27, 6, 7);
    Up(512, 511, 0, 55, 7, 7);
  }

  lemma Walk256()
    ensures IsTable(Tree()) && Reads(Tree(), 512, 7050, 15, 256) && 7050 < Pow2(15)
  {
    hide Tree, Reads, Pow2;
    Bottom(256);
    Up(257, 256, 0, 0, 0, 256);
    Up(258, 257, 0, 0, 1, 256);
    Up(265, 258, 1, 0, 2, 256);
    Up(306, 265, 1, 1, 3, 256);
    Up(339, 306, 0, 3, 4, 256);
    Up(375, 339, 1, 6, 5, 256);
    Up(422, 375, 1, 13, 6, 256);
    Up(455, 422, 1, 27, 7, 256);
    Up(478, 455, 0, 55, 8, 256);
    Up(492, 478, 0, 110, 9, 256);
    Up(502, 492, 0, 220, 10, 256);
    Up(507, 502, 1, 440, 11, 256);
    Up(510, 507, 0, 881, 12, 256);
    Up(511, 510, 1, 1762, 13, 256);
    Up(512, 511, 0, 3525, 14, 256);
  }

  lemma CodeIs(codes: seq<Code>, s: nat, bits: nat, k: nat)
    requires CodesOf(FreqTable(), codes) && s < MAX_SYMBOLS
    requires IsTable(Tree()) && Reads(Tree(), 512, bits, k, s) && bits < Pow2(k)
    ensures |codes| >= MAX_SYMBOLS && codes[s] == Code(bits, k)
  {
    hide Tree, FreqTable, Reads, PathTo, Proper, Leaves, TreeOf;
    TreeOfGame();
    PathIsOnly(Tree(), 512, s, bits, k);
  }

  lemma SomeCodes(codes: seq<Code>)
    requires CodesOf(FreqTable(), codes)
    ensures |codes| >= MAX_SYMBOLS
    ensures codes[0] == Code(1, 1)
    ensures codes[1] == Code(8, 4)
    ensures codes[2] == Code(2, 5)
    ensures codes[3] == Code(22, 8)
    ensures codes[4] == Code(30, 6)
    ensures codes[5] == Code(118, 7)
    ensures codes[6] == Code(54, 8)
    ensures codes[7] == Code(110, 8)
    ensures codes[256] == Code(7050, 15)
  {
    hide CodesOf, Tree, FreqTable, Reads, Pow2;
    Walk0();
    CodeIs(codes, 0, 1, 1);
    Walk1();
    CodeIs(codes, 1, 8, 4);
    Walk2();
    CodeIs(codes, 2, 2, 5);
    Walk3();
    CodeIs(codes, 3, 22, 8);
    Walk4();
    CodeIs(codes, 4, 30, 6);
    Walk5();
    CodeIs(codes, 5, 118, 7);
    Walk6();
    CodeIs(codes, 6, 54, 8);
    Walk7();
    CodeIs(codes, 7, 110, 8);
    Walk256();
    CodeIs(codes, 256, 7050, 15);
  }

  // ---- the message ----

  function Zeros(n: nat): seq<Byte> { if n == 0 then [] else [0] + Zeros(n - 1) }

  /** Behind a symbol of the single bit 1 every bit is 1 up to the end symbol. */
  lemma {:induction false} EncodedZeros(codes: seq<Code>, n: nat)
    requires |codes| >= MAX_SYMBOLS && codes[0] == Code(1, 1)
    ensures 0 <= Pow2(n) * codes[EOF_SYMBOL].bits
    ensures Encoded(codes, Zeros(n)) == Pow2(n) - 1 + Pow2(n) * codes[EOF_SYMBOL].bits
    ensures EncodedLength(codes, Zeros(n)) == n + codes[EOF_SYMBOL].numBits
  {
    hide Encoded, EncodedLength;
    MulNonneg(Pow2(n), codes[EOF_SYMBOL].bits);
    if n == 0 {
      OnlyEnd(codes);
    } else {
      EncodedZeros(codes, n - 1);
      EncodeFirst(codes, 0, Zeros(n - 1));
      assert Pow2(1) == 2 by { Pow2Small(); }
      Distribute(2, Pow2(n - 1) - 1, Pow2(n - 1) * codes[EOF_SYMBOL].bits);
      Associate(2, Pow2(n - 1), codes[EOF_SYMBOL].bits);
    }
  }

  lemma OnlyEnd(codes: seq<Code>)
    requires |codes| >= MAX_SYMBOLS
    ensures Encoded(codes, []) == codes[EOF_SYMBOL].bits && EncodedLength(codes, []) == codes[EOF_SYMBOL].numBits
  {
  }

  /** The bytes 0 to 7, and 56 zeros. */
  function Message(): seq<Byte> {
    [0] + ([1] + ([2] + ([3] + ([4] + ([5] + ([6] + ([7] + Zeros(56))))))))
  }

  lemma Powers()
    ensures Pow2(1) == 2 && Pow2(4) == 16 && Pow2(5) == 32 && Pow2(6) == 64 && Pow2(7) == 128 && Pow2(8) == 256
    ensures Pow2(56) == 0x100_0000_0000_0000
  {
    hide Pow2;
    Pow2Values();
    Pow2Small();
    Pow2Add(1, 3);
    Pow2Add(5, 1);
    Pow2Add(5, 2);
    Pow2Add(5, 3);
    Pow2Add(8, 8);
    Pow2Add(8, 16);
    Pow2Add(32, 24);
  }

  lemma FirstIs(codes: seq<Code>, s: Byte, rest: seq<Byte>, p: nat, v: nat, n: nat, w: nat)
    requires |codes| >= MAX_SYMBOLS && Encoded(codes, rest) == v && EncodedLength(codes, rest) == n
    requires p == Pow2(codes[s].numBits) && w == codes[s].bits + p * v
    ensures Encoded(codes, [s] + rest) == w && EncodedLength(codes, [s] + rest) == codes[s].numBits + n
  {
    hide Encoded, EncodedLength, Pow2;
    EncodeFirst(codes, s, rest);
  }

  lemma MessageEncoded(codes: seq<Code>)
    requires CodesOf(FreqTable(), codes)
    ensures |codes| >= MAX_SYMBOLS && EncodedLength(codes, Message()) == 118
    ensures Encoded(codes, Message()) == 0xDC57FFFFFFFFFFFFFB71B76785851
  {
    hide CodesOf, FreqTable, Encoded, EncodedLength, Pow2, Zeros;
    SomeCodes(codes);
    Powers();
    EncodedZeros(codes, 56);
    var m8 := Zeros(56);
    var m7 := [7] + m8;
    FirstIs(codes, 7, m8, 256, 0x1B8AFFFFFFFFFFFFFF, 71, 0x1B8AFFFFFFFFFFFFFF6E);
    var m6 := [6] + m7;
    FirstIs(codes, 6, m7, 256, 0x1B8AFFFFFFFFFFFFFF6E, 79, 0x1B8AFFFFFFFFFFFFFF6E36);
    var m5 := [5] + m6;
    FirstIs(codes, 5, m6, 128, 0x1B8AFFFFFFFFFFFFFF6E36, 87, 0xDC57FFFFFFFFFFFFFB71B76);
    var m4 := [4] + m5;
    FirstIs(codes, 4, m5, 64, 0xDC57FFFFFFFFFFFFFB71B76, 94, 0x3715FFFFFFFFFFFFFEDC6DD9E);
    var m3 := [3] + m4;
    FirstIs(codes, 3, m4, 256, 0x3715FFFFFFFFFFFFFEDC6DD9E, 100, 0x3715FFFFFFFFFFFFFEDC6DD9E16);
    var m2 := [2] + m3;
    FirstIs(codes, 2, m3, 32, 0x3715FFFFFFFFFFFFFEDC6DD9E16, 108, 0x6E2BFFFFFFFFFFFFFDB8DBB3C2C2);
    var m1 := [1] + m2;
    FirstIs(codes, 1, m2, 16, 0x6E2BFFFFFFFFFFFFFDB8DBB3C2C2, 113, 0x6E2BFFFFFFFFFFFFFDB8DBB3C2C28);
    var m0 := [0] + m1;
    FirstIs(codes, 0, m1, 2, 0x6E2BFFFFFFFFFFFFFDB8DBB3C2C28, 117, 0xDC57FFFFFFFFFFFFFB71B76785851);
  }

  lemma NumberMore(x: Byte, rest: seq<Byte>, v: nat)
    requires Number(rest) == v
    ensures Number([x] + rest) == x + 256 * v
  {
    assert ([x] + rest)[1..] == rest;
  }

  const FRONT: seq<Byte> := [0x51, 0x58, 0x78, 0x76, 0x1B, 0xB7, 0xFF, 0xFF]
  const BACK: seq<Byte> := [0xFF, 0xFF, 0xFF, 0xFF, 0x7F, 0xC5, 0x0D]
  const EXPECTED: seq<Byte> := FRONT + BACK

  lemma BackNumber()
    ensures |BACK| == 7 && Number(BACK) == 0xDC57FFFFFFFFF
  {
    hide Number;
    assert Number([]) == 0 by { NoNumber(); }
    var b15: seq<Byte> := [];
    var b14: seq<Byte> := [0x0D] + b15;
    NumberMore(0x0D, b15, 0x0);
    var b13: seq<Byte> := [0xC5] + b14;
    NumberMore(0xC5, b14, 0xD);
    var b12: seq<Byte> := [0x7F] + b13;
    NumberMore(0x7F, b13, 0xDC5);
    var b11: seq<Byte> := [0xFF] + b12;
    NumberMore(0xFF, b12, 0xDC57F);
    var b10: seq<Byte> := [0xFF] + b11;
    NumberMore(0xFF, b11, 0xDC57FFF);
    var b9: seq<Byte> := [0xFF] + b10;
    NumberMore(0xFF, b10, 0xDC57FFFFF);
    var b8: seq<Byte> := [0xFF] + b9;
    NumberMore(0xFF, b9, 0xDC57FFFFFFF);
    assert b8 == BACK;
  }

  lemma ExpectedNumber()
    ensures |EXPECTED| == 15 && Number(EXPECTED) == 0xDC57FFFFFFFFFFFFFB71B76785851
  {
    hide Number;
    BackNumber();
    var b8 := BACK;
    var b7: seq<Byte> := [0xFF] + b8;
    NumberMore(0xFF, b8, 0xDC57FFFFFFFFF);
    var b6: seq<Byte> := [0xFF] + b7;
    NumberMore(0xFF, b7, 0xDC57FFFFFFFFFFF);
    var b5: seq<Byte> := [0xB7] + b6;
    NumberMore(0xB7, b6, 0xDC57FFFFFFFFFFFFF);
    var b4: seq<Byte> := [0x1B] + b5;
    NumberMore(0x1B, b5, 0xDC57FFFFFFFFFFFFFB7);
    var b3: seq<Byte> := [0x76] + b4;
    NumberMore(0x76, b4, 0xDC57FFFFFFFFFFFFFB71B);
    var b2: seq<Byte> := [0x78] + b3;
    NumberMore(0x78, b3, 0xDC57FFFFFFFFFFFFFB71B76);
    var b1: seq<Byte> := [0x58] + b2;
    NumberMore(0x58, b2, 0xDC57FFFFFFFFFFFFFB71B7678);
    var b0: seq<Byte> := [0x51] + b1;
    NumberMore(0x51, b1, 0xDC57FFFFFFFFFFFFFB71B767858);
    assert b0 == EXPECTED;
  }

  lemma NoNumber()
    ensures Number([]) == 0
  {
  }

  lemma {:induction false} NumberIsOnly(a: seq<Byte>, b: seq<Byte>)
    requires |a| == |b| && Number(a) == Number(b)
    ensures a == b
  {
    if a != [] {
      var x, y, u, v := a[0], b[0], Number(a[1..]), Number(b[1..]);
      assert x + 256 * u == y + 256 * v;
      NumberIsOnly(a[1..], b[1..]);
      assert a == [x] + a[1..] && b == [y] + b[1..];
    }
  }

  /** What every implementation makes of that message. */
  method CompressionCompatible(net: CNetBase, compressed: array<Byte>) returns (size: int)
    requires net.Valid() && compressed.Length >= 15
    modifies compressed
    ensures size == 15 && compressed[..size] == EXPECTED
  {
    hide CodesOf, FreqTable, Encoded, EncodedLength, Number, Message;
    MessageEncoded(net.huffman.codes);
    ExpectedNumber();
    size := net.Compress(Message(), compressed, compressed.Length);
    NumberIsOnly(compressed[..size], EXPECTED);
  }
}
