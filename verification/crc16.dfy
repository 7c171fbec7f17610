/** The table-driven CRC-16 that NSMBe5 uses for the NDS header checksum
    (taken from ndstool): reflected polynomial 0xA001, initial value 0xFFFF,
    no final XOR -- the parameter set catalogued as CRC-16/MODBUS. */
module Crc16 {
  import opened Common

  // The source's 256-entry table, printed eight entries per row; it is held
  // here as four blocks of eight rows so that the verifier can index it.
  const CRC16_BLOCK0: seq<seq<bv16>> := [
    [0x0000, 0xC0C1, 0xC181, 0x0140, 0xC301, 0x03C0, 0x0280, 0xC241],
    [0xC601, 0x06C0, 0x0780, 0xC741, 0x0500, 0xC5C1, 0xC481, 0x0440],
    [0xCC01, 0x0CC0, 0x0D80, 0xCD41, 0x0F00, 0xCFC1, 0xCE81, 0x0E40],
    [0x0A00, 0xCAC1, 0xCB81, 0x0B40, 0xC901, 0x09C0, 0x0880, 0xC841],
    [0xD801, 0x18C0, 0x1980, 0xD941, 0x1B00, 0xDBC1, 0xDA81, 0x1A40],
    [0x1E00, 0xDEC1, 0xDF81, 0x1F40, 0xDD01, 0x1DC0, 0x1C80, 0xDC41],
    [0x1400, 0xD4C1, 0xD581, 0x1540, 0xD701, 0x17C0, 0x1680, 0xD641],
    [0xD201, 0x12C0, 0x1380, 0xD341, 0x1100, 0xD1C1, 0xD081, 0x1040]
  ]
  const CRC16_BLOCK1: seq<seq<bv16>> := [
    [0xF001, 0x30C0, 0x3180, 0xF141, 0x3300, 0xF3C1, 0xF281, 0x3240],
    [0x3600, 0xF6C1, 0xF781, 0x3740, 0xF501, 0x35C0, 0x3480, 0xF441],
    [0x3C00, 0xFCC1, 0xFD81, 0x3D40, 0xFF01, 0x3FC0, 0x3E80, 0xFE41],
    [0xFA01, 0x3AC0, 0x3B80, 0xFB41, 0x3900, 0xF9C1, 0xF881, 0x3840],
    [0x2800, 0xE8C1, 0xE981, 0x2940, 0xEB01, 0x2BC0, 0x2A80, 0xEA41],
    [0xEE01, 0x2EC0, 0x2F80, 0xEF41, 0x2D00, 0xEDC1, 0xEC81, 0x2C40],
    [0xE401, 0x24C0, 0x2580, 0xE541, 0x2700, 0xE7C1, 0xE681, 0x2640],
    [0x2200, 0xE2C1, 0xE381, 0x2340, 0xE101, 0x21C0, 0x2080, 0xE041]
  ]
  const CRC16_BLOCK2: seq<seq<bv16>> := [
    [0xA001, 0x60C0, 0x6180, 0xA141, 0x6300, 0xA3C1, 0xA281, 0x6240],
    [0x6600, 0xA6C1, 0xA781, 0x6740, 0xA501, 0x65C0, 0x6480, 0xA441],
    [0x6C00, 0xACC1, 0xAD81, 0x6D40, 0xAF01, 0x6FC0, 0x6E80, 0xAE41],
    [0xAA01, 0x6AC0, 0x6B80, 0xAB41, 0x6900, 0xA9C1, 0xA881, 0x6840],
    [0x7800, 0xB8C1, 0xB981, 0x7940, 0xBB01, 0x7BC0, 0x7A80, 0xBA41],
    [0xBE01, 0x7EC0, 0x7F80, 0xBF41, 0x7D00, 0xBDC1, 0xBC81, 0x7C40],
    [0xB401, 0x74C0, 0x7580, 0xB541, 0x7700, 0xB7C1, 0xB681, 0x7640],
    [0x7200, 0xB2C1, 0xB381, 0x7340, 0xB101, 0x71C0, 0x7080, 0xB041]
  ]
  const CRC16_BLOCK3: seq<seq<bv16>> := [
    [0x5000, 0x90C1, 0x9181, 0x5140, 0x9301, 0x53C0, 0x5280, 0x9241],
    [0x9601, 0x56C0, 0x5780, 0x9741, 0x5500, 0x95C1, 0x9481, 0x5440],
    [0x9C01, 0x5CC0, 0x5D80, 0x9D41, 0x5F00, 0x9FC1, 0x9E81, 0x5E40],
    [0x5A00, 0x9AC1, 0x9B81, 0x5B40, 0x9901, 0x59C0, 0x5880, 0x9841],
    [0x8801, 0x48C0, 0x4980, 0x8941, 0x4B00, 0x8BC1, 0x8A81, 0x4A40],
    [0x4E00, 0x8EC1, 0x8F81, 0x4F40, 0x8D01, 0x4DC0, 0x4C80, 0x8C41],
    [0x4400, 0x84C1, 0x8581, 0x4540, 0x8701, 0x47C0, 0x4680, 0x8641],
    [0x8201, 0x42C0, 0x4380, 0x8341, 0x4100, 0x81C1, 0x8081, 0x4040]
  ]

  /** Entry `k` of the table. */
  function TableEntry(k: bv16): bv16
    requires k < 256
  {
    var row := (k >> 3) as int;
    var col := (k & 7) as int;
    if row < 8 then CRC16_BLOCK0[row][col]
    else if row < 16 then CRC16_BLOCK1[row - 8][col]
    else if row < 24 then CRC16_BLOCK2[row - 16][col]
    else CRC16_BLOCK3[row - 24][col]
  }

  /** One round of the bit-serial reflected CRC: shift right, folding in the
      polynomial 0xA001 when a one drops out. */
  function ShiftRound(c: bv16): bv16 {
    (c >> 1) ^ ((0 - (c & 1)) & 0xA001)
  }

  /** Eight rounds: what the table entry for a byte must be. */
  function Entry(c: bv16): bv16 {
    ShiftRound(ShiftRound(ShiftRound(ShiftRound(ShiftRound(ShiftRound(ShiftRound(ShiftRound(c))))))))
  }

  lemma TableRow0()
    ensures forall k: bv16 :: k < 8 ==> TableEntry(k) == Entry(k)
  {
    assert CRC16_BLOCK0[0][0] == Entry(0);
    assert CRC16_BLOCK0[0][1] == Entry(1);
    assert CRC16_BLOCK0[0][2] == Entry(2);
    assert CRC16_BLOCK0[0][3] == Entry(3);
    assert CRC16_BLOCK0[0][4] == Entry(4);
    assert CRC16_BLOCK0[0][5] == Entry(5);
    assert CRC16_BLOCK0[0][6] == Entry(6);
    assert CRC16_BLOCK0[0][7] == Entry(7);
  }

  lemma TableRow1()
    ensures forall k: bv16 :: 8 <= k < 16 ==> TableEntry(k) == Entry(k)
  {
    assert CRC16_BLOCK0[1][0] == Entry(8);
    assert CRC16_BLOCK0[1][1] == Entry(9);
    assert CRC16_BLOCK0[1][2] == Entry(10);
    assert CRC16_BLOCK0[1][3] == Entry(11);
    assert CRC16_BLOCK0[1][4] == Entry(12);
    assert CRC16_BLOCK0[1][5] == Entry(13);
    assert CRC16_BLOCK0[1][6] == Entry(14);
    assert CRC16_BLOCK0[1][7] == Entry(15);
  }

  lemma TableRow2()
    ensures forall k: bv16 :: 16 <= k < 24 ==> TableEntry(k) == Entry(k)
  {
    assert CRC16_BLOCK0[2][0] == Entry(16);
    assert CRC16_BLOCK0[2][1] == Entry(17);
    assert CRC16_BLOCK0[2][2] == Entry(18);
    assert CRC16_BLOCK0[2][3] == Entry(19);
    assert CRC16_BLOCK0[2][4] == Entry(20);
    assert CRC16_BLOCK0[2][5] == Entry(21);
    assert CRC16_BLOCK0[2][6] == Entry(22);
    assert CRC16_BLOCK0[2][7] == Entry(23);
  }

  lemma TableRow3()
    ensures forall k: bv16 :: 24 <= k < 32 ==> TableEntry(k) == Entry(k)
  {
    assert CRC16_BLOCK0[3][0] == Entry(24);
    assert CRC16_BLOCK0[3][1] == Entry(25);
    assert CRC16_BLOCK0[3][2] == Entry(26);
    assert CRC16_BLOCK0[3][3] == Entry(27);
    assert CRC16_BLOCK0[3][4] == Entry(28);
    assert CRC16_BLOCK0[3][5] == Entry(29);
    assert CRC16_BLOCK0[3][6] == Entry(30);
    assert CRC16_BLOCK0[3][7] == Entry(31);
  }

  lemma TableRow4()
    ensures forall k: bv16 :: 32 <= k < 40 ==> TableEntry(k) == Entry(k)
  {
    assert CRC16_BLOCK0[4][0] == Entry(32);
    assert CRC16_BLOCK0[4][1] == Entry(33);
    assert CRC16_BLOCK0[4][2] == Entry(34);
    assert CRC16_BLOCK0[4][3] == Entry(35);
    assert CRC16_BLOCK0[4][4] == Entry(36);
    assert CRC16_BLOCK0[4][5] == Entry(37);
    assert CRC16_BLOCK0[4][6] == Entry(38);
    assert CRC16_BLOCK0[4][7] == Entry(39);
  }

  lemma TableRow5()
    ensures forall k: bv16 :: 40 <= k < 48 ==> TableEntry(k) == Entry(k)
  {
    assert CRC16_BLOCK0[5][0] == Entry(40);
    assert CRC16_BLOCK0[5][1] == Entry(41);
    assert CRC16_BLOCK0[5][2] == Entry(42);
    assert CRC16_BLOCK0[5][3] == Entry(43);
    assert CRC16_BLOCK0[5][4] == Entry(44);
    assert CRC16_BLOCK0[5][5] == Entry(45);
    assert CRC16_BLOCK0[5][6] == Entry(46);
    assert CRC16_BLOCK0[5][7] == Entry(47);
  }

  lemma TableRow6()
    ensures forall k: bv16 :: 48 <= k < 56 ==> TableEntry(k) == Entry(k)
  {
    assert CRC16_BLOCK0[6][0] == Entry(48);
    assert CRC16_BLOCK0[6][1] == Entry(49);
    assert CRC16_BLOCK0[6][2] == Entry(50);
    assert CRC16_BLOCK0[6][3] == Entry(51);
    assert CRC16_BLOCK0[6][4] == Entry(52);
    assert CRC16_BLOCK0[6][5] == Entry(53);
    assert CRC16_BLOCK0[6][6] == Entry(54);
    assert CRC16_BLOCK0[6][7] == Entry(55);
  }

  lemma TableRow7()
    ensures forall k: bv16 :: 56 <= k < 64 ==> TableEntry(k) == Entry(k)
  {
    assert CRC16_BLOCK0[7][0] == Entry(56);
    assert CRC16_BLOCK0[7][1] == Entry(57);
    assert CRC16_BLOCK0[7][2] == Entry(58);
    assert CRC16_BLOCK0[7][3] == Entry(59);
    assert CRC16_BLOCK0[7][4] == Entry(60);
    assert CRC16_BLOCK0[7][5] == Entry(61);
    assert CRC16_BLOCK0[7][6] == Entry(62);
    assert CRC16_BLOCK0[7][7] == Entry(63);
  }

  lemma TableRow8()
    ensures forall k: bv16 :: 64 <= k < 72 ==> TableEntry(k) == Entry(k)
  {
    assert CRC16_BLOCK1[0][0] == Entry(64);
    assert CRC16_BLOCK1[0][1] == Entry(65);
    assert CRC16_BLOCK1[0][2] == Entry(66);
    assert CRC16_BLOCK1[0][3] == Entry(67);
    assert CRC16_BLOCK1[0][4] == Entry(68);
    assert CRC16_BLOCK1[0][5] == Entry(69);
    assert CRC16_BLOCK1[0][6] == Entry(70);
    assert CRC16_BLOCK1[0][7] == Entry(71);
  }

  lemma TableRow9()
    ensures forall k: bv16 :: 72 <= k < 80 ==> TableEntry(k) == Entry(k)
  {
    assert CRC16_BLOCK1[1][0] == Entry(72);
    assert CRC16_BLOCK1[1][1] == Entry(73);
    assert CRC16_BLOCK1[1][2] == Entry(74);
    assert CRC16_BLOCK1[1][3] == Entry(75);
    assert CRC16_BLOCK1[1][4] == Entry(76);
    assert CRC16_BLOCK1[1][5] == Entry(77);
    assert CRC16_BLOCK1[1][6] == Entry(78);
    assert CRC16_BLOCK1[1][7] == Entry(79);
  }

  lemma TableRow10()
    ensures forall k: bv16 :: 80 <= k < 88 ==> TableEntry(k) == Entry(k)
  {
    assert CRC16_BLOCK1[2][0] == Entry(80);
    assert CRC16_BLOCK1[2][1] == Entry(81);
    assert CRC16_BLOCK1[2][2] == Entry(82);
    assert CRC16_BLOCK1[2][3] == Entry(83);
    assert CRC16_BLOCK1[2][4] == Entry(84);
    assert CRC16_BLOCK1[2][5] == Entry(85);
    assert CRC16_BLOCK1[2][6] == Entry(86);
    assert CRC16_BLOCK1[2][7] == Entry(87);
  }

  lemma TableRow11()
    ensures forall k: bv16 :: 88 <= k < 96 ==> TableEntry(k) == Entry(k)
  {
    assert CRC16_BLOCK1[3][0] == Entry(88);
    assert CRC16_BLOCK1[3][1] == Entry(89);
    assert CRC16_BLOCK1[3][2] == Entry(90);
    assert CRC16_BLOCK1[3][3] == Entry(91);
    assert CRC16_BLOCK1[3][4] == Entry(92);
    assert CRC16_BLOCK1[3][5] == Entry(93);
    assert CRC16_BLOCK1[3][6] == Entry(94);
    assert CRC16_BLOCK1[3][7] == Entry(95);
  }

  lemma TableRow12()
    ensures forall k: bv16 :: 96 <= k < 104 ==> TableEntry(k) == Entry(k)
  {
    assert CRC16_BLOCK1[4][0] == Entry(96);
    assert CRC16_BLOCK1[4][1] == Entry(97);
    assert CRC16_BLOCK1[4][2] == Entry(98);
    assert CRC16_BLOCK1[4][3] == Entry(99);
    assert CRC16_BLOCK1[4][4] == Entry(100);
    assert CRC16_BLOCK1[4][5] == Entry(101);
    assert CRC16_BLOCK1[4][6] == Entry(102);
    assert CRC16_BLOCK1[4][7] == Entry(103);
  }

  lemma TableRow13()
    ensures forall k: bv16 :: 104 <= k < 112 ==> TableEntry(k) == Entry(k)
  {
    assert CRC16_BLOCK1[5][0] == Entry(104);
    assert CRC16_BLOCK1[5][1] == Entry(105);
    assert CRC16_BLOCK1[5][2] == Entry(106);
    assert CRC16_BLOCK1[5][3] == Entry(107);
    assert CRC16_BLOCK1[5][4] == Entry(108);
    assert CRC16_BLOCK1[5][5] == Entry(109);
    assert CRC16_BLOCK1[5][6] == Entry(110);
    assert CRC16_BLOCK1[5][7] == Entry(111);
  }

  lemma TableRow14()
    ensures forall k: bv16 :: 112 <= k < 120 ==> TableEntry(k) == Entry(k)
  {
    assert CRC16_BLOCK1[6][0] == Entry(112);
    assert CRC16_BLOCK1[6][1] == Entry(113);
    assert CRC16_BLOCK1[6][2] == Entry(114);
    assert CRC16_BLOCK1[6][3] == Entry(115);
    assert CRC16_BLOCK1[6][4] == Entry(116);
    assert CRC16_BLOCK1[6][5] == Entry(117);
    assert CRC16_BLOCK1[6][6] == Entry(118);
    assert CRC16_BLOCK1[6][7] == Entry(119);
  }

  lemma TableRow15()
    ensures forall k: bv16 :: 120 <= k < 128 ==> TableEntry(k) == Entry(k)
  {
    assert CRC16_BLOCK1[7][0] == Entry(120);
    assert CRC16_BLOCK1[7][1] == Entry(121);
    assert CRC16_BLOCK1[7][2] == Entry(122);
    assert CRC16_BLOCK1[7][3] == Entry(123);
    assert CRC16_BLOCK1[7][4] == Entry(124);
    assert CRC16_BLOCK1[7][5] == Entry(125);
    assert CRC16_BLOCK1[7][6] == Entry(126);
    assert CRC16_BLOCK1[7][7] == Entry(127);
  }

  lemma TableRow16()
    ensures forall k: bv16 :: 128 <= k < 136 ==> TableEntry(k) == Entry(k)
  {
    assert CRC16_BLOCK2[0][0] == Entry(128);
    assert CRC16_BLOCK2[0][1] == Entry(129);
    assert CRC16_BLOCK2[0][2] == Entry(130);
    assert CRC16_BLOCK2[0][3] == Entry(131);
    assert CRC16_BLOCK2[0][4] == Entry(132);
    assert CRC16_BLOCK2[0][5] == Entry(133);
    assert CRC16_BLOCK2[0][6] == Entry(134);
    assert CRC16_BLOCK2[0][7] == Entry(135);
  }

  lemma TableRow17()
    ensures forall k: bv16 :: 136 <= k < 144 ==> TableEntry(k) == Entry(k)
  {
    assert CRC16_BLOCK2[1][0] == Entry(136);
    assert CRC16_BLOCK2[1][1] == Entry(137);
    assert CRC16_BLOCK2[1][2] == Entry(138);
    assert CRC16_BLOCK2[1][3] == Entry(139);
    assert CRC16_BLOCK2[1][4] == Entry(140);
    assert CRC16_BLOCK2[1][5] == Entry(141);
    assert CRC16_BLOCK2[1][6] == Entry(142);
    assert CRC16_BLOCK2[1][7] == Entry(143);
  }

  lemma TableRow18()
    ensures forall k: bv16 :: 144 <= k < 152 ==> TableEntry(k) == Entry(k)
  {
    assert CRC16_BLOCK2[2][0] == Entry(144);
    assert CRC16_BLOCK2[2][1] == Entry(145);
    assert CRC16_BLOCK2[2][2] == Entry(146);
    assert CRC16_BLOCK2[2][3] == Entry(147);
    assert CRC16_BLOCK2[2][4] == Entry(148);
    assert CRC16_BLOCK2[2][5] == Entry(149);
    assert CRC16_BLOCK2[2][6] == Entry(150);
    assert CRC16_BLOCK2[2][7] == Entry(151);
  }

  lemma TableRow19()
    ensures forall k: bv16 :: 152 <= k < 160 ==> TableEntry(k) == Entry(k)
  {
    assert CRC16_BLOCK2[3][0] == Entry(152);
    assert CRC16_BLOCK2[3][1] == Entry(153);
    assert CRC16_BLOCK2[3][2] == Entry(154);
    assert CRC16_BLOCK2[3][3] == Entry(155);
    assert CRC16_BLOCK2[3][4] == Entry(156);
    assert CRC16_BLOCK2[3][5] == Entry(157);
    assert CRC16_BLOCK2[3][6] == Entry(158);
    assert CRC16_BLOCK2[3][7] == Entry(159);
  }

  lemma TableRow20()
    ensures forall k: bv16 :: 160 <= k < 168 ==> TableEntry(k) == Entry(k)
  {
    assert CRC16_BLOCK2[4][0] == Entry(160);
    assert CRC16_BLOCK2[4][1] == Entry(161);
    assert CRC16_BLOCK2[4][2] == Entry(162);
    assert CRC16_BLOCK2[4][3] == Entry(163);
    assert CRC16_BLOCK2[4][4] == Entry(164);
    assert CRC16_BLOCK2[4][5] == Entry(165);
    assert CRC16_BLOCK2[4][6] == Entry(166);
    assert CRC16_BLOCK2[4][7] == Entry(167);
  }

  lemma TableRow21()
    ensures forall k: bv16 :: 168 <= k < 176 ==> TableEntry(k) == Entry(k)
  {
    assert CRC16_BLOCK2[5][0] == Entry(168);
    assert CRC16_BLOCK2[5][1] == Entry(169);
    assert CRC16_BLOCK2[5][2] == Entry(170);
    assert CRC16_BLOCK2[5][3] == Entry(171);
    assert CRC16_BLOCK2[5][4] == Entry(172);
    assert CRC16_BLOCK2[5][5] == Entry(173);
    assert CRC16_BLOCK2[5][6] == Entry(174);
    assert CRC16_BLOCK2[5][7] == Entry(175);
  }

  lemma TableRow22()
    ensures forall k: bv16 :: 176 <= k < 184 ==> TableEntry(k) == Entry(k)
  {
    assert CRC16_BLOCK2[6][0] == Entry(176);
    assert CRC16_BLOCK2[6][1] == Entry(177);
    assert CRC16_BLOCK2[6][2] == Entry(178);
    assert CRC16_BLOCK2[6][3] == Entry(179);
    assert CRC16_BLOCK2[6][4] == Entry(180);
    assert CRC16_BLOCK2[6][5] == Entry(181);
    assert CRC16_BLOCK2[6][6] == Entry(182);
    assert CRC16_BLOCK2[6][7] == Entry(183);
  }

  lemma TableRow23()
    ensures forall k: bv16 :: 184 <= k < 192 ==> TableEntry(k) == Entry(k)
  {
    assert CRC16_BLOCK2[7][0] == Entry(184);
    assert CRC16_BLOCK2[7][1] == Entry(185);
    assert CRC16_BLOCK2[7][2] == Entry(186);
    assert CRC16_BLOCK2[7][3] == Entry(187);
    assert CRC16_BLOCK2[7][4] == Entry(188);
    assert CRC16_BLOCK2[7][5] == Entry(189);
    assert CRC16_BLOCK2[7][6] == Entry(190);
    assert CRC16_BLOCK2[7][7] == Entry(191);
  }

  lemma TableRow24()
    ensures forall k: bv16 :: 192 <= k < 200 ==> TableEntry(k) == Entry(k)
  {
    assert CRC16_BLOCK3[0][0] == Entry(192);
    assert CRC16_BLOCK3[0][1] == Entry(193);
    assert CRC16_BLOCK3[0][2] == Entry(194);
    assert CRC16_BLOCK3[0][3] == Entry(195);
    assert CRC16_BLOCK3[0][4] == Entry(196);
    assert CRC16_BLOCK3[0][5] == Entry(197);
    assert CRC16_BLOCK3[0][6] == Entry(198);
    assert CRC16_BLOCK3[0][7] == Entry(199);
  }

  lemma TableRow25()
    ensures forall k: bv16 :: 200 <= k < 208 ==> TableEntry(k) == Entry(k)
  {
    assert CRC16_BLOCK3[1][0] == Entry(200);
    assert CRC16_BLOCK3[1][1] == Entry(201);
    assert CRC16_BLOCK3[1][2] == Entry(202);
    assert CRC16_BLOCK3[1][3] == Entry(203);
    assert CRC16_BLOCK3[1][4] == Entry(204);
    assert CRC16_BLOCK3[1][5] == Entry(205);
    assert CRC16_BLOCK3[1][6] == Entry(206);
    assert CRC16_BLOCK3[1][7] == Entry(207);
  }

  lemma TableRow26()
    ensures forall k: bv16 :: 208 <= k < 216 ==> TableEntry(k) == Entry(k)
  {
    assert CRC16_BLOCK3[2][0] == Entry(208);
    assert CRC16_BLOCK3[2][1] == Entry(209);
    assert CRC16_BLOCK3[2][2] == Entry(210);
    assert CRC16_BLOCK3[2][3] == Entry(211);
    assert CRC16_BLOCK3[2][4] == Entry(212);
    assert CRC16_BLOCK3[2][5] == Entry(213);
    assert CRC16_BLOCK3[2][6] == Entry(214);
    assert CRC16_BLOCK3[2][7] == Entry(215);
  }

  lemma TableRow27()
    ensures forall k: bv16 :: 216 <= k < 224 ==> TableEntry(k) == Entry(k)
  {
    assert CRC16_BLOCK3[3][0] == Entry(216);
    assert CRC16_BLOCK3[3][1] == Entry(217);
    assert CRC16_BLOCK3[3][2] == Entry(218);
    assert CRC16_BLOCK3[3][3] == Entry(219);
    assert CRC16_BLOCK3[3][4] == Entry(220);
    assert CRC16_BLOCK3[3][5] == Entry(221);
    assert CRC16_BLOCK3[3][6] == Entry(222);
    assert CRC16_BLOCK3[3][7] == Entry(223);
  }

  lemma TableRow28()
    ensures forall k: bv16 :: 224 <= k < 232 ==> TableEntry(k) == Entry(k)
  {
    assert CRC16_BLOCK3[4][0] == Entry(224);
    assert CRC16_BLOCK3[4][1] == Entry(225);
    assert CRC16_BLOCK3[4][2] == Entry(226);
    assert CRC16_BLOCK3[4][3] == Entry(227);
    assert CRC16_BLOCK3[4][4] == Entry(228);
    assert CRC16_BLOCK3[4][5] == Entry(229);
    assert CRC16_BLOCK3[4][6] == Entry(230);
    assert CRC16_BLOCK3[4][7] == Entry(231);
  }

  lemma TableRow29()
    ensures forall k: bv16 :: 232 <= k < 240 ==> TableEntry(k) == Entry(k)
  {
    assert CRC16_BLOCK3[5][0] == Entry(232);
    assert CRC16_BLOCK3[5][1] == Entry(233);
    assert CRC16_BLOCK3[5][2] == Entry(234);
    assert CRC16_BLOCK3[5][3] == Entry(235);
    assert CRC16_BLOCK3[5][4] == Entry(236);
    assert CRC16_BLOCK3[5][5] == Entry(237);
    assert CRC16_BLOCK3[5][6] == Entry(238);
    assert CRC16_BLOCK3[5][7] == Entry(239);
  }

  lemma TableRow30()
    ensures forall k: bv16 :: 240 <= k < 248 ==> TableEntry(k) == Entry(k)
  {
    assert CRC16_BLOCK3[6][0] == Entry(240);
    assert CRC16_BLOCK3[6][1] == Entry(241);
    assert CRC16_BLOCK3[6][2] == Entry(242);
    assert CRC16_BLOCK3[6][3] == Entry(243);
    assert CRC16_BLOCK3[6][4] == Entry(244);
    assert CRC16_BLOCK3[6][5] == Entry(245);
    assert CRC16_BLOCK3[6][6] == Entry(246);
    assert CRC16_BLOCK3[6][7] == Entry(247);
  }

  lemma TableRow31()
    ensures forall k: bv16 :: 248 <= k < 256 ==> TableEntry(k) == Entry(k)
  {
    assert CRC16_BLOCK3[7][0] == Entry(248);
    assert CRC16_BLOCK3[7][1] == Entry(249);
    assert CRC16_BLOCK3[7][2] == Entry(250);
    assert CRC16_BLOCK3[7][3] == Entry(251);
    assert CRC16_BLOCK3[7][4] == Entry(252);
    assert CRC16_BLOCK3[7][5] == Entry(253);
    assert CRC16_BLOCK3[7][6] == Entry(254);
    assert CRC16_BLOCK3[7][7] == Entry(255);
  }

  /** Every entry of the table is the bit-serial CRC of its index, so the
      table is the one the polynomial 0xA001 generates. The 256 entries are
      checked eight at a time by the `TableRow` lemmas, so that each proof
      unfolds only a few table lookups and `Entry` computations. */
  lemma TableIsGenerated()
    ensures forall k: bv16 :: 0 <= k < 256 ==> TableEntry(k) == Entry(k)
  {
    TableRow0();
    TableRow1();
    TableRow2();
    TableRow3();
    TableRow4();
    TableRow5();
    TableRow6();
    TableRow7();
    TableRow8();
    TableRow9();
    TableRow10();
    TableRow11();
    TableRow12();
    TableRow13();
    TableRow14();
    TableRow15();
    TableRow16();
    TableRow17();
    TableRow18();
    TableRow19();
    TableRow20();
    TableRow21();
    TableRow22();
    TableRow23();
    TableRow24();
    TableRow25();
    TableRow26();
    TableRow27();
    TableRow28();
    TableRow29();
    TableRow30();
    TableRow31();
  }

  /** The source's update `crc = (crc >> 8) ^ table[(crc ^ b) & 0xFF]`. */
  function Step(crc: bv16, b: uint8): bv16 {
    (crc >> 8) ^ TableEntry((crc ^ (b as bv16)) & 0xFF)
  }

  /** Folds the bytes of `data`, first to last, into the running CRC `crc`. */
  function Fold(crc: bv16, data: bytes): bv16
    decreases |data|
  {
    if |data| == 0 then crc else Fold(Step(crc, data[0]), data[1..])
  }

  /** `CalcCRC16`: the fold from 0xFFFF, with no final XOR. It is the
      bit-serial CRC-16/MODBUS of the data. */
  function CalcCRC16(data: bytes): (r: uint16)
    ensures |data| == 0 ==> r == 0xFFFF
    ensures r == BitwiseCrc(0xFFFF, data) as int
  {
    FoldIsBitwise(0xFFFF, data);
    Fold(0xFFFF, data) as int
  }

  /** The bit-serial CRC step: XOR the byte in, then eight shift rounds. */
  function BitwiseStep(crc: bv16, b: uint8): bv16 {
    Entry(crc ^ (b as bv16))
  }

  /** The CRC computed bit by bit, with no table. */
  function BitwiseCrc(crc: bv16, data: bytes): bv16
    decreases |data|
  {
    if |data| == 0 then crc else BitwiseCrc(BitwiseStep(crc, data[0]), data[1..])
  }

  /** Eight shift rounds move the high byte down untouched and act on the
      low byte alone, which is why one table lookup per byte suffices. */
  lemma RoundsSplit(c: bv16)
    ensures Entry(c) == (c >> 8) ^ Entry(c & 0xFF)
  {
  }

  /** The table-driven step agrees with the bit-serial step on every input. */
  lemma StepIsBitwise(crc: bv16, b: uint8)
    ensures Step(crc, b) == BitwiseStep(crc, b)
  {
    var x := crc ^ (b as bv16);
    TableEntryIsEntry(x & 0xFF);
    RoundsSplit(x);
    HighByteKept(crc, b);
  }

  /** One entry of the table, as `TableIsGenerated` gives it. */
  lemma TableEntryIsEntry(k: bv16)
    requires k < 256
    ensures TableEntry(k) == Entry(k)
  {
    TableIsGenerated();
  }

  /** XOR-ing in a byte leaves the high byte alone. */
  lemma HighByteKept(crc: bv16, b: uint8)
    ensures (crc ^ (b as bv16)) >> 8 == crc >> 8
  {
    assert (b as bv16) >> 8 == 0;
  }

  /** The table-driven CRC equals the bit-serial CRC of the polynomial 0xA001
      for every input and every starting value. */
  lemma {:induction false} FoldIsBitwise(crc: bv16, data: bytes)
    ensures Fold(crc, data) == BitwiseCrc(crc, data)
    decreases |data|
  {
    if |data| > 0 {
      StepIsBitwise(crc, data[0]);
      FoldIsBitwise(Step(crc, data[0]), data[1..]);
    }
  }

  /** Appending one byte is one more step. */
  lemma {:induction false} FoldSnoc(crc: bv16, a: bytes, b: uint8)
    ensures Fold(crc, a + [b]) == Step(Fold(crc, a), b)
    decreases |a|
  {
    if |a| > 0 {
      assert (a + [b])[1..] == a[1..] + [b];
      FoldSnoc(Step(crc, a[0]), a[1..], b);
    }
  }

  /** The CRC of a concatenation is the CRC of the second part started from
      the CRC of the first, so a buffer can be checksummed in pieces. */
  lemma {:induction false} FoldAppend(crc: bv16, a: bytes, b: bytes)
    ensures Fold(crc, a + b) == Fold(Fold(crc, a), b)
    decreases |a|
  {
    if |a| > 0 {
      assert (a + b)[1..] == a[1..] + b;
      FoldAppend(Step(crc, a[0]), a[1..], b);
    } else {
      assert a + b == b;
    }
  }

  /** The steps the check value below goes through, evaluated bit by bit. */
  lemma CheckSteps0()
    ensures
      Step(0xFFFF, 0x31) == 0x947E &&
      Step(0x947E, 0x32) == 0xF595 &&
      Step(0xF595, 0x33) == 0x7A75
  {
    StepIsBitwise(0xFFFF, 0x31);
    StepIsBitwise(0x947E, 0x32);
    StepIsBitwise(0xF595, 0x33);
  }

  lemma CheckSteps1()
    ensures
      Step(0x7A75, 0x34) == 0x30BA &&
      Step(0x30BA, 0x35) == 0xA471 &&
      Step(0xA471, 0x36) == 0x32E4
  {
    StepIsBitwise(0x7A75, 0x34);
    StepIsBitwise(0x30BA, 0x35);
    StepIsBitwise(0xA471, 0x36);
  }

  lemma CheckSteps2()
    ensures
      Step(0x32E4, 0x37) == 0x9D73 &&
      Step(0x9D73, 0x38) == 0x37DD &&
      Step(0x37DD, 0x39) == 0x4B37
  {
    StepIsBitwise(0x32E4, 0x37);
    StepIsBitwise(0x9D73, 0x38);
    StepIsBitwise(0x37DD, 0x39);
  }

  /** The standard check value: the CRC of the ASCII digits "123456789" is
      0x4B37 for the CRC-16/MODBUS parameters. */
  lemma CheckValue()
    ensures CalcCRC16([0x31, 0x32, 0x33, 0x34, 0x35, 0x36, 0x37, 0x38, 0x39]) == 0x4B37
  {
    var s: bytes := [0x31, 0x32, 0x33, 0x34, 0x35, 0x36, 0x37, 0x38, 0x39];
    CheckSteps0();
    CheckSteps1();
    CheckSteps2();
    assert Fold(0x4B37, s[9..]) == 0x4B37;
    assert Fold(0x37DD, s[8..]) == 0x4B37 by { assert s[8..][1..] == s[9..]; }
    assert Fold(0x9D73, s[7..]) == 0x4B37 by { assert s[7..][1..] == s[8..]; }
    assert Fold(0x32E4, s[6..]) == 0x4B37 by { assert s[6..][1..] == s[7..]; }
    assert Fold(0xA471, s[5..]) == 0x4B37 by { assert s[5..][1..] == s[6..]; }
    assert Fold(0x30BA, s[4..]) == 0x4B37 by { assert s[4..][1..] == s[5..]; }
    assert Fold(0x7A75, s[3..]) == 0x4B37 by { assert s[3..][1..] == s[4..]; }
    assert Fold(0xF595, s[2..]) == 0x4B37 by { assert s[2..][1..] == s[3..]; }
    assert Fold(0x947E, s[1..]) == 0x4B37 by { assert s[1..][1..] == s[2..]; }
    assert Fold(0xFFFF, s[0..]) == 0x4B37 by { assert s[0..][1..] == s[1..]; }
    assert s[0..] == s;
  }
}
