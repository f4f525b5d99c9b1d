/** The field modulus 2^31 - 1 and the proof that every nonzero residue modulo it
    is invertible, which is what Lagrange interpolation needs.

    The proof is Lucas' primality test with the primitive root 7: 7^(P-1) = 1 and
    7^((P-1)/q) != 1 for every prime q dividing P - 1 = 2 * 3^2 * 7 * 11 * 31 * 151 * 331.
    From it, the powers 7^0 .. 7^(P-2) are P - 1 distinct nonzero residues, so they are
    all of them, and the inverse of 7^i is 7^(P-1-i). */
module Primality {
  import opened Arith

  /** The modulus `PRIME` of the Go program: 2^31 - 1. */
  const Prime: int := 2147483647
  const Root: int := 7
  /** P - 1, the order of the multiplicative group. */
  const Order: int := 2147483646

  /** b^n reduced modulo Prime after every multiplication. */
  function Pow(b: int, n: nat): (r: int)
    ensures 0 <= r < Prime
  {
    if n == 0 then 1 else (b * Pow(b, n - 1)) % Prime
  }

  lemma {:induction false} PowAdd(b: int, i: nat, j: nat)
    ensures Pow(b, i + j) == (Pow(b, i) * Pow(b, j)) % Prime
    decreases i
  {
    if i > 0 {
      PowAdd(b, i - 1, j);
      assert i + j - 1 == (i - 1) + j;
      MulModAssoc(b, Pow(b, i - 1), Pow(b, j), Prime);
    }
  }

  lemma {:induction false} PowMul(b: int, i: nat, j: nat)
    ensures i * j >= 0
    ensures Pow(b, i * j) == Pow(Pow(b, i), j)
    decreases j
  {
    if j > 0 {
      PowMul(b, i, j - 1);
      assert i * j == i * (j - 1) + i;
      PowAdd(b, i * (j - 1), i);
      assert Pow(b, i) * Pow(Pow(b, i), j - 1) == Pow(Pow(b, i), j - 1) * Pow(b, i);
    }
  }

  lemma {:induction false} PowOfOne(j: nat)
    ensures Pow(1, j) == 1
  {
    if j > 0 {
      PowOfOne(j - 1);
    }
  }

  /** One squaring step of a power computation; the caller supplies the quotient
      so that the remainder is checked by linear arithmetic. */
  lemma PowSquare(e: nat, v: int, q: int, r: int)
    requires Pow(Root, e) == v && v * v == Prime * q + r && 0 <= r < Prime
    ensures Pow(Root, 2 * e) == r
  {
    PowAdd(Root, e, e);
    DivModUnique(v * v, Prime, q, r);
  }

  /** One multiplication step of a power computation. */
  lemma PowStep(e: nat, v: int, q: int, r: int)
    requires Pow(Root, e) == v && Root * v == Prime * q + r && 0 <= r < Prime
    ensures Pow(Root, e + 1) == r
  {
    DivModUnique(Root * v, Prime, q, r);
  }

  /** 7^(P-1) = 1 (mod P). */
  lemma RootToOrder()
    ensures Pow(Root, 2147483646) == 1
  {
    PowStep(0, 1, 0, 7);
    PowSquare(1, 7, 0, 49);
    PowStep(2, 49, 0, 343);
    PowSquare(3, 343, 0, 117649);
    PowStep(6, 117649, 0, 823543);
    PowSquare(7, 823543, 315, 1765724044);
    PowStep(14, 1765724044, 5, 1622650073);
    PowSquare(15, 1622650073, 1226083031, 470211272);
    PowStep(30, 470211272, 1, 1143995257);
    PowSquare(31, 1143995257, 609422637, 969378910);
    PowStep(62, 969378910, 3, 343201429);
    PowSquare(63, 343201429, 54848948, 1982488685);
    PowStep(126, 1982488685, 6, 992518913);
    PowSquare(127, 992518913, 458720043, 1769064748);
    PowStep(254, 1769064748, 5, 1646035001);
    PowSquare(255, 1646035001, 1261677232, 1004844897);
    PowStep(510, 1004844897, 3, 591463338);
    PowSquare(511, 591463338, 162901766, 1645681642);
    PowStep(1022, 1645681642, 5, 782353259);
    PowSquare(1023, 782353259, 285020387, 1723809692);
    PowStep(2046, 1723809692, 5, 1329249609);
    PowSquare(2047, 1329249609, 822779035, 269712236);
    PowStep(4094, 269712236, 0, 1887985652);
    PowSquare(4095, 1887985652, 1659844919, 2049325511);
    PowStep(8190, 2049325511, 6, 1460376695);
    PowSquare(8191, 1460376695, 993115870, 897945135);
    PowStep(16382, 897945135, 2, 1990648651);
    PowSquare(16383, 1990648651, 1845267626, 554607779);
    PowStep(32766, 554607779, 1, 1734770806);
    PowSquare(32767, 1734770806, 1401374931, 1711636279);
    PowStep(65534, 1711636279, 5, 1244035718);
    PowSquare(65535, 1244035718, 720668988, 1029736288);
    PowStep(131070, 1029736288, 3, 765703075);
    PowSquare(131071, 765703075, 273017771, 501564788);
    PowStep(262142, 501564788, 1, 1363469869);
    PowSquare(262143, 1363469869, 865687655, 1148599376);
    PowStep(524286, 1148599376, 3, 1597744691);
    PowSquare(524287, 1597744691, 1188734592, 675468457);
    PowStep(1048574, 675468457, 2, 433311905);
    PowSquare(1048575, 433311905, 87432194, 178397507);
    PowStep(2097150, 178397507, 0, 1248782549);
    PowSquare(2097151, 1248782549, 726179152, 974610057);
    PowStep(4194302, 974610057, 3, 379819458);
    PowSquare(4194303, 379819458, 67177610, 1755870094);
    PowStep(8388606, 1755870094, 5, 1553672423);
    PowSquare(8388607, 1553672423, 1124058849, 1497548626);
    PowStep(16777214, 1497548626, 4, 1892905794);
    PowSquare(16777215, 1892905794, 1668507394, 1445184518);
    PowStep(33554430, 1445184518, 4, 1526357038);
    PowSquare(33554431, 1526357038, 1084881745, 1135809429);
    PowStep(67108862, 1135809429, 3, 1508215062);
    PowSquare(67108863, 1508215062, 1059245632, 367483940);
    PowStep(134217726, 367483940, 1, 424903933);
    PowSquare(134217727, 424903933, 84072049, 1881585786);
    PowStep(268435454, 1881585786, 6, 286198620);
    PowSquare(268435455, 286198620, 38142153, 261032409);
    PowStep(536870910, 261032409, 0, 1827226863);
    PowSquare(536870911, 1827226863, 1554730353, 306783378);
    PowStep(1073741822, 306783378, 0, 2147483646);
    PowSquare(1073741823, 2147483646, 2147483645, 1);
  }

  /** 7^((P-1)/2) is not 1 (mod P). */
  lemma RootToOrderOver2()
    ensures Pow(Root, 1073741823) == 2147483646
  {
    PowStep(0, 1, 0, 7);
    PowSquare(1, 7, 0, 49);
    PowStep(2, 49, 0, 343);
    PowSquare(3, 343, 0, 117649);
    PowStep(6, 117649, 0, 823543);
    PowSquare(7, 823543, 315, 1765724044);
    PowStep(14, 1765724044, 5, 1622650073);
    PowSquare(15, 1622650073, 1226083031, 470211272);
    PowStep(30, 470211272, 1, 1143995257);
    PowSquare(31, 1143995257, 609422637, 969378910);
    PowStep(62, 969378910, 3, 343201429);
    PowSquare(63, 343201429, 54848948, 1982488685);
    PowStep(126, 1982488685, 6, 992518913);
    PowSquare(127, 992518913, 458720043, 1769064748);
    PowStep(254, 1769064748, 5, 1646035001);
    PowSquare(255, 1646035001, 1261677232, 1004844897);
    PowStep(510, 1004844897, 3, 591463338);
    PowSquare(511, 591463338, 162901766, 1645681642);
    PowStep(1022, 1645681642, 5, 782353259);
    PowSquare(1023, 782353259, 285020387, 1723809692);
    PowStep(2046, 1723809692, 5, 1329249609);
    PowSquare(2047, 1329249609, 822779035, 269712236);
    PowStep(4094, 269712236, 0, 1887985652);
    PowSquare(4095, 1887985652, 1659844919, 2049325511);
    PowStep(8190, 2049325511, 6, 1460376695);
    PowSquare(8191, 1460376695, 993115870, 897945135);
    PowStep(16382, 897945135, 2, 1990648651);
    PowSquare(16383, 1990648651, 1845267626, 554607779);
    PowStep(32766, 554607779, 1, 1734770806);
    PowSquare(32767, 1734770806, 1401374931, 1711636279);
    PowStep(65534, 1711636279, 5, 1244035718);
    PowSquare(65535, 1244035718, 720668988, 1029736288);
    PowStep(131070, 1029736288, 3, 765703075);
    PowSquare(131071, 765703075, 273017771, 501564788);
    PowStep(262142, 501564788, 1, 1363469869);
    PowSquare(262143, 1363469869, 865687655, 1148599376);
    PowStep(524286, 1148599376, 3, 1597744691);
    PowSquare(524287, 1597744691, 1188734592, 675468457);
    PowStep(1048574, 675468457, 2, 433311905);
    PowSquare(1048575, 433311905, 87432194, 178397507);
    PowStep(2097150, 178397507, 0, 1248782549);
    PowSquare(2097151, 1248782549, 726179152, 974610057);
    PowStep(4194302, 974610057, 3, 379819458);
    PowSquare(4194303, 379819458, 67177610, 1755870094);
    PowStep(8388606, 1755870094, 5, 1553672423);
    PowSquare(8388607, 1553672423, 1124058849, 1497548626);
    PowStep(16777214, 1497548626, 4, 1892905794);
    PowSquare(16777215, 1892905794, 1668507394, 1445184518);
    PowStep(33554430, 1445184518, 4, 1526357038);
    PowSquare(33554431, 1526357038, 1084881745, 1135809429);
    PowStep(67108862, 1135809429, 3, 1508215062);
    PowSquare(67108863, 1508215062, 1059245632, 367483940);
    PowStep(134217726, 367483940, 1, 424903933);
    PowSquare(134217727, 424903933, 84072049, 1881585786);
    PowStep(268435454, 1881585786, 6, 286198620);
    PowSquare(268435455, 286198620, 38142153, 261032409);
    PowStep(536870910, 261032409, 0, 1827226863);
    PowSquare(536870911, 1827226863, 1554730353, 306783378);
    PowStep(1073741822, 306783378, 0, 2147483646);
  }

  /** 7^((P-1)/3) is not 1 (mod P). */
  lemma RootToOrderOver3()
    ensures Pow(Root, 715827882) == 1513477735
  {
    PowStep(0, 1, 0, 7);
    PowSquare(1, 7, 0, 49);
    PowSquare(2, 49, 0, 2401);
    PowStep(4, 2401, 0, 16807);
    PowSquare(5, 16807, 0, 282475249);
    PowSquare(10, 282475249, 37156169, 984943658);
    PowStep(20, 984943658, 3, 452154665);
    PowSquare(21, 452154665, 95201582, 567732671);
    PowSquare(42, 567732671, 150092125, 1739814366);
    PowStep(84, 1739814366, 5, 1441282327);
    PowSquare(85, 1441282327, 967315746, 101929267);
    PowSquare(170, 101929267, 4838023, 194847408);
    PowStep(340, 194847408, 0, 1363931856);
    PowSquare(341, 1363931856, 866274399, 2144351583);
    PowSquare(682, 2144351583, 2141224087, 119600600);
    PowStep(1364, 119600600, 0, 837204200);
    PowSquare(1365, 837204200, 326387059, 702715827);
    PowSquare(2730, 702715827, 229947983, 363159928);
    PowStep(5460, 363159928, 1, 394635849);
    PowSquare(5461, 394635849, 72520903, 57777560);
    PowSquare(10922, 57777560, 1554492, 290161276);
    PowStep(21844, 290161276, 0, 2031128932);
    PowSquare(21845, 2031128932, 1921078534, 2039727126);
    PowSquare(43690, 2039727126, 1937377616, 116374324);
    PowStep(87380, 116374324, 0, 814620268);
    PowSquare(87381, 814620268, 309015708, 1440264748);
    PowSquare(174762, 1440264748, 965950333, 399799053);
    PowStep(349524, 399799053, 1, 651109724);
    PowSquare(349525, 651109724, 197414249, 1275070073);
    PowSquare(699050, 1275070073, 757073840, 88730849);
    PowStep(1398100, 88730849, 0, 621115943);
    PowSquare(1398101, 621115943, 179645146, 1350851787);
    PowSquare(2796202, 1350851787, 849738973, 1705018838);
    PowStep(5592404, 1705018838, 5, 1197713631);
    PowSquare(5592405, 1197713631, 667999471, 1706053424);
    PowSquare(11184810, 1706053424, 1355362258, 726128850);
    PowStep(22369620, 726128850, 2, 787934656);
    PowSquare(22369621, 787934656, 289101629, 1527277373);
    PowSquare(44739242, 1527277373, 1086190424, 1009784801);
    PowStep(89478484, 1009784801, 3, 626042666);
    PowSquare(89478485, 626042666, 182506358, 373859930);
    PowSquare(178956970, 373859930, 65086058, 2056911374);
    PowStep(357913940, 2056911374, 6, 1513477736);
    PowSquare(357913941, 1513477736, 1066650663, 1513477735);
  }

  /** 7^((P-1)/7) is not 1 (mod P). */
  lemma RootToOrderOver7()
    ensures Pow(Root, 306783378) == 1205362885
  {
    PowStep(0, 1, 0, 7);
    PowSquare(1, 7, 0, 49);
    PowSquare(2, 49, 0, 2401);
    PowSquare(4, 2401, 0, 5764801);
    PowStep(8, 5764801, 0, 40353607);
    PowSquare(9, 40353607, 758289, 370710466);
    PowSquare(18, 370710466, 63994084, 707192808);
    PowSquare(36, 707192808, 232887299, 1490425411);
    PowStep(72, 1490425411, 4, 1843043289);
    PowSquare(73, 1843043289, 1581762249, 1958495418);
    PowSquare(146, 1958495418, 1786139003, 2115610783);
    PowSquare(292, 2115610783, 2084210974, 1582930911);
    PowStep(584, 1582930911, 5, 343098142);
    PowSquare(585, 343098142, 54815940, 298918984);
    PowSquare(1170, 298918984, 41608027, 1429157787);
    PowSquare(2340, 1429157787, 951109445, 497991454);
    PowStep(4680, 497991454, 1, 1338456531);
    PowSquare(4681, 1338456531, 834216310, 1590871391);
    PowSquare(9362, 1590871391, 1178529012, 1917208117);
    PowSquare(18724, 1917208117, 1711625124, 306338461);
    PowStep(37448, 306338461, 0, 2144369227);
    PowSquare(37449, 2144369227, 2141259323, 1575786548);
    PowSquare(74898, 1575786548, 1156285054, 122244366);
    PowSquare(149796, 122244366, 6958695, 1301781291);
    PowStep(299592, 1301781291, 4, 522534449);
    PowSquare(299593, 522534449, 127145205, 1859770966);
    PowSquare(599186, 1859770966, 1610605068, 671250160);
    PowSquare(1198372, 671250160, 209816162, 528722786);
    PowStep(2396744, 528722786, 1, 1553575855);
    PowSquare(2396745, 1553575855, 1123919123, 45899444);
    PowSquare(4793490, 45899444, 981036, 192390844);
    PowSquare(9586980, 192390844, 17236097, 409426577);
    PowStep(19173960, 409426577, 1, 718502392);
    PowSquare(19173961, 718502392, 240395631, 926975407);
    PowSquare(38347922, 926975407, 400135016, 1730732297);
    PowSquare(76695844, 1730732297, 1394857785, 700754314);
    PowStep(153391688, 700754314, 2, 610312904);
    PowSquare(153391689, 610312904, 173450373, 1205362885);
  }

  /** 7^((P-1)/11) is not 1 (mod P). */
  lemma RootToOrderOver11()
    ensures Pow(Root, 195225786) == 1969212174
  {
    PowStep(0, 1, 0, 7);
    PowSquare(1, 7, 0, 49);
    PowSquare(2, 49, 0, 2401);
    PowStep(4, 2401, 0, 16807);
    PowSquare(5, 16807, 0, 282475249);
    PowStep(10, 282475249, 0, 1977326743);
    PowSquare(11, 1977326743, 1820652303, 1017599008);
    PowStep(22, 1017599008, 3, 680742115);
    PowSquare(23, 680742115, 215792016, 1621510873);
    PowSquare(46, 1621510873, 1224362064, 810054721);
    PowStep(92, 810054721, 2, 1375415753);
    PowSquare(93, 1375415753, 880923352, 920132265);
    PowSquare(186, 920132265, 394249048, 1668712169);
    PowSquare(372, 1668712169, 1296680562, 690914947);
    PowSquare(744, 690914947, 222289685, 553731614);
    PowStep(1488, 553731614, 1, 1728637651);
    PowSquare(1489, 1728637651, 1391483531, 562480244);
    PowSquare(2978, 562480244, 147327792, 821682112);
    PowStep(5956, 821682112, 2, 1456807490);
    PowSquare(5957, 1456807490, 988267391, 1884245123);
    PowStep(11914, 1884245123, 6, 304813979);
    PowSquare(11915, 304813979, 43265317, 1054041342);
    PowStep(23830, 1054041342, 3, 935838453);
    PowSquare(23831, 935838453, 407823180, 195895749);
    PowSquare(47662, 195895749, 17869819, 398921108);
    PowStep(95324, 398921108, 1, 644964109);
    PowSquare(95325, 644964109, 193705177, 1951423362);
    PowSquare(190650, 1951423362, 1773262927, 195528275);
    PowSquare(381300, 195528275, 17802839, 701801792);
    PowSquare(762600, 701801792, 229350177, 710355745);
    PowStep(1525200, 710355745, 2, 677522921);
    PowSquare(1525201, 677522921, 213755904, 190670353);
    PowSquare(3050402, 190670353, 16929201, 1208868562);
    PowStep(6100804, 1208868562, 3, 2019628993);
    PowSquare(6100805, 2019628993, 1899386416, 1672254897);
    PowStep(12201610, 1672254897, 5, 968366044);
    PowSquare(12201611, 968366044, 436665860, 1619018516);
    PowStep(24403222, 1619018516, 5, 595711377);
    PowSquare(24403223, 595711377, 165250173, 505815198);
    PowSquare(48806446, 505815198, 119138981, 1110035497);
    PowStep(97612892, 1110035497, 3, 1327797538);
    PowSquare(97612893, 1327797538, 820982410, 1969212174);
  }

  /** 7^((P-1)/31) is not 1 (mod P). */
  lemma RootToOrderOver31()
    ensures Pow(Root, 69273666) == 512
  {
    PowStep(0, 1, 0, 7);
    PowSquare(1, 7, 0, 49);
    PowSquare(2, 49, 0, 2401);
    PowSquare(4, 2401, 0, 5764801);
    PowSquare(8, 5764801, 15475, 621132276);
    PowSquare(16, 621132276, 179654594, 1565515858);
    PowStep(32, 1565515858, 5, 221192771);
    PowSquare(33, 221192771, 22783056, 1753973209);
    PowSquare(66, 1753973209, 1432570637, 1759884542);
    PowSquare(132, 1759884542, 1442243160, 72945244);
    PowSquare(264, 72945244, 2477787, 1558970347);
    PowSquare(528, 1558970347, 1131737858, 79492283);
    PowStep(1056, 79492283, 0, 556445981);
    PowSquare(1057, 556445981, 144183696, 447033049);
    PowSquare(2114, 447033049, 93057075, 98083876);
    PowSquare(4228, 98083876, 4479869, 1312981133);
    PowSquare(8456, 1312981133, 802762553, 622492898);
    PowSquare(16912, 622492898, 180442541, 2039811377);
    PowStep(33824, 2039811377, 6, 1393777757);
    PowSquare(33825, 1393777757, 904601270, 1527519359);
    PowSquare(67650, 1527519359, 1086534649, 1493385978);
    PowSquare(135300, 1493385978, 1038518585, 893936989);
    PowSquare(270600, 893936989, 372120803, 1151377580);
    PowSquare(541200, 1151377580, 617313353, 1084418009);
    PowStep(1082400, 1084418009, 3, 1148475122);
    PowSquare(1082401, 1148475122, 614204959, 494109411);
    PowSquare(2164802, 494109411, 113688460, 1336153301);
    PowSquare(4329604, 1336153301, 831347724, 1512527173);
    PowSquare(8659208, 1512527173, 1065311231, 1525432472);
    PowSquare(17318416, 1525432472, 1083567844, 1226983716);
    PowStep(34636832, 1226983716, 3, 2146435071);
    PowSquare(34636833, 2146435071, 2145387007, 512);
  }

  /** 7^((P-1)/151) is not 1 (mod P). */
  lemma RootToOrderOver151()
    ensures Pow(Root, 14221746) == 535044134
  {
    PowStep(0, 1, 0, 7);
    PowSquare(1, 7, 0, 49);
    PowStep(2, 49, 0, 343);
    PowSquare(3, 343, 0, 117649);
    PowSquare(6, 117649, 6, 956385319);
    PowStep(12, 956385319, 3, 252246292);
    PowSquare(13, 252246292, 29629185, 1566311569);
    PowStep(26, 1566311569, 5, 226762748);
    PowSquare(27, 226762748, 23944929, 424435441);
    PowSquare(54, 424435441, 83886759, 424534408);
    PowSquare(108, 424534408, 83925884, 125891516);
    PowStep(216, 125891516, 0, 881240612);
    PowSquare(217, 881240612, 361625578, 1146211578);
    PowSquare(434, 1146211578, 611786256, 1321894452);
    PowSquare(868, 1321894452, 813698835, 482929059);
    PowSquare(1736, 482929059, 108601747, 308494172);
    PowSquare(3472, 308494172, 44316358, 58367958);
    PowSquare(6944, 58367958, 1586423, 1071365083);
    PowSquare(13888, 1071365083, 534496801, 1550283642);
    PowSquare(27776, 1550283642, 1119160732, 318234560);
    PowStep(55552, 318234560, 1, 80158273);
    PowSquare(55553, 80158273, 2992036, 349107237);
    PowStep(111106, 349107237, 1, 296267012);
    PowSquare(111107, 296267012, 40873020, 345904204);
    PowSquare(222214, 345904204, 55716241, 1925062689);
    PowStep(444428, 1925062689, 6, 590536941);
    PowSquare(444429, 590536941, 162391866, 2044822179);
    PowStep(888858, 2044822179, 6, 1428853371);
    PowSquare(888859, 1428853371, 950704308, 1255612365);
    PowSquare(1777718, 1255612365, 734144082, 504066171);
    PowSquare(3555436, 504066171, 118316479, 923482328);
    PowStep(7110872, 923482328, 3, 21925355);
    PowSquare(7110873, 21925355, 223853, 535044134);
  }

  /** 7^((P-1)/331) is not 1 (mod P). */
  lemma RootToOrderOver331()
    ensures Pow(Root, 6487866) == 1761855083
  {
    PowStep(0, 1, 0, 7);
    PowSquare(1, 7, 0, 49);
    PowStep(2, 49, 0, 343);
    PowSquare(3, 343, 0, 117649);
    PowSquare(6, 117649, 6, 956385319);
    PowSquare(12, 956385319, 425927750, 470227511);
    PowSquare(24, 470227511, 102964188, 2144621485);
    PowStep(48, 2144621485, 6, 2127448513);
    PowSquare(49, 2127448513, 2107600298, 1098584363);
    PowSquare(98, 1098584363, 562000834, 2012754171);
    PowStep(196, 2012754171, 6, 1204377315);
    PowSquare(197, 1204377315, 675453207, 540403296);
    PowStep(394, 540403296, 1, 1635339425);
    PowSquare(395, 1635339425, 1245334295, 1398556760);
    PowStep(790, 1398556760, 4, 1199962732);
    PowSquare(791, 1199962732, 670510604, 958811036);
    PowStep(1582, 958811036, 3, 269226311);
    PowSquare(1583, 269226311, 33752437, 30770982);
    PowStep(3166, 30770982, 0, 215396874);
    PowSquare(3167, 215396874, 21604734, 366186978);
    PowStep(6334, 366186978, 1, 415825199);
    PowSquare(6335, 415825199, 80517770, 1755482411);
    PowStep(12670, 1755482411, 5, 1550958642);
    PowSquare(12671, 1550958642, 1120135518, 1865610018);
    PowStep(25342, 1865610018, 6, 174368244);
    PowSquare(25343, 174368244, 14158098, 588020130);
    PowSquare(50686, 588020130, 161010619, 1989369407);
    PowSquare(101372, 1989369407, 1842896751, 1625600752);
    PowStep(202744, 1625600752, 5, 641787029);
    PowSquare(202745, 641787029, 191801502, 1577609047);
    PowStep(405490, 1577609047, 5, 305845094);
    PowSquare(405491, 305845094, 43558525, 1398928161);
    PowStep(810982, 1398928161, 4, 1202562539);
    PowSquare(810983, 1202562539, 673419172, 759846237);
    PowSquare(1621966, 759846237, 268857136, 943805177);
    PowStep(3243932, 943805177, 3, 164185298);
    PowSquare(3243933, 164185298, 12552743, 1761855083);
  }

  /** The prime factors of Order. */
  predicate IsOrderFactor(q: int) {
    q == 2 || q == 3 || q == 7 || q == 11 || q == 31 || q == 151 || q == 331
  }

  lemma RootBelowOrder(q: int)
    requires IsOrderFactor(q)
    ensures Order % q == 0
    ensures Pow(Root, Order / q) != 1
  {
    if q == 2 { RootToOrderOver2(); }
    else if q == 3 { RootToOrderOver3(); }
    else if q == 7 { RootToOrderOver7(); }
    else if q == 11 { RootToOrderOver11(); }
    else if q == 31 { RootToOrderOver31(); }
    else if q == 151 { RootToOrderOver151(); }
    else { RootToOrderOver331(); }
  }

  lemma SquareAtLeast(s: int)
    ensures s >= 19 ==> s * s >= 361
  {
    if s >= 19 {
      assert s * s >= 19 * s;
    }
  }

  /** None of the factors of Order has a divisor in [2, 18] below its square root. */
  lemma NoSmallFactor(q: int, s: int)
    requires IsOrderFactor(q) && 2 <= s && s * s <= q
    ensures q % s != 0
  {
    SquareAtLeast(s);
    if s == 2 { } else if s == 3 { } else if s == 4 { } else if s == 5 { }
    else if s == 6 { } else if s == 7 { } else if s == 8 { } else if s == 9 { }
    else if s == 10 { } else if s == 11 { } else if s == 12 { } else if s == 13 { }
    else if s == 14 { } else if s == 15 { } else if s == 16 { } else if s == 17 { }
    else { assert s == 18; }
  }

  /** The factors of Order are prime: their only positive divisors are 1 and themselves. */
  lemma OrderFactorIsPrime(q: int, d: int)
    requires IsOrderFactor(q) && d > 0 && q % d == 0
    ensures d == 1 || d == q
  {
    DivisorAtMost(d, q);
    if 1 < d < q {
      var h := DivisorPair(q, d);
      SmallerFactorSquare(q, d, h);
      if d <= h {
        NoSmallFactor(q, d);
      } else {
        NoSmallFactor(q, h);
      }
    }
  }

  /** Euclid's lemma for a factor q of Order: if q divides k * e but not k, it divides e. */
  lemma PeelFactor(k: int, e: int, q: int, rest: int) returns (e': int)
    requires IsOrderFactor(q) && k > 0 && k % q != 0 && k * e == q * rest
    ensures e == q * e' && k * e' == rest
  {
    var r := ExtGcd(k, q);
    OrderFactorIsPrime(q, r.0);
    CoprimeCancel(k, e, q, rest, r.1, r.2);
    e' := r.1 * rest + r.2 * e;
  }

  lemma ProductOneBound(k: int, e: int)
    requires k >= 2
    ensures k * e != 1
  {
    MulAtLeast(k, e);
    MulAtLeast(k, -e);
    assert k * (-e) == -(k * e);
  }

  /** A cofactor k >= 2 of Order is divisible by one of Order's prime factors. */
  lemma CofactorHasOrderFactor(k: int, e: int) returns (q: int)
    requires k >= 2 && k * e == Order
    ensures IsOrderFactor(q) && k % q == 0
  {
    q := 2;
    if k % 2 == 0 { return; }
    var e1 := PeelFactor(k, e, 2, 1073741823);
    q := 3;
    if k % 3 == 0 { return; }
    var e2 := PeelFactor(k, e1, 3, 357913941);
    var e3 := PeelFactor(k, e2, 3, 119304647);
    q := 7;
    if k % 7 == 0 { return; }
    var e4 := PeelFactor(k, e3, 7, 17043521);
    q := 11;
    if k % 11 == 0 { return; }
    var e5 := PeelFactor(k, e4, 11, 1549411);
    q := 31;
    if k % 31 == 0 { return; }
    var e6 := PeelFactor(k, e5, 31, 49981);
    q := 151;
    if k % 151 == 0 { return; }
    var e7 := PeelFactor(k, e6, 151, 331);
    q := 331;
    if k % 331 == 0 { return; }
    var e8 := PeelFactor(k, e7, 331, 1);
    ProductOneBound(k, e8);
  }

  /** Exponents e with 7^e = 1 are closed under remainder ... */
  lemma UnitExponentRemainder(a: nat, b: nat, q: nat, r: nat)
    requires a == b * q + r && Pow(Root, a) == 1 && Pow(Root, b) == 1
    ensures Pow(Root, r) == 1
  {
    UnitExponentMultiple(b, q);
    UnitExponentShift(b * q, r);
  }

  lemma UnitExponentMultiple(b: nat, q: nat)
    requires Pow(Root, b) == 1
    ensures b * q >= 0 && Pow(Root, b * q) == 1
  {
    PowMul(Root, b, q);
    PowOfOne(q);
  }

  lemma UnitExponentShift(e: nat, r: nat)
    requires Pow(Root, e) == 1
    ensures Pow(Root, e + r) == Pow(Root, r)
  {
    PowAdd(Root, e, r);
  }

  /** ... and therefore under the greatest common divisor. */
  lemma {:induction false} UnitExponentGcd(a: nat, b: nat)
    requires Pow(Root, a) == 1 && Pow(Root, b) == 1
    ensures Pow(Root, ExtGcd(a, b).0) == 1
    decreases b
  {
    if b > 0 {
      UnitExponentRemainder(a, b, a / b, a % b);
      UnitExponentGcd(b, a % b);
    }
  }

  /** 7 has order exactly P - 1: no smaller positive power is 1. */
  lemma RootOrderIsFull(d: nat)
    requires 0 < d < Order
    ensures Pow(Root, d) != 1
  {
    hide Pow, ExtGcd;
    if Pow(Root, d) == 1 {
      RootToOrder();
      UnitExponentGcd(Order, d);
      var e := ExtGcd(Order, d).0;
      DivisorAtMost(e, d);
      var k := Cofactor(Order, e);
      var q := CofactorHasOrderFactor(k, e);
      var j := QuotientOfCofactor(Order, k, e, q);
      UnitExponentMultiple(e, j);
      RootBelowOrder(q);
    }
  }

  /** Multiplying by 7^(P-1-i) shifts 7^j to 7^(P-1+j-i). */
  lemma PowShiftByInverse(i: nat, j: nat)
    requires i <= j && i <= Order
    ensures Pow(Root, Order + (j - i)) == (Pow(Root, Order - i) * Pow(Root, j)) % Prime
  {
    PowAdd(Root, Order - i, j);
    assert Order - i + j == Order + (j - i);
  }

  lemma PowersDistinct(i: nat, j: nat)
    requires i < j < Order
    ensures Pow(Root, i) != Pow(Root, j)
  {
    hide Pow;
    if Pow(Root, i) == Pow(Root, j) {
      RootToOrder();
      PowShiftByInverse(i, i);
      PowShiftByInverse(i, j);
      UnitExponentShift(Order, j - i);
      RootOrderIsFull(j - i);
    }
  }

  lemma PowNonzero(i: nat)
    requires i < Order
    ensures Pow(Root, i) != 0
  {
    RootToOrder();
    PowAdd(Root, i, Order - i);
  }

  ghost function PowersBelow(n: nat): set<int> {
    set i | 0 <= i < n :: Pow(Root, i)
  }

  lemma {:induction false} PowersBelowCard(n: nat)
    requires n <= Order
    ensures |PowersBelow(n)| == n
  {
    if n > 0 {
      PowersBelowCard(n - 1);
      assert PowersBelow(n) == PowersBelow(n - 1) + {Pow(Root, n - 1)};
      forall i | 0 <= i < n - 1
        ensures Pow(Root, i) != Pow(Root, n - 1)
      {
        PowersDistinct(i, n - 1);
      }
      assert Pow(Root, n - 1) !in PowersBelow(n - 1);
    }
  }

  /** The integers in [lo, hi). */
  ghost function Range(lo: int, hi: int): (r: set<int>)
    ensures |r| == if lo <= hi then hi - lo else 0
    ensures forall u :: u in r <==> lo <= u < hi
    decreases hi - lo
  {
    if lo >= hi then {} else {lo} + Range(lo + 1, hi)
  }

  /** A subset with as many elements as the whole set is the whole set. */
  lemma SubsetOfEqualSize(a: set<int>, b: set<int>)
    requires a <= b && |a| == |b|
    ensures a == b
  {
    assert b == a + (b - a);
    assert |b - a| == 0;
  }

  /** Pigeonhole: the P - 1 distinct nonzero powers of 7 are all the nonzero residues. */
  lemma EveryUnitIsPower(r: int) returns (i: nat)
    requires 1 <= r < Prime
    ensures i < Order && Pow(Root, i) == r
  {
    var powers := PowersBelow(Order);
    var units := Range(1, Prime);
    PowersBelowCard(Order);
    forall u | u in powers
      ensures u in units
    {
      var j :| 0 <= j < Order && u == Pow(Root, j);
      PowNonzero(j);
    }
    SubsetOfEqualSize(powers, units);
    assert r in powers;
    i :| 0 <= i < Order && Pow(Root, i) == r;
  }

  /** Every residue that is not 0 modulo Prime has a multiplicative inverse. */
  lemma InverseExists(a: int) returns (b: int)
    requires a % Prime != 0
    ensures 0 <= b < Prime && (a * b) % Prime == 1
  {
    var i := EveryUnitIsPower(a % Prime);
    b := Pow(Root, Order - i);
    RootToOrder();
    PowAdd(Root, i, Order - i);
    MulModLeft(a, b, Prime);
  }

  /** Euclid's lemma for Prime: a product is 0 modulo Prime only if a factor is. */
  lemma EuclidPrime(a: int, b: int)
    requires (a * b) % Prime == 0 && a % Prime != 0
    ensures b % Prime == 0
  {
    var u := InverseExists(a);
    MulModRight(b, a * u, Prime);
    MulModLeft(a * b, u, Prime);
    assert b * (a * u) == (a * b) * u;
  }

  lemma NonzeroProduct(a: int, b: int)
    requires a % Prime != 0 && b % Prime != 0
    ensures (a * b) % Prime != 0
  {
    if (a * b) % Prime == 0 {
      EuclidPrime(a, b);
    }
  }
}
