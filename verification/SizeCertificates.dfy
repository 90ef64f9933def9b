/** Certificates by Pocklington's criterion for the listed sizes (src/lws_table.c), and for primes these need. */
module SizeCertificates {
  import opened Primes
  import opened Primality

  lemma Small0()
    ensures IsPrime(2)
    ensures IsPrime(3)
    ensures IsPrime(5)
    ensures IsPrime(7)
    ensures IsPrime(11)
    ensures IsPrime(13)
  {
    TinyPrime(2);
    TinyPrime(3);
    TinyPrime(5);
    TinyPrime(7);
    TinyPrime(11);
    TinyPrime(13);
  }

  lemma Small1()
    ensures IsPrime(17)
    ensures IsPrime(19)
    ensures IsPrime(23)
    ensures IsPrime(29)
    ensures IsPrime(31)
    ensures IsPrime(41)
  {
    TinyPrime(17);
    TinyPrime(19);
    TinyPrime(23);
    TinyPrime(29);
    TinyPrime(31);
    TinyPrime(41);
  }

  lemma Small2()
    ensures IsPrime(43)
    ensures IsPrime(53)
    ensures IsPrime(59)
    ensures IsPrime(67)
    ensures IsPrime(71)
    ensures IsPrime(73)
  {
    TinyPrime(43);
    TinyPrime(53);
    TinyPrime(59);
    TinyPrime(67);
    TinyPrime(71);
    TinyPrime(73);
  }

  lemma Small3()
    ensures IsPrime(89)
    ensures IsPrime(97)
    ensures IsPrime(101)
    ensures IsPrime(103)
    ensures IsPrime(113)
    ensures IsPrime(127)
  {
    TinyPrime(89);
    TinyPrime(97);
    TinyPrime(101);
    TinyPrime(103);
    TinyPrime(113);
    TinyPrime(127);
  }

  lemma Small4()
    ensures IsPrime(131)
    ensures IsPrime(137)
    ensures IsPrime(139)
    ensures IsPrime(157)
    ensures IsPrime(167)
    ensures IsPrime(179)
  {
    TinyPrime(131);
    TinyPrime(137);
    TinyPrime(139);
    SmallPrime(157);
    SmallPrime(167);
    SmallPrime(179);
  }

  lemma Small5()
    ensures IsPrime(191)
    ensures IsPrime(197)
    ensures IsPrime(211)
    ensures IsPrime(223)
    ensures IsPrime(263)
    ensures IsPrime(271)
  {
    SmallPrime(191);
    SmallPrime(197);
    SmallPrime(211);
    SmallPrime(223);
    SmallPrime(263);
    SmallPrime(271);
  }

  lemma Small6()
    ensures IsPrime(277)
    ensures IsPrime(373)
    ensures IsPrime(389)
    ensures IsPrime(421)
    ensures IsPrime(449)
    ensures IsPrime(487)
  {
    SmallPrime(277);
    SmallPrime(373);
    SmallPrime(389);
    SmallPrime(421);
    SmallPrime(449);
    SmallPrime(487);
  }

  lemma Small7()
    ensures IsPrime(499)
    ensures IsPrime(601)
    ensures IsPrime(619)
    ensures IsPrime(659)
    ensures IsPrime(701)
    ensures IsPrime(823)
  {
    SmallPrime(499);
    SmallPrime(601);
    SmallPrime(619);
    SmallPrime(659);
    SmallPrime(701);
    SmallPrime(823);
  }

  lemma Small8()
    ensures IsPrime(877)
    ensures IsPrime(911)
    ensures IsPrime(937)
    ensures IsPrime(1019)
    ensures IsPrime(1163)
    ensures IsPrime(1171)
  {
    SmallPrime(877);
    SmallPrime(911);
    SmallPrime(937);
    SmallPrime(1019);
    SmallPrime(1163);
    SmallPrime(1171);
  }

  lemma Small9()
    ensures IsPrime(1259)
    ensures IsPrime(1427)
    ensures IsPrime(1553)
    ensures IsPrime(1571)
    ensures IsPrime(1721)
    ensures IsPrime(1901)
  {
    SmallPrime(1259);
    SmallPrime(1427);
    SmallPrime(1553);
    SmallPrime(1571);
    SmallPrime(1721);
    SmallPrime(1901);
  }

  lemma Small10()
    ensures IsPrime(2081)
    ensures IsPrime(2267)
    ensures IsPrime(2437)
    ensures IsPrime(2633)
    ensures IsPrime(2699)
    ensures IsPrime(2719)
  {
    SmallPrime(2081);
    SmallPrime(2267);
    SmallPrime(2437);
    SmallPrime(2633);
    SmallPrime(2699);
    SmallPrime(2719);
  }

  lemma Small11()
    ensures IsPrime(2767)
    ensures IsPrime(3001)
    ensures IsPrime(3089)
    ensures IsPrime(3209)
    ensures IsPrime(3253)
    ensures IsPrime(3329)
  {
    SmallPrime(2767);
    SmallPrime(3001);
    SmallPrime(3089);
    SmallPrime(3209);
    SmallPrime(3253);
    SmallPrime(3329);
  }

  lemma Small12()
    ensures IsPrime(3617)
    ensures IsPrime(3691)
    ensures IsPrime(3697)
    ensures IsPrime(3923)
    ensures IsPrime(4051)
    ensures IsPrime(4621)
  {
    SmallPrime(3617);
    SmallPrime(3691);
    SmallPrime(3697);
    SmallPrime(3923);
    SmallPrime(4051);
    SmallPrime(4621);
  }

  lemma Small13()
    ensures IsPrime(4861)
    ensures IsPrime(4909)
    ensures IsPrime(5807)
    ensures IsPrime(5839)
    ensures IsPrime(6133)
    ensures IsPrime(6547)
  {
    SmallPrime(4861);
    SmallPrime(4909);
    SmallPrime(5807);
    SmallPrime(5839);
    SmallPrime(6133);
    SmallPrime(6547);
  }

  lemma Small14()
    ensures IsPrime(7591)
    ensures IsPrime(7717)
    ensures IsPrime(7829)
    ensures IsPrime(8167)
    ensures IsPrime(8291)
    ensures IsPrime(8731)
  {
    SmallPrime(7591);
    SmallPrime(7717);
    SmallPrime(7829);
    SmallPrime(8167);
    SmallPrime(8291);
    SmallPrime(8731);
  }

  lemma Small15()
    ensures IsPrime(9007)
    ensures IsPrime(9187)
    ensures IsPrime(10133)
    ensures IsPrime(10597)
    ensures IsPrime(11251)
    ensures IsPrime(11633)
  {
    SmallPrime(9007);
    SmallPrime(9187);
    SmallPrime(10133);
    SmallPrime(10597);
    SmallPrime(11251);
    SmallPrime(11633);
  }

  lemma Small16()
    ensures IsPrime(12893)
    ensures IsPrime(14221)
    ensures IsPrime(14563)
    ensures IsPrime(14669)
    ensures IsPrime(15173)
    ensures IsPrime(15511)
  {
    SmallPrime(12893);
    SmallPrime(14221);
    SmallPrime(14563);
    SmallPrime(14669);
    SmallPrime(15173);
    SmallPrime(15511);
  }

  lemma Small17()
    ensures IsPrime(16453)
    ensures IsPrime(16573)
    ensures IsPrime(18749)
    ensures IsPrime(19699)
    ensures IsPrime(20269)
    ensures IsPrime(20681)
  {
    SmallPrime(16453);
    SmallPrime(16573);
    SmallPrime(18749);
    SmallPrime(19699);
    SmallPrime(20269);
    SmallPrime(20681);
  }

  lemma Prime24371()
    ensures IsPrime(24371)
  {
    hide IsPrime, At, Apart;
    Small10();
    Begin(24371, 1024);
    Inverse(24371, 1024, 2437, 2437, 1, 1024, 3097, 3098);
    Climb(24371, 1024, 0, 2437, 4, 6, 0, 5, 1, 22564, 20138, 22792, 1);
    Compose(24371, 1024, 1, 1024, 2437, 1, 2437);
    Certificate1(24371, 1024, 2437);
  }

  lemma Prime25673()
    ensures IsPrime(25673)
  {
    hide IsPrime, At, Apart;
    Small11();
    Begin(25673, 256);
    Inverse(25673, 256, 3209, 3209, 1, 256, 2819, 2820);
    Climb(25673, 256, 0, 3209, 6, 2, 1, 1, 1, 1592, 10772, 12836, 1);
    Compose(25673, 256, 1, 256, 3209, 1, 3209);
    Certificate1(25673, 256, 3209);
  }

  lemma Prime25999()
    ensures IsPrime(25999)
  {
    hide IsPrime, At, Apart;
    Small7();
    Begin(25999, 7245);
    Inverse(25999, 7245, 619, 619, 1, 7245, 262, 263);
    Climb(25999, 7245, 0, 619, 1, 1, 5, 3, 1, 7245, 391, 19234, 1);
    Compose(25999, 7245, 1, 7245, 619, 1, 619);
    Certificate1(25999, 7245, 619);
  }

  lemma Prime26189()
    ensures IsPrime(26189)
  {
    hide IsPrime, At, Apart;
    Small13();
    Begin(26189, 16);
    Inverse(26189, 16, 6547, 6547, 1, 16, 1746, 1747);
    Climb(26189, 16, 0, 1, 0, 0, 0, 1, 1, 1, 1, 1, 16);
    Climb(26189, 16, 1, 6547, 4, 6, 2, 3, 16, 10526, 5806, 6920, 1);
    Compose(26189, 16, 1, 16, 6547, 1, 6547);
    Certificate1(26189, 16, 6547);
  }

  lemma Prime27581()
    ensures IsPrime(27581)
  {
    hide IsPrime, At, Apart;
    Small5();
    Begin(27581, 25439);
    Inverse(27581, 25439, 197, 197, 1, 25439, 14981, 14982);
    Climb(27581, 25439, 0, 197, 0, 3, 0, 5, 1, 1, 7699, 2370, 1);
    Compose(27581, 25439, 1, 25439, 197, 1, 197);
    Certificate1(27581, 25439, 197);
  }

  lemma Prime31237()
    ensures IsPrime(31237)
  {
    hide IsPrime, At, Apart;
    Small0();
    Small4();
    Begin(31237, 18912);
    Climb(31237, 18912, 0, 137, 0, 2, 1, 1, 1, 1, 94, 14313, 31236);
    Inverse(31237, 18912, 2, 274, 137, 31236, 15618, 15619);
    Double(31237, 18912, 1, 18912, 2, 94);
    Inverse(31237, 18912, 137, 274, 2, 94, 5710, 5711);
    Double(31237, 18912, 137, 31236, 274, 1);
    Certificate2(31237, 18912, 2, 137, 274);
  }

  lemma Prime36749()
    ensures IsPrime(36749)
  {
    hide IsPrime, At, Apart;
    Small15();
    Begin(36749, 16);
    Inverse(36749, 16, 9187, 9187, 1, 16, 2450, 2451);
    Climb(36749, 16, 0, 2, 0, 0, 0, 2, 1, 1, 1, 1, 256);
    Climb(36749, 16, 2, 9187, 1, 7, 4, 3, 256, 24852, 35786, 8602, 1);
    Compose(36749, 16, 1, 16, 9187, 1, 9187);
    Certificate1(36749, 16, 9187);
  }

  lemma Prime45667()
    ensures IsPrime(45667)
  {
    hide IsPrime, At, Apart;
    Small0();
    Small2();
    Begin(45667, 23536);
    Climb(45667, 23536, 0, 129, 0, 2, 0, 1, 1, 1, 2586, 44759, 770);
    Inverse(45667, 23536, 3, 387, 129, 770, 14965, 14966);
    Climb(45667, 23536, 0, 9, 0, 0, 1, 1, 1, 1, 1, 23536, 14071);
    Inverse(45667, 23536, 43, 387, 9, 14071, 1321, 1322);
    Begin(45667, 770);
    Climb(45667, 770, 0, 3, 0, 0, 0, 3, 1, 1, 1, 1, 1);
    Compose(45667, 23536, 129, 770, 3, 1, 387);
    Certificate3(45667, 23536, 3, 3, 43, 387);
  }

  lemma Prime49003()
    ensures IsPrime(49003)
  {
    hide IsPrime, At, Apart;
    Small14();
    Begin(49003, 64);
    Inverse(49003, 64, 8167, 8167, 1, 64, 17890, 17891);
    Climb(49003, 64, 0, 1, 0, 0, 0, 1, 1, 1, 1, 1, 64);
    Climb(49003, 64, 1, 8167, 7, 7, 4, 7, 64, 42574, 22683, 5683, 1);
    Compose(49003, 64, 1, 64, 8167, 1, 8167);
    Certificate1(49003, 64, 8167);
  }

  lemma Prime49747()
    ensures IsPrime(49747)
  {
    hide IsPrime, At, Apart;
    Small14();
    Begin(49747, 64);
    Inverse(49747, 64, 8291, 8291, 1, 64, 8686, 8687);
    Climb(49747, 64, 0, 2, 0, 0, 0, 2, 1, 1, 1, 1, 4096);
    Climb(49747, 64, 2, 8291, 0, 1, 4, 3, 4096, 20075, 46622, 9061, 1);
    Compose(49747, 64, 1, 64, 8291, 1, 8291);
    Certificate1(49747, 64, 8291);
  }

  lemma Prime51347()
    ensures IsPrime(51347)
  {
    hide IsPrime, At, Apart;
    Prime25673();
    Begin(51347, 4);
    Inverse(51347, 4, 25673, 25673, 1, 4, 17116, 17117);
    Climb(51347, 4, 0, 6, 0, 0, 0, 6, 1, 1, 1, 1, 4096);
    Climb(51347, 4, 6, 25673, 2, 1, 1, 1, 4096, 32494, 3303, 24186, 1);
    Compose(51347, 4, 1, 4, 25673, 1, 25673);
    Certificate1(51347, 4, 25673);
  }

  lemma Prime55711()
    ensures IsPrime(55711)
  {
    hide IsPrime, At, Apart;
    Small7();
    Begin(55711, 36463);
    Inverse(55711, 36463, 619, 619, 1, 36463, 11082, 11083);
    Climb(55711, 36463, 0, 619, 1, 1, 5, 3, 1, 36463, 37496, 26365, 1);
    Compose(55711, 36463, 1, 36463, 619, 1, 619);
    Certificate1(55711, 36463, 619);
  }

  lemma Prime55849()
    ensures IsPrime(55849)
  {
    hide IsPrime, At, Apart;
    Small0();
    Small4();
    Begin(55849, 23590);
    Climb(55849, 23590, 0, 179, 0, 2, 6, 3, 1, 1, 8664, 7886, 55848);
    Inverse(55849, 23590, 2, 358, 179, 55848, 27924, 27925);
    Double(55849, 23590, 1, 23590, 2, 8664);
    Inverse(55849, 23590, 179, 358, 2, 8664, 11946, 11947);
    Double(55849, 23590, 179, 55848, 358, 1);
    Certificate2(55849, 23590, 2, 179, 358);
  }

  lemma Prime63281()
    ensures IsPrime(63281)
  {
    hide IsPrime, At, Apart;
    Small0();
    Small3();
    Begin(63281, 58384);
    Climb(63281, 58384, 0, 226, 0, 3, 4, 2, 1, 1, 40667, 46233, 63280);
    Inverse(63281, 58384, 2, 452, 226, 63280, 31640, 31641);
    Climb(63281, 58384, 0, 4, 0, 0, 0, 4, 1, 1, 1, 1, 62289);
    Inverse(63281, 58384, 113, 452, 4, 62289, 31290, 31291);
    Double(63281, 58384, 226, 63280, 452, 1);
    Certificate3(63281, 58384, 2, 2, 113, 452);
  }

  lemma Prime65353()
    ensures IsPrime(65353)
  {
    hide IsPrime, At, Apart;
    Small6();
    Begin(65353, 7289);
    Inverse(65353, 7289, 389, 389, 1, 7289, 43751, 43752);
    Climb(65353, 7289, 0, 389, 0, 6, 0, 5, 1, 1, 45887, 21428, 1);
    Compose(65353, 7289, 1, 7289, 389, 1, 389);
    Certificate1(65353, 7289, 389);
  }

  lemma Prime70309()
    ensures IsPrime(70309)
  {
    hide IsPrime, At, Apart;
    Small0();
    Small1();
    Begin(70309, 38226);
    Climb(70309, 38226, 0, 93, 0, 1, 3, 5, 1, 1, 38226, 29451, 31170);
    Inverse(70309, 38226, 3, 279, 93, 31170, 36482, 36483);
    Climb(70309, 38226, 0, 9, 0, 0, 1, 1, 1, 1, 1, 38226, 58337);
    Inverse(70309, 38226, 31, 279, 9, 58337, 39362, 39363);
    Begin(70309, 31170);
    Climb(70309, 31170, 0, 3, 0, 0, 0, 3, 1, 1, 1, 1, 1);
    Compose(70309, 38226, 93, 31170, 3, 1, 279);
    Certificate3(70309, 38226, 3, 3, 31, 279);
  }

  lemma Prime72469()
    ensures IsPrime(72469)
  {
    hide IsPrime, At, Apart;
    Small0();
    Begin(72469, 58086);
    Climb(72469, 58086, 0, 99, 0, 1, 4, 3, 1, 1, 58086, 5176, 6061);
    Inverse(72469, 58086, 3, 297, 99, 6061, 70448, 70449);
    Climb(72469, 58086, 0, 27, 0, 0, 3, 3, 1, 1, 1, 66825, 39212);
    Inverse(72469, 58086, 11, 297, 27, 39212, 21888, 21889);
    Begin(72469, 6061);
    Climb(72469, 6061, 0, 3, 0, 0, 0, 3, 1, 1, 1, 1, 1);
    Compose(72469, 58086, 99, 6061, 3, 1, 297);
    Certificate4(72469, 58086, 3, 3, 3, 11, 297);
  }

  lemma Prime73727()
    ensures IsPrime(73727)
  {
    hide IsPrime, At, Apart;
    Small0();
    Small5();
    Begin(73727, 44856);
    Climb(73727, 44856, 0, 191, 0, 2, 7, 7, 1, 1, 50906, 11319, 73726);
    Inverse(73727, 44856, 2, 382, 191, 73726, 36863, 36864);
    Double(73727, 44856, 1, 44856, 2, 50906);
    Inverse(73727, 44856, 191, 382, 2, 50906, 59587, 59588);
    Double(73727, 44856, 191, 73726, 382, 1);
    Certificate2(73727, 44856, 2, 191, 382);
  }

  lemma Prime80471()
    ensures IsPrime(80471)
  {
    hide IsPrime, At, Apart;
    Small7();
    Begin(80471, 22149);
    Inverse(80471, 22149, 619, 619, 1, 22149, 40290, 40291);
    Climb(80471, 22149, 0, 619, 1, 1, 5, 3, 1, 22149, 16893, 18538, 1);
    Compose(80471, 22149, 1, 22149, 619, 1, 619);
    Certificate1(80471, 22149, 619);
  }

  lemma Prime81077()
    ensures IsPrime(81077)
  {
    hide IsPrime, At, Apart;
    Small17();
    Begin(81077, 16);
    Inverse(81077, 16, 20269, 20269, 1, 16, 37836, 37837);
    Climb(81077, 16, 0, 4, 0, 0, 0, 4, 1, 1, 1, 1, 65536);
    Climb(81077, 16, 4, 20269, 7, 4, 5, 5, 65536, 55399, 15213, 58824, 1);
    Compose(81077, 16, 1, 16, 20269, 1, 20269);
    Certificate1(81077, 16, 20269);
  }

  lemma Prime87107()
    ensures IsPrime(87107)
  {
    hide IsPrime, At, Apart;
    Small6();
    Begin(87107, 38881);
    Inverse(87107, 38881, 449, 449, 1, 38881, 42561, 42562);
    Climb(87107, 38881, 0, 449, 0, 7, 0, 1, 1, 1, 85436, 28875, 1);
    Compose(87107, 38881, 1, 38881, 449, 1, 449);
    Certificate1(87107, 38881, 449);
  }

  lemma Prime90071()
    ensures IsPrime(90071)
  {
    hide IsPrime, At, Apart;
    Small15();
    Begin(90071, 1024);
    Inverse(90071, 1024, 9007, 9007, 1, 1024, 32577, 32578);
    Climb(90071, 1024, 0, 2, 0, 0, 0, 2, 1, 1, 1, 1, 57795);
    Climb(90071, 1024, 2, 9007, 1, 4, 5, 7, 57795, 51478, 65329, 29473, 1);
    Compose(90071, 1024, 1, 1024, 9007, 1, 9007);
    Certificate1(90071, 1024, 9007);
  }

  lemma Prime93949()
    ensures IsPrime(93949)
  {
    hide IsPrime, At, Apart;
    Small14();
    Begin(93949, 4096);
    Inverse(93949, 4096, 7829, 7829, 1, 4096, 57723, 57724);
    Climb(93949, 4096, 0, 1, 0, 0, 0, 1, 1, 1, 1, 1, 4096);
    Climb(93949, 4096, 1, 7829, 7, 2, 2, 5, 4096, 10927, 26443, 51570, 1);
    Compose(93949, 4096, 1, 4096, 7829, 1, 7829);
    Certificate1(93949, 4096, 7829);
  }

  lemma Prime96377()
    ensures IsPrime(96377)
  {
    hide IsPrime, At, Apart;
    Small9();
    Begin(96377, 73617);
    Inverse(96377, 73617, 1721, 1721, 1, 73617, 66432, 66433);
    Climb(96377, 73617, 0, 1721, 3, 2, 7, 1, 1, 25856, 24082, 64248, 1);
    Compose(96377, 73617, 1, 73617, 1721, 1, 1721);
    Certificate1(96377, 73617, 1721);
  }

  lemma Prime101999()
    ensures IsPrime(101999)
  {
    hide IsPrime, At, Apart;
    Small12();
    Begin(101999, 95521);
    Inverse(101999, 95521, 3923, 3923, 1, 95521, 99181, 99182);
    Climb(101999, 95521, 0, 3923, 7, 5, 2, 3, 1, 39931, 83341, 45888, 1);
    Compose(101999, 95521, 1, 95521, 3923, 1, 3923);
    Certificate1(101999, 95521, 3923);
  }

  lemma Prime106751()
    ensures IsPrime(106751)
  {
    hide IsPrime, At, Apart;
    Small0();
    Begin(106751, 71286);
    Climb(106751, 71286, 0, 175, 0, 2, 5, 7, 1, 1, 25943, 87044, 16356);
    Inverse(106751, 71286, 5, 875, 175, 16356, 99891, 99892);
    Climb(106751, 71286, 0, 125, 0, 1, 7, 5, 1, 1, 71286, 21854, 8549);
    Inverse(106751, 71286, 7, 875, 125, 8549, 87881, 87882);
    Begin(106751, 16356);
    Climb(106751, 16356, 0, 5, 0, 0, 0, 5, 1, 1, 1, 1, 1);
    Compose(106751, 71286, 175, 16356, 5, 1, 875);
    Certificate4(106751, 71286, 5, 5, 5, 7, 875);
  }

  lemma Prime114913()
    ensures IsPrime(114913)
  {
    hide IsPrime, At, Apart;
    Small0();
    Small1();
    Begin(114913, 44091);
    Climb(114913, 44091, 0, 171, 0, 2, 5, 3, 1, 1, 33060, 51876, 43792);
    Inverse(114913, 44091, 3, 513, 171, 43792, 100315, 100316);
    Climb(114913, 44091, 0, 27, 0, 0, 3, 3, 1, 1, 1, 91968, 80878);
    Inverse(114913, 44091, 19, 513, 27, 80878, 47419, 47420);
    Begin(114913, 43792);
    Climb(114913, 43792, 0, 3, 0, 0, 0, 3, 1, 1, 1, 1, 1);
    Compose(114913, 44091, 171, 43792, 3, 1, 513);
    Certificate4(114913, 44091, 3, 3, 3, 19, 513);
  }

  lemma Prime116141()
    ensures IsPrime(116141)
  {
    hide IsPrime, At, Apart;
    Small13();
    Begin(116141, 3307);
    Inverse(116141, 3307, 5807, 5807, 1, 3307, 46618, 46619);
    Climb(116141, 3307, 0, 1, 0, 0, 0, 1, 1, 1, 1, 1, 3307);
    Climb(116141, 3307, 1, 5807, 3, 2, 5, 7, 3307, 37428, 99426, 44317, 1);
    Compose(116141, 3307, 1, 3307, 5807, 1, 5807);
    Certificate1(116141, 3307, 5807);
  }

  lemma Prime128257()
    ensures IsPrime(128257)
  {
    hide IsPrime, At, Apart;
    Small0();
    Small4();
    Begin(128257, 89798);
    Climb(128257, 89798, 0, 334, 0, 5, 1, 6, 1, 1, 43037, 94275, 128256);
    Inverse(128257, 89798, 2, 668, 334, 128256, 64128, 64129);
    Climb(128257, 89798, 0, 4, 0, 0, 0, 4, 1, 1, 1, 1, 87410);
    Inverse(128257, 89798, 167, 668, 4, 87410, 127808, 127809);
    Double(128257, 89798, 334, 128256, 668, 1);
    Certificate3(128257, 89798, 2, 2, 167, 668);
  }

  lemma Prime154871()
    ensures IsPrime(154871)
  {
    hide IsPrime, At, Apart;
    Small8();
    Begin(154871, 5073);
    Inverse(154871, 5073, 911, 911, 1, 5073, 128764, 128765);
    Climb(154871, 5073, 0, 911, 1, 6, 1, 7, 1, 5073, 47971, 103405, 1);
    Compose(154871, 5073, 1, 5073, 911, 1, 911);
    Certificate1(154871, 5073, 911);
  }

  lemma Prime164531()
    ensures IsPrime(164531)
  {
    hide IsPrime, At, Apart;
    Small17();
    Begin(164531, 1024);
    Inverse(164531, 1024, 16453, 16453, 1, 1024, 146357, 146358);
    Climb(164531, 1024, 0, 4, 0, 0, 0, 4, 1, 1, 1, 1, 149545);
    Climb(164531, 1024, 4, 16453, 0, 1, 0, 5, 149545, 35914, 164152, 12040, 1);
    Compose(164531, 1024, 1, 1024, 16453, 1, 16453);
    Certificate1(164531, 1024, 16453);
  }

  lemma Prime180503()
    ensures IsPrime(180503)
  {
    hide IsPrime, At, Apart;
    Small16();
    Begin(180503, 16384);
    Inverse(180503, 16384, 12893, 12893, 1, 16384, 135066, 135067);
    Climb(180503, 16384, 0, 3, 0, 0, 0, 3, 1, 1, 1, 1, 123095);
    Climb(180503, 16384, 3, 12893, 1, 1, 3, 5, 123095, 59080, 52139, 141570, 1);
    Compose(180503, 16384, 1, 16384, 12893, 1, 12893);
    Certificate1(180503, 16384, 12893);
  }

  lemma Prime187423()
    ensures IsPrime(187423)
  {
    hide IsPrime, At, Apart;
    Prime31237();
    Begin(187423, 64);
    Inverse(187423, 64, 31237, 31237, 1, 64, 95199, 95200);
    Climb(187423, 64, 0, 7, 0, 0, 0, 7, 1, 1, 1, 1, 134172);
    Climb(187423, 64, 7, 31237, 5, 0, 0, 5, 134172, 88218, 150935, 11057, 1);
    Compose(187423, 64, 1, 64, 31237, 1, 31237);
    Certificate1(187423, 64, 31237);
  }

  lemma Prime197297()
    ensures IsPrime(197297)
  {
    hide IsPrime, At, Apart;
    Small0();
    Small2();
    Begin(197297, 56566);
    Climb(197297, 56566, 0, 236, 0, 3, 5, 4, 1, 1, 186316, 195128, 197296);
    Inverse(197297, 56566, 2, 472, 236, 197296, 98648, 98649);
    Climb(197297, 56566, 0, 8, 0, 0, 1, 0, 1, 1, 1, 56566, 81469);
    Inverse(197297, 56566, 59, 472, 8, 81469, 27073, 27074);
    Double(197297, 56566, 236, 197296, 472, 1);
    Certificate4(197297, 56566, 2, 2, 2, 59, 472);
  }

  lemma Prime203233()
    ensures IsPrime(203233)
  {
    hide IsPrime, At, Apart;
    Small0();
    Small2();
    Begin(203233, 103501);
    Climb(203233, 103501, 0, 292, 0, 4, 4, 4, 1, 1, 81247, 66233, 203232);
    Inverse(203233, 103501, 2, 584, 292, 203232, 101616, 101617);
    Climb(203233, 103501, 0, 8, 0, 0, 1, 0, 1, 1, 1, 103501, 67169);
    Inverse(203233, 103501, 73, 584, 8, 67169, 41728, 41729);
    Double(203233, 103501, 292, 203232, 584, 1);
    Certificate4(203233, 103501, 2, 2, 2, 73, 584);
  }

  lemma Prime206477()
    ensures IsPrime(206477)
  {
    hide IsPrime, At, Apart;
    Small9();
    Begin(206477, 63456);
    Inverse(206477, 63456, 1259, 1259, 1, 63456, 117066, 117067);
    Climb(206477, 63456, 0, 1259, 2, 3, 5, 3, 1, 155959, 189610, 150885, 1);
    Compose(206477, 63456, 1, 63456, 1259, 1, 1259);
    Certificate1(206477, 63456, 1259);
  }

  lemma Prime212423()
    ensures IsPrime(212423)
  {
    hide IsPrime, At, Apart;
    Small16();
    Begin(212423, 16384);
    Inverse(212423, 16384, 15173, 15173, 1, 16384, 61511, 61512);
    Climb(212423, 16384, 0, 3, 0, 0, 0, 3, 1, 1, 1, 1, 146311);
    Climb(212423, 16384, 3, 15173, 5, 5, 0, 5, 146311, 23297, 62166, 87992, 1);
    Compose(212423, 16384, 1, 16384, 15173, 1, 15173);
    Certificate1(212423, 16384, 15173);
  }

  lemma Prime275299()
    ensures IsPrime(275299)
  {
    hide IsPrime, At, Apart;
    Small10();
    Begin(275299, 258030);
    Inverse(275299, 258030, 2699, 2699, 1, 258030, 107585, 107586);
    Climb(275299, 258030, 0, 2699, 5, 2, 1, 3, 1, 101849, 181867, 208850, 1);
    Compose(275299, 258030, 1, 258030, 2699, 1, 2699);
    Certificate1(275299, 258030, 2699);
  }

  lemma Prime349187()
    ensures IsPrime(349187)
  {
    hide IsPrime, At, Apart;
    Small14();
    Begin(349187, 287244);
    Inverse(349187, 287244, 7591, 7591, 1, 287244, 95713, 95714);
    Climb(349187, 287244, 0, 1, 0, 0, 0, 1, 1, 1, 1, 1, 287244);
    Climb(349187, 287244, 1, 7591, 6, 6, 4, 7, 287244, 78337, 318723, 30732, 1);
    Compose(349187, 287244, 1, 287244, 7591, 1, 7591);
    Certificate1(349187, 287244, 7591);
  }

  lemma Prime367069()
    ensures IsPrime(367069)
  {
    hide IsPrime, At, Apart;
    Small0();
    Begin(367069, 57690);
    Climb(367069, 57690, 0, 338, 0, 5, 2, 2, 1, 1, 188668, 257166, 367068);
    Inverse(367069, 57690, 2, 676, 338, 367068, 183534, 183535);
    Climb(367069, 57690, 0, 52, 0, 0, 6, 4, 1, 1, 1, 294001, 115533);
    Inverse(367069, 57690, 13, 676, 52, 115533, 113296, 113297);
    Double(367069, 57690, 338, 367068, 676, 1);
    Certificate4(367069, 57690, 2, 2, 13, 13, 676);
  }

  lemma Prime426631()
    ensures IsPrime(426631)
  {
    hide IsPrime, At, Apart;
    Small16();
    Begin(426631, 338228);
    Inverse(426631, 338228, 14221, 14221, 1, 338228, 253916, 253917);
    Climb(426631, 338228, 0, 3, 0, 0, 0, 3, 1, 1, 1, 1, 15857);
    Climb(426631, 338228, 3, 14221, 3, 6, 1, 5, 15857, 319193, 8551, 181960, 1);
    Compose(426631, 338228, 1, 338228, 14221, 1, 14221);
    Certificate1(426631, 338228, 14221);
  }

  lemma Prime435041()
    ensures IsPrime(435041)
  {
    hide IsPrime, At, Apart;
    Small10();
    Begin(435041, 280624);
    Inverse(435041, 280624, 2719, 2719, 1, 280624, 399822, 399823);
    Climb(435041, 280624, 0, 2719, 5, 2, 3, 7, 1, 1918, 16137, 385153, 1);
    Compose(435041, 280624, 1, 280624, 2719, 1, 2719);
    Certificate1(435041, 280624, 2719);
  }

  lemma Prime469529()
    ensures IsPrime(469529)
  {
    hide IsPrime, At, Apart;
    Small11();
    Begin(469529, 156366);
    Inverse(469529, 156366, 3089, 3089, 1, 156366, 135233, 135234);
    Climb(469529, 156366, 0, 3089, 6, 0, 2, 1, 1, 224, 136722, 163872, 1);
    Compose(469529, 156366, 1, 156366, 3089, 1, 3089);
    Certificate1(469529, 156366, 3089);
  }

  lemma Prime489427()
    ensures IsPrime(489427)
  {
    hide IsPrime, At, Apart;
    Small0();
    Small5();
    Begin(489427, 184095);
    Climb(489427, 184095, 0, 271, 0, 4, 1, 7, 1, 1, 111894, 1337, 112998);
    Inverse(489427, 184095, 3, 813, 271, 112998, 288618, 288619);
    Climb(489427, 184095, 0, 3, 0, 0, 0, 3, 1, 1, 1, 1, 3478);
    Inverse(489427, 184095, 271, 813, 3, 3478, 21818, 21819);
    Begin(489427, 112998);
    Climb(489427, 112998, 0, 3, 0, 0, 0, 3, 1, 1, 1, 1, 1);
    Compose(489427, 184095, 271, 112998, 3, 1, 813);
    Certificate2(489427, 184095, 3, 271, 813);
  }

  lemma Prime558491()
    ensures IsPrime(558491)
  {
    hide IsPrime, At, Apart;
    Prime55849();
    Begin(558491, 1024);
    Inverse(558491, 1024, 55849, 55849, 1, 1024, 216736, 216737);
    Climb(558491, 1024, 0, 13, 0, 0, 1, 5, 1, 1, 1, 1024, 5060);
    Climb(558491, 1024, 13, 55849, 5, 0, 5, 1, 5060, 282, 264159, 415499, 1);
    Compose(558491, 1024, 1, 1024, 55849, 1, 55849);
    Certificate1(558491, 1024, 55849);
  }

  lemma Prime652559()
    ensures IsPrime(652559)
  {
    hide IsPrime, At, Apart;
    Small15();
    Begin(652559, 399314);
    Inverse(652559, 399314, 11251, 11251, 1, 399314, 391673, 391674);
    Climb(652559, 399314, 0, 2, 0, 0, 0, 2, 1, 1, 1, 1, 184064);
    Climb(652559, 399314, 2, 11251, 5, 7, 6, 3, 184064, 311829, 49215, 510299, 1);
    Compose(652559, 399314, 1, 399314, 11251, 1, 11251);
    Certificate1(652559, 399314, 11251);
  }

  lemma Prime752023()
    ensures IsPrime(752023)
  {
    hide IsPrime, At, Apart;
    Small8();
    Begin(752023, 203960);
    Inverse(752023, 203960, 1019, 1019, 1, 203960, 244888, 244889);
    Climb(752023, 203960, 0, 1019, 1, 7, 7, 3, 1, 203960, 314972, 483594, 1);
    Compose(752023, 203960, 1, 203960, 1019, 1, 1019);
    Certificate1(752023, 203960, 1019);
  }

  lemma Prime769543()
    ensures IsPrime(769543)
  {
    hide IsPrime, At, Apart;
    Prime128257();
    Begin(769543, 64);
    Inverse(769543, 64, 128257, 128257, 1, 64, 390879, 390880);
    Climb(769543, 64, 0, 31, 0, 0, 3, 7, 1, 1, 1, 262144, 611895);
    Climb(769543, 64, 31, 128257, 2, 4, 0, 1, 611895, 562254, 631140, 97548, 1);
    Compose(769543, 64, 1, 64, 128257, 1, 128257);
    Certificate1(769543, 64, 128257);
  }

  lemma Prime870083()
    ensures IsPrime(870083)
  {
    hide IsPrime, At, Apart;
    Prime435041();
    Begin(870083, 4);
    Inverse(870083, 4, 435041, 435041, 1, 4, 290028, 290029);
    Climb(870083, 4, 0, 106, 0, 1, 5, 2, 1, 1, 4, 112473, 285283);
    Climb(870083, 4, 106, 435041, 1, 5, 4, 1, 285283, 475226, 440539, 213265, 1);
    Compose(870083, 4, 1, 4, 435041, 1, 435041);
    Certificate1(870083, 4, 435041);
  }

  lemma Prime1160111()
    ensures IsPrime(1160111)
  {
    hide IsPrime, At, Apart;
    Small17();
    Begin(1160111, 4879);
    Inverse(1160111, 4879, 16573, 16573, 1, 4879, 401211, 401212);
    Climb(1160111, 4879, 0, 4, 0, 0, 0, 4, 1, 1, 1, 1, 497777);
    Climb(1160111, 4879, 4, 16573, 0, 2, 7, 5, 497777, 565582, 512224, 306078, 1);
    Compose(1160111, 4879, 1, 4879, 16573, 1, 16573);
    Certificate1(1160111, 4879, 16573);
  }

  lemma Prime1278337()
    ensures IsPrime(1278337)
  {
    hide IsPrime, At, Apart;
    Small11();
    Begin(1278337, 627801);
    Inverse(1278337, 627801, 3329, 3329, 1, 627801, 437638, 437639);
    Climb(1278337, 627801, 0, 3329, 6, 4, 0, 1, 1, 743111, 19974, 491745, 1);
    Compose(1278337, 627801, 1, 627801, 3329, 1, 3329);
    Certificate1(1278337, 627801, 3329);
  }

  lemma Prime1380881()
    ensures IsPrime(1380881)
  {
    hide IsPrime, At, Apart;
    Small0();
    Small6();
    Begin(1380881, 1328154);
    Climb(1380881, 1328154, 0, 842, 1, 5, 1, 2, 1, 1328154, 746834, 1301870, 1380880);
    Inverse(1380881, 1328154, 2, 1684, 842, 1380880, 690440, 690441);
    Climb(1380881, 1328154, 0, 4, 0, 0, 0, 4, 1, 1, 1, 1, 744794);
    Inverse(1380881, 1328154, 421, 1684, 4, 744794, 320027, 320028);
    Double(1380881, 1328154, 842, 1380880, 1684, 1);
    Certificate3(1380881, 1328154, 2, 2, 421, 1684);
  }

  lemma Prime1525969()
    ensures IsPrime(1525969)
  {
    hide IsPrime, At, Apart;
    Small15();
    Begin(1525969, 458301);
    Inverse(1525969, 458301, 10597, 10597, 1, 458301, 632200, 632201);
    Climb(1525969, 458301, 0, 2, 0, 0, 0, 2, 1, 1, 1, 1, 855534);
    Climb(1525969, 458301, 2, 10597, 4, 5, 4, 5, 855534, 535842, 549530, 747589, 1);
    Compose(1525969, 458301, 1, 458301, 10597, 1, 10597);
    Certificate1(1525969, 458301, 10597);
  }

  lemma Prime1546799()
    ensures IsPrime(1546799)
  {
    hide IsPrime, At, Apart;
    Prime70309();
    Begin(1546799, 1100706);
    Inverse(1546799, 1100706, 70309, 70309, 1, 1100706, 501033, 501034);
    Climb(1546799, 1100706, 0, 17, 0, 0, 2, 1, 1, 1, 1, 179701, 170497);
    Climb(1546799, 1100706, 17, 70309, 1, 2, 4, 5, 170497, 1004724, 1526550, 674850, 1);
    Compose(1546799, 1100706, 1, 1100706, 70309, 1, 70309);
    Certificate1(1546799, 1100706, 70309);
  }

  lemma Prime1628507()
    ensures IsPrime(1628507)
  {
    hide IsPrime, At, Apart;
    Small0();
    Small8();
    Begin(1628507, 747698);
    Climb(1628507, 747698, 0, 937, 1, 6, 5, 1, 1, 747698, 428291, 582681, 1628506);
    Inverse(1628507, 747698, 2, 1874, 937, 1628506, 814253, 814254);
    Double(1628507, 747698, 1, 747698, 2, 502667);
    Inverse(1628507, 747698, 937, 1874, 2, 502667, 1068910, 1068911);
    Double(1628507, 747698, 937, 1628506, 1874, 1);
    Certificate2(1628507, 747698, 2, 937, 1874);
  }

  lemma Prime1794083()
    ensures IsPrime(1794083)
  {
    hide IsPrime, At, Apart;
    Small9();
    Begin(1794083, 634327);
    Inverse(1794083, 634327, 1571, 1571, 1, 634327, 134999, 135000);
    Climb(1794083, 634327, 0, 1571, 3, 0, 4, 3, 1, 907839, 755028, 613602, 1);
    Compose(1794083, 634327, 1, 634327, 1571, 1, 1571);
    Certificate1(1794083, 634327, 1571);
  }

  lemma Prime2062391()
    ensures IsPrime(2062391)
  {
    hide IsPrime, At, Apart;
    Small17();
    Begin(2062391, 909351);
    Inverse(2062391, 909351, 18749, 18749, 1, 909351, 871221, 871222);
    Climb(2062391, 909351, 0, 4, 0, 0, 0, 4, 1, 1, 1, 1, 67291);
    Climb(2062391, 909351, 4, 18749, 4, 4, 7, 5, 67291, 1024341, 1063968, 1524827, 1);
    Compose(2062391, 909351, 1, 909351, 18749, 1, 18749);
    Certificate1(2062391, 909351, 18749);
  }

  lemma Prime2404679()
    ensures IsPrime(2404679)
  {
    hide IsPrime, At, Apart;
    Prime63281();
    Begin(2404679, 1455133);
    Inverse(2404679, 1455133, 63281, 63281, 1, 1455133, 2065379, 2065380);
    Climb(2404679, 1455133, 0, 15, 0, 0, 1, 7, 1, 1, 1, 1455133, 1582087);
    Climb(2404679, 1455133, 15, 63281, 3, 4, 6, 1, 1582087, 413591, 1405733, 2099232, 1);
    Compose(2404679, 1455133, 1, 1455133, 63281, 1, 63281);
    Certificate1(2404679, 1455133, 63281);
  }

  lemma Prime2749847()
    ensures IsPrime(2749847)
  {
    hide IsPrime, At, Apart;
    Small0();
    Begin(2749847, 1407698);
    Climb(2749847, 1407698, 0, 1331, 2, 4, 6, 3, 1, 2414982, 2564560, 1266155, 2749846);
    Inverse(2749847, 1407698, 2, 2662, 1331, 2749846, 1374923, 1374924);
    Climb(2749847, 1407698, 0, 242, 0, 3, 6, 2, 1, 1, 981358, 1765984, 1681036);
    Inverse(2749847, 1407698, 11, 2662, 242, 1681036, 515413, 515414);
    Double(2749847, 1407698, 1331, 2749846, 2662, 1);
    Certificate4(2749847, 1407698, 2, 11, 11, 11, 2662);
  }

  lemma Prime2797259()
    ensures IsPrime(2797259)
  {
    hide IsPrime, At, Apart;
    Small17();
    Begin(2797259, 1062837);
    Inverse(2797259, 1062837, 19699, 19699, 1, 1062837, 293847, 293848);
    Climb(2797259, 1062837, 0, 4, 0, 0, 0, 4, 1, 1, 1, 1, 1469975);
    Climb(2797259, 1062837, 4, 19699, 6, 3, 6, 3, 1469975, 1763950, 141779, 748629, 1);
    Compose(2797259, 1062837, 1, 1062837, 19699, 1, 19699);
    Certificate1(2797259, 1062837, 19699);
  }

  lemma Prime2819497()
    ensures IsPrime(2819497)
  {
    hide IsPrime, At, Apart;
    Small12();
    Begin(2819497, 1895235);
    Inverse(2819497, 1895235, 4051, 4051, 1, 1895235, 1834653, 1834654);
    Climb(2819497, 1895235, 0, 4051, 7, 7, 2, 3, 1, 1976349, 967428, 1439034, 1);
    Compose(2819497, 1895235, 1, 1895235, 4051, 1, 4051);
    Certificate1(2819497, 1895235, 4051);
  }

  lemma Prime3193627()
    ensures IsPrime(3193627)
  {
    hide IsPrime, At, Apart;
    Small0();
    Small9();
    Begin(3193627, 1359520);
    Climb(3193627, 1359520, 0, 1427, 2, 6, 2, 3, 1, 2165912, 856365, 2640758, 3193626);
    Inverse(3193627, 1359520, 2, 2854, 1427, 3193626, 1596813, 1596814);
    Double(3193627, 1359520, 1, 1359520, 2, 2165912);
    Inverse(3193627, 1359520, 1427, 2854, 2, 2165912, 1511870, 1511871);
    Double(3193627, 1359520, 1427, 3193626, 2854, 1);
    Certificate2(3193627, 1359520, 2, 1427, 2854);
  }

  lemma Prime3207961()
    ensures IsPrime(3207961)
  {
    hide IsPrime, At, Apart;
    Small0();
    Small2();
    Begin(3207961, 310849);
    Climb(3207961, 310849, 0, 938, 1, 6, 5, 2, 1, 310849, 1700193, 254352, 3207960);
    Inverse(3207961, 310849, 2, 1876, 938, 3207960, 1603980, 1603981);
    Climb(3207961, 310849, 0, 268, 0, 4, 1, 4, 1, 1, 2266917, 2678145, 1266154);
    Inverse(3207961, 310849, 7, 1876, 268, 1266154, 1294983, 1294984);
    Climb(3207961, 310849, 0, 28, 0, 0, 3, 4, 1, 1, 1, 1946782, 1075681);
    Inverse(3207961, 310849, 67, 1876, 28, 1075681, 1566401, 1566402);
    Double(3207961, 310849, 938, 3207960, 1876, 1);
    Certificate4(3207961, 310849, 2, 2, 7, 67, 1876);
  }

  lemma Prime3666241()
    ensures IsPrime(3666241)
  {
    hide IsPrime, At, Apart;
    Small0();
    Small1();
    Small2();
    Begin(3666241, 410951);
    Climb(3666241, 410951, 0, 1273, 2, 3, 7, 1, 1, 2665218, 2002252, 252130, 3666240);
    Inverse(3666241, 410951, 2, 2546, 1273, 3666240, 1833120, 1833121);
    Climb(3666241, 410951, 0, 134, 0, 2, 0, 6, 1, 1, 2665218, 2658118, 1753460);
    Inverse(3666241, 410951, 19, 2546, 134, 1753460, 441082, 441083);
    Climb(3666241, 410951, 0, 38, 0, 0, 4, 6, 1, 1, 1, 1055132, 535450);
    Inverse(3666241, 410951, 67, 2546, 38, 535450, 2913628, 2913629);
    Double(3666241, 410951, 1273, 3666240, 2546, 1);
    Certificate3(3666241, 410951, 2, 19, 67, 2546);
  }

  lemma Prime3666461()
    ensures IsPrime(3666461)
  {
    hide IsPrime, At, Apart;
    Prime26189();
    Begin(3666461, 2030939);
    Inverse(3666461, 2030939, 26189, 26189, 1, 2030939, 3171387, 3171388);
    Climb(3666461, 2030939, 0, 6, 0, 0, 0, 6, 1, 1, 1, 1, 131963);
    Climb(3666461, 2030939, 6, 26189, 3, 1, 1, 5, 131963, 826852, 1573980, 1795362, 1);
    Compose(3666461, 2030939, 1, 2030939, 26189, 1, 26189);
    Certificate1(3666461, 2030939, 26189);
  }

  lemma Prime3862609()
    ensures IsPrime(3862609)
  {
    hide IsPrime, At, Apart;
    Prime80471();
    Begin(3862609, 3605349);
    Inverse(3862609, 3605349, 80471, 80471, 1, 3605349, 2893297, 2893298);
    Climb(3862609, 3605349, 0, 19, 0, 0, 2, 3, 1, 1, 1, 764994, 3790278);
    Climb(3862609, 3605349, 19, 80471, 5, 1, 2, 7, 3790278, 827289, 630535, 1060447, 1);
    Compose(3862609, 3605349, 1, 3605349, 80471, 1, 80471);
    Certificate1(3862609, 3605349, 80471);
  }

  lemma Prime4467929()
    ensures IsPrime(4467929)
  {
    hide IsPrime, At, Apart;
    Prime558491();
    Begin(4467929, 256);
    Inverse(4467929, 256, 558491, 558491, 1, 256, 543160, 543161);
    Climb(4467929, 256, 0, 136, 0, 2, 1, 0, 1, 1, 65536, 23357, 4456553);
    Climb(4467929, 256, 136, 558491, 2, 6, 3, 3, 4456553, 24726, 1995996, 558491, 1);
    Compose(4467929, 256, 1, 256, 558491, 1, 558491);
    Certificate1(4467929, 256, 558491);
  }

  lemma Prime4888619()
    ensures IsPrime(4888619)
  {
    hide IsPrime, At, Apart;
    Prime349187();
    Begin(4888619, 16384);
    Inverse(4888619, 16384, 349187, 349187, 1, 16384, 3254305, 3254306);
    Climb(4888619, 16384, 0, 85, 0, 1, 2, 5, 1, 1, 16384, 3011319, 1990647);
    Climb(4888619, 16384, 85, 349187, 2, 0, 0, 3, 1990647, 1594843, 1092126, 387244, 1);
    Compose(4888619, 16384, 1, 16384, 349187, 1, 349187);
    Certificate1(4888619, 16384, 349187);
  }

  lemma Prime5150149()
    ensures IsPrime(5150149)
  {
    hide IsPrime, At, Apart;
    Small10();
    Begin(5150149, 3965413);
    Inverse(5150149, 3965413, 2633, 2633, 1, 3965413, 3356882, 3356883);
    Climb(5150149, 3965413, 0, 2633, 5, 1, 1, 1, 1, 137555, 4585757, 610145, 1);
    Compose(5150149, 3965413, 1, 3965413, 2633, 1, 2633);
    Certificate1(5150149, 3965413, 2633);
  }

  lemma Prime5166653()
    ensures IsPrime(5166653)
  {
    hide IsPrime, At, Apart;
    Prime24371();
    Begin(5166653, 1426803);
    Inverse(5166653, 1426803, 24371, 24371, 1, 1426803, 2871497, 2871498);
    Climb(5166653, 1426803, 0, 5, 0, 0, 0, 5, 1, 1, 1, 1, 772395);
    Climb(5166653, 1426803, 5, 24371, 7, 4, 6, 3, 772395, 4316200, 4886020, 2267597, 1);
    Compose(5166653, 1426803, 1, 1426803, 24371, 1, 24371);
    Certificate1(5166653, 1426803, 24371);
  }

  lemma Prime5490607()
    ensures IsPrime(5490607)
  {
    hide IsPrime, At, Apart;
    Small12();
    Begin(5490607, 3733016);
    Inverse(5490607, 3733016, 3617, 3617, 1, 3733016, 290623, 290624);
    Climb(5490607, 3733016, 0, 3617, 7, 0, 4, 1, 1, 5117957, 222501, 2565310, 1);
    Compose(5490607, 3733016, 1, 3733016, 3617, 1, 3617);
    Certificate1(5490607, 3733016, 3617);
  }

  lemma Prime6518173()
    ensures IsPrime(6518173)
  {
    hide IsPrime, At, Apart;
    Small11();
    Begin(6518173, 5156445);
    Inverse(6518173, 5156445, 3001, 3001, 1, 5156445, 2386734, 2386735);
    Climb(6518173, 5156445, 0, 3001, 5, 6, 7, 1, 1, 6118603, 5725124, 2831840, 1);
    Compose(6518173, 5156445, 1, 5156445, 3001, 1, 3001);
    Certificate1(6518173, 5156445, 3001);
  }

  lemma Prime7427131()
    ensures IsPrime(7427131)
  {
    hide IsPrime, At, Apart;
    Small16();
    Begin(7427131, 157167);
    Inverse(7427131, 157167, 14563, 14563, 1, 157167, 4687146, 4687147);
    Climb(7427131, 157167, 0, 3, 0, 0, 0, 3, 1, 1, 1, 1, 7032099);
    Climb(7427131, 157167, 3, 14563, 4, 3, 4, 3, 7032099, 1705515, 258343, 4760092, 1);
    Compose(7427131, 157167, 1, 157167, 14563, 1, 14563);
    Certificate1(7427131, 157167, 14563);
  }

  lemma Prime8690917()
    ensures IsPrime(8690917)
  {
    hide IsPrime, At, Apart;
    Prime55711();
    Begin(8690917, 4776127);
    Inverse(8690917, 4776127, 55711, 55711, 1, 4776127, 1380158, 1380159);
    Climb(8690917, 4776127, 0, 13, 0, 0, 1, 5, 1, 1, 1, 4776127, 8336823);
    Climb(8690917, 4776127, 13, 55711, 4, 6, 3, 7, 8336823, 4078353, 7706829, 274170, 1);
    Compose(8690917, 4776127, 1, 4776127, 55711, 1, 55711);
    Certificate1(8690917, 4776127, 55711);
  }

  lemma Prime9234517()
    ensures IsPrime(9234517)
  {
    hide IsPrime, At, Apart;
    Prime769543();
    Begin(9234517, 4096);
    Inverse(9234517, 4096, 769543, 769543, 1, 4096, 5281377, 5281378);
    Climb(9234517, 4096, 0, 187, 0, 2, 7, 3, 1, 1, 7542699, 6742574, 154387);
    Climb(9234517, 4096, 187, 769543, 7, 0, 0, 7, 154387, 9166605, 5019813, 7485219, 1);
    Compose(9234517, 4096, 1, 4096, 769543, 1, 769543);
    Certificate1(9234517, 4096, 769543);
  }

  lemma Prime9562031()
    ensures IsPrime(9562031)
  {
    hide IsPrime, At, Apart;
    Small0();
    Small9();
    Begin(9562031, 9002696);
    Climb(9562031, 9002696, 0, 1901, 3, 5, 5, 5, 1, 3381892, 1695737, 7367441, 9562030);
    Inverse(9562031, 9002696, 2, 3802, 1901, 9562030, 4781015, 4781016);
    Double(9562031, 9002696, 1, 9002696, 2, 5111967);
    Inverse(9562031, 9002696, 1901, 3802, 2, 5111967, 8347587, 8347588);
    Double(9562031, 9002696, 1901, 9562030, 3802, 1);
    Certificate2(9562031, 9002696, 2, 1901, 3802);
  }

  lemma Prime11587841()
    ensures IsPrime(11587841)
  {
    hide IsPrime, At, Apart;
    Small0();
    Small7();
    Begin(11587841, 10871995);
    Climb(11587841, 10871995, 0, 3292, 6, 3, 3, 4, 1, 2080446, 4123150, 9634223, 11587840);
    Inverse(11587841, 10871995, 2, 6584, 3292, 11587840, 5793920, 5793921);
    Climb(11587841, 10871995, 0, 8, 0, 0, 1, 0, 1, 1, 1, 10871995, 8306852);
    Inverse(11587841, 10871995, 823, 6584, 8, 8306852, 3294690, 3294691);
    Double(11587841, 10871995, 3292, 11587840, 6584, 1);
    Certificate4(11587841, 10871995, 2, 2, 2, 823, 6584);
  }

  lemma Prime13006913()
    ensures IsPrime(13006913)
  {
    hide IsPrime, At, Apart;
    Prime203233();
    Begin(13006913, 5756848);
    Inverse(13006913, 5756848, 203233, 203233, 1, 5756848, 9244747, 9244748);
    Climb(13006913, 5756848, 0, 49, 0, 0, 6, 1, 1, 1, 1, 6762804, 12322091);
    Climb(13006913, 5756848, 49, 203233, 4, 7, 4, 1, 12322091, 3400356, 3806808, 11763328, 1);
    Compose(13006913, 5756848, 1, 5756848, 203233, 1, 203233);
    Certificate1(13006913, 5756848, 203233);
  }

  lemma Prime14003807()
    ensures IsPrime(14003807)
  {
    hide IsPrime, At, Apart;
    Small15();
    Begin(14003807, 3718937);
    Inverse(14003807, 3718937, 10133, 10133, 1, 3718937, 10985624, 10985625);
    Climb(14003807, 3718937, 0, 2, 0, 0, 0, 2, 1, 1, 1, 1, 10529208);
    Climb(14003807, 3718937, 2, 10133, 3, 6, 2, 5, 10529208, 3236493, 8789805, 7384330, 1);
    Compose(14003807, 3718937, 1, 3718937, 10133, 1, 10133);
    Certificate1(14003807, 3718937, 10133);
  }

  lemma Prime15450437()
    ensures IsPrime(15450437)
  {
    hide IsPrime, At, Apart;
    Prime3862609();
    Begin(15450437, 16);
    Inverse(15450437, 16, 3862609, 3862609, 1, 16, 7210204, 7210205);
    Climb(15450437, 16, 0, 943, 1, 6, 5, 7, 1, 16, 13635263, 5264603, 8239430);
    Climb(15450437, 16, 943, 3862609, 0, 1, 2, 1, 8239430, 7705722, 8167423, 10449557, 1);
    Compose(15450437, 16, 1, 16, 3862609, 1, 3862609);
    Certificate1(15450437, 16, 3862609);
  }

  lemma Prime20600597()
    ensures IsPrime(20600597)
  {
    hide IsPrime, At, Apart;
    Prime5150149();
    Begin(20600597, 16);
    Inverse(20600597, 16, 5150149, 5150149, 1, 16, 9613612, 9613613);
    Climb(20600597, 16, 0, 1257, 2, 3, 5, 1, 1, 256, 17233727, 4459278, 16572900);
    Climb(20600597, 16, 1257, 5150149, 2, 7, 0, 5, 16572900, 2428977, 9646216, 3402732, 1);
    Compose(20600597, 16, 1, 16, 5150149, 1, 5150149);
    Certificate1(20600597, 16, 5150149);
  }

  lemma Prime21350201()
    ensures IsPrime(21350201)
  {
    hide IsPrime, At, Apart;
    Prime106751();
    Begin(21350201, 7196194);
    Inverse(21350201, 7196194, 106751, 106751, 1, 7196194, 7651762, 7651763);
    Climb(21350201, 7196194, 0, 26, 0, 0, 3, 2, 1, 1, 1, 7542535, 11851319);
    Climb(21350201, 7196194, 26, 106751, 0, 3, 7, 7, 11851319, 19789616, 8336336, 14197915, 1);
    Compose(21350201, 7196194, 1, 7196194, 106751, 1, 106751);
    Certificate1(21350201, 7196194, 106751);
  }

  lemma Prime21997447()
    ensures IsPrime(21997447)
  {
    hide IsPrime, At, Apart;
    Prime3666241();
    Begin(21997447, 64);
    Inverse(21997447, 64, 3666241, 3666241, 1, 64, 8030814, 8030815);
    Climb(21997447, 64, 0, 895, 1, 5, 7, 7, 1, 64, 3801539, 3623962, 2558128);
    Climb(21997447, 64, 895, 3666241, 0, 5, 0, 1, 2558128, 20589807, 2572482, 20644394, 1);
    Compose(21997447, 64, 1, 64, 3666241, 1, 3666241);
    Certificate1(21997447, 64, 3666241);
  }

  lemma Prime22611179()
    ensures IsPrime(22611179)
  {
    hide IsPrime, At, Apart;
    Small2();
    Small3();
    Begin(22611179, 21534452);
    Climb(22611179, 21534452, 0, 103, 0, 1, 4, 7, 1, 1, 21534452, 10158971, 16322727);
    Inverse(22611179, 21534452, 53, 5459, 103, 16322727, 18479539, 18479540);
    Climb(22611179, 21534452, 0, 53, 0, 0, 6, 5, 1, 1, 1, 15768747, 21643616);
    Inverse(22611179, 21534452, 103, 5459, 53, 21643616, 9569937, 9569938);
    Begin(22611179, 16322727);
    Climb(22611179, 16322727, 0, 53, 0, 0, 6, 5, 1, 1, 1, 18059048, 1);
    Compose(22611179, 21534452, 103, 16322727, 53, 1, 5459);
    Certificate2(22611179, 21534452, 53, 103, 5459);
  }

  lemma Prime23010067()
    ensures IsPrime(23010067)
  {
    hide IsPrime, At, Apart;
    Prime1278337();
    Begin(23010067, 262144);
    Inverse(23010067, 262144, 1278337, 1278337, 1, 262144, 20492278, 20492279);
    Climb(23010067, 262144, 0, 312, 0, 4, 7, 0, 1, 1, 12741044, 7633934, 17363526);
    Climb(23010067, 262144, 312, 1278337, 0, 6, 0, 1, 17363526, 5484729, 7514122, 5940375, 1);
    Compose(23010067, 262144, 1, 262144, 1278337, 1, 1278337);
    Certificate1(23010067, 262144, 1278337);
  }

  lemma Prime27467443()
    ensures IsPrime(27467443)
  {
    hide IsPrime, At, Apart;
    Prime1525969();
    Begin(27467443, 262144);
    Inverse(27467443, 262144, 1525969, 1525969, 1, 262144, 25887774, 25887775);
    Climb(27467443, 262144, 0, 372, 0, 5, 6, 4, 1, 1, 18227988, 14861786, 23713848);
    Climb(27467443, 262144, 372, 1525969, 4, 3, 2, 1, 23713848, 21669312, 4671639, 18153438, 1);
    Compose(27467443, 262144, 1, 262144, 1525969, 1, 1525969);
    Certificate1(27467443, 262144, 1525969);
  }

  lemma Prime36623261()
    ensures IsPrime(36623261)
  {
    hide IsPrime, At, Apart;
    Prime96377();
    Begin(36623261, 6280656);
    Inverse(36623261, 6280656, 96377, 96377, 1, 6280656, 4708887, 4708888);
    Climb(36623261, 6280656, 0, 23, 0, 0, 2, 7, 1, 1, 1, 18353324, 17197518);
    Climb(36623261, 6280656, 23, 96377, 4, 1, 7, 1, 17197518, 32756036, 19095682, 33134419, 1);
    Compose(36623261, 6280656, 1, 6280656, 96377, 1, 96377);
    Certificate1(36623261, 6280656, 96377);
  }

  lemma Prime39161627()
    ensures IsPrime(39161627)
  {
    hide IsPrime, At, Apart;
    Prime2797259();
    Begin(39161627, 16384);
    Inverse(39161627, 16384, 2797259, 2797259, 1, 16384, 8937638, 8937639);
    Climb(39161627, 16384, 0, 682, 1, 2, 5, 2, 1, 16384, 23102604, 8580392, 14568157);
    Climb(39161627, 16384, 682, 2797259, 7, 3, 1, 3, 14568157, 16674677, 15886610, 11368733, 1);
    Compose(39161627, 16384, 1, 16384, 2797259, 1, 2797259);
    Certificate1(39161627, 16384, 2797259);
  }

  lemma Prime39276929()
    ensures IsPrime(39276929)
  {
    hide IsPrime, At, Apart;
    Small0();
    Small12();
    Begin(39276929, 112261);
    Climb(39276929, 112261, 0, 3697, 7, 1, 6, 1, 1, 24753510, 13106256, 28743090, 39276928);
    Inverse(39276929, 112261, 2, 7394, 3697, 39276928, 19638464, 19638465);
    Double(39276929, 112261, 1, 112261, 2, 33914841);
    Inverse(39276929, 112261, 3697, 7394, 2, 33914841, 19724038, 19724039);
    Double(39276929, 112261, 3697, 39276928, 7394, 1);
    Certificate2(39276929, 112261, 2, 3697, 7394);
  }

  lemma Prime48597893()
    ensures IsPrime(48597893)
  {
    hide IsPrime, At, Apart;
    Small0();
    Small13();
    Begin(48597893, 45329780);
    Climb(48597893, 45329780, 0, 1, 0, 0, 0, 1, 1, 1, 1, 1, 45329780);
    Climb(48597893, 45329780, 1, 6133, 3, 7, 6, 5, 45329780, 5907193, 45634257, 11060135, 48597892);
    Inverse(48597893, 45329780, 2, 12266, 6133, 48597892, 24298946, 24298947);
    Double(48597893, 45329780, 1, 45329780, 2, 9244587);
    Inverse(48597893, 45329780, 6133, 12266, 2, 9244587, 38580596, 38580597);
    Double(48597893, 45329780, 6133, 48597892, 12266, 1);
    Certificate2(48597893, 45329780, 2, 6133, 12266);
  }

  lemma Prime48831017()
    ensures IsPrime(48831017)
  {
    hide IsPrime, At, Apart;
    Prime469529();
    Begin(48831017, 4833258);
    Inverse(48831017, 4833258, 469529, 469529, 1, 4833258, 17875718, 17875719);
    Climb(48831017, 4833258, 0, 114, 0, 1, 6, 2, 1, 1, 4833258, 28470363, 32333569);
    Climb(48831017, 4833258, 114, 469529, 5, 0, 3, 1, 32333569, 35084941, 13771523, 45630058, 1);
    Compose(48831017, 4833258, 1, 4833258, 469529, 1, 469529);
    Certificate1(48831017, 4833258, 469529);
  }

  lemma Prime53530597()
    ensures IsPrime(53530597)
  {
    hide IsPrime, At, Apart;
    Prime212423();
    Begin(53530597, 7384259);
    Inverse(53530597, 7384259, 212423, 212423, 1, 7384259, 52939309, 52939310);
    Climb(53530597, 7384259, 0, 51, 0, 0, 6, 3, 1, 1, 1, 22435276, 14549404);
    Climb(53530597, 7384259, 51, 212423, 6, 7, 0, 7, 14549404, 50728734, 6628052, 31632507, 1);
    Compose(53530597, 7384259, 1, 7384259, 212423, 1, 212423);
    Certificate1(53530597, 7384259, 212423);
  }

  lemma Prime54157907()
    ensures IsPrime(54157907)
  {
    hide IsPrime, At, Apart;
    Small14();
    Begin(54157907, 14409977);
    Inverse(54157907, 14409977, 7717, 7717, 1, 14409977, 14744464, 14744465);
    Climb(54157907, 14409977, 0, 1, 0, 0, 0, 1, 1, 1, 1, 1, 14409977);
    Climb(54157907, 14409977, 1, 7717, 7, 0, 4, 5, 14409977, 27518107, 15557336, 11980084, 1);
    Compose(54157907, 14409977, 1, 14409977, 7717, 1, 7717);
    Certificate1(54157907, 14409977, 7717);
  }

  lemma Prime65107997()
    ensures IsPrime(65107997)
  {
    hide IsPrime, At, Apart;
    Prime51347();
    Begin(65107997, 30852248);
    Inverse(65107997, 30852248, 51347, 51347, 1, 30852248, 36894040, 36894041);
    Climb(65107997, 30852248, 0, 12, 0, 0, 1, 4, 1, 1, 1, 30852248, 13858246);
    Climb(65107997, 30852248, 12, 51347, 4, 2, 2, 3, 13858246, 1859465, 19139533, 24482534, 1);
    Compose(65107997, 30852248, 1, 30852248, 51347, 1, 51347);
    Certificate1(65107997, 30852248, 51347);
  }

  lemma Prime78553859()
    ensures IsPrime(78553859)
  {
    hide IsPrime, At, Apart;
    Prime39276929();
    Begin(78553859, 4);
    Inverse(78553859, 4, 39276929, 39276929, 1, 4, 26184620, 26184621);
    Climb(78553859, 4, 0, 2, 0, 0, 0, 2, 1, 1, 1, 1, 16);
    Climb(78553859, 4, 2, 9589, 2, 5, 6, 5, 16, 63403970, 31834323, 75618586, 69242846);
    Climb(78553859, 4, 9589, 39276929, 0, 6, 0, 1, 69242846, 59518381, 57345415, 15552521, 1);
    Compose(78553859, 4, 1, 4, 39276929, 1, 39276929);
    Certificate1(78553859, 4, 39276929);
  }

  lemma Prime86810681()
    ensures IsPrime(86810681)
  {
    hide IsPrime, At, Apart;
    Prime197297();
    Begin(86810681, 52791817);
    Inverse(86810681, 52791817, 197297, 197297, 1, 52791817, 43174459, 43174460);
    Climb(86810681, 52791817, 0, 48, 0, 0, 6, 0, 1, 1, 1, 26638147, 8225775);
    Climb(86810681, 52791817, 48, 197297, 1, 2, 6, 1, 8225775, 51132359, 21813750, 52719104, 1);
    Compose(86810681, 52791817, 1, 52791817, 197297, 1, 197297);
    Certificate1(86810681, 52791817, 197297);
  }

  lemma Prime115486597()
    ensures IsPrime(115486597)
  {
    hide IsPrime, At, Apart;
    Prime3207961();
    Begin(115486597, 4951521);
    Inverse(115486597, 4951521, 3207961, 3207961, 1, 4951521, 51583735, 51583736);
    Climb(115486597, 4951521, 0, 783, 1, 4, 1, 7, 1, 4951521, 91855257, 45533129, 76164605);
    Climb(115486597, 4951521, 783, 3207961, 1, 4, 3, 1, 76164605, 99111118, 37005441, 91905662, 1);
    Compose(115486597, 4951521, 1, 4951521, 3207961, 1, 3207961);
    Certificate1(115486597, 4951521, 3207961);
  }

  lemma Prime115747549()
    ensures IsPrime(115747549)
  {
    hide IsPrime, At, Apart;
    Prime25999();
    Begin(115747549, 66424458);
    Inverse(115747549, 66424458, 25999, 25999, 1, 66424458, 840673, 840674);
    Climb(115747549, 66424458, 0, 6, 0, 0, 0, 6, 1, 1, 1, 1, 9914854);
    Climb(115747549, 66424458, 6, 25999, 2, 6, 1, 7, 9914854, 72585298, 99981126, 20866447, 1);
    Compose(115747549, 66424458, 1, 66424458, 25999, 1, 25999);
    Certificate1(115747549, 66424458, 25999);
  }

  lemma Prime152252839()
    ensures IsPrime(152252839)
  {
    hide IsPrime, At, Apart;
    Prime2819497();
    Begin(152252839, 28437510);
    Inverse(152252839, 28437510, 2819497, 2819497, 1, 28437510, 119464465, 119464466);
    Climb(152252839, 28437510, 0, 688, 1, 2, 6, 0, 1, 28437510, 41153442, 83014936, 69182999);
    Climb(152252839, 28437510, 688, 2819497, 2, 6, 5, 1, 69182999, 133617556, 111231166, 66650087, 1);
    Compose(152252839, 28437510, 1, 28437510, 2819497, 1, 2819497);
    Certificate1(152252839, 28437510, 2819497);
  }

  lemma Prime154330079()
    ensures IsPrime(154330079)
  {
    hide IsPrime, At, Apart;
    Prime164531();
    Begin(154330079, 105657948);
    Inverse(154330079, 105657948, 164531, 164531, 1, 105657948, 24103847, 24103848);
    Climb(154330079, 105657948, 0, 40, 0, 0, 5, 0, 1, 1, 1, 84484485, 12066306);
    Climb(154330079, 105657948, 40, 164531, 1, 2, 6, 3, 12066306, 93048708, 65153118, 95098729, 1);
    Compose(154330079, 105657948, 1, 105657948, 164531, 1, 164531);
    Certificate1(154330079, 105657948, 164531);
  }

  lemma Prime161337853()
    ensures IsPrime(161337853)
  {
    hide IsPrime, At, Apart;
    Prime114913();
    Begin(161337853, 66401975);
    Inverse(161337853, 66401975, 114913, 114913, 1, 66401975, 119764771, 119764772);
    Climb(161337853, 66401975, 0, 28, 0, 0, 3, 4, 1, 1, 1, 1462715, 157096666);
    Climb(161337853, 66401975, 28, 114913, 0, 3, 4, 1, 157096666, 42440644, 55852335, 121741801, 1);
    Compose(161337853, 66401975, 1, 66401975, 114913, 1, 114913);
    Certificate1(161337853, 66401975, 114913);
  }

  lemma Prime205773427()
    ensures IsPrime(205773427)
  {
    hide IsPrime, At, Apart;
    Prime81077();
    Begin(205773427, 10202938);
    Inverse(205773427, 10202938, 81077, 81077, 1, 10202938, 171237503, 171237504);
    Climb(205773427, 10202938, 0, 19, 0, 0, 2, 3, 1, 1, 1, 195979679, 3183702);
    Climb(205773427, 10202938, 19, 81077, 6, 2, 6, 5, 3183702, 31350066, 190297383, 193017860, 1);
    Compose(205773427, 10202938, 1, 10202938, 81077, 1, 81077);
    Certificate1(205773427, 10202938, 81077);
  }

  lemma Prime263549137()
    ensures IsPrime(263549137)
  {
    hide IsPrime, At, Apart;
    Prime5490607();
    Begin(263549137, 18059327);
    Inverse(263549137, 18059327, 5490607, 5490607, 1, 18059327, 165048991, 165048992);
    Climb(263549137, 18059327, 0, 1340, 2, 4, 7, 4, 1, 133695936, 223497220, 94540688, 97408746);
    Climb(263549137, 18059327, 1340, 5490607, 3, 6, 5, 7, 97408746, 182973368, 40589365, 73284889, 1);
    Compose(263549137, 18059327, 1, 18059327, 5490607, 1, 5490607);
    Certificate1(263549137, 18059327, 5490607);
  }

  lemma Prime270671711()
    ensures IsPrime(270671711)
  {
    hide IsPrime, At, Apart;
    Small3();
    Small5();
    Begin(270671711, 227639729);
    Climb(270671711, 227639729, 0, 263, 0, 4, 0, 7, 1, 1, 66200598, 98798602, 196505772);
    Inverse(270671711, 227639729, 97, 25511, 263, 196505772, 221088271, 221088272);
    Climb(270671711, 227639729, 0, 97, 0, 1, 4, 1, 1, 1, 227639729, 145031093, 78178131);
    Inverse(270671711, 227639729, 263, 25511, 97, 78178131, 209808897, 209808898);
    Begin(270671711, 196505772);
    Climb(270671711, 196505772, 0, 97, 0, 1, 4, 1, 1, 1, 196505772, 115229922, 1);
    Compose(270671711, 227639729, 263, 196505772, 97, 1, 25511);
    Certificate2(270671711, 227639729, 97, 263, 25511);
  }

  lemma Prime274364561()
    ensures IsPrime(274364561)
  {
    hide IsPrime, At, Apart;
    Prime180503();
    Begin(274364561, 17059841);
    Inverse(274364561, 17059841, 180503, 180503, 1, 17059841, 104704658, 104704659);
    Climb(274364561, 17059841, 0, 44, 0, 0, 5, 4, 1, 1, 1, 33203329, 79846922);
    Climb(274364561, 17059841, 44, 180503, 0, 4, 2, 7, 79846922, 249637892, 12589533, 248033282, 1);
    Compose(274364561, 17059841, 1, 17059841, 180503, 1, 180503);
    Certificate1(274364561, 17059841, 180503);
  }

  lemma Prime365819417()
    ensures IsPrime(365819417)
  {
    hide IsPrime, At, Apart;
    Small0();
    Small13();
    Begin(365819417, 354701830);
    Climb(365819417, 354701830, 0, 2, 0, 0, 0, 2, 1, 1, 1, 1, 236822528);
    Climb(365819417, 354701830, 2, 9722, 2, 7, 7, 2, 236822528, 54947574, 202346405, 85013483, 365819416);
    Inverse(365819417, 354701830, 2, 19444, 9722, 365819416, 182909708, 182909709);
    Climb(365819417, 354701830, 0, 4, 0, 0, 0, 4, 1, 1, 1, 1, 176209250);
    Inverse(365819417, 354701830, 4861, 19444, 4, 176209250, 123947143, 123947144);
    Double(365819417, 354701830, 9722, 365819416, 19444, 1);
    Certificate3(365819417, 354701830, 2, 2, 4861, 19444);
  }

  lemma Prime487759219()
    ensures IsPrime(487759219)
  {
    hide IsPrime, At, Apart;
    Prime101999();
    Begin(487759219, 163879367);
    Inverse(487759219, 163879367, 101999, 101999, 1, 163879367, 261527198, 261527199);
    Climb(487759219, 163879367, 0, 24, 0, 0, 3, 0, 1, 1, 1, 387190788, 130669257);
    Climb(487759219, 163879367, 24, 101999, 7, 1, 5, 7, 130669257, 286495636, 366940333, 324015910, 1);
    Compose(487759219, 163879367, 1, 163879367, 101999, 1, 101999);
    Certificate1(487759219, 163879367, 101999);
  }

  lemma Prime646557019()
    ensures IsPrime(646557019)
  {
    hide IsPrime, At, Apart;
    Prime93949();
    Begin(646557019, 301831536);
    Inverse(646557019, 301831536, 93949, 93949, 1, 301831536, 504133410, 504133411);
    Climb(646557019, 301831536, 0, 22, 0, 0, 2, 6, 1, 1, 1, 532606015, 466866028);
    Climb(646557019, 301831536, 22, 93949, 7, 3, 7, 5, 466866028, 45942996, 451134631, 118666112, 1);
    Compose(646557019, 301831536, 1, 301831536, 93949, 1, 93949);
    Certificate1(646557019, 301831536, 93949);
  }

  lemma Prime650345651()
    ensures IsPrime(650345651)
  {
    hide IsPrime, At, Apart;
    Prime13006913();
    Begin(650345651, 54424941);
    Inverse(650345651, 54424941, 13006913, 13006913, 1, 54424941, 134249522, 134249523);
    Climb(650345651, 54424941, 0, 3175, 6, 1, 4, 7, 1, 220724677, 429057055, 277486396, 240814026);
    Climb(650345651, 54424941, 3175, 13006913, 4, 1, 0, 1, 240814026, 183991910, 141544270, 485972521, 1);
    Compose(650345651, 54424941, 1, 54424941, 13006913, 1, 13006913);
    Certificate1(650345651, 54424941, 13006913);
  }

  lemma Prime867127501()
    ensures IsPrime(867127501)
  {
    hide IsPrime, At, Apart;
    Small1();
    Small10();
    Begin(867127501, 845576397);
    Climb(867127501, 845576397, 0, 2267, 4, 3, 3, 3, 1, 147447873, 12660792, 240934420, 675190076);
    Inverse(867127501, 845576397, 17, 38539, 2267, 675190076, 196848990, 196848991);
    Climb(867127501, 845576397, 0, 17, 0, 0, 2, 1, 1, 1, 1, 118660697, 243820826);
    Inverse(867127501, 845576397, 2267, 38539, 17, 243820826, 255507984, 255507985);
    Begin(867127501, 675190076);
    Climb(867127501, 675190076, 0, 17, 0, 0, 2, 1, 1, 1, 1, 802465553, 1);
    Compose(867127501, 845576397, 2267, 675190076, 17, 1, 38539);
    Certificate2(867127501, 845576397, 17, 2267, 38539);
  }

  lemma Prime1156170011()
    ensures IsPrime(1156170011)
  {
    hide IsPrime, At, Apart;
    Prime426631();
    Begin(1156170011, 928612062);
    Inverse(1156170011, 928612062, 426631, 426631, 1, 928612062, 1022319065, 1022319066);
    Climb(1156170011, 928612062, 0, 104, 0, 1, 5, 0, 1, 1, 928612062, 717883489, 1060764715);
    Climb(1156170011, 928612062, 104, 426631, 1, 2, 0, 7, 1060764715, 249403261, 578396412, 590599968, 1);
    Compose(1156170011, 928612062, 1, 928612062, 426631, 1, 426631);
    Certificate1(1156170011, 928612062, 426631);
  }

  lemma Prime1374329699()
    ensures IsPrime(1374329699)
  {
    hide IsPrime, At, Apart;
    Prime5166653();
    Begin(1374329699, 1251108580);
    Inverse(1374329699, 1251108580, 5166653, 5166653, 1, 1251108580, 872965342, 872965343);
    Climb(1374329699, 1251108580, 0, 1261, 2, 3, 5, 5, 1, 829327051, 1108466228, 717281624, 598339304);
    Climb(1374329699, 1251108580, 1261, 5166653, 3, 0, 7, 5, 598339304, 1289412535, 981169738, 758017700, 1);
    Compose(1374329699, 1251108580, 1, 1251108580, 5166653, 1, 5166653);
    Certificate1(1374329699, 1251108580, 5166653);
  }

  lemma Prime1541560037()
    ensures IsPrime(1541560037)
  {
    hide IsPrime, At, Apart;
    Prime49747();
    Begin(1541560037, 34137692);
    Inverse(1541560037, 34137692, 49747, 49747, 1, 34137692, 1211126059, 1211126060);
    Climb(1541560037, 34137692, 0, 12, 0, 0, 1, 4, 1, 1, 1, 34137692, 353269813);
    Climb(1541560037, 34137692, 12, 49747, 1, 1, 2, 3, 353269813, 1180450033, 310415611, 1227587754, 1);
    Compose(1541560037, 34137692, 1, 34137692, 49747, 1, 49747);
    Certificate1(1541560037, 34137692, 49747);
  }

  lemma Prime2055413317()
    ensures IsPrime(2055413317)
  {
    hide IsPrime, At, Apart;
    Small3();
    Small7();
    Begin(2055413317, 1996750386);
    Climb(2055413317, 1996750386, 0, 701, 1, 2, 7, 5, 1, 1996750386, 207398043, 973986413, 984284314);
    Inverse(2055413317, 1996750386, 97, 67997, 701, 984284314, 1935996183, 1935996184);
    Climb(2055413317, 1996750386, 0, 97, 0, 1, 4, 1, 1, 1, 1996750386, 673262132, 2007818086);
    Inverse(2055413317, 1996750386, 701, 67997, 97, 2007818086, 1469610076, 1469610077);
    Begin(2055413317, 984284314);
    Climb(2055413317, 984284314, 0, 97, 0, 1, 4, 1, 1, 1, 984284314, 1209761748, 1);
    Compose(2055413317, 1996750386, 701, 984284314, 97, 1, 67997);
    Certificate2(2055413317, 1996750386, 97, 701, 67997);
  }

  lemma Prime2278643791()
    ensures IsPrime(2278643791)
  {
    hide IsPrime, At, Apart;
    Prime4467929();
    Begin(2278643791, 1277005078);
    Inverse(2278643791, 1277005078, 4467929, 4467929, 1, 1277005078, 148916349, 148916350);
    Climb(2278643791, 1277005078, 0, 1090, 2, 1, 0, 2, 1, 1824549102, 1501816867, 1258035087, 1082796863);
    Climb(2278643791, 1277005078, 1090, 4467929, 6, 3, 3, 1, 1082796863, 648495356, 2239323533, 1695171450, 1);
    Compose(2278643791, 1277005078, 1, 1277005078, 4467929, 1, 4467929);
    Certificate1(2278643791, 1277005078, 4467929);
  }

  lemma Prime2740551103()
    ensures IsPrime(2740551103)
  {
    hide IsPrime, At, Apart;
    Prime152252839();
    Begin(2740551103, 262144);
    Inverse(2740551103, 262144, 152252839, 152252839, 1, 262144, 1731334375, 1731334376);
    Climb(2740551103, 262144, 0, 9, 0, 0, 1, 1, 1, 1, 1, 262144, 1865866342);
    Climb(2740551103, 262144, 9, 37171, 0, 4, 6, 3, 1865866342, 2443111448, 851287163, 1663050099, 2197977824);
    Climb(2740551103, 262144, 37171, 152252839, 0, 6, 4, 7, 2197977824, 1339711515, 1119710121, 2507145246, 1);
    Compose(2740551103, 262144, 1, 262144, 152252839, 1, 152252839);
    Certificate1(2740551103, 262144, 152252839);
  }

  lemma Prime2746387997()
    ensures IsPrime(2746387997)
  {
    hide IsPrime, At, Apart;
    Prime752023();
    Begin(2746387997, 998093987);
    Inverse(2746387997, 998093987, 752023, 752023, 1, 998093987, 2492471461, 2492471462);
    Climb(2746387997, 998093987, 0, 183, 0, 2, 6, 7, 1, 1, 1220779929, 1271670889, 1105671394);
    Climb(2746387997, 998093987, 183, 752023, 4, 6, 2, 7, 1105671394, 1717901329, 296231099, 660009386, 1);
    Compose(2746387997, 998093987, 1, 998093987, 752023, 1, 752023);
    Certificate1(2746387997, 998093987, 752023);
  }

  lemma Prime3248060531()
    ensures IsPrime(3248060531)
  {
    hide IsPrime, At, Apart;
    Small0();
    Small13();
    Begin(3248060531, 1059784191);
    Climb(3248060531, 1059784191, 0, 1, 0, 0, 0, 1, 1, 1, 1, 1, 1059784191);
    Climb(3248060531, 1059784191, 1, 5839, 3, 3, 1, 7, 1059784191, 2620901511, 242406382, 2889006101, 2375361066);
    Inverse(3248060531, 1059784191, 11, 64229, 5839, 2375361066, 1857704555, 1857704556);
    Climb(3248060531, 1059784191, 0, 11, 0, 0, 1, 3, 1, 1, 1, 1059784191, 2620901511);
    Inverse(3248060531, 1059784191, 5839, 64229, 11, 2620901511, 1530355126, 1530355127);
    Begin(3248060531, 2375361066);
    Climb(3248060531, 2375361066, 0, 11, 0, 0, 1, 3, 1, 1, 1, 2375361066, 1);
    Compose(3248060531, 1059784191, 5839, 2375361066, 11, 1, 64229);
    Certificate2(3248060531, 1059784191, 11, 5839, 64229);
  }

  lemma Prime3614265133()
    ensures IsPrime(3614265133)
  {
    hide IsPrime, At, Apart;
    Prime187423();
    Begin(3614265133, 1975011956);
    Inverse(3614265133, 1975011956, 187423, 187423, 1, 1975011956, 1157208960, 1157208961);
    Climb(3614265133, 1975011956, 0, 45, 0, 0, 5, 5, 1, 1, 1, 1966284941, 777347839);
    Climb(3614265133, 1975011956, 45, 187423, 6, 0, 3, 7, 777347839, 2525334822, 2406447167, 1981163296, 1);
    Compose(3614265133, 1975011956, 1, 1975011956, 187423, 1, 187423);
    Certificate1(3614265133, 1975011956, 187423);
  }

  lemma Prime3654068141()
    ensures IsPrime(3654068141)
  {
    hide IsPrime, At, Apart;
    Small4();
    Small6();
    Begin(3654068141, 3556333892);
    Climb(3654068141, 3556333892, 0, 487, 0, 7, 4, 7, 1, 1, 1905803985, 1012006791, 1499946843);
    Inverse(3654068141, 3556333892, 139, 67693, 487, 1499946843, 2720216893, 2720216894);
    Climb(3654068141, 3556333892, 0, 139, 0, 2, 1, 3, 1, 1, 830386413, 2755649951, 309647665);
    Inverse(3654068141, 3556333892, 487, 67693, 139, 309647665, 71797275, 71797276);
    Begin(3654068141, 1499946843);
    Climb(3654068141, 1499946843, 0, 139, 0, 2, 1, 3, 1, 1, 2850083147, 1962390803, 1);
    Compose(3654068141, 3556333892, 487, 1499946843, 139, 1, 67693);
    Certificate2(3654068141, 3556333892, 139, 487, 67693);
  }

  lemma Prime4872090871()
    ensures IsPrime(4872090871)
  {
    hide IsPrime, At, Apart;
    Prime72469();
    Begin(4872090871, 4422344536);
    Inverse(4872090871, 4422344536, 72469, 72469, 1, 4422344536, 4405256970, 4405256971);
    Climb(4872090871, 4422344536, 0, 17, 0, 0, 2, 1, 1, 1, 1, 4711512147, 2126387809);
    Climb(4872090871, 4422344536, 17, 72469, 5, 4, 2, 5, 2126387809, 366119141, 3322989434, 896209373, 1);
    Compose(4872090871, 4422344536, 1, 4422344536, 72469, 1, 72469);
    Certificate1(4872090871, 4422344536, 72469);
  }

  lemma Prime6496121063()
    ensures IsPrime(6496121063)
  {
    hide IsPrime, At, Apart;
    Prime3248060531();
    Begin(6496121063, 4);
    Inverse(6496121063, 4, 3248060531, 3248060531, 1, 4, 2165373688, 2165373689);
    Climb(6496121063, 4, 0, 193, 0, 3, 0, 1, 1, 1, 64, 4547171929, 3286614445);
    Climb(6496121063, 4, 193, 792983, 4, 6, 2, 7, 3286614445, 3216313604, 1023267924, 5408674725, 4514026139);
    Climb(6496121063, 4, 792983, 3248060531, 4, 1, 6, 3, 4514026139, 5461429188, 4521698868, 1597146957, 1);
    Compose(6496121063, 4, 1, 4, 3248060531, 1, 3248060531);
    Certificate1(6496121063, 4, 3248060531);
  }

  lemma Prime8661494753()
    ensures IsPrime(8661494753)
  {
    hide IsPrime, At, Apart;
    Prime270671711();
    Begin(8661494753, 4294967296);
    Inverse(8661494753, 4294967296, 270671711, 270671711, 1, 4294967296, 2510644490, 2510644491);
    Climb(8661494753, 4294967296, 0, 16, 0, 0, 2, 0, 1, 1, 1, 8424740380, 1314517959);
    Climb(8661494753, 4294967296, 16, 66081, 1, 0, 4, 1, 1314517959, 1932661321, 1086376052, 72652271, 6626570085);
    Climb(8661494753, 4294967296, 66081, 270671711, 7, 5, 3, 7, 6626570085, 1953160601, 8295701857, 4387450937, 1);
    Compose(8661494753, 4294967296, 1, 4294967296, 270671711, 1, 270671711);
    Certificate1(8661494753, 4294967296, 270671711);
  }

  lemma Prime10994637593()
    ensures IsPrime(10994637593)
  {
    hide IsPrime, At, Apart;
    Prime1374329699();
    Begin(10994637593, 256);
    Inverse(10994637593, 256, 1374329699, 1374329699, 1, 256, 8321431590, 8321431591);
    Climb(10994637593, 256, 0, 81, 0, 1, 2, 1, 1, 1, 256, 9568443039, 3789273910);
    Climb(10994637593, 256, 81, 335529, 7, 2, 5, 1, 3789273910, 2549994571, 860264888, 5080683774, 5412339827);
    Climb(10994637593, 256, 335529, 1374329699, 5, 5, 4, 3, 5412339827, 309498625, 158285188, 9018559995, 1);
    Compose(10994637593, 256, 1, 256, 1374329699, 1, 1374329699);
    Certificate1(10994637593, 256, 1374329699);
  }

  lemma Prime11548659701()
    ensures IsPrime(11548659701)
  {
    hide IsPrime, At, Apart;
    Prime115486597();
    Begin(11548659701, 5335395691);
    Inverse(11548659701, 5335395691, 115486597, 115486597, 1, 5335395691, 5787845789, 5787845790);
    Climb(11548659701, 5335395691, 0, 6, 0, 0, 0, 6, 1, 1, 1, 1, 3858983606);
    Climb(11548659701, 5335395691, 6, 28194, 7, 0, 4, 2, 3858983606, 2828350052, 1249431589, 1432435856,
      5774477013);
    Climb(11548659701, 5335395691, 28194, 115486597, 7, 6, 0, 5, 5774477013, 3029693191, 6566719600, 4974475509, 1);
    Compose(11548659701, 5335395691, 1, 5335395691, 115486597, 1, 115486597);
    Certificate1(11548659701, 5335395691, 115486597);
  }

  lemma Prime15398212901()
    ensures IsPrime(15398212901)
  {
    hide IsPrime, At, Apart;
    Prime21997447();
    Begin(15398212901, 8638869664);
    Inverse(15398212901, 8638869664, 21997447, 21997447, 1, 8638869664, 2999853702, 2999853703);
    Climb(15398212901, 8638869664, 0, 1, 0, 0, 0, 1, 1, 1, 1, 1, 8638869664);
    Climb(15398212901, 8638869664, 1, 5370, 2, 3, 7, 2, 8638869664, 12655496504, 557214299, 9529317170, 2192671858);
    Climb(15398212901, 8638869664, 5370, 21997447, 3, 6, 0, 7, 2192671858, 79769463, 12200328949, 1013939394, 1);
    Compose(15398212901, 8638869664, 1, 8638869664, 21997447, 1, 21997447);
    Certificate1(15398212901, 8638869664, 21997447);
  }

  lemma Prime20530950533()
    ensures IsPrime(20530950533)
  {
    hide IsPrime, At, Apart;
    Prime22611179();
    Begin(20530950533, 10794508534);
    Inverse(20530950533, 10794508534, 22611179, 22611179, 1, 10794508534, 16633868021, 16633868022);
    Climb(20530950533, 10794508534, 0, 1, 0, 0, 0, 1, 1, 1, 1, 1, 10794508534);
    Climb(20530950533, 10794508534, 1, 5520, 2, 6, 2, 0, 10794508534, 3225945695, 10637703565, 4273673549,
      6981831603);
    Climb(20530950533, 10794508534, 5520, 22611179, 2, 3, 5, 3, 6981831603, 14693545839, 8725906903, 16314460268,
      1);
    Compose(20530950533, 10794508534, 1, 10794508534, 22611179, 1, 22611179);
    Certificate1(20530950533, 10794508534, 22611179);
  }

  lemma Prime27374600677()
    ensures IsPrime(27374600677)
  {
    hide IsPrime, At, Apart;
    Small2();
    Small12();
    Begin(27374600677, 25321476087);
    Climb(27374600677, 25321476087, 0, 1, 0, 0, 0, 1, 1, 1, 1, 1, 25321476087);
    Climb(27374600677, 25321476087, 1, 4621, 1, 0, 1, 5, 25321476087, 6454631523, 13298340413, 5074609981,
      20423884193);
    Inverse(27374600677, 25321476087, 71, 328091, 4621, 20423884193, 19109304262, 19109304263);
    Climb(27374600677, 25321476087, 0, 71, 0, 1, 0, 7, 1, 1, 25321476087, 18554043301, 25657563228);
    Inverse(27374600677, 25321476087, 4621, 328091, 71, 25657563228, 4248030255, 4248030256);
    Begin(27374600677, 20423884193);
    Climb(27374600677, 20423884193, 0, 71, 0, 1, 0, 7, 1, 1, 20423884193, 13169621870, 1);
    Compose(27374600677, 25321476087, 4621, 20423884193, 71, 1, 328091);
    Certificate2(27374600677, 25321476087, 71, 4621, 328091);
  }

  lemma Prime36499467569()
    ensures IsPrime(36499467569)
  {
    hide IsPrime, At, Apart;
    Small2();
    Small12();
    Begin(36499467569, 14935676868);
    Climb(36499467569, 14935676868, 0, 1, 0, 0, 0, 1, 1, 1, 1, 1, 14935676868);
    Climb(36499467569, 14935676868, 1, 4621, 1, 0, 1, 5, 14935676868, 5435097313, 6660797692, 23927999947,
      854269803);
    Inverse(36499467569, 14935676868, 71, 328091, 4621, 854269803, 23446449002, 23446449003);
    Climb(36499467569, 14935676868, 0, 71, 0, 1, 0, 7, 1, 1, 14935676868, 24941361048, 4265024804);
    Inverse(36499467569, 14935676868, 4621, 328091, 71, 4265024804, 29428967524, 29428967525);
    Begin(36499467569, 854269803);
    Climb(36499467569, 854269803, 0, 71, 0, 1, 0, 7, 1, 1, 854269803, 28108900084, 1);
    Compose(36499467569, 14935676868, 4621, 854269803, 71, 1, 328091);
    Certificate2(36499467569, 14935676868, 71, 4621, 328091);
  }

  lemma Prime48665956771()
    ensures IsPrime(48665956771)
  {
    hide IsPrime, At, Apart;
    Small0();
    Small3();
    Small5();
    Begin(48665956771, 39522036979);
    Climb(48665956771, 39522036979, 0, 20, 0, 0, 2, 4, 1, 1, 1, 26646205166, 28864419584);
    Climb(48665956771, 39522036979, 20, 84963, 5, 7, 4, 3, 28864419584, 43781746500, 43489121381, 42032651726,
      21466311136);
    Inverse(48665956771, 39522036979, 3, 254889, 84963, 21466311136, 41510519725, 41510519726);
    Climb(48665956771, 39522036979, 0, 2007, 3, 7, 2, 7, 1, 1764750662, 44490965801, 39068720365, 33219525177);
    Inverse(48665956771, 39522036979, 127, 254889, 2007, 33219525177, 899901329, 899901330);
    Climb(48665956771, 39522036979, 0, 1143, 2, 1, 6, 7, 1, 26646205166, 1239042560, 25843220491, 42224339662);
    Inverse(48665956771, 39522036979, 223, 254889, 1143, 42224339662, 20449787483, 20449787484);
    Begin(48665956771, 21466311136);
    Climb(48665956771, 21466311136, 0, 3, 0, 0, 0, 3, 1, 1, 1, 1, 1);
    Compose(48665956771, 39522036979, 84963, 21466311136, 3, 1, 254889);
    Certificate4(48665956771, 39522036979, 3, 3, 127, 223, 254889);
  }

  lemma Prime55177545727()
    ensures IsPrime(55177545727)
  {
    hide IsPrime, At, Apart;
    Prime161337853();
    Begin(55177545727, 37756657175);
    Inverse(55177545727, 37756657175, 161337853, 161337853, 1, 37756657175, 37386773748, 37386773749);
    Climb(55177545727, 37756657175, 0, 9, 0, 0, 1, 1, 1, 1, 1, 37756657175, 31203980567);
    Climb(55177545727, 37756657175, 9, 39389, 4, 7, 3, 5, 31203980567, 32945283179, 33523127702, 8343894784,
      49929788758);
    Climb(55177545727, 37756657175, 39389, 161337853, 0, 7, 7, 5, 49929788758, 12745410471, 42079837270,
      22300644450, 1);
    Compose(55177545727, 37756657175, 1, 37756657175, 161337853, 1, 161337853);
    Certificate1(55177545727, 37756657175, 161337853);
  }

  lemma Prime64887942367()
    ensures IsPrime(64887942367)
  {
    hide IsPrime, At, Apart;
    Prime9562031();
    Begin(64887942367, 40970987250);
    Inverse(64887942367, 40970987250, 9562031, 9562031, 1, 40970987250, 43089479182, 43089479183);
    Climb(64887942367, 40970987250, 0, 2334, 4, 4, 3, 6, 1, 56436847831, 47373696125, 29235781815, 53728488592);
    Climb(64887942367, 40970987250, 2334, 9562031, 3, 6, 5, 7, 53728488592, 64709881322, 53651769232, 3490208278,
      1);
    Compose(64887942367, 40970987250, 1, 40970987250, 9562031, 1, 9562031);
    Certificate1(64887942367, 40970987250, 9562031);
  }

  lemma Prime69614681347()
    ensures IsPrime(69614681347)
  {
    hide IsPrime, At, Apart;
    Prime3193627();
    Begin(69614681347, 19830877456);
    Inverse(69614681347, 19830877456, 3193627, 3193627, 1, 19830877456, 22680104373, 22680104374);
    Climb(69614681347, 19830877456, 0, 779, 1, 4, 1, 3, 1, 19830877456, 67416062075, 58427714429, 56339643205);
    Climb(69614681347, 19830877456, 779, 3193627, 5, 4, 3, 3, 56339643205, 31332131328, 13023858745, 14791798258,
      1);
    Compose(69614681347, 19830877456, 1, 19830877456, 3193627, 1, 3193627);
    Certificate1(69614681347, 19830877456, 3193627);
  }

  lemma Prime86517256433()
    ensures IsPrime(86517256433)
  {
    hide IsPrime, At, Apart;
    Small4();
    Small11();
    Begin(86517256433, 16367130825);
    Climb(86517256433, 16367130825, 0, 3253, 6, 2, 6, 5, 1, 76352015675, 33422607748, 71252009499, 6027948928);
    Inverse(86517256433, 16367130825, 131, 426143, 3253, 6027948928, 10802569956, 10802569957);
    Climb(86517256433, 16367130825, 0, 131, 0, 2, 0, 3, 1, 1, 8376490880, 35763726868, 76572241081);
    Inverse(86517256433, 16367130825, 3253, 426143, 131, 76572241081, 8985969586, 8985969587);
    Begin(86517256433, 6027948928);
    Climb(86517256433, 6027948928, 0, 131, 0, 2, 0, 3, 1, 1, 52524863725, 81573211792, 1);
    Compose(86517256433, 16367130825, 3253, 6027948928, 131, 1, 426143);
    Certificate2(86517256433, 16367130825, 131, 3253, 426143);
  }

  lemma Prime115356341911()
    ensures IsPrime(115356341911)
  {
    hide IsPrime, At, Apart;
    Prime54157907();
    Begin(115356341911, 49999453803);
    Inverse(115356341911, 49999453803, 54157907, 54157907, 1, 49999453803, 47396626356, 47396626357);
    Climb(115356341911, 49999453803, 0, 3, 0, 0, 0, 3, 1, 1, 1, 1, 25691270550);
    Climb(115356341911, 49999453803, 3, 13222, 1, 6, 4, 6, 25691270550, 82998618358, 41199547997, 38992212425,
      73539515733);
    Climb(115356341911, 49999453803, 13222, 54157907, 1, 1, 2, 3, 73539515733, 67185344432, 62476431625,
      8982379945, 1);
    Compose(115356341911, 49999453803, 1, 49999453803, 54157907, 1, 54157907);
    Certificate1(115356341911, 49999453803, 54157907);
  }

  lemma Prime153808455923()
    ensures IsPrime(153808455923)
  {
    hide IsPrime, At, Apart;
    Prime78553859();
    Begin(153808455923, 25229368223);
    Inverse(153808455923, 25229368223, 78553859, 78553859, 1, 25229368223, 68090050210, 68090050211);
    Climb(153808455923, 25229368223, 0, 4, 0, 0, 0, 4, 1, 1, 1, 1, 113447969202);
    Climb(153808455923, 25229368223, 4, 19178, 5, 3, 5, 2, 113447969202, 123264743333, 108242321815, 51005657959,
      31846341856);
    Climb(153808455923, 25229368223, 19178, 78553859, 1, 4, 0, 3, 31846341856, 125674452890, 42615975737,
      42125345337, 1);
    Compose(153808455923, 25229368223, 1, 25229368223, 78553859, 1, 78553859);
    Certificate1(153808455923, 25229368223, 78553859);
  }

  lemma Prime205077941191()
    ensures IsPrime(205077941191)
  {
    hide IsPrime, At, Apart;
    Prime2278643791();
    Begin(205077941191, 11702627306);
    Inverse(205077941191, 11702627306, 2278643791, 2278643791, 1, 11702627306, 177322166968, 177322166969);
    Climb(205077941191, 11702627306, 0, 135, 0, 2, 0, 7, 1, 1, 124850221997, 155325263291, 175067634965);
    Climb(205077941191, 11702627306, 135, 556309, 6, 4, 2, 5, 175067634965, 98080493301, 124024099164,
      147614518937, 61442081200);
    Climb(205077941191, 11702627306, 556309, 2278643791, 4, 1, 1, 7, 61442081200, 173103255769, 65077028998,
      37948012300, 1);
    Compose(205077941191, 11702627306, 1, 11702627306, 2278643791, 1, 2278643791);
    Certificate1(205077941191, 11702627306, 2278643791);
  }

  lemma Prime273437254897()
    ensures IsPrime(273437254897)
  {
    hide IsPrime, At, Apart;
    Prime7427131();
    Begin(273437254897, 91571798383);
    Inverse(273437254897, 91571798383, 7427131, 7427131, 1, 91571798383, 105896486852, 105896486853);
    Climb(273437254897, 91571798383, 0, 1813, 3, 4, 2, 5, 1, 26412523506, 116799058149, 259877383295, 94431249298);
    Climb(273437254897, 91571798383, 1813, 7427131, 2, 0, 7, 3, 94431249298, 87699316372, 210709617640,
      247634321747, 1);
    Compose(273437254897, 91571798383, 1, 91571798383, 7427131, 1, 7427131);
    Certificate1(273437254897, 91571798383, 7427131);
  }

  lemma Prime341411064187()
    ensures IsPrime(341411064187)
  {
    hide IsPrime, At, Apart;
    Prime39161627();
    Begin(341411064187, 263915277793);
    Inverse(341411064187, 263915277793, 39161627, 39161627, 1, 263915277793, 159733923103, 159733923104);
    Climb(341411064187, 263915277793, 0, 2, 0, 0, 0, 2, 1, 1, 1, 1, 123686180664);
    Climb(341411064187, 263915277793, 2, 9560, 2, 5, 3, 0, 123686180664, 27501660714, 45082770438, 141093428148,
      304264530513);
    Climb(341411064187, 263915277793, 9560, 39161627, 7, 4, 3, 3, 304264530513, 28892713351, 45219756474,
      168911594336, 1);
    Compose(341411064187, 263915277793, 1, 263915277793, 39161627, 1, 39161627);
    Certificate1(341411064187, 263915277793, 39161627);
  }

  lemma Prime364583006561()
    ensures IsPrime(364583006561)
  {
    hide IsPrime, At, Apart;
    Prime2278643791();
    Begin(364583006561, 91529163971);
    Inverse(364583006561, 91529163971, 2278643791, 2278643791, 1, 91529163971, 213913224725, 213913224726);
    Climb(364583006561, 91529163971, 0, 135, 0, 2, 0, 7, 1, 1, 202468725712, 306060550528, 283870500249);
    Climb(364583006561, 91529163971, 135, 556309, 6, 4, 2, 5, 283870500249, 361231430137, 73720433405,
      186866994337, 306572519050);
    Climb(364583006561, 91529163971, 556309, 2278643791, 4, 1, 1, 7, 306572519050, 202480387793, 257764475306,
      152337432314, 1);
    Compose(364583006561, 91529163971, 1, 91529163971, 2278643791, 1, 2278643791);
    Certificate1(364583006561, 91529163971, 2278643791);
  }

  lemma Prime486110675443()
    ensures IsPrime(486110675443)
  {
    hide IsPrime, At, Apart;
    Prime23010067();
    Begin(486110675443, 440002447952);
    Inverse(486110675443, 440002447952, 23010067, 23010067, 1, 440002447952, 383305422972, 383305422973);
    Climb(486110675443, 440002447952, 0, 1, 0, 0, 0, 1, 1, 1, 1, 1, 440002447952);
    Climb(486110675443, 440002447952, 1, 5617, 2, 7, 6, 1, 440002447952, 195680716234, 214785228356, 201844056888,
      430971796633);
    Climb(486110675443, 440002447952, 5617, 23010067, 5, 4, 2, 3, 430971796633, 183580748833, 74791546064,
      223671018286, 1);
    Compose(486110675443, 440002447952, 1, 440002447952, 23010067, 1, 23010067);
    Certificate1(486110675443, 440002447952, 23010067);
  }

  lemma Prime539513780441()
    ensures IsPrime(539513780441)
  {
    hide IsPrime, At, Apart;
    Prime2404679();
    Begin(539513780441, 259412169947);
    Inverse(539513780441, 259412169947, 2404679, 2404679, 1, 259412169947, 206292646292, 206292646293);
    Climb(539513780441, 259412169947, 0, 587, 1, 1, 1, 3, 1, 259412169947, 163272876492, 102303648700,
      382490819906);
    Climb(539513780441, 259412169947, 587, 2404679, 0, 5, 0, 7, 382490819906, 174779141955, 8141557194,
      347604061392, 1);
    Compose(539513780441, 259412169947, 1, 259412169947, 2404679, 1, 2404679);
    Certificate1(539513780441, 259412169947, 2404679);
  }

  lemma Prime648147567293()
    ensures IsPrime(648147567293)
  {
    hide IsPrime, At, Apart;
    Prime2746387997();
    Begin(648147567293, 214746736831);
    Inverse(648147567293, 214746736831, 2746387997, 2746387997, 1, 214746736831, 494837090765, 494837090766);
    Climb(648147567293, 214746736831, 0, 163, 0, 2, 4, 3, 1, 1, 42430423885, 630075655367, 462170467407);
    Climb(648147567293, 214746736831, 163, 670504, 5, 4, 5, 0, 462170467407, 151815044156, 176749699706,
      22804214562, 572492392393);
    Climb(648147567293, 214746736831, 670504, 2746387997, 7, 0, 3, 5, 572492392393, 151579071810, 380711251019,
      12610759189, 1);
    Compose(648147567293, 214746736831, 1, 214746736831, 2746387997, 1, 2746387997);
    Certificate1(648147567293, 214746736831, 2746387997);
  }

  lemma Prime864196756231()
    ensures IsPrime(864196756231)
  {
    hide IsPrime, At, Apart;
    Prime1380881();
    Begin(864196756231, 111475016439);
    Inverse(864196756231, 111475016439, 1380881, 1380881, 1, 111475016439, 202690009588, 202690009589);
    Climb(864196756231, 111475016439, 0, 337, 0, 5, 2, 1, 1, 1, 532281723719, 559220698225, 544930495606);
    Climb(864196756231, 111475016439, 337, 1380881, 1, 0, 2, 1, 544930495606, 504730065477, 164150949518,
      263038062250, 1);
    Compose(864196756231, 111475016439, 1, 111475016439, 1380881, 1, 1380881);
    Certificate1(864196756231, 111475016439, 1380881);
  }

  lemma Prime1152262341641()
    ensures IsPrime(1152262341641)
  {
    hide IsPrime, At, Apart;
    Prime1380881();
    Begin(1152262341641, 85454849252);
    Inverse(1152262341641, 85454849252, 1380881, 1380881, 1, 85454849252, 296652263347, 296652263348);
    Climb(1152262341641, 85454849252, 0, 337, 0, 5, 2, 1, 1, 1, 1024485748057, 1046113232008, 591789771296);
    Climb(1152262341641, 85454849252, 337, 1380881, 1, 0, 2, 1, 591789771296, 552862020690, 119227933407,
      782681132864, 1);
    Compose(1152262341641, 85454849252, 1, 85454849252, 1380881, 1, 1380881);
    Certificate1(1152262341641, 85454849252, 1380881);
  }

  lemma Prime1536349788871()
    ensures IsPrime(1536349788871)
  {
    hide IsPrime, At, Apart;
    Prime1628507();
    Begin(1536349788871, 1060356560491);
    Inverse(1536349788871, 1060356560491, 1628507, 1628507, 1, 1060356560491, 1154517519960, 1154517519961);
    Climb(1536349788871, 1060356560491, 0, 397, 0, 6, 1, 5, 1, 1, 1291250874828, 341012672434, 1279565152182);
    Climb(1536349788871, 1060356560491, 397, 1628507, 4, 5, 3, 3, 1279565152182, 1294107199622, 257381742884,
      448650389047, 1);
    Compose(1536349788871, 1060356560491, 1, 1060356560491, 1628507, 1, 1628507);
    Certificate1(1536349788871, 1060356560491, 1628507);
  }

  lemma Prime2048466385123()
    ensures IsPrime(2048466385123)
  {
    hide IsPrime, At, Apart;
    Prime341411064187();
    Begin(2048466385123, 64);
    Inverse(2048466385123, 64, 341411064187, 341411064187, 1, 64, 162576697232, 162576697233);
    Climb(2048466385123, 64, 0, 4, 0, 0, 0, 4, 1, 1, 1, 1, 16777216);
    Climb(2048466385123, 64, 4, 20349, 7, 5, 7, 5, 16777216, 603877417469, 298537483536, 1611876686280,
      1097582009783);
    Climb(2048466385123, 64, 20349, 83352310, 5, 3, 6, 6, 1097582009783, 1243106447999, 1063806801423,
      363930078041, 295760226124);
    Climb(2048466385123, 64, 83352310, 341411064187, 4, 5, 7, 3, 295760226124, 972954582087, 1075495975507,
      129551686774, 1);
    Compose(2048466385123, 64, 1, 64, 341411064187, 1, 341411064187);
    Certificate1(2048466385123, 64, 341411064187);
  }

  lemma Prime2731288513529()
    ensures IsPrime(2731288513529)
  {
    hide IsPrime, At, Apart;
    Prime21350201();
    Begin(2731288513529, 2555536368913);
    Inverse(2731288513529, 2555536368913, 21350201, 21350201, 1, 2555536368913, 27111362169, 27111362170);
    Climb(2731288513529, 2555536368913, 0, 1, 0, 0, 0, 1, 1, 1, 1, 1, 2555536368913);
    Climb(2731288513529, 2555536368913, 1, 5212, 2, 1, 3, 4, 2555536368913, 1715820019154, 1475739245392,
      379468749024, 1980700523442);
    Climb(2731288513529, 2555536368913, 5212, 21350201, 3, 4, 7, 1, 1980700523442, 534786433000, 382810015552,
      2268551793806, 1);
    Compose(2731288513529, 2555536368913, 1, 2555536368913, 21350201, 1, 21350201);
    Certificate1(2731288513529, 2555536368913, 21350201);
  }

  lemma Prime3641718017983()
    ensures IsPrime(3641718017983)
  {
    hide IsPrime, At, Apart;
    Prime55177545727();
    Begin(3641718017983, 769162141392);
    Inverse(3641718017983, 769162141392, 55177545727, 55177545727, 1, 769162141392, 3029474178191, 3029474178192);
    Climb(3641718017983, 769162141392, 0, 3288, 6, 3, 3, 0, 1, 1533854983305, 786833015468, 745193364178,
      2665627385210);
    Climb(3641718017983, 769162141392, 3288, 13471080, 6, 5, 5, 0, 2665627385210, 364721767, 2332326523667,
      3052341503415, 1128424659612);
    Climb(3641718017983, 769162141392, 13471080, 55177545727, 3, 7, 7, 7, 1128424659612, 2427088048662,
      2009003968184, 3398102916133, 1);
    Compose(3641718017983, 769162141392, 1, 769162141392, 55177545727, 1, 55177545727);
    Certificate1(3641718017983, 769162141392, 55177545727);
  }

  lemma Prime4855624023953()
    ensures IsPrime(4855624023953)
  {
    hide IsPrime, At, Apart;
    Prime14003807();
    Begin(4855624023953, 4643726278183);
    Inverse(4855624023953, 4643726278183, 14003807, 14003807, 1, 4643726278183, 1274996177513, 1274996177514);
    Climb(4855624023953, 4643726278183, 0, 3418, 6, 5, 3, 2, 1, 644611623761, 970901434419, 1222712430254,
      3046097561330);
    Climb(4855624023953, 4643726278183, 3418, 14003807, 7, 1, 3, 7, 3046097561330, 73160043770, 3336688916197,
      582908284363, 1);
    Compose(4855624023953, 4643726278183, 1, 4643726278183, 14003807, 1, 14003807);
    Certificate1(4855624023953, 4643726278183, 14003807);
  }

  lemma Prime6062684347537()
    ensures IsPrime(6062684347537)
  {
    hide IsPrime, At, Apart;
    Prime48597893();
    Begin(6062684347537, 810654540294);
    Inverse(6062684347537, 810654540294, 48597893, 48597893, 1, 810654540294, 5187716856613, 5187716856614);
    Climb(6062684347537, 810654540294, 0, 2, 0, 0, 0, 2, 1, 1, 1, 1, 4419388433288);
    Climb(6062684347537, 810654540294, 2, 11864, 7, 1, 3, 0, 4419388433288, 4503752673149, 5808527168524,
      5854776145356, 2479154324101);
    Climb(6062684347537, 810654540294, 11864, 48597893, 5, 6, 0, 5, 2479154324101, 5804791187484, 1610081156772,
      765042938143, 1);
    Compose(6062684347537, 810654540294, 1, 810654540294, 48597893, 1, 48597893);
    Certificate1(6062684347537, 810654540294, 48597893);
  }

  lemma Prime6474165365293()
    ensures IsPrime(6474165365293)
  {
    hide IsPrime, At, Apart;
    Prime539513780441();
    Begin(6474165365293, 4096);
    Inverse(6474165365293, 4096, 539513780441, 539513780441, 1, 4096, 1530400994775, 1530400994776);
    Climb(6474165365293, 4096, 0, 7, 0, 0, 0, 7, 1, 1, 1, 1, 4146482013380);
    Climb(6474165365293, 4096, 7, 32157, 6, 6, 3, 5, 4146482013380, 4914629178721, 1851243460868, 4842790978654,
      2755850724025);
    Climb(6474165365293, 4096, 32157, 131717231, 4, 1, 5, 7, 2755850724025, 1365860176363, 531788296699,
      3687704979733, 3437144825505);
    Climb(6474165365293, 4096, 131717231, 539513780441, 4, 3, 3, 1, 3437144825505, 1396091779139, 3968116077510,
      6275728343944, 1);
    Compose(6474165365293, 4096, 1, 4096, 539513780441, 1, 539513780441);
    Certificate1(6474165365293, 4096, 539513780441);
  }

  lemma Prime8632220487029()
    ensures IsPrime(8632220487029)
  {
    hide IsPrime, At, Apart;
    Prime69614681347();
    Begin(8632220487029, 447768591036);
    Inverse(8632220487029, 447768591036, 69614681347, 69614681347, 1, 447768591036, 4863421970831, 4863421970832);
    Climb(8632220487029, 447768591036, 0, 1, 0, 0, 0, 1, 1, 1, 1, 1, 447768591036);
    Climb(8632220487029, 447768591036, 1, 4149, 0, 0, 6, 5, 447768591036, 8310280433365, 6359796519806,
      8129727107322, 4532813589957);
    Climb(8632220487029, 447768591036, 4149, 16995771, 2, 6, 7, 3, 4532813589957, 4310922227759, 4904952842809,
      130576641277, 929583986361);
    Climb(8632220487029, 447768591036, 16995771, 69614681347, 6, 4, 0, 3, 929583986361, 3394401587909,
      1575989679463, 6267417305753, 1);
    Compose(8632220487029, 447768591036, 1, 447768591036, 69614681347, 1, 69614681347);
    Certificate1(8632220487029, 447768591036, 69614681347);
  }

  lemma Prime11509627316059()
    ensures IsPrime(11509627316059)
  {
    hide IsPrime, At, Apart;
    Small0();
    Prime1794083();
    Begin(11509627316059, 1005702646866);
    Climb(11509627316059, 1005702646866, 0, 438, 0, 6, 6, 6, 1, 1, 2329167053294, 6994577241262, 2728604435730);
    Climb(11509627316059, 1005702646866, 438, 1794083, 0, 0, 4, 3, 2728604435730, 4310747058297, 7411948042045,
      3717516648855, 11509627316058);
    Inverse(11509627316059, 1005702646866, 2, 3588166, 1794083, 11509627316058, 5754813658029, 5754813658030);
    Double(11509627316059, 1005702646866, 1, 1005702646866, 2, 1580850752685);
    Inverse(11509627316059, 1005702646866, 1794083, 3588166, 2, 1580850752685, 4088600021455, 4088600021456);
    Double(11509627316059, 1005702646866, 1794083, 11509627316058, 3588166, 1);
    Certificate2(11509627316059, 1005702646866, 2, 1794083, 3588166);
  }

  lemma Prime15346169754719()
    ensures IsPrime(15346169754719)
  {
    hide IsPrime, At, Apart;
    Prime3614265133();
    Begin(15346169754719, 5329224186565);
    Inverse(15346169754719, 5329224186565, 3614265133, 3614265133, 1, 5329224186565, 14784682264496,
      14784682264497);
    Climb(15346169754719, 5329224186565, 0, 215, 0, 3, 2, 7, 1, 1, 14035941279693, 10846535393933, 6970095318843);
    Climb(15346169754719, 5329224186565, 215, 882388, 3, 3, 2, 4, 6970095318843, 13066275094183, 2387843471395,
      6874265939791, 14036575049491);
    Climb(15346169754719, 5329224186565, 882388, 3614265133, 7, 4, 5, 5, 14036575049491, 13564941388376,
      8077657614461, 12485587091964, 1);
    Compose(15346169754719, 5329224186565, 1, 5329224186565, 3614265133, 1, 3614265133);
    Certificate1(15346169754719, 5329224186565, 3614265133);
  }

  lemma Prime20461559672951()
    ensures IsPrime(20461559672951)
  {
    hide IsPrime, At, Apart;
    Small0();
    Prime90071();
    Begin(20461559672951, 10048130021913);
    Climb(20461559672951, 10048130021913, 0, 241, 0, 3, 6, 1, 1, 1, 6447252724717, 13755028898916, 12460154234696);
    Climb(20461559672951, 10048130021913, 241, 990781, 7, 0, 7, 5, 12460154234696, 1860495446345, 15157318292224,
      8059885840455, 16228496107639);
    Inverse(20461559672951, 10048130021913, 11, 10898591, 990781, 16228496107639, 15635188652623, 15635188652624);
    Climb(20461559672951, 10048130021913, 0, 121, 0, 1, 7, 1, 1, 1, 10048130021913, 15347216608533, 7082151006642);
    Inverse(20461559672951, 10048130021913, 90071, 10898591, 121, 7082151006642, 12153912878890, 12153912878891);
    Begin(20461559672951, 16228496107639);
    Climb(20461559672951, 16228496107639, 0, 11, 0, 0, 1, 3, 1, 1, 1, 16228496107639, 1);
    Compose(20461559672951, 10048130021913, 990781, 16228496107639, 11, 1, 10898591);
    Certificate3(20461559672951, 10048130021913, 11, 11, 90071, 10898591);
  }

  lemma Prime21556211013461()
    ensures IsPrime(21556211013461)
  {
    hide IsPrime, At, Apart;
    Prime646557019();
    Begin(21556211013461, 15125532748342);
    Inverse(21556211013461, 15125532748342, 646557019, 646557019, 1, 15125532748342, 6013871071863, 6013871071864);
    Climb(21556211013461, 15125532748342, 0, 38, 0, 0, 4, 6, 1, 1, 1, 4482399874787, 13955168101962);
    Climb(21556211013461, 15125532748342, 38, 157850, 4, 2, 3, 2, 13955168101962, 2699265510826, 8936629082148,
      7929598170920, 9920119174132);
    Climb(21556211013461, 15125532748342, 157850, 646557019, 6, 5, 3, 3, 9920119174132, 2685691750242,
      14148994347716, 9431047181881, 1);
    Compose(21556211013461, 15125532748342, 1, 15125532748342, 646557019, 1, 646557019);
    Certificate1(21556211013461, 15125532748342, 646557019);
  }

  lemma Prime27282079563967()
    ensures IsPrime(27282079563967)
  {
    hide IsPrime, At, Apart;
    Prime263549137();
    Begin(27282079563967, 19049794420953);
    Inverse(27282079563967, 19049794420953, 263549137, 263549137, 1, 19049794420953, 22843267884955,
      22843267884956);
    Climb(27282079563967, 19049794420953, 0, 15, 0, 0, 1, 7, 1, 1, 1, 19049794420953, 11752600630150);
    Climb(27282079563967, 19049794420953, 15, 64343, 5, 5, 2, 7, 11752600630150, 495471251215, 18545097669170,
      12250448373420, 637755603056);
    Climb(27282079563967, 19049794420953, 64343, 263549137, 0, 3, 2, 1, 637755603056, 7214636126668,
      11070162438732, 16914169608004, 1);
    Compose(27282079563967, 19049794420953, 1, 19049794420953, 263549137, 1, 263549137);
    Certificate1(27282079563967, 19049794420953, 263549137);
  }

  lemma Prime36376106085223()
    ensures IsPrime(36376106085223)
  {
    hide IsPrime, At, Apart;
    Prime6062684347537();
    Begin(36376106085223, 64);
    Inverse(36376106085223, 64, 6062684347537, 6062684347537, 1, 64, 34066512048066, 34066512048067);
    Climb(36376106085223, 64, 0, 88, 0, 1, 3, 0, 1, 1, 64, 9410691953006, 3957210559075);
    Climb(36376106085223, 64, 88, 361364, 1, 6, 2, 4, 3957210559075, 32823710716840, 3254059241098, 29672103825747,
      20428395078369);
    Climb(36376106085223, 64, 361364, 1480147545, 1, 1, 3, 1, 20428395078369, 19024408407772, 31382313714479,
      20943704500338, 5324441956109);
    Climb(36376106085223, 64, 1480147545, 6062684347537, 6, 2, 2, 1, 5324441956109, 18927231609537, 20355212249575,
      17108195181688, 1);
    Compose(36376106085223, 64, 1, 64, 6062684347537, 1, 6062684347537);
    Certificate1(36376106085223, 64, 6062684347537);
  }

  lemma Prime43112422026923()
    ensures IsPrime(43112422026923)
  {
    hide IsPrime, At, Apart;
    Prime21556211013461();
    Begin(43112422026923, 4);
    Inverse(43112422026923, 4, 21556211013461, 21556211013461, 1, 4, 14370807342308, 14370807342309);
    Climb(43112422026923, 4, 0, 313, 0, 4, 7, 1, 1, 1, 256, 3744770277334, 7525882411220);
    Climb(43112422026923, 4, 313, 1284850, 5, 3, 6, 2, 7525882411220, 21606062624936, 34921768916825,
      31200106720785, 20729087880560);
    Climb(43112422026923, 4, 1284850, 5262746829, 2, 3, 1, 5, 20729087880560, 21557055881177, 40092274839707,
      16016048901592, 39161988507828);
    Climb(43112422026923, 4, 5262746829, 21556211013461, 3, 5, 2, 5, 39161988507828, 29013344429363,
      34385651686128, 17682161001639, 1);
    Compose(43112422026923, 4, 1, 4, 21556211013461, 1, 21556211013461);
    Certificate1(43112422026923, 4, 21556211013461);
  }

  lemma Prime48501474780299()
    ensures IsPrime(48501474780299)
  {
    hide IsPrime, At, Apart;
    Prime9234517();
    Begin(48501474780299, 10032156517967);
    Inverse(48501474780299, 10032156517967, 9234517, 9234517, 1, 10032156517967, 45400073722858, 45400073722859);
    Climb(48501474780299, 10032156517967, 0, 2254, 4, 3, 1, 6, 1, 44834806403680, 18276584630985, 22284002853004,
      32770964377792);
    Climb(48501474780299, 10032156517967, 2254, 9234517, 4, 1, 2, 5, 32770964377792, 46601218073710,
      41819603716493, 19881946355384, 1);
    Compose(48501474780299, 10032156517967, 1, 10032156517967, 9234517, 1, 9234517);
    Certificate1(48501474780299, 10032156517967, 9234517);
  }

  lemma Prime64668633040457()
    ensures IsPrime(64668633040457)
  {
    hide IsPrime, At, Apart;
    Small8();
    Small16();
    Begin(64668633040457, 5464962757727);
    Climb(64668633040457, 5464962757727, 0, 3, 0, 0, 0, 3, 1, 1, 1, 1, 32919404024038);
    Climb(64668633040457, 5464962757727, 3, 14669, 4, 5, 1, 5, 32919404024038, 24929298704729, 19252922562941,
      29377611356121, 10827520547890);
    Inverse(64668633040457, 5464962757727, 1163, 17060047, 14669, 10827520547890, 48383106460643, 48383106460644);
    Climb(64668633040457, 5464962757727, 0, 1163, 2, 2, 1, 3, 1, 27864849372230, 30923949478799, 45452591743473,
      31204825711807);
    Inverse(64668633040457, 5464962757727, 14669, 17060047, 1163, 31204825711807, 17104688693172, 17104688693173);
    Begin(64668633040457, 10827520547890);
    Climb(64668633040457, 10827520547890, 0, 1163, 2, 2, 1, 3, 1, 22243276699062, 41484015113468, 54250701155622,
      1);
    Compose(64668633040457, 5464962757727, 14669, 10827520547890, 1163, 1, 17060047);
    Certificate2(64668633040457, 5464962757727, 1163, 14669, 17060047);
  }

  lemma Prime86224844053847()
    ensures IsPrime(86224844053847)
  {
    hide IsPrime, At, Apart;
    Prime43112422026923();
    Begin(86224844053847, 4);
    Inverse(86224844053847, 4, 43112422026923, 43112422026923, 1, 4, 28741614684616, 28741614684617);
    Climb(86224844053847, 4, 0, 627, 1, 1, 6, 3, 1, 4, 262144, 48740070334024, 78984780055753);
    Climb(86224844053847, 4, 627, 2569700, 2, 7, 4, 4, 78984780055753, 75034160601305, 69655861838744,
      39020614873593, 85837248262738);
    Climb(86224844053847, 4, 2569700, 10525493658, 4, 6, 3, 2, 85837248262738, 29369928244270, 37049883655147,
      45577550750624, 3376560094712);
    Climb(86224844053847, 4, 10525493658, 43112422026923, 7, 2, 5, 3, 3376560094712, 82126844024572,
      27286302819235, 84188313249196, 1);
    Compose(86224844053847, 4, 1, 4, 43112422026923, 1, 43112422026923);
    Certificate1(86224844053847, 4, 43112422026923);
  }

  lemma Prime114966458738489()
    ensures IsPrime(114966458738489)
  {
    hide IsPrime, At, Apart;
    Small0();
    Small3();
    Prime73727();
    Begin(114966458738489, 51105571261715);
    Climb(114966458738489, 51105571261715, 0, 1817, 3, 4, 3, 1, 1, 56773967623116, 25074861979079, 77396826326639,
      49153202365100);
    Climb(114966458738489, 51105571261715, 1817, 7446427, 7, 6, 3, 3, 49153202365100, 83886353646594,
      1119897954144, 58684742769526, 114966458738488);
    Inverse(114966458738489, 51105571261715, 2, 14892854, 7446427, 114966458738488, 57483229369244, 57483229369245);
    Climb(114966458738489, 51105571261715, 0, 35, 0, 0, 4, 3, 1, 1, 1, 49407786596336, 77173553568977);
    Climb(114966458738489, 51105571261715, 35, 147454, 7, 7, 7, 6, 77173553568977, 50180402194355, 52114935971463,
      89903404134402, 18922466682076);
    Inverse(114966458738489, 51105571261715, 101, 14892854, 147454, 18922466682076, 70345727774347, 70345727774348);
    Climb(114966458738489, 51105571261715, 0, 202, 0, 3, 1, 2, 1, 1, 56773967623116, 78425486714455,
      80113150914100);
    Inverse(114966458738489, 51105571261715, 73727, 14892854, 202, 80113150914100, 32097118404422, 32097118404423);
    Double(114966458738489, 51105571261715, 7446427, 114966458738488, 14892854, 1);
    Certificate3(114966458738489, 51105571261715, 2, 101, 73727, 14892854);
  }

  lemma Prime153288611651291()
    ensures IsPrime(153288611651291)
  {
    hide IsPrime, At, Apart;
    Prime53530597();
    Begin(153288611651291, 69240190018251);
    Inverse(153288611651291, 69240190018251, 53530597, 53530597, 1, 69240190018251, 59480033224398, 59480033224399);
    Climb(153288611651291, 69240190018251, 0, 3, 0, 0, 0, 3, 1, 1, 1, 1, 104987077320771);
    Climb(153288611651291, 69240190018251, 3, 13068, 1, 4, 1, 4, 104987077320771, 145450351216383, 18549806425304,
      18697568217579, 46364539576504);
    Climb(153288611651291, 69240190018251, 13068, 53530597, 7, 7, 4, 5, 46364539576504, 21940804286914,
      25309867347179, 127880981316, 1);
    Compose(153288611651291, 69240190018251, 1, 69240190018251, 53530597, 1, 53530597);
    Certificate1(153288611651291, 69240190018251, 53530597);
  }

  lemma Prime204384815535079()
    ensures IsPrime(204384815535079)
  {
    hide IsPrime, At, Apart;
    Small7();
    Prime45667();
    Begin(204384815535079, 67002283354327);
    Climb(204384815535079, 67002283354327, 0, 11, 0, 0, 1, 3, 1, 1, 1, 67002283354327, 26841718841855);
    Climb(204384815535079, 67002283354327, 11, 45667, 1, 1, 4, 3, 26841718841855, 23493979357290, 65321361429760,
      133383964686846, 27526025019623);
    Inverse(204384815535079, 67002283354327, 601, 27445867, 45667, 27526025019623, 192543104464180,
      192543104464181);
    Climb(204384815535079, 67002283354327, 0, 601, 1, 1, 3, 1, 1, 67002283354327, 104528828964472, 168368925906760,
      160768635203667);
    Inverse(204384815535079, 67002283354327, 45667, 27445867, 601, 160768635203667, 59564087232346, 59564087232347);
    Begin(204384815535079, 27526025019623);
    Climb(204384815535079, 27526025019623, 0, 601, 1, 1, 3, 1, 1, 27526025019623, 111737919452332, 85216010061044,
      1);
    Compose(204384815535079, 67002283354327, 45667, 27526025019623, 601, 1, 27445867);
    Certificate2(204384815535079, 67002283354327, 601, 45667, 27445867);
  }

  lemma Prime272513087380099()
    ensures IsPrime(272513087380099)
  {
    hide IsPrime, At, Apart;
    Prime10994637593();
    Begin(272513087380099, 149925366231533);
    Inverse(272513087380099, 149925366231533, 10994637593, 10994637593, 1, 149925366231533, 258037344582719,
      258037344582720);
    Climb(272513087380099, 149925366231533, 0, 655, 1, 2, 1, 7, 1, 149925366231533, 250261305435824,
      17061224848978, 260969086354722);
    Climb(272513087380099, 149925366231533, 655, 2684237, 2, 5, 1, 5, 260969086354722, 178455363233898,
      175934945058439, 185704942839752, 264942159151725);
    Climb(272513087380099, 149925366231533, 2684237, 10994637593, 5, 4, 3, 1, 264942159151725, 37123684785020,
      243458318206544, 123781423134021, 1);
    Compose(272513087380099, 149925366231533, 1, 149925366231533, 10994637593, 1, 10994637593);
    Certificate1(272513087380099, 149925366231533, 10994637593);
  }
}
