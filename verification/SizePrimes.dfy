/** Every listed size is prime, so double hashing reaches every slot of a table of that size. */
module SizePrimes {
  import opened Primes
  import opened Primality
  import opened SizeCertificates
  import opened Sizes

  lemma Row0IsPrime(i: nat)
    requires i < 8
    ensures IsPrime(Row0(i))
  {
    hide IsPrime;
    if i == 0 {
      Small0();
    } else if i == 1 {
      Small0();
    } else if i == 2 {
      Small0();
    } else if i == 3 {
      Small0();
    } else if i == 4 {
      Small0();
    } else if i == 5 {
      Small1();
    } else if i == 6 {
      Small1();
    } else {
      Small1();
    }
  }

  lemma Row1IsPrime(i: nat)
    requires i < 8
    ensures IsPrime(Row1(i))
  {
    hide IsPrime;
    if i == 0 {
      Small1();
    } else if i == 1 {
      Small2();
    } else if i == 2 {
      Small2();
    } else if i == 3 {
      Small3();
    } else if i == 4 {
      Small3();
    } else if i == 5 {
      Small4();
    } else if i == 6 {
      Small5();
    } else {
      Small6();
    }
  }

  lemma Row2IsPrime(i: nat)
    requires i < 8
    ensures IsPrime(Row2(i))
  {
    hide IsPrime;
    if i == 0 {
      Small6();
    } else if i == 1 {
      Small7();
    } else if i == 2 {
      Small7();
    } else if i == 3 {
      Small8();
    } else if i == 4 {
      Small8();
    } else if i == 5 {
      Small9();
    } else if i == 6 {
      Small10();
    } else {
      Small11();
    }
  }

  lemma Row3IsPrime(i: nat)
    requires i < 8
    ensures IsPrime(Row3(i))
  {
    hide IsPrime;
    if i == 0 {
      Small12();
    } else if i == 1 {
      Small13();
    } else if i == 2 {
      Small13();
    } else if i == 3 {
      Small14();
    } else if i == 4 {
      Small15();
    } else if i == 5 {
      Small16();
    } else if i == 6 {
      Small17();
    } else {
      Prime27581();
    }
  }

  lemma Row4IsPrime(i: nat)
    requires i < 8
    ensures IsPrime(Row4(i))
  {
    hide IsPrime;
    if i == 0 {
      Prime36749();
    } else if i == 1 {
      Prime49003();
    } else if i == 2 {
      Prime65353();
    } else if i == 3 {
      Prime87107();
    } else if i == 4 {
      Prime116141();
    } else if i == 5 {
      Prime154871();
    } else if i == 6 {
      Prime206477();
    } else {
      Prime275299();
    }
  }

  lemma Row5IsPrime(i: nat)
    requires i < 8
    ensures IsPrime(Row5(i))
  {
    hide IsPrime;
    if i == 0 {
      Prime367069();
    } else if i == 1 {
      Prime489427();
    } else if i == 2 {
      Prime652559();
    } else if i == 3 {
      Prime870083();
    } else if i == 4 {
      Prime1160111();
    } else if i == 5 {
      Prime1546799();
    } else if i == 6 {
      Prime2062391();
    } else {
      Prime2749847();
    }
  }

  lemma Row6IsPrime(i: nat)
    requires i < 8
    ensures IsPrime(Row6(i))
  {
    hide IsPrime;
    if i == 0 {
      Prime3666461();
    } else if i == 1 {
      Prime4888619();
    } else if i == 2 {
      Prime6518173();
    } else if i == 3 {
      Prime8690917();
    } else if i == 4 {
      Prime11587841();
    } else if i == 5 {
      Prime15450437();
    } else if i == 6 {
      Prime20600597();
    } else {
      Prime27467443();
    }
  }

  lemma Row7IsPrime(i: nat)
    requires i < 8
    ensures IsPrime(Row7(i))
  {
    hide IsPrime;
    if i == 0 {
      Prime36623261();
    } else if i == 1 {
      Prime48831017();
    } else if i == 2 {
      Prime65107997();
    } else if i == 3 {
      Prime86810681();
    } else if i == 4 {
      Prime115747549();
    } else if i == 5 {
      Prime154330079();
    } else if i == 6 {
      Prime205773427();
    } else {
      Prime274364561();
    }
  }

  lemma Row8IsPrime(i: nat)
    requires i < 8
    ensures IsPrime(Row8(i))
  {
    hide IsPrime;
    if i == 0 {
      Prime365819417();
    } else if i == 1 {
      Prime487759219();
    } else if i == 2 {
      Prime650345651();
    } else if i == 3 {
      Prime867127501();
    } else if i == 4 {
      Prime1156170011();
    } else if i == 5 {
      Prime1541560037();
    } else if i == 6 {
      Prime2055413317();
    } else {
      Prime2740551103();
    }
  }

  lemma Row9IsPrime(i: nat)
    requires i < 8
    ensures IsPrime(Row9(i))
  {
    hide IsPrime;
    if i == 0 {
      Prime3654068141();
    } else if i == 1 {
      Prime4872090871();
    } else if i == 2 {
      Prime6496121063();
    } else if i == 3 {
      Prime8661494753();
    } else if i == 4 {
      Prime11548659701();
    } else if i == 5 {
      Prime15398212901();
    } else if i == 6 {
      Prime20530950533();
    } else {
      Prime27374600677();
    }
  }

  lemma Row10IsPrime(i: nat)
    requires i < 8
    ensures IsPrime(Row10(i))
  {
    hide IsPrime;
    if i == 0 {
      Prime36499467569();
    } else if i == 1 {
      Prime48665956771();
    } else if i == 2 {
      Prime64887942367();
    } else if i == 3 {
      Prime86517256433();
    } else if i == 4 {
      Prime115356341911();
    } else if i == 5 {
      Prime153808455923();
    } else if i == 6 {
      Prime205077941191();
    } else {
      Prime273437254897();
    }
  }

  lemma Row11IsPrime(i: nat)
    requires i < 8
    ensures IsPrime(Row11(i))
  {
    hide IsPrime;
    if i == 0 {
      Prime364583006561();
    } else if i == 1 {
      Prime486110675443();
    } else if i == 2 {
      Prime648147567293();
    } else if i == 3 {
      Prime864196756231();
    } else if i == 4 {
      Prime1152262341641();
    } else if i == 5 {
      Prime1536349788871();
    } else if i == 6 {
      Prime2048466385123();
    } else {
      Prime2731288513529();
    }
  }

  lemma Row12IsPrime(i: nat)
    requires i < 8
    ensures IsPrime(Row12(i))
  {
    hide IsPrime;
    if i == 0 {
      Prime3641718017983();
    } else if i == 1 {
      Prime4855624023953();
    } else if i == 2 {
      Prime6474165365293();
    } else if i == 3 {
      Prime8632220487029();
    } else if i == 4 {
      Prime11509627316059();
    } else if i == 5 {
      Prime15346169754719();
    } else if i == 6 {
      Prime20461559672951();
    } else {
      Prime27282079563967();
    }
  }

  lemma Row13IsPrime(i: nat)
    requires i < 8
    ensures IsPrime(Row13(i))
  {
    hide IsPrime;
    if i == 0 {
      Prime36376106085223();
    } else if i == 1 {
      Prime48501474780299();
    } else if i == 2 {
      Prime64668633040457();
    } else if i == 3 {
      Prime86224844053847();
    } else if i == 4 {
      Prime114966458738489();
    } else if i == 5 {
      Prime153288611651291();
    } else if i == 6 {
      Prime204384815535079();
    } else {
      Prime272513087380099();
    }
  }

  lemma SizeIsPrime(i: nat)
    requires i < SIZES_N
    ensures IsPrime(SizeAt(i))
  {
    hide IsPrime, Row0, Row1, Row2, Row3, Row4, Row5, Row6, Row7, Row8, Row9, Row10, Row11, Row12, Row13;
    if i < 8 {
      Row0IsPrime(i - 0);
    } else if i < 16 {
      Row1IsPrime(i - 8);
    } else if i < 24 {
      Row2IsPrime(i - 16);
    } else if i < 32 {
      Row3IsPrime(i - 24);
    } else if i < 40 {
      Row4IsPrime(i - 32);
    } else if i < 48 {
      Row5IsPrime(i - 40);
    } else if i < 56 {
      Row6IsPrime(i - 48);
    } else if i < 64 {
      Row7IsPrime(i - 56);
    } else if i < 72 {
      Row8IsPrime(i - 64);
    } else if i < 80 {
      Row9IsPrime(i - 72);
    } else if i < 88 {
      Row10IsPrime(i - 80);
    } else if i < 96 {
      Row11IsPrime(i - 88);
    } else if i < 104 {
      Row12IsPrime(i - 96);
    } else {
      Row13IsPrime(i - 104);
    }
  }

  lemma ListedIsPrime(n: nat)
    requires Listed(n)
    ensures IsPrime(n)
  {
    var i :| 0 <= i < SIZES_N && SizeAt(i) == n;
    SizeIsPrime(i);
  }
}
