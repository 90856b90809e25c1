/** The bucket counts the hash table may take, each with its certificate of primality: the powers
  * a^(n-1) and a^((n-1)/q) modulo n, computed two bits of the exponent at a time, for enough prime factors q of
  * n - 1 to exceed the square root of n. */
module PrimeSizes {
  import opened Primes

  const PRIME_LIST: seq<nat> := [
    0, 3, 11, 23, 53, 97, 193, 389,
    769, 1543, 3079, 6151, 12289, 24593, 49157, 98317,
    196613, 393241, 786433, 1572869, 3145739, 6291469, 12582917, 25165843,
    50331653, 100663319, 201326611, 402653189, 805306457, 1610612741, 3221225473, 4294967291
  ]

  lemma Powers769()
    ensures Power(7, 384, 769) == 768
  {
    hide *;
    PowerZero(7, 769); DigitPowers(7, 49, 343); Step(7, 769, 0, 1, 1, 7, 7); Step(7, 769, 1, 7, 2, 49, 761);
    Step(7, 769, 6, 761, 0, 1, 251); Step(7, 769, 24, 251, 0, 1, 173); Step(7, 769, 96, 173, 0, 1, 768);
  }

  lemma Prime769()
    ensures Prime(769)
  {
    hide *;
    Powers769(); SmallPrime(2); Square(7, 769, 384, 768); CoveredPrime(769, 7, 2, 384, 768, 384);
    CoveredProduct(769, 7, 2, 2, 4); CoveredProduct(769, 7, 4, 4, 16); CoveredProduct(769, 7, 2, 16, 32);
    Pocklington(769, 7, 32, 24);
  }

  lemma Powers1091()
    ensures Power(2, 1090, 1091) == 1
    ensures Power(2, 10, 1091) == 1024
  {
    hide *;
    PowerZero(2, 1091); DigitPowers(2, 4, 8); Step(2, 1091, 0, 1, 1, 2, 2); Step(2, 1091, 1, 2, 0, 1, 16);
    Step(2, 1091, 4, 16, 1, 2, 152); Step(2, 1091, 17, 152, 0, 1, 155); Step(2, 1091, 68, 155, 0, 1, 529);
    Step(2, 1091, 272, 529, 2, 4, 1); Step(2, 1091, 0, 1, 2, 4, 4); Step(2, 1091, 2, 4, 2, 4, 1024);
  }

  lemma Prime1091()
    ensures Prime(1091)
  {
    hide *;
    Powers1091(); SmallPrime(109); CoveredPrime(1091, 2, 109, 10, 1024, 369); Pocklington(1091, 2, 109, 10);
  }

  lemma Powers1399()
    ensures Power(2, 1398, 1399) == 1
    ensures Power(2, 6, 1399) == 64
  {
    hide *;
    PowerZero(2, 1399); DigitPowers(2, 4, 8); Step(2, 1399, 0, 1, 1, 2, 2); Step(2, 1399, 1, 2, 1, 2, 32);
    Step(2, 1399, 5, 32, 1, 2, 51); Step(2, 1399, 21, 51, 3, 8, 1293); Step(2, 1399, 87, 1293, 1, 2, 1074);
    Step(2, 1399, 349, 1074, 2, 4, 1); Step(2, 1399, 1, 2, 2, 4, 64);
  }

  lemma Prime1399()
    ensures Prime(1399)
  {
    hide *;
    Powers1399(); SmallPrime(233); CoveredPrime(1399, 2, 233, 6, 64, 644); Pocklington(1399, 2, 233, 6);
  }

  lemma Powers1543()
    ensures Power(2, 1542, 1543) == 1
    ensures Power(2, 6, 1543) == 64
  {
    hide *;
    PowerZero(2, 1543); DigitPowers(2, 4, 8); Step(2, 1543, 0, 1, 1, 2, 2); Step(2, 1543, 1, 2, 2, 4, 64);
    Step(2, 1543, 6, 64, 0, 1, 177); Step(2, 1543, 24, 177, 0, 1, 855); Step(2, 1543, 96, 855, 1, 2, 303);
    Step(2, 1543, 385, 303, 2, 4, 1);
  }

  lemma Prime1543()
    ensures Prime(1543)
  {
    hide *;
    Powers1543(); SmallPrime(257); CoveredPrime(1543, 2, 257, 6, 64, 49); Pocklington(1543, 2, 257, 6);
  }

  lemma Powers2731()
    ensures Power(3, 2730, 2731) == 1
    ensures Power(3, 210, 2731) == 1024
    ensures Power(3, 390, 2731) == 1238
  {
    hide *;
    PowerZero(3, 2731); DigitPowers(3, 9, 27); Step(3, 2731, 0, 1, 2, 9, 9); Step(3, 2731, 2, 9, 2, 9, 1698);
    Step(3, 2731, 10, 1698, 2, 9, 2201); Step(3, 2731, 42, 2201, 2, 9, 2693); Step(3, 2731, 170, 2693, 2, 9, 1523);
    Step(3, 2731, 682, 1523, 2, 9, 1); Step(3, 2731, 0, 1, 3, 27, 27); Step(3, 2731, 3, 27, 1, 3, 2150);
    Step(3, 2731, 13, 2150, 0, 1, 1290); Step(3, 2731, 52, 1290, 2, 9, 1024); Step(3, 2731, 0, 1, 1, 3, 3);
    Step(3, 2731, 1, 3, 2, 9, 729); Step(3, 2731, 6, 729, 0, 1, 790); Step(3, 2731, 24, 790, 1, 3, 1660);
    Step(3, 2731, 97, 1660, 2, 9, 1238);
  }

  lemma Prime2731()
    ensures Prime(2731)
  {
    hide *;
    Powers2731(); SmallPrime(13); SmallPrime(7); CoveredPrime(2731, 3, 13, 210, 1024, 606);
    CoveredPrime(2731, 3, 7, 390, 1238, 967); CoveredProduct(2731, 3, 13, 7, 91); Pocklington(2731, 3, 91, 30);
  }

  lemma Powers3079()
    ensures Power(2, 3078, 3079) == 1
    ensures Power(2, 1026, 3079) == 546
  {
    hide *;
    PowerZero(2, 3079); DigitPowers(2, 4, 8); Step(2, 3079, 0, 1, 3, 8, 8); Step(2, 3079, 3, 8, 0, 1, 1017);
    Step(2, 3079, 12, 1017, 0, 1, 366); Step(2, 3079, 48, 366, 0, 1, 1150); Step(2, 3079, 192, 1150, 1, 2, 1963);
    Step(2, 3079, 769, 1963, 2, 4, 1); Step(2, 3079, 0, 1, 1, 2, 2); Step(2, 3079, 1, 2, 0, 1, 16);
    Step(2, 3079, 4, 16, 0, 1, 877); Step(2, 3079, 16, 877, 0, 1, 766); Step(2, 3079, 64, 766, 0, 1, 306);
    Step(2, 3079, 256, 306, 2, 4, 546);
  }

  lemma Prime3079()
    ensures Prime(3079)
  {
    hide *;
    Powers3079(); SmallPrime(3); CoveredPrime(3079, 2, 3, 1026, 546, 1870); CoveredProduct(3079, 2, 3, 3, 9);
    CoveredProduct(3079, 2, 9, 9, 81); Pocklington(3079, 2, 81, 38);
  }

  lemma Powers4327()
    ensures Power(2, 4326, 4327) == 1
    ensures Power(2, 42, 4327) == 962
  {
    hide *;
    PowerZero(2, 4327); DigitPowers(2, 4, 8); Step(2, 4327, 0, 1, 1, 2, 2); Step(2, 4327, 1, 2, 0, 1, 16);
    Step(2, 4327, 4, 16, 0, 1, 631); Step(2, 4327, 16, 631, 3, 8, 4162); Step(2, 4327, 67, 4162, 2, 4, 2678);
    Step(2, 4327, 270, 2678, 1, 2, 1679); Step(2, 4327, 1081, 1679, 2, 4, 1); Step(2, 4327, 0, 1, 2, 4, 4);
    Step(2, 4327, 2, 4, 2, 4, 1024); Step(2, 4327, 10, 1024, 2, 4, 962);
  }

  lemma Prime4327()
    ensures Prime(4327)
  {
    hide *;
    Powers4327(); SmallPrime(103); CoveredPrime(4327, 2, 103, 42, 962, 1729); Pocklington(4327, 2, 103, 42);
  }

  lemma Powers5233()
    ensures Power(2, 5232, 5233) == 1
    ensures Power(2, 48, 5233) == 427
  {
    hide *;
    PowerZero(2, 5233); DigitPowers(2, 4, 8); Step(2, 5233, 0, 1, 1, 2, 2); Step(2, 5233, 1, 2, 1, 2, 32);
    Step(2, 5233, 5, 32, 0, 1, 1976); Step(2, 5233, 20, 1976, 1, 2, 3101); Step(2, 5233, 81, 3101, 3, 8, 2253);
    Step(2, 5233, 327, 2253, 0, 1, 1); Step(2, 5233, 1308, 1, 0, 1, 1); Step(2, 5233, 0, 1, 3, 8, 8);
    Step(2, 5233, 3, 8, 0, 1, 4096); Step(2, 5233, 12, 4096, 0, 1, 427);
  }

  lemma Prime5233()
    ensures Prime(5233)
  {
    hide *;
    Powers5233(); SmallPrime(109); CoveredPrime(5233, 2, 109, 48, 427, 3157); Pocklington(5233, 2, 109, 48);
  }

  lemma Powers5743()
    ensures Power(2, 5742, 5743) == 1
    ensures Power(2, 198, 5743) == 901
    ensures Power(2, 522, 5743) == 4052
  {
    hide *;
    PowerZero(2, 5743); DigitPowers(2, 4, 8); Step(2, 5743, 0, 1, 1, 2, 2); Step(2, 5743, 1, 2, 1, 2, 32);
    Step(2, 5743, 5, 32, 2, 4, 1914); Step(2, 5743, 22, 1914, 1, 2, 4325); Step(2, 5743, 89, 4325, 2, 4, 2316);
    Step(2, 5743, 358, 2316, 3, 8, 3743); Step(2, 5743, 1435, 3743, 2, 4, 1); Step(2, 5743, 0, 1, 3, 8, 8);
    Step(2, 5743, 3, 8, 0, 1, 4096); Step(2, 5743, 12, 4096, 1, 2, 2556); Step(2, 5743, 49, 2556, 2, 4, 901);
    Step(2, 5743, 0, 1, 2, 4, 4); Step(2, 5743, 2, 4, 0, 1, 256); Step(2, 5743, 8, 256, 0, 1, 1573);
    Step(2, 5743, 32, 1573, 2, 4, 1097); Step(2, 5743, 130, 1097, 2, 4, 4052);
  }

  lemma Prime5743()
    ensures Prime(5743)
  {
    hide *;
    Powers5743(); SmallPrime(29); SmallPrime(11); CoveredPrime(5743, 2, 29, 198, 901, 3784);
    CoveredPrime(5743, 2, 11, 522, 4052, 4219); CoveredProduct(5743, 2, 29, 11, 319); Pocklington(5743, 2, 319, 18);
  }

  lemma Powers6151()
    ensures Power(2, 6150, 6151) == 1
    ensures Power(2, 150, 6151) == 1074
    ensures Power(2, 1230, 6151) == 3478
  {
    hide *;
    PowerZero(2, 6151); DigitPowers(2, 4, 8); Step(2, 6151, 0, 1, 1, 2, 2); Step(2, 6151, 1, 2, 2, 4, 64);
    Step(2, 6151, 6, 64, 0, 1, 3439); Step(2, 6151, 24, 3439, 0, 1, 4211); Step(2, 6151, 96, 4211, 0, 1, 1187);
    Step(2, 6151, 384, 1187, 1, 2, 2801); Step(2, 6151, 1537, 2801, 2, 4, 1); Step(2, 6151, 0, 1, 2, 4, 4);
    Step(2, 6151, 2, 4, 1, 2, 512); Step(2, 6151, 9, 512, 1, 2, 708); Step(2, 6151, 37, 708, 2, 4, 1074);
    Step(2, 6151, 1, 2, 0, 1, 16); Step(2, 6151, 4, 16, 3, 8, 1453); Step(2, 6151, 19, 1453, 0, 1, 5981);
    Step(2, 6151, 76, 5981, 3, 8, 2475); Step(2, 6151, 307, 2475, 2, 4, 3478);
  }

  lemma Prime6151()
    ensures Prime(6151)
  {
    hide *;
    Powers6151(); SmallPrime(41); SmallPrime(5); CoveredPrime(6151, 2, 41, 150, 1074, 4265);
    CoveredPrime(6151, 2, 5, 1230, 3478, 5385); CoveredProduct(6151, 2, 41, 5, 205); Pocklington(6151, 2, 205, 30);
  }

  lemma Powers12289()
    ensures Power(11, 6144, 12289) == 12288
  {
    hide *;
    PowerZero(11, 12289); DigitPowers(11, 121, 1331); Step(11, 12289, 0, 1, 1, 11, 11);
    Step(11, 12289, 1, 11, 2, 121, 1945); Step(11, 12289, 6, 1945, 0, 1, 3400);
    Step(11, 12289, 24, 3400, 0, 1, 12149); Step(11, 12289, 96, 12149, 0, 1, 5860);
    Step(11, 12289, 384, 5860, 0, 1, 8246); Step(11, 12289, 1536, 8246, 0, 1, 12288);
  }

  lemma Prime12289()
    ensures Prime(12289)
  {
    hide *;
    Powers12289(); SmallPrime(2); Square(11, 12289, 6144, 12288); CoveredPrime(12289, 11, 2, 6144, 12288, 6144);
    CoveredProduct(12289, 11, 2, 2, 4); CoveredProduct(12289, 11, 2, 4, 8); CoveredProduct(12289, 11, 4, 4, 16);
    CoveredProduct(12289, 11, 8, 16, 128); Pocklington(12289, 11, 128, 96);
  }

  lemma Powers16981()
    ensures Power(2, 16980, 16981) == 1
    ensures Power(2, 60, 16981) == 12470
  {
    hide *;
    PowerZero(2, 16981); DigitPowers(2, 4, 8); Step(2, 16981, 0, 1, 1, 2, 2); Step(2, 16981, 1, 2, 0, 1, 16);
    Step(2, 16981, 4, 16, 0, 1, 14593); Step(2, 16981, 16, 14593, 2, 4, 16954);
    Step(2, 16981, 66, 16954, 1, 2, 10060); Step(2, 16981, 265, 10060, 1, 2, 1544);
    Step(2, 16981, 1061, 1544, 1, 2, 3788); Step(2, 16981, 4245, 3788, 0, 1, 1); Step(2, 16981, 0, 1, 3, 8, 8);
    Step(2, 16981, 3, 8, 3, 8, 15787); Step(2, 16981, 15, 15787, 0, 1, 12470);
  }

  lemma Prime16981()
    ensures Prime(16981)
  {
    hide *;
    Powers16981(); SmallPrime(283); CoveredPrime(16981, 2, 283, 60, 12470, 12875); Pocklington(16981, 2, 283, 60);
  }

  lemma Powers24593()
    ensures Power(2, 24592, 24593) == 1
    ensures Power(2, 464, 24593) == 7906
    ensures Power(2, 848, 24593) == 14437
  {
    hide *;
    PowerZero(2, 24593); DigitPowers(2, 4, 8); Step(2, 24593, 0, 1, 1, 2, 2); Step(2, 24593, 1, 2, 2, 4, 64);
    Step(2, 24593, 6, 64, 0, 1, 4790); Step(2, 24593, 24, 4790, 0, 1, 13946); Step(2, 24593, 96, 13946, 0, 1, 3520);
    Step(2, 24593, 384, 3520, 1, 2, 9350); Step(2, 24593, 1537, 9350, 0, 1, 24592);
    Step(2, 24593, 6148, 24592, 0, 1, 1); Step(2, 24593, 1, 2, 3, 8, 128); Step(2, 24593, 7, 128, 1, 2, 5722);
    Step(2, 24593, 29, 5722, 0, 1, 422); Step(2, 24593, 116, 422, 0, 1, 7906); Step(2, 24593, 0, 1, 3, 8, 8);
    Step(2, 24593, 3, 8, 1, 2, 8192); Step(2, 24593, 13, 8192, 1, 2, 11778); Step(2, 24593, 53, 11778, 0, 1, 7485);
    Step(2, 24593, 212, 7485, 0, 1, 14437);
  }

  lemma Prime24593()
    ensures Prime(24593)
  {
    hide *;
    Powers24593(); SmallPrime(53); SmallPrime(29); CoveredPrime(24593, 2, 53, 464, 7906, 8207);
    CoveredPrime(24593, 2, 29, 848, 14437, 23501); CoveredProduct(24593, 2, 53, 29, 1537);
    Pocklington(24593, 2, 1537, 16);
  }

  lemma Powers35747()
    ensures Power(2, 35746, 35747) == 1
    ensures Power(2, 122, 35747) == 20170
  {
    hide *;
    PowerZero(2, 35747); DigitPowers(2, 4, 8); Step(2, 35747, 0, 1, 2, 4, 4); Step(2, 35747, 2, 4, 0, 1, 256);
    Step(2, 35747, 8, 256, 2, 4, 3972); Step(2, 35747, 34, 3972, 3, 8, 17108); Step(2, 35747, 139, 17108, 2, 4, 5945);
    Step(2, 35747, 558, 5945, 2, 4, 14606); Step(2, 35747, 2234, 14606, 0, 1, 29284);
    Step(2, 35747, 8936, 29284, 2, 4, 1); Step(2, 35747, 0, 1, 1, 2, 2); Step(2, 35747, 1, 2, 3, 8, 128);
    Step(2, 35747, 7, 128, 2, 4, 9185); Step(2, 35747, 30, 9185, 2, 4, 20170);
  }

  lemma Prime35747()
    ensures Prime(35747)
  {
    hide *;
    Powers35747(); SmallPrime(293); CoveredPrime(35747, 2, 293, 122, 20170, 911); Pocklington(35747, 2, 293, 122);
  }

  lemma Powers49157()
    ensures Power(2, 49156, 49157) == 1
    ensures Power(2, 4, 49157) == 16
  {
    hide *;
    PowerZero(2, 49157); DigitPowers(2, 4, 8); Step(2, 49157, 0, 1, 3, 8, 8); Step(2, 49157, 3, 8, 0, 1, 4096);
    Step(2, 49157, 12, 4096, 0, 1, 17910); Step(2, 49157, 48, 17910, 0, 1, 35867);
    Step(2, 49157, 192, 35867, 0, 1, 47427); Step(2, 49157, 768, 47427, 0, 1, 30494);
    Step(2, 49157, 3072, 30494, 1, 2, 11290); Step(2, 49157, 12289, 11290, 0, 1, 1); Step(2, 49157, 0, 1, 1, 2, 2);
    Step(2, 49157, 1, 2, 0, 1, 16);
  }

  lemma Prime49157()
    ensures Prime(49157)
  {
    hide *;
    Powers49157(); Prime12289(); CoveredPrime(49157, 2, 12289, 4, 16, 22940); Pocklington(49157, 2, 12289, 4);
  }

  lemma Powers52103()
    ensures Power(2, 52102, 52103) == 1
    ensures Power(2, 218, 52103) == 9963
  {
    hide *;
    PowerZero(2, 52103); DigitPowers(2, 4, 8); Step(2, 52103, 0, 1, 3, 8, 8); Step(2, 52103, 3, 8, 0, 1, 4096);
    Step(2, 52103, 12, 4096, 2, 4, 10000); Step(2, 52103, 50, 10000, 3, 8, 47834);
    Step(2, 52103, 203, 47834, 2, 4, 22517); Step(2, 52103, 814, 22517, 0, 1, 2059);
    Step(2, 52103, 3256, 2059, 1, 2, 10011); Step(2, 52103, 13025, 10011, 2, 4, 1); Step(2, 52103, 3, 8, 1, 2, 8192);
    Step(2, 52103, 13, 8192, 2, 4, 3691); Step(2, 52103, 54, 3691, 2, 4, 9963);
  }

  lemma Prime52103()
    ensures Prime(52103)
  {
    hide *;
    Powers52103(); SmallPrime(239); CoveredPrime(52103, 2, 239, 218, 9963, 33834); Pocklington(52103, 2, 239, 218);
  }

  lemma Powers98317()
    ensures Power(2, 98316, 98317) == 1
    ensures Power(2, 36, 98317) == 23050
  {
    hide *;
    PowerZero(2, 98317); DigitPowers(2, 4, 8); Step(2, 98317, 0, 1, 1, 2, 2); Step(2, 98317, 1, 2, 2, 4, 64);
    Step(2, 98317, 6, 64, 0, 1, 63326); Step(2, 98317, 24, 63326, 0, 1, 93467);
    Step(2, 98317, 96, 93467, 0, 1, 92478); Step(2, 98317, 384, 92478, 0, 1, 80715);
    Step(2, 98317, 1536, 80715, 0, 1, 82206); Step(2, 98317, 6144, 82206, 3, 8, 29763);
    Step(2, 98317, 24579, 29763, 0, 1, 1); Step(2, 98317, 0, 1, 2, 4, 4); Step(2, 98317, 2, 4, 1, 2, 512);
    Step(2, 98317, 9, 512, 0, 1, 23050);
  }

  lemma Prime98317()
    ensures Prime(98317)
  {
    hide *;
    Powers98317(); Prime2731(); CoveredPrime(98317, 2, 2731, 36, 23050, 35353); Pocklington(98317, 2, 2731, 36);
  }

  lemma Powers174763()
    ensures Power(3, 174762, 174763) == 1
    ensures Power(3, 2394, 174763) == 54387
    ensures Power(3, 9198, 174763) == 174755
  {
    hide *;
    PowerZero(3, 174763); DigitPowers(3, 9, 27); Step(3, 174763, 0, 1, 2, 9, 9); Step(3, 174763, 2, 9, 2, 9, 59049);
    Step(3, 174763, 10, 59049, 2, 9, 132767); Step(3, 174763, 42, 132767, 2, 9, 24366);
    Step(3, 174763, 170, 24366, 2, 9, 121259); Step(3, 174763, 682, 121259, 2, 9, 156515);
    Step(3, 174763, 2730, 156515, 2, 9, 155576); Step(3, 174763, 10922, 155576, 2, 9, 55789);
    Step(3, 174763, 43690, 55789, 2, 9, 1); Step(3, 174763, 2, 9, 1, 3, 19683);
    Step(3, 174763, 9, 19683, 1, 3, 78938); Step(3, 174763, 37, 78938, 1, 3, 87294);
    Step(3, 174763, 149, 87294, 2, 9, 8593); Step(3, 174763, 598, 8593, 2, 9, 54387);
    Step(3, 174763, 2, 9, 0, 1, 6561); Step(3, 174763, 8, 6561, 3, 27, 28189);
    Step(3, 174763, 35, 28189, 3, 27, 77073); Step(3, 174763, 143, 77073, 2, 9, 7224);
    Step(3, 174763, 574, 7224, 3, 27, 72972); Step(3, 174763, 2299, 72972, 2, 9, 174755);
  }

  lemma Prime174763()
    ensures Prime(174763)
  {
    hide *;
    Powers174763(); SmallPrime(73); SmallPrime(19); CoveredPrime(174763, 3, 73, 2394, 54387, 30736);
    CoveredPrime(174763, 3, 19, 9198, 174755, 19418); CoveredProduct(174763, 3, 73, 19, 1387);
    Pocklington(174763, 3, 1387, 126);
  }

  lemma Powers196613()
    ensures Power(2, 196612, 196613) == 1
    ensures Power(2, 988, 196613) == 182973
    ensures Power(2, 10348, 196613) == 39406
  {
    hide *;
    PowerZero(2, 196613); DigitPowers(2, 4, 8); Step(2, 196613, 0, 1, 3, 8, 8); Step(2, 196613, 3, 8, 0, 1, 4096);
    Step(2, 196613, 12, 4096, 0, 1, 72815); Step(2, 196613, 48, 72815, 0, 1, 186288);
    Step(2, 196613, 192, 186288, 0, 1, 115637); Step(2, 196613, 768, 115637, 0, 1, 65847);
    Step(2, 196613, 3072, 65847, 0, 1, 173322); Step(2, 196613, 12288, 173322, 1, 2, 165784);
    Step(2, 196613, 49153, 165784, 0, 1, 1); Step(2, 196613, 3, 8, 3, 8, 32768);
    Step(2, 196613, 15, 32768, 1, 2, 173251); Step(2, 196613, 61, 173251, 3, 8, 125463);
    Step(2, 196613, 247, 125463, 0, 1, 182973); Step(2, 196613, 0, 1, 2, 4, 4); Step(2, 196613, 2, 4, 2, 4, 1024);
    Step(2, 196613, 10, 1024, 0, 1, 22557); Step(2, 196613, 40, 22557, 1, 2, 189179);
    Step(2, 196613, 161, 189179, 2, 4, 92861); Step(2, 196613, 646, 92861, 3, 8, 26310);
    Step(2, 196613, 2587, 26310, 0, 1, 39406);
  }

  lemma Prime196613()
    ensures Prime(196613)
  {
    hide *;
    Powers196613(); SmallPrime(199); SmallPrime(19); CoveredPrime(196613, 2, 199, 988, 182973, 3661);
    CoveredPrime(196613, 2, 19, 10348, 39406, 94966); CoveredProduct(196613, 2, 199, 19, 3781);
    Pocklington(196613, 2, 3781, 52);
  }

  lemma Powers312619()
    ensures Power(2, 312618, 312619) == 1
    ensures Power(2, 6, 312619) == 64
  {
    hide *;
    PowerZero(2, 312619); DigitPowers(2, 4, 8); Step(2, 312619, 0, 1, 1, 2, 2); Step(2, 312619, 1, 2, 0, 1, 16);
    Step(2, 312619, 4, 16, 3, 8, 211669); Step(2, 312619, 19, 211669, 0, 1, 161310);
    Step(2, 312619, 76, 161310, 1, 2, 98578); Step(2, 312619, 305, 98578, 1, 2, 165615);
    Step(2, 312619, 1221, 165615, 0, 1, 220627); Step(2, 312619, 4884, 220627, 2, 4, 141292);
    Step(2, 312619, 19538, 141292, 2, 4, 133241); Step(2, 312619, 78154, 133241, 2, 4, 1);
    Step(2, 312619, 1, 2, 2, 4, 64);
  }

  lemma Prime312619()
    ensures Prime(312619)
  {
    hide *;
    Powers312619(); Prime52103(); CoveredPrime(312619, 2, 52103, 6, 64, 143904); Pocklington(312619, 2, 52103, 6);
  }

  lemma Powers393241()
    ensures Power(2, 393240, 393241) == 1
    ensures Power(2, 3480, 393241) == 221573
    ensures Power(2, 13560, 393241) == 1341
  {
    hide *;
    PowerZero(2, 393241); DigitPowers(2, 4, 8); Step(2, 393241, 0, 1, 1, 2, 2); Step(2, 393241, 1, 2, 2, 4, 64);
    Step(2, 393241, 6, 64, 0, 1, 261094); Step(2, 393241, 24, 261094, 0, 1, 386126);
    Step(2, 393241, 96, 386126, 0, 1, 260413); Step(2, 393241, 384, 260413, 0, 1, 313308);
    Step(2, 393241, 1536, 313308, 0, 1, 119356); Step(2, 393241, 6144, 119356, 1, 2, 321653);
    Step(2, 393241, 24577, 321653, 2, 4, 393240); Step(2, 393241, 98310, 393240, 0, 1, 1);
    Step(2, 393241, 0, 1, 3, 8, 8); Step(2, 393241, 3, 8, 1, 2, 8192); Step(2, 393241, 13, 8192, 2, 4, 286660);
    Step(2, 393241, 54, 286660, 1, 2, 86818); Step(2, 393241, 217, 86818, 2, 4, 194881);
    Step(2, 393241, 870, 194881, 0, 1, 221573); Step(2, 393241, 13, 8192, 0, 1, 71665);
    Step(2, 393241, 52, 71665, 3, 8, 87378); Step(2, 393241, 211, 87378, 3, 8, 29865);
    Step(2, 393241, 847, 29865, 2, 4, 346314); Step(2, 393241, 3390, 346314, 0, 1, 1341);
  }

  lemma Prime393241()
    ensures Prime(393241)
  {
    hide *;
    Powers393241(); SmallPrime(113); SmallPrime(29); CoveredPrime(393241, 2, 113, 3480, 221573, 217160);
    CoveredPrime(393241, 2, 29, 13560, 1341, 381209); CoveredProduct(393241, 2, 113, 29, 3277);
    Pocklington(393241, 2, 3277, 120);
  }

  lemma Powers786433()
    ensures Power(5, 393216, 786433) == 786432
  {
    hide *;
    PowerZero(5, 786433); DigitPowers(5, 25, 125); Step(5, 786433, 0, 1, 1, 5, 5);
    Step(5, 786433, 1, 5, 2, 25, 15625); Step(5, 786433, 6, 15625, 0, 1, 267483);
    Step(5, 786433, 24, 267483, 0, 1, 164221); Step(5, 786433, 96, 164221, 0, 1, 356648);
    Step(5, 786433, 384, 356648, 0, 1, 334348); Step(5, 786433, 1536, 334348, 0, 1, 368299);
    Step(5, 786433, 6144, 368299, 0, 1, 462518); Step(5, 786433, 24576, 462518, 0, 1, 544685);
    Step(5, 786433, 98304, 544685, 0, 1, 786432);
  }

  lemma Prime786433()
    ensures Prime(786433)
  {
    hide *;
    Powers786433(); SmallPrime(2); Square(5, 786433, 393216, 786432);
    CoveredPrime(786433, 5, 2, 393216, 786432, 393216); CoveredProduct(786433, 5, 2, 2, 4);
    CoveredProduct(786433, 5, 4, 4, 16); CoveredProduct(786433, 5, 16, 16, 256);
    CoveredProduct(786433, 5, 4, 256, 1024); Pocklington(786433, 5, 1024, 768);
  }

  lemma Powers1572869()
    ensures Power(2, 1572868, 1572869) == 1
    ensures Power(2, 44, 1572869) == 174941
  {
    hide *;
    PowerZero(2, 1572869); DigitPowers(2, 4, 8); Step(2, 1572869, 0, 1, 1, 2, 2); Step(2, 1572869, 1, 2, 2, 4, 64);
    Step(2, 1572869, 6, 64, 0, 1, 1048526); Step(2, 1572869, 24, 1048526, 0, 1, 770227);
    Step(2, 1572869, 96, 770227, 0, 1, 181047); Step(2, 1572869, 384, 181047, 0, 1, 1311253);
    Step(2, 1572869, 1536, 1311253, 0, 1, 346519); Step(2, 1572869, 6144, 346519, 0, 1, 1526072);
    Step(2, 1572869, 24576, 1526072, 0, 1, 1266762); Step(2, 1572869, 98304, 1266762, 1, 2, 1204713);
    Step(2, 1572869, 393217, 1204713, 0, 1, 1); Step(2, 1572869, 0, 1, 2, 4, 4); Step(2, 1572869, 2, 4, 3, 8, 2048);
    Step(2, 1572869, 11, 2048, 0, 1, 174941);
  }

  lemma Prime1572869()
    ensures Prime(1572869)
  {
    hide *;
    Powers1572869(); Prime35747(); CoveredPrime(1572869, 2, 35747, 44, 174941, 1325718);
    Pocklington(1572869, 2, 35747, 44);
  }

  lemma Powers3145739()
    ensures Power(2, 3145738, 3145739) == 1
    ensures Power(2, 2, 3145739) == 4
  {
    hide *;
    PowerZero(2, 3145739); DigitPowers(2, 4, 8); Step(2, 3145739, 0, 1, 3, 8, 8); Step(2, 3145739, 3, 8, 0, 1, 4096);
    Step(2, 3145739, 12, 4096, 0, 1, 1401548); Step(2, 3145739, 48, 1401548, 0, 1, 3035998);
    Step(2, 3145739, 192, 3035998, 0, 1, 1369162); Step(2, 3145739, 768, 1369162, 0, 1, 1369882);
    Step(2, 3145739, 3072, 1369882, 0, 1, 661712); Step(2, 3145739, 12288, 661712, 0, 1, 1139827);
    Step(2, 3145739, 49152, 1139827, 0, 1, 316061); Step(2, 3145739, 196608, 316061, 2, 4, 2380116);
    Step(2, 3145739, 786434, 2380116, 2, 4, 1); Step(2, 3145739, 0, 1, 2, 4, 4);
  }

  lemma Prime3145739()
    ensures Prime(3145739)
  {
    hide *;
    Powers3145739(); Prime1572869(); CoveredPrime(3145739, 2, 1572869, 2, 4, 1048580);
    Pocklington(3145739, 2, 1572869, 2);
  }

  lemma Powers5921371()
    ensures Power(2, 5921370, 5921371) == 1
    ensures Power(2, 24570, 5921371) == 5456595
    ensures Power(2, 1973790, 5921371) == 3846014
  {
    hide *;
    PowerZero(2, 5921371); DigitPowers(2, 4, 8); Step(2, 5921371, 0, 1, 1, 2, 2); Step(2, 5921371, 1, 2, 1, 2, 32);
    Step(2, 5921371, 5, 32, 2, 4, 4194304); Step(2, 5921371, 22, 4194304, 2, 4, 4525340);
    Step(2, 5921371, 90, 4525340, 1, 2, 499068); Step(2, 5921371, 361, 499068, 1, 2, 4695407);
    Step(2, 5921371, 1445, 4695407, 2, 4, 2623781); Step(2, 5921371, 5782, 2623781, 2, 4, 3030085);
    Step(2, 5921371, 23130, 3030085, 1, 2, 5083115); Step(2, 5921371, 92521, 5083115, 1, 2, 1305640);
    Step(2, 5921371, 370085, 1305640, 2, 4, 1272802); Step(2, 5921371, 1480342, 1272802, 2, 4, 1);
    Step(2, 5921371, 5, 32, 3, 8, 2467237); Step(2, 5921371, 23, 2467237, 3, 8, 2697976);
    Step(2, 5921371, 95, 2697976, 3, 8, 2731946); Step(2, 5921371, 383, 2731946, 3, 8, 281899);
    Step(2, 5921371, 1535, 281899, 2, 4, 2497955); Step(2, 5921371, 6142, 2497955, 2, 4, 5456595);
    Step(2, 5921371, 1, 2, 3, 8, 128); Step(2, 5921371, 7, 128, 2, 4, 1973673);
    Step(2, 5921371, 30, 1973673, 0, 1, 5897744); Step(2, 5921371, 120, 5897744, 1, 2, 3891396);
    Step(2, 5921371, 481, 3891396, 3, 8, 2034846); Step(2, 5921371, 1927, 2034846, 2, 4, 1828007);
    Step(2, 5921371, 7710, 1828007, 0, 1, 358807); Step(2, 5921371, 30840, 358807, 1, 2, 3919353);
    Step(2, 5921371, 123361, 3919353, 3, 8, 858585); Step(2, 5921371, 493447, 858585, 2, 4, 3846014);
  }

  lemma Prime5921371()
    ensures Prime(5921371)
  {
    hide *;
    Powers5921371(); SmallPrime(241); SmallPrime(3); CoveredPrime(5921371, 2, 241, 24570, 5456595, 4692906);
    CoveredPrime(5921371, 2, 3, 1973790, 3846014, 691785); CoveredProduct(5921371, 2, 3, 3, 9);
    CoveredProduct(5921371, 2, 3, 9, 27); CoveredProduct(5921371, 2, 241, 27, 6507);
    Pocklington(5921371, 2, 6507, 910);
  }

  lemma Powers6291469()
    ensures Power(2, 6291468, 6291469) == 1
    ensures Power(2, 36, 6291469) == 4052318
  {
    hide *;
    PowerZero(2, 6291469); DigitPowers(2, 4, 8); Step(2, 6291469, 0, 1, 1, 2, 2); Step(2, 6291469, 1, 2, 2, 4, 64);
    Step(2, 6291469, 6, 64, 0, 1, 4194278); Step(2, 6291469, 24, 4194278, 0, 1, 1133580);
    Step(2, 6291469, 96, 1133580, 0, 1, 4420046); Step(2, 6291469, 384, 4420046, 0, 1, 4357182);
    Step(2, 6291469, 1536, 4357182, 0, 1, 1607328); Step(2, 6291469, 6144, 1607328, 0, 1, 4435340);
    Step(2, 6291469, 24576, 4435340, 0, 1, 6011511); Step(2, 6291469, 98304, 6011511, 0, 1, 3794762);
    Step(2, 6291469, 393216, 3794762, 3, 8, 3304258); Step(2, 6291469, 1572867, 3304258, 0, 1, 1);
    Step(2, 6291469, 0, 1, 2, 4, 4); Step(2, 6291469, 2, 4, 1, 2, 512); Step(2, 6291469, 9, 512, 0, 1, 4052318);
  }

  lemma Prime6291469()
    ensures Prime(6291469)
  {
    hide *;
    Powers6291469(); Prime174763(); CoveredPrime(6291469, 2, 174763, 36, 4052318, 5534018);
    Pocklington(6291469, 2, 174763, 36);
  }

  lemma Powers6710887()
    ensures Power(2, 6710886, 6710887) == 1
    ensures Power(2, 27846, 6710887) == 4521135
    ensures Power(2, 394758, 6710887) == 5873722
  {
    hide *;
    PowerZero(2, 6710887); DigitPowers(2, 4, 8); Step(2, 6710887, 0, 1, 1, 2, 2); Step(2, 6710887, 1, 2, 2, 4, 64);
    Step(2, 6710887, 6, 64, 1, 2, 6710884); Step(2, 6710887, 25, 6710884, 2, 4, 324);
    Step(2, 6710887, 102, 324, 1, 2, 1368244); Step(2, 6710887, 409, 1368244, 2, 4, 5712452);
    Step(2, 6710887, 1638, 5712452, 1, 2, 4924365); Step(2, 6710887, 6553, 4924365, 2, 4, 1663359);
    Step(2, 6710887, 26214, 1663359, 1, 2, 1986762); Step(2, 6710887, 104857, 1986762, 2, 4, 4409989);
    Step(2, 6710887, 419430, 4409989, 1, 2, 6189606); Step(2, 6710887, 1677721, 6189606, 2, 4, 1);
    Step(2, 6710887, 6, 64, 3, 8, 6710875); Step(2, 6710887, 27, 6710875, 0, 1, 20736);
    Step(2, 6710887, 108, 20736, 3, 8, 5212310); Step(2, 6710887, 435, 5212310, 0, 1, 5340523);
    Step(2, 6710887, 1740, 5340523, 1, 2, 1158530); Step(2, 6710887, 6961, 1158530, 2, 4, 4521135);
    Step(2, 6710887, 6, 64, 0, 1, 3355442); Step(2, 6710887, 24, 3355442, 0, 1, 3774879);
    Step(2, 6710887, 96, 3774879, 1, 2, 3561762); Step(2, 6710887, 385, 3561762, 2, 4, 3199647);
    Step(2, 6710887, 1542, 3199647, 0, 1, 6632879); Step(2, 6710887, 6168, 6632879, 0, 1, 949851);
    Step(2, 6710887, 24672, 949851, 1, 2, 3639139); Step(2, 6710887, 98689, 3639139, 2, 4, 5873722);
  }

  lemma Prime6710887()
    ensures Prime(6710887)
  {
    hide *;
    Powers6710887(); SmallPrime(241); SmallPrime(17); CoveredPrime(6710887, 2, 241, 27846, 4521135, 4647176);
    CoveredPrime(6710887, 2, 17, 394758, 5873722, 4545031); CoveredProduct(6710887, 2, 241, 17, 4097);
    Pocklington(6710887, 2, 4097, 1638);
  }

  lemma Powers12582917()
    ensures Power(2, 12582916, 12582917) == 1
    ensures Power(2, 2908, 12582917) == 4551950
  {
    hide *;
    PowerZero(2, 12582917); DigitPowers(2, 4, 8); Step(2, 12582917, 0, 1, 3, 8, 8);
    Step(2, 12582917, 3, 8, 0, 1, 4096); Step(2, 12582917, 12, 4096, 0, 1, 5592452);
    Step(2, 12582917, 48, 5592452, 0, 1, 1320438); Step(2, 12582917, 192, 1320438, 0, 1, 11590158);
    Step(2, 12582917, 768, 11590158, 0, 1, 9026116); Step(2, 12582917, 3072, 9026116, 0, 1, 3428004);
    Step(2, 12582917, 12288, 3428004, 0, 1, 8025954); Step(2, 12582917, 49152, 8025954, 0, 1, 6979767);
    Step(2, 12582917, 196608, 6979767, 0, 1, 3932035); Step(2, 12582917, 786432, 3932035, 1, 2, 2818780);
    Step(2, 12582917, 3145729, 2818780, 0, 1, 1); Step(2, 12582917, 0, 1, 2, 4, 4);
    Step(2, 12582917, 2, 4, 3, 8, 2048); Step(2, 12582917, 11, 2048, 1, 2, 6990515);
    Step(2, 12582917, 45, 6990515, 1, 2, 3158662); Step(2, 12582917, 181, 3158662, 3, 8, 6703871);
    Step(2, 12582917, 727, 6703871, 0, 1, 4551950);
  }

  lemma Prime12582917()
    ensures Prime(12582917)
  {
    hide *;
    Powers12582917(); Prime4327(); CoveredPrime(12582917, 2, 4327, 2908, 4551950, 7274069);
    Pocklington(12582917, 2, 4327, 2908);
  }

  lemma Powers22605091()
    ensures Power(2, 22605090, 22605091) == 1
    ensures Power(2, 124890, 22605091) == 13954217
  {
    hide *;
    PowerZero(2, 22605091); DigitPowers(2, 4, 8); Step(2, 22605091, 0, 1, 1, 2, 2); Step(2, 22605091, 1, 2, 1, 2, 32);
    Step(2, 22605091, 5, 32, 1, 2, 2097152); Step(2, 22605091, 21, 2097152, 2, 4, 15364398);
    Step(2, 22605091, 86, 15364398, 0, 1, 1417176); Step(2, 22605091, 344, 1417176, 3, 8, 9440982);
    Step(2, 22605091, 1379, 9440982, 2, 4, 4214518); Step(2, 22605091, 5518, 4214518, 3, 8, 16623520);
    Step(2, 22605091, 22075, 16623520, 1, 2, 12323248); Step(2, 22605091, 88301, 12323248, 0, 1, 1122569);
    Step(2, 22605091, 353204, 1122569, 2, 4, 3661599); Step(2, 22605091, 1412818, 3661599, 0, 1, 118051);
    Step(2, 22605091, 5651272, 118051, 2, 4, 1); Step(2, 22605091, 1, 2, 3, 8, 128);
    Step(2, 22605091, 7, 128, 2, 4, 11302547); Step(2, 22605091, 30, 11302547, 1, 2, 14128192);
    Step(2, 22605091, 121, 14128192, 3, 8, 19377874); Step(2, 22605091, 487, 19377874, 3, 8, 20502141);
    Step(2, 22605091, 1951, 20502141, 1, 2, 6576648); Step(2, 22605091, 7805, 6576648, 2, 4, 20761639);
    Step(2, 22605091, 31222, 20761639, 2, 4, 13954217);
  }

  lemma Prime22605091()
    ensures Prime(22605091)
  {
    hide *;
    Powers22605091(); SmallPrime(181); CoveredPrime(22605091, 2, 181, 124890, 13954217, 19569746);
    CoveredProduct(22605091, 2, 181, 181, 32761); Pocklington(22605091, 2, 32761, 690);
  }

  lemma Powers25165843()
    ensures Power(2, 25165842, 25165843) == 1
    ensures Power(2, 1482, 25165843) == 12979417
  {
    hide *;
    PowerZero(2, 25165843); DigitPowers(2, 4, 8); Step(2, 25165843, 0, 1, 1, 2, 2); Step(2, 25165843, 1, 2, 2, 4, 64);
    Step(2, 25165843, 6, 64, 0, 1, 16777216); Step(2, 25165843, 24, 16777216, 0, 1, 24880896);
    Step(2, 25165843, 96, 24880896, 0, 1, 10259798); Step(2, 25165843, 384, 10259798, 0, 1, 22487496);
    Step(2, 25165843, 1536, 22487496, 0, 1, 23265464); Step(2, 25165843, 6144, 23265464, 0, 1, 19825969);
    Step(2, 25165843, 24576, 19825969, 0, 1, 14013863); Step(2, 25165843, 98304, 14013863, 0, 1, 14302109);
    Step(2, 25165843, 393216, 14302109, 1, 2, 24875308); Step(2, 25165843, 1572865, 24875308, 0, 1, 6849995);
    Step(2, 25165843, 6291460, 6849995, 2, 4, 1); Step(2, 25165843, 1, 2, 1, 2, 32);
    Step(2, 25165843, 5, 32, 3, 8, 8388608); Step(2, 25165843, 23, 8388608, 0, 1, 1555056);
    Step(2, 25165843, 92, 1555056, 2, 4, 23565956); Step(2, 25165843, 370, 23565956, 2, 4, 12979417);
  }

  lemma Prime25165843()
    ensures Prime(25165843)
  {
    hide *;
    Powers25165843(); Prime16981(); CoveredPrime(25165843, 2, 16981, 1482, 12979417, 15038212);
    Pocklington(25165843, 2, 16981, 1482);
  }

  lemma Powers50331653()
    ensures Power(2, 50331652, 50331653) == 1
    ensures Power(2, 8764, 50331653) == 47381548
    ensures Power(2, 160804, 50331653) == 50281560
  {
    hide *;
    PowerZero(2, 50331653); DigitPowers(2, 4, 8); Step(2, 50331653, 0, 1, 3, 8, 8);
    Step(2, 50331653, 3, 8, 0, 1, 4096); Step(2, 50331653, 12, 4096, 0, 1, 39146844);
    Step(2, 50331653, 48, 39146844, 0, 1, 24632728); Step(2, 50331653, 192, 24632728, 0, 1, 3667792);
    Step(2, 50331653, 768, 3667792, 0, 1, 34695618); Step(2, 50331653, 3072, 34695618, 0, 1, 43163696);
    Step(2, 50331653, 12288, 43163696, 0, 1, 21447890); Step(2, 50331653, 49152, 21447890, 0, 1, 11950395);
    Step(2, 50331653, 196608, 11950395, 0, 1, 37928345); Step(2, 50331653, 786432, 37928345, 0, 1, 657620);
    Step(2, 50331653, 3145728, 657620, 1, 2, 29003647); Step(2, 50331653, 12582913, 29003647, 0, 1, 1);
    Step(2, 50331653, 0, 1, 2, 4, 4); Step(2, 50331653, 2, 4, 0, 1, 256); Step(2, 50331653, 8, 256, 2, 4, 16775511);
    Step(2, 50331653, 34, 16775511, 0, 1, 11170518); Step(2, 50331653, 136, 11170518, 3, 8, 17410949);
    Step(2, 50331653, 547, 17410949, 3, 8, 35315976); Step(2, 50331653, 2191, 35315976, 0, 1, 47381548);
    Step(2, 50331653, 2, 4, 1, 2, 512); Step(2, 50331653, 9, 512, 3, 8, 33499822);
    Step(2, 50331653, 39, 33499822, 1, 2, 10255722); Step(2, 50331653, 157, 10255722, 0, 1, 36976401);
    Step(2, 50331653, 628, 36976401, 0, 1, 26215250); Step(2, 50331653, 2512, 26215250, 2, 4, 39166777);
    Step(2, 50331653, 10050, 39166777, 1, 2, 49327498); Step(2, 50331653, 40201, 49327498, 0, 1, 50281560);
  }

  lemma Prime50331653()
    ensures Prime(50331653)
  {
    hide *;
    Powers50331653(); Prime5743(); SmallPrime(313); CoveredPrime(50331653, 2, 5743, 8764, 47381548, 30092760);
    CoveredPrime(50331653, 2, 313, 160804, 50281560, 35283600); CoveredProduct(50331653, 2, 5743, 313, 1797559);
    Pocklington(50331653, 2, 1797559, 28);
  }

  lemma Powers100663319()
    ensures Power(2, 100663318, 100663319) == 1
    ensures Power(2, 322, 100663319) == 37769703
  {
    hide *;
    PowerZero(2, 100663319); DigitPowers(2, 4, 8); Step(2, 100663319, 0, 1, 1, 2, 2);
    Step(2, 100663319, 1, 2, 2, 4, 64); Step(2, 100663319, 6, 64, 0, 1, 16777216);
    Step(2, 100663319, 24, 16777216, 0, 1, 13126837); Step(2, 100663319, 96, 13126837, 0, 1, 46196447);
    Step(2, 100663319, 384, 46196447, 0, 1, 58274793); Step(2, 100663319, 1536, 58274793, 0, 1, 91299918);
    Step(2, 100663319, 6144, 91299918, 0, 1, 64952623); Step(2, 100663319, 24576, 64952623, 0, 1, 59401135);
    Step(2, 100663319, 98304, 59401135, 0, 1, 12153168); Step(2, 100663319, 393216, 12153168, 0, 1, 63076946);
    Step(2, 100663319, 1572864, 63076946, 1, 2, 17658912); Step(2, 100663319, 6291457, 17658912, 1, 2, 85016646);
    Step(2, 100663319, 25165829, 85016646, 2, 4, 1); Step(2, 100663319, 1, 2, 1, 2, 32);
    Step(2, 100663319, 5, 32, 0, 1, 1048576); Step(2, 100663319, 20, 1048576, 0, 1, 7442122);
    Step(2, 100663319, 80, 7442122, 2, 4, 37769703);
  }

  lemma Prime100663319()
    ensures Prime(100663319)
  {
    hide *;
    Powers100663319(); Prime312619(); CoveredPrime(100663319, 2, 312619, 322, 37769703, 68677938);
    Pocklington(100663319, 2, 312619, 322);
  }

  lemma Powers201326611()
    ensures Power(2, 201326610, 201326611) == 1
    ensures Power(2, 30, 201326611) == 67108769
  {
    hide *;
    PowerZero(2, 201326611); DigitPowers(2, 4, 8); Step(2, 201326611, 0, 1, 3, 8, 8);
    Step(2, 201326611, 3, 8, 0, 1, 4096); Step(2, 201326611, 12, 4096, 0, 1, 40544945);
    Step(2, 201326611, 48, 40544945, 0, 1, 34201926); Step(2, 201326611, 192, 34201926, 0, 1, 2927113);
    Step(2, 201326611, 768, 2927113, 0, 1, 175570346); Step(2, 201326611, 3072, 175570346, 0, 1, 18757223);
    Step(2, 201326611, 12288, 18757223, 0, 1, 199192675); Step(2, 201326611, 49152, 199192675, 0, 1, 180414564);
    Step(2, 201326611, 196608, 180414564, 0, 1, 144805510); Step(2, 201326611, 786432, 144805510, 0, 1, 152405496);
    Step(2, 201326611, 3145728, 152405496, 1, 2, 49896433); Step(2, 201326611, 12582913, 49896433, 0, 1, 61064002);
    Step(2, 201326611, 50331652, 61064002, 2, 4, 1); Step(2, 201326611, 0, 1, 1, 2, 2);
    Step(2, 201326611, 1, 2, 3, 8, 128); Step(2, 201326611, 7, 128, 2, 4, 67108769);
  }

  lemma Prime201326611()
    ensures Prime(201326611)
  {
    hide *;
    Powers201326611(); Prime6710887(); CoveredPrime(201326611, 2, 6710887, 30, 67108769, 101646986);
    Pocklington(201326611, 2, 6710887, 30);
  }

  lemma Powers402653189()
    ensures Power(2, 402653188, 402653189) == 1
    ensures Power(2, 369068, 402653189) == 275234938
    ensures Power(2, 57521884, 402653189) == 255295395
  {
    hide *;
    PowerZero(2, 402653189); DigitPowers(2, 4, 8); Step(2, 402653189, 0, 1, 1, 2, 2);
    Step(2, 402653189, 1, 2, 2, 4, 64); Step(2, 402653189, 6, 64, 0, 1, 16777216);
    Step(2, 402653189, 24, 16777216, 0, 1, 342849161); Step(2, 402653189, 96, 342849161, 0, 1, 47459180);
    Step(2, 402653189, 384, 47459180, 0, 1, 386457855); Step(2, 402653189, 1536, 386457855, 0, 1, 4306530);
    Step(2, 402653189, 6144, 4306530, 0, 1, 119532577); Step(2, 402653189, 24576, 119532577, 0, 1, 370099054);
    Step(2, 402653189, 98304, 370099054, 0, 1, 126203079); Step(2, 402653189, 393216, 126203079, 0, 1, 302051841);
    Step(2, 402653189, 1572864, 302051841, 0, 1, 21704587); Step(2, 402653189, 6291456, 21704587, 0, 1, 336274933);
    Step(2, 402653189, 25165824, 336274933, 1, 2, 167300271); Step(2, 402653189, 100663297, 167300271, 0, 1, 1);
    Step(2, 402653189, 1, 2, 1, 2, 32); Step(2, 402653189, 5, 32, 2, 4, 4194304);
    Step(2, 402653189, 22, 4194304, 2, 4, 74563035); Step(2, 402653189, 90, 74563035, 0, 1, 174849125);
    Step(2, 402653189, 360, 174849125, 1, 2, 385202083); Step(2, 402653189, 1441, 385202083, 2, 4, 320784395);
    Step(2, 402653189, 5766, 320784395, 2, 4, 350136563); Step(2, 402653189, 23066, 350136563, 3, 8, 368498428);
    Step(2, 402653189, 92267, 368498428, 0, 1, 275234938); Step(2, 402653189, 0, 1, 3, 8, 8);
    Step(2, 402653189, 3, 8, 1, 2, 8192); Step(2, 402653189, 13, 8192, 2, 4, 44739246);
    Step(2, 402653189, 54, 44739246, 3, 8, 148517580); Step(2, 402653189, 219, 148517580, 1, 2, 154977892);
    Step(2, 402653189, 877, 154977892, 2, 4, 95101288); Step(2, 402653189, 3510, 95101288, 3, 8, 240050169);
    Step(2, 402653189, 14043, 240050169, 1, 2, 107259916); Step(2, 402653189, 56173, 107259916, 2, 4, 137042107);
    Step(2, 402653189, 224694, 137042107, 3, 8, 86861430); Step(2, 402653189, 898779, 86861430, 1, 2, 322815499);
    Step(2, 402653189, 3595117, 322815499, 3, 8, 32665831); Step(2, 402653189, 14380471, 32665831, 0, 1, 255295395);
  }

  lemma Prime402653189()
    ensures Prime(402653189)
  {
    hide *;
    Powers402653189(); Prime1091(); SmallPrime(7); CoveredPrime(402653189, 2, 1091, 369068, 275234938, 183744784);
    CoveredPrime(402653189, 2, 7, 57521884, 255295395, 68663968); CoveredProduct(402653189, 2, 7, 7, 49);
    CoveredProduct(402653189, 2, 1091, 49, 53459); Pocklington(402653189, 2, 53459, 7532);
  }

  lemma Powers805306457()
    ensures Power(2, 805306456, 805306457) == 1
    ensures Power(2, 136, 805306457) == 456105428
  {
    hide *;
    PowerZero(2, 805306457); DigitPowers(2, 4, 8); Step(2, 805306457, 0, 1, 3, 8, 8);
    Step(2, 805306457, 3, 8, 0, 1, 4096); Step(2, 805306457, 12, 4096, 0, 1, 237327731);
    Step(2, 805306457, 48, 237327731, 0, 1, 22925454); Step(2, 805306457, 192, 22925454, 0, 1, 589815007);
    Step(2, 805306457, 768, 589815007, 0, 1, 599995989); Step(2, 805306457, 3072, 599995989, 0, 1, 637537342);
    Step(2, 805306457, 12288, 637537342, 0, 1, 630183352); Step(2, 805306457, 49152, 630183352, 0, 1, 225883612);
    Step(2, 805306457, 196608, 225883612, 0, 1, 294091793); Step(2, 805306457, 786432, 294091793, 0, 1, 458617542);
    Step(2, 805306457, 3145728, 458617542, 1, 2, 140585718); Step(2, 805306457, 12582913, 140585718, 1, 2, 397730640);
    Step(2, 805306457, 50331653, 397730640, 2, 4, 805306456); Step(2, 805306457, 201326614, 805306456, 0, 1, 1);
    Step(2, 805306457, 0, 1, 2, 4, 4); Step(2, 805306457, 2, 4, 0, 1, 256);
    Step(2, 805306457, 8, 256, 2, 4, 268433587); Step(2, 805306457, 34, 268433587, 0, 1, 456105428);
  }

  lemma Prime805306457()
    ensures Prime(805306457)
  {
    hide *;
    Powers805306457(); Prime5921371(); CoveredPrime(805306457, 2, 5921371, 136, 456105428, 633581941);
    Pocklington(805306457, 2, 5921371, 136);
  }

  lemma Powers1610612741()
    ensures Power(2, 1610612740, 1610612741) == 1
    ensures Power(2, 307780, 1610612741) == 1492572786
    ensures Power(2, 1151260, 1610612741) == 1080352817
  {
    hide *;
    PowerZero(2, 1610612741); DigitPowers(2, 4, 8); Step(2, 1610612741, 0, 1, 1, 2, 2);
    Step(2, 1610612741, 1, 2, 2, 4, 64); Step(2, 1610612741, 6, 64, 0, 1, 16777216);
    Step(2, 1610612741, 24, 16777216, 0, 1, 835130162); Step(2, 1610612741, 96, 835130162, 0, 1, 1169759942);
    Step(2, 1610612741, 384, 1169759942, 0, 1, 946414092); Step(2, 1610612741, 1536, 946414092, 0, 1, 47583578);
    Step(2, 1610612741, 6144, 47583578, 0, 1, 502251690); Step(2, 1610612741, 24576, 502251690, 0, 1, 1069057528);
    Step(2, 1610612741, 98304, 1069057528, 0, 1, 827300434); Step(2, 1610612741, 393216, 827300434, 0, 1, 1246750226);
    Step(2, 1610612741, 1572864, 1246750226, 0, 1, 196387797);
    Step(2, 1610612741, 6291456, 196387797, 0, 1, 1354400412);
    Step(2, 1610612741, 25165824, 1354400412, 0, 1, 1543138730);
    Step(2, 1610612741, 100663296, 1543138730, 1, 2, 456882646); Step(2, 1610612741, 402653185, 456882646, 0, 1, 1);
    Step(2, 1610612741, 1, 2, 0, 1, 16); Step(2, 1610612741, 4, 16, 2, 4, 262144);
    Step(2, 1610612741, 18, 262144, 3, 8, 895148945); Step(2, 1610612741, 75, 895148945, 0, 1, 1418923635);
    Step(2, 1610612741, 300, 1418923635, 2, 4, 94008770); Step(2, 1610612741, 1202, 94008770, 1, 2, 705045244);
    Step(2, 1610612741, 4809, 705045244, 0, 1, 95532836); Step(2, 1610612741, 19236, 95532836, 1, 2, 671333911);
    Step(2, 1610612741, 76945, 671333911, 0, 1, 1492572786); Step(2, 1610612741, 4, 16, 1, 2, 131072);
    Step(2, 1610612741, 17, 131072, 2, 4, 178968349); Step(2, 1610612741, 70, 178968349, 1, 2, 1165424278);
    Step(2, 1610612741, 281, 1165424278, 0, 1, 1264218353); Step(2, 1610612741, 1124, 1264218353, 1, 2, 1401028785);
    Step(2, 1610612741, 4497, 1401028785, 0, 1, 662028709); Step(2, 1610612741, 17988, 662028709, 1, 2, 386302768);
    Step(2, 1610612741, 71953, 386302768, 3, 8, 243660089); Step(2, 1610612741, 287815, 243660089, 0, 1, 1080352817);
  }

  lemma Prime1610612741()
    ensures Prime(1610612741)
  {
    hide *;
    Powers1610612741(); Prime5233(); Prime1399(); CoveredPrime(1610612741, 2, 5233, 307780, 1492572786, 290964600);
    CoveredPrime(1610612741, 2, 1399, 1151260, 1080352817, 446570089);
    CoveredProduct(1610612741, 2, 5233, 1399, 7320967); Pocklington(1610612741, 2, 7320967, 220);
  }

  lemma Powers3221225473()
    ensures Power(5, 1610612736, 3221225473) == 3221225472
  {
    hide *;
    PowerZero(5, 3221225473); DigitPowers(5, 25, 125); Step(5, 3221225473, 0, 1, 1, 5, 5);
    Step(5, 3221225473, 1, 5, 2, 25, 15625); Step(5, 3221225473, 6, 15625, 0, 1, 229807484);
    Step(5, 3221225473, 24, 229807484, 0, 1, 1838654099); Step(5, 3221225473, 96, 1838654099, 0, 1, 140749519);
    Step(5, 3221225473, 384, 140749519, 0, 1, 448192265); Step(5, 3221225473, 1536, 448192265, 0, 1, 511777184);
    Step(5, 3221225473, 6144, 511777184, 0, 1, 1800384970); Step(5, 3221225473, 24576, 1800384970, 0, 1, 1405588668);
    Step(5, 3221225473, 98304, 1405588668, 0, 1, 1734477367);
    Step(5, 3221225473, 393216, 1734477367, 0, 1, 1168849724);
    Step(5, 3221225473, 1572864, 1168849724, 0, 1, 764652596);
    Step(5, 3221225473, 6291456, 764652596, 0, 1, 1292405718);
    Step(5, 3221225473, 25165824, 1292405718, 0, 1, 66931328);
    Step(5, 3221225473, 100663296, 66931328, 0, 1, 1031213943);
    Step(5, 3221225473, 402653184, 1031213943, 0, 1, 3221225472);
  }

  lemma Prime3221225473()
    ensures Prime(3221225473)
  {
    hide *;
    Powers3221225473(); SmallPrime(2); Square(5, 3221225473, 1610612736, 3221225472);
    CoveredPrime(3221225473, 5, 2, 1610612736, 3221225472, 1610612736); CoveredProduct(3221225473, 5, 2, 2, 4);
    CoveredProduct(3221225473, 5, 4, 4, 16); CoveredProduct(3221225473, 5, 16, 16, 256);
    CoveredProduct(3221225473, 5, 256, 256, 65536); Pocklington(3221225473, 5, 65536, 49152);
  }

  lemma Powers4294967291()
    ensures Power(2, 4294967290, 4294967291) == 1
    ensures Power(2, 190, 4294967291) == 1073745729
  {
    hide *;
    PowerZero(2, 4294967291); DigitPowers(2, 4, 8); Step(2, 4294967291, 0, 1, 3, 8, 8);
    Step(2, 4294967291, 3, 8, 3, 8, 32768); Step(2, 4294967291, 15, 32768, 3, 8, 2147483658);
    Step(2, 4294967291, 63, 2147483658, 3, 8, 2147678958); Step(2, 4294967291, 255, 2147678958, 3, 8, 3026704579);
    Step(2, 4294967291, 1023, 3026704579, 3, 8, 1942866765); Step(2, 4294967291, 4095, 1942866765, 3, 8, 3031303048);
    Step(2, 4294967291, 16383, 3031303048, 3, 8, 1153410921);
    Step(2, 4294967291, 65535, 1153410921, 3, 8, 1576914029);
    Step(2, 4294967291, 262143, 1576914029, 3, 8, 2212816837);
    Step(2, 4294967291, 1048575, 2212816837, 3, 8, 3033467628);
    Step(2, 4294967291, 4194303, 3033467628, 3, 8, 1290348818);
    Step(2, 4294967291, 16777215, 1290348818, 3, 8, 4113184316);
    Step(2, 4294967291, 67108863, 4113184316, 3, 8, 1430430472);
    Step(2, 4294967291, 268435455, 1430430472, 2, 4, 110536630); Step(2, 4294967291, 1073741822, 110536630, 2, 4, 1);
    Step(2, 4294967291, 0, 1, 2, 4, 4); Step(2, 4294967291, 2, 4, 3, 8, 2048);
    Step(2, 4294967291, 11, 2048, 3, 8, 163840); Step(2, 4294967291, 47, 163840, 2, 4, 1073745729);
  }

  lemma Prime4294967291()
    ensures Prime(4294967291)
  {
    hide *;
    Powers4294967291(); Prime22605091(); CoveredPrime(4294967291, 2, 22605091, 190, 1073745729, 1771216906);
    Pocklington(4294967291, 2, 22605091, 190);
  }

  /** Every bucket count after the initial zero is prime. */
  lemma ListedSizesArePrime(i: nat)
    requires 1 <= i < 32
    ensures Prime(PRIME_LIST[i])
  {
    hide Prime;
    SmallPrime(3); SmallPrime(11); SmallPrime(23); SmallPrime(53); SmallPrime(97); SmallPrime(193); SmallPrime(389);
    Prime769(); Prime1543(); Prime3079(); Prime6151(); Prime12289(); Prime24593(); Prime49157(); Prime98317();
    Prime196613(); Prime393241(); Prime786433(); Prime1572869(); Prime3145739(); Prime6291469(); Prime12582917();
    Prime25165843(); Prime50331653(); Prime100663319(); Prime201326611(); Prime402653189(); Prime805306457();
    Prime1610612741(); Prime3221225473(); Prime4294967291();
  }
}
