/**
 Where the constants of SHA-256 come from (sections 4.2.2 and 5.3.3 of FIPS 180-4): the fractions of the cube roots of
 the first 64 primes, and of the square roots of the first eight, to 32 bits.
 */
module Sha256Constants {
  import opened Sha256Transform

  /** The first 32 bits of the fraction of the cube root of `p`, which is below seven. */
  ghost predicate CubeRoot(p: nat, k: Word) {
    var c := CubeWhole(p) * 0x1_0000_0000 + k;
    c * c * c <= p * 0x1_0000_0000_0000_0000_0000_0000 < (c + 1) * (c + 1) * (c + 1)
  }

  function CubeWhole(p: nat): (i: nat) {
    if p < 8 then 1 else if p < 27 then 2 else if p < 64 then 3 else if p < 125 then 4 else if p < 216 then 5 else 6
  }

  /** The first 32 bits of the fraction of the square root of `p`, which is below five. */
  ghost predicate SquareRoot(p: nat, k: Word) {
    var c := (if p < 4 then 1 else if p < 9 then 2 else if p < 16 then 3 else 4) * 0x1_0000_0000 + k;
    c * c <= p * 0x1_0000_0000_0000_0000 < (c + 1) * (c + 1)
  }

  lemma InitialRoots()
    ensures SquareRoot(2, InitialHash.a) && SquareRoot(3, InitialHash.b) && SquareRoot(5, InitialHash.c)
    ensures SquareRoot(7, InitialHash.d) && SquareRoot(11, InitialHash.e) && SquareRoot(13, InitialHash.f)
    ensures SquareRoot(17, InitialHash.g) && SquareRoot(19, InitialHash.h)
  {
  }

  lemma RoundRoots0()
    ensures CubeRoot(2, K256[0]) && CubeRoot(3, K256[1]) && CubeRoot(5, K256[2]) && CubeRoot(7, K256[3])
  {
  }

  lemma RoundRoots1()
    ensures CubeRoot(11, K256[4]) && CubeRoot(13, K256[5]) && CubeRoot(17, K256[6]) && CubeRoot(19, K256[7])
  {
  }

  lemma RoundRoots2()
    ensures CubeRoot(23, K256[8]) && CubeRoot(29, K256[9]) && CubeRoot(31, K256[10]) && CubeRoot(37, K256[11])
  {
  }

  lemma RoundRoots3()
    ensures CubeRoot(41, K256[12]) && CubeRoot(43, K256[13]) && CubeRoot(47, K256[14]) && CubeRoot(53, K256[15])
  {
  }

  lemma RoundRoots4()
    ensures CubeRoot(59, K256[16]) && CubeRoot(61, K256[17]) && CubeRoot(67, K256[18]) && CubeRoot(71, K256[19])
  {
  }

  lemma RoundRoots5()
    ensures CubeRoot(73, K256[20]) && CubeRoot(79, K256[21]) && CubeRoot(83, K256[22]) && CubeRoot(89, K256[23])
  {
  }

  lemma RoundRoots6()
    ensures CubeRoot(97, K256[24]) && CubeRoot(101, K256[25]) && CubeRoot(103, K256[26]) && CubeRoot(107, K256[27])
  {
  }

  lemma RoundRoots7()
    ensures CubeRoot(109, K256[28]) && CubeRoot(113, K256[29]) && CubeRoot(127, K256[30]) && CubeRoot(131, K256[31])
  {
  }

  lemma RoundRoots8()
    ensures CubeRoot(137, K256[32]) && CubeRoot(139, K256[33]) && CubeRoot(149, K256[34]) && CubeRoot(151, K256[35])
  {
  }

  lemma RoundRoots9()
    ensures CubeRoot(157, K256[36]) && CubeRoot(163, K256[37]) && CubeRoot(167, K256[38]) && CubeRoot(173, K256[39])
  {
  }

  lemma RoundRoots10()
    ensures CubeRoot(179, K256[40]) && CubeRoot(181, K256[41]) && CubeRoot(191, K256[42]) && CubeRoot(193, K256[43])
  {
  }

  lemma RoundRoots11()
    ensures CubeRoot(197, K256[44]) && CubeRoot(199, K256[45]) && CubeRoot(211, K256[46]) && CubeRoot(223, K256[47])
  {
  }

  lemma RoundRoots12()
    ensures CubeRoot(227, K256[48]) && CubeRoot(229, K256[49]) && CubeRoot(233, K256[50]) && CubeRoot(239, K256[51])
  {
  }

  lemma RoundRoots13()
    ensures CubeRoot(241, K256[52]) && CubeRoot(251, K256[53]) && CubeRoot(257, K256[54]) && CubeRoot(263, K256[55])
  {
  }

  lemma RoundRoots14()
    ensures CubeRoot(269, K256[56]) && CubeRoot(271, K256[57]) && CubeRoot(277, K256[58]) && CubeRoot(281, K256[59])
  {
  }

  lemma RoundRoots15()
    ensures CubeRoot(283, K256[60]) && CubeRoot(293, K256[61]) && CubeRoot(307, K256[62]) && CubeRoot(311, K256[63])
  {
  }
}
