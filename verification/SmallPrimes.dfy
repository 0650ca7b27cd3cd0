/** Sieving the odd numbers below 1000 by the primes up to 31. */
module Sieve {
  /** None of the primes up to 31 divides x, or x is that prime. */
  ghost predicate Sifted(x: int)
  {
    && (x % 2 != 0 || x == 2) && (x % 3 != 0 || x == 3) && (x % 5 != 0 || x == 5) && (x % 7 != 0 || x == 7)
    && (x % 11 != 0 || x == 11) && (x % 13 != 0 || x == 13) && (x % 17 != 0 || x == 17) && (x % 19 != 0 || x == 19)
    && (x % 23 != 0 || x == 23) && (x % 29 != 0 || x == 29) && (x % 31 != 0 || x == 31)
  }

  /** The first number in steps of two from lo on that is sifted */
  ghost function Next(lo: int): int
    decreases 998 - lo
  {
    if lo >= 998 || Sifted(lo) then lo else Next(lo + 2)
  }

  lemma {:induction false} NextMeans(lo: int)
    requires lo % 2 == 1
    ensures lo <= Next(lo) && Next(lo) % 2 == 1
    ensures Next(lo) < 998 ==> Sifted(Next(lo))
    ensures forall x :: lo <= x < Next(lo) && x % 2 == 1 ==> !Sifted(x)
    decreases 998 - lo
  {
    hide Sifted;
    if !(lo >= 998 || Sifted(lo)) {
      NextMeans(lo + 2);
      forall x | lo <= x < Next(lo) && x % 2 == 1 ensures !Sifted(x) {
        if x > lo { NotBetween(lo, x); }
      }
    }
  }

  lemma NotBetween(lo: int, x: int)
    requires lo % 2 == 1 && x % 2 == 1 && x > lo
    ensures x >= lo + 2
  {}

  // ----- The gaps between the sifted numbers, a row of the table at a time ----------------

  lemma LowGaps0()
    ensures Next(5) == 5 && Next(7) == 7 && Next(9) == 11 && Next(13) == 13
    ensures Next(15) == 17 && Next(19) == 19
  {
    assert Sifted(5); assert Sifted(7); assert !Sifted(9); assert Sifted(11); assert Sifted(13);
    assert !Sifted(15); assert Sifted(17); assert Sifted(19);
    hide Sifted;
  }

  lemma HighGaps0()
    ensures Next(21) == 23 && Next(25) == 29 && Next(31) == 31 && Next(33) == 37
    ensures Next(39) == 41 && Next(43) == 43
  {
    assert !Sifted(21); assert Sifted(23); assert !Sifted(25); assert !Sifted(27); assert Sifted(29);
    assert Sifted(31); assert !Sifted(33); assert !Sifted(35); assert Sifted(37); assert !Sifted(39);
    assert Sifted(41); assert Sifted(43);
    hide Sifted;
  }

  lemma LowGaps1()
    ensures Next(45) == 47 && Next(49) == 53 && Next(55) == 59 && Next(61) == 61
    ensures Next(63) == 67 && Next(69) == 71
  {
    assert !Sifted(45); assert Sifted(47); assert !Sifted(49); assert !Sifted(51); assert Sifted(53);
    assert !Sifted(55); assert !Sifted(57); assert Sifted(59); assert Sifted(61); assert !Sifted(63);
    assert !Sifted(65); assert Sifted(67); assert !Sifted(69); assert Sifted(71);
    hide Sifted;
  }

  lemma HighGaps1()
    ensures Next(73) == 73 && Next(75) == 79 && Next(81) == 83 && Next(85) == 89
    ensures Next(91) == 97 && Next(99) == 101
  {
    assert Sifted(73); assert !Sifted(75); assert !Sifted(77); assert Sifted(79); assert !Sifted(81);
    assert Sifted(83); assert !Sifted(85); assert !Sifted(87); assert Sifted(89); assert !Sifted(91);
    assert !Sifted(93); assert !Sifted(95); assert Sifted(97); assert !Sifted(99); assert Sifted(101);
    hide Sifted;
  }

  lemma LowGaps2()
    ensures Next(103) == 103 && Next(105) == 107 && Next(109) == 109 && Next(111) == 113
    ensures Next(115) == 127 && Next(129) == 131
  {
    assert Sifted(103); assert !Sifted(105); assert Sifted(107); assert Sifted(109); assert !Sifted(111);
    assert Sifted(113); assert !Sifted(115); assert !Sifted(117); assert !Sifted(119); assert !Sifted(121);
    assert !Sifted(123); assert !Sifted(125); assert Sifted(127); assert !Sifted(129); assert Sifted(131);
    hide Sifted;
  }

  lemma HighGaps2()
    ensures Next(133) == 137 && Next(139) == 139 && Next(141) == 149 && Next(151) == 151
    ensures Next(153) == 157 && Next(159) == 163
  {
    assert !Sifted(133); assert !Sifted(135); assert Sifted(137); assert Sifted(139); assert !Sifted(141);
    assert !Sifted(143); assert !Sifted(145); assert !Sifted(147); assert Sifted(149); assert Sifted(151);
    assert !Sifted(153); assert !Sifted(155); assert Sifted(157); assert !Sifted(159); assert !Sifted(161);
    assert Sifted(163);
    hide Sifted;
  }

  lemma LowGaps3()
    ensures Next(165) == 167 && Next(169) == 173 && Next(175) == 179 && Next(181) == 181
    ensures Next(183) == 191 && Next(193) == 193
  {
    assert !Sifted(165); assert Sifted(167); assert !Sifted(169); assert !Sifted(171); assert Sifted(173);
    assert !Sifted(175); assert !Sifted(177); assert Sifted(179); assert Sifted(181); assert !Sifted(183);
    assert !Sifted(185); assert !Sifted(187); assert !Sifted(189); assert Sifted(191); assert Sifted(193);
    hide Sifted;
  }

  lemma HighGaps3()
    ensures Next(195) == 197 && Next(199) == 199 && Next(201) == 211 && Next(213) == 223
    ensures Next(225) == 227 && Next(229) == 229
  {
    assert !Sifted(195); assert Sifted(197); assert Sifted(199); assert !Sifted(201); assert !Sifted(203);
    assert !Sifted(205); assert !Sifted(207); assert !Sifted(209); assert Sifted(211); assert !Sifted(213);
    assert !Sifted(215); assert !Sifted(217); assert !Sifted(219); assert !Sifted(221); assert Sifted(223);
    assert !Sifted(225); assert Sifted(227); assert Sifted(229);
    hide Sifted;
  }

  lemma LowGaps4()
    ensures Next(231) == 233 && Next(235) == 239 && Next(241) == 241 && Next(243) == 251
    ensures Next(253) == 257 && Next(259) == 263
  {
    assert !Sifted(231); assert Sifted(233); assert !Sifted(235); assert !Sifted(237); assert Sifted(239);
    assert Sifted(241); assert !Sifted(243); assert !Sifted(245); assert !Sifted(247); assert !Sifted(249);
    assert Sifted(251); assert !Sifted(253); assert !Sifted(255); assert Sifted(257); assert !Sifted(259);
    assert !Sifted(261); assert Sifted(263);
    hide Sifted;
  }

  lemma HighGaps4()
    ensures Next(265) == 269 && Next(271) == 271 && Next(273) == 277 && Next(279) == 281
    ensures Next(283) == 283 && Next(285) == 293
  {
    assert !Sifted(265); assert !Sifted(267); assert Sifted(269); assert Sifted(271); assert !Sifted(273);
    assert !Sifted(275); assert Sifted(277); assert !Sifted(279); assert Sifted(281); assert Sifted(283);
    assert !Sifted(285); assert !Sifted(287); assert !Sifted(289); assert !Sifted(291); assert Sifted(293);
    hide Sifted;
  }

  lemma LowGaps5()
    ensures Next(295) == 307 && Next(309) == 311 && Next(313) == 313 && Next(315) == 317
    ensures Next(319) == 331 && Next(333) == 337
  {
    assert !Sifted(295); assert !Sifted(297); assert !Sifted(299); assert !Sifted(301); assert !Sifted(303);
    assert !Sifted(305); assert Sifted(307); assert !Sifted(309); assert Sifted(311); assert Sifted(313);
    assert !Sifted(315); assert Sifted(317); assert !Sifted(319); assert !Sifted(321); assert !Sifted(323);
    assert !Sifted(325); assert !Sifted(327); assert !Sifted(329); assert Sifted(331); assert !Sifted(333);
    assert !Sifted(335); assert Sifted(337);
    hide Sifted;
  }

  lemma HighGaps5()
    ensures Next(339) == 347 && Next(349) == 349 && Next(351) == 353 && Next(355) == 359
    ensures Next(361) == 367 && Next(369) == 373
  {
    assert !Sifted(339); assert !Sifted(341); assert !Sifted(343); assert !Sifted(345); assert Sifted(347);
    assert Sifted(349); assert !Sifted(351); assert Sifted(353); assert !Sifted(355); assert !Sifted(357);
    assert Sifted(359); assert !Sifted(361); assert !Sifted(363); assert !Sifted(365); assert Sifted(367);
    assert !Sifted(369); assert !Sifted(371); assert Sifted(373);
    hide Sifted;
  }

  lemma LowGaps6()
    ensures Next(375) == 379 && Next(381) == 383 && Next(385) == 389 && Next(391) == 397
    ensures Next(399) == 401 && Next(403) == 409
  {
    assert !Sifted(375); assert !Sifted(377); assert Sifted(379); assert !Sifted(381); assert Sifted(383);
    assert !Sifted(385); assert !Sifted(387); assert Sifted(389); assert !Sifted(391); assert !Sifted(393);
    assert !Sifted(395); assert Sifted(397); assert !Sifted(399); assert Sifted(401); assert !Sifted(403);
    assert !Sifted(405); assert !Sifted(407); assert Sifted(409);
    hide Sifted;
  }

  lemma HighGaps6()
    ensures Next(411) == 419 && Next(421) == 421 && Next(423) == 431 && Next(433) == 433
    ensures Next(435) == 439 && Next(441) == 443
  {
    assert !Sifted(411); assert !Sifted(413); assert !Sifted(415); assert !Sifted(417); assert Sifted(419);
    assert Sifted(421); assert !Sifted(423); assert !Sifted(425); assert !Sifted(427); assert !Sifted(429);
    assert Sifted(431); assert Sifted(433); assert !Sifted(435); assert !Sifted(437); assert Sifted(439);
    assert !Sifted(441); assert Sifted(443);
    hide Sifted;
  }

  lemma LowGaps7()
    ensures Next(445) == 449 && Next(451) == 457 && Next(459) == 461 && Next(463) == 463
    ensures Next(465) == 467 && Next(469) == 479
  {
    assert !Sifted(445); assert !Sifted(447); assert Sifted(449); assert !Sifted(451); assert !Sifted(453);
    assert !Sifted(455); assert Sifted(457); assert !Sifted(459); assert Sifted(461); assert Sifted(463);
    assert !Sifted(465); assert Sifted(467); assert !Sifted(469); assert !Sifted(471); assert !Sifted(473);
    assert !Sifted(475); assert !Sifted(477); assert Sifted(479);
    hide Sifted;
  }

  lemma HighGaps7()
    ensures Next(481) == 487 && Next(489) == 491 && Next(493) == 499 && Next(501) == 503
    ensures Next(505) == 509 && Next(511) == 521
  {
    assert !Sifted(481); assert !Sifted(483); assert !Sifted(485); assert Sifted(487); assert !Sifted(489);
    assert Sifted(491); assert !Sifted(493); assert !Sifted(495); assert !Sifted(497); assert Sifted(499);
    assert !Sifted(501); assert Sifted(503); assert !Sifted(505); assert !Sifted(507); assert Sifted(509);
    assert !Sifted(511); assert !Sifted(513); assert !Sifted(515); assert !Sifted(517); assert !Sifted(519);
    assert Sifted(521);
    hide Sifted;
  }

  lemma LowGaps8()
    ensures Next(523) == 523 && Next(525) == 541 && Next(543) == 547 && Next(549) == 557
    ensures Next(559) == 563 && Next(565) == 569
  {
    assert Sifted(523); assert !Sifted(525); assert !Sifted(527); assert !Sifted(529); assert !Sifted(531);
    assert !Sifted(533); assert !Sifted(535); assert !Sifted(537); assert !Sifted(539); assert Sifted(541);
    assert !Sifted(543); assert !Sifted(545); assert Sifted(547); assert !Sifted(549); assert !Sifted(551);
    assert !Sifted(553); assert !Sifted(555); assert Sifted(557); assert !Sifted(559); assert !Sifted(561);
    assert Sifted(563); assert !Sifted(565); assert !Sifted(567); assert Sifted(569);
    hide Sifted;
  }

  lemma HighGaps8()
    ensures Next(571) == 571 && Next(573) == 577 && Next(579) == 587 && Next(589) == 593
    ensures Next(595) == 599 && Next(601) == 601
  {
    assert Sifted(571); assert !Sifted(573); assert !Sifted(575); assert Sifted(577); assert !Sifted(579);
    assert !Sifted(581); assert !Sifted(583); assert !Sifted(585); assert Sifted(587); assert !Sifted(589);
    assert !Sifted(591); assert Sifted(593); assert !Sifted(595); assert !Sifted(597); assert Sifted(599);
    assert Sifted(601);
    hide Sifted;
  }

  lemma LowGaps9()
    ensures Next(603) == 607 && Next(609) == 613 && Next(615) == 617 && Next(619) == 619
    ensures Next(621) == 631 && Next(633) == 641
  {
    assert !Sifted(603); assert !Sifted(605); assert Sifted(607); assert !Sifted(609); assert !Sifted(611);
    assert Sifted(613); assert !Sifted(615); assert Sifted(617); assert Sifted(619); assert !Sifted(621);
    assert !Sifted(623); assert !Sifted(625); assert !Sifted(627); assert !Sifted(629); assert Sifted(631);
    assert !Sifted(633); assert !Sifted(635); assert !Sifted(637); assert !Sifted(639); assert Sifted(641);
    hide Sifted;
  }

  lemma HighGaps9()
    ensures Next(643) == 643 && Next(645) == 647 && Next(649) == 653 && Next(655) == 659
    ensures Next(661) == 661 && Next(663) == 673
  {
    assert Sifted(643); assert !Sifted(645); assert Sifted(647); assert !Sifted(649); assert !Sifted(651);
    assert Sifted(653); assert !Sifted(655); assert !Sifted(657); assert Sifted(659); assert Sifted(661);
    assert !Sifted(663); assert !Sifted(665); assert !Sifted(667); assert !Sifted(669); assert !Sifted(671);
    assert Sifted(673);
    hide Sifted;
  }

  lemma LowGaps10()
    ensures Next(675) == 677 && Next(679) == 683 && Next(685) == 691 && Next(693) == 701
    ensures Next(703) == 709 && Next(711) == 719
  {
    assert !Sifted(675); assert Sifted(677); assert !Sifted(679); assert !Sifted(681); assert Sifted(683);
    assert !Sifted(685); assert !Sifted(687); assert !Sifted(689); assert Sifted(691); assert !Sifted(693);
    assert !Sifted(695); assert !Sifted(697); assert !Sifted(699); assert Sifted(701); assert !Sifted(703);
    assert !Sifted(705); assert !Sifted(707); assert Sifted(709); assert !Sifted(711); assert !Sifted(713);
    assert !Sifted(715); assert !Sifted(717); assert Sifted(719);
    hide Sifted;
  }

  lemma HighGaps10()
    ensures Next(721) == 727 && Next(729) == 733 && Next(735) == 739 && Next(741) == 743
    ensures Next(745) == 751 && Next(753) == 757
  {
    assert !Sifted(721); assert !Sifted(723); assert !Sifted(725); assert Sifted(727); assert !Sifted(729);
    assert !Sifted(731); assert Sifted(733); assert !Sifted(735); assert !Sifted(737); assert Sifted(739);
    assert !Sifted(741); assert Sifted(743); assert !Sifted(745); assert !Sifted(747); assert !Sifted(749);
    assert Sifted(751); assert !Sifted(753); assert !Sifted(755); assert Sifted(757);
    hide Sifted;
  }

  lemma LowGaps11()
    ensures Next(759) == 761 && Next(763) == 769 && Next(771) == 773 && Next(775) == 787
    ensures Next(789) == 797 && Next(799) == 809
  {
    assert !Sifted(759); assert Sifted(761); assert !Sifted(763); assert !Sifted(765); assert !Sifted(767);
    assert Sifted(769); assert !Sifted(771); assert Sifted(773); assert !Sifted(775); assert !Sifted(777);
    assert !Sifted(779); assert !Sifted(781); assert !Sifted(783); assert !Sifted(785); assert Sifted(787);
    assert !Sifted(789); assert !Sifted(791); assert !Sifted(793); assert !Sifted(795); assert Sifted(797);
    assert !Sifted(799); assert !Sifted(801); assert !Sifted(803); assert !Sifted(805); assert !Sifted(807);
    assert Sifted(809);
    hide Sifted;
  }

  lemma HighGaps11()
    ensures Next(811) == 811 && Next(813) == 821 && Next(823) == 823 && Next(825) == 827
    ensures Next(829) == 829 && Next(831) == 839
  {
    assert Sifted(811); assert !Sifted(813); assert !Sifted(815); assert !Sifted(817); assert !Sifted(819);
    assert Sifted(821); assert Sifted(823); assert !Sifted(825); assert Sifted(827); assert Sifted(829);
    assert !Sifted(831); assert !Sifted(833); assert !Sifted(835); assert !Sifted(837); assert Sifted(839);
    hide Sifted;
  }

  lemma LowGaps12()
    ensures Next(841) == 853 && Next(855) == 857 && Next(859) == 859 && Next(861) == 863
    ensures Next(865) == 877 && Next(879) == 881
  {
    assert !Sifted(841); assert !Sifted(843); assert !Sifted(845); assert !Sifted(847); assert !Sifted(849);
    assert !Sifted(851); assert Sifted(853); assert !Sifted(855); assert Sifted(857); assert Sifted(859);
    assert !Sifted(861); assert Sifted(863); assert !Sifted(865); assert !Sifted(867); assert !Sifted(869);
    assert !Sifted(871); assert !Sifted(873); assert !Sifted(875); assert Sifted(877); assert !Sifted(879);
    assert Sifted(881);
    hide Sifted;
  }

  lemma HighGaps12()
    ensures Next(883) == 883 && Next(885) == 887 && Next(889) == 907 && Next(909) == 911
    ensures Next(913) == 919 && Next(921) == 929
  {
    assert Sifted(883); assert !Sifted(885); assert Sifted(887); assert !Sifted(889); assert !Sifted(891);
    assert !Sifted(893); assert !Sifted(895); assert !Sifted(897); assert !Sifted(899); assert !Sifted(901);
    assert !Sifted(903); assert !Sifted(905); assert Sifted(907); assert !Sifted(909); assert Sifted(911);
    assert !Sifted(913); assert !Sifted(915); assert !Sifted(917); assert Sifted(919); assert !Sifted(921);
    assert !Sifted(923); assert !Sifted(925); assert !Sifted(927); assert Sifted(929);
    hide Sifted;
  }

  lemma LowGaps13()
    ensures Next(931) == 937 && Next(939) == 941 && Next(943) == 947 && Next(949) == 953
    ensures Next(955) == 967 && Next(969) == 971
  {
    assert !Sifted(931); assert !Sifted(933); assert !Sifted(935); assert Sifted(937); assert !Sifted(939);
    assert Sifted(941); assert !Sifted(943); assert !Sifted(945); assert Sifted(947); assert !Sifted(949);
    assert !Sifted(951); assert Sifted(953); assert !Sifted(955); assert !Sifted(957); assert !Sifted(959);
    assert !Sifted(961); assert !Sifted(963); assert !Sifted(965); assert Sifted(967); assert !Sifted(969);
    assert Sifted(971);
    hide Sifted;
  }

  lemma HighGaps13()
    ensures Next(973) == 977 && Next(979) == 983 && Next(985) == 991 && Next(993) == 997
  {
    assert !Sifted(973); assert !Sifted(975); assert Sifted(977); assert !Sifted(979); assert !Sifted(981);
    assert Sifted(983); assert !Sifted(985); assert !Sifted(987); assert !Sifted(989); assert Sifted(991);
    assert !Sifted(993); assert !Sifted(995); assert Sifted(997);
    hide Sifted;
  }
}

/** The table of small primes: it holds exactly the primes from 3 to 997. */
module SmallPrimes {
  import opened Arith
  import opened Primes
  import opened Sieve

  /** The odd primes below 1000, row by row, and a negative sentinel */
  const ROW0: seq<int> := [3, 5, 7, 11, 13, 17, 19, 23, 29, 31, 37, 41]
  const ROW1: seq<int> := [43, 47, 53, 59, 61, 67, 71, 73, 79, 83, 89, 97]
  const ROW2: seq<int> := [101, 103, 107, 109, 113, 127, 131, 137, 139, 149, 151, 157]
  const ROW3: seq<int> := [163, 167, 173, 179, 181, 191, 193, 197, 199, 211, 223, 227]
  const ROW4: seq<int> := [229, 233, 239, 241, 251, 257, 263, 269, 271, 277, 281, 283]
  const ROW5: seq<int> := [293, 307, 311, 313, 317, 331, 337, 347, 349, 353, 359, 367]
  const ROW6: seq<int> := [373, 379, 383, 389, 397, 401, 409, 419, 421, 431, 433, 439]
  const ROW7: seq<int> := [443, 449, 457, 461, 463, 467, 479, 487, 491, 499, 503, 509]
  const ROW8: seq<int> := [521, 523, 541, 547, 557, 563, 569, 571, 577, 587, 593, 599]
  const ROW9: seq<int> := [601, 607, 613, 617, 619, 631, 641, 643, 647, 653, 659, 661]
  const ROW10: seq<int> := [673, 677, 683, 691, 701, 709, 719, 727, 733, 739, 743, 751]
  const ROW11: seq<int> := [757, 761, 769, 773, 787, 797, 809, 811, 821, 823, 827, 829]
  const ROW12: seq<int> := [839, 853, 857, 859, 863, 877, 881, 883, 887, 907, 911, 919]
  const ROW13: seq<int> := [929, 937, 941, 947, 953, 967, 971, 977, 983, 991, 997]
  const TABLE: seq<int> :=
    ROW0 + ROW1 + ROW2 + ROW3 + ROW4 + ROW5 + ROW6
    + ROW7 + ROW8 + ROW9 + ROW10 + ROW11 + ROW12 + ROW13
  const SMALL_PRIME: seq<int> := TABLE + [-103]

  // ----- Following the sieve from entry to entry ------------------------------------------

  /** Every entry is the next sifted number after the one before. */
  ghost predicate Follows(s: seq<int>)
  {
    forall k :: 0 < k < |s| ==> Next(s[k - 1] + 2) == s[k]
  }

  lemma FollowsBoth(a: seq<int>, b: seq<int>)
    requires Follows(a) && Follows(b) && |a| > 0 && |b| > 0 && Next(a[|a| - 1] + 2) == b[0]
    ensures Follows(a + b) && (a + b)[|a + b| - 1] == b[|b| - 1]
  {
    hide Next;
  }

  lemma Row0()
    ensures |ROW0| == 12 && ROW0[0] == 3 && ROW0[11] == 41
    ensures Follows(ROW0)
  {
    LowGaps0();
    HighGaps0();
    hide Next;
  }

  lemma Row1()
    ensures |ROW1| == 12 && ROW1[0] == 43 && ROW1[11] == 97
    ensures Follows(ROW1)
  {
    LowGaps1();
    HighGaps1();
    hide Next;
  }

  lemma Row2()
    ensures |ROW2| == 12 && ROW2[0] == 101 && ROW2[11] == 157
    ensures Follows(ROW2)
  {
    LowGaps2();
    HighGaps2();
    hide Next;
  }

  lemma Row3()
    ensures |ROW3| == 12 && ROW3[0] == 163 && ROW3[11] == 227
    ensures Follows(ROW3)
  {
    LowGaps3();
    HighGaps3();
    hide Next;
  }

  lemma Row4()
    ensures |ROW4| == 12 && ROW4[0] == 229 && ROW4[11] == 283
    ensures Follows(ROW4)
  {
    LowGaps4();
    HighGaps4();
    hide Next;
  }

  lemma Row5()
    ensures |ROW5| == 12 && ROW5[0] == 293 && ROW5[11] == 367
    ensures Follows(ROW5)
  {
    LowGaps5();
    HighGaps5();
    hide Next;
  }

  lemma Row6()
    ensures |ROW6| == 12 && ROW6[0] == 373 && ROW6[11] == 439
    ensures Follows(ROW6)
  {
    LowGaps6();
    HighGaps6();
    hide Next;
  }

  lemma Row7()
    ensures |ROW7| == 12 && ROW7[0] == 443 && ROW7[11] == 509
    ensures Follows(ROW7)
  {
    LowGaps7();
    HighGaps7();
    hide Next;
  }

  lemma Row8()
    ensures |ROW8| == 12 && ROW8[0] == 521 && ROW8[11] == 599
    ensures Follows(ROW8)
  {
    LowGaps8();
    HighGaps8();
    hide Next;
  }

  lemma Row9()
    ensures |ROW9| == 12 && ROW9[0] == 601 && ROW9[11] == 661
    ensures Follows(ROW9)
  {
    LowGaps9();
    HighGaps9();
    hide Next;
  }

  lemma Row10()
    ensures |ROW10| == 12 && ROW10[0] == 673 && ROW10[11] == 751
    ensures Follows(ROW10)
  {
    LowGaps10();
    HighGaps10();
    hide Next;
  }

  lemma Row11()
    ensures |ROW11| == 12 && ROW11[0] == 757 && ROW11[11] == 829
    ensures Follows(ROW11)
  {
    LowGaps11();
    HighGaps11();
    hide Next;
  }

  lemma Row12()
    ensures |ROW12| == 12 && ROW12[0] == 839 && ROW12[11] == 919
    ensures Follows(ROW12)
  {
    LowGaps12();
    HighGaps12();
    hide Next;
  }

  lemma Row13()
    ensures |ROW13| == 11 && ROW13[0] == 929 && ROW13[10] == 997
    ensures Follows(ROW13)
  {
    LowGaps13();
    HighGaps13();
    hide Next;
  }

  lemma TableFollows()
    ensures |TABLE| == 167 && TABLE[0] == 3 && TABLE[166] == 997 && Follows(TABLE)
  {
    FirstRows();
    LastRows();
    HighGaps6();
    hide Next, Follows, ROW0, ROW1, ROW2, ROW3, ROW4, ROW5, ROW6, ROW7, ROW8, ROW9, ROW10, ROW11, ROW12, ROW13, TABLE;
    var a := ROW0 + ROW1 + ROW2 + ROW3 + ROW4 + ROW5 + ROW6;
    var b := ROW7 + ROW8 + ROW9 + ROW10 + ROW11 + ROW12 + ROW13;
    FollowsBoth(a, b);
    TableParts();
  }

  lemma TableParts()
    ensures TABLE == (ROW0 + ROW1 + ROW2 + ROW3 + ROW4 + ROW5 + ROW6)
                     + (ROW7 + ROW8 + ROW9 + ROW10 + ROW11 + ROW12 + ROW13)
  {
    hide ROW0, ROW1, ROW2, ROW3, ROW4, ROW5, ROW6, ROW7, ROW8, ROW9, ROW10, ROW11, ROW12, ROW13;
  }

  lemma FirstRows()
    ensures var s := ROW0 + ROW1 + ROW2 + ROW3 + ROW4 + ROW5 + ROW6;
      |s| == 84 && s[0] == 3 && s[83] == 439 && Follows(s)
  {
    Row0();
    Row1();
    Row2();
    Row3();
    Row4();
    Row5();
    Row6();
    HighGaps0();
    HighGaps1();
    HighGaps2();
    HighGaps3();
    HighGaps4();
    HighGaps5();
    hide Next, Follows, ROW0, ROW1, ROW2, ROW3, ROW4, ROW5, ROW6;
    var s := ROW0;
    FollowsBoth(s, ROW1);
    s := s + ROW1;
    FollowsBoth(s, ROW2);
    s := s + ROW2;
    FollowsBoth(s, ROW3);
    s := s + ROW3;
    FollowsBoth(s, ROW4);
    s := s + ROW4;
    FollowsBoth(s, ROW5);
    s := s + ROW5;
    FollowsBoth(s, ROW6);
    s := s + ROW6;
  }

  lemma LastRows()
    ensures var s := ROW7 + ROW8 + ROW9 + ROW10 + ROW11 + ROW12 + ROW13;
      |s| == 83 && s[0] == 443 && s[82] == 997 && Follows(s)
  {
    Row7();
    Row8();
    Row9();
    Row10();
    Row11();
    Row12();
    Row13();
    HighGaps7();
    HighGaps8();
    HighGaps9();
    HighGaps10();
    HighGaps11();
    HighGaps12();
    hide Next, Follows, ROW7, ROW8, ROW9, ROW10, ROW11, ROW12, ROW13;
    var s := ROW7;
    FollowsBoth(s, ROW8);
    s := s + ROW8;
    FollowsBoth(s, ROW9);
    s := s + ROW9;
    FollowsBoth(s, ROW10);
    s := s + ROW10;
    FollowsBoth(s, ROW11);
    s := s + ROW11;
    FollowsBoth(s, ROW12);
    s := s + ROW12;
    FollowsBoth(s, ROW13);
    s := s + ROW13;
  }

  lemma TableEnds()
    ensures |SMALL_PRIME| == 168 && SMALL_PRIME[167] == -103 && SMALL_PRIME[166] == 997
    ensures forall i :: 0 <= i < 167 ==> SMALL_PRIME[i] == TABLE[i]
  {
    TableFollows();
    hide TABLE, Follows;
  }

  /** The entries are sifted and increasing. */
  lemma {:induction false} EntrySifted(i: nat)
    requires i < |TABLE|
    ensures |TABLE| == 167 && 3 <= TABLE[i] <= 997 && TABLE[i] % 2 == 1 && Sifted(TABLE[i])
    ensures forall j :: 0 <= j < i ==> TABLE[j] < TABLE[i]
  {
    TableFollows();
    EntryLow(i);
    EntryHigh(i);
    hide TABLE, Sifted, Follows;
  }

  lemma {:induction false} EntryLow(i: nat)
    requires i < |TABLE|
    ensures 3 <= TABLE[i] && TABLE[i] % 2 == 1 && (TABLE[i] < 998 ==> Sifted(TABLE[i]))
    ensures forall j :: 0 <= j < i ==> TABLE[j] < TABLE[i]
  {
    TableFollows();
    if i == 0 {
      assert Sifted(3);
      hide *;
    } else {
      EntryLow(i - 1);
      hide *;
      FollowsAt(TABLE, i);
      NextMeans(TABLE[i - 1] + 2);
    }
  }

  lemma FollowsAt(s: seq<int>, k: nat)
    requires Follows(s) && 0 < k < |s|
    ensures Next(s[k - 1] + 2) == s[k]
  {}

  lemma EntryHigh(i: nat)
    requires i < |TABLE|
    ensures TABLE[i] <= 997
  {
    TableFollows();
    EntryLow(166);
    hide TABLE, Sifted, Next, Follows;
  }

  /** Every sifted odd number up to 997 is an entry. */
  lemma {:induction false} SiftedEntry(x: int, i: nat) returns (j: nat)
    requires i < |TABLE| && TABLE[i] <= x <= 997 && x % 2 == 1 && Sifted(x)
    ensures j < |TABLE| && TABLE[j] == x
    decreases |TABLE| - i
  {
    TableFollows();
    hide TABLE, Sifted, Next;
    if TABLE[i] == x { return i; }
    EntryLow(i);
    NextMeans(TABLE[i] + 2);
    NotBetween(TABLE[i], x);
    j := SiftedEntry(x, i + 1);
  }

  lemma TableRange(i: nat)
    requires i < |SMALL_PRIME|
    ensures SMALL_PRIME[i] <= 997 && (i < 167 ==> SMALL_PRIME[i] >= 3) && SMALL_PRIME[i] >= -103
  {
    TableFollows();
    TableEnds();
    hide SMALL_PRIME, TABLE, Follows;
    if i < 167 { EntrySifted(i); }
  }

  // ----- Prime numbers up to 997 ----------------------------------------------------------

  lemma FirstTen()
    ensures |SMALL_PRIME| > 10
    ensures SMALL_PRIME[..10] == [3, 5, 7, 11, 13, 17, 19, 23, 29, 31]
  {
    assert SMALL_PRIME[..10] == TABLE[..10] == ROW0[..10];
  }

  /** The first ten entries are increasing and end with 31. */
  lemma TableStart(i: nat, j: nat)
    requires i <= j < 10
    ensures |SMALL_PRIME| > 10 && SMALL_PRIME[i] <= SMALL_PRIME[j]
  {
    FirstTen();
    hide SMALL_PRIME;
    assert SMALL_PRIME[i] == SMALL_PRIME[..10][i] && SMALL_PRIME[j] == SMALL_PRIME[..10][j];
  }

  /** Every odd number from 3 to 31 is a multiple of one of them. */
  lemma TableCovers(d: int) returns (j: nat)
    requires 3 <= d <= 31 && d % 2 == 1
    ensures j < 10 && j < |SMALL_PRIME| && SMALL_PRIME[j] <= d && Divides(SMALL_PRIME[j], d)
  {
    j := if d % 3 == 0 then 0 else if d % 5 == 0 then 1 else if d == 7 then 2 else if d == 11 then 3
         else if d == 13 then 4 else if d == 17 then 5 else if d == 19 then 6 else if d == 23 then 7
         else if d == 29 then 8 else 9;
    FirstTen();
    hide SMALL_PRIME, Divides;
    assert SMALL_PRIME[j] == SMALL_PRIME[..10][j];
    DividesMod(SMALL_PRIME[j], d);
  }

  /** A composite number has a divisor whose square it reaches. */
  lemma SmallDivisor(x: int) returns (m: int)
    requires x > 1 && !IsPrime(x)
    ensures 1 < m && m * m <= x && Divides(m, x)
  {
    var d :| 0 < d && Divides(d, x) && d != 1 && d != x;
    DividesLe(d, x);
    var e :| x == d * e;
    CofactorBounds(x, d, e);
    if d <= e {
      m := d;
      MulLe(d, d, e);
    } else {
      m := e;
      MulLe(e, e, d);
      DividesBy(e, x, d);
    }
  }

  lemma CofactorBounds(x: int, d: int, e: int)
    requires x == d * e && 1 < d < x
    ensures 1 < e < x
  {
    if e <= 1 { MulLe(d, e, 1); }
    MulLt(e, 1, d);
  }

  /** An odd number up to 997 that none of the earlier primes divides is prime. */
  lemma TrialDivisionDecides(x: int, i: nat)
    requires 2 < x <= 997 && x % 2 == 1
    requires i < |SMALL_PRIME| && x <= SMALL_PRIME[i]
    requires forall j :: 0 <= j < i ==> !Divides(SMALL_PRIME[j], x)
    ensures IsPrime(x)
  {
    hide IsPrime, Divides, SMALL_PRIME;
    if !IsPrime(x) {
      var m := SmallDivisor(x);
      if m > 31 { MulLe(m, 32, m); }
      OddDivisor(m, x);
      var j := TableCovers(m);
      DividesTrans(SMALL_PRIME[j], m, x);
      MulLe(m, 2, m);
      if i <= j { TableStart(i, j); }
    }
  }

  lemma OddDivisor(m: int, x: int)
    requires Divides(m, x) && x % 2 == 1
    ensures m % 2 == 1
  {
    if m % 2 == 0 {
      DividesMod(2, m);
      DividesTrans(2, m, x);
      DividesMod(2, x);
    }
  }

  lemma ProperFactor(p: int, x: int)
    requires 1 < p < x && Divides(p, x)
    ensures !IsPrime(x)
  {}

  lemma SiftedDivisor(q: int, x: int)
    requires 1 < q && x > 1 && IsPrime(x)
    ensures x % q != 0 || x == q
  {
    if x % q == 0 && x != q {
      DividesMod(q, x);
      DividesLe(q, x);
      ProperFactor(q, x);
    }
  }

  /** Up to 997 the sifted numbers are the primes. */
  lemma SiftedIffPrime(x: int)
    requires 3 <= x <= 997
    ensures Sifted(x) <==> IsPrime(x)
  {
    if IsPrime(x) {
      SiftedDivisor(2, x);
      SiftedDivisor(3, x);
      SiftedDivisor(5, x);
      SiftedDivisor(7, x);
      SiftedDivisor(11, x);
      SiftedDivisor(13, x);
      SiftedDivisor(17, x);
      SiftedDivisor(19, x);
      SiftedDivisor(23, x);
      SiftedDivisor(29, x);
      SiftedDivisor(31, x);
    }
    if Sifted(x) && !IsPrime(x) {
      var m := SmallDivisor(x);
      SiftedOdd(x);
      MulLe(m, 2, m);
      if m > 31 { MulLe(m, 32, m); }
      OddDivisor(m, x);
      var j := TableCovers(m);
      FirstTen();
      hide Sifted, SMALL_PRIME, IsPrime, Divides;
      var q := SMALL_PRIME[j];
      assert q == SMALL_PRIME[..10][j];
      DividesTrans(q, m, x);
      DividesMod(q, x);
      SiftedAt(q, x);
    }
  }

  lemma SiftedOdd(x: int)
    requires Sifted(x) && x >= 3
    ensures x % 2 == 1
  {}

  lemma SiftedAt(q: int, x: int)
    requires Sifted(x) && q in [3, 5, 7, 11, 13, 17, 19, 23, 29, 31] && x % q == 0
    ensures x == q
  {}

  /** The entries of the table are exactly the primes from 3 to 997. */
  lemma TableIsPrimes(x: int)
    ensures 3 <= x <= 997 && IsPrime(x) <==> exists i :: 0 <= i < 167 && SMALL_PRIME[i] == x
  {
    TableFollows();
    TableEnds();
    hide SMALL_PRIME, TABLE, IsPrime, Sifted, Follows;
    if 3 <= x <= 997 && IsPrime(x) {
      SiftedIffPrime(x);
      SiftedOdd(x);
      var j := SiftedEntry(x, 0);
      assert SMALL_PRIME[j] == x;
    }
    if exists i :: 0 <= i < 167 && SMALL_PRIME[i] == x {
      var i :| 0 <= i < 167 && SMALL_PRIME[i] == x;
      EntrySifted(i);
      SiftedIffPrime(x);
    }
  }

  /** x is even or divisible by one of the table's primes. */
  ghost predicate HasSmallFactor(x: int)
  {
    x % 2 == 0 || exists j :: 0 <= j < 167 && Divides(SMALL_PRIME[j], x)
  }

  lemma SmallFactorAt(x: int, j: nat)
    requires j < |SMALL_PRIME| && SMALL_PRIME[j] > 0 && Divides(SMALL_PRIME[j], x)
    ensures HasSmallFactor(x)
  {
    TableEnds();
    hide SMALL_PRIME;
    assert j < 167;
  }

  lemma NoSmallFactor(x: int)
    requires x % 2 == 1 && forall j :: 0 <= j < 167 ==> !Divides(SMALL_PRIME[j], x)
    ensures !HasSmallFactor(x)
  {
    hide SMALL_PRIME;
  }

  lemma EvenFactor(x: int)
    requires x % 2 == 0
    ensures HasSmallFactor(x)
  {
    hide SMALL_PRIME;
  }

  /** So a small factor is a prime factor up to 997. */
  lemma SmallFactorMeaning(x: int)
    ensures HasSmallFactor(x) <==> exists p :: 2 <= p <= 997 && IsPrime(p) && Divides(p, x)
  {
    TableEnds();
    hide SMALL_PRIME, TABLE, IsPrime, Divides;
    if HasSmallFactor(x) {
      if x % 2 == 0 {
        TwoIsPrime();
        DividesMod(2, x);
      } else {
        var j :| 0 <= j < 167 && Divides(SMALL_PRIME[j], x);
        TableIsPrimes(SMALL_PRIME[j]);
      }
    }
    if exists p :: 2 <= p <= 997 && IsPrime(p) && Divides(p, x) {
      var p :| 2 <= p <= 997 && IsPrime(p) && Divides(p, x);
      if p == 2 {
        DividesMod(2, x);
      } else {
        TableIsPrimes(p);
        var i :| 0 <= i < 167 && SMALL_PRIME[i] == p;
        SmallFactorAt(x, i);
      }
    }
  }

  lemma TwoIsPrime()
    ensures IsPrime(2)
  {
    forall d | 0 < d && Divides(d, 2) ensures d == 1 || d == 2 { DividesLe(d, 2); }
  }
}
