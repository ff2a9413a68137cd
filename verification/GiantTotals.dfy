/** Totals of particular numbers of giants, for the budgets on which the search misses the share. */
module GiantTotals {
  import opened Arithmetic
  import opened GiantSizes

  /** x is the size of the i-th of n giants, by cross-multiplication. */
  predicate IsSize(n: nat, i: nat, x: nat)
    requires 1 <= i <= n
  {
    var d := 2 * n * n - (2 * i - 1) * (n - 1);
    x * d <= GIANT_MIN_SLOTS * 2 * n * n < (x + 1) * d
  }

  lemma {:induction false} SizeOf(n: nat, i: nat, x: nat)
    requires 1 <= i <= n && IsSize(n, i, x)
    ensures GiantSlots(n, i) == x
  {
    DenominatorBounds(n, i);
    var a, d := GIANT_MIN_SLOTS * Square2(n), Square2(n) - Removed(n, i);
    assert a == GIANT_MIN_SLOTS * 2 * n * n;
    DivLess(a, d, x);
    DivLess(a, d, x + 1);
  }

  /** The running total grows by the next size. */
  lemma {:induction false} Add(n: nat, k: nat, t: nat, x: nat) returns (u: nat)
    requires k < n && SumTo(n, k) == t && IsSize(n, k + 1, x)
    ensures u == t + x == SumTo(n, k + 1)
  {
    SizeOf(n, k + 1, x);
    u := t + x;
  }

  lemma {:induction false} Add4(n: nat, k: nat, t: nat, x: nat, y: nat, z: nat, w: nat) returns (u: nat)
    requires k + 4 <= n && SumTo(n, k) == t
    requires IsSize(n, k + 1, x) && IsSize(n, k + 2, y) && IsSize(n, k + 3, z) && IsSize(n, k + 4, w)
    ensures u == t + x + y + z + w == SumTo(n, k + 4)
  {
    hide IsSize, SumTo;
    u := Add(n, k, t, x);
    u := Add(n, k + 1, u, y);
    u := Add(n, k + 2, u, z);
    u := Add(n, k + 3, u, w);
  }

  lemma {:induction false} Nothing(n: nat)
    ensures SumTo(n, 0) == 0
  {
  }

  lemma {:induction false} Total21(n: nat)
    requires n == 21
    ensures GiantTotal(n) == 66_396_413
  {
    hide SumTo;
    Nothing(n);
    var t := 0;
    t := Add4(n, 0, t, 1_023_201, 1_072_992, 1_127_877, 1_188_679);
    t := Add4(n, 4, t, 1_256_410, 1_332_326, 1_418_006, 1_515_463);
    t := Add4(n, 8, t, 1_627_306, 1_756_972, 1_909_090, 2_090_047);
    t := Add4(n, 12, t, 2_308_900, 2_578_947, 2_920_529, 3_366_412);
    t := Add4(n, 16, t, 3_972_972, 4_846_153, 6_211_267, 8_647_058);
    t := Add(n, 20, t, 14_225_806);
  }

  lemma {:induction false} Total22(n: nat)
    requires n == 22
    ensures GiantTotal(n) == 70_469_272
  {
    hide SumTo;
    Nothing(n);
    var t := 0;
    t := Add4(n, 0, t, 1_022_175, 1_069_613, 1_121_668, 1_179_049);
    t := Add4(n, 4, t, 1_242_618, 1_313_432, 1_392_805, 1_482_388);
    t := Add4(n, 8, t, 1_584_288, 1_701_230, 1_836_812, 1_995_876);
    t := Add4(n, 12, t, 2_185_101, 2_413_965, 2_696_378, 3_053_627);
    t := Add4(n, 16, t, 3_520_000, 4_154_506, 5_068_062, 6_496_644);
    t := Add(n, 20, t, 9_046_728);
    t := Add(n, 21, t, 14_892_307);
  }

  lemma {:induction false} Total23(n: nat)
    requires n == 23
    ensures GiantTotal(n) == 74_585_905
  {
    hide SumTo;
    Nothing(n);
    var t := 0;
    t := Add4(n, 0, t, 1_021_235, 1_066_532, 1_116_033, 1_170_353);
    t := Add4(n, 4, t, 1_230_232, 1_296_568, 1_370_466, 1_453_296);
    t := Add4(n, 8, t, 1_546_783, 1_653_125, 1_775_167, 1_916_666);
    t := Add4(n, 12, t, 2_082_677, 2_280_172, 2_519_047, 2_813_829);
    t := Add4(n, 16, t, 3_186_746, 3_673_611, 4_336_065, 5_290_000);
    t := Add(n, 20, t, 6_782_051);
    t := Add(n, 21, t, 9_446_428);
    t := Add(n, 22, t, 15_558_823);
  }

  lemma {:induction false} Total27To16(n: nat)
    requires n == 27
    ensures SumTo(n, 16) == 23_699_120
  {
    hide SumTo;
    Nothing(n);
    var t := 0;
    t := Add4(n, 0, t, 1_018_156, 1_056_521, 1_097_891, 1_142_633);
    t := Add4(n, 4, t, 1_191_176, 1_244_027, 1_301_785, 1_365_168);
    t := Add4(n, 8, t, 1_435_039, 1_512_448, 1_598_684, 1_695_348);
    t := Add4(n, 12, t, 1_804_455, 1_928_571, 2_071_022, 2_236_196);
  }

  lemma {:induction false} Total27(n: nat)
    requires n == 27
    ensures GiantTotal(n) == 91_455_457
  {
    hide SumTo;
    Total27To16(n);
    var t := 23_699_120;
    t := Add4(n, 16, t, 2_430_000, 2_660_583, 2_939_516, 3_283_783);
    t := Add4(n, 20, t, 3_719_387, 4_288_235, 5_062_500, 6_177_966);
    t := Add(n, 24, t, 7_923_913);
    t := Add(n, 25, t, 11_045_454);
    t := Add(n, 26, t, 18_225_000);
  }

  lemma {:induction false} Total34To20(n: nat)
    requires n == 34
    ensures SumTo(n, 20) == 29_635_445
  {
    hide SumTo;
    Nothing(n);
    var t := 0;
    t := Add4(n, 0, t, 1_014_480, 1_044_735, 1_076_851, 1_111_004);
    t := Add4(n, 4, t, 1_147_394, 1_186_249, 1_227_827, 1_272_427);
    t := Add4(n, 8, t, 1_320_388, 1_372_106, 1_428_042, 1_488_731);
    t := Add4(n, 12, t, 1_554_808, 1_627_023, 1_706_273, 1_793_638);
    t := Add4(n, 16, t, 1_890_433, 1_998_271, 2_119_156, 2_255_609);
  }

  lemma {:induction false} Total34(n: nat)
    requires n == 34
    ensures GiantTotal(n) == 122_318_944
  {
    hide SumTo;
    Total34To20(n);
    var t := 29_635_445;
    t := Add4(n, 20, t, 2_410_844, 2_589_025, 2_795_646, 3_038_107);
    t := Add4(n, 24, t, 3_326_618, 3_675_675, 4_106_571, 4_651_911);
    t := Add4(n, 28, t, 5_364_269, 6_334_246, 7_732_441, 9_922_746);
    t := Add(n, 32, t, 13_844_311);
    t := Add(n, 33, t, 22_891_089);
  }

  lemma {:induction false} Total36To20(n: nat)
    requires n == 36
    ensures SumTo(n, 20) == 28_759_486
  {
    hide SumTo;
    Nothing(n);
    var t := 0;
    t := Add4(n, 0, t, 1_013_687, 1_042_219, 1_072_403, 1_104_388);
    t := Add4(n, 4, t, 1_138_339, 1_174_444, 1_212_915, 1_253_991);
    t := Add4(n, 8, t, 1_297_946, 1_345_096, 1_395_799, 1_450_475);
    t := Add4(n, 12, t, 1_509_609, 1_573_770, 1_643_627, 1_719_973);
    t := Add4(n, 16, t, 1_803_757, 1_896_122, 1_998_457, 2_112_469);
  }

  lemma {:induction false} Total36(n: nat)
    requires n == 36
    ensures GiantTotal(n) == 131_408_992
  {
    hide SumTo;
    Total36To20(n);
    var t := 28_759_486;
    t := Add4(n, 20, t, 2_240_276, 2_384_544, 2_548_672, 2_737_064);
    t := Add4(n, 24, t, 2_955_530, 3_211_895, 3_516_960, 3_886_056);
    t := Add4(n, 28, t, 4_341_708, 4_918_406, 5_671_772, 6_697_674);
    t := Add4(n, 32, t, 8_176_656, 10_493_927, 14_644_067, 24_224_299);
  }

  lemma {:induction false} Total37To20(n: nat)
    requires n == 37
    ensures SumTo(n, 20) == 28_380_263
  {
    hide SumTo;
    Nothing(n);
    var t := 0;
    t := Add4(n, 0, t, 1_013_323, 1_041_064, 1_070_367, 1_101_367);
    t := Add4(n, 4, t, 1_134_217, 1_169_086, 1_206_167, 1_245_677);
    t := Add4(n, 8, t, 1_287_864, 1_333_008, 1_381_432, 1_433_507);
    t := Add4(n, 12, t, 1_489_662, 1_550_396, 1_616_292, 1_688_039);
    t := Add4(n, 16, t, 1_766_451, 1_852_503, 1_947_368, 2_052_473);
  }

  lemma {:induction false} Total37(n: nat)
    requires n == 37
    ensures GiantTotal(n) == 135_995_065
  {
    hide SumTo;
    Total37To20(n);
    var t := 28_380_263;
    t := Add4(n, 20, t, 2_169_572, 2_300_840, 2_449_016, 2_617_590);
    t := Add4(n, 24, t, 2_811_088, 3_035_476, 3_298_795, 3_612_137);
    t := Add4(n, 28, t, 3_991_253, 4_459_283, 5_051_660, 5_825_531);
    t := Add4(n, 32, t, 6_879_396, 8_398_773, 10_779_527, 15_043_956);
    t := Add(n, 36, t, 24_890_909);
  }

  lemma {:induction false} Total38To20(n: nat)
    requires n == 38
    ensures SumTo(n, 20) == 28_033_348
  {
    hide SumTo;
    Nothing(n);
    var t := 0;
    t := Add4(n, 0, t, 1_012_977, 1_039_971, 1_068_442, 1_098_516);
    t := Add4(n, 4, t, 1_130_332, 1_164_046, 1_199_833, 1_237_891);
    t := Add4(n, 8, t, 1_278_441, 1_321_739, 1_368_072, 1_417_771);
    t := Add4(n, 12, t, 1_471_217, 1_528_851, 1_591_184, 1_658_816);
    t := Add4(n, 16, t, 1_732_453, 1_812_931, 1_901_250, 1_998_615);
  }

  lemma {:induction false} Total38(n: nat)
    requires n == 38
    ensures GiantTotal(n) == 140_607_530
  {
    hide SumTo;
    Total38To20(n);
    var t := 28_033_348;
    t := Add4(n, 20, t, 2_106_491, 2_226_676, 2_361_406, 2_513_489);
    t := Add4(n, 24, t, 2_686_511, 2_885_114, 3_115_426, 3_385_697);
    t := Add4(n, 28, t, 3_707_317, 4_096_453, 4_576_862, 5_184_919);
    t := Add4(n, 32, t, 5_979_296, 7_061_124, 8_620_895, 11_065_134);
    t := Add(n, 36, t, 15_443_850);
    t := Add(n, 37, t, 25_557_522);
  }

  lemma {:induction false} Total39To20(n: nat)
    requires n == 39
    ensures SumTo(n, 20) == 27_714_695
  {
    hide SumTo;
    Nothing(n);
    var t := 0;
    t := Add4(n, 0, t, 1_012_649, 1_038_934, 1_066_619, 1_095_821);
    t := Add4(n, 4, t, 1_126_666, 1_159_298, 1_193_877, 1_230_582);
    t := Add4(n, 8, t, 1_269_616, 1_311_206, 1_355_614, 1_403_136);
    t := Add4(n, 12, t, 1_454_110, 1_508_928, 1_568_041, 1_631_974);
    t := Add4(n, 16, t, 1_701_342, 1_776_869, 1_859_413, 1_950_000);
  }

  lemma {:induction false} Total39(n: nat)
    requires n == 39
    ensures GiantTotal(n) == 145_245_710
  {
    hide SumTo;
    Total39To20(n);
    var t := 27_714_695;
    t := Add4(n, 20, t, 2_049_865, 2_160_511, 2_283_783, 2_421_974);
    t := Add4(n, 24, t, 2_577_966, 2_755_434, 2_959_143, 3_195_378);
    t := Add4(n, 28, t, 3_472_602, 3_802_500, 4_201_657, 4_694_444);
    t := Add4(n, 32, t, 5_318_181, 6_133_064, 7_242_857, 8_843_023);
    t := Add(n, 36, t, 11_350_746);
    t := Add(n, 37, t, 15_843_750);
    t := Add(n, 38, t, 26_224_137);
  }

  lemma {:induction false} Total40To20(n: nat)
    requires n == 40
    ensures SumTo(n, 20) == 27_420_918
  {
    hide SumTo;
    Nothing(n);
    var t := 0;
    t := Add4(n, 0, t, 1_012_337, 1_037_950, 1_064_891, 1_093_269);
    t := Add4(n, 4, t, 1_123_201, 1_154_817, 1_188_265, 1_223_709);
    t := Add4(n, 8, t, 1_261_332, 1_301_342, 1_343_973, 1_389_491);
    t := Add4(n, 12, t, 1_438_202, 1_490_451, 1_546_640, 1_607_232);
    t := Add4(n, 16, t, 1_672_765, 1_743_869, 1_821_286, 1_905_896);
  }

  lemma {:induction false} Total40(n: nat)
    requires n == 40
    ensures GiantTotal(n) == 149_908_957
  {
    hide SumTo;
    Total40To20(n);
    var t := 27_420_918;
    t := Add4(n, 20, t, 1_998_750, 2_101_116, 2_214_532, 2_340_892);
    t := Add4(n, 24, t, 2_482_544, 2_642_444, 2_824_360, 3_033_175);
    t := Add4(n, 28, t, 3_275_332, 3_559_510, 3_897_685, 4_306_864);
    t := Add4(n, 32, t, 4_812_030, 5_451_448, 6_286_836, 7_424_593);
    t := Add4(n, 36, t, 9_065_155, 11_636_363, 16_243_654, 26_890_756);
  }

  lemma {:induction false} Total44To24(n: nat)
    requires n == 44
    ensures SumTo(n, 24) == 34_284_130
  {
    hide SumTo;
    Nothing(n);
    var t := 0;
    t := Add4(n, 0, t, 1_011_230, 1_034_464, 1_058_791, 1_084_290);
    t := Add4(n, 4, t, 1_111_047, 1_139_158, 1_168_729, 1_199_876);
    t := Add4(n, 8, t, 1_232_728, 1_267_430, 1_304_142, 1_343_045);
    t := Add4(n, 12, t, 1_384_340, 1_428_255, 1_475_047, 1_525_009);
    t := Add4(n, 16, t, 1_578_475, 1_635_825, 1_697_501, 1_764_009);
    t := Add4(n, 20, t, 1_835_941, 1_913_989, 1_998_967, 2_091_842);
  }

  lemma {:induction false} Total44(n: nat)
    requires n == 44
    ensures GiantTotal(n) == 168_800_782
  {
    hide SumTo;
    Total44To24(n);
    var t := 34_284_130;
    t := Add4(n, 24, t, 2_193_767, 2_306_134, 2_430_634, 2_569_343);
    t := Add4(n, 28, t, 2_724_841, 2_900_374, 3_100_080, 3_329_320);
    t := Add4(n, 32, t, 3_595_171, 3_907_164, 4_278_453, 4_727_716);
    t := Add4(n, 36, t, 5_282_401, 5_984_544, 6_901_960, 8_151_578);
    t := Add4(n, 40, t, 9_953_727, 12_778_877, 17_843_317, 29_557_251);
  }

  lemma {:induction false} Total55To20(n: nat)
    requires n == 55
    ensures SumTo(n, 20) == 24_739_464
  {
    hide SumTo;
    Nothing(n);
    var t := 0;
    t := Add4(n, 0, t, 1_009_006, 1_027_513, 1_046_712, 1_066_643);
    t := Add4(n, 4, t, 1_087_347, 1_108_870, 1_131_264, 1_154_580);
    t := Add4(n, 8, t, 1_178_877, 1_204_219, 1_230_675, 1_258_319);
    t := Add4(n, 12, t, 1_287_234, 1_317_508, 1_349_241, 1_382_541);
    t := Add4(n, 16, t, 1_417_525, 1_454_326, 1_493_089, 1_533_975);
  }

  lemma {:induction false} Total55To40(n: nat)
    requires n == 55
    ensures SumTo(n, 40) == 70_123_283
  {
    hide SumTo;
    Total55To20(n);
    var t := 24_739_464;
    t := Add4(n, 20, t, 1_577_163, 1_622_854, 1_671_270, 1_722_665);
    t := Add4(n, 24, t, 1_777_320, 1_835_558, 1_897_741, 1_964_285);
    t := Add4(n, 28, t, 2_035_666, 2_112_430, 2_195_210, 2_284_743);
    t := Add4(n, 32, t, 2_381_889, 2_487_664, 2_603_270, 2_730_144);
    t := Add4(n, 36, t, 2_870_018, 3_025_000, 3_197_674, 3_391_255);
  }

  lemma {:induction false} Total55(n: nat)
    requires n == 55
    ensures GiantTotal(n) == 222_507_497
  {
    hide SumTo;
    Total55To40(n);
    var t := 70_123_283;
    t := Add4(n, 40, t, 3_609_785, 3_858_418, 4_143_835, 4_474_852);
    t := Add4(n, 44, t, 4_863_344, 5_325_704, 5_885_214, 6_576_086);
    t := Add4(n, 48, t, 7_450_738, 8_593_750, 10_151_006, 12_397_540);
    t := Add(n, 52, t, 15_921_052);
    t := Add(n, 53, t, 22_242_647);
    t := Add(n, 54, t, 36_890_243);
  }
}
