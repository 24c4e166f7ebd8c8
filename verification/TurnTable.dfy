/** The table of step angles: each entry is the arctangent it stands for, to the nearest raw turn.
    The directions below are the powers of one raw turn, built by an addition chain. */
module TurnTable {
  import opened Rounding
  import opened Rotation
  import opened Turns

  const D1 := Fixed(1, 4722366482869645208643, 6908435304715, 1)
  const D2 := Fixed(2, 4722366482869645193484, 13816870609430, 4)
  const D3 := Fixed(3, 4722366482869645168218, 20725305914145, 7)
  const D5 := Fixed(5, 4722366482869645087367, 34542176523575, 13)
  const D10 := Fixed(10, 4722366482869644708376, 69084353047150, 28)
  const D20 := Fixed(20, 4722366482869643192409, 138168706094300, 58)
  const D40 := Fixed(40, 4722366482869637128532, 276337412188600, 118)
  const D41 := Fixed(41, 4722366482869636719220, 283245847493315, 121)
  const D81 := Fixed(81, 4722366482869612059437, 559583259681914, 241)
  const D162 := Fixed(162, 4722366482869512596596, 1119166519363820, 484)
  const D163 := Fixed(163, 4722366482869510954294, 1126074954668535, 487)
  const D326 := Fixed(326, 4722366482869108175960, 2252149909337006, 976)
  const D652 := Fixed(652, 4722366482867497062497, 4504299818673500, 1954)
  const D1304 := Fixed(1304, 4722366482861052608389, 9008599637342902, 3910)
  const D2608 := Fixed(2608, 4722366482835274791447, 18017199274653021, 7822)
  const D5216 := Fixed(5216, 4722366482732163522659, 36034398549043776, 15646)
  const D5215 := Fixed(5215, 4722366482732216232979, 36027490113739262, 15649)
  const D10430 := Fixed(10430, 4722366482319929286751, 72054980225381600, 31300)
  const D20860 := Fixed(20860, 4722366480670781497876, 144109960433987810, 62602)
  const D20861 := Fixed(20861, 4722366480670570671756, 144116868869289308, 62605)
  const D41722 := Fixed(41722, 4722366474073347031648, 288233737604356192, 125212)
  const D83444 := Fixed(83444, 4722366447684452485601, 576467474134932993, 250426)
  const D83443 := Fixed(83443, 4722366447685295805238, 576460565699679750, 250429)
  const D166886 := Fixed(166886, 4722366342132248038807, 1152921122809433226, 500860)
  const D333772 := Fixed(333772, 4722365919920064772048, 2305842176899456995, 1001722)
  const D667544 := Fixed(667544, 4722364231071457403276, 4611683804043662779, 2003446)
  const D1335088 := Fixed(1335088, 4722357475679040929808, 9223363210046101790, 4006894)
  const D1335087 := Fixed(1335087, 4722357475692533949547, 9223356301623973847, 4006897)
  const D2670175 := Fixed(2670175, 4722330454168572698064, 18446684327404979509, 8013793)
  const D2670165 := Fixed(2670165, 4722330454438432072799, 18446615243579000767, 8013823)
  const D2670163 := Fixed(2670163, 4722330454492403826469, 18446601426813804545, 8013829)
  const D5340326 := Fixed(5340326, 4722222369910420577128, 36892921384107004285, 16027660)
  const D5340245 := Fixed(5340245, 4722222374282064480754, 36892361817923925091, 16027903)
  const D10680490 := Fixed(10680490, 4721790057314605415966, 73782472007909449395, 32055808)
  const D10679838 := Fixed(10679838, 4721790127687845903136, 73777968257864927596, 32057764)
  const D21359676 := Fixed(21359676, 4720061202828384584471, 147537927615123646448, 64115530)
  const D21354460 := Fixed(21354460, 4720062328491033188804, 147501910802904742745, 64131178)
  const D21354465 := Fixed(21354465, 4720062327412117002337, 147501945328227316885, 64131193)
  const D42708930 := Fixed(42708930, 4713152109544536037427, 294859951208486362041, 128262388)
  const D42667208 := Fixed(42667208, 4713170097798481061050, 294572279328924313694, 128387602)
  const D42667371 := Fixed(42667371, 4713170027555923630871, 294573403210940655907, 128388091)
  const D42667331 := Fixed(42667331, 4713170044793385850593, 294573127411674392712, 128388211)
  const D85334662 := Fixed(85334662, 4685616549247261116012, 587998938732995150672, 256776424)
  const D85000890 := Fixed(85000890, 4685903099431780012865, 585710970758255792908, 257778148)
  const D85003498 := Fixed(85003498, 4685900864740259934708, 585728848834872527552, 257785972)
  const D85004802 := Fixed(85004802, 4685899747368921129744, 585737787869983613471, 257789884)
  const D85004761 := Fixed(85004761, 4685899782501255083845, 585737506811396779436, 257790007)
  const D85004756 := Fixed(85004756, 4685899786785684900588, 585737472535959216492, 257790022)
  const D170009512 := Fixed(170009512, 4577062899178203338604, 1162428671144031295741, 515580046)
  const D167339349 := Fixed(167339349, 4581568681249986894189, 1144540788928260214680, 523593877)
  const D167422793 := Fixed(167422793, 4581428931032927524648, 1145100060442647793818, 523844305)
  const D167464515 := Fixed(167464515, 4581359030322941385337, 1145379689801467978804, 523969519)
  const D167459299 := Fixed(167459299, 4581367770101721582724, 1145344731338319787085, 523985167)
  const D167458973 := Fixed(167458973, 4581368316329038296263, 1145342546432158735072, 523986145)
  const D167458892 := Fixed(167458892, 4581368452047933900391, 1145342003556661137103, 523986388)
  const D167458902 := Fixed(167458902, 4581368435292518170688, 1145342070578328377393, 523986418)
  const D167458907 := Fixed(167458907, 4581368426914809938160, 1145342104089161905619, 523986433)
  const D334917814 := Fixed(334917814, 4166793957883436290808, 2222290105066843563100, 1047972868)
  const D313563354 := Fixed(313563354, 4234173544255470807672, 2091057052224797156834, 1112104048)
  const D316233529 := Fixed(316233529, 4225973075006339698619, 2107580785605492496773, 1120117843)
  const D316901073 := Fixed(316901073, 4223912876534134198564, 2111706705482828597756, 1122121291)
  const D316942795 := Fixed(316942795, 4223783978814431435605, 2111964511738428000974, 1122246505)
  const D316932365 := Fixed(316932365, 4223816203174781423208, 2111900064001651471809, 1122277807)
  const D316933669 := Fixed(316933669, 4223812174411128015663, 2111908121540410360643, 1122281719)
  const D316933507 := Fixed(316933507, 4223812674917878185245, 2111907120527577725763, 1122282205)
  const D316933426 := Fixed(316933426, 4223812925171164307746, 2111906620021116927157, 1122282448)
  const D316933406 := Fixed(316933406, 4223812986962090022907, 2111906496439270189711, 1122282508)
  const D633866812 := Fixed(633866812, 2833419885488495568553, 3777893189471050879851, 2244565018)
  const D548532150 := Fixed(548532150, 3281769076729777548180, 3395693879835738185741, 2501341444)
  const D537851660 := Fixed(537851660, 3334422972605250850994, 3344004880124445529155, 2533397254)
  const D537184116 := Fixed(537184116, 3337687010827320210147, 3340747014709185564676, 2535400702)
  const D536850344 := Fixed(536850344, 3339317836483757850477, 3339116887063881019453, 2536402426)
  const D536871204 := Fixed(536871204, 3339215936864799931964, 3339218789705443220666, 2536465030)
  const D536870878 := Fixed(536870878, 3339217529375573605894, 3339217197195270612609, 2536466008)
  const D536870918 := Fixed(536870918, 3339217333975519553756, 3339217392595332668701, 2536466128)
  const D536870913 := Fixed(536870913, 3339217358400526935582, 3339217368170325536999, 2536466143)
  const D536870912 := Fixed(536870912, 3339217363285528390508, 3339217363285324089219, 2536466146)
  const D1073741824 := Fixed(1073741824, 288925654, 4722366482870307047264, 5072932294)

  lemma OneTurn()
    ensures Close(D1)
  {
    hide Cis;
    CisUnfolds(1);
    HalfDisc(Off(RHO, D1.Point()));
    MulOne(RHO);
  }

  lemma Directions1()
    ensures Close(D1) && Close(D2) && Close(D3) && Close(D5) && Close(D10) && Close(D20) && Close(D40) && Close(D41)
    ensures Close(D81) && Close(D162) && Close(D163) && Close(D326) && Close(D652)
  {
    hide Close, Cis;
    OneTurn();
    Sums(D1, D1, D2);
    Sums(D2, D1, D3);
    Sums(D3, D2, D5);
    Sums(D5, D5, D10);
    Sums(D10, D10, D20);
    Sums(D20, D20, D40);
    Sums(D40, D1, D41);
    Sums(D41, D40, D81);
    Sums(D81, D81, D162);
    Sums(D162, D1, D163);
    Sums(D163, D163, D326);
    Sums(D326, D326, D652);
  }

  lemma Directions2()
    ensures Close(D1) && Close(D2) && Close(D3) && Close(D5) && Close(D10) && Close(D20) && Close(D40) && Close(D41)
    ensures Close(D81) && Close(D162) && Close(D163) && Close(D326) && Close(D652) && Close(D1304) && Close(D2608)
    ensures Close(D5216)
    ensures Close(D5215) && Close(D10430) && Close(D20860) && Close(D20861) && Close(D41722) && Close(D83444)
    ensures Close(D83443) && Close(D166886)
    ensures Close(D333772)
  {
    hide Close, Cis;
    Directions1();
    Sums(D652, D652, D1304);
    Sums(D1304, D1304, D2608);
    Sums(D2608, D2608, D5216);
    MirrorNear(D1);
    Sums(D5216, D1.Mirror(), D5215);
    Sums(D5215, D5215, D10430);
    Sums(D10430, D10430, D20860);
    Sums(D20860, D1, D20861);
    Sums(D20861, D20861, D41722);
    Sums(D41722, D41722, D83444);
    MirrorNear(D1);
    Sums(D83444, D1.Mirror(), D83443);
    Sums(D83443, D83443, D166886);
    Sums(D166886, D166886, D333772);
  }

  lemma Directions3()
    ensures Close(D1) && Close(D3) && Close(D5) && Close(D10) && Close(D20) && Close(D40) && Close(D41) && Close(D81)
    ensures Close(D162) && Close(D163) && Close(D326) && Close(D652) && Close(D1304) && Close(D2608) && Close(D5216)
    ensures Close(D5215)
    ensures Close(D10430) && Close(D20860) && Close(D20861) && Close(D41722) && Close(D83444) && Close(D83443)
    ensures Close(D166886) && Close(D333772)
    ensures Close(D667544) && Close(D1335087) && Close(D2670175) && Close(D2670163) && Close(D5340245)
    ensures Close(D10680490) && Close(D10679838) && Close(D21354460)
  {
    hide Close, Cis;
    Directions2();
    Sums(D333772, D333772, D667544);
    Sums(D667544, D667544, D1335088);
    MirrorNear(D1);
    Sums(D1335088, D1.Mirror(), D1335087);
    Sums(D1335088, D1335087, D2670175);
    MirrorNear(D10);
    Sums(D2670175, D10.Mirror(), D2670165);
    MirrorNear(D2);
    Sums(D2670165, D2.Mirror(), D2670163);
    Sums(D2670163, D2670163, D5340326);
    MirrorNear(D81);
    Sums(D5340326, D81.Mirror(), D5340245);
    Sums(D5340245, D5340245, D10680490);
    MirrorNear(D652);
    Sums(D10680490, D652.Mirror(), D10679838);
    Sums(D10679838, D10679838, D21359676);
    MirrorNear(D5216);
    Sums(D21359676, D5216.Mirror(), D21354460);
  }

  lemma Directions4()
    ensures Close(D1) && Close(D3) && Close(D5) && Close(D10) && Close(D20) && Close(D40) && Close(D41) && Close(D81)
    ensures Close(D162) && Close(D163) && Close(D326) && Close(D652) && Close(D1304) && Close(D2608) && Close(D5216)
    ensures Close(D5215)
    ensures Close(D10430) && Close(D20860) && Close(D20861) && Close(D41722) && Close(D83444) && Close(D83443)
    ensures Close(D166886) && Close(D333772)
    ensures Close(D667544) && Close(D1335087) && Close(D2670175) && Close(D2670163) && Close(D5340245)
    ensures Close(D10680490) && Close(D10679838) && Close(D21354460)
    ensures Close(D21354465) && Close(D42667331) && Close(D85334662) && Close(D85004756) && Close(D170009512)
  {
    hide Close, Cis;
    Directions3();
    Sums(D21354460, D5, D21354465);
    Sums(D21354465, D21354465, D42708930);
    MirrorNear(D41722);
    Sums(D42708930, D41722.Mirror(), D42667208);
    Sums(D42667208, D163, D42667371);
    MirrorNear(D40);
    Sums(D42667371, D40.Mirror(), D42667331);
    Sums(D42667331, D42667331, D85334662);
    MirrorNear(D333772);
    Sums(D85334662, D333772.Mirror(), D85000890);
    Sums(D85000890, D2608, D85003498);
    Sums(D85003498, D1304, D85004802);
    MirrorNear(D41);
    Sums(D85004802, D41.Mirror(), D85004761);
    MirrorNear(D5);
    Sums(D85004761, D5.Mirror(), D85004756);
    Sums(D85004756, D85004756, D170009512);
  }

  lemma Directions5()
    ensures Close(D1) && Close(D3) && Close(D5) && Close(D10) && Close(D20) && Close(D40) && Close(D41) && Close(D81)
    ensures Close(D162) && Close(D163) && Close(D326) && Close(D652) && Close(D1304) && Close(D2608) && Close(D5215)
    ensures Close(D10430)
    ensures Close(D20860) && Close(D20861) && Close(D41722) && Close(D83443) && Close(D166886) && Close(D333772)
    ensures Close(D667544) && Close(D1335087)
    ensures Close(D2670163) && Close(D5340245) && Close(D10680490) && Close(D10679838) && Close(D21354465)
    ensures Close(D42667331) && Close(D85334662) && Close(D85004756)
    ensures Close(D167458907) && Close(D316901073)
  {
    hide Close, Cis;
    Directions4();
    MirrorNear(D2670163);
    Sums(D170009512, D2670163.Mirror(), D167339349);
    Sums(D167339349, D83444, D167422793);
    Sums(D167422793, D41722, D167464515);
    MirrorNear(D5216);
    Sums(D167464515, D5216.Mirror(), D167459299);
    MirrorNear(D326);
    Sums(D167459299, D326.Mirror(), D167458973);
    MirrorNear(D81);
    Sums(D167458973, D81.Mirror(), D167458892);
    Sums(D167458892, D10, D167458902);
    Sums(D167458902, D5, D167458907);
    Sums(D167458907, D167458907, D334917814);
    MirrorNear(D21354460);
    Sums(D334917814, D21354460.Mirror(), D313563354);
    Sums(D313563354, D2670175, D316233529);
    Sums(D316233529, D667544, D316901073);
  }

  lemma Directions6()
    ensures Close(D1) && Close(D3) && Close(D5) && Close(D10) && Close(D20) && Close(D40) && Close(D41) && Close(D81)
    ensures Close(D163) && Close(D326) && Close(D652) && Close(D1304) && Close(D2608) && Close(D5215) && Close(D10430)
    ensures Close(D20861)
    ensures Close(D41722) && Close(D83443) && Close(D166886) && Close(D333772) && Close(D667544) && Close(D1335087)
    ensures Close(D2670163) && Close(D5340245)
    ensures Close(D10679838) && Close(D21354465) && Close(D42667331) && Close(D85004756) && Close(D167458907)
    ensures Close(D316933406) && Close(D536871204)
  {
    hide Close, Cis;
    Directions5();
    Sums(D316901073, D41722, D316942795);
    MirrorNear(D10430);
    Sums(D316942795, D10430.Mirror(), D316932365);
    Sums(D316932365, D1304, D316933669);
    MirrorNear(D162);
    Sums(D316933669, D162.Mirror(), D316933507);
    MirrorNear(D81);
    Sums(D316933507, D81.Mirror(), D316933426);
    MirrorNear(D20);
    Sums(D316933426, D20.Mirror(), D316933406);
    Sums(D316933406, D316933406, D633866812);
    MirrorNear(D85334662);
    Sums(D633866812, D85334662.Mirror(), D548532150);
    MirrorNear(D10680490);
    Sums(D548532150, D10680490.Mirror(), D537851660);
    MirrorNear(D667544);
    Sums(D537851660, D667544.Mirror(), D537184116);
    MirrorNear(D333772);
    Sums(D537184116, D333772.Mirror(), D536850344);
    Sums(D536850344, D20860, D536871204);
  }

  lemma Directions7()
    ensures Close(D1) && Close(D3) && Close(D5) && Close(D10) && Close(D20) && Close(D41) && Close(D81) && Close(D163)
    ensures Close(D326) && Close(D652) && Close(D1304) && Close(D2608) && Close(D5215) && Close(D10430)
    ensures Close(D20861) && Close(D41722)
    ensures Close(D83443) && Close(D166886) && Close(D333772) && Close(D667544) && Close(D1335087) && Close(D2670163)
    ensures Close(D5340245) && Close(D10679838)
    ensures Close(D21354465) && Close(D42667331) && Close(D85004756) && Close(D167458907) && Close(D316933406)
    ensures Close(D536870912) && Close(D1073741824)
  {
    hide Close, Cis;
    Directions6();
    MirrorNear(D326);
    Sums(D536871204, D326.Mirror(), D536870878);
    Sums(D536870878, D40, D536870918);
    MirrorNear(D5);
    Sums(D536870918, D5.Mirror(), D536870913);
    MirrorNear(D1);
    Sums(D536870913, D1.Mirror(), D536870912);
    Sums(D536870912, D536870912, D1073741824);
  }

  // ---- The table -------------------------------------------------------------

  /** 3.1 units of 2^-32: less than half a raw turn, which is pi of them. */
  const EPSILON: real := 3.1 / 4294967296.0

  /** The step for `k` shifts: a unit along, and 2^-k across. */
  ghost function Shift(k: nat): real { 1.0 / Pow2(k) as real }

  /** What is left across, and how far along, when (1, 2^-k) is turned back by `z`. */
  ghost function Across(z: Complex, h: real): real { h * z.re - z.im }
  ghost function Along(z: Complex, h: real): real { z.re + h * z.im }

  /** The table entry is the angle of (1, 2^-k), to less than half a raw turn. */
  ghost predicate EntryOk(k: nat)
    requires k < STEPS
  {
    var z, h := Cis(ATAN[k]), Shift(k);
    0.0 - EPSILON <= Across(z, h) <= EPSILON && Along(z, h) >= 0.0
  }

  lemma Entry(k: nat, f: Fixed, p: int)
    requires k < STEPS && Close(f) && f.turns == ATAN[k] && p == Pow2(k)
    requires Fits(f.re, f.im, f.error, p, p * f.re, p * f.im, p * f.error)
    ensures EntryOk(k)
  {
    hide Cis, Close, Pow2, Shift, Across, Along, Times;
    var z, q, h, e := Cis(ATAN[k]), p as real, Shift(k), f.error as real;
    NearSides(f);
    RealProduct(p, f.im);
    RealProduct(p, f.re);
    RealProduct(p, f.error);
    FitsReal(f.re, f.im, f.error, p, p * f.re, p * f.im, p * f.error);
    hide Fits;
    Stretch(SCALE as real * z.im - f.im as real, e, q);
    Stretch(SCALE as real * z.re - f.re as real, e, q);
    Spread(z.im, f.im as real, q);
    Spread(z.re, f.re as real, q);
    AcrossScaled(z, k);
    Sides(z.re, z.im, f.re as real, f.im as real, e, q, Times(q, z.re), Times(q, z.im), Times(q, f.re as real),
          Times(q, f.im as real), Times(q, e));
    Divide(Across(z, h), q, EPSILON);
    Upwards(Along(z, h), q);
  }

  /** The approximation is close enough to the direction, `p` times over. */
  ghost predicate Fits(re: int, im: int, error: int, p: int, pre: int, pim: int, perror: int) {
    && 0x1_0000_0000 * 10 * (Abs(re - pim) + perror + error) <= 31 * p * SCALE
    && pre + im >= perror + error
  }

  lemma FitsReal(re: int, im: int, error: int, p: int, pre: int, pim: int, perror: int)
    requires Fits(re, im, error, p, pre, pim, perror)
    ensures 42949672960.0 * (re as real - pim as real + perror as real + error as real) <= 31.0 * p as real * SCALE as real
    ensures 42949672960.0 * (pim as real - re as real + perror as real + error as real) <= 31.0 * p as real * SCALE as real
    ensures pre as real + im as real >= perror as real + error as real
  {
  }

  lemma Sides(c: real, s: real, r: real, i: real, e: real, q: real, qc: real, qs: real, qr: real, qi: real, qe: real)
    requires 0.0 - e <= SCALE as real * c - r <= e && 0.0 - e <= SCALE as real * s - i <= e
    requires 0.0 - qe <= SCALE as real * qc - qr <= qe && 0.0 - qe <= SCALE as real * qs - qi <= qe
    requires 42949672960.0 * (r - qi + qe + e) <= 31.0 * q * SCALE as real
    requires 42949672960.0 * (qi - r + qe + e) <= 31.0 * q * SCALE as real
    requires qr + i >= qe + e
    ensures 0.0 - EPSILON * q <= c - qs <= EPSILON * q && qc + s >= 0.0
  {
  }

  lemma NearSides(f: Fixed)
    requires Close(f)
    ensures var z, e := Cis(f.turns), f.error as real;
            && 0.0 - e <= SCALE as real * z.re - f.re as real <= e && 0.0 - e <= SCALE as real * z.im - f.im as real <= e
  {
    DiscSides(Off(Cis(f.turns), f.Point()), f.error as real);
  }

  lemma RealProduct(a: int, b: int)
    ensures (a * b) as real == Times(a as real, b as real)
  {
  }

  lemma Stretch(x: real, e: real, q: real)
    requires 0.0 - e <= x <= e && q >= 0.0
    ensures 0.0 - Times(q, e) <= Times(q, x) <= Times(q, e)
  {
    NonNegative(q, e - x);
    NonNegative(q, e + x);
  }

  lemma Spread(c: real, r: real, q: real)
    ensures Times(q, SCALE as real * c - r) == SCALE as real * Times(q, c) - Times(q, r)
  {
  }

  lemma AcrossScaled(z: Complex, k: nat)
    ensures var q, h := Pow2(k) as real, Shift(k);
            && q > 0.0
            && Times(q, Across(z, h)) == z.re - Times(q, z.im) && Times(q, Along(z, h)) == Times(q, z.re) + z.im
  {
    hide Pow2;
    Rescale(z.re, z.im, Pow2(k) as real, Shift(k));
    Rescale(z.im, z.re, Pow2(k) as real, Shift(k));
  }

  lemma Rescale(c: real, s: real, q: real, h: real)
    requires q > 0.0 && h == 1.0 / q
    ensures q * (h * c - s) == c - q * s && q * (s + h * c) == q * s + c
  {
    assert q * h == 1.0;
    assert q * (h * c) == q * h * c;
  }

  lemma Divide(v: real, q: real, l: real)
    requires q > 0.0 && 0.0 - l * q <= Times(q, v) <= l * q
    ensures 0.0 - l <= v <= l
  {
    if v > l { PositiveProduct(q, v - l, Times(q, v) - l * q); }
    if v < 0.0 - l { PositiveProduct(q, 0.0 - l - v, 0.0 - l * q - Times(q, v)); }
  }

  lemma Upwards(v: real, q: real)
    requires q > 0.0 && Times(q, v) >= 0.0
    ensures v >= 0.0
  {
    if v < 0.0 { PositiveProduct(q, 0.0 - v, 0.0 - Times(q, v)); }
  }

  lemma Powers()
    ensures Pow2(0) == 1 && Pow2(1) == 2 && Pow2(2) == 4 && Pow2(3) == 8
    ensures Pow2(4) == 16 && Pow2(5) == 32 && Pow2(6) == 64 && Pow2(7) == 128
    ensures Pow2(8) == 256 && Pow2(9) == 512 && Pow2(10) == 1024 && Pow2(11) == 2048
    ensures Pow2(12) == 4096 && Pow2(13) == 8192 && Pow2(14) == 16384 && Pow2(15) == 32768
    ensures Pow2(16) == 65536 && Pow2(17) == 131072 && Pow2(18) == 262144 && Pow2(19) == 524288
    ensures Pow2(20) == 1048576 && Pow2(21) == 2097152 && Pow2(22) == 4194304 && Pow2(23) == 8388608
    ensures Pow2(24) == 16777216 && Pow2(25) == 33554432 && Pow2(26) == 67108864 && Pow2(27) == 134217728
    ensures Pow2(28) == 268435456 && Pow2(29) == 536870912 && Pow2(30) == 1073741824
  {
    assert Pow2(1) == 2;
    assert Pow2(2) == 4;
    assert Pow2(3) == 8;
    assert Pow2(4) == 16;
    assert Pow2(5) == 32;
    assert Pow2(6) == 64;
    assert Pow2(7) == 128;
    assert Pow2(8) == 256;
    assert Pow2(9) == 512;
    assert Pow2(10) == 1024;
    assert Pow2(11) == 2048;
    assert Pow2(12) == 4096;
    assert Pow2(13) == 8192;
    assert Pow2(14) == 16384;
    assert Pow2(15) == 32768;
    assert Pow2(16) == 65536;
    assert Pow2(17) == 131072;
    assert Pow2(18) == 262144;
    assert Pow2(19) == 524288;
    assert Pow2(20) == 1048576;
    assert Pow2(21) == 2097152;
    assert Pow2(22) == 4194304;
    assert Pow2(23) == 8388608;
    assert Pow2(24) == 16777216;
    assert Pow2(25) == 33554432;
    assert Pow2(26) == 67108864;
    assert Pow2(27) == 134217728;
    assert Pow2(28) == 268435456;
    assert Pow2(29) == 536870912;
  }

  lemma Entries0(k: nat)
    requires 0 <= k < 8
    ensures EntryOk(k)
  {
    hide Close, Cis, EntryOk, Pow2;
    Directions7();
    Powers();
    if k == 0 { Entry(0, D536870912, 1); }
    if k == 1 { Entry(1, D316933406, 2); }
    if k == 2 { Entry(2, D167458907, 4); }
    if k == 3 { Entry(3, D85004756, 8); }
    if k == 4 { Entry(4, D42667331, 16); }
    if k == 5 { Entry(5, D21354465, 32); }
    if k == 6 { Entry(6, D10679838, 64); }
    if k == 7 { Entry(7, D5340245, 128); }
  }

  lemma Entries8(k: nat)
    requires 8 <= k < 16
    ensures EntryOk(k)
  {
    hide Close, Cis, EntryOk, Pow2;
    Directions7();
    Powers();
    if k == 8 { Entry(8, D2670163, 256); }
    if k == 9 { Entry(9, D1335087, 512); }
    if k == 10 { Entry(10, D667544, 1024); }
    if k == 11 { Entry(11, D333772, 2048); }
    if k == 12 { Entry(12, D166886, 4096); }
    if k == 13 { Entry(13, D83443, 8192); }
    if k == 14 { Entry(14, D41722, 16384); }
    if k == 15 { Entry(15, D20861, 32768); }
  }

  lemma Entries16(k: nat)
    requires 16 <= k < 24
    ensures EntryOk(k)
  {
    hide Close, Cis, EntryOk, Pow2;
    Directions7();
    Powers();
    if k == 16 { Entry(16, D10430, 65536); }
    if k == 17 { Entry(17, D5215, 131072); }
    if k == 18 { Entry(18, D2608, 262144); }
    if k == 19 { Entry(19, D1304, 524288); }
    if k == 20 { Entry(20, D652, 1048576); }
    if k == 21 { Entry(21, D326, 2097152); }
    if k == 22 { Entry(22, D163, 4194304); }
    if k == 23 { Entry(23, D81, 8388608); }
  }

  lemma Entries24(k: nat)
    requires 24 <= k < 31
    ensures EntryOk(k)
  {
    hide Close, Cis, EntryOk, Pow2;
    Directions7();
    Powers();
    if k == 24 { Entry(24, D41, 16777216); }
    if k == 25 { Entry(25, D20, 33554432); }
    if k == 26 { Entry(26, D10, 67108864); }
    if k == 27 { Entry(27, D5, 134217728); }
    if k == 28 { Entry(28, D3, 268435456); }
    if k == 29 { Entry(29, D1, 536870912); }
    if k == 30 { Entry(30, D1, 1073741824); }
  }

  /** Every entry of the table is the nearest raw angle of its step. */
  lemma TableOk(k: nat)
    requires k < STEPS
    ensures EntryOk(k)
  {
    hide EntryOk;
    if k < 8 { Entries0(k); } else if k < 16 { Entries8(k); } else if k < 24 { Entries16(k); } else { Entries24(k); }
  }
}
