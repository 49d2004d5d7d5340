/**
  One normal melee hit: the two defense reductions, the percentage modifiers
  and the critical multiplier, over integers with division rounding toward
  zero.
 */
module Damage {
  import opened Arithmetic
  import opened Options

  // ----- truncating division -----

  /** Division rounding toward zero. */
  function Quotient(a: int, b: int): int
    requires b != 0
  {
    if b < 0 then Toward(0 - a, 0 - b) else Toward(a, b)
  }

  function Toward(a: int, b: int): int
    requires b > 0
  {
    if a >= 0 then a / b else 0 - (0 - a) / b
  }

  lemma DivMonotone(a: int, c: int, b: int)
    requires 0 <= a <= c && b > 0
    ensures 0 <= a / b <= c / b
  {
    var p, q := a / b, c / b;
    assert a == p * b + a % b && c == q * b + c % b;
    if q < p {
      MulMonotone(b, q + 1, p);
      assert false;
    }
  }

  /** Rounding toward zero keeps the order, for dividends of any sign. */
  lemma TowardMonotone(a: int, c: int, b: int)
    requires a <= c && b > 0
    ensures Toward(a, b) <= Toward(c, b)
  {
    if a >= 0 {
      DivMonotone(a, c, b);
    } else if c < 0 {
      DivMonotone(0 - c, 0 - a, b);
    } else {
      DivMonotone(0, c, b);
      DivMonotone(0, 0 - a, b);
    }
  }

  lemma TowardSign(a: int, b: int)
    requires b > 0
    ensures a >= 0 ==> Toward(a, b) >= 0
    ensures a <= 0 ==> Toward(a, b) <= 0
  {
    if a >= 0 {
      DivMonotone(0, a, b);
    } else {
      DivMonotone(0, 0 - a, b);
    }
  }

  // ----- the stages of a hit -----

  datatype Mode = PreRenewal | Renewal

  /** damage * (100 - def1) / 100 - vitDef. */
  function ReducePreRenewal(damage: int, def1: int, vitDef: int): int {
    Quotient(damage * (100 - def1), 100) - vitDef
  }

  /** damage * (4000 + def1) / (4000 + 10 * def1) - vitDef. */
  function ReduceRenewal(damage: int, def1: int, vitDef: int): int
    requires def1 != -400
  {
    Quotient(damage * (4000 + def1), 4000 + 10 * def1) - vitDef
  }

  /** Element rate, then size rate, then twice for a critical. */
  function ApplyPostDEF(damage: int, elementRate: int, sizeRate: int, crit: bool): int {
    var d := Quotient(Quotient(damage * elementRate, 100) * sizeRate, 100);
    if crit then d * 2 else d
  }

  datatype Roll = Roll(hit: bool, crit: bool)

  predicate IsMiss(r: Roll) {
    !r.hit && !r.crit
  }

  type ElementTable = (int, int, int) -> int
  type SizeTable = (string, string) -> int

  function ElementModifier(t: Option<ElementTable>, attacker: int, defender: int, level: int): int {
    if t.None? || level <= 0 then 100 else t.value(attacker, defender, level)
  }

  function SizeModifier(t: Option<SizeTable>, weapon: string, size: string): int {
    if t.None? || weapon == "" || size == "" then 100 else t.value(weapon, size)
  }

  /** `batk`, `hitRate` and `critRate` are what the mode's formulas give for the attacker. */
  datatype Attacker = Attacker(batk: int, hitRate: int, critRate: int, weaponATK: int, element: int, weapon: string)

  datatype Defender = Defender(hardDEF: int, softDEF: int, element: int, elementLevel: int, size: string)

  datatype Hit = Hit(damage: int, elementRate: int, sizeRate: int, hitRate: int, critRate: int, crit: bool, miss: bool)

  /** The Renewal ratio divides by zero at HardDEF -400. */
  datatype Outcome = Resolved(hit: Hit) | DivideByZero

  datatype Choice = WithAttributeFix(attrs: Option<ElementTable>) | WithSizeFix(sizes: Option<SizeTable>) | WithRoll(roll: Roll)

  datatype Config = Config(attrs: Option<ElementTable>, sizes: Option<SizeTable>, roll: Roll)

  const DEFAULT := Config(None, None, Roll(true, false))

  function Apply(choice: Choice, c: Config): Config {
    match choice
    case WithAttributeFix(t) => c.(attrs := t)
    case WithSizeFix(t) => c.(sizes := t)
    case WithRoll(r) => c.(roll := r)
  }

  function Configured(choices: seq<Choice>, c: Config): Config {
    if choices == [] then c else Configured(choices[1..], Apply(choices[0], c))
  }

  /** Damage after the defense reduction and, before Renewal, the floor of one. */
  function Reduced(attack: int, hardDEF: int, softDEF: int, m: Mode): int
    requires m.Renewal? ==> hardDEF != -400
  {
    if m.Renewal? then ReduceRenewal(attack, hardDEF, softDEF) else Max(ReducePreRenewal(attack, hardDEF, softDEF), 1)
  }

  function BaseAttack(a: Attacker, m: Mode): int {
    if m.Renewal? then 2 * a.batk + a.weaponATK else a.batk + a.weaponATK
  }

  /** What one hit does. */
  function FinalDamage(attack: int, d: Defender, elementRate: int, sizeRate: int, roll: Roll, m: Mode): int
    requires m.Renewal? ==> d.hardDEF != -400
  {
    var damage := ApplyPostDEF(Reduced(attack, d.hardDEF, d.softDEF, m), elementRate, sizeRate, roll.crit);
    if IsMiss(roll) then 0 else if m.Renewal? then Max(damage, 0) else damage
  }

  function Melee(a: Attacker, d: Defender, m: Mode, c: Config): Outcome {
    var e := ElementModifier(c.attrs, a.element, d.element, d.elementLevel);
    var s := SizeModifier(c.sizes, a.weapon, d.size);
    if m.Renewal? && d.hardDEF == -400 then DivideByZero
    else
      Resolved(Hit(FinalDamage(BaseAttack(a, m), d, e, s, c.roll, m), e, s, a.hitRate, a.critRate, c.roll.crit, IsMiss(c.roll)))
  }

  /** Option `i` is the last of its kind. */
  predicate LastElement(choices: seq<Choice>, i: nat) {
    i < |choices| && choices[i].WithAttributeFix? && forall j :: i < j < |choices| ==> !choices[j].WithAttributeFix?
  }

  predicate LastSize(choices: seq<Choice>, i: nat) {
    i < |choices| && choices[i].WithSizeFix? && forall j :: i < j < |choices| ==> !choices[j].WithSizeFix?
  }

  predicate LastRoll(choices: seq<Choice>, i: nat) {
    i < |choices| && choices[i].WithRoll? && forall j :: i < j < |choices| ==> !choices[j].WithRoll?
  }

  /** The rates and the roll of a hit are those of the last option of each kind, or the defaults. */
  ghost predicate Reports(hit: Hit, a: Attacker, d: Defender, choices: seq<Choice>) {
    && hit.hitRate == a.hitRate && hit.critRate == a.critRate
    && (forall i: nat :: LastElement(choices, i) ==>
          hit.elementRate == if choices[i].attrs.Some? && d.elementLevel > 0
            then choices[i].attrs.value(a.element, d.element, d.elementLevel) else 100)
    && ((forall i :: 0 <= i < |choices| ==> !choices[i].WithAttributeFix?) ==> hit.elementRate == 100)
    && (forall i: nat :: LastSize(choices, i) ==>
          hit.sizeRate == if choices[i].sizes.Some? && a.weapon != "" && d.size != ""
            then choices[i].sizes.value(a.weapon, d.size) else 100)
    && ((forall i :: 0 <= i < |choices| ==> !choices[i].WithSizeFix?) ==> hit.sizeRate == 100)
    && (forall i: nat :: LastRoll(choices, i) ==>
          hit.crit == choices[i].roll.crit && hit.miss == (!choices[i].roll.hit && !choices[i].roll.crit))
    && ((forall i :: 0 <= i < |choices| ==> !choices[i].WithRoll?) ==> !hit.crit && !hit.miss)
  }

  /** Later options override earlier ones: the last of a kind decides. */
  lemma {:induction false} LastDecides(choices: seq<Choice>, c: Config)
    ensures var r := Configured(choices, c);
      && (forall i: nat :: LastElement(choices, i) ==> r.attrs == choices[i].attrs)
      && ((forall i :: 0 <= i < |choices| ==> !choices[i].WithAttributeFix?) ==> r.attrs == c.attrs)
      && (forall i: nat :: LastSize(choices, i) ==> r.sizes == choices[i].sizes)
      && ((forall i :: 0 <= i < |choices| ==> !choices[i].WithSizeFix?) ==> r.sizes == c.sizes)
      && (forall i: nat :: LastRoll(choices, i) ==> r.roll == choices[i].roll)
      && ((forall i :: 0 <= i < |choices| ==> !choices[i].WithRoll?) ==> r.roll == c.roll)
  {
    if choices != [] {
      var rest := choices[1..];
      LastDecides(rest, Apply(choices[0], c));
      assert forall i :: 1 <= i < |choices| ==> choices[i] == rest[i - 1];
      assert forall i: nat :: i > 0 && LastElement(choices, i) ==> LastElement(rest, i - 1);
      assert forall i: nat :: i > 0 && LastSize(choices, i) ==> LastSize(rest, i - 1);
      assert forall i: nat :: i > 0 && LastRoll(choices, i) ==> LastRoll(rest, i - 1);
    }
  }

  lemma MeleeReports(a: Attacker, d: Defender, m: Mode, choices: seq<Choice>)
    ensures var r := Melee(a, d, m, Configured(choices, DEFAULT));
      && (r.DivideByZero? <==> m.Renewal? && d.hardDEF == -400)
      && (r.Resolved? ==> Reports(r.hit, a, d, choices))
  {
    LastDecides(choices, DEFAULT);
    hide Configured, FinalDamage;
  }

  /** The attack of a hit, in the attacker's own numbers. */
  lemma MeleeAttack(a: Attacker, d: Defender, m: Mode, c: Config)
    ensures var r := Melee(a, d, m, c);
      r.Resolved? ==>
        r.hit.damage == FinalDamage(if m.Renewal? then 2 * a.batk + a.weaponATK else a.batk + a.weaponATK, d,
                                    r.hit.elementRate, r.hit.sizeRate, Roll(!r.hit.miss, r.hit.crit), m)
  {
    hide Reduced, ApplyPostDEF;
  }

  /** One more base attack does what two more weapon attack do in Renewal, and one before it. */
  lemma BaseCounts(a: Attacker, d: Defender, m: Mode, c: Config)
    ensures Melee(a.(batk := a.batk + 1), d, m, c) ==
            Melee(a.(weaponATK := a.weaponATK + if m.Renewal? then 2 else 1), d, m, c)
  {
    hide FinalDamage;
  }

  /** Against no defense and at neutral rates a hit does its attack, twice as a critical. */
  lemma UndefendedDamage(attack: int, d: Defender, roll: Roll, m: Mode)
    requires d.hardDEF == 0 && d.softDEF == 0 && !(!roll.hit && !roll.crit)
    ensures FinalDamage(attack, d, 100, 100, roll, m) ==
      (if roll.crit then 2 else 1) * (if m.Renewal? then Max(attack, 0) else Max(attack, 1))
  {
    TowardExact(attack, 100);
    TowardExact(attack, 4000);
    TowardExact(attack, 100);
    var x := Reduced(attack, 0, 0, m);
    assert x == if m.Renewal? then attack else Max(attack, 1);
    TowardExact(x, 100);
  }

  /** A connecting hit at neutral rates on a defender without defense. */
  predicate Undefended(d: Defender, hit: Hit) {
    d.hardDEF == 0 && d.softDEF == 0 && hit.elementRate == 100 && hit.sizeRate == 100 && !hit.miss
  }

  lemma MeleeUndefended(a: Attacker, d: Defender, m: Mode, c: Config)
    ensures var r := Melee(a, d, m, c);
      r.Resolved? && Undefended(d, r.hit) ==>
        r.hit.damage == (if r.hit.crit then 2 else 1) *
          (if m.Renewal? then Max(2 * a.batk + a.weaponATK, 0) else Max(a.batk + a.weaponATK, 1))
  {
    MeleeAttack(a, d, m, c);
    if d.hardDEF == 0 && d.softDEF == 0 && !IsMiss(c.roll) {
      UndefendedDamage(if m.Renewal? then 2 * a.batk + a.weaponATK else a.batk + a.weaponATK, d, c.roll, m);
    }
    hide FinalDamage, Configured;
  }

  /** Later options override earlier ones; the local damage value is reassigned stage by stage. */
  method NormalMelee(a: Attacker, d: Defender, m: Mode, choices: seq<Choice>) returns (r: Outcome)
    ensures r == Melee(a, d, m, Configured(choices, DEFAULT))
    ensures r.DivideByZero? <==> m.Renewal? && d.hardDEF == -400
    ensures r.Resolved? ==> Reports(r.hit, a, d, choices)
    ensures r.Resolved? ==>
      r.hit.damage == FinalDamage(if m.Renewal? then 2 * a.batk + a.weaponATK else a.batk + a.weaponATK, d,
                                  r.hit.elementRate, r.hit.sizeRate, Roll(!r.hit.miss, r.hit.crit), m)
    ensures r.Resolved? && Undefended(d, r.hit) ==>
      r.hit.damage == (if r.hit.crit then 2 else 1) *
        (if m.Renewal? then Max(2 * a.batk + a.weaponATK, 0) else Max(a.batk + a.weaponATK, 1))
  {
    MeleeReports(a, d, m, choices);
    MeleeAttack(a, d, m, Configured(choices, DEFAULT));
    MeleeUndefended(a, d, m, Configured(choices, DEFAULT));
    var c := DEFAULT;
    var i := 0;
    assert choices[0..] == choices;
    while i < |choices|
      invariant 0 <= i <= |choices|
      invariant Configured(choices[i..], c) == Configured(choices, DEFAULT)
    {
      assert choices[i..][1..] == choices[i + 1..];
      c := Apply(choices[i], c);
      i := i + 1;
    }
    assert choices[i..] == [];
    var e := ElementModifier(c.attrs, a.element, d.element, d.elementLevel);
    var s := SizeModifier(c.sizes, a.weapon, d.size);
    var miss := IsMiss(c.roll);
    var damage: int;
    match m
    case Renewal =>
      if 4000 + 10 * d.hardDEF == 0 {
        return DivideByZero;
      }
      damage := ReduceRenewal(2 * a.batk + a.weaponATK, d.hardDEF, d.softDEF);
      damage := ApplyPostDEF(damage, e, s, c.roll.crit);
      if miss {
        damage := 0;
      }
      return Resolved(Hit(Max(damage, 0), e, s, a.hitRate, a.critRate, c.roll.crit, miss));
    case PreRenewal =>
      damage := ReducePreRenewal(a.batk + a.weaponATK, d.hardDEF, d.softDEF);
      damage := Max(damage, 1);
      damage := ApplyPostDEF(damage, e, s, c.roll.crit);
      if miss {
        damage := 0;
      }
      return Resolved(Hit(damage, e, s, a.hitRate, a.critRate, c.roll.crit, miss));
  }

  /** With the zero roll, neither hit nor critical, as the last one given, an attack misses and does nothing. */
  lemma ZeroRollMisses(a: Attacker, d: Defender, m: Mode, choices: seq<Choice>, i: nat)
    requires LastRoll(choices, i) && choices[i].roll == Roll(false, false)
    ensures var r := Melee(a, d, m, Configured(choices, DEFAULT)); r.Resolved? ==> r.hit.miss && r.hit.damage == 0
  {
    MeleeReports(a, d, m, choices);
    LastDecides(choices, DEFAULT);
    hide Configured, Reduced, ApplyPostDEF;
  }

  // ----- the two divisions, by their bounds -----

  /** `q` is n/m rounded toward zero, for m > 0. */
  predicate RoundsTo(n: int, m: int, q: int) {
    if n >= 0 then q * m <= n < q * m + m else q * m - m < n <= q * m
  }

  lemma TowardRounds(n: int, m: int)
    requires m > 0
    ensures RoundsTo(n, m, Toward(n, m))
  {
    if n < 0 {
      var k := (0 - n) / m;
      assert 0 - n == k * m + (0 - n) % m;
      assert (0 - k) * m == 0 - k * m;
    } else {
      assert n == (n / m) * m + n % m;
    }
  }

  /** The bounds leave one quotient only. */
  lemma RoundsToOne(n: int, m: int, q: int, r: int)
    requires m > 0 && RoundsTo(n, m, q) && RoundsTo(n, m, r)
    ensures q == r
  {
    assert (q - r) * m == q * m - r * m;
    OnlyZero(q - r, m);
  }

  predicate HardReduced(attack: int, h: int, q: int) {
    RoundsTo(attack * (100 - h), 100, q)
  }

  /** Before Renewal: attack * (100 - HardDEF) / 100, rounded toward zero, less SoftDEF, and at least one. */
  lemma PreRenewalExact(attack: int, h: int, s: int)
    ensures exists q :: HardReduced(attack, h, q)
                        && Reduced(attack, h, s, PreRenewal) == if q - s >= 1 then q - s else 1
  {
    TowardRounds(attack * (100 - h), 100);
    assert HardReduced(attack, h, Toward(attack * (100 - h), 100));
  }

  /** In Renewal: attack * (4000 + HardDEF) / (4000 + 10 * HardDEF), rounded toward zero, less SoftDEF. */
  lemma RenewalExact(attack: int, h: int, s: int)
    requires h != -400
    ensures h > -400 ==> RoundsTo(attack * (4000 + h), 4000 + 10 * h, Reduced(attack, h, s, Renewal) + s)
    ensures h < -400 ==> RoundsTo(0 - attack * (4000 + h), 0 - (4000 + 10 * h), Reduced(attack, h, s, Renewal) + s)
  {
    if h > -400 {
      TowardRounds(attack * (4000 + h), 4000 + 10 * h);
    } else {
      TowardRounds(0 - attack * (4000 + h), 0 - (4000 + 10 * h));
    }
  }

  /** From `x` by the element percentage to `p`, from there by the size percentage to `q`. */
  predicate Stages(x: int, elementRate: int, sizeRate: int, p: int, q: int) {
    RoundsTo(x * elementRate, 100, p) && RoundsTo(p * sizeRate, 100, q)
  }

  /** The element percentage first, then the size percentage, each rounded toward zero, then the critical. */
  lemma RatesExact(x: int, elementRate: int, sizeRate: int, crit: bool)
    ensures exists p, q :: Stages(x, elementRate, sizeRate, p, q)
                           && ApplyPostDEF(x, elementRate, sizeRate, crit) == if crit then q + q else q
  {
    var p := Toward(x * elementRate, 100);
    var q := Toward(p * sizeRate, 100);
    TowardRounds(x * elementRate, 100);
    TowardRounds(p * sizeRate, 100);
    assert Stages(x, elementRate, sizeRate, p, q);
  }

  // ----- order -----

  /** Non-negative rates keep the order of damages, of any sign. */
  lemma PostDEFMonotone(x: int, y: int, elementRate: int, sizeRate: int, crit: bool)
    requires x <= y && elementRate >= 0 && sizeRate >= 0
    ensures ApplyPostDEF(x, elementRate, sizeRate, crit) <= ApplyPostDEF(y, elementRate, sizeRate, crit)
  {
    MulMonotone(elementRate, x, y);
    TowardMonotone(x * elementRate, y * elementRate, 100);
    var p, q := Toward(x * elementRate, 100), Toward(y * elementRate, 100);
    MulMonotone(sizeRate, p, q);
    TowardMonotone(p * sizeRate, q * sizeRate, 100);
  }

  /** A reduction that orders two damages, whatever the roll, orders the results. */
  lemma FinalFollows(attack1: int, d1: Defender, attack2: int, d2: Defender, e: int, s: int, roll: Roll, m: Mode)
    requires m.Renewal? ==> d1.hardDEF != -400 && d2.hardDEF != -400
    requires e >= 0 && s >= 0
    requires Reduced(attack1, d1.hardDEF, d1.softDEF, m) <= Reduced(attack2, d2.hardDEF, d2.softDEF, m)
             || (m.Renewal? && Reduced(attack1, d1.hardDEF, d1.softDEF, m) <= 0)
    ensures FinalDamage(attack1, d1, e, s, roll, m) <= FinalDamage(attack2, d2, e, s, roll, m)
  {
    var x, y := Reduced(attack1, d1.hardDEF, d1.softDEF, m), Reduced(attack2, d2.hardDEF, d2.softDEF, m);
    if x <= y {
      PostDEFMonotone(x, y, e, s, roll.crit);
    } else {
      PostDEFMonotone(x, 0, e, s, roll.crit);
      assert ApplyPostDEF(0, e, s, roll.crit) == 0;
    }
  }

  /** Damage never falls when the attack grows, under this condition on the defense. */
  predicate AttackCounts(hardDEF: int, softDEF: int, m: Mode) {
    if m.Renewal? then hardDEF > -400 || hardDEF <= -4000 || softDEF >= 0
    else hardDEF <= 100 || softDEF >= -1
  }

  lemma PreRenewalAttack(x: int, y: int, hardDEF: int, softDEF: int)
    requires 0 <= x <= y && AttackCounts(hardDEF, softDEF, PreRenewal)
    ensures Reduced(x, hardDEF, softDEF, PreRenewal) <= Reduced(y, hardDEF, softDEF, PreRenewal)
  {
    var n := 100 - hardDEF;
    if n >= 0 {
      MulMonotone(n, x, y);
      TowardMonotone(x * n, y * n, 100);
    } else {
      MulMonotone(0 - n, 0, x);
      assert x * n <= 0;
      TowardSign(x * n, 100);
    }
  }

  lemma RenewalAttack(x: int, y: int, hardDEF: int, softDEF: int)
    requires 0 <= x <= y && hardDEF != -400 && AttackCounts(hardDEF, softDEF, Renewal)
    ensures var p, q := Reduced(x, hardDEF, softDEF, Renewal), Reduced(y, hardDEF, softDEF, Renewal); p <= q || p <= 0
  {
    var n, d := 4000 + hardDEF, 4000 + 10 * hardDEF;
    if d > 0 {
      MulMonotone(n, x, y);
      TowardMonotone(x * n, y * n, d);
    } else if n <= 0 {
      MulMonotone(0 - n, x, y);
      assert 0 - x * n == x * (0 - n) && 0 - y * n == y * (0 - n);
      TowardMonotone(0 - x * n, 0 - y * n, 0 - d);
    } else {
      MulMonotone(n, 0, x);
      TowardSign(0 - x * n, 0 - d);
    }
  }

  /** Final damage is monotone in the attack for exactly the defenses of AttackCounts. */
  lemma AttackMonotone(x: int, y: int, d: Defender, e: int, s: int, roll: Roll, m: Mode)
    requires 0 <= x <= y && e >= 0 && s >= 0
    requires (m.Renewal? ==> d.hardDEF != -400) && AttackCounts(d.hardDEF, d.softDEF, m)
    ensures FinalDamage(x, d, e, s, roll, m) <= FinalDamage(y, d, e, s, roll, m)
  {
    if m.Renewal? {
      RenewalAttack(x, y, d.hardDEF, d.softDEF);
    } else {
      PreRenewalAttack(x, y, d.hardDEF, d.softDEF);
    }
    FinalFollows(x, d, y, d, e, s, roll, m);
  }

  /** Neutral rates leave a non-negative damage as it is. */
  lemma NeutralRates(x: int, crit: bool)
    requires x >= 0
    ensures ApplyPostDEF(x, 100, 100, crit) == if crit then 2 * x else x
  {
  }

  /** Where the condition fails, some stronger attack does less than none, already at neutral rates. */
  lemma AttackMonotoneFails(d: Defender, m: Mode) returns (y: int)
    requires (m.Renewal? ==> d.hardDEF != -400) && !AttackCounts(d.hardDEF, d.softDEF, m)
    ensures y > 0 && FinalDamage(0, d, 100, 100, Roll(true, false), m) > FinalDamage(y, d, 100, 100, Roll(true, false), m)
  {
    var h, s := d.hardDEF, d.softDEF;
    assert s < 0;
    if m.Renewal? {
      y := 0 - (4000 + 10 * h);
      RenewalReverses(h, s, y);
    } else {
      y := 100 * (0 - s);
      PreRenewalReverses(h, s, y);
    }
    hide Reduced, ApplyPostDEF, Quotient;
    NeutralRates(Reduced(0, h, s, m), false);
    var x := Reduced(y, h, s, m);
    if x >= 0 {
      NeutralRates(x, false);
    } else {
      PostDEFMonotone(x, 0, 100, 100, false);
      NeutralRates(0, false);
    }
  }

  /** The condition is exact. */
  lemma AttackMonotoneIff(d: Defender, m: Mode)
    requires m.Renewal? ==> d.hardDEF != -400
    ensures AttackCounts(d.hardDEF, d.softDEF, m) <==>
      forall x, y, e, s, roll :: 0 <= x <= y && e >= 0 && s >= 0 ==>
        FinalDamage(x, d, e, s, roll, m) <= FinalDamage(y, d, e, s, roll, m)
  {
    hide FinalDamage;
    if AttackCounts(d.hardDEF, d.softDEF, m) {
      forall x, y, e, s, roll | 0 <= x <= y && e >= 0 && s >= 0
        ensures FinalDamage(x, d, e, s, roll, m) <= FinalDamage(y, d, e, s, roll, m)
      {
        AttackMonotone(x, y, d, e, s, roll, m);
      }
    } else {
      var y := AttackMonotoneFails(d, m);
    }
  }

  lemma RenewalReverses(h: int, s: int, y: int)
    requires -4000 < h < -400 && s < 0 && y == 0 - (4000 + 10 * h)
    ensures Reduced(0, h, s, Renewal) == 0 - s > 0
    ensures Reduced(y, h, s, Renewal) < 0 - s
  {
    var n := 4000 + h;
    assert 0 - y * n == (0 - n) * y;
    TowardExact(0 - n, y);
    assert 0 * n == 0;
    TowardExact(0, y);
  }

  lemma PreRenewalReverses(h: int, s: int, y: int)
    requires h > 100 && s < -1 && y == 100 * (0 - s)
    ensures Reduced(0, h, s, PreRenewal) == 0 - s > 1
    ensures Reduced(y, h, s, PreRenewal) == 1
  {
    var n := 100 - h;
    assert y * n == ((0 - s) * n) * 100;
    TowardExact((0 - s) * n, 100);
    MulMonotone(0 - s, n, -1);
    assert n * (0 - s) == (0 - s) * n;
    assert 0 * n == 0;
  }

  lemma TowardExact(q: int, b: int)
    requires b > 0
    ensures Toward(q * b, b) == q
  {
    if q >= 0 {
      assert q * b >= 0;
      DivExact(q, b);
    } else {
      assert 0 - q * b == (0 - q) * b;
      MulMonotone(b, 0, 0 - q);
      DivExact(0 - q, b);
    }
  }

  lemma DivExact(q: int, b: int)
    requires b > 0 && q >= 0
    ensures (q * b) / b == q
  {
    var p := (q * b) / b;
    assert q * b == p * b + (q * b) % b;
    if p < q {
      MulMonotone(b, p + 1, q);
      assert false;
    }
    if p > q {
      MulMonotone(b, q + 1, p);
      assert false;
    }
  }

  /** More SoftDEF never does more damage. */
  lemma SoftDEFAntitone(attack: int, d: Defender, more: int, e: int, s: int, roll: Roll, m: Mode)
    requires e >= 0 && s >= 0 && more >= d.softDEF && (m.Renewal? ==> d.hardDEF != -400)
    ensures FinalDamage(attack, d.(softDEF := more), e, s, roll, m) <= FinalDamage(attack, d, e, s, roll, m)
  {
    FinalFollows(attack, d.(softDEF := more), attack, d, e, s, roll, m);
  }

  /** More HardDEF never does more damage to a non-negative attack; for Renewal above the pole at -400. */
  lemma HardDEFAntitone(attack: int, d: Defender, more: int, e: int, s: int, roll: Roll, m: Mode)
    requires attack >= 0 && e >= 0 && s >= 0 && more >= d.hardDEF && (m.Renewal? ==> d.hardDEF > -400)
    ensures FinalDamage(attack, d.(hardDEF := more), e, s, roll, m) <= FinalDamage(attack, d, e, s, roll, m)
  {
    if m.Renewal? {
      RatioAntitone(attack, d.hardDEF, more);
    } else {
      MulMonotone(attack, 100 - more, 100 - d.hardDEF);
      TowardMonotone(attack * (100 - more), attack * (100 - d.hardDEF), 100);
    }
    FinalFollows(attack, d.(hardDEF := more), attack, d, e, s, roll, m);
  }

  /** The Renewal ratio falls with HardDEF, also after rounding. */
  lemma RatioAntitone(x: int, h: int, k: int)
    requires x >= 0 && -400 < h <= k
    ensures Toward(x * (4000 + k), 4000 + 10 * k) <= Toward(x * (4000 + h), 4000 + 10 * h)
  {
    var a, b, c, d := 4000 + h, 4000 + 10 * h, 4000 + k, 4000 + 10 * k;
    CrossProducts(h, k);
    FractionOrder(x, a, b, c, d);
  }

  lemma CrossProducts(h: int, k: int)
    requires h <= k
    ensures (4000 + k) * (4000 + 10 * h) <= (4000 + h) * (4000 + 10 * k)
  {
    assert (4000 + h) * (4000 + 10 * k) - (4000 + k) * (4000 + 10 * h) == 36000 * (k - h);
  }

  /** When c/d <= a/b, so are the rounded multiples. */
  lemma FractionOrder(x: int, a: int, b: int, c: int, d: int)
    requires x >= 0 && a >= 0 && c >= 0 && b > 0 && d > 0 && c * b <= a * d
    ensures Toward(x * c, d) <= Toward(x * a, b)
  {
    MulMonotone(c, 0, x);
    MulMonotone(a, 0, x);
    var p, q := (x * c) / d, (x * a) / b;
    assert p * d <= x * c && x * a < (q + 1) * b by {
      assert x * c == p * d + (x * c) % d && x * a == q * b + (x * a) % b;
      assert (q + 1) * b == q * b + b;
    }
    Crossed(x, a, b, c, d, p, q + 1);
  }

  lemma Crossed(x: int, a: int, b: int, c: int, d: int, p: int, r: int)
    requires x >= 0 && b > 0 && d > 0 && c * b <= a * d && p * d <= x * c && x * a < r * b
    ensures p < r
  {
    if p >= r {
      MulMonotone(b, p * d, x * c);
      MulMonotone(x, c * b, a * d);
      MulMonotone(d, x * a + 1, r * b);
      MulMonotone(b * d, r, p);
      Regroup(x, a, b, c, d, p, r);
      assert false;
    }
  }

  lemma Regroup(x: int, a: int, b: int, c: int, d: int, p: int, r: int)
    ensures (p * d) * b == p * (b * d) && (x * c) * b == (c * b) * x
    ensures (a * d) * x == (x * a) * d && (r * b) * d == r * (b * d)
    ensures (x * a + 1) * d == (x * a) * d + d
  {
  }

  // ----- rolls -----

  /** A critical does exactly twice what a connecting hit without critical does. */
  lemma CriticalDoubles(attack: int, d: Defender, e: int, s: int, hit: bool, m: Mode)
    requires m.Renewal? ==> d.hardDEF != -400
    ensures FinalDamage(attack, d, e, s, Roll(hit, true), m) == 2 * FinalDamage(attack, d, e, s, Roll(true, false), m)
  {
    hide Quotient, Reduced;
  }

  /** Damage is never negative when the rates are not, and a miss does none. */
  lemma DamageNotNegative(attack: int, d: Defender, e: int, s: int, roll: Roll, m: Mode)
    requires (m.Renewal? ==> d.hardDEF != -400) && e >= 0 && s >= 0
    ensures FinalDamage(attack, d, e, s, roll, m) >= 0
    ensures IsMiss(roll) ==> FinalDamage(attack, d, e, s, roll, m) == 0
  {
    PostDEFMonotone(0, Max(Reduced(attack, d.hardDEF, d.softDEF, m), 0), e, s, roll.crit);
    assert ApplyPostDEF(0, e, s, roll.crit) == 0;
  }

  /** Before Renewal a connecting hit does at least one unless a rate is below 100. */
  lemma ConnectingHitHurts(attack: int, d: Defender, e: int, s: int, roll: Roll)
    requires e >= 100 && s >= 100 && !IsMiss(roll)
    ensures FinalDamage(attack, d, e, s, roll, PreRenewal) >= if roll.crit then 2 else 1
  {
    var x := Reduced(attack, d.hardDEF, d.softDEF, PreRenewal);
    RateAtLeast(x, e);
    RateAtLeast(Toward(x * e, 100), s);
  }

  lemma RateAtLeast(x: int, rate: int)
    requires x >= 1 && rate >= 100
    ensures Toward(x * rate, 100) >= x
  {
    MulMonotone(x, 100, rate);
    TowardMonotone(x * 100, x * rate, 100);
    TowardExact(x, 100);
  }

  /** With no negative defense and rates up to 200, a hit does at most eight times its attack, or eight. */
  lemma DamageBounded(attack: int, d: Defender, e: int, s: int, roll: Roll, m: Mode)
    requires attack >= 0 && d.hardDEF >= 0 && d.softDEF >= 0 && 0 <= e <= 200 && 0 <= s <= 200
    ensures FinalDamage(attack, d, e, s, roll, m) <= 8 * Max(attack, 1)
  {
    var zero := d.(hardDEF := 0, softDEF := 0);
    HardDEFAntitone(attack, d, d.hardDEF, e, s, roll, m);
    SoftDEFAntitone(attack, d.(softDEF := 0), d.softDEF, e, s, roll, m);
    HardDEFAntitone(attack, zero, d.hardDEF, e, s, roll, m);
    assert zero.(hardDEF := d.hardDEF) == d.(softDEF := 0) && d.(softDEF := 0).(softDEF := d.softDEF) == d;
    TowardExact(attack, 100);
    TowardExact(attack, 4000);
    var x := Reduced(attack, 0, 0, m);
    assert 0 <= x <= Max(attack, 1);
    RateAtMost(x, e);
    RateAtMost(Toward(x * e, 100), s);
  }

  lemma RateAtMost(x: int, rate: int)
    requires x >= 0 && 0 <= rate <= 200
    ensures 0 <= Toward(x * rate, 100) <= 2 * x
  {
    MulMonotone(x, rate, 200);
    MulMonotone(rate, 0, x);
    TowardMonotone(0, x * rate, 100);
    TowardMonotone(x * rate, x * 200, 100);
    TowardExact(2 * x, 100);
  }
}
