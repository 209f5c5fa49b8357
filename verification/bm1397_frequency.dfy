/** The BM1397 PLL frequency solver (`send_hash_frequency`, borrowed from
    cgminer's `calc_gsf_freq`). The requested frequency is taken in whole
    MHz, which makes every intermediate value of the source an integer; only
    the achieved frequency is a fraction, and it is a `real` here. */
module Bm1397Frequency {
  import opened Base

  const FREQ_MULT := 25
  const FA_MIN := 0x10
  const FA_MAX := 0xF0
  const MIN_FREQ := 100
  const MAX_FREQ := 800
  /** Frequency of the default register value kept when the solver fails. */
  const DEFAULT_FREQ: real := 200.0

  /** Register 0x08 (pll0_parameter) payload prefix: address byte, register, 0x40. */
  const PLL0_PREFIX: seq<byte> := [0x00, 0x08, 0x40]
  /** Register 0x70 (pll0_divider) payload written before the PLL parameters. */
  const PREFREQ_PAYLOAD: seq<byte> := [0x00, 0x70, 0x0F, 0x0F, 0x0F, 0x00]
  /** The 200 MHz default PLL parameters: fa = 0xA0, fb = 2, fc1 = 2, fc2 = 5. */
  const DEFAULT_FREQ_PAYLOAD: seq<byte> := [0x00, 0x08, 0x40, 0xA0, 0x02, 0x25]

  /** The requested frequency bounded to [100, 800] MHz. */
  function Clamp(frequency: int): (f1: int)
    ensures MIN_FREQ <= f1 <= MAX_FREQ
    ensures MIN_FREQ <= frequency <= MAX_FREQ ==> f1 == frequency
  {
    if frequency < MIN_FREQ then MIN_FREQ
    else if frequency > MAX_FREQ then MAX_FREQ
    else frequency
  }

  datatype Dividers = Dividers(fb: int, fc1: int, fc2: int) {
    function Product(): int { fb * fc1 * fc2 }
  }

  /** Divider stage and post-dividers: start from fb = 2, fc1 = 1, fc2 = 5
      (a multiplier of 10) and adjust by frequency band. */
  function ChooseDividers(f1: int): Dividers {
    if f1 >= 500 then Dividers(1, 1, 5)
    else if f1 <= 150 then Dividers(2, 3, 5)
    else if f1 <= 250 then Dividers(2, 2, 5)
    else Dividers(2, 1, 5)
  }

  /** `FREQ_MULT * ceil(x / FREQ_MULT)`: the least multiple of 25 that is at least `x`. */
  function RoundUpToStep(x: nat): (r: nat)
    ensures r % FREQ_MULT == 0
    ensures x <= r < x + FREQ_MULT
  {
    (x + 24) / 25 * 25
  }

  datatype PllSetting =
    | Programmed(fa: int, fb: int, fc1: int, fc2: int)
    | Fallback

  /** The solver for a request already clamped to [100, 800]. It would keep
      the default if `fa` fell outside [0x10, 0xF0], but for every clamped
      request it programs the band's dividers with the least `fa` whose
      frequency `fa * 25 / (fb * fc1 * fc2)` is not below the request. */
  function SolveClamped(f1: int): (r: PllSetting)
    requires MIN_FREQ <= f1 <= MAX_FREQ
    ensures var d := ChooseDividers(f1);
      && r.Programmed? && (r.fb, r.fc1, r.fc2) == (d.fb, d.fc1, d.fc2) && 100 <= r.fa <= 200
      && f1 * d.Product() <= r.fa * FREQ_MULT < f1 * d.Product() + FREQ_MULT
  {
    DividersInRange(f1);
    var d := ChooseDividers(f1);
    var basef := RoundUpToStep(f1 * d.Product());
    var fa := basef / FREQ_MULT;
    if fa < FA_MIN || fa > FA_MAX then Fallback
    else Programmed(fa, d.fb, d.fc1, d.fc2)
  }

  function Solve(frequency: int): PllSetting {
    SolveClamped(Clamp(frequency))
  }

  /** The frequency the chip runs at after programming (`newf`). */
  function Achieved(r: PllSetting): real
    requires r.Programmed? ==> r.fb * r.fc1 * r.fc2 > 0
  {
    match r
    case Fallback => DEFAULT_FREQ
    case Programmed(fa, fb, fc1, fc2) => (fa * FREQ_MULT) as real / (fb * fc1 * fc2) as real
  }

  /** The pll0_parameter payload: `{0x00, 0x08, 0x40, fa, fb, (fc1 & 0xf) << 4 | (fc2 & 0xf)}`,
      or the 200 MHz default. */
  function FreqPayload(r: PllSetting): (p: seq<byte>)
    requires r.Programmed? ==> 0 <= r.fa < 0x100 && 0 <= r.fb < 0x100 && r.fc1 >= 0 && r.fc2 >= 0
    ensures |p| == 6
  {
    match r
    case Fallback => DEFAULT_FREQ_PAYLOAD
    case Programmed(fa, fb, fc1, fc2) => PLL0_PREFIX + [fa, fb, (fc1 % 16) * 16 + fc2 % 16]
  }

  /** What a pll0_parameter payload programs the chip to: the chip-side
      reading of the register, independent of the solver. */
  function DecodeFreqPayload(p: seq<byte>): real
    requires |p| == 6
  {
    var fb, fc1, fc2 := p[4] as int, p[5] / 16, p[5] % 16;
    if fb * fc1 * fc2 == 0 then 0.0
    else (p[3] as int * FREQ_MULT) as real / (fb * fc1 * fc2) as real
  }

  // ---------------------------------------------------------------------
  // Properties

  /** Every band gives post-dividers in 1..15, and the scaled request
      `f1 * fb * fc1 * fc2` lies in [2500, 5000]. */
  lemma DividersInRange(f1: int)
    requires MIN_FREQ <= f1 <= MAX_FREQ
    ensures var d := ChooseDividers(f1);
      && d.fb in {1, 2} && 1 <= d.fc1 <= 15 && 1 <= d.fc2 <= 15
      && 2500 <= f1 * d.Product() <= 5000
  {
  }

  /** For every clamped request, `fa` lies in [100, 200], well inside
      [0x10, 0xF0]: the solver never falls back to the default. */
  lemma FaInRange(frequency: int)
    ensures var f1 := Clamp(frequency);
      var fa := RoundUpToStep(f1 * ChooseDividers(f1).Product()) / FREQ_MULT;
      100 <= fa <= 200
    ensures Solve(frequency).Programmed?
  {
    var f1 := Clamp(frequency);
    DividersInRange(f1);
  }

  /** The achieved frequency is never below the clamped request and exceeds
      it by less than one frequency step divided by the divider product. */
  lemma AchievedCloseAbove(frequency: int)
    ensures var f1 := Clamp(frequency);
      var d := ChooseDividers(f1);
      var r := Solve(frequency);
      && r.Programmed?
      && r.fb * r.fc1 * r.fc2 == d.Product() > 0
      && f1 as real <= Achieved(r) < f1 as real + FREQ_MULT as real / d.Product() as real
  {
    var f1 := Clamp(frequency);
    var d := ChooseDividers(f1);
    FaInRange(frequency);
    DividersInRange(f1);
    var basef := RoundUpToStep(f1 * d.Product());
    var r := Solve(frequency);
    assert r.fa * FREQ_MULT == basef;
    DivisionBounds(f1, d.Product(), basef, FREQ_MULT);
  }

  lemma DivisionBounds(f: int, p: int, b: int, m: int)
    requires p > 0 && f * p <= b < f * p + m
    ensures f as real <= b as real / p as real < f as real + m as real / p as real
  {
    assert b as real / p as real - f as real == (b - f * p) as real / p as real;
  }

  /** Reading the register bytes back gives the achieved frequency, for the
      solved program and for the default alike. */
  lemma PayloadEncodesAchieved(frequency: int)
    ensures var r := Solve(frequency);
      && r.Programmed?
      && FreqPayload(r)[..3] == PLL0_PREFIX
      && FreqPayload(r)[3] == r.fa && FreqPayload(r)[4] == r.fb
      && FreqPayload(r)[5] / 16 == r.fc1 && FreqPayload(r)[5] % 16 == r.fc2
      && DecodeFreqPayload(FreqPayload(r)) == Achieved(r)
  {
    FaInRange(frequency);
    DividersInRange(Clamp(frequency));
  }

  lemma DefaultPayloadIs200MHz()
    ensures DecodeFreqPayload(FreqPayload(Fallback)) == DEFAULT_FREQ == Achieved(Fallback)
  {
    assert FreqPayload(Fallback)[5] / 16 == 2;
    assert FreqPayload(Fallback)[5] % 16 == 5;
  }
}
