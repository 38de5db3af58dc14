/** The counting game of routes/nabeatsu.js: the "aho" rule, the sequence that
    GET /game-data derives from the single config row, and the validation and
    field mapping of PUT /settings. */
module Nabeatsu {
  import opened Common
  import opened Decimal

  /** The sound every sequence ends with, whatever the configuration. */
  const EndingSound: string := "https://www.myinstants.com/media/sounds/meme-de-creditos-finales.mp3"

  // ---------------------------------------------------------------------------
  // The aho rule
  // ---------------------------------------------------------------------------

  function Abs(x: int): nat {
    if x < 0 then -x else x
  }

  /** JavaScript's `a % b` for a nonzero divisor: the remainder of truncating
      division, which takes the sign of `a`. */
  function JsRemainder(a: int, b: int): (r: int)
    requires b != 0
    ensures Abs(r) < Abs(b)
    ensures a >= 0 ==> r >= 0
    ensures a < 0 ==> r <= 0
    ensures (a - r) % b == 0
  {
    var m := Abs(a) % Abs(b);
    var q := Abs(a) / Abs(b);
    var r := if a < 0 then -m else m;
    assert a - r == (if a < 0 then -q else q) * Abs(b) by {
      assert Abs(a) == q * Abs(b) + m;
    }
    ModOfMagnitude(a - r, b);
    DivisionUnique(a - r, Abs(b), (a - r) / Abs(b), if a < 0 then -q else q, (a - r) % Abs(b), 0);
    r
  }

  /** The truncated remainder is zero exactly when the Euclidean one is: the
      sign convention does not matter for a divisibility test. */
  lemma JsRemainderZero(a: int, b: int)
    requires b != 0
    ensures JsRemainder(a, b) == 0 <==> a % b == 0
  {
    NegatedModZero(Abs(a), Abs(b));
    ModOfMagnitude(a, b);
  }

  lemma MulAtLeast(k: int, d: int)
    requires k >= 1 && d > 0
    ensures k * d >= d
    decreases k
  {
    if k > 1 {
      MulAtLeast(k - 1, d);
      assert k * d == (k - 1) * d + d;
    }
  }

  /** Quotient and remainder in [0, d) are unique. */
  lemma DivisionUnique(n: int, d: int, q1: int, q2: int, r1: int, r2: int)
    requires d > 0
    requires 0 <= r1 < d && 0 <= r2 < d
    requires n == q1 * d + r1 && n == q2 * d + r2
    ensures r1 == r2
  {
    if q1 < q2 {
      assert (q2 - q1) * d == q2 * d - q1 * d;
      MulAtLeast(q2 - q1, d);
    } else if q1 > q2 {
      assert (q1 - q2) * d == q1 * d - q2 * d;
      MulAtLeast(q1 - q2, d);
    }
  }

  /** `-m` is divisible by `d` exactly when `m` is. */
  lemma NegatedModZero(m: int, d: int)
    requires d > 0
    ensures (-m) % d == 0 <==> m % d == 0
  {
    assert m == (m / d) * d + m % d;
    assert -m == ((-m) / d) * d + (-m) % d;
    if m % d == 0 {
      assert -m == (-(m / d)) * d + 0;
      DivisionUnique(-m, d, (-m) / d, -(m / d), (-m) % d, 0);
    }
    if (-m) % d == 0 {
      assert m == (-((-m) / d)) * d + 0;
      DivisionUnique(m, d, m / d, -((-m) / d), m % d, 0);
    }
  }

  /** Dafny's `%` depends only on the divisor's magnitude. */
  lemma ModOfMagnitude(a: int, b: int)
    requires b != 0
    ensures a % b == a % Abs(b)
  {
    if b < 0 {
      assert a == (a / b) * b + a % b;
      assert a == (a / Abs(b)) * Abs(b) + a % Abs(b);
      assert (a / b) * b == (-(a / b)) * Abs(b);
      DivisionUnique(a, Abs(b), -(a / b), a / Abs(b), a % b, a % Abs(b));
    }
  }

  /** The JavaScript test `number % specialNum === 0`, for every divisor. */
  lemma MultipleTest(number: int, specialNum: int)
    ensures (specialNum != 0 && JsRemainder(number, specialNum) == 0) <==>
      (specialNum != 0 && number % specialNum == 0)
  {
    if specialNum != 0 { JsRemainderZero(number, specialNum); }
  }

  /** `checkAho(number, specialNum)`: a multiple of `specialNum`, or a numeral
      in which the numeral of `specialNum` appears. A zero `specialNum` makes
      JavaScript's remainder NaN, which is never `=== 0`. */
  function CheckAho(number: int, specialNum: int): (aho: bool)
    ensures aho <==>
      (specialNum != 0 && number % specialNum == 0)
      || exists i :: OccursAt(IntToString(number), IntToString(specialNum), i)
  {
    var isMultiple := specialNum != 0 && JsRemainder(number, specialNum) == 0;
    MultipleTest(number, specialNum);
    var hasDigit := Contains(IntToString(number), IntToString(specialNum));
    isMultiple || hasDigit
  }

  /** With 3 as the special number: 1 and 2 are plain, 3 is aho as a multiple,
      and 13 is aho only because its numeral contains "3". */
  lemma ThreeExamples()
    ensures !CheckAho(1, 3) && !CheckAho(2, 3)
    ensures CheckAho(3, 3)
    ensures CheckAho(13, 3) && 13 % 3 != 0
  {
    assert IntToString(1) == "1" && IntToString(2) == "2" && IntToString(3) == "3";
    assert IntToString(13) == "13" by {
      assert NatToString(13) == NatToString(1) + [DigitChar(3)];
    }
    assert OccursAt("13", "3", 1);
  }

  // ---------------------------------------------------------------------------
  // The config row and the sequence derived from it
  // ---------------------------------------------------------------------------

  /** The `game_config` row with id 1. The asset columns are nullable TEXT. */
  datatype GameConfig = GameConfig(
    startNum: int,
    endNum: int,
    specialNum: int,
    magicWord: Option<string>,
    ahoText: Option<string>,
    ahoImageUrl: Option<string>,
    ahoSoundUrl: Option<string>)

  /** A step's `assets` object: which of its three keys are present. */
  datatype Assets = Assets(text: Option<string>, image: Option<string>, sound: Option<string>)

  const NoAssets: Assets := Assets(None, None, None)

  /** One entry of the generated sequence. `value` is NULL only when the
      terminal entry's magic word is. */
  datatype Step = Step(step: int, value: Option<string>, isAho: bool, assets: Assets)

  /** The body of GET /game-data: the config echoed back and the sequence. */
  datatype GameData = GameData(config: GameConfig, sequence: seq<Step>)

  /** The entry for the number `i`: its numeral, the aho rule, and on an aho
      step every configured (truthy) asset. */
  function StepFor(config: GameConfig, i: int): (s: Step)
    ensures s.step == i && s.value == Some(IntToString(i))
    ensures s.isAho == CheckAho(i, config.specialNum)
    ensures !s.isAho ==> s.assets == NoAssets
    ensures s.isAho ==> (s.assets.text.Some? <==> Truthy(config.ahoText))
    ensures s.isAho ==> (s.assets.image.Some? <==> Truthy(config.ahoImageUrl))
    ensures s.isAho ==> (s.assets.sound.Some? <==> Truthy(config.ahoSoundUrl))
    ensures s.assets.text.Some? ==> s.assets.text == config.ahoText
    ensures s.assets.image.Some? ==> s.assets.image == config.ahoImageUrl
    ensures s.assets.sound.Some? ==> s.assets.sound == config.ahoSoundUrl
  {
    var isAho := CheckAho(i, config.specialNum);
    var assets :=
      if isAho then Assets(OrNull(config.ahoText), OrNull(config.ahoImageUrl), OrNull(config.ahoSoundUrl))
      else NoAssets;
    Step(i, Some(IntToString(i)), isAho, assets)
  }

  /** The closing entry: one past the end, the magic word, always aho, and only
      the fixed ending sound. */
  function Terminal(config: GameConfig): (s: Step)
    ensures s.step == config.endNum + 1 && s.value == config.magicWord && s.isAho
    ensures s.assets.text.None? && s.assets.image.None? && s.assets.sound == Some(EndingSound)
  {
    Step(config.endNum + 1, config.magicWord, true, Assets(None, None, Some(EndingSound)))
  }

  /** How many numbers `for (let i = start; i <= end; i++)` visits. */
  function NumberCount(config: GameConfig): nat {
    if config.startNum <= config.endNum then config.endNum - config.startNum + 1 else 0
  }

  /** The whole sequence: one entry per number of [start, end], then the
      terminal entry. */
  function GameSequence(config: GameConfig): (r: seq<Step>)
    ensures |r| == NumberCount(config) + 1
    ensures forall j | 0 <= j < |r| - 1 ::
      r[j].step == config.startNum + j && r[j].value == Some(IntToString(config.startNum + j))
    ensures forall j | 0 <= j < |r| - 1 :: r[j].isAho == CheckAho(config.startNum + j, config.specialNum)
    ensures forall j | 0 <= j < |r| - 1 :: !r[j].isAho ==> r[j].assets == NoAssets
    ensures forall j | 0 <= j < |r| - 1 :: r[j] == StepFor(config, config.startNum + j)
    ensures r[|r| - 1] == Terminal(config)
  {
    var numbered := seq(NumberCount(config), j => StepFor(config, config.startNum + j));
    var r := numbered + [Terminal(config)];
    assert forall j | 0 <= j < |r| - 1 :: r[j] == StepFor(config, config.startNum + j);
    r
  }

  /** The loop of the GET /game-data handler: it walks `i` from `start_num` to
      `end_num`, fills each entry's `assets` one key at a time, and pushes the
      terminal entry at the end. */
  method GenerateSequence(config: GameConfig) returns (sequence: seq<Step>)
    ensures sequence == GameSequence(config)
  {
    sequence := [];
    var i := config.startNum;
    while i <= config.endNum
      invariant config.startNum <= i
      invariant i <= config.endNum + 1 || i == config.startNum
      invariant |sequence| == i - config.startNum
      invariant forall j | 0 <= j < |sequence| :: sequence[j] == StepFor(config, config.startNum + j)
    {
      var isAho := CheckAho(i, config.specialNum);
      var assets := NoAssets;
      if isAho {
        if Truthy(config.ahoText) { assets := assets.(text := config.ahoText); }
        if Truthy(config.ahoImageUrl) { assets := assets.(image := config.ahoImageUrl); }
        if Truthy(config.ahoSoundUrl) { assets := assets.(sound := config.ahoSoundUrl); }
      }
      assert Step(i, Some(IntToString(i)), isAho, assets) == StepFor(config, i);
      sequence := sequence + [Step(i, Some(IntToString(i)), isAho, assets)];
      i := i + 1;
    }
    assert |sequence| == NumberCount(config);
    sequence := sequence + [Terminal(config)];
    var expected := GameSequence(config);
    forall j | 0 <= j < |sequence|
      ensures sequence[j] == expected[j]
    {
      if j < |sequence| - 1 {
        assert sequence[j] == StepFor(config, config.startNum + j);
      }
    }
  }

  /** start 1, end 3, special 3: the entries for 1 and 2 are plain, the entry
      for 3 is aho, and the terminal entry is step 4 with the magic word. */
  lemma OneToThreeExample(word: Option<string>)
    ensures var s := GameSequence(GameConfig(1, 3, 3, word, None, None, None));
      && |s| == 4
      && !s[0].isAho && !s[1].isAho && s[2].isAho
      && s[3] == Step(4, word, true, Assets(None, None, Some(EndingSound)))
  {
    var s := GameSequence(GameConfig(1, 3, 3, word, None, None, None));
    ThreeExamples();
    assert s[0].isAho == CheckAho(1, 3);
    assert s[1].isAho == CheckAho(2, 3);
    assert s[2].isAho == CheckAho(3, 3);
  }

  // ---------------------------------------------------------------------------
  // PUT /settings
  // ---------------------------------------------------------------------------

  /** The body of PUT /settings, numbers already parsed; `None` is a missing
      field. */
  datatype SettingsInput = SettingsInput(
    startNum: Option<int>,
    endNum: Option<int>,
    specialNum: Option<int>,
    magicWord: Option<string>,
    ahoText: Option<string>,
    ahoImageUrl: Option<string>,
    ahoSoundUrl: Option<string>)

  /** Which guard rejected a settings body, in the order they are tried. */
  datatype SettingsError = NumbersRequired | StartNotBelowEnd | SpecialNotPositive

  /** JavaScript truthiness of a parsed number: present and not 0. */
  predicate GivenNumber(n: Option<int>) {
    n.Some? && n.value != 0
  }

  /** The acceptance condition of PUT /settings. */
  predicate AcceptableSettings(input: SettingsInput) {
    && GivenNumber(input.startNum) && GivenNumber(input.endNum) && GivenNumber(input.specialNum)
    && input.startNum.value < input.endNum.value
    && input.specialNum.value > 0
  }

  /** The three guards of PUT /settings, tried in order. */
  function ValidateSettings(input: SettingsInput): (e: Option<SettingsError>)
    ensures e.None? <==> AcceptableSettings(input)
    ensures e == Some(NumbersRequired) <==>
      !(GivenNumber(input.startNum) && GivenNumber(input.endNum) && GivenNumber(input.specialNum))
    ensures e == Some(StartNotBelowEnd) ==> input.startNum.value >= input.endNum.value
    ensures e == Some(SpecialNotPositive) ==>
      input.startNum.value < input.endNum.value && input.specialNum.value < 0
  {
    if !GivenNumber(input.startNum) || !GivenNumber(input.endNum) || !GivenNumber(input.specialNum) then
      Some(NumbersRequired)
    else if input.startNum.value >= input.endNum.value then
      Some(StartNotBelowEnd)
    else if input.specialNum.value <= 0 then
      Some(SpecialNotPositive)
    else
      None
  }

  /** The row accepted settings are written as: the numbers and the magic word
      as sent, each asset URL NULL unless truthy. */
  function SettingsRow(input: SettingsInput): (c: GameConfig)
    requires AcceptableSettings(input)
    ensures c.startNum == input.startNum.value && c.endNum == input.endNum.value
    ensures c.specialNum == input.specialNum.value
    ensures c.startNum < c.endNum && c.specialNum > 0
    ensures c.magicWord == input.magicWord
    ensures c.ahoText.None? <==> !Truthy(input.ahoText)
    ensures c.ahoImageUrl.None? <==> !Truthy(input.ahoImageUrl)
    ensures c.ahoSoundUrl.None? <==> !Truthy(input.ahoSoundUrl)
    ensures c.ahoText.Some? ==> c.ahoText == input.ahoText
    ensures c.ahoImageUrl.Some? ==> c.ahoImageUrl == input.ahoImageUrl
    ensures c.ahoSoundUrl.Some? ==> c.ahoSoundUrl == input.ahoSoundUrl
  {
    GameConfig(
      input.startNum.value, input.endNum.value, input.specialNum.value, input.magicWord,
      OrNull(input.ahoText), OrNull(input.ahoImageUrl), OrNull(input.ahoSoundUrl))
  }

  /** After accepted settings the game has at least two numbered entries,
      exactly end - start + 2 entries in all, and never meets the NaN case of
      the remainder. */
  lemma AcceptedSettingsSequence(input: SettingsInput)
    requires AcceptableSettings(input)
    ensures var c := SettingsRow(input);
      && |GameSequence(c)| == c.endNum - c.startNum + 2
      && |GameSequence(c)| >= 3
      && c.specialNum != 0
  {
  }

  /** The `game_config` table, reduced to its row with id 1 (absent until
      seeded). */
  class GameConfigTable {
    var row: Option<GameConfig>

    constructor (initial: Option<GameConfig>)
      ensures row == initial
    {
      row := initial;
    }

    /** GET /game-data: 404 without a config row, otherwise the row and the
        sequence derived from it. Nothing is written. */
    method GetGameData() returns (r: Result<GameData>)
      ensures row.None? ==> r == Err(NotFound)
      ensures row.Some? ==> r == Ok(GameData(row.value, GameSequence(row.value)))
    {
      if row.None? {
        return Err(NotFound);
      }
      var config := row.value;
      var sequence := GenerateSequence(config);
      r := Ok(GameData(config, sequence));
    }

    /** PUT /settings: a rejected body answers 400 and leaves the row alone;
        an accepted one overwrites all seven fields of row 1 and returns it.
        When row 1 does not exist the UPDATE matches nothing and the answer
        carries no row. */
    method UpdateSettings(input: SettingsInput) returns (r: Result<Option<GameConfig>>)
      modifies this
      ensures !AcceptableSettings(input) ==> r == Err(BadRequest) && row == old(row)
      ensures AcceptableSettings(input) && old(row).Some? ==>
        row == Some(SettingsRow(input)) && r == Ok(row)
      ensures AcceptableSettings(input) && old(row).None? ==> row == None && r == Ok(None)
    {
      var e := ValidateSettings(input);
      if e.Some? {
        return Err(BadRequest);
      }
      if row.Some? {
        row := Some(SettingsRow(input));
      }
      r := Ok(row);
    }
  }
}
