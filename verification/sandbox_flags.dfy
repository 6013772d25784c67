/**
  `--sandbox-flag=NAME|NUMBER`: each occurrence ORs bits into the
  sandbox-flags mask sent to the portal. Five names are known; any other
  text must be a decimal number greater than zero, which lets callers pass
  flags this client does not know by name yet.
 */
module SandboxFlags {
  import opened Basics

  const SHARE_DISPLAY: bv32 := 1
  const SHARE_SOUND: bv32 := 2
  const SHARE_GPU: bv32 := 4
  const ALLOW_DBUS: bv32 := 8
  const ALLOW_A11Y: bv32 := 16
  /** The largest value a uint32 D-Bus argument can carry. */
  const UINT32_MAX: int := 0xFFFF_FFFF

  /** The bit a flag name stands for, if it is one of the five names. */
  function NamedFlag(value: string): (r: Option<bv32>)
    ensures r.Some? ==> r.value != 0 && r.value & (r.value - 1) == 0
  {
    if value == "share-display" then Some(SHARE_DISPLAY)
    else if value == "share-sound" then Some(SHARE_SOUND)
    else if value == "share-gpu" then Some(SHARE_GPU)
    else if value == "allow-dbus" then Some(ALLOW_DBUS)
    else if value == "allow-a11y" then Some(ALLOW_A11Y)
    else None
  }

  /** A numeric flag value is accepted when strtol consumes the whole text
      and yields something greater than zero: with the sign and blanks
      strtol would also take left out, that is a non-empty run of digits
      whose value is not zero. */
  predicate IsPositiveDecimal(value: string) {
    |value| > 0 && AllDigits(value) && DecimalValue(value) > 0
  }

  /** strtol stops at the end of the text exactly when the text is all
      digits, and then its value is the decimal value, saturated. */
  lemma WholeTextParsed(value: string)
    ensures ParseLong(value).consumed == |value| <==> AllDigits(value)
    ensures AllDigits(value) ==> ParseLong(value).value == Saturated(DecimalValue(value))
  {
    var n := DigitPrefixLength(value);
    if n < |value| {
      assert !IsDigit(value[n]);
    } else {
      assert value[..n] == value;
    }
  }

  function Saturated(v: nat): int {
    if v > LONG_MAX then LONG_MAX else v
  }

  /** The number a non-name flag value stands for: strtol must consume the
      whole text and return something greater than zero. */
  function NumericFlag(value: string): (r: Option<int>)
    ensures r.Some? <==> IsPositiveDecimal(value)
    ensures r.Some? ==> r.value == Saturated(DecimalValue(value)) && r.value > 0
  {
    WholeTextParsed(value);
    var parsed := ParseLong(value);
    if parsed.value > 0 && parsed.consumed == |value| then Some(parsed.value) else None
  }

  datatype FlagError = UnknownSandboxFlag(value: string)

  /** A value the callback as written takes: one of the names, or any
      decimal number greater than zero. */
  predicate AcceptedAsWritten(value: string) {
    NamedFlag(value).Some? || IsPositiveDecimal(value)
  }

  /** The bits the callback as written ORs in: a name's own bit, or the
      low 32 bits of the (saturated) strtol result. */
  function WrittenBits(value: string): bv32
    requires AcceptedAsWritten(value)
  {
    match NamedFlag(value)
    case Some(bit) => bit
    case None => Low32(Saturated(DecimalValue(value)))
  }

  /** The flag callback exactly as written: the strtol result (a `long`) is
      ORed into a variable declared `gboolean`, an `int`, so only its low
      32 bits survive. */
  function SandboxFlagAsWritten(mask: bv32, value: string): (r: Result<bv32, FlagError>)
    ensures r.Ok? <==> AcceptedAsWritten(value)
    ensures r.Ok? ==> r.value == mask | WrittenBits(value)
    ensures r.Err? ==> r.error == UnknownSandboxFlag(value)
  {
    match NamedFlag(value)
    case Some(bit) => Ok(mask | bit)
    case None =>
      match NumericFlag(value)
      case Some(n) => Ok(mask | Low32(n))
      case None => Err(UnknownSandboxFlag(value))
  }

  /** Any accepted number that is a multiple of 2^32 contributes no bit at
      all: the option is taken and silently has no effect. */
  lemma TruncatedFlagVanishes(mask: bv32, value: string)
    requires NamedFlag(value).None? && IsPositiveDecimal(value)
    requires DecimalValue(value) <= LONG_MAX && DecimalValue(value) % U32_LIMIT == 0
    ensures SandboxFlagAsWritten(mask, value) == Ok(mask)
    ensures SandboxFlag(mask, value).Err?
  {
    Low32Zero(DecimalValue(value));
  }

  /** The smallest such value: `--sandbox-flag=4294967296`. */
  lemma TruncatedFlagExample()
    ensures SandboxFlagAsWritten(0, "4294967296") == Ok(0)
  {
    TwoToThe32();
    TruncatedFlagVanishes(0, "4294967296");
  }

  lemma TwoToThe32()
    ensures AllDigits("4294967296") && DecimalValue("4294967296") == 4294967296
  {
    DigitStep("", '4', "4", 0);
    DigitStep("4", '2', "42", 4);
    DigitStep("42", '9', "429", 42);
    DigitStep("429", '4', "4294", 429);
    DigitStep("4294", '9', "42949", 4294);
    DigitStep("42949", '6', "429496", 42949);
    DigitStep("429496", '7', "4294967", 429496);
    DigitStep("4294967", '2', "42949672", 4294967);
    DigitStep("42949672", '9', "429496729", 42949672);
    DigitStep("429496729", '6', "4294967296", 429496729);
  }

  /** One more digit on the right of a digit string whose value is known. */
  lemma DigitStep(prefix: string, c: char, s: string, v: nat)
    requires AllDigits(prefix) && DecimalValue(prefix) == v && IsDigit(c) && s == prefix + [c]
    ensures AllDigits(s) && DecimalValue(s) == 10 * v + ((c as int) - ('0' as int))
  {
    DecimalSnoc(prefix, c);
  }

  /** A value the corrected callback takes: one of the names, or a number
      greater than zero that fits in 32 bits. */
  predicate AcceptedFlag(value: string) {
    NamedFlag(value).Some? || (IsPositiveDecimal(value) && DecimalValue(value) <= UINT32_MAX)
  }

  /** The flag callback with the evident intent restored: a numeric value
      must also fit the uint32 the portal receives, so every accepted flag
      contributes at least one bit. */
  function SandboxFlag(mask: bv32, value: string): (r: Result<bv32, FlagError>)
    ensures r.Ok? <==> AcceptedFlag(value)
    ensures r.Ok? ==> r.value == mask | FlagBits(value)
    ensures r.Err? ==> r.error == UnknownSandboxFlag(value)
  {
    match NamedFlag(value)
    case Some(bit) => Ok(mask | bit)
    case None =>
      match NumericFlag(value)
      case Some(n) =>
        if n <= UINT32_MAX then Ok(mask | Low32(n))
        else Err(UnknownSandboxFlag(value))
      case None => Err(UnknownSandboxFlag(value))
  }

  /** The bits an accepted value stands for: a name's own bit, or the
      number itself. */
  function FlagBits(value: string): bv32
    requires AcceptedFlag(value)
  {
    match NamedFlag(value)
    case Some(bit) => bit
    case None => Low32(DecimalValue(value))
  }

  /** Every accepted value stands for at least one bit, so the corrected
      parser always changes a mask that was empty. */
  lemma FlagBitsNonZero(value: string)
    requires AcceptedFlag(value)
    ensures FlagBits(value) != 0
  {
    if NamedFlag(value).None? {
      Low32Zero(DecimalValue(value));
    }
  }

  /** A mask a flag has been added to is not empty. */
  lemma FlagSetsSomeBit(mask: bv32, value: string)
    ensures SandboxFlag(mask, value).Ok? ==> SandboxFlag(mask, value).value != 0
  {
    if AcceptedFlag(value) {
      FlagBitsNonZero(value);
      OrNonZero(mask, FlagBits(value));
    }
  }

  /** ORing in a non-zero value leaves a non-zero mask. */
  lemma OrNonZero(mask: bv32, bits: bv32)
    requires bits != 0
    ensures mask | bits != 0
  {
  }
  /** Every `--sandbox-flag` in command-line order, through the callback
      as the option parser runs it; the first unknown value fails the
      option parse, and the error names it. */
  function SandboxMask(values: seq<string>): (r: Result<bv32, FlagError>)
    ensures r.Err? ==>
      exists i :: 0 <= i < |values| && !AcceptedAsWritten(values[i]) && r.error == UnknownSandboxFlag(values[i])
    decreases |values|
  {
    if |values| == 0 then Ok(0)
    else
      var init := values[..|values| - 1];
      match SandboxMask(init)
      case Err(e) =>
        assert forall i :: 0 <= i < |init| ==> init[i] == values[i];
        Err(e)
      case Ok(mask) => SandboxFlagAsWritten(mask, values[|values| - 1])
  }

  /** A mask is produced exactly when every value is a name or a positive
      decimal number. */
  lemma {:induction false} MaskAcceptsAll(values: seq<string>)
    ensures SandboxMask(values).Ok? <==> forall i :: 0 <= i < |values| ==> AcceptedAsWritten(values[i])
    decreases |values|
  {
    if |values| > 0 {
      var init := values[..|values| - 1];
      MaskAcceptsAll(init);
      MaskOkStep(values);
      AllTakenStep(values);
    }
  }

  /** Every value of a non-empty list is taken as written exactly when
      every one but the last is and the last one is too. */
  lemma AllTakenStep(values: seq<string>)
    requires |values| > 0
    ensures var init := values[..|values| - 1];
      (forall i :: 0 <= i < |values| ==> AcceptedAsWritten(values[i])) <==>
        (forall i :: 0 <= i < |init| ==> AcceptedAsWritten(init[i])) && AcceptedAsWritten(values[|values| - 1])
  {
    var init := values[..|values| - 1];
    assert forall i :: 0 <= i < |init| ==> init[i] == values[i];
  }

  /** A mask is produced for a list exactly when one is produced for all
      but its last value and that value is taken. */
  lemma MaskOkStep(values: seq<string>)
    requires |values| > 0
    ensures SandboxMask(values).Ok? <==>
      SandboxMask(values[..|values| - 1]).Ok? && AcceptedAsWritten(values[|values| - 1])
  {
    var init := SandboxMask(values[..|values| - 1]);
    if init.Ok? {
      assert SandboxMask(values) == SandboxFlagAsWritten(init.value, values[|values| - 1]);
    }
  }

  /** Some bit of `bit` is set in `mask`. */
  predicate HasBit(mask: bv32, bit: bv32) {
    mask & bit != 0
  }

  /** Every named flag given on the command line has its bit in the mask. */
  lemma {:induction false} MaskHoldsEveryFlag(values: seq<string>, i: nat)
    requires i < |values| && NamedFlag(values[i]).Some?
    ensures SandboxMask(values).Ok? ==> HasBit(SandboxMask(values).value, NamedFlag(values[i]).value)
    decreases |values|
  {
    if SandboxMask(values).Ok? {
      var init := values[..|values| - 1];
      MaskStep(values);
      if i < |init| {
        assert init[i] == values[i];
        MaskHoldsEveryFlag(init, i);
      }
      HoldStep(values, i);
    }
  }

  /** The named bit at position `i` is in the mask once the last value is
      added, given that it was there before when `i` is not the last. */
  lemma HoldStep(values: seq<string>, i: nat)
    requires i < |values| && NamedFlag(values[i]).Some? && SandboxMask(values).Ok?
    requires SandboxMask(values[..|values| - 1]).Ok?
    requires i < |values| - 1 ==>
      HasBit(SandboxMask(values[..|values| - 1]).value, NamedFlag(values[i]).value)
    ensures HasBit(SandboxMask(values).value, NamedFlag(values[i]).value)
  {
    var before := SandboxMask(values[..|values| - 1]).value;
    var last := values[|values| - 1];
    MaskStep(values);
    if i < |values| - 1 {
      FlagKeepsBit(before, last, NamedFlag(values[i]).value);
    } else {
      FlagAddsNamedBit(before, last);
    }
  }

  /** A bit already in the mask stays there when a flag is added. */
  lemma FlagKeepsBit(mask: bv32, value: string, bit: bv32)
    requires SandboxFlagAsWritten(mask, value).Ok? && HasBit(mask, bit)
    ensures HasBit(SandboxFlagAsWritten(mask, value).value, bit)
  {
    BitSurvives(mask, WrittenBits(value), bit);
  }

  /** A named flag's own bit is in the mask after it is added. */
  lemma FlagAddsNamedBit(mask: bv32, value: string)
    requires SandboxFlagAsWritten(mask, value).Ok? && NamedFlag(value).Some?
    ensures HasBit(SandboxFlagAsWritten(mask, value).value, NamedFlag(value).value)
  {
    BitAdded(mask, NamedFlag(value).value);
  }

  /** The last value on the command line is added to the mask of the ones
      before it. */
  lemma MaskStep(values: seq<string>)
    requires |values| > 0 && SandboxMask(values).Ok?
    ensures SandboxMask(values[..|values| - 1]).Ok?
    ensures SandboxMask(values) ==
      SandboxFlagAsWritten(SandboxMask(values[..|values| - 1]).value, values[|values| - 1])
  {
  }

  /** `--sandbox-flag=4294967296`, alone, is accepted as written and leaves
      the mask empty, exactly as if no flag had been given; the corrected
      parser refuses it. */
  lemma TruncatedMaskExample()
    ensures SandboxMask(["4294967296"]) == Ok(0) == SandboxMask([])
    ensures IntendedMask(["4294967296"]).Err?
  {
    var v := "4294967296";
    MaskOfOne(v);
    TwoToThe32();
    TruncatedFlagVanishes(0, v);
  }

  /** A single value gives the mask the callback makes of it on its own. */
  lemma MaskOfOne(v: string)
    ensures SandboxMask([v]) == SandboxFlagAsWritten(0, v)
    ensures IntendedMask([v]) == SandboxFlag(0, v)
  {
    assert [v][..0] == [];
  }

  /** Every `--sandbox-flag` in command-line order through the corrected
      callback. */
  function IntendedMask(values: seq<string>): (r: Result<bv32, FlagError>)
    ensures r.Ok? ==> (r.value == 0 <==> |values| == 0)
    decreases |values|
  {
    if |values| == 0 then Ok(0)
    else
      match IntendedMask(values[..|values| - 1])
      case Err(e) => Err(e)
      case Ok(mask) =>
        FlagSetsSomeBit(mask, values[|values| - 1]);
        SandboxFlag(mask, values[|values| - 1])
  }

  /** The corrected fold produces a mask exactly when every value is a name
      or a positive number that fits in 32 bits. */
  lemma {:induction false} IntendedMaskAcceptsAll(values: seq<string>)
    ensures IntendedMask(values).Ok? <==> forall i :: 0 <= i < |values| ==> AcceptedFlag(values[i])
    decreases |values|
  {
    if |values| > 0 {
      var init := values[..|values| - 1];
      IntendedMaskAcceptsAll(init);
      IntendedMaskOkStep(values);
      AllAcceptedStep(values);
    }
  }

  /** Every value of a non-empty list is acceptable exactly when every one
      but the last is and the last one is too. */
  lemma AllAcceptedStep(values: seq<string>)
    requires |values| > 0
    ensures var init := values[..|values| - 1];
      (forall i :: 0 <= i < |values| ==> AcceptedFlag(values[i])) <==>
        (forall i :: 0 <= i < |init| ==> AcceptedFlag(init[i])) && AcceptedFlag(values[|values| - 1])
  {
    var init := values[..|values| - 1];
    assert forall i :: 0 <= i < |init| ==> init[i] == values[i];
  }

  /** The corrected fold's step: all but the last value, then the last. */
  lemma IntendedMaskOkStep(values: seq<string>)
    requires |values| > 0
    ensures IntendedMask(values).Ok? <==>
      IntendedMask(values[..|values| - 1]).Ok? && AcceptedFlag(values[|values| - 1])
  {
    var init := IntendedMask(values[..|values| - 1]);
    if init.Ok? {
      assert IntendedMask(values) == SandboxFlag(init.value, values[|values| - 1]);
    }
  }

  /** A bit already in a mask stays there whatever else is ORed in. */
  lemma BitSurvives(before: bv32, added: bv32, bit: bv32)
    requires before & bit != 0
    ensures (before | added) & bit != 0
  {
  }

  /** A non-zero mask ORed in shows up in the result. */
  lemma BitAdded(before: bv32, bit: bv32)
    requires bit != 0
    ensures (before | bit) & bit != 0
  {
  }

  /** The test suite's rejected values, an unknown name and a number
      strtol stops inside, are refused by the callback as written and by
      the corrected one. */
  lemma SandboxFlagExamples()
    ensures SandboxFlagAsWritten(0, "tricolore").Err?
    ensures SandboxFlagAsWritten(0, "1e6").Err?
    ensures SandboxFlag(0, "tricolore").Err?
    ensures SandboxFlag(0, "1e6").Err?
  {
    assert !IsDigit("tricolore"[0]);
    assert !IsDigit("1e6"[1]);
  }

  /** A name the test suite passes: `allow-a11y` gives exactly its bit,
      as written and corrected. */
  lemma NamedFlagExample()
    ensures SandboxFlagAsWritten(0, "allow-a11y") == Ok(ALLOW_A11Y)
    ensures SandboxFlag(0, "allow-a11y") == Ok(ALLOW_A11Y)
  {
    assert NamedFlag("allow-a11y") == Some(ALLOW_A11Y);
    assert FlagBits("allow-a11y") == ALLOW_A11Y;
  }
}
