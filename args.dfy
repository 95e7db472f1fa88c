/**
 * The argument layer of `src/args.ts`: argument specifications, the coercion
 * of one raw token to a typed value, the positional parser, the run-time
 * duplicate checks of `defineCLIArgSpecs`, and the ordering and enum-default
 * rules that the source checks at the type level.
 */
module Args {
  import opened CliTypes
  import opened Strings

  // -------------------------------------------------------------- data model

  /** The declared type of an argument; an enum carries its allowed values. */
  datatype ArgKind = StringKind | NumberKind | BooleanKind | EnumKind(allowedValues: seq<string>)

  /** A typed argument value (enum values are strings). */
  datatype Value = StrValue(s: string) | NumValue(n: int) | BoolValue(b: bool)

  /**
   * A positional argument specification. `required` is false where the source
   * leaves the field out (booleans, variadics, optional enums).
   */
  datatype PositionalSpec = PositionalSpec(
    name: string, kind: ArgKind, required: bool, default: Option<Value>, variadic: bool)

  /** A flag specification; a `shortName` of `Some("")` counts as absent, as in the source. */
  datatype FlagSpec = FlagSpec(
    name: string, shortName: Option<string>, kind: ArgKind, required: bool, default: Option<Value>)

  /** The pair of lists `defineCLIArgSpecs` returns. */
  datatype ArgSpec = ArgSpec(args: seq<PositionalSpec>, flags: seq<FlagSpec>)

  /** `CoerceResult`: a typed value or an error message. */
  datatype CoerceResult = Coerced(value: Value) | CoerceError(error: string)

  /**
   * What the parser stores under a spec's name: the whole coercion result of
   * the token it consumed (a failed coercion included), or the spec's default,
   * which may be absent (`undefined`).
   */
  datatype Slot = FromToken(result: CoerceResult) | FromDefault(default: Option<Value>)

  /** `ParsingResult`: the filled-in result object, or an error message. */
  datatype ParseResult = Parsed(data: map<string, Slot>) | ParseError(error: string)

  // ---------------------------------------------------------------- coercion

  /**
   * `Number(value)` on the inputs this model covers: after trimming, the empty
   * string is 0, and an optionally signed run of decimal digits is its value;
   * everything else is not a number.
   */
  function JsNumber(value: string): Option<int> {
    var t := Trim(value);
    if t == "" then Some(0)
    else if (t[0] == '-' || t[0] == '+') && |t| > 1 && AllDigits(t[1..]) then
      var magnitude: int := DigitsValue(t[1..]);
      Some(if t[0] == '-' then -magnitude else magnitude)
    else if AllDigits(t) then Some(DigitsValue(t))
    else None
  }

  /**
   * `coerceValue(spec, value)`. A number fails exactly when the token is not
   * numeric; a boolean never fails and is true iff the lower-cased token is
   * "true"; an enum succeeds exactly for an allowed value and returns it
   * unchanged; a string is returned unchanged.
   */
  function CoerceValue(kind: ArgKind, value: string): (r: CoerceResult)
    ensures kind.NumberKind? ==>
      && (r.CoerceError? <==> JsNumber(value).None?)
      && (r.CoerceError? ==> r.error == "Expected number, got \"" + value + "\"")
      && (r.Coerced? ==> r.value == NumValue(JsNumber(value).value))
    ensures kind.BooleanKind? ==> r.Coerced? && (r.value == BoolValue(true) <==> Lower(value) == "true")
    ensures kind.EnumKind? ==>
      && (r.Coerced? <==> value in kind.allowedValues)
      && (r.Coerced? ==> r.value == StrValue(value))
      && (r.CoerceError? ==>
            r.error == "Expected one of [" + Join(kind.allowedValues, ", ") + "], got \"" + value + "\"")
    ensures kind.StringKind? ==> r == Coerced(StrValue(value))
    ensures r.Coerced? ==> HasKind(r.value, kind)
  {
    match kind
    case NumberKind =>
      var n := JsNumber(value);
      if n.None? then CoerceError("Expected number, got \"" + value + "\"")
      else Coerced(NumValue(n.value))
    case BooleanKind =>
      Coerced(BoolValue(Lower(value) == "true"))
    case EnumKind(allowed) =>
      if value !in allowed then
        CoerceError("Expected one of [" + Join(allowed, ", ") + "], got \"" + value + "\"")
      else Coerced(StrValue(value))
    case StringKind =>
      Coerced(StrValue(value))
  }

  /** Whether a value belongs to the value space of a kind. */
  predicate HasKind(v: Value, kind: ArgKind) {
    match kind
    case StringKind => v.StrValue?
    case NumberKind => v.NumValue?
    case BooleanKind => v.BoolValue?
    case EnumKind(allowed) => v.StrValue? && v.s in allowed
  }

  /** The literal a user would type for a value. */
  function Render(v: Value): string {
    match v
    case StrValue(s) => s
    case NumValue(n) => IntToString(n)
    case BoolValue(b) => if b then "true" else "false"
  }

  /** A run of digits reads as its value. */
  lemma JsNumberOfDigits(digits: string)
    requires digits != [] && AllDigits(digits)
    ensures JsNumber(digits) == Some(DigitsValue(digits))
  {
    DigitIsNotWhitespace(digits[0]);
    DigitIsNotWhitespace(digits[|digits| - 1]);
    TrimUnpadded(digits);
  }

  /** A minus sign before a run of digits reads as the negated value. */
  lemma JsNumberOfNegative(digits: string)
    requires digits != [] && AllDigits(digits)
    ensures JsNumber("-" + digits) == Some(-(DigitsValue(digits) as int))
  {
    var s := "-" + digits;
    MinusPrefix(digits);
    DigitIsNotWhitespace(digits[|digits| - 1]);
    TrimUnpadded(s);
    JsNumberOfSignedTrimmed(s, digits);
  }

  lemma MinusPrefix(digits: string)
    requires digits != []
    ensures var s := "-" + digits;
            && |s| > 1 && s[0] == '-' && s[1..] == digits && s[|s| - 1] == digits[|digits| - 1]
  {
    var s := "-" + digits;
    assert s[1..] == digits;
  }

  lemma JsNumberOfSignedTrimmed(s: string, digits: string)
    requires |s| > 1 && s[0] == '-' && s[1..] == digits && Trim(s) == s && AllDigits(digits)
    ensures JsNumber(s) == Some(-(DigitsValue(digits) as int))
  {
  }

  /** Rendering an integer and reading it back as a number gives the integer. */
  lemma JsNumberOfIntToString(n: int)
    ensures JsNumber(IntToString(n)) == Some(n)
  {
    var m: nat := if n < 0 then -n else n;
    DigitsValueOfNatToString(m);
    if n < 0 {
      JsNumberOfNegative(NatToString(m));
    } else {
      JsNumberOfDigits(NatToString(m));
    }
  }

  /** Coercion round trip: a value typed as its literal coerces back to itself. */
  lemma CoerceRender(kind: ArgKind, v: Value)
    requires HasKind(v, kind)
    ensures CoerceValue(kind, Render(v)) == Coerced(v)
  {
    match kind
    case NumberKind => JsNumberOfIntToString(v.n);
    case BooleanKind =>
      assert Lower("true") == "true";
      assert Lower("false") != "true" by { assert Lower("false")[0] == 'f'; }
    case _ =>
  }

  /** Boolean coercion ignores case: a token and its lower-cased form coerce alike. */
  lemma BooleanCoercionIgnoresCase(value: string)
    ensures CoerceValue(BooleanKind, value) == CoerceValue(BooleanKind, Lower(value))
  {
    LowerIdempotent(value);
  }

  // --------------------------------------------------------- positional parse

  /** A positional makes the parse fail when no token is left for it. */
  predicate MissingRequired(spec: PositionalSpec) {
    spec.required && spec.default.None?
  }

  /**
   * The slot the parser fills for the positional at index `j`: the `j`-th
   * token coerced when there is one, the default otherwise.
   */
  function SlotFor(spec: PositionalSpec, j: nat, argv: seq<string>): Slot {
    if j < |argv| then FromToken(CoerceValue(spec.kind, argv[j])) else FromDefault(spec.default)
  }

  /** Whether no spec between `j` and `upTo` reuses the name of the spec at `j`. */
  predicate NameNotReusedBefore(specs: seq<PositionalSpec>, j: nat, upTo: nat)
    requires j < upTo <= |specs|
  {
    forall k :: j < k < upTo ==> specs[k].name != specs[j].name
  }

  /** Whether no later spec reuses the name of the spec at `j` (a later one would overwrite its slot). */
  predicate LastWithName(specs: seq<PositionalSpec>, j: nat)
    requires j < |specs|
  {
    NameNotReusedBefore(specs, j, |specs|)
  }

  /** The names of the positionals, collected from left to right. */
  function SpecNames(specs: seq<PositionalSpec>): set<string>
    decreases |specs|
  {
    if specs == [] then {} else SpecNames(specs[..|specs| - 1]) + {specs[|specs| - 1].name}
  }

  /** A name is collected exactly when some positional has it. */
  lemma {:induction false} SpecNamesMembers(specs: seq<PositionalSpec>, n: string)
    ensures n in SpecNames(specs) <==> exists k :: 0 <= k < |specs| && specs[k].name == n
    decreases |specs|
  {
    if specs != [] {
      var front := specs[..|specs| - 1];
      SpecNamesMembers(front, n);
      assert forall k :: 0 <= k < |front| ==> front[k] == specs[k];
    }
  }

  lemma SpecNamesSnoc(specs: seq<PositionalSpec>, j: nat)
    requires j < |specs|
    ensures SpecNames(specs[..j + 1]) == SpecNames(specs[..j]) + {specs[j].name}
  {
    assert specs[..j + 1][..j] == specs[..j];
  }

  /** Some positional finds no token left and is required without a default. */
  predicate SomeMissing(specs: seq<PositionalSpec>, argv: seq<string>) {
    exists j :: |argv| <= j < |specs| && MissingRequired(specs[j])
  }

  /** The positional at `j` is the first one the parse fails on. */
  predicate FirstMissing(specs: seq<PositionalSpec>, argv: seq<string>, j: int) {
    && |argv| <= j < |specs| && MissingRequired(specs[j])
    && (forall k :: |argv| <= k < j ==> !MissingRequired(specs[k]))
  }

  /** No positional before `j` made the parse fail. */
  predicate NoneMissingBefore(specs: seq<PositionalSpec>, argv: seq<string>, j: nat)
    requires j <= |specs|
  {
    forall k :: |argv| <= k < j ==> !MissingRequired(specs[k])
  }

  lemma NoneMissingStep(specs: seq<PositionalSpec>, argv: seq<string>, j: nat)
    requires j < |specs| && NoneMissingBefore(specs, argv, j)
    requires j >= |argv| ==> !MissingRequired(specs[j])
    ensures NoneMissingBefore(specs, argv, j + 1)
  {
  }

  lemma MissingAt(specs: seq<PositionalSpec>, argv: seq<string>, j: nat)
    requires j < |specs| && NoneMissingBefore(specs, argv, j) && |argv| <= j && MissingRequired(specs[j])
    ensures FirstMissing(specs, argv, j) && SomeMissing(specs, argv)
  {
  }

  lemma NoneMissing(specs: seq<PositionalSpec>, argv: seq<string>)
    requires NoneMissingBefore(specs, argv, |specs|)
    ensures !SomeMissing(specs, argv)
  {
  }

  /**
   * `CLICommandArgParser.parse` over a positional list. A cursor into `argv`
   * advances only when a token is consumed, so the spec at index `j` receives
   * token `j` while tokens last and every later spec receives its default;
   * tokens beyond the specs are ignored. The parse fails, naming it, at the
   * first spec without a token that is required and has no default.
   * `skipUnknownArgs` is accepted and unused, as in the source.
   */
  method Parse(specs: seq<PositionalSpec>, argv: seq<string>, skipUnknownArgs: bool) returns (r: ParseResult)
    ensures r.ParseError? <==> SomeMissing(specs, argv)
    ensures r.ParseError? ==>
      exists j :: FirstMissing(specs, argv, j) && r.error == "Missing required argument: " + specs[j].name
    ensures r.Parsed? ==> r.data.Keys == SpecNames(specs)
    ensures r.Parsed? ==>
      forall j :: 0 <= j < |specs| && LastWithName(specs, j) ==>
        specs[j].name in r.data && r.data[specs[j].name] == SlotFor(specs[j], j, argv)
  {
    var data: map<string, Slot> := map[];
    var index := 0;
    var j := 0;
    while j < |specs|
      invariant j <= |specs|
      invariant index == if j < |argv| then j else |argv|
      invariant NoneMissingBefore(specs, argv, j)
      invariant data.Keys == SpecNames(specs[..j])
      invariant SlotsFilled(specs, argv, data, j)
    {
      var spec := specs[j];
      var slot: Slot;
      if index >= |argv| {
        if spec.required && spec.default.None? {
          MissingAt(specs, argv, j);
          return ParseError("Missing required argument: " + spec.name);
        }
        slot := FromDefault(spec.default);
      } else {
        // The source hands `spec.type` to `coerceValue`, which takes the spec,
        // and stores the whole result: a failed coercion is kept in its slot
        // and does not fail the parse.
        slot := FromToken(CoerceValue(spec.kind, argv[index]));
        index := index + 1;
      }
      NoneMissingStep(specs, argv, j);
      assert slot == SlotFor(spec, j, argv);
      ParseStep(specs, argv, data, j, slot);
      SpecNamesSnoc(specs, j);
      data := data[spec.name := slot];
      j := j + 1;
    }
    assert specs[..|specs|] == specs;
    NoneMissing(specs, argv);
    SlotsFilledAll(specs, argv, data);
    return Parsed(data);
  }

  /**
   * After the first `j` positionals, every one of them whose name no later one
   * of those reused holds its slot.
   */
  predicate SlotsFilled(specs: seq<PositionalSpec>, argv: seq<string>, data: map<string, Slot>, j: nat)
    requires j <= |specs|
  {
    forall k :: 0 <= k < j && NameNotReusedBefore(specs, k, j) ==>
      specs[k].name in data && data[specs[k].name] == SlotFor(specs[k], k, argv)
  }

  /** One step of the parse loop keeps the slot invariant. */
  lemma ParseStep(specs: seq<PositionalSpec>, argv: seq<string>, data: map<string, Slot>, j: nat, slot: Slot)
    requires j < |specs| && slot == SlotFor(specs[j], j, argv)
    requires SlotsFilled(specs, argv, data, j)
    ensures SlotsFilled(specs, argv, data[specs[j].name := slot], j + 1)
  {
  }

  lemma SlotsFilledAll(specs: seq<PositionalSpec>, argv: seq<string>, data: map<string, Slot>)
    requires SlotsFilled(specs, argv, data, |specs|)
    ensures forall j :: 0 <= j < |specs| && LastWithName(specs, j) ==>
      specs[j].name in data && data[specs[j].name] == SlotFor(specs[j], j, argv)
  {
  }

  /**
   * A token that fails to coerce does not fail the parse: the positional's
   * slot holds the coercion error, and the parse cannot stop at that positional.
   */
  lemma CoercionFailureIsStored(specs: seq<PositionalSpec>, argv: seq<string>, j: nat, e: string)
    requires j < |specs| && j < |argv| && CoerceValue(specs[j].kind, argv[j]) == CoerceError(e)
    ensures SlotFor(specs[j], j, argv) == FromToken(CoerceError(e))
    ensures !FirstMissing(specs, argv, j)
  {
  }

  /**
   * Whether the parse fails depends only on how many tokens there are, never
   * on what they say: a bad token cannot make it fail, a good one cannot save it.
   */
  lemma ParseFailureIgnoresTokenText(specs: seq<PositionalSpec>, argv: seq<string>, other: seq<string>)
    requires |other| == |argv|
    ensures SomeMissing(specs, argv) <==> SomeMissing(specs, other)
    ensures forall j :: FirstMissing(specs, argv, j) <==> FirstMissing(specs, other, j)
  {
  }

  // ------------------------------------------------------- defineCLIArgSpecs

  /** A short name counts only when it is a non-empty string (the source tests its truthiness). */
  predicate HasShortName(f: FlagSpec) {
    f.shortName.Some? && f.shortName.value != ""
  }

  /** The flag names, collected from left to right. */
  function FlagNames(flags: seq<FlagSpec>): set<string>
    decreases |flags|
  {
    if flags == [] then {} else FlagNames(flags[..|flags| - 1]) + {flags[|flags| - 1].name}
  }

  /** The non-empty short names, collected from left to right. */
  function ShortNames(flags: seq<FlagSpec>): set<string>
    decreases |flags|
  {
    if flags == [] then {}
    else
      var last := flags[|flags| - 1];
      ShortNames(flags[..|flags| - 1]) + if HasShortName(last) then {last.shortName.value} else {}
  }

  lemma {:induction false} FlagNamesMembers(flags: seq<FlagSpec>, n: string)
    ensures n in FlagNames(flags) <==> exists k :: 0 <= k < |flags| && flags[k].name == n
    decreases |flags|
  {
    if flags != [] {
      var front := flags[..|flags| - 1];
      FlagNamesMembers(front, n);
      assert forall k :: 0 <= k < |front| ==> front[k] == flags[k];
    }
  }

  lemma {:induction false} ShortNamesMembers(flags: seq<FlagSpec>, n: string)
    ensures n in ShortNames(flags) <==>
      exists k :: 0 <= k < |flags| && HasShortName(flags[k]) && flags[k].shortName.value == n
    decreases |flags|
  {
    if flags != [] {
      var front := flags[..|flags| - 1];
      ShortNamesMembers(front, n);
      assert forall k :: 0 <= k < |front| ==> front[k] == flags[k];
    }
  }

  /**
   * The error `defineCLIArgSpecs` throws for a flag list, scanning left to
   * right: at the first flag whose name, or else whose short name, an earlier
   * flag already used.
   */
  function FlagsError(flags: seq<FlagSpec>): Option<string>
    decreases |flags|
  {
    if flags == [] then None
    else
      var before := flags[..|flags| - 1];
      var f := flags[|flags| - 1];
      var earlier := FlagsError(before);
      if earlier.Some? then earlier
      else if f.name in FlagNames(before) then Some("Duplicate argument name detected: " + f.name)
      else if HasShortName(f) && f.shortName.value in ShortNames(before) then
        Some("Duplicate argument short name detected: " + f.shortName.value)
      else None
  }

  /** The error thrown for a positional list: at the first name an earlier positional used. */
  function ArgsError(args: seq<PositionalSpec>): Option<string>
    decreases |args|
  {
    if args == [] then None
    else
      var before := args[..|args| - 1];
      var earlier := ArgsError(before);
      if earlier.Some? then earlier
      else if args[|args| - 1].name in SpecNames(before) then
        Some("Duplicate argument name detected: " + args[|args| - 1].name)
      else None
  }

  /** Flags are checked before positionals. */
  function SpecError(args: seq<PositionalSpec>, flags: seq<FlagSpec>): Option<string> {
    if FlagsError(flags).Some? then FlagsError(flags) else ArgsError(args)
  }

  predicate DistinctFlagNames(flags: seq<FlagSpec>) {
    forall i, j :: 0 <= i < j < |flags| ==> flags[i].name != flags[j].name
  }

  predicate DistinctShortNames(flags: seq<FlagSpec>) {
    forall i, j :: 0 <= i < j < |flags| && HasShortName(flags[i]) && HasShortName(flags[j]) ==>
      flags[i].shortName.value != flags[j].shortName.value
  }

  predicate DistinctArgNames(args: seq<PositionalSpec>) {
    forall i, j :: 0 <= i < j < |args| ==> args[i].name != args[j].name
  }

  /** Names stay distinct one flag further on exactly when the new name is new. */
  lemma DistinctFlagNamesSnoc(flags: seq<FlagSpec>)
    requires flags != []
    ensures var front, last := flags[..|flags| - 1], flags[|flags| - 1];
            DistinctFlagNames(flags) <==> DistinctFlagNames(front) && last.name !in FlagNames(front)
  {
    var front, last := flags[..|flags| - 1], flags[|flags| - 1];
    FlagNamesMembers(front, last.name);
    assert forall k :: 0 <= k < |front| ==> front[k] == flags[k];
  }

  lemma DistinctShortNamesSnoc(flags: seq<FlagSpec>)
    requires flags != []
    ensures var front, last := flags[..|flags| - 1], flags[|flags| - 1];
            DistinctShortNames(flags) <==>
              DistinctShortNames(front) && !(HasShortName(last) && last.shortName.value in ShortNames(front))
  {
    var front, last := flags[..|flags| - 1], flags[|flags| - 1];
    if HasShortName(last) {
      ShortNamesMembers(front, last.shortName.value);
    }
    assert forall k :: 0 <= k < |front| ==> front[k] == flags[k];
  }

  lemma DistinctArgNamesSnoc(args: seq<PositionalSpec>)
    requires args != []
    ensures var front, last := args[..|args| - 1], args[|args| - 1];
            DistinctArgNames(args) <==> DistinctArgNames(front) && last.name !in SpecNames(front)
  {
    var front, last := args[..|args| - 1], args[|args| - 1];
    SpecNamesMembers(front, last.name);
    assert forall k :: 0 <= k < |front| ==> front[k] == args[k];
  }

  /** A flag list passes exactly when its names, and its non-empty short names, are distinct. */
  lemma {:induction false} FlagsErrorIffDuplicate(flags: seq<FlagSpec>)
    ensures FlagsError(flags).None? <==> DistinctFlagNames(flags) && DistinctShortNames(flags)
    decreases |flags|
  {
    if flags != [] {
      FlagsErrorIffDuplicate(flags[..|flags| - 1]);
      DistinctFlagNamesSnoc(flags);
      DistinctShortNamesSnoc(flags);
    }
  }

  /** A positional list passes exactly when its names are distinct. */
  lemma {:induction false} ArgsErrorIffDuplicate(args: seq<PositionalSpec>)
    ensures ArgsError(args).None? <==> DistinctArgNames(args)
    decreases |args|
  {
    if args != [] {
      ArgsErrorIffDuplicate(args[..|args| - 1]);
      DistinctArgNamesSnoc(args);
    }
  }

  /** Both lists are free of repeated names, and the flags of repeated short names. */
  predicate DistinctSpecs(args: seq<PositionalSpec>, flags: seq<FlagSpec>) {
    DistinctFlagNames(flags) && DistinctShortNames(flags) && DistinctArgNames(args)
  }

  /** `defineCLIArgSpecs` finds no error exactly when every name is distinct. */
  lemma SpecErrorIffDuplicate(args: seq<PositionalSpec>, flags: seq<FlagSpec>)
    ensures SpecError(args, flags).None? <==> DistinctSpecs(args, flags)
  {
    FlagsErrorIffDuplicate(flags);
    ArgsErrorIffDuplicate(args);
  }

  /** The flag scan one flag further on. */
  lemma FlagsStep(fl: seq<FlagSpec>, i: nat)
    requires i < |fl|
    ensures FlagNames(fl[..i + 1]) == FlagNames(fl[..i]) + {fl[i].name}
    ensures ShortNames(fl[..i + 1]) ==
      ShortNames(fl[..i]) + (if HasShortName(fl[i]) then {fl[i].shortName.value} else {})
    ensures FlagsError(fl[..i + 1]) ==
      if FlagsError(fl[..i]).Some? then FlagsError(fl[..i])
      else if fl[i].name in FlagNames(fl[..i]) then Some("Duplicate argument name detected: " + fl[i].name)
      else if HasShortName(fl[i]) && fl[i].shortName.value in ShortNames(fl[..i]) then
        Some("Duplicate argument short name detected: " + fl[i].shortName.value)
      else None
  {
    assert fl[..i + 1][..i] == fl[..i];
  }

  /** The positional scan one positional further on. */
  lemma ArgsStep(al: seq<PositionalSpec>, i: nat)
    requires i < |al|
    ensures SpecNames(al[..i + 1]) == SpecNames(al[..i]) + {al[i].name}
    ensures ArgsError(al[..i + 1]) ==
      if ArgsError(al[..i]).Some? then ArgsError(al[..i])
      else if al[i].name in SpecNames(al[..i]) then Some("Duplicate argument name detected: " + al[i].name)
      else None
  {
    var a := al[..i + 1];
    assert a[..i] == al[..i];
    SpecNamesSnoc(al, i);
  }

  /** An error found in a prefix of the flags is the error of the whole list. */
  lemma {:induction false} FlagsErrorOfPrefix(flags: seq<FlagSpec>, n: nat)
    requires n <= |flags| && FlagsError(flags[..n]).Some?
    ensures FlagsError(flags) == FlagsError(flags[..n])
    decreases |flags| - n
  {
    if n < |flags| {
      assert flags[..n + 1][..n] == flags[..n];
      FlagsErrorOfPrefix(flags, n + 1);
    } else {
      assert flags[..n] == flags;
    }
  }

  lemma {:induction false} ArgsErrorOfPrefix(args: seq<PositionalSpec>, n: nat)
    requires n <= |args| && ArgsError(args[..n]).Some?
    ensures ArgsError(args) == ArgsError(args[..n])
    decreases |args| - n
  {
    if n < |args| {
      assert args[..n + 1][..n] == args[..n];
      ArgsErrorOfPrefix(args, n + 1);
    } else {
      assert args[..n] == args;
    }
  }

  /**
   * `defineCLIArgSpecs`. The type-level ordering and enum-default rules are
   * compile-time only and are not checked here. At run time it throws (here:
   * `Failure`) on a repeated flag name, a repeated non-empty short name or a
   * repeated positional name, reporting
   * the first one found, and otherwise returns both lists, an absent list
   * replaced by the empty one.
   */
  method DefineCLIArgSpecs(args: Option<seq<PositionalSpec>>, flags: Option<seq<FlagSpec>>)
    returns (r: Result<ArgSpec>)
    ensures r.Success? <==> DistinctSpecs(args.GetOr([]), flags.GetOr([]))
    ensures r.Success? ==> r.value == ArgSpec(args.GetOr([]), flags.GetOr([]))
    ensures r.Failure? ==> Some(r.error) == SpecError(args.GetOr([]), flags.GetOr([]))
  {
    var fl := flags.GetOr([]);
    var al := args.GetOr([]);
    var flagNames: set<string> := {};
    var shortFlagNames: set<string> := {};
    if flags.Some? {
      for i := 0 to |fl|
        invariant flagNames == FlagNames(fl[..i])
        invariant shortFlagNames == ShortNames(fl[..i])
        invariant FlagsError(fl[..i]).None?
      {
        var f := fl[i];
        FlagsStep(fl, i);
        if f.name in flagNames {
          FlagsErrorOfPrefix(fl, i + 1);
          SpecErrorIffDuplicate(al, fl);
          return Failure("Duplicate argument name detected: " + f.name);
        }
        if HasShortName(f) {
          if f.shortName.value in shortFlagNames {
            FlagsErrorOfPrefix(fl, i + 1);
            SpecErrorIffDuplicate(al, fl);
            return Failure("Duplicate argument short name detected: " + f.shortName.value);
          }
          shortFlagNames := shortFlagNames + {f.shortName.value};
        }
        flagNames := flagNames + {f.name};
      }
      assert fl[..|fl|] == fl;
    }
    var argNames: set<string> := {};
    if args.Some? {
      for i := 0 to |al|
        invariant argNames == SpecNames(al[..i])
        invariant ArgsError(al[..i]).None?
      {
        var a := al[i];
        ArgsStep(al, i);
        if a.name in argNames {
          ArgsErrorOfPrefix(al, i + 1);
          SpecErrorIffDuplicate(al, fl);
          return Failure("Duplicate argument name detected: " + a.name);
        }
        argNames := argNames + {a.name};
      }
      assert al[..|al|] == al;
    }
    SpecErrorIffDuplicate(al, fl);
    return Success(ArgSpec(al, fl));
  }

  // ----------------------------------------------- type-level spec validation

  /** No positional of the list is required. */
  predicate NoneRequired(specs: seq<PositionalSpec>) {
    forall k :: 0 <= k < |specs| ==> !specs[k].required
  }

  /**
   * The positional ordering rules: a variadic positional ends the list, and
   * once a positional is optional every later one is optional too.
   */
  predicate ValidPositionalOrder(specs: seq<PositionalSpec>)
    decreases |specs|
  {
    if specs == [] then true
    else if specs[0].variadic then |specs| == 1
    else if !specs[0].required then NoneRequired(specs[1..]) && ValidPositionalOrder(specs[1..])
    else ValidPositionalOrder(specs[1..])
  }

  predicate VariadicIsLast(specs: seq<PositionalSpec>) {
    forall i :: 0 <= i < |specs| && specs[i].variadic ==> i == |specs| - 1
  }

  predicate NoRequiredAfterOptional(specs: seq<PositionalSpec>) {
    forall i, j :: 0 <= i < j < |specs| && !specs[i].required ==> !specs[j].required
  }

  /** The ordering rules, stated positionally. */
  lemma {:induction false} ValidPositionalOrderIff(specs: seq<PositionalSpec>)
    ensures ValidPositionalOrder(specs) <==> VariadicIsLast(specs) && NoRequiredAfterOptional(specs)
    decreases |specs|
  {
    if specs != [] {
      var tail := specs[1..];
      ValidPositionalOrderIff(tail);
      assert forall i :: 1 <= i < |specs| ==> specs[i] == tail[i - 1];
      if specs[0].variadic {
        if |specs| > 1 {
          assert !VariadicIsLast(specs);
        }
      } else if ValidPositionalOrder(specs) {
        forall i, j | 0 <= i < j < |specs| && !specs[i].required ensures !specs[j].required {
          if i > 0 { assert !tail[i - 1].required; } else { assert !tail[j - 1].required; }
        }
        forall i | 0 <= i < |specs| && specs[i].variadic ensures i == |specs| - 1 {
          assert tail[i - 1].variadic;
        }
      } else if !specs[0].required && !NoneRequired(tail) {
        var k :| 0 <= k < |tail| && tail[k].required;
        assert specs[k + 1].required;
      } else {
        if !VariadicIsLast(tail) {
          var i :| 0 <= i < |tail| && tail[i].variadic && i != |tail| - 1;
          assert specs[i + 1].variadic;
        } else {
          var i, j :| 0 <= i < j < |tail| && !tail[i].required && tail[j].required;
          assert !specs[i + 1].required && specs[j + 1].required;
        }
      }
    }
  }

  /**
   * The ordering check as the conditional type `ValidatePositionalOrder`
   * evaluates it at a call site: a variadic head must be alone; an optional
   * head makes the list invalid exactly when every later positional is
   * required (vacuously so when nothing follows) and ends the check. A
   * required head yields `[Head, ...ValidatePositionalOrder<Tail>]`; when the
   * nested result is an error string, TypeScript turns that spread into a rest
   * element of any type, so the error does not reach the caller and every
   * list with a required head is accepted.
   */
  predicate TypedPositionalOrder(specs: seq<PositionalSpec>) {
    if specs == [] then true
    else if specs[0].variadic then |specs| == 1
    else if !specs[0].required then !(forall k :: 1 <= k < |specs| ==> specs[k].required)
    else true
  }

  /**
   * The type-level check rejects a lone optional positional, such as
   * `[output (optional)]`, which the ordering rules allow: with nothing after
   * it, the test "every later positional is required" holds vacuously.
   */
  lemma TypedPositionalOrderRejectsLoneOptional(spec: PositionalSpec)
    requires !spec.required && !spec.variadic
    ensures !TypedPositionalOrder([spec])
    ensures ValidPositionalOrder([spec])
  {
    assert [spec][1..] == [];
  }

  /**
   * And it accepts lists the rules forbid: after the first optional positional
   * it only asks that some later one be optional.
   */
  lemma TypedPositionalOrderAcceptsRequiredAfterOptional()
    ensures var opt := PositionalSpec("a", StringKind, false, None, false);
            var req := PositionalSpec("b", StringKind, true, None, false);
            TypedPositionalOrder([opt, req, opt]) && !ValidPositionalOrder([opt, req, opt])
  {
    var opt := PositionalSpec("a", StringKind, false, None, false);
    var req := PositionalSpec("b", StringKind, true, None, false);
    var specs := [opt, req, opt];
    assert !specs[2].required;
    assert specs[1..] == [req, opt];
    assert !NoneRequired(specs[1..]) by { assert specs[1..][0].required; }
  }

  /** `ValidateFlagSpecs` for one flag: an enum flag's default is one of its allowed values. */
  predicate EnumDefaultAllowed(f: FlagSpec) {
    f.kind.EnumKind? && f.default.Some? ==>
      f.default.value.StrValue? && f.default.value.s in f.kind.allowedValues
  }

  predicate ValidFlagSpecs(flags: seq<FlagSpec>) {
    forall i :: 0 <= i < |flags| ==> EnumDefaultAllowed(flags[i])
  }

  /** Under the flag rules, an enum flag's default would itself pass coercion unchanged. */
  lemma EnumDefaultCoerces(flags: seq<FlagSpec>, i: nat)
    requires ValidFlagSpecs(flags) && i < |flags|
    requires flags[i].kind.EnumKind? && flags[i].default.Some?
    ensures CoerceValue(flags[i].kind, Render(flags[i].default.value)) == Coerced(flags[i].default.value)
  {
    assert EnumDefaultAllowed(flags[i]);
  }
}
