/**
 * The configuration-value parsers of the ballistic-deposition driver and the
 * way InputParams takes its fields from them. The loaded `config.ini` is an
 * abstract map from a (section, key) pair to the raw string a lookup returns.
 */
module IniParser {
  import opened Wrappers
  import opened Text
  import opened U32Parse

  /** A loaded configuration: the string stored under each (section, key). */
  type Ini = map<(string, string), string>

  /** The parameters of all the simulation runs, as read from the configuration. */
  datatype InputParams = InputParams(
    lengths: seq<uint32>,
    kNeighbours: seq<uint32>,
    seeds: seq<uint32>,
    periodicBc: bool,
    initSeed: uint32)

  // ---------------------------------------------------------------------
  // parse_config_array: a permissive comma-separated list of u32 values.
  // ---------------------------------------------------------------------

  /** One list piece, trimmed and parsed, with 0 for anything that is not a `u32`. */
  function PieceValue(piece: string): uint32 {
    ParseU32(Trim(piece)).GetOr(0)
  }

  /**
   * The fallback policy: a piece whose trimmed text is a `u32` literal has
   * that literal's value, and every other piece (empty, non-numeric,
   * negative, overflowing) has the value 0.
   */
  lemma PieceValueSpec(piece: string)
    ensures IsU32Literal(Trim(piece)) ==> PieceValue(piece) == LiteralValue(Trim(piece))
    ensures !IsU32Literal(Trim(piece)) ==> PieceValue(piece) == 0
  {
    ParseU32Correct(Trim(piece));
  }

  /** `vals` holds, in order, the value of each comma-separated piece of `entry`. */
  predicate ListedValues(entry: string, vals: seq<uint32>) {
    var pieces := Split(entry, ',');
    |vals| == |pieces| && forall i :: 0 <= i < |vals| ==> vals[i] == PieceValue(pieces[i])
  }

  /**
   * Splits the entry on `,` and pushes the value of each piece in turn. It
   * never fails: every piece yields a value, 0 when it does not parse.
   */
  method ParseConfigArray(config: Ini, section: string, key: string) returns (vals: seq<uint32>)
    requires (section, key) in config
    ensures ListedValues(config[(section, key)], vals)
    ensures |vals| == Count(config[(section, key)], ',') + 1
  {
    var entry := config[(section, key)];
    var values := Split(entry, ',');
    vals := [];
    for i := 0 to |values|
      invariant |vals| == i
      invariant forall j :: 0 <= j < i ==> vals[j] == PieceValue(values[j])
    {
      var temp := PieceValue(values[i]);
      vals := vals + [temp];
    }
  }

  /** An empty entry is one empty piece, so its list is `[0]`. */
  lemma ListedValuesOfEmpty()
    ensures ListedValues("", [0])
  {
  }

  /** A padded single value is trimmed before it is parsed. */
  lemma ListedValuesPadded()
    ensures ListedValues(" 16 ", [16])
  {
    SplitFree(" 16 ", ',');
    assert PieceValue(" 16 ") == 16;
  }

  // The worked cases below take their literal inputs as parameters fixed
  // by `requires`, so that the solver evaluates each literal only where the
  // body asks for it; a literal in the `ensures` makes these proofs costly.

  /**
   * Pieces are trimmed one by one and keep their order: the entry
   * "8, 16,32" gives [8, 16, 32].
   */
  lemma ListedValuesInOrder(a: string, b: string, c: string)
    requires a == "8" && b == " 16" && c == "32"
    ensures ListedValues(a + [','] + b + [','] + c, [8, 16, 32])
  {
    SplitThree(a, b, c);
    PieceValuesOf8And32(a, c);
    PieceValueOf16(b);
  }

  /** Pieces of 8 and 32 without whitespace. */
  lemma PieceValuesOf8And32(a: string, c: string)
    requires a == "8" && c == "32"
    ensures PieceValue(a) == 8 && PieceValue(c) == 32
  {
    assert ParseU32("8") == Ok(8);
    assert ParseU32("32") == Ok(32);
    PlainPieceValue(a);
    PlainPieceValue(c);
  }

  /** A piece of 16 with whitespace on the left. */
  lemma PieceValueOf16(b: string)
    requires b == " 16"
    ensures PieceValue(b) == 16
  {
    assert Trim(" 16") == "16";
    assert ParseU32("16") == Ok(16);
  }

  /** Three comma-free pieces joined by commas split back into those pieces. */
  lemma SplitThree(a: string, b: string, c: string)
    requires ',' !in a && ',' !in b && ',' !in c
    ensures Split(a + [','] + b + [','] + c, ',') == [a, b, c]
  {
    var bc := b + [','] + c;
    assert a + [','] + b + [','] + c == a + [','] + bc;
    SplitCons(a, bc, ',');
    SplitCons(b, c, ',');
    SplitFree(c, ',');
    assert [a] + ([b] + [c]) == [a, b, c];
  }

  /**
   * Non-numeric, empty and negative pieces become 0 without failing the
   * list: the entry "x,,-1" gives [0, 0, 0].
   */
  lemma ListedValuesFallback(a: string, b: string, c: string)
    requires a == "x" && b == "" && c == "-1"
    ensures ListedValues(a + [','] + b + [','] + c, [0, 0, 0])
  {
    SplitThree(a, b, c);
    assert ParseU32("x") == Err(InvalidDigit);
    assert ParseU32("") == Err(Empty);
    assert ParseU32("-1") == Err(InvalidDigit);
    PlainPieceValue(a);
    PlainPieceValue(b);
    PlainPieceValue(c);
  }

  /** A piece beyond 2^32 - 1 becomes 0; the largest `u32` is kept. */
  lemma PieceValueBoundary(over: string, max: string)
    requires over == "4294967296" && max == "4294967295"
    ensures PieceValue(over) == 0
    ensures PieceValue(max) == 4294967295
  {
    ParseU32Max(max);
    ParseU32Overflow(over);
    PlainPieceValue(over);
    PlainPieceValue(max);
  }

  /** A piece without whitespace at its ends is parsed as it stands. */
  lemma PlainPieceValue(s: string)
    requires Trimmed(s)
    ensures PieceValue(s) == ParseU32(s).GetOr(0)
  {
  }

  // ---------------------------------------------------------------------
  // parse_config_option: a boolean by exact match against two alias lists.
  // ---------------------------------------------------------------------

  const TRUE_ALIASES: seq<string> := ["true", "True", "t", "yes", "Yes", "y"]
  const FALSE_ALIASES: seq<string> := ["false", "False", "f", "no", "No", "n"]

  /**
   * True for an entry that is one of the true aliases, false for one of the
   * false aliases, and false (after a warning) for anything else.
   */
  function ParseConfigOption(config: Ini, section: string, key: string): (b: bool)
    requires (section, key) in config
    ensures var e := config[(section, key)];
            b <==> e == "true" || e == "True" || e == "t" || e == "yes" || e == "Yes" || e == "y"
  {
    var entry := config[(section, key)];
    if entry in TRUE_ALIASES then true
    else if entry in FALSE_ALIASES then false
    else false
  }

  /** No string is both a true and a false alias, so the order of the tests is immaterial. */
  lemma OptionAliasesDisjoint(s: string)
    ensures !(s in TRUE_ALIASES && s in FALSE_ALIASES)
  {
  }

  /** The false aliases and unrecognised strings (wrong case, digits, padding) all give false. */
  lemma ParseConfigOptionFalse(config: Ini, section: string, key: string)
    requires (section, key) in config
    requires config[(section, key)] in FALSE_ALIASES + ["TRUE", "YES", "1", " true", "true ", ""]
    ensures !ParseConfigOption(config, section, key)
  {
  }

  // ---------------------------------------------------------------------
  // parse_config_u32: a strict single u32 value.
  // ---------------------------------------------------------------------

  /**
   * Parses the whole, untrimmed entry. `Err(kind)` stands for the panic of
   * `unwrap` on a parse error of that kind: no error is ever returned.
   */
  function ParseConfigU32(config: Ini, section: string, key: string): (r: Result<uint32, IntErrorKind>)
    requires (section, key) in config
    ensures r.Ok? <==> IsU32Literal(config[(section, key)])
    ensures r.Ok? ==> r.value == LiteralValue(config[(section, key)])
    ensures r == Err(Empty) <==> config[(section, key)] == ""
  {
    var entry := config[(section, key)];
    ParseU32Correct(entry);
    ParseU32ErrorKinds(entry);
    ParseU32(entry)
  }

  /**
   * Where the strict parser succeeds, the permissive one gives the same
   * value as a one-element list.
   */
  lemma {:induction false} StrictAgreesWithPermissive(entry: string)
    requires ParseU32(entry).Ok?
    ensures ListedValues(entry, [ParseU32(entry).value])
  {
    ParseU32Correct(entry);
    var d := Unsigned(entry);
    assert entry == d || entry == ['+'] + d;
    assert ',' !in entry;
    SplitFree(entry, ',');
    assert Trimmed(entry) by {
      assert entry[0] == '+' || IsAsciiDigit(entry[0]);
      assert IsAsciiDigit(d[|d| - 1]);
    }
    assert [] + entry + [] == entry;
    TrimPadded([], entry, []);
  }

  /** The permissive parser accepts what the strict one rejects. */
  lemma PermissiveAcceptsMore(padded: string, word: string)
    requires padded == " 16" && word == "abc"
    ensures ListedValues(padded, [16]) && ParseU32(padded) == Err(InvalidDigit)
    ensures ListedValues(word, [0]) && ParseU32(word) == Err(InvalidDigit)
  {
    SplitFree(padded, ',');
    PieceValueOf16(padded);
    assert ParseU32(" 16") == Err(InvalidDigit);
    SplitFree(word, ',');
    assert ParseU32("abc") == Err(InvalidDigit);
    PlainPieceValue(word);
  }

  // ---------------------------------------------------------------------
  // InputParams::new: each field from its own (section, key) pair.
  // ---------------------------------------------------------------------

  const SIMULATION_PARAMS: string := "simulation_params"
  const OPTIONS: string := "options"

  predicate HasParamKeys(config: Ini) {
    && (SIMULATION_PARAMS, "substrate_lengths") in config
    && (SIMULATION_PARAMS, "k_neighbours") in config
    && (SIMULATION_PARAMS, "seeds") in config
    && (OPTIONS, "periodic_bc") in config
    && (OPTIONS, "init_seed") in config
  }

  /**
   * Reads the three lists, the boundary option and the initial seed.
   * `Err(kind)` is the panic of the strict seed parse; nothing else can fail.
   */
  method NewInputParams(config: Ini) returns (r: Result<InputParams, IntErrorKind>)
    requires HasParamKeys(config)
    ensures r.Ok? <==> IsU32Literal(config[(OPTIONS, "init_seed")])
    ensures r.Err? ==> ParseConfigU32(config, OPTIONS, "init_seed") == Err(r.error)
    ensures r.Ok? ==>
      && ListedValues(config[(SIMULATION_PARAMS, "substrate_lengths")], r.value.lengths)
      && ListedValues(config[(SIMULATION_PARAMS, "k_neighbours")], r.value.kNeighbours)
      && ListedValues(config[(SIMULATION_PARAMS, "seeds")], r.value.seeds)
      && r.value.periodicBc == ParseConfigOption(config, OPTIONS, "periodic_bc")
      && r.value.initSeed == LiteralValue(config[(OPTIONS, "init_seed")])
  {
    var lengths := ParseConfigArray(config, SIMULATION_PARAMS, "substrate_lengths");
    var kNeighbours := ParseConfigArray(config, SIMULATION_PARAMS, "k_neighbours");
    var seeds := ParseConfigArray(config, SIMULATION_PARAMS, "seeds");
    var periodicBc := ParseConfigOption(config, OPTIONS, "periodic_bc");
    var initSeed := ParseConfigU32(config, OPTIONS, "init_seed");
    if initSeed.Err? {
      return Err(initSeed.error);
    }
    r := Ok(InputParams(lengths, kNeighbours, seeds, periodicBc, initSeed.value));
  }
}
