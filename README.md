# Configuration parsing of the ballistic-deposition driver

The driver of the ballistic-deposition simulations reads its parameters from
`config.ini` through three small parsers in `src/ini_parser.rs`, and
`InputParams::new` builds the parameter record from them:

- `parse_config_array` splits an entry on `,`, trims each piece and parses it
  as a `u32`. A piece that does not parse becomes `0`, so the list never fails.
- `parse_config_option` turns an entry into a `bool` by exact, case-sensitive
  comparison with six true aliases and six false aliases. Anything else is
  `false`.
- `parse_config_u32` parses the whole, untrimmed entry as a `u32` and panics
  when it is malformed.

The model has four modules:

- `Wrappers` (`wrappers.dfy`) holds `Result` and `unwrap_or`.
- `Text` (`text.dfy`) models Rust's `str::split` on a character and
  `str::trim`. Whitespace is the Unicode White_Space set that
  `char::is_whitespace` uses, listed by code point.
- `U32Parse` (`u32_parse.dfy`) models `u32::from_str`. It works character by
  character and reports the same three error kinds: `Empty`, `InvalidDigit`
  and `PosOverflow`. It is proved equal to a reference definition of a decimal
  `u32` literal: one optional `+`, then one or more ASCII digits, with a value
  of at most 4294967295.
- `IniParser` (`ini_parser.dfy`) models the parsers and `InputParams::new`.
  A loaded configuration is an abstract map `Ini` from a (section, key) pair to
  the string a lookup returns.

`parse_config_array` builds its list with a loop, so it is a method with a
loop invariant. `InputParams::new` calls it, so it is a method too. The other
two parsers are functions.

Every parser calls `expect` on the lookup. A missing (section, key) pair
panics there, so the model makes the pair's presence a precondition. The
`unwrap` in `parse_config_u32` is a different panic: it depends on the
entry's text. The model returns it as `Err(kind)`, where `kind` is the
`ParseIntError` kind that `unwrap` would report. This makes the strict parser
visibly different from the permissive one. `parse_config_array` and
`parse_config_option` always return `Ok`, so the model returns their values
directly.

## Model

| member | source | states |
|---|---|---|
| `Text.Trim` | src/ini_parser.rs:71 | the trimmed piece neither begins nor ends with whitespace and is no longer than the piece |
| `Text.TrimPadded` | src/ini_parser.rs:71 | trimming whitespace + m + whitespace, where m has no whitespace at its ends, gives exactly m |
| `Text.TrimDecomposes` | src/ini_parser.rs:71 | the trimmed text is a contiguous part of the input, with only whitespace before and after it |
| `Text.TrimIdempotent` | src/ini_parser.rs:71 | trimming a trimmed piece changes nothing |
| `Text.Split` | src/ini_parser.rs:69 | splitting on `,` gives one piece more than there are commas, and no piece contains a comma |
| `Text.JoinSplit` | src/ini_parser.rs:69 | joining the pieces with `,` gives back the entry, so no character is lost or reordered |
| `Text.SplitJoin` | src/ini_parser.rs:69 | splitting a comma-join of comma-free pieces gives back exactly those pieces |
| `U32Parse.ParseU32` | src/ini_parser.rs:71 | `parse::<u32>`: "" is Empty, a lone sign is InvalidDigit, one leading `+` is dropped and the rest goes to the digit loop; what this means for every input is proved in `ParseU32Correct`, `ParseU32ErrorKinds` and `ParseU32Classified` |
| `U32Parse.Accumulate` | src/ini_parser.rs:120 | the digit loop of `parse::<u32>`: it succeeds only when every character is a digit, and the value never falls below what was accumulated so far; `AccumulateSpec` gives its exact outcome |
| `U32Parse.AccumulateSpec` | src/ini_parser.rs:120 | the left-to-right digit loop stops with InvalidDigit at the first non-digit, or with PosOverflow if the digits before it already exceed 2^32-1; otherwise it returns their value |
| `U32Parse.ParseU32Classified` | src/ini_parser.rs:120 | the outcome of `parse::<u32>` for every input: Empty for "", PosOverflow when the leading digits overflow, the literal's value for a valid literal, InvalidDigit otherwise |
| `U32Parse.ParseU32Correct` | src/ini_parser.rs:71 | `parse::<u32>` succeeds exactly on a valid `u32` literal (optional `+`, at least one digit, at most 4294967295) and then yields its decimal value |
| `U32Parse.ParseU32ErrorKinds` | src/ini_parser.rs:120 | the error kind is Empty exactly for "", PosOverflow exactly when the leading digits exceed 2^32-1, and InvalidDigit for the remaining malformed inputs |
| `U32Parse.ParseU32Max` | src/ini_parser.rs:120 | "4294967295" parses as 4294967295 |
| `U32Parse.ParseU32Overflow` | src/ini_parser.rs:120 | "4294967296" is a PosOverflow error |
| `U32Parse.ParseU32Signs` | src/ini_parser.rs:120 | "+16" parses; "-1", "-0", a lone "+" and "++1" are invalid digits |
| `U32Parse.ParseU32Strictness` | src/ini_parser.rs:120 | "" is Empty; leading, trailing and inner spaces are invalid digits; "007" parses as 7 |
| `Wrappers.Result.GetOr` | src/ini_parser.rs:71 | `unwrap_or`: the success value, or the default on an error; the fallback to 0 it gives the list parser is proved in `PieceValueSpec` |
| `IniParser.PieceValue` | src/ini_parser.rs:71 | `v.trim().parse().unwrap_or(0)` for one piece; `PieceValueSpec` proves it is the literal's value or 0 |
| `IniParser.PieceValueSpec` | src/ini_parser.rs:71 | a piece whose trimmed text is a valid `u32` literal gets that value; every other piece gets 0 |
| `IniParser.ParseConfigArray` | src/ini_parser.rs:56-76 | the result has one value per comma-separated piece (commas + 1), in order, each the trimmed piece's value or 0; it never fails |
| `IniParser.ListedValuesOfEmpty` | src/ini_parser.rs:69-73 | an empty entry gives `[0]` |
| `IniParser.ListedValuesPadded` | src/ini_parser.rs:71 | `" 16 "` gives `[16]` |
| `IniParser.ListedValuesInOrder` | src/ini_parser.rs:67-73 | `"8, 16,32"` gives `[8, 16, 32]` |
| `IniParser.ListedValuesFallback` | src/ini_parser.rs:71 | non-numeric, empty and negative pieces give 0 and the list still has one value per piece: `"x,,-1"` gives `[0, 0, 0]` |
| `IniParser.PieceValueBoundary` | src/ini_parser.rs:71 | a piece of 4294967296 gives 0, a piece of 4294967295 is kept |
| `IniParser.ParseConfigOption` | src/ini_parser.rs:78-107 | the result is true exactly when the entry is one of `true`, `True`, `t`, `yes`, `Yes`, `y`, compared case-sensitively and untrimmed |
| `IniParser.OptionAliasesDisjoint` | src/ini_parser.rs:89-90 | no string is both a true and a false alias, so the order of the two tests does not matter |
| `IniParser.ParseConfigOptionFalse` | src/ini_parser.rs:94-103 | the six false aliases and unrecognised strings ("TRUE", "YES", "1", " true", "true ", "") all give false |
| `IniParser.ParseConfigU32` | src/ini_parser.rs:109-122 | the untrimmed entry gives its value exactly when it is a valid `u32` literal; otherwise the call panics (Err), with the Empty kind exactly for "" |
| `IniParser.StrictAgreesWithPermissive` | src/ini_parser.rs:71 | whenever the strict parse succeeds, the permissive list parser gives the same value as a one-element list |
| `IniParser.PermissiveAcceptsMore` | src/ini_parser.rs:120 | `" 16"` and `"abc"` give `[16]` and `[0]` as lists but make the strict parse fail |
| `IniParser.NewInputParams` | src/ini_parser.rs:15-45 | `lengths`, `k_neighbours` and `seeds` are the lists of `simulation_params/substrate_lengths`, `/k_neighbours` and `/seeds`; `periodic_bc` is the option `options/periodic_bc`; `init_seed` is the value of `options/init_seed`; the only failure is the panic of a malformed `init_seed` |

## Left out

- `open_config`, `Ini::load` and `Ini::get` (src/ini_parser.rs:48-54, :63-65, :85-87, :116-118) are file I/O and calls into the `configparser` crate. The model takes the loaded configuration as a map. That crate's lower-casing of section and key names and its trimming of stored values are therefore not modelled: the map holds the strings lookups return.
- A missing section or key, and the `expect` panic it causes, is a precondition rather than a modelled error.
- The panic messages of `expect` and `unwrap`, and the warning that `parse_config_option` prints for an unrecognised entry (src/ini_parser.rs:96-101), are console output. The model keeps only the returned `false`.
- `U32Parse.ParseU32` follows the error kinds of current versions of Rust's standard library: a lone `+` or `-` is `InvalidDigit`, and a bad character is reported before an overflow, so `"4294967295x"` is `InvalidDigit`. Older versions tested for emptiness after stripping the sign and so reported a lone `+` as `Empty`; the model does not follow them. Which kind is reported affects only the panic message.
- src/sim.rs, src/sim/csv_writer.rs and src/main.rs are not part of this model. They hold float trigonometry and a float sort whose result is discarded, printing, static lookup tables, filesystem and CSV output, and the process entry point with its sweep over parameter combinations. The deposition engine, random number generator, time schedule and ensemble averaging those files refer to are not shown there at all.
