# ParseFlags in Dafny

A Dafny model of the command-line flag parser of ParseFlags, which exists in
two variants that behave differently.

- **C library** (`src/c/parse_flags.c`).
  - The caller passes an array of `flag_container_t` records: a help message, a flag name, a storage pointer and a parser function.
  - `parse_flags_parse` walks `argv`. It splits each argument at its first `=` after a leading `--`.
  - It then runs the parser of *every* container whose name is a prefix of the argument's flag name.
  - Unknown names and values that fail to decode are passed over, and completing the loop returns 0.
- **C++ class** (`src/cpp/parse_flags.hpp`, `src/cpp/parse_flags.cpp`).
  - `ParseFlags` collects type-erased `flag_storage_t` descriptors, each binding a name and a message to typed storage and the matching `parse_value` overload.
  - `parse_args` first rejects more arguments than flags. It then takes the *first* registered flag whose name is a prefix of the argument's flag name.
  - It stops at the first argument that is not a flag, names no flag, or does not decode.

Modules, one file each:

| file | module | what |
|---|---|---|
| `wrappers.dfy` | `Wrappers` | `Option` |
| `libc.dfy` | `LibC` | C strings, `strncmp` with `strlen` as length, `strsep` on one delimiter, `sscanf("%d")` into an unbounded integer, `printf("%-*s")` |
| `flag_model.dfy` | `FlagModel` | storage values (`IntV`, `BoolV`, `DoubleV`), the caller-owned store (a map from storage address to value), the split of one argument, loop steps and parse outcomes |
| `c_parse_flags.dfy` | `CParseFlags` | the C variant: sanitising, init, the value parsers, the splitter, the parse loop, help layout |
| `cpp_flag_storage.dfy` | `CppFlagStorage` | `flag_storage_t` with its type tag, and the `parse_value` overloads |
| `cpp_parse_flags.dfy` | `CppParseFlags` | the `ParseFlags` class: registration, `is_help`, `parse_flag`, lookup, `parse_args`, help layout |
| `variants.dfy` | `Variants` | lemmas about the two variants side by side: where they agree and, on concrete inputs, where they differ |

Modelling choices:

- **Help and exit.**
  - Both variants exit the process after showing help. That is the outcome `Help`.
  - The help text itself is a separate pure function that returns its lines.
- **NULL values.** An argument without `=` gives a NULL value (from `strsep`), not an empty string.
  - A parser handed that NULL dereferences it (C) or fails an `assert` (C++).
  - The model ends the call with the outcome `Fault` instead.
- **Storage.** Storage is a map from address to value. Every contract says which addresses a call can change.
- **`%lf`.** The double scan is the parameter `scanDouble`.
- **`%d`.** Optional white space, an optional sign and at least one digit give an unbounded integer.
- **`strsep` in the C loop.** `strsep` writes a NUL over the first `=` of `argv[i]` before the help test reads it. `ArgAfterSplit` models this, and `HelpTestAfterSplit` proves the help decision is unaffected.
- **Argument count in C++.** `(size_t)argc - 1` wraps to `SIZE_MAX` when `argc` is 0 (`ArgumentCount`).

Facts about the code the model keeps:

- A token without `=` has a NULL value, not an empty string.
- `--help` is matched case-sensitively, as a prefix of the argument.
- Flags are not grouped into required and optional ones. The only count rules are these two:
  - C: `argc == 1` shows help (src/c/parse_flags.c:165-168).
  - C++: more arguments than registered flags shows help.
- The C help padding is the length of the longest message, not of the longest flag (see Findings).
- C++ `parse_args` with no argument after the program name returns 0 without showing help (`CppParseFlags.ParseArgs`). The comment on `show_help` (src/cpp/parse_flags.cpp:135-136) says help is shown when no arguments are given, which is what the C variant does.
- C++ `parse_args` is documented to return 0 or 1 (src/cpp/parse_flags.cpp:88-89). A value the matched flag cannot decode returns that parser's -1 (src/cpp/parse_flags.cpp:125-128; `CppParseFlags.DecodeFailureAborts`), so the codes are 0, 1 and -1.

## Model

| member | source | states |
|---|---|---|
| `LibC.StrNCmpEqIsPrefix` | src/c/parse_flags.c:184 | `strncmp(a, b, strlen(b)) == 0` holds exactly when the C string `b` is a prefix of `a` |
| `LibC.Strsep` | src/c/parse_flags.c:72-76 | the token never contains the delimiter; with no delimiter it is the whole input and the rest is NULL; otherwise token, delimiter and rest put back together give the input |
| `LibC.StrsepInverse` | src/c/parse_flags.c:72-76 | cutting `tok + "=" + rest` gives back `tok` and `rest` (the rest may contain further `=`); cutting a `tok` without `=` gives `tok` and NULL |
| `LibC.ScanSigned` | src/c/parse_flags.c:199 | after the white space, `%d` converts exactly when the text starts with a digit, or with `-` or `+` followed by a digit |
| `LibC.ScanInt` | src/c/parse_flags.c:197-201 | `%d` converts exactly when, after any leading white space, an optional sign and at least one digit follow (so `x5`, `- 5` and `-` are refused); in particular it converts whenever the input starts with a digit |
| `LibC.ScanIntDigits` | src/c/parse_flags.c:197-201 | `%d` on white space, an optional `+` or `-`, a run of digits (leading zeros allowed) and a non-digit tail stores the value of the sign and digits: `+5` is 5, `007` is 7, `-0` is 0 |
| `LibC.ScanSignedDigits` | src/c/parse_flags.c:199 | after the white space, `-` then digits reads as the negated digit value; `+` or no sign reads as the digit value |
| `LibC.ScanIntDecimal` | src/cpp/parse_flags.cpp:13-18 | round trip: `%d` reads back any integer printed in decimal, after any leading white space and before any non-digit tail |
| `LibC.PadRight` | src/c/parse_flags.c:144 | `%-*s` keeps the whole string (never truncates), pads it with blanks on the right up to the width, and is exactly the string when it is at least that wide |
| `CParseFlags.Sanitize` | src/c/parse_flags.c:27-45 | the result is 0 or -1, and 0 exactly when the array is non-NULL and none of its first `count` containers has a NULL message, flag, storage or parser |
| `CParseFlags.Init` | src/c/parse_flags.c:91-101 | -1 exactly when sanitising fails, and then the instance is unchanged; otherwise 0 and the instance holds the count, the array and no message |
| `CParseFlags.AddMessage` | src/c/parse_flags.c:109-112 | the message is replaced and the count and array are kept |
| `CParseFlags.ParseInt` | src/c/parse_flags.c:197-201 | 0 exactly when the value holds a `%d` field (white space, optional sign, a digit), and then an integer is written to the storage; otherwise -1 with the storage unchanged |
| `CParseFlags.ParseIntDigits` | src/c/parse_flags.c:197-201 | `parse_int` on any text `%d` accepts returns 0 and stores exactly the value of its sign and digits |
| `CParseFlags.ParseIntDecimal` | src/c/parse_flags.c:197-201 | `parse_int` stores exactly the integer whose decimal text the value starts with |
| `CParseFlags.ParseDouble` | src/c/parse_flags.c:203-207 | -1 exactly when the double scan fails, then the storage is unchanged; otherwise 0 and the scanned number is stored |
| `CParseFlags.ParseBool` | src/c/parse_flags.c:209-220 | a value starting with `true` stores int 1, else one starting with `false` stores int 0, else 1 is returned and nothing written |
| `CParseFlags.Decode` | src/c/parse_flags.c:185 | running a container's parser changes at most that container's storage, and a failure changes nothing |
| `CParseFlags.SplitFlag` | src/c/parse_flags.c:56-79 | "not a flag" exactly when the argument does not start with `--`; otherwise the name has no `=` and `--name[=value]` rebuilds the argument |
| `CParseFlags.SplitFlagToken` | src/c/parse_flags.c:64-78 | round trip: splitting `--name=value` (or `--name`) gives back `name` and the value (or NULL) |
| `CParseFlags.HelpTestAfterSplit` | src/c/parse_flags.c:171-172 | the `--help` test, reading `argv[i]` after `strsep` has cut it at `=`, decides as it would on the argument as given |
| `CParseFlags.HelpPrefixBeforeValue` | src/c/parse_flags.c:171-172 | `--name` starts with `--help` exactly when `--name=value` does, for a name without `=` |
| `CParseFlags.RunEntries` | src/c/parse_flags.c:182-190 | the inner loop faults exactly when the value is NULL and some container name is a prefix of the flag name; otherwise only the storage of matching containers can change, and a name no container matches changes nothing |
| `CParseFlags.RunEntriesAppend` | src/c/parse_flags.c:182-190 | the containers are visited in array order, each on the storage the earlier ones left |
| `CParseFlags.RunEntriesOne` | src/c/parse_flags.c:183-188 | a container's parser runs exactly when its name is a prefix of the flag name; a decode failure leaves the storage as it was and the loop goes on |
| `CParseFlags.CStepRunsEntries` | src/c/parse_flags.c:170-191 | for every flag argument that asks for no help, the step is the inner loop: it continues with the storage `RunEntries` leaves (every prefix-matching container's parser run in order), or faults on a NULL value that reaches a parser |
| `CParseFlags.CStep` | src/c/parse_flags.c:170-191 | per argument: `--help` (checked before the split error) gives help; no `--` gives return 1 with the storage unchanged; a name that matches nothing changes nothing; otherwise only matching containers' storage changes |
| `CParseFlags.CRun` | src/c/parse_flags.c:170-191 | the loop changes only storage that the arguments' flag names reach, and the only code it returns early is 1 |
| `CParseFlags.Parse` | src/c/parse_flags.c:158-193 | `argc == 1` gives help; a returned code is 0 or 1; only storage the arguments reach can change |
| `CParseFlags.CRunAppend` | src/c/parse_flags.c:170-191 | the loop never looks back: running `a + b` is running `a`, then `b` on the storage `a` left, unless `a` stopped the loop |
| `CParseFlags.SplitErrorAborts` | src/c/parse_flags.c:177-180 | the first argument without `--` returns 1 with everything earlier arguments wrote kept (no rollback) and the later arguments never read |
| `CParseFlags.HelpArgumentShowsHelp` | src/c/parse_flags.c:172-175 | an argument starting with `--help` shows help, whatever follows it |
| `CParseFlags.ReturnCodeOne` | src/c/parse_flags.c:177-192 | a returned code is 1 exactly when some argument does not start with `--`; unknown names and decode failures still return 0 |
| `CParseFlags.LongestMessage` | src/c/parse_flags.c:133-140 | the padding is the length of the longest message: no message is longer and some message has that length (0 with no containers) |
| `CParseFlags.HelpLine` | src/c/parse_flags.c:144 | a help line is `--`, the whole flag, blanks up to the padding + 5 column (or none if the flag is longer), then the message |
| `CParseFlags.HelpTextLayout` | src/c/parse_flags.c:129-145 | for any padding: the message line when one was set, then line `j` is laid out from container `j`'s flag and message, in array order |
| `CParseFlags.ShowHelp` | src/c/parse_flags.c:119-146 | the message line when one was set, then one line per container in array order; container `j`'s message starts after `--` and a field of the longest message length + 5, or after the whole flag when that is longer |
| `CParseFlags.ShowHelpMisaligned` | src/c/parse_flags.c:133-145 | as written, two help lines can start their messages at different columns (16 and 8 on the example) |
| `CParseFlags.LongestFlag` | src/c/parse_flags.c:133 | the length of the longest flag name, as the loop's own comment describes it: no flag is longer and some flag has that length |
| `CParseFlags.HelpTextColumns` | src/c/parse_flags.c:142-145 | padded by at least every flag's length, every help line's message starts in the same column, padding + 7 |
| `CParseFlags.ShowHelpAligned` | src/c/parse_flags.c:133-145 | with flag-name padding every message starts in one column, five past the end of the longest flag name, after `--` and the flag |
| `CppFlagStorage.ParseValueInt` | src/cpp/parse_flags.cpp:13-18 | 0 exactly when the value holds a `%d` field (white space, optional sign, a digit), and then an integer is written; otherwise -1 with the storage unchanged |
| `CppFlagStorage.ParseValueIntDigits` | src/cpp/parse_flags.cpp:13-18 | `parse_value` for `int` on any text `%d` accepts returns 0 and stores exactly the value of its sign and digits |
| `CppFlagStorage.ParseValueDouble` | src/cpp/parse_flags.cpp:20-24 | -1 exactly when the double scan fails, then the storage is unchanged; otherwise 0 and the scanned number is stored |
| `CppFlagStorage.ParseValueBool` | src/cpp/parse_flags.cpp:26-37 | a value starting with `true` stores true, else one starting with `false` stores false, else -1 is returned and nothing written |
| `CppFlagStorage.Parse` | src/cpp/parse_flags.hpp:39-49 | a descriptor's `parse` returns 0 or -1; a failure changes nothing; success writes only the descriptor's own storage, with a value of the storage's type |
| `CppFlagStorage.ParseKeepsWellTyped` | src/cpp/parse_flags.hpp:39-49 | type erasure is safe: if every storage holds a value of its descriptors' type before a `parse`, it still does after |
| `CppParseFlags.New` | src/cpp/parse_flags.hpp:60 | a new `ParseFlags` has no message and no flags |
| `CppParseFlags.AddFlag` | src/cpp/parse_flags.hpp:84-88 | exactly one descriptor, with the given flag, message, storage and type, is appended; the earlier ones keep their places and the message is kept |
| `CppParseFlags.AddMessage` | src/cpp/parse_flags.hpp:66 | the message is replaced by the given one, `nullptr` (no message) included, and the flags are kept |
| `CppParseFlags.IsHelp` | src/cpp/parse_flags.cpp:42-45 | true exactly when the argument starts with `--help` (case-sensitive) |
| `CppParseFlags.ParseFlag` | src/cpp/parse_flags.cpp:60-80 | "not a flag" exactly when the argument does not start with `--`; otherwise the name has no `=` and `--name[=value]` rebuilds the argument |
| `CppParseFlags.SplitToken` | src/cpp/parse_flags.cpp:74-79 | round trip: splitting `--name=value` (or `--name`) gives back `name` and the value (or NULL) |
| `CppParseFlags.FindFrom` | src/cpp/parse_flags.cpp:113-117 | from position `i`, the first descriptor whose name is a prefix of the flag name, and none before it; no result only when none matches |
| `CppParseFlags.FindFlag` | src/cpp/parse_flags.cpp:113-118 | the first descriptor in insertion order whose name is a prefix of the flag name; no result exactly when none matches |
| `CppParseFlags.AddFlagKeepsLookup` | src/cpp/parse_flags.cpp:113-117 | a later `add_flag` never shadows an earlier flag; a name that found nothing finds the new flag exactly when its name is a prefix |
| `CppParseFlags.Step` | src/cpp/parse_flags.cpp:102-129 | per argument: `--help` gives help; no `--` or no matching flag returns 1 with the storage unchanged; any early return keeps the storage and has code 1 or -1; only the matched flag's storage changes and it stays well typed |
| `CppParseFlags.Run` | src/cpp/parse_flags.cpp:102-130 | the loop changes only storage the arguments' flags reach, returns early only with 1 or -1, and keeps storage well typed |
| `CppParseFlags.ArgumentCount` | src/cpp/parse_flags.cpp:92 | `(size_t)argc - 1` is `argc - 1`, or `SIZE_MAX` when `argc` is 0 |
| `CppParseFlags.ParseArgs` | src/cpp/parse_flags.cpp:90-131 | more arguments than flags gives help before anything is read; no argument returns 0 with the storage unchanged; the code is 0, 1 or -1; only reached storage changes, and it stays well typed |
| `CppParseFlags.RunAppend` | src/cpp/parse_flags.cpp:102-129 | the loop never looks back: running `a + b` is running `a`, then `b` on the storage `a` left, unless `a` stopped the loop |
| `CppParseFlags.StopsAt` | src/cpp/parse_flags.cpp:102-129 | an argument that stops the loop decides the outcome; the arguments after it are never read |
| `CppParseFlags.HelpArgumentShowsHelp` | src/cpp/parse_flags.cpp:103-106 | `--help` shows help as soon as the loop reaches it, whatever follows |
| `CppParseFlags.UnmatchedArgumentAborts` | src/cpp/parse_flags.cpp:108-122 | an argument without `--`, or whose name finds no flag, returns 1 with everything earlier arguments wrote kept |
| `CppParseFlags.DecodeFailureAborts` | src/cpp/parse_flags.cpp:125-128 | a value the matched flag cannot decode returns -1 with everything earlier arguments wrote kept |
| `CppParseFlags.FirstMatchDecodes` | src/cpp/parse_flags.cpp:113-130 | one `--name=value` argument is decoded by the first matching flag into that flag's storage, and its code is returned |
| `CppParseFlags.LongestFlag` | src/cpp/parse_flags.cpp:146-152 | the padding is the length of the longest flag name: no flag is longer and some flag has that length (0 with no flags) |
| `CppParseFlags.HelpLine` | src/cpp/parse_flags.cpp:155-157 | a help line is ` --`, the flag, blanks up to padding + `PARSE_FLAGS_DEFAULT_PAD`, then the message |
| `CppParseFlags.HelpTextLayout` | src/cpp/parse_flags.cpp:142-158 | for any padding at least every flag's length: the message line when one was set, then line `j` is laid out from flag `j`, its message at column padding + 8 |
| `CppParseFlags.ShowHelp` | src/cpp/parse_flags.cpp:137-158 | the message line when one was set, then one line per flag in insertion order, each message starting in the same column, five past ` --` and the longest flag name |
| `Variants.SplittersAgree` | src/cpp/parse_flags.cpp:66-79 | the C and the C++ splitters cut every argument the same way |
| `Variants.FlagNameUnique` | src/c/parse_flags.c:72-76 | an argument determines its flag name and value: the name ends at the first `=` |
| `Variants.BoolDecodersDiffer` | src/cpp/parse_flags.cpp:26-37 | the C bool parser stores int 1 and fails with 1; the C++ one stores `true` and fails with -1; both accept `true...`/`false...` prefixes |
| `Variants.CRunsEveryMatch` | src/c/parse_flags.c:182-190 | with flags `a` and `ab`, the C inner loop runs both parsers on `--abc=7` |
| `Variants.CArgumentRunsEveryMatch` | src/c/parse_flags.c:170-192 | the C loop on `--abc=7` writes 7 to both `a`'s and `ab`'s storage |
| `Variants.CppArgumentFirstMatch` | src/cpp/parse_flags.cpp:113-130 | the C++ parse of `--abc=7` writes only `a`'s storage and returns 0 |
| `Variants.LookupDiffers` | src/cpp/parse_flags.cpp:113-117 | on the same flags and argument, C runs every prefix match and C++ only the first |
| `Variants.CDecodeFailurePassedOver` | src/c/parse_flags.c:185-188 | the C loop passes over a value that does not decode, leaving the storage as it was |
| `Variants.CppDecodeFailureAborts` | src/cpp/parse_flags.cpp:125-128 | the C++ parse of `--a=x --a=4` returns -1 at the first argument and never applies the second |
| `Variants.DecodeFailureDiffers` | src/cpp/parse_flags.cpp:125-128 | after a decode failure C goes on (a later argument still takes effect) while C++ returns -1 at once |

## Left out

- `printf` output (help text on stdout, the `error: ...` and `flag never set` diagnostics): the help text is a function returning its lines; diagnostics are not modelled.
- `exit(1)` / `std::exit(1)`: modelled as the outcome `Help`, so the `break` after `show_help()` in the C++ loop and the `return 1` after it in the arity check are unreachable and not modelled.
- `sscanf("%lf")`: floating point; the scan is the parameter `scanDouble` of the double parsers.
- CParseFlags.ParseDouble: the stored value is a Dafny `real` (`DoubleV`), which has no NaN and no infinities, so what `%lf` stores for `nan` or `inf` has no counterpart; a finite double is modelled by its exact value, without rounding.
- CppFlagStorage.ParseValueDouble: the same `real` carrier; NaN and the infinities are not modelled.
- Characters: a Dafny `char` stands for one byte of a C string. `strlen` and `%-*s` count bytes, so for text in a multi-byte encoding (UTF-8 `é` is two bytes) the widths below differ from the source's.
- LibC.PadRight: pads to a width counted in `char`s, not bytes.
- CParseFlags.LongestMessage: a message's length is counted in `char`s, not the bytes `strlen` counts.
- CParseFlags.LongestFlag: a flag's length is counted in `char`s, not bytes.
- CppParseFlags.LongestFlag: a flag's length is counted in `char`s, not the bytes `strlen` counts.
- CParseFlags.ParseInt: `%d` into a 32-bit `int` overflows for large numbers; the model's integer is unbounded.
- CppFlagStorage.ParseValueInt: the same `%d` overflow is not modelled; the integer is unbounded.
- LibC.ScanInt: leaves overflow out; a number too large for `int` is read exactly.
- NULL `input`/`flag_str`/`value_str` guards of `parse_flags_split_flag` and the `assert`s of `parse_flag` and `parse_value`: the loops always pass valid pointers; a NULL value reaching a parser is the outcome `Fault`.
- The `flag_str == NULL` test after `strsep` in C (src/c/parse_flags.c:73): it tests the out-parameter, which line 60 has already found non-NULL, so the branch is dead.
- The `*flag == NULL` test in C++ (src/cpp/parse_flags.cpp:74-77): it tests `strsep`'s result, which is never NULL for a non-NULL string, so this branch is dead too.
- `parse_flags_show_help` with a NULL instance: the model has no NULL instance; `CParseFlags.Parse` requires an instance that `parse_flags_init` accepted, and `CParseFlags.ShowHelp` takes that instance's message and containers.
- Parser functions other than the library's three (a caller may plug in any `parser_func_t`): only `parse_int`, `parse_double` and `parse_bool` are modelled.
- Storage type other than `int`, `double` and `bool` in the C++ template: only these three have a `parse_value` overload.
- CppParseFlags.AddFlag: the message is documented as optional (src/cpp/parse_flags.hpp:83), but the model's message is a plain string. A NULL message would reach `show_help`'s `printf("%s")`, which is undefined behaviour, so it is not modelled.
- CppParseFlags.ParseArgs: `argc` is assumed non-negative and at most `INT_MAX`, and `size_t` 64 bits wide.
- `ParseFlagStatus`, the deleted copy operations and `src/c/parse_flags.h` (declarations only, disagreeing with the `.c` file): no behaviour; the model follows `src/c/parse_flags.c`.
- The demo programs `demo/test_main.c` and `demo/test_main.cpp`, including their ad-hoc string parser: callers, not part of this model.
- Helper members without a row (`SkipSpace`, `DigitRun`, `ScanDigits`, `ScanSignedNegative`, `Blanks`, `Entries`, `MatchedAddrsTail`, `Finish`, `SignedField`, `HasIntField`, `SignedValue`, `ScanDigitsRun`, `Padding`, `PaddingByFlag`, `Skip`, `HelpText`, `HelpTextLine`, the concrete flag tables and one-step lemmas in `Variants`, …) support the proofs of the members above.

## Findings

| source | as written | input that shows it | evidently intended | confidence | as-written member | corrected member |
|---|---|---|---|---|---|---|
| src/c/parse_flags.c:133-144 | the help padding is the length of the longest *message* (`strlen(curr->message)`), though the comment above the loop says "the length of the longest flag" | flags `long-flag-name` (message `m`) and `a` (message `n`): padding 1, field width 6, the messages start at columns 16 and 8 | padding by the longest flag name, as the comment says and as the C++ `show_help` does, so every message starts in one column | likely; not executed | `CParseFlags.ShowHelpMisaligned` | `CParseFlags.ShowHelpAligned` |
