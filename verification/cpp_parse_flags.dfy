/** The C++ variant of the flag parser: the `ParseFlags` class of
    `src/cpp/parse_flags.hpp` and `src/cpp/parse_flags.cpp`.

    Flags are registered one by one with `add_flag`. `parse_args` first
    rejects more arguments than registered flags, then walks the arguments:
    `--help` shows help, an argument is split at its first `=`, the FIRST
    registered flag (in insertion order) whose name is a prefix of the
    argument's flag name parses the value, and any failure — not a flag, no
    matching flag, a value that does not decode — ends the call at once. */
module CppParseFlags {
  import opened Wrappers
  import opened LibC
  import opened FlagModel
  import opened CppFlagStorage

  /** A `ParseFlags` object: the optional help message and the registered
      descriptors in insertion order. */
  datatype ParseFlags = ParseFlags(message: Option<string>, flags: seq<FlagStorage>)

  /** Every registered flag name is a C string (it comes from a `const char *`). */
  predicate NamesAreCStrings(flags: seq<FlagStorage>) {
    forall j :: 0 <= j < |flags| ==> IsCString(flags[j].flag)
  }

  /** `ParseFlags()`: no message and no flags. */
  function New(): (pf: ParseFlags)
    ensures pf.message.None? && |pf.flags| == 0
  {
    ParseFlags(None, [])
  }

  /** `add_flag(flag, storage, message)`: exactly one descriptor, built from
      these arguments, is appended; the earlier ones keep their places. */
  function AddFlag(pf: ParseFlags, flag: string, storage: Addr, ty: StorageType, message: string): (r: ParseFlags)
    ensures |r.flags| == |pf.flags| + 1
    ensures r.flags[..|pf.flags|] == pf.flags
    ensures r.flags[|pf.flags|] == FlagStorage(flag, message, storage, ty)
    ensures r.message == pf.message
  {
    pf.(flags := pf.flags + [FlagStorage(flag, message, storage, ty)])
  }

  /** `add_message(message)`: replaces the message (`None` for `nullptr`,
      which `show_help` then leaves out); the flags stay as they are. */
  function AddMessage(pf: ParseFlags, message: Option<string>): (r: ParseFlags)
    ensures r.message == message
    ensures r.flags == pf.flags
  {
    pf.(message := message)
  }

  // ---------------------------------------------------------------------------
  // One argument

  /** `ParseFlags::is_help`: the argument begins with `--help` (case matters). */
  function IsHelp(input: string): (r: bool)
    ensures r <==> "--help" <= input
  {
    StrNCmpEqIsPrefix(input, "--help");
    StrNCmpEq(input, "--help", |"--help"|)
  }

  /** `ParseFlags::parse_flag`: 1 ("not a flag") unless both of the first two
      characters are `-`; otherwise the rest is cut by `strsep` at the first
      `=`. `strsep` never yields NULL here, so the `*flag == NULL` branch
      cannot be taken. */
  function ParseFlag(input: string): (r: Split)
    ensures r.NotAFlag? <==> !("--" <= input)
    ensures r.Flag? ==> '=' !in r.name && input == Token(r.name, r.value)
  {
    if Head(input) != '-' then NotAFlag
    else if Head(input[1..]) != '-' then NotAFlag
    else
      var (flag, rest) := Strsep(input[2..], '=');
      assert input == "--" + input[2..];
      Flag(flag, rest)
  }

  /** `std::find_if` from index `i` on, with the predicate
      `strncmp(flag, node.flag, strlen(node.flag)) == 0`. */
  function FindFrom(flags: seq<FlagStorage>, name: string, i: nat): (r: Option<nat>)
    requires NamesAreCStrings(flags)
    requires i <= |flags|
    ensures r.Some? ==> i <= r.value < |flags| && flags[r.value].flag <= name
    ensures r.Some? ==> forall k :: i <= k < r.value ==> !(flags[k].flag <= name)
    ensures r.None? ==> forall k :: i <= k < |flags| ==> !(flags[k].flag <= name)
    decreases |flags| - i
  {
    if i == |flags| then None
    else
      StrNCmpEqIsPrefix(name, flags[i].flag);
      if StrNCmpEq(name, flags[i].flag, |flags[i].flag|) then Some(i)
      else FindFrom(flags, name, i + 1)
  }

  /** The lookup in `parse_args`: the FIRST descriptor, in insertion order,
      whose name is a prefix of `name`; `None` when there is none. */
  function FindFlag(flags: seq<FlagStorage>, name: string): (r: Option<nat>)
    requires NamesAreCStrings(flags)
    ensures r.Some? ==> r.value < |flags| && flags[r.value].flag <= name
    ensures r.Some? ==> forall k :: 0 <= k < r.value ==> !(flags[k].flag <= name)
    ensures r.None? ==> forall k :: 0 <= k < |flags| ==> !(flags[k].flag <= name)
  {
    FindFrom(flags, name, 0)
  }

  /** A later registration never shadows an earlier one: a name that already
      found a descriptor finds the same one after `add_flag`, and a name that
      found none finds the new descriptor exactly when its name is a prefix. */
  lemma AddFlagKeepsLookup(pf: ParseFlags, flag: string, storage: Addr, ty: StorageType, message: string, name: string)
    requires NamesAreCStrings(pf.flags) && IsCString(flag)
    ensures NamesAreCStrings(AddFlag(pf, flag, storage, ty, message).flags)
    ensures FindFlag(pf.flags, name).Some? ==>
      FindFlag(AddFlag(pf, flag, storage, ty, message).flags, name) == FindFlag(pf.flags, name)
    ensures FindFlag(pf.flags, name).None? ==>
      FindFlag(AddFlag(pf, flag, storage, ty, message).flags, name) ==
        if flag <= name then Some(|pf.flags|) else None
  {
    var flags' := AddFlag(pf, flag, storage, ty, message).flags;
    assert forall k :: 0 <= k < |pf.flags| ==> flags'[k] == pf.flags[k];
    var r := FindFlag(flags', name);
    var r0 := FindFlag(pf.flags, name);
    if r0.Some? {
      assert r.Some?;
    }
  }

  /** The storage one argument can write: that of the first descriptor its
      flag name finds. */
  function Target(flags: seq<FlagStorage>, arg: string): set<Addr>
    requires NamesAreCStrings(flags)
  {
    match ParseFlag(arg)
    case NotAFlag => {}
    case Flag(name, _) =>
      match FindFlag(flags, name)
      case None => {}
      case Some(j) => {flags[j].repr}
  }

  /** One iteration of the argument loop of `ParseFlags::parse_args`. */
  function Step(flags: seq<FlagStorage>, arg: string, store: Store, scanDouble: string -> Option<real>): (r: Step)
    requires NamesAreCStrings(flags)
    ensures "--help" <= arg ==> r == Stop(Help)
    ensures !("--help" <= arg) && !("--" <= arg) ==> r == Stop(Return(1, store))
    ensures (&& !("--help" <= arg)
             && ParseFlag(arg).Flag?
             && forall k :: 0 <= k < |flags| ==> !(flags[k].flag <= ParseFlag(arg).name))
            ==> r == Stop(Return(1, store))
    ensures r.Stop? && r.outcome.Return? ==>
      r.outcome.store == store && (r.outcome.code == 1 || r.outcome.code == -1)
    ensures r.Continue? ==> SameOutside(store, r.store, Target(flags, arg))
    ensures r.Continue? && Consistent(flags) && WellTyped(store, flags) ==> WellTyped(r.store, flags)
  {
    if IsHelp(arg) then Stop(Help)
    else
      match ParseFlag(arg)
      case NotAFlag => Stop(Return(1, store))
      case Flag(name, value) =>
        match FindFlag(flags, name)
        case None => Stop(Return(1, store))
        case Some(j) =>
          if value.None? then Stop(Fault)
          else
            var (rc, s) := Parse(flags[j], value.value, store, scanDouble);
            if rc != 0 then Stop(Return(rc, s))
            else
              assert Consistent(flags) && WellTyped(store, flags) ==> WellTyped(s, flags) by {
                if Consistent(flags) && WellTyped(store, flags) {
                  ParseKeepsWellTyped(flags, j, value.value, store, scanDouble);
                }
              }
              Continue(s)
  }

  /** Every storage the arguments in `args` can write. */
  function WrittenBy(flags: seq<FlagStorage>, args: seq<string>): set<Addr>
    requires NamesAreCStrings(flags)
    decreases |args|
  {
    if |args| == 0 then {} else Target(flags, args[0]) + WrittenBy(flags, args[1..])
  }

  /** The argument loop, one argument after the other. */
  function Run(flags: seq<FlagStorage>, args: seq<string>, store: Store, scanDouble: string -> Option<real>): (r: Step)
    requires NamesAreCStrings(flags)
    ensures r.Continue? ==> SameOutside(store, r.store, WrittenBy(flags, args))
    ensures r.Stop? && r.outcome.Return? ==>
      (r.outcome.code == 1 || r.outcome.code == -1) && SameOutside(store, r.outcome.store, WrittenBy(flags, args))
    ensures Consistent(flags) && WellTyped(store, flags) ==>
      (r.Continue? ==> WellTyped(r.store, flags)) && (r.Stop? && r.outcome.Return? ==> WellTyped(r.outcome.store, flags))
    decreases |args|
  {
    if |args| == 0 then Continue(store)
    else
      match Step(flags, args[0], store, scanDouble)
      case Continue(s) =>
        var r := Run(flags, args[1..], s, scanDouble);
        assert r.Continue? ==> SameOutside(store, r.store, WrittenBy(flags, args)) by {
          if r.Continue? {
            SameOutsideTrans(store, s, r.store, Target(flags, args[0]), WrittenBy(flags, args[1..]), WrittenBy(flags, args));
          }
        }
        assert r.Stop? && r.outcome.Return? ==> SameOutside(store, r.outcome.store, WrittenBy(flags, args)) by {
          if r.Stop? && r.outcome.Return? {
            SameOutsideTrans(store, s, r.outcome.store, Target(flags, args[0]), WrittenBy(flags, args[1..]), WrittenBy(flags, args));
          }
        }
        r
      case Stop(o) => Stop(o)
  }

  /** `SIZE_MAX` of a 64-bit `size_t`. */
  const SizeMax: nat := 0xFFFF_FFFF_FFFF_FFFF

  /** `INT_MAX`: `argc` is a C `int`. */
  const IntMax: nat := 0x7FFF_FFFF

  /** `(size_t)argc - 1`: wraps around to `SIZE_MAX` when `argc` is 0. */
  function ArgumentCount(argc: nat): (n: nat)
    requires argc <= IntMax
    ensures argc > 0 ==> n == argc - 1
    ensures argc == 0 ==> n == SizeMax
  {
    (argc - 1) % (SizeMax + 1)
  }

  /** `ParseFlags::parse_args(argc, argv)`. More arguments than registered
      flags: help, before any argument is looked at. Otherwise the loop
      above; a failure returns 1 (not a flag, no matching flag) or -1 (a
      value that does not decode), running off the end returns 0. Only the
      storage of the descriptors the arguments found can change, and it keeps
      its type. */
  function ParseArgs(pf: ParseFlags, argv: seq<string>, store: Store, scanDouble: string -> Option<real>): (r: Outcome)
    requires NamesAreCStrings(pf.flags)
    requires |argv| <= IntMax
    ensures |argv| > 0 && |argv| - 1 > |pf.flags| ==> r == Help
    ensures |argv| == 0 && |pf.flags| < SizeMax ==> r == Help
    ensures |argv| == 1 ==> r == Return(0, store)
    ensures r.Return? ==> r.code == 0 || r.code == 1 || r.code == -1
    ensures r.Return? ==> SameOutside(store, r.store, WrittenBy(pf.flags, Arguments(argv)))
    ensures r.Return? && Consistent(pf.flags) && WellTyped(store, pf.flags) ==> WellTyped(r.store, pf.flags)
  {
    if ArgumentCount(|argv|) > |pf.flags| then Help
    else Finish(Run(pf.flags, Arguments(argv), store, scanDouble))
  }

  // ---------------------------------------------------------------------------
  // Properties of the argument loop

  /** The loop never looks back and never undoes: running `a + b` is running
      `a`, then — only if `a` did not stop the loop — `b` on the storage `a`
      left. */
  lemma {:induction false} RunAppend(flags: seq<FlagStorage>, a: seq<string>, b: seq<string>, store: Store,
                                     scanDouble: string -> Option<real>)
    requires NamesAreCStrings(flags)
    ensures Run(flags, a + b, store, scanDouble) ==
            match Run(flags, a, store, scanDouble)
            case Continue(s) => Run(flags, b, s, scanDouble)
            case Stop(o) => Stop(o)
    decreases |a|
  {
    if |a| == 0 {
      assert a + b == b;
    } else {
      assert (a + b)[0] == a[0];
      assert (a + b)[1..] == a[1..] + b;
      match Step(flags, a[0], store, scanDouble)
      case Continue(s) => RunAppend(flags, a[1..], b, s, scanDouble);
      case Stop(_) =>
    }
  }

  /** The argument `bad` ends the loop with `Step`'s verdict on it, applied to
      the storage the arguments before it left; what follows is never read. */
  lemma StopsAt(flags: seq<FlagStorage>, before: seq<string>, bad: string, after: seq<string>,
                store: Store, scanDouble: string -> Option<real>)
    requires NamesAreCStrings(flags)
    requires Run(flags, before, store, scanDouble).Continue?
    requires Step(flags, bad, Run(flags, before, store, scanDouble).store, scanDouble).Stop?
    ensures Run(flags, before + [bad] + after, store, scanDouble) ==
            Step(flags, bad, Run(flags, before, store, scanDouble).store, scanDouble)
  {
    RunAppend(flags, before, [bad] + after, store, scanDouble);
    assert before + [bad] + after == before + ([bad] + after);
    assert ([bad] + after)[0] == bad;
  }

  /** `--help` shows help as soon as the loop reaches it; the arguments after
      it are never examined. */
  lemma HelpArgumentShowsHelp(flags: seq<FlagStorage>, before: seq<string>, help: string, after: seq<string>,
                              store: Store, scanDouble: string -> Option<real>)
    requires NamesAreCStrings(flags)
    requires Run(flags, before, store, scanDouble).Continue?
    requires "--help" <= help
    ensures Finish(Run(flags, before + [help] + after, store, scanDouble)) == Help
  {
    StopsAt(flags, before, help, after, store, scanDouble);
  }

  /** An argument not starting with `--`, or whose flag name finds no
      registered flag, returns 1; what the arguments before it wrote stays
      written. */
  lemma UnmatchedArgumentAborts(flags: seq<FlagStorage>, before: seq<string>, bad: string, after: seq<string>,
                                store: Store, scanDouble: string -> Option<real>)
    requires NamesAreCStrings(flags)
    requires Run(flags, before, store, scanDouble).Continue?
    requires !("--help" <= bad)
    requires !("--" <= bad) || FindFlag(flags, ParseFlag(bad).name).None?
    ensures Finish(Run(flags, before + [bad] + after, store, scanDouble))
            == Return(1, Run(flags, before, store, scanDouble).store)
  {
    StopsAt(flags, before, bad, after, store, scanDouble);
  }

  /** A value the first matching flag cannot decode returns -1; what the
      arguments before it wrote stays written. */
  lemma DecodeFailureAborts(flags: seq<FlagStorage>, before: seq<string>, name: string, v: string, after: seq<string>,
                            store: Store, scanDouble: string -> Option<real>)
    requires NamesAreCStrings(flags)
    requires '=' !in name && !("--help" <= Token(name, Some(v)))
    requires Run(flags, before, store, scanDouble).Continue?
    requires FindFlag(flags, name).Some?
    requires Parse(flags[FindFlag(flags, name).value], v, Run(flags, before, store, scanDouble).store, scanDouble).0 != 0
    ensures Finish(Run(flags, before + [Token(name, Some(v))] + after, store, scanDouble))
            == Return(-1, Run(flags, before, store, scanDouble).store)
  {
    SplitToken(name, Some(v));
    StopsAt(flags, before, Token(name, Some(v)), after, store, scanDouble);
  }

  /** The splitter undoes `Token`. */
  lemma SplitToken(name: string, value: Option<string>)
    requires '=' !in name
    ensures ParseFlag(Token(name, value)) == Flag(name, value)
  {
    var t := Token(name, value);
    match value
    case None =>
      StrsepInverse(name, '=', "");
      assert t[2..] == name;
    case Some(v) =>
      StrsepInverse(name, '=', v);
      assert t[2..] == name + "=" + v;
  }

  /** A single `--name=value` argument is decoded by the FIRST registered flag
      whose name is a prefix of `name`, into that flag's storage, and 0 is
      returned; or -1 with the storage unchanged when the value does not
      decode. */
  lemma FirstMatchDecodes(pf: ParseFlags, prog: string, name: string, v: string, store: Store,
                          scanDouble: string -> Option<real>)
    requires NamesAreCStrings(pf.flags)
    requires '=' !in name && !("--help" <= Token(name, Some(v)))
    requires FindFlag(pf.flags, name).Some?
    ensures var r := Parse(pf.flags[FindFlag(pf.flags, name).value], v, store, scanDouble);
            ParseArgs(pf, [prog, Token(name, Some(v))], store, scanDouble) == Return(r.0, r.1)
  {
    var tok := Token(name, Some(v));
    SplitToken(name, Some(v));
    var args := [prog, tok];
    assert Arguments(args) == [tok];
    assert [tok][1..] == [];
    var j := FindFlag(pf.flags, name).value;
    var (rc, s) := Parse(pf.flags[j], v, store, scanDouble);
    assert !IsHelp(tok);
    assert Step(pf.flags, tok, store, scanDouble) == if rc != 0 then Stop(Return(rc, s)) else Continue(s);
    assert ArgumentCount(|args|) <= |pf.flags|;
    assert Run(pf.flags, [], s, scanDouble) == Continue(s);
    assert Run(pf.flags, [tok], store, scanDouble) == if rc != 0 then Stop(Return(rc, s)) else Continue(s);
    assert ParseArgs(pf, args, store, scanDouble) == Finish(Run(pf.flags, [tok], store, scanDouble));
  }

  // ---------------------------------------------------------------------------
  // Help text

  /** The loop computing `padding` in `ParseFlags::show_help`: the length of
      the longest flag name, 0 when there are no flags. */
  function LongestFlag(flags: seq<FlagStorage>): (pad: nat)
    ensures forall j :: 0 <= j < |flags| ==> |flags[j].flag| <= pad
    ensures |flags| == 0 ==> pad == 0
    ensures |flags| > 0 ==> exists j :: 0 <= j < |flags| && |flags[j].flag| == pad
    decreases |flags|
  {
    if |flags| == 0 then 0
    else
      var init := flags[..|flags| - 1];
      var p := LongestFlag(init);
      assert forall j :: 0 <= j < |init| ==> init[j] == flags[j];
      if |flags[|flags| - 1].flag| > p then |flags[|flags| - 1].flag| else p
  }

  /** `padding`, the padding `ParseFlags::show_help` uses. */
  function Padding(flags: seq<FlagStorage>): nat {
    LongestFlag(flags)
  }

  /** `printf(" --%*s%s\n", -(padding + PARSE_FLAGS_DEFAULT_PAD), flag, message)`:
      a blank and two dashes, the flag left-justified in `pad + 5` columns, the
      message. */
  function HelpLine(d: FlagStorage, pad: nat): (line: string)
    requires |d.flag| <= pad
    ensures LaidOut(line, " --", d.flag, d.message, 3 + pad + DefaultPad)
  {
    var field := PadRight(d.flag, pad + DefaultPad);
    assert " --" + field + d.message == " --" + d.flag + Blanks(|field| - |d.flag|) + d.message;
    " --" + field + d.message
  }

  /** The message line when one was set, then `HelpLine(flags[j], pad)` for
      each flag in insertion order. */
  function HelpText(message: Option<string>, flags: seq<FlagStorage>, pad: nat): seq<string>
    requires forall j :: 0 <= j < |flags| ==> |flags[j].flag| <= pad
  {
    seq(Skip(message) + |flags|, i requires 0 <= i < Skip(message) + |flags| =>
      if i < Skip(message) then message.value else HelpLine(flags[i - Skip(message)], pad))
  }

  /** Line `skip + j` of the help text is the help line of flag `j`. */
  lemma HelpTextLine(message: Option<string>, flags: seq<FlagStorage>, pad: nat, j: nat)
    requires forall j :: 0 <= j < |flags| ==> |flags[j].flag| <= pad
    requires j < |flags|
    ensures HelpText(message, flags, pad)[Skip(message) + j] == HelpLine(flags[j], pad)
  {
  }

  /** The help text padded by at least the longest flag name: the message
      line when there is one, then one line per flag, every message in the
      same column. */
  lemma HelpTextLayout(message: Option<string>, flags: seq<FlagStorage>, pad: nat)
    requires forall j :: 0 <= j < |flags| ==> |flags[j].flag| <= pad
    ensures |HelpText(message, flags, pad)| == Skip(message) + |flags|
    ensures message.Some? ==> HelpText(message, flags, pad)[0] == message.value
    ensures forall j :: 0 <= j < |flags| ==>
      LaidOut(HelpText(message, flags, pad)[Skip(message) + j], " --", flags[j].flag, flags[j].message, 3 + pad + DefaultPad)
  {
    forall j | 0 <= j < |flags|
      ensures LaidOut(HelpText(message, flags, pad)[Skip(message) + j], " --", flags[j].flag, flags[j].message, 3 + pad + DefaultPad)
    {
      HelpTextLine(message, flags, pad, j);
    }
  }

  /** `ParseFlags::show_help`: the message if one was set, then one line per
      flag in insertion order; every message starts in the same column, five
      past the end of the longest flag name. */
  function ShowHelp(pf: ParseFlags): (lines: seq<string>)
    ensures |lines| == Skip(pf.message) + |pf.flags|
    ensures pf.message.Some? ==> lines[0] == pf.message.value
    ensures forall j :: 0 <= j < |pf.flags| ==>
      LaidOut(lines[Skip(pf.message) + j], " --", pf.flags[j].flag, pf.flags[j].message, 3 + Padding(pf.flags) + DefaultPad)
  {
    HelpTextLayout(pf.message, pf.flags, Padding(pf.flags));
    HelpText(pf.message, pf.flags, Padding(pf.flags))
  }
}
