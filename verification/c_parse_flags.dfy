/** The C variant of the flag parser (`src/c/parse_flags.c`).

    The caller hands over an array of `flag_container_t` records, each with a
    help message, a flag name, a pointer to storage and a pointer to one of
    the library's parser functions. `parse_flags_parse` walks the arguments,
    splits each `--name=value`, and runs the parser of EVERY container whose
    name is a prefix of the argument's flag name. Names that match nothing and
    values that fail to decode are passed over; only an argument that does not
    start with `--` stops the loop early. */
module CParseFlags {
  import opened Wrappers
  import opened LibC
  import opened FlagModel

  /** The parser functions the library provides: `parse_int`, `parse_double`, `parse_bool`. */
  datatype Parser = ParseIntFn | ParseDoubleFn | ParseBoolFn

  /** `flag_container_t`; each `None` is a NULL pointer. */
  datatype Container = Container(
    message: Option<string>,
    flag: Option<string>,
    storage: Option<Addr>,
    parser: Option<Parser>)

  /** `parse_flags_t`: the number of containers, the array (`None` for NULL)
      and the message shown before the help lines. */
  datatype Instance = Instance(totalFlags: int, flags: Option<seq<Container>>, message: Option<string>)

  predicate NonNull(c: Container) {
    c.message.Some? && c.flag.Some? && c.storage.Some? && c.parser.Some?
  }

  /** The caller's promise that indices `0 .. count-1` of a non-NULL array exist. */
  predicate Readable(flags: Option<seq<Container>>, count: int) {
    flags.Some? ==> count <= |flags.value|
  }

  /** What `parse_flags_sanitize_input` accepts: a non-NULL array whose first
      `count` containers have no NULL field. */
  predicate Sane(flags: Option<seq<Container>>, count: int)
    requires Readable(flags, count)
  {
    flags.Some? && forall i :: 0 <= i < count ==> NonNull(flags.value[i])
  }

  /** `parse_flags_sanitize_input`: -1 for a NULL array or a container with a
      NULL field among the first `count`, 0 otherwise. */
  method Sanitize(flags: Option<seq<Container>>, count: int) returns (rc: int)
    requires Readable(flags, count)
    ensures rc == 0 || rc == -1
    ensures rc == 0 <==> Sane(flags, count)
  {
    if flags.None? {
      return -1;
    }
    var i := 0;
    while i < count
      invariant 0 <= i && (i <= count || i == 0)
      invariant forall k :: 0 <= k < i ==> NonNull(flags.value[k])
    {
      if !NonNull(flags.value[i]) {
        return -1;
      }
      i := i + 1;
    }
    return 0;
  }

  /** Every registered flag name is a C string (it comes from a `const char *`). */
  predicate NamesAreCStrings(flags: seq<Container>, count: int) {
    forall i :: 0 <= i < count && i < |flags| && flags[i].flag.Some? ==> IsCString(flags[i].flag.value)
  }

  /** An instance `parse_flags_parse` and `parse_flags_show_help` can work on:
      one `parse_flags_init` accepted, whose names are C strings. */
  predicate Ready(inst: Instance) {
    && Readable(inst.flags, inst.totalFlags)
    && Sane(inst.flags, inst.totalFlags)
    && NamesAreCStrings(inst.flags.value, inst.totalFlags)
  }

  /** `parse_flags_init`: when sanitising fails, -1 and the instance as it was;
      otherwise 0, and the instance records the count and the array and has
      no message. */
  method Init(flags: Option<seq<Container>>, count: int, inst: Instance) returns (rc: int, inst': Instance)
    requires Readable(flags, count)
    requires flags.Some? ==> NamesAreCStrings(flags.value, count)
    ensures rc == 0 || rc == -1
    ensures rc == -1 <==> !Sane(flags, count)
    ensures rc == -1 ==> inst' == inst
    ensures rc == 0 ==> inst' == Instance(count, flags, None) && Ready(inst')
  {
    rc := Sanitize(flags, count);
    if rc != 0 {
      return -1, inst;
    }
    inst' := Instance(count, flags, None);
  }

  /** `parse_flags_add_message`: the help message is replaced; the flags are untouched. */
  function AddMessage(inst: Instance, message: Option<string>): (r: Instance)
    ensures r.message == message
    ensures r.totalFlags == inst.totalFlags && r.flags == inst.flags
  {
    inst.(message := message)
  }

  // ---------------------------------------------------------------------------
  // The containers a ready instance exposes

  /** A container whose pointers are known to be non-NULL. */
  datatype Entry = Entry(message: string, flag: string, storage: Addr, parser: Parser)

  /** The containers `0 .. total_flags-1` of a ready instance, in array order. */
  function Entries(inst: Instance): (es: seq<Entry>)
    requires Ready(inst)
    ensures |es| == if inst.totalFlags < 0 then 0 else inst.totalFlags
    ensures forall j :: 0 <= j < |es| ==> IsCString(es[j].flag)
  {
    var n := if inst.totalFlags < 0 then 0 else inst.totalFlags;
    seq(n, j requires 0 <= j < n =>
      var c := inst.flags.value[j];
      Entry(c.message.value, c.flag.value, c.storage.value, c.parser.value))
  }

  predicate EntryNamesAreCStrings(es: seq<Entry>) {
    forall j :: 0 <= j < |es| ==> IsCString(es[j].flag)
  }

  // ---------------------------------------------------------------------------
  // Value parsers

  /** `parse_int`: `sscanf(str, "%d", storage)`; 0 with the integer written
      when the conversion succeeds, -1 with the storage untouched when not. */
  function ParseInt(str: string, storage: Addr, store: Store): (r: (int, Store))
    ensures r.0 == 0 || r.0 == -1
    ensures r.0 == 0 <==> HasIntField(str)
    ensures r.0 == -1 ==> r.1 == store
    ensures r.0 == 0 ==> exists n :: r.1 == store[storage := IntV(n)]
    ensures (forall i :: 0 <= i < |str| ==> !IsDigit(str[i])) ==> r == (-1, store)
  {
    match ScanInt(str)
    case Some(n) => (0, store[storage := IntV(n)])
    case None => (-1, store)
  }

  /** `parse_int` stores the number `printf("%d")` printed, surrounded by
      leading blanks and any non-digit tail. */
  lemma ParseIntDecimal(ws: string, n: int, rest: string, storage: Addr, store: Store)
    requires forall i :: 0 <= i < |ws| ==> IsSpace(ws[i])
    requires |rest| == 0 || !IsDigit(rest[0])
    ensures ParseInt(ws + DecimalString(n) + rest, storage, store) == (0, store[storage := IntV(n)])
  {
    ScanIntDecimal(ws, n, rest);
  }

  /** `parse_int` on any text `%d` accepts stores the value of its sign and
      digits (`+5`, `007`, `-0` and `-007x` included). */
  lemma ParseIntDigits(ws: string, sign: string, d: string, rest: string, storage: Addr, store: Store)
    requires forall i :: 0 <= i < |ws| ==> IsSpace(ws[i])
    requires sign == "" || sign == "+" || sign == "-"
    requires |d| > 0 && AllDigits(d)
    requires |rest| == 0 || !IsDigit(rest[0])
    ensures ParseInt(ws + sign + d + rest, storage, store) == (0, store[storage := IntV(SignedValue(sign, d))])
  {
    ScanIntDigits(ws, sign, d, rest);
  }

  /** `parse_double`: `sscanf(str, "%lf", storage)`, the floating-point scan
      itself supplied as `scanDouble`. */
  function ParseDouble(str: string, storage: Addr, store: Store, scanDouble: string -> Option<real>): (r: (int, Store))
    ensures r.0 == 0 || r.0 == -1
    ensures r.0 == -1 <==> scanDouble(str).None?
    ensures r.0 == -1 ==> r.1 == store
    ensures r.0 == 0 ==> r.1 == store[storage := DoubleV(scanDouble(str).value)]
  {
    match scanDouble(str)
    case Some(x) => (0, store[storage := DoubleV(x)])
    case None => (-1, store)
  }

  /** `parse_bool`: an `int` 1 for a value starting with `true`, 0 for one
      starting with `false`; anything else returns 1 and writes nothing. */
  function ParseBool(str: string, storage: Addr, store: Store): (r: (int, Store))
    ensures "true" <= str ==> r == (0, store[storage := IntV(1)])
    ensures !("true" <= str) && "false" <= str ==> r == (0, store[storage := IntV(0)])
    ensures !("true" <= str) && !("false" <= str) ==> r == (1, store)
  {
    StrNCmpEqIsPrefix(str, "true");
    StrNCmpEqIsPrefix(str, "false");
    if StrNCmpEq(str, "true", |"true"|) then (0, store[storage := IntV(1)])
    else if StrNCmpEq(str, "false", |"false"|) then (0, store[storage := IntV(0)])
    else (1, store)
  }

  /** Calling a container's parser on a (non-NULL) value: at most its own
      storage changes, and a failure changes nothing. */
  function Decode(p: Parser, str: string, storage: Addr, store: Store, scanDouble: string -> Option<real>): (r: (int, Store))
    ensures r.0 != 0 ==> r.1 == store
    ensures r.0 == 0 ==> storage in r.1 && r.1 == store[storage := r.1[storage]]
  {
    match p
    case ParseIntFn => ParseInt(str, storage, store)
    case ParseDoubleFn => ParseDouble(str, storage, store, scanDouble)
    case ParseBoolFn => ParseBool(str, storage, store)
  }

  // ---------------------------------------------------------------------------
  // Splitting one argument

  /** `parse_flags_split_flag`: 1 ("not a flag") unless both of the first two
      characters are `-`; otherwise the rest is cut by `strsep` at the first
      `=`. The NULL checks on the pointer arguments are left out: the parse
      loop always passes valid pointers. */
  function SplitFlag(input: string): (r: Split)
    ensures r.NotAFlag? <==> !("--" <= input)
    ensures r.Flag? ==> '=' !in r.name && input == Token(r.name, r.value)
  {
    if Head(input) != '-' then NotAFlag
    else if Head(input[1..]) != '-' then NotAFlag
    else
      var (flag, rest) := Strsep(input[2..], '=');
      assert input == "--" + input[2..];
      Flag(flag, rest)
  }

  /** The split undoes `Token`: the name and the value come back unchanged. */
  lemma SplitFlagToken(name: string, value: Option<string>)
    requires '=' !in name
    ensures SplitFlag(Token(name, value)) == Flag(name, value)
  {
    var t := Token(name, value);
    match value
    case None =>
      StrsepInverse(name, '=', "");
      assert t[2..] == name;
    case Some(v) =>
      StrsepInverse(name, '=', v);
      assert t[2..] == name + "=" + v;
  }

  /** What `argv[i]` reads as once the splitter has run: `strsep` wrote a NUL
      over the first `=` after the dashes, so the argument now ends before it. */
  function ArgAfterSplit(input: string): string {
    match SplitFlag(input)
    case Flag(name, Some(_)) => "--" + name
    case _ => input
  }

  /** The help test reads `argv[i]` after the splitter changed it, yet decides
      as it would on the argument as given. */
  lemma HelpTestAfterSplit(input: string)
    ensures StrNCmpEq(ArgAfterSplit(input), "--help", 6) <==> "--help" <= input
  {
    StrNCmpEqIsPrefix(ArgAfterSplit(input), "--help");
    match SplitFlag(input)
    case Flag(name, Some(v)) =>
      HelpPrefixBeforeValue(name, v);
    case _ =>
  }

  /** Cutting `=value` off a flag token does not change whether it starts
      with `--help`: the `=` comes after any such prefix or breaks it. */
  lemma HelpPrefixBeforeValue(name: string, v: string)
    requires '=' !in name
    ensures "--help" <= "--" + name <==> "--help" <= "--" + name + "=" + v
  {
    var short, long := "--" + name, "--" + name + "=" + v;
    if |name| >= 4 {
      assert long[..6] == short[..6];
    } else {
      assert long[2 + |name|] == '=';
    }
  }

  // ---------------------------------------------------------------------------
  // Matching one argument against the containers

  /** The storage of every entry whose name is a prefix of `name`. */
  function MatchedAddrs(es: seq<Entry>, name: string): set<Addr> {
    set j | 0 <= j < |es| && es[j].flag <= name :: es[j].storage
  }

  lemma MatchedAddrsTail(es: seq<Entry>, name: string)
    requires |es| > 0
    ensures MatchedAddrs(es[1..], name) <= MatchedAddrs(es, name)
    ensures es[0].flag <= name ==> es[0].storage in MatchedAddrs(es, name)
  {
    forall a | a in MatchedAddrs(es[1..], name) ensures a in MatchedAddrs(es, name) {
      var j :| 0 <= j < |es[1..]| && es[1..][j].flag <= name && es[1..][j].storage == a;
      assert es[j + 1] == es[1..][j];
    }
  }

  /** The inner loop of `parse_flags_parse`: in array order, every entry whose
      name is a prefix of `name` gets its parser run on `value`; a decode
      failure is reported and the loop goes on. `None` when a matching parser
      would be handed the NULL value of an argument without `=`. */
  function RunEntries(es: seq<Entry>, name: string, value: Option<string>, store: Store,
                      scanDouble: string -> Option<real>): (r: Option<Store>)
    requires EntryNamesAreCStrings(es)
    ensures r.None? <==> value.None? && exists j :: 0 <= j < |es| && es[j].flag <= name
    ensures r.Some? ==> SameOutside(store, r.value, MatchedAddrs(es, name))
    ensures (forall j :: 0 <= j < |es| ==> !(es[j].flag <= name)) ==> r == Some(store)
    decreases |es|
  {
    if |es| == 0 then Some(store)
    else
      StrNCmpEqIsPrefix(name, es[0].flag);
      MatchedAddrsTail(es, name);
      assert EntryNamesAreCStrings(es[1..]) by {
        forall j | 0 <= j < |es[1..]| ensures IsCString(es[1..][j].flag) {
          assert es[1..][j] == es[j + 1];
        }
      }
      assert forall j :: 1 <= j < |es| ==> es[j] == es[1..][j - 1];
      if !StrNCmpEq(name, es[0].flag, |es[0].flag|) then
        RunEntries(es[1..], name, value, store, scanDouble)
      else if value.None? then None
      else
        var (_, s) := Decode(es[0].parser, value.value, es[0].storage, store, scanDouble);
        RunEntries(es[1..], name, value, s, scanDouble)
  }

  /** The entries run one after the other: running a list is running its
      first part, then its second part on the storage the first left. */
  lemma {:induction false} RunEntriesAppend(es1: seq<Entry>, es2: seq<Entry>, name: string, value: Option<string>,
                                            store: Store, scanDouble: string -> Option<real>)
    requires EntryNamesAreCStrings(es1) && EntryNamesAreCStrings(es2)
    ensures EntryNamesAreCStrings(es1 + es2)
    ensures RunEntries(es1 + es2, name, value, store, scanDouble) ==
            match RunEntries(es1, name, value, store, scanDouble)
            case None => None
            case Some(s) => RunEntries(es2, name, value, s, scanDouble)
    decreases |es1|
  {
    assert EntryNamesAreCStrings(es1 + es2) by {
      forall j | 0 <= j < |es1 + es2| ensures IsCString((es1 + es2)[j].flag) {
        if j < |es1| { assert (es1 + es2)[j] == es1[j]; } else { assert (es1 + es2)[j] == es2[j - |es1|]; }
      }
    }
    if |es1| == 0 {
      assert es1 + es2 == es2;
    } else {
      assert (es1 + es2)[1..] == es1[1..] + es2;
      assert (es1 + es2)[0] == es1[0];
      assert EntryNamesAreCStrings(es1[1..]) by {
        forall j | 0 <= j < |es1[1..]| ensures IsCString(es1[1..][j].flag) {
          assert es1[1..][j] == es1[j + 1];
        }
      }
      var s := if es1[0].flag <= name && value.Some? then
                 Decode(es1[0].parser, value.value, es1[0].storage, store, scanDouble).1
               else store;
      StrNCmpEqIsPrefix(name, es1[0].flag);
      RunEntriesAppend(es1[1..], es2, name, value, s, scanDouble);
    }
  }

  /** One entry and a value: its parser runs exactly when its name is a
      prefix of `name`, and a failed decode leaves the storage as it was. */
  lemma RunEntriesOne(e: Entry, name: string, v: string, store: Store, scanDouble: string -> Option<real>)
    requires IsCString(e.flag)
    ensures e.flag <= name ==>
      RunEntries([e], name, Some(v), store, scanDouble) == Some(Decode(e.parser, v, e.storage, store, scanDouble).1)
    ensures !(e.flag <= name) ==> RunEntries([e], name, Some(v), store, scanDouble) == Some(store)
  {
    StrNCmpEqIsPrefix(name, e.flag);
    assert [e][1..] == [];
  }

  // ---------------------------------------------------------------------------
  // The argument loop

  /** One iteration of the argument loop of `parse_flags_parse`. */
  function CStep(es: seq<Entry>, arg: string, store: Store, scanDouble: string -> Option<real>): (r: Step)
    requires EntryNamesAreCStrings(es)
    ensures "--help" <= arg ==> r == Stop(Help)
    ensures !("--" <= arg) ==> r == Stop(Return(1, store))
    ensures r.Stop? && r.outcome.Return? ==> r.outcome == Return(1, store) && !("--" <= arg)
    ensures r.Continue? ==>
      (SplitFlag(arg).Flag? && SameOutside(store, r.store, MatchedAddrs(es, SplitFlag(arg).name)))
    ensures (&& SplitFlag(arg).Flag?
             && !("--help" <= arg)
             && forall j :: 0 <= j < |es| ==> !(es[j].flag <= SplitFlag(arg).name))
            ==> r == Continue(store)
  {
    var sp := SplitFlag(arg);
    HelpTestAfterSplit(arg);
    if StrNCmpEq(ArgAfterSplit(arg), "--help", |"--help"|) then Stop(Help)
    else if sp.NotAFlag? then Stop(Return(1, store))
    else
      match RunEntries(es, sp.name, sp.value, store, scanDouble)
      case None => Stop(Fault)
      case Some(s) => Continue(s)
  }

  /** A flag argument that asks for no help runs the inner loop: every
      entry whose name is a prefix of the flag name gets its parser run on
      the value, and the step continues with the storage that leaves (or
      faults on a NULL value that reaches a parser). */
  lemma CStepRunsEntries(es: seq<Entry>, name: string, value: Option<string>, store: Store,
                         scanDouble: string -> Option<real>)
    requires EntryNamesAreCStrings(es)
    requires '=' !in name && !("--help" <= Token(name, value))
    ensures CStep(es, Token(name, value), store, scanDouble) ==
            match RunEntries(es, name, value, store, scanDouble)
            case None => Stop(Fault)
            case Some(s) => Continue(s)
  {
    SplitFlagToken(name, value);
    HelpTestAfterSplit(Token(name, value));
  }

  /** Every storage an argument in `args` can reach: the entries whose name
      is a prefix of that argument's flag name. */
  function WrittenBy(es: seq<Entry>, args: seq<string>): set<Addr>
    decreases |args|
  {
    if |args| == 0 then {}
    else
      (match SplitFlag(args[0]) case Flag(name, _) => MatchedAddrs(es, name) case NotAFlag => {})
      + WrittenBy(es, args[1..])
  }

  /** The argument loop, one argument after the other. */
  function CRun(es: seq<Entry>, args: seq<string>, store: Store, scanDouble: string -> Option<real>): (r: Step)
    requires EntryNamesAreCStrings(es)
    ensures r.Continue? ==> SameOutside(store, r.store, WrittenBy(es, args))
    ensures r.Stop? && r.outcome.Return? ==>
      r.outcome.code == 1 && SameOutside(store, r.outcome.store, WrittenBy(es, args))
    decreases |args|
  {
    if |args| == 0 then Continue(store)
    else
      match CStep(es, args[0], store, scanDouble)
      case Continue(s) =>
        var r := CRun(es, args[1..], s, scanDouble);
        assert r.Continue? ==> SameOutside(store, r.store, WrittenBy(es, args)) by {
          if r.Continue? {
            SameOutsideTrans(store, s, r.store, MatchedAddrs(es, SplitFlag(args[0]).name),
                             WrittenBy(es, args[1..]), WrittenBy(es, args));
          }
        }
        assert r.Stop? && r.outcome.Return? ==> SameOutside(store, r.outcome.store, WrittenBy(es, args)) by {
          if r.Stop? && r.outcome.Return? {
            SameOutsideTrans(store, s, r.outcome.store, MatchedAddrs(es, SplitFlag(args[0]).name),
                             WrittenBy(es, args[1..]), WrittenBy(es, args));
          }
        }
        r
      case Stop(o) => Stop(o)
  }

  /** `parse_flags_parse(argc, argv, pf_inst)`. With no argument after the
      program name, help. Otherwise the loop above; running off its end
      returns 0, so the only code other than 0 is the splitter's 1. */
  function Parse(argv: seq<string>, inst: Instance, store: Store, scanDouble: string -> Option<real>): (r: Outcome)
    requires Ready(inst)
    ensures |argv| == 1 ==> r == Help
    ensures r.Return? ==> r.code == 0 || r.code == 1
    ensures r.Return? ==> SameOutside(store, r.store, WrittenBy(Entries(inst), Arguments(argv)))
  {
    if |argv| == 1 then Help
    else Finish(CRun(Entries(inst), Arguments(argv), store, scanDouble))
  }

  // ---------------------------------------------------------------------------
  // Properties of the argument loop

  /** The loop never looks back and never undoes: running `a + b` is running
      `a`, then — only if `a` did not stop the loop — `b` on the storage `a`
      left. */
  lemma {:induction false} CRunAppend(es: seq<Entry>, a: seq<string>, b: seq<string>, store: Store,
                                      scanDouble: string -> Option<real>)
    requires EntryNamesAreCStrings(es)
    ensures CRun(es, a + b, store, scanDouble) ==
            match CRun(es, a, store, scanDouble)
            case Continue(s) => CRun(es, b, s, scanDouble)
            case Stop(o) => Stop(o)
    decreases |a|
  {
    if |a| == 0 {
      assert a + b == b;
    } else {
      assert (a + b)[0] == a[0];
      assert (a + b)[1..] == a[1..] + b;
      match CStep(es, a[0], store, scanDouble)
      case Continue(s) => CRunAppend(es, a[1..], b, s, scanDouble);
      case Stop(_) =>
    }
  }

  /** An argument not starting with `--` ends the parse with the splitter's
      code 1; whatever the arguments before it wrote stays written, and the
      arguments after it are never looked at. */
  lemma SplitErrorAborts(es: seq<Entry>, before: seq<string>, bad: string, after: seq<string>,
                         store: Store, scanDouble: string -> Option<real>)
    requires EntryNamesAreCStrings(es)
    requires CRun(es, before, store, scanDouble).Continue?
    requires !("--" <= bad)
    ensures Finish(CRun(es, before + [bad] + after, store, scanDouble))
            == Return(1, CRun(es, before, store, scanDouble).store)
  {
    var s := CRun(es, before, store, scanDouble).store;
    CRunAppend(es, before, [bad] + after, store, scanDouble);
    assert before + [bad] + after == before + ([bad] + after);
    assert ([bad] + after)[0] == bad;
  }

  /** An argument starting with `--help` shows help once the arguments before
      it went through, whatever follows it. */
  lemma HelpArgumentShowsHelp(es: seq<Entry>, before: seq<string>, help: string, after: seq<string>,
                              store: Store, scanDouble: string -> Option<real>)
    requires EntryNamesAreCStrings(es)
    requires CRun(es, before, store, scanDouble).Continue?
    requires "--help" <= help
    ensures Finish(CRun(es, before + [help] + after, store, scanDouble)) == Help
  {
    CRunAppend(es, before, [help] + after, store, scanDouble);
    assert before + [help] + after == before + ([help] + after);
    assert ([help] + after)[0] == help;
  }

  /** A returned code is 1 exactly when some argument does not start with
      `--`: unknown names, decode failures and everything else give 0. */
  lemma {:induction false} ReturnCodeOne(es: seq<Entry>, args: seq<string>, store: Store,
                                         scanDouble: string -> Option<real>)
    requires EntryNamesAreCStrings(es)
    requires Finish(CRun(es, args, store, scanDouble)).Return?
    ensures Finish(CRun(es, args, store, scanDouble)).code == 1 <==>
            exists k :: 0 <= k < |args| && !("--" <= args[k])
    decreases |args|
  {
    if |args| > 0 {
      match CStep(es, args[0], store, scanDouble)
      case Continue(s) =>
        ReturnCodeOne(es, args[1..], s, scanDouble);
        assert forall k :: 1 <= k < |args| ==> args[k] == args[1..][k - 1];
        assert "--" <= args[0];
      case Stop(o) =>
    }
  }

  // ---------------------------------------------------------------------------
  // Help text

  /** The loop computing `max_padding` in `parse_flags_show_help`: the
      length of the longest MESSAGE (not flag name), 0 when there are no
      entries. */
  function LongestMessage(es: seq<Entry>): (pad: nat)
    ensures forall j :: 0 <= j < |es| ==> |es[j].message| <= pad
    ensures |es| == 0 ==> pad == 0
    ensures |es| > 0 ==> exists j :: 0 <= j < |es| && |es[j].message| == pad
    decreases |es|
  {
    if |es| == 0 then 0
    else
      var init := es[..|es| - 1];
      var p := LongestMessage(init);
      assert forall j :: 0 <= j < |init| ==> init[j] == es[j];
      if |es[|es| - 1].message| > p then |es[|es| - 1].message| else p
  }

  /** `max_padding`, the padding `parse_flags_show_help` uses. */
  function Padding(es: seq<Entry>): nat {
    LongestMessage(es)
  }

  /** The column a help line's message starts at: after the two dashes and
      the flag field, which is `width` wide unless the flag is longer. */
  function MessageColumn(flag: string, width: int): nat {
    2 + (if |flag| < width then width else |flag|)
  }

  /** `printf("--%*s%s\n", -(pad + 5), flag, message)`: two dashes, the flag
      left-justified in `pad + 5` columns, the message. */
  function HelpLine(e: Entry, pad: nat): (line: string)
    ensures LaidOut(line, "--", e.flag, e.message, MessageColumn(e.flag, pad + 5))
  {
    var field := PadRight(e.flag, pad + 5);
    assert "--" + field + e.message == "--" + e.flag + Blanks(|field| - |e.flag|) + e.message;
    "--" + field + e.message
  }

  /** The message line when one was set, then `HelpLine(es[j], pad)` for
      each entry in array order. */
  function HelpText(message: Option<string>, es: seq<Entry>, pad: nat): seq<string> {
    var skip := Skip(message);
    seq(skip + |es|, i requires 0 <= i < skip + |es| =>
      if i < skip then message.value else HelpLine(es[i - skip], pad))
  }

  /** Line `skip + j` of the help text is the help line of entry `j`. */
  lemma HelpTextLine(message: Option<string>, es: seq<Entry>, pad: nat, j: nat)
    requires j < |es|
    ensures HelpText(message, es, pad)[Skip(message) + j] == HelpLine(es[j], pad)
  {
  }

  /** The help text: the message line when there is one, then one line per
      entry in array order, its message at the entry's own column. */
  lemma HelpTextLayout(message: Option<string>, es: seq<Entry>, pad: nat)
    ensures |HelpText(message, es, pad)| == Skip(message) + |es|
    ensures message.Some? ==> HelpText(message, es, pad)[0] == message.value
    ensures forall j :: 0 <= j < |es| ==>
      LaidOut(HelpText(message, es, pad)[Skip(message) + j], "--", es[j].flag, es[j].message, MessageColumn(es[j].flag, pad + 5))
  {
    forall j | 0 <= j < |es|
      ensures LaidOut(HelpText(message, es, pad)[Skip(message) + j], "--", es[j].flag, es[j].message, MessageColumn(es[j].flag, pad + 5))
    {
      HelpTextLine(message, es, pad, j);
    }
  }

  /** `parse_flags_show_help`, on the instance's message and its entries
      (`Entries(inst)`): the message if one was set, then one line per entry
      in array order, all padded by the longest message; a flag longer than
      that padding plus 5 pushes its message to the right. */
  function ShowHelp(message: Option<string>, es: seq<Entry>): (lines: seq<string>)
    ensures |lines| == Skip(message) + |es|
    ensures message.Some? ==> lines[0] == message.value
    ensures forall j :: 0 <= j < |es| ==>
      LaidOut(lines[Skip(message) + j], "--", es[j].flag, es[j].message, MessageColumn(es[j].flag, Padding(es) + 5))
  {
    HelpTextLayout(message, es, Padding(es));
    HelpText(message, es, Padding(es))
  }

  /** As written, two lines' messages can start at different columns: a flag
      name longer than the longest message plus 5 overflows its field. */
  lemma ShowHelpMisaligned()
    ensures var es := [Entry("m", "long-flag-name", 0, ParseIntFn), Entry("n", "a", 1, ParseIntFn)];
      && Padding(es) == 1
      && MessageColumn(es[0].flag, Padding(es) + 5) == 16
      && MessageColumn(es[1].flag, Padding(es) + 5) == 8
  {
    var es := [Entry("m", "long-flag-name", 0, ParseIntFn), Entry("n", "a", 1, ParseIntFn)];
    assert es[..1] == [es[0]];
    assert LongestMessage(es[..1]) == 1;
  }

  /** The padding the function's own comment ("the length of the longest
      flag") and the C++ variant use: the longest flag name. */
  function LongestFlag(es: seq<Entry>): (pad: nat)
    ensures forall j :: 0 <= j < |es| ==> |es[j].flag| <= pad
    ensures |es| == 0 ==> pad == 0
    ensures |es| > 0 ==> exists j :: 0 <= j < |es| && |es[j].flag| == pad
    decreases |es|
  {
    if |es| == 0 then 0
    else
      var init := es[..|es| - 1];
      var p := LongestFlag(init);
      assert forall j :: 0 <= j < |init| ==> init[j] == es[j];
      if |es[|es| - 1].flag| > p then |es[|es| - 1].flag| else p
  }

  /** The corrected padding: the longest flag name. */
  function PaddingByFlag(es: seq<Entry>): nat {
    LongestFlag(es)
  }

  /** Padded by at least the longest flag name, the message of every help
      line starts in one column, five past the padding. */
  lemma HelpTextColumns(message: Option<string>, es: seq<Entry>, pad: nat)
    requires forall j :: 0 <= j < |es| ==> |es[j].flag| <= pad
    ensures forall j :: 0 <= j < |es| ==>
      LaidOut(HelpText(message, es, pad)[Skip(message) + j], "--", es[j].flag, es[j].message, 2 + pad + 5)
  {
    HelpTextLayout(message, es, pad);
    assert forall j :: 0 <= j < |es| ==> MessageColumn(es[j].flag, pad + 5) == 2 + pad + 5;
  }

  /** The help text padded by the longest flag name instead: the message of
      every line starts in one column, five past the end of the longest flag. */
  function ShowHelpAligned(message: Option<string>, es: seq<Entry>): (lines: seq<string>)
    ensures |lines| == Skip(message) + |es|
    ensures message.Some? ==> lines[0] == message.value
    ensures forall j :: 0 <= j < |es| ==>
      LaidOut(lines[Skip(message) + j], "--", es[j].flag, es[j].message, 2 + PaddingByFlag(es) + 5)
  {
    HelpTextLayout(message, es, PaddingByFlag(es));
    HelpTextColumns(message, es, PaddingByFlag(es));
    HelpText(message, es, PaddingByFlag(es))
  }
}
