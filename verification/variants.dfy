/** Where the C and the C++ variant agree and where they part ways, stated on
    the two models side by side. */
module Variants {
  import opened Wrappers
  import opened LibC
  import opened FlagModel
  import C = CParseFlags
  import Cpp = CppParseFlags
  import S = CppFlagStorage

  /** Both splitters cut an argument the same way. */
  lemma SplittersAgree(arg: string)
    ensures C.SplitFlag(arg) == Cpp.ParseFlag(arg)
  {
    var c := C.SplitFlag(arg);
    var p := Cpp.ParseFlag(arg);
    if c.Flag? && p.Flag? {
      FlagNameUnique(c.name, c.value, p.name, p.value);
    }
  }

  /** An argument determines its flag name and value: the name ends at the
      first `=`. */
  lemma FlagNameUnique(n1: string, v1: Option<string>, n2: string, v2: Option<string>)
    requires '=' !in n1 && '=' !in n2
    requires Token(n1, v1) == Token(n2, v2)
    ensures n1 == n2 && v1 == v2
  {
    var t := Token(n1, v1);
    C.SplitFlagToken(n1, v1);
    C.SplitFlagToken(n2, v2);
  }

  /** The boolean decoders disagree on what they store (an `int` 1 against a
      `bool` true) and on the failure code (1 against -1). */
  lemma BoolDecodersDiffer(store: Store)
    ensures C.ParseBool("true", 0, store) == (0, store[0 := IntV(1)])
    ensures S.ParseValueBool("true", 0, store) == (0, store[0 := BoolV(true)])
    ensures C.ParseBool("maybe", 0, store) == (1, store)
    ensures S.ParseValueBool("maybe", 0, store) == (-1, store)
    ensures C.ParseBool("trueish", 0, store).0 == 0 && S.ParseValueBool("falsetto", 0, store).0 == 0
  {
    assert "maybe"[0] != "true"[0] && "maybe"[0] != "false"[0];
  }

  /** Flags `a` (storage 0) and `ab` (storage 1), both integers, in that order. */
  function CFlags(): seq<C.Entry> {
    [C.Entry("int a", "a", 0, C.ParseIntFn), C.Entry("int ab", "ab", 1, C.ParseIntFn)]
  }

  lemma CFlagNames()
    ensures C.EntryNamesAreCStrings(CFlags())
  {
    var es := CFlags();
    assert IsCString(es[0].flag) && IsCString(es[1].flag);
  }

  function CppFlags(): Cpp.ParseFlags {
    Cpp.AddFlag(Cpp.AddFlag(Cpp.New(), "a", 0, S.IntType, "int a"), "ab", 1, S.IntType, "int ab")
  }

  lemma CppFlagsContents()
    ensures CppFlags().flags == [S.FlagStorage("a", "int a", 0, S.IntType), S.FlagStorage("ab", "int ab", 1, S.IntType)]
    ensures Cpp.NamesAreCStrings(CppFlags().flags)
  {
    var fs := CppFlags().flags;
    assert fs == [S.FlagStorage("a", "int a", 0, S.IntType)] + [S.FlagStorage("ab", "int ab", 1, S.IntType)];
    assert IsCString(fs[0].flag) && IsCString(fs[1].flag);
  }

  /** `%d` reads a lone digit. */
  lemma ScanDigit(n: nat)
    requires n < 10
    ensures ScanInt([DigitChar(n)]) == Some(n)
  {
    assert DecimalString(n) == [DigitChar(n)];
    assert "" + DecimalString(n) + "" == [DigitChar(n)];
    ScanIntDecimal("", n, "");
  }

  /** `--abc=7` against the C flags: both `a` and `ab` are prefixes of `abc`,
      so both parsers run, in array order. */
  lemma CRunsEveryMatch(store: Store, scanDouble: string -> Option<real>)
    ensures C.RunEntries(CFlags(), "abc", Some("7"), store, scanDouble) == Some(store[0 := IntV(7)][1 := IntV(7)])
  {
    var es := CFlags();
    assert "a" <= "abc" && "ab" <= "abc";
    assert [es[0]] + [es[1]] == es;
    C.RunEntriesAppend([es[0]], [es[1]], "abc", Some("7"), store, scanDouble);
    C.RunEntriesOne(es[0], "abc", "7", store, scanDouble);
    C.RunEntriesOne(es[1], "abc", "7", store[0 := IntV(7)], scanDouble);
    CDecodes7(es[0], store, scanDouble);
    CDecodes7(es[1], store[0 := IntV(7)], scanDouble);
  }

  /** `parse_int` reads `7` into its container's storage. */
  lemma CDecodes7(e: C.Entry, store: Store, scanDouble: string -> Option<real>)
    requires e.parser == C.ParseIntFn
    ensures C.Decode(e.parser, "7", e.storage, store, scanDouble) == (0, store[e.storage := IntV(7)])
  {
    ScanDigit(7);
    assert [DigitChar(7)] == "7";
  }

  /** `parse_int` refuses `x` and leaves the storage as it was. */
  lemma CRefusesX(e: C.Entry, store: Store, scanDouble: string -> Option<real>)
    requires e.parser == C.ParseIntFn
    ensures C.Decode(e.parser, "x", e.storage, store, scanDouble) == (-1, store)
  {
    assert ScanInt("x") == None by {
      assert forall i :: 0 <= i < |"x"| ==> !IsDigit("x"[i]);
    }
  }

  /** One C loop iteration on `--abc=7`: no help, a flag, both parsers run. */
  lemma CStepEveryMatch(store: Store, scanDouble: string -> Option<real>)
    ensures C.EntryNamesAreCStrings(CFlags())
    ensures C.CStep(CFlags(), "--abc=7", store, scanDouble) == Continue(store[0 := IntV(7)][1 := IntV(7)])
  {
    CFlagNames();
    CSplitABC7();
    CRunsEveryMatch(store, scanDouble);
  }

  /** The C splitter cuts `--abc=7` into `abc` and `7`, and the help test
      passes it by. */
  lemma CSplitABC7()
    ensures C.SplitFlag("--abc=7") == Flag("abc", Some("7"))
    ensures !StrNCmpEq(C.ArgAfterSplit("--abc=7"), "--help", 6)
  {
    var arg := "--abc=7";
    C.SplitFlagToken("abc", Some("7"));
    assert Token("abc", Some("7")) == arg;
    assert !("--help" <= arg) by { assert arg[2] != "--help"[2]; }
    C.HelpTestAfterSplit(arg);
  }

  /** The C loop over the single argument `--abc=7` writes both storages. */
  lemma CArgumentRunsEveryMatch(store: Store, scanDouble: string -> Option<real>)
    ensures C.EntryNamesAreCStrings(CFlags())
    ensures C.CRun(CFlags(), ["--abc=7"], store, scanDouble) == Continue(store[0 := IntV(7)][1 := IntV(7)])
  {
    CStepEveryMatch(store, scanDouble);
    assert ["--abc=7"][1..] == [];
  }

  /** The C++ parse of `--abc=7` writes only the storage of `a`. */
  lemma CppArgumentFirstMatch(store: Store, scanDouble: string -> Option<real>)
    ensures Cpp.ParseArgs(CppFlags(), ["prog", "--abc=7"], store, scanDouble) == Return(0, store[0 := IntV(7)])
  {
    var pf := CppFlags();
    var r := S.Parse(pf.flags[0], "7", store, scanDouble);
    assert r == (0, store[0 := IntV(7)]) by {
      CppFindABCDecodes7(store, scanDouble);
    }
    assert Cpp.ParseArgs(pf, ["prog", "--abc=7"], store, scanDouble) == Return(r.0, r.1) by {
      CppFindABC();
      CppTokenABC7();
      Cpp.FirstMatchDecodes(pf, "prog", "abc", "7", store, scanDouble);
    }
  }

  /** The C++ lookup of `abc` finds the first descriptor, `a`, and `%d`
      reads 7 into its storage. */
  lemma CppFindABCDecodes7(store: Store, scanDouble: string -> Option<real>)
    ensures Cpp.NamesAreCStrings(CppFlags().flags)
    ensures Cpp.FindFlag(CppFlags().flags, "abc") == Some(0)
    ensures S.Parse(CppFlags().flags[0], "7", store, scanDouble) == (0, store[0 := IntV(7)])
  {
    CppFindABC();
    CppFlagsContents();
    IntDecodes7(CppFlags().flags[0], store, scanDouble);
  }

  /** The C++ lookup of `abc` finds the first descriptor, `a`. */
  lemma CppFindABC()
    ensures Cpp.NamesAreCStrings(CppFlags().flags)
    ensures Cpp.FindFlag(CppFlags().flags, "abc") == Some(0)
  {
    CppFlagsContents();
    assert "a" <= "abc";
  }

  /** An integer descriptor decodes `7` into its storage. */
  lemma IntDecodes7(d: S.FlagStorage, store: Store, scanDouble: string -> Option<real>)
    requires d.ty == S.IntType
    ensures S.Parse(d, "7", store, scanDouble) == (0, store[d.repr := IntV(7)])
  {
    ScanDigit(7);
    assert [DigitChar(7)] == "7";
  }

  /** `--abc=7` is the token for `abc` with value `7`, and no help request. */
  lemma CppTokenABC7()
    ensures Token("abc", Some("7")) == "--abc=7"
    ensures '=' !in "abc" && !("--help" <= "--abc=7")
  {
    assert !("--help" <= "--abc=7") by { assert "--abc=7"[2] != "--help"[2]; }
  }

  /** `--abc=7` matches both `a` and `ab` by prefix. The C loop runs both
      parsers; the C++ lookup stops at `a`, the first registered. */
  lemma LookupDiffers(store: Store, scanDouble: string -> Option<real>)
    ensures C.CRun(CFlags(), ["--abc=7"], store, scanDouble) == Continue(store[0 := IntV(7)][1 := IntV(7)])
    ensures Cpp.ParseArgs(CppFlags(), ["prog", "--abc=7"], store, scanDouble) == Return(0, store[0 := IntV(7)])
  {
    CArgumentRunsEveryMatch(store, scanDouble);
    CppArgumentFirstMatch(store, scanDouble);
  }

  /** `--ab=x` against the C flags: both `a` and `ab` match, neither parser
      decodes `x`, and the storage stays as it was. */
  lemma CRunsNoDecode(store: Store, scanDouble: string -> Option<real>)
    ensures C.RunEntries(CFlags(), "ab", Some("x"), store, scanDouble) == Some(store)
  {
    var es := CFlags();
    assert "a" <= "ab" && "ab" <= "ab";
    assert [es[0]] + [es[1]] == es;
    C.RunEntriesAppend([es[0]], [es[1]], "ab", Some("x"), store, scanDouble);
    C.RunEntriesOne(es[0], "ab", "x", store, scanDouble);
    C.RunEntriesOne(es[1], "ab", "x", store, scanDouble);
    CRefusesX(es[0], store, scanDouble);
    CRefusesX(es[1], store, scanDouble);
  }

  /** One C loop iteration on `--ab=x`: no help, a flag, nothing decodes. */
  lemma CStepNoDecode(store: Store, scanDouble: string -> Option<real>)
    ensures C.EntryNamesAreCStrings(CFlags())
    ensures C.CStep(CFlags(), "--ab=x", store, scanDouble) == Continue(store)
  {
    var arg := "--ab=x";
    CFlagNames();
    C.SplitFlagToken("ab", Some("x"));
    assert Token("ab", Some("x")) == arg;
    assert !("--help" <= arg) by { assert arg[4] != "--help"[4]; }
    C.HelpTestAfterSplit(arg);
    CRunsNoDecode(store, scanDouble);
  }

  /** The C loop over `--ab=x`: both `a` and `ab` match, neither decodes `x`;
      the failure is passed over and the storage stays as it was. */
  lemma CDecodeFailurePassedOver(store: Store, scanDouble: string -> Option<real>)
    ensures C.EntryNamesAreCStrings(CFlags())
    ensures C.CRun(CFlags(), ["--ab=x"], store, scanDouble) == Continue(store)
  {
    CStepNoDecode(store, scanDouble);
    assert ["--ab=x"][1..] == [];
  }

  /** `--a=x` is no help request and splits into `a` and `x`. */
  lemma CppSplitAX()
    ensures !Cpp.IsHelp("--a=x")
    ensures Cpp.ParseFlag("--a=x") == Flag("a", Some("x"))
  {
    Cpp.SplitToken("a", Some("x"));
    assert Token("a", Some("x")) == "--a=x";
    assert !("--help" <= "--a=x") by { assert "--a=x"[2] != "--help"[2]; }
  }

  /** The C++ lookup of `a` finds the first descriptor, and `%d` refuses `x`. */
  lemma CppFindAFailsX(store: Store, scanDouble: string -> Option<real>)
    ensures Cpp.NamesAreCStrings(CppFlags().flags)
    ensures Cpp.FindFlag(CppFlags().flags, "a") == Some(0)
    ensures S.Parse(CppFlags().flags[0], "x", store, scanDouble) == (-1, store)
  {
    CppFlagsContents();
    assert "a" <= "a";
    assert ScanInt("x") == None by {
      assert forall i :: 0 <= i < |"x"| ==> !IsDigit("x"[i]);
    }
  }

  /** One C++ loop iteration on `--a=x`: `a` is found, `x` does not decode. */
  lemma CppStepDecodeFailure(store: Store, scanDouble: string -> Option<real>)
    ensures Cpp.NamesAreCStrings(CppFlags().flags)
    ensures Cpp.Step(CppFlags().flags, "--a=x", store, scanDouble) == Stop(Return(-1, store))
  {
    CppFindAFailsX(store, scanDouble);
    CppSplitAX();
  }

  /** A C++ loop whose first argument stops it ends there. */
  lemma CppRunStopsAtFirst(flags: seq<S.FlagStorage>, arg: string, rest: seq<string>, store: Store,
                           scanDouble: string -> Option<real>)
    requires Cpp.NamesAreCStrings(flags)
    requires Cpp.Step(flags, arg, store, scanDouble).Stop?
    ensures Cpp.Run(flags, [arg] + rest, store, scanDouble) == Cpp.Step(flags, arg, store, scanDouble)
  {
    assert ([arg] + rest)[0] == arg;
  }

  /** The C++ loop over `--a=x --a=4` stops at the first argument. */
  lemma CppRunDecodeFailure(store: Store, scanDouble: string -> Option<real>)
    ensures Cpp.NamesAreCStrings(CppFlags().flags)
    ensures Cpp.Run(CppFlags().flags, ["--a=x", "--a=4"], store, scanDouble) == Stop(Return(-1, store))
  {
    CppStepDecodeFailure(store, scanDouble);
    CppRunStopsAtFirst(CppFlags().flags, "--a=x", ["--a=4"], store, scanDouble);
    assert ["--a=x"] + ["--a=4"] == ["--a=x", "--a=4"];
  }

  /** The C++ parse of `--a=x --a=4`: `x` does not decode, so -1 is returned
      at once and the second argument is never reached. */
  lemma CppDecodeFailureAborts(store: Store, scanDouble: string -> Option<real>)
    ensures Cpp.ParseArgs(CppFlags(), ["prog", "--a=x", "--a=4"], store, scanDouble) == Return(-1, store)
  {
    var argv := ["prog", "--a=x", "--a=4"];
    CppRunDecodeFailure(store, scanDouble);
    CppFlagsContents();
    assert Arguments(argv) == ["--a=x", "--a=4"];
    assert Cpp.ArgumentCount(|argv|) == 2;
  }

  /** A value that does not decode: the C loop reports it and goes on (so a
      later argument still takes effect), the C++ loop returns -1 at once. */
  lemma DecodeFailureDiffers(store: Store, scanDouble: string -> Option<real>)
    ensures C.CRun(CFlags(), ["--ab=x"] + ["--abc=7"], store, scanDouble) == Continue(store[0 := IntV(7)][1 := IntV(7)])
    ensures Cpp.ParseArgs(CppFlags(), ["prog", "--a=x", "--a=4"], store, scanDouble) == Return(-1, store)
  {
    CDecodeFailurePassedOver(store, scanDouble);
    CArgumentRunsEveryMatch(store, scanDouble);
    C.CRunAppend(CFlags(), ["--ab=x"], ["--abc=7"], store, scanDouble);
    CppDecodeFailureAborts(store, scanDouble);
  }
}
