/** Vocabulary shared by the C and the C++ variant of the parser: the values a
    flag's storage can hold, the caller-owned storage itself, the shape of a
    split `--name=value` token, and what one token and one whole parse call
    end in. */
module FlagModel {
  import opened Wrappers
  import opened LibC

  /** The address of a caller-owned storage location. */
  type Addr = nat

  /** What a storage location holds once a value parser has written it. */
  datatype Value = IntV(i: int) | BoolV(b: bool) | DoubleV(d: real)

  /** All caller-owned storage locations the parser can reach. */
  type Store = map<Addr, Value>

  /** `s'` agrees with `s` on every address outside `w`. */
  ghost predicate SameOutside(s: Store, s': Store, w: set<Addr>) {
    forall a :: a !in w ==> (a in s <==> a in s') && (a in s ==> s[a] == s'[a])
  }

  lemma SameOutsideTrans(s1: Store, s2: Store, s3: Store, w1: set<Addr>, w2: set<Addr>, w: set<Addr>)
    requires SameOutside(s1, s2, w1) && SameOutside(s2, s3, w2)
    requires w1 <= w && w2 <= w
    ensures SameOutside(s1, s3, w)
  {
  }

  /** A command-line argument cut by the splitter: not of the form `--...`, or
      the flag name and the value after the first `=` (`None` when there is no
      `=`: the C pointer is NULL, not an empty string). */
  datatype Split = NotAFlag | Flag(name: string, value: Option<string>)

  /** The argument that splits into `name` and `value`. */
  function Token(name: string, value: Option<string>): string {
    match value
    case None => "--" + name
    case Some(v) => "--" + name + "=" + v
  }

  /** How a whole parse call ends. `Help`: help was shown and the process
      exits with status 1. `Return`: the call returned `code`, with the
      storage as left. `Fault`: a value parser was handed the NULL value of a
      token without `=`, which the source dereferences. */
  datatype Outcome = Help | Return(code: int, store: Store) | Fault

  /** The end of one loop iteration over an argument: go on to the next
      argument with the storage as updated, or leave the loop. */
  datatype Step = Continue(store: Store) | Stop(outcome: Outcome)

  /** Running off the end of the argument loop: both variants return 0. */
  function Finish(r: Step): (o: Outcome)
    ensures r.Continue? ==> o == Return(0, r.store)
    ensures r.Stop? ==> o == r.outcome
  {
    match r
    case Continue(s) => Return(0, s)
    case Stop(o) => o
  }

  /** A help line: `lead` (the dashes), the whole flag name, blanks up to
      column `col`, then the message. */
  predicate LaidOut(line: string, lead: string, flag: string, message: string, col: nat) {
    && |lead| + |flag| <= col
    && line == lead + flag + Blanks(col - |lead| - |flag|) + message
  }

  /** `argv[1 .. argc-1]`: the arguments after the program name. */
  function Arguments(argv: seq<string>): (toks: seq<string>)
    ensures |argv| > 0 ==> argv == [argv[0]] + toks
    ensures |argv| == 0 ==> toks == []
  {
    if |argv| == 0 then [] else argv[1..]
  }

  /** The number of help lines before the flag lines: 1 for the message, if
      one was set. */
  function Skip(message: Option<string>): nat {
    if message.Some? then 1 else 0
  }
}
