/** The type-erased flag descriptor of the C++ variant (`flag_storage_t` in
    `src/cpp/parse_flags.hpp`) and the `parse_value` overloads it dispatches
    to (`src/cpp/parse_flags.cpp`).

    The template constructor captures, next to the storage address, the
    `parse_value` overload for the storage's static type `T`. The model keeps
    that choice as a tag, `StorageType`, fixed when the descriptor is built;
    after that the registry only ever calls `Parse`, whatever the tag. */
module CppFlagStorage {
  import opened Wrappers
  import opened LibC
  import opened FlagModel

  /** `PARSE_FLAGS_DEFAULT_PAD`: the blank columns help output adds after the
      longest flag name. */
  const DefaultPad: nat := 5

  /** The static type `T` of the storage a descriptor was built from. */
  datatype StorageType = IntType | DoubleType | BoolType

  /** `flag_storage_t`: the flag name, its help message, `repr_` (the address
      of the storage) and, as `ty`, which `parse_value` overload `parse_` runs. */
  datatype FlagStorage = FlagStorage(flag: string, message: string, repr: Addr, ty: StorageType)

  /** A value of the C++ type `ty` stands for. */
  predicate HasType(v: Value, ty: StorageType) {
    match ty
    case IntType => v.IntV?
    case DoubleType => v.DoubleV?
    case BoolType => v.BoolV?
  }

  /** `parse_value(const char *, int &)`: `sscanf("%d")`; 0 with the integer
      written when one field converts, -1 with the storage untouched when not. */
  function ParseValueInt(str: string, storage: Addr, store: Store): (r: (int, Store))
    ensures r.0 == 0 || r.0 == -1
    ensures r.0 == 0 <==> HasIntField(str)
    ensures r.0 == -1 ==> r.1 == store
    ensures r.0 == 0 ==> exists n :: r.1 == store[storage := IntV(n)]
    ensures (forall i :: 0 <= i < |str| ==> !IsDigit(str[i])) ==> r == (-1, store)
  {
    match ScanInt(str)
    case Some(n) => (0, store[storage := IntV(n)])
    case None => (-1, store)
  }

  /** `parse_value` for `int` on any text `%d` accepts stores the value of
      its sign and digits. */
  lemma ParseValueIntDigits(ws: string, sign: string, d: string, rest: string, storage: Addr, store: Store)
    requires forall i :: 0 <= i < |ws| ==> IsSpace(ws[i])
    requires sign == "" || sign == "+" || sign == "-"
    requires |d| > 0 && AllDigits(d)
    requires |rest| == 0 || !IsDigit(rest[0])
    ensures ParseValueInt(ws + sign + d + rest, storage, store) == (0, store[storage := IntV(SignedValue(sign, d))])
  {
    ScanIntDigits(ws, sign, d, rest);
  }

  /** `parse_value(const char *, double &)`: `sscanf("%lf")`, the
      floating-point scan itself supplied as `scanDouble`. */
  function ParseValueDouble(str: string, storage: Addr, store: Store, scanDouble: string -> Option<real>): (r: (int, Store))
    ensures r.0 == 0 || r.0 == -1
    ensures r.0 == -1 <==> scanDouble(str).None?
    ensures r.0 == -1 ==> r.1 == store
    ensures r.0 == 0 ==> r.1 == store[storage := DoubleV(scanDouble(str).value)]
  {
    match scanDouble(str)
    case Some(x) => (0, store[storage := DoubleV(x)])
    case None => (-1, store)
  }

  /** `parse_value(const char *, bool &)`: true for a value starting with
      `true`, false for one starting with `false`; anything else returns -1
      and writes nothing. */
  function ParseValueBool(str: string, storage: Addr, store: Store): (r: (int, Store))
    ensures "true" <= str ==> r == (0, store[storage := BoolV(true)])
    ensures !("true" <= str) && "false" <= str ==> r == (0, store[storage := BoolV(false)])
    ensures !("true" <= str) && !("false" <= str) ==> r == (-1, store)
  {
    StrNCmpEqIsPrefix(str, "true");
    StrNCmpEqIsPrefix(str, "false");
    if StrNCmpEq(str, "true", |"true"|) then (0, store[storage := BoolV(true)])
    else if StrNCmpEq(str, "false", |"false"|) then (0, store[storage := BoolV(false)])
    else (-1, store)
  }

  /** `flag_storage_t::parse`: the overload captured at construction, run on
      the descriptor's own storage. Whatever the erased type, only that
      storage can change, a failure changes nothing, and what is written is a
      value of the descriptor's type. */
  function Parse(d: FlagStorage, str: string, store: Store, scanDouble: string -> Option<real>): (r: (int, Store))
    ensures r.0 == 0 || r.0 == -1
    ensures r.0 == -1 ==> r.1 == store
    ensures r.0 == 0 ==> d.repr in r.1 && HasType(r.1[d.repr], d.ty) && r.1 == store[d.repr := r.1[d.repr]]
  {
    match d.ty
    case IntType => ParseValueInt(str, d.repr, store)
    case DoubleType => ParseValueDouble(str, d.repr, store, scanDouble)
    case BoolType => ParseValueBool(str, d.repr, store)
  }

  /** Descriptors that share a storage address share its type: a C++
      reference `T &` to one object always has the same `T`. */
  predicate Consistent(flags: seq<FlagStorage>) {
    forall i, j :: 0 <= i < |flags| && 0 <= j < |flags| && flags[i].repr == flags[j].repr ==> flags[i].ty == flags[j].ty
  }

  /** Every storage location a descriptor points at holds a value of that
      descriptor's type (or is not in the model's store yet). */
  ghost predicate WellTyped(store: Store, flags: seq<FlagStorage>) {
    forall j :: 0 <= j < |flags| && flags[j].repr in store ==> HasType(store[flags[j].repr], flags[j].ty)
  }

  /** Type erasure keeps the storage well typed: running any registered
      descriptor's `parse` writes only values of the right type. */
  lemma ParseKeepsWellTyped(flags: seq<FlagStorage>, k: nat, str: string, store: Store,
                            scanDouble: string -> Option<real>)
    requires k < |flags| && Consistent(flags) && WellTyped(store, flags)
    ensures WellTyped(Parse(flags[k], str, store, scanDouble).1, flags)
  {
    var s' := Parse(flags[k], str, store, scanDouble).1;
    forall j | 0 <= j < |flags| && flags[j].repr in s'
      ensures HasType(s'[flags[j].repr], flags[j].ty)
    {
      if flags[j].repr == flags[k].repr && s' != store {
        assert flags[j].ty == flags[k].ty;
      }
    }
  }
}
