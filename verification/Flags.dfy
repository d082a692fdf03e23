/** Message flags: the space-separated string of internal/storage/messages.go and the
    STORE operations of internal/imap/fetch.go, against sets of case-folded flags. */
module Flags {
  import opened Text

  const DELETED := "\\Deleted"

  predicate HasFlag(flags: string, flag: string) {
    exists f <- Fields(flags) :: EqualFold(f, flag)
  }

  function AddFlag(flags: string, flag: string): string {
    if HasFlag(flags, flag) then flags
    else if flags == "" then flag
    else flags + " " + flag
  }

  /** The fields of a string that are not the given flag, in order. */
  function Without(parts: seq<string>, flag: string): seq<string> {
    if parts == [] then []
    else (if EqualFold(parts[0], flag) then [] else [parts[0]]) + Without(parts[1..], flag)
  }

  function RemoveFlag(flags: string, flag: string): string {
    Join(Without(Fields(flags), flag), " ")
  }

  datatype Op = Set | Add | Del

  datatype StoreFlags = StoreFlags(op: Op, flags: seq<string>)

  function AddAll(current: string, flags: seq<string>): string
    decreases flags
  {
    if flags == [] then current else AddAll(AddFlag(current, flags[0]), flags[1..])
  }

  function RemoveAll(current: string, flags: seq<string>): string
    decreases flags
  {
    if flags == [] then current else RemoveAll(RemoveFlag(current, flags[0]), flags[1..])
  }

  function Stored(current: string, sf: StoreFlags): string {
    match sf.op
    case Set => Join(sf.flags, " ")
    case Add => AddAll(current, sf.flags)
    case Del => RemoveAll(current, sf.flags)
  }

  // ---------------------------------------------------------------- flag sets

  /** What a flag string means: a set of case-folded flags. */
  function FlagSet(flags: string): set<string> {
    FoldedSet(Fields(flags))
  }

  function FoldedSet(flags: seq<string>): set<string> {
    set f <- flags :: ToLower(f)
  }

  /** A flag as IMAP sends it: not empty, no white space. */
  predicate IsFlag(flag: string) {
    IsWord(flag, IsSpace)
  }

  /** STORE as section 6.4.6 of RFC 3501 means it: assign, union, difference. */
  function SetStored(current: set<string>, sf: StoreFlags): set<string> {
    match sf.op
    case Set => FoldedSet(sf.flags)
    case Add => current + FoldedSet(sf.flags)
    case Del => current - FoldedSet(sf.flags)
  }

  lemma HasFlagIsMembership(flags: string, flag: string)
    ensures HasFlag(flags, flag) <==> ToLower(flag) in FlagSet(flags)
  {
  }

  lemma FieldsOfFlag(flag: string)
    requires IsFlag(flag)
    ensures Fields(flag) == [flag] && FlagSet(flag) == {ToLower(flag)}
  {
    FieldsOfWord(flag, IsSpace);
  }

  /** Adding is union, whatever the two strings are. */
  lemma AddIsUnion(flags: string, flag: string)
    ensures FlagSet(AddFlag(flags, flag)) == FlagSet(flags) + FlagSet(flag)
  {
    if HasFlag(flags, flag) {
      var f :| f in Fields(flags) && EqualFold(f, flag);
      LowerKeepsWords(f, flag);
      FieldsOfFlag(flag);
    } else if flags != "" {
      FieldsSplit(flags, ' ', flag, IsSpace);
      assert flags + [' '] + flag == flags + " " + flag;
      assert Fields(AddFlag(flags, flag)) == Fields(flags) + Fields(flag);
    }
  }

  lemma {:induction false} WithoutIsDifference(parts: seq<string>, flag: string)
    ensures FoldedSet(Without(parts, flag)) == FoldedSet(parts) - {ToLower(flag)}
    ensures forall p <- Without(parts, flag) :: p in parts
  {
    if parts != [] {
      WithoutIsDifference(parts[1..], flag);
      assert FoldedSet(parts) == {ToLower(parts[0])} + FoldedSet(parts[1..]) by {
        assert parts == [parts[0]] + parts[1..];
      }
      var rest := Without(parts[1..], flag);
      assert FoldedSet([parts[0]] + rest) == {ToLower(parts[0])} + FoldedSet(rest);
    }
  }

  /** Removing is difference, whatever the two strings are. */
  lemma RemoveIsDifference(flags: string, flag: string)
    ensures FlagSet(RemoveFlag(flags, flag)) == FlagSet(flags) - {ToLower(flag)}
  {
    var kept := Without(Fields(flags), flag);
    WithoutIsDifference(Fields(flags), flag);
    FieldsOfJoin(kept, ' ', IsSpace);
    FieldsOfWords(kept, IsSpace);
  }

  lemma FoldedCons(flags: seq<string>)
    requires flags != []
    ensures FoldedSet(flags) == {ToLower(flags[0])} + FoldedSet(flags[1..])
  {
    assert flags == [flags[0]] + flags[1..];
  }

  lemma {:induction false} AddAllIsUnion(current: string, flags: seq<string>)
    requires forall f <- flags :: IsFlag(f)
    ensures FlagSet(AddAll(current, flags)) == FlagSet(current) + FoldedSet(flags)
    decreases flags
  {
    if flags != [] {
      AddIsUnion(current, flags[0]);
      FieldsOfFlag(flags[0]);
      AddAllIsUnion(AddFlag(current, flags[0]), flags[1..]);
      FoldedCons(flags);
    }
  }

  lemma {:induction false} RemoveAllIsDifference(current: string, flags: seq<string>)
    ensures FlagSet(RemoveAll(current, flags)) == FlagSet(current) - FoldedSet(flags)
    decreases flags
  {
    if flags != [] {
      RemoveIsDifference(current, flags[0]);
      RemoveAllIsDifference(RemoveFlag(current, flags[0]), flags[1..]);
      FoldedCons(flags);
    }
  }

  lemma StoreRefinesSet(current: string, sf: StoreFlags)
    requires forall f <- sf.flags :: IsFlag(f)
    ensures FlagSet(Stored(current, sf)) == SetStored(FlagSet(current), sf)
  {
    match sf.op
    case Set =>
      FieldsOfJoin(sf.flags, ' ', IsSpace);
      FieldsOfWords(sf.flags, IsSpace);
    case Add => AddAllIsUnion(current, sf.flags);
    case Del => RemoveAllIsDifference(current, sf.flags);
  }

  function StoredAll(current: string, ops: seq<StoreFlags>): string
    decreases ops
  {
    if ops == [] then current else StoredAll(Stored(current, ops[0]), ops[1..])
  }

  function SetStoredAll(current: set<string>, ops: seq<StoreFlags>): set<string>
    decreases ops
  {
    if ops == [] then current else SetStoredAll(SetStored(current, ops[0]), ops[1..])
  }

  /** After any sequence of STORE commands every HasFlag answer is the set's. */
  lemma {:induction false} FlagStringsRefineSets(current: string, ops: seq<StoreFlags>, flag: string)
    requires forall op <- ops :: forall f <- op.flags :: IsFlag(f)
    ensures HasFlag(StoredAll(current, ops), flag) <==> ToLower(flag) in SetStoredAll(FlagSet(current), ops)
    decreases ops
  {
    if ops == [] {
      HasFlagIsMembership(current, flag);
    } else {
      StoreRefinesSet(current, ops[0]);
      FlagStringsRefineSets(Stored(current, ops[0]), ops[1..], flag);
    }
  }

  /** `parseFlags` inverts the join exactly on lists of well-formed flags. */
  lemma ParseInvertsJoinIff(flags: seq<string>)
    ensures Fields(Join(flags, " ")) == flags <==> forall f <- flags :: IsFlag(f)
  {
    if forall f <- flags :: IsFlag(f) {
      FieldsOfJoin(flags, ' ', IsSpace);
      FieldsOfWords(flags, IsSpace);
    }
  }

  // ---------------------------------------------------------- imperative form

  method RemoveFlagFrom(flags: string, flag: string) returns (r: string)
    ensures r == RemoveFlag(flags, flag)
  {
    var parts := Fields(flags);
    var result := [];
    var i := 0;
    while i < |parts|
      invariant 0 <= i <= |parts|
      invariant Without(parts, flag) == result + Without(parts[i..], flag)
    {
      assert parts[i..][1..] == parts[i + 1..];
      if !EqualFold(parts[i], flag) {
        ghost var rest := Without(parts[i + 1..], flag);
        assert result + ([parts[i]] + rest) == (result + [parts[i]]) + rest;
        result := result + [parts[i]];
      } else {
        assert [] + Without(parts[i + 1..], flag) == Without(parts[i + 1..], flag);
      }
      i := i + 1;
    }
    assert parts[i..] == [] && result + [] == result;
    r := Join(result, " ");
  }

  method ApplyStoreFlags(current: string, sf: StoreFlags) returns (r: string)
    ensures r == Stored(current, sf)
  {
    r := current;
    match sf.op
    case Set =>
      r := Join(sf.flags, " ");
    case Add =>
      var i := 0;
      while i < |sf.flags|
        invariant 0 <= i <= |sf.flags|
        invariant AddAll(current, sf.flags) == AddAll(r, sf.flags[i..])
      {
        r := AddFlag(r, sf.flags[i]);
        i := i + 1;
      }
    case Del =>
      var i := 0;
      while i < |sf.flags|
        invariant 0 <= i <= |sf.flags|
        invariant RemoveAll(current, sf.flags) == RemoveAll(r, sf.flags[i..])
      {
        r := RemoveFlagFrom(r, sf.flags[i]);
        i := i + 1;
      }
  }
}
