/** The root directory: a fixed number of 32-byte slots, each empty (first name
    character NUL) or describing one file by name, size and first cluster. */
module RootDirectory {
  import opened Common

  const Nul: char := '\0'
  /** Bytes of the name field, terminator included. */
  const NameField: nat := 16
  /** The attribute byte of an ordinary file. */
  const RegularFile: U8 := 0x20

  datatype RootEntry = RootEntry(
    fileName: seq<char>,
    fileSize: U32,
    startCluster: U16,
    attributes: U8,
    creationTime: U32,
    modificationTime: U32)

  /** `n` NUL characters. */
  function Nuls(n: nat): (r: seq<char>)
    ensures |r| == n && forall i :: 0 <= i < n ==> r[i] == Nul
  {
    if n == 0 then [] else [Nul] + Nuls(n - 1)
  }

  /** A slot cleared with `memset(&entry, 0, sizeof(RootEntry))`. */
  const Zeroed: RootEntry := RootEntry(Nuls(NameField), 0, 0, 0, 0, 0)

  // ---------------------------------------------------------------------------
  // C strings: a `seq<char>` read as `char*`, where reading past the end yields the
  // terminating NUL that `std::string::c_str()` guarantees.

  function CharAt(s: seq<char>, i: nat): char {
    if i < |s| then s[i] else Nul
  }

  function Tail(s: seq<char>): seq<char> {
    if |s| == 0 then [] else s[1..]
  }

  /** The characters before the first NUL. */
  function CStr(s: seq<char>): (r: seq<char>)
    ensures |r| <= |s| && r == s[..|r|]
    ensures Nul !in r
    ensures |r| < |s| ==> s[|r|] == Nul
  {
    if CharAt(s, 0) == Nul then [] else [s[0]] + CStr(s[1..])
  }

  /** The first `n` characters of `s`, or all of them when there are fewer. */
  function Take(s: seq<char>, n: nat): (r: seq<char>)
    ensures |r| == Min(n, |s|)
  {
    if n <= |s| then s[..n] else s
  }

  /** `strncpy(dst, src, n)`: the characters of `src` up to its terminator, the rest of the
      `n` bytes filled with NUL. */
  function Strncpy(src: seq<char>, n: nat): (r: seq<char>)
    ensures |r| == n
  {
    seq(n, i requires 0 <= i < n => if i < |CStr(src)| then src[i] else Nul)
  }

  /** `strncmp(a, b, n) == 0`: the first `n` characters agree, stopping early at a shared NUL. */
  function StrncmpEqual(a: seq<char>, b: seq<char>, n: nat): bool
    decreases n
  {
    n == 0 ||
    (CharAt(a, 0) == CharAt(b, 0) && (CharAt(a, 0) == Nul || StrncmpEqual(Tail(a), Tail(b), n - 1)))
  }

  lemma CStrUnfold(s: seq<char>)
    ensures CharAt(s, 0) == Nul ==> CStr(s) == []
    ensures CharAt(s, 0) != Nul ==> CStr(s) == [s[0]] + CStr(Tail(s))
  {}

  /** `strncmp(a, b, n) == 0` exactly when the two C strings agree on their first `n` characters. */
  lemma {:induction false} StrncmpEqualIff(a: seq<char>, b: seq<char>, n: nat)
    ensures StrncmpEqual(a, b, n) <==> Take(CStr(a), n) == Take(CStr(b), n)
    decreases n
  {
    if n > 0 {
      CStrUnfold(a);
      CStrUnfold(b);
      var x, y := CharAt(a, 0), CharAt(b, 0);
      if x != Nul && y != Nul {
        StrncmpEqualIff(Tail(a), Tail(b), n - 1);
        var ra, rb := CStr(Tail(a)), CStr(Tail(b));
        assert Take(CStr(a), n) == [x] + Take(ra, n - 1);
        assert Take(CStr(b), n) == [y] + Take(rb, n - 1);
        if Take(CStr(a), n) == Take(CStr(b), n) {
          assert Take(CStr(a), n)[0] == x && Take(CStr(b), n)[0] == y;
          assert Take(CStr(a), n)[1..] == Take(ra, n - 1);
        }
      } else if x != Nul {
        assert |Take(CStr(a), n)| > 0 == |Take(CStr(b), n)|;
      } else if y != Nul {
        assert |Take(CStr(b), n)| > 0 == |Take(CStr(a), n)|;
      }
    }
  }

  // ---------------------------------------------------------------------------
  // Slots

  /** The name field `addFile` stores: `strncpy(fileName, name, 16)` then `fileName[15] = '\0'`. */
  function StoredName(name: seq<char>): seq<char> {
    Strncpy(name, NameField)[NameField - 1 := Nul]
  }

  /** The stored name is the argument cut to its first 15 characters (and to its first NUL). */
  lemma StoredNameIsTruncated(name: seq<char>)
    ensures |StoredName(name)| == NameField
    ensures CStr(StoredName(name)) == Take(CStr(name), NameField - 1)
  {
    var s := StoredName(name);
    var c := CStr(name);
    var k := Min(|c|, NameField - 1);
    assert c == name[..|c|];
    assert forall i :: 0 <= i < k ==> s[i] == c[i];
    assert s[k] == Nul;
    CStrPrefix(s, k);
  }

  /** A sequence whose first `k` characters are not NUL and whose character `k` is NUL has
      those `k` characters as its C string. */
  lemma {:induction false} CStrPrefix(s: seq<char>, k: nat)
    requires k < |s| && s[k] == Nul
    requires forall i :: 0 <= i < k ==> s[i] != Nul
    ensures CStr(s) == s[..k]
    decreases k
  {
    if k > 0 {
      CStrPrefix(s[1..], k - 1);
      assert s[..k] == [s[0]] + s[1..][..k - 1];
    }
  }

  /** The slot `addFile` fills: name, size and first cluster as given, the regular-file
      attribute, and the clock reading `now` as both creation and modification time. */
  function NewEntry(name: seq<char>, fileSize: U32, startCluster: U16, now: U32): RootEntry {
    RootEntry(StoredName(name), fileSize, startCluster, RegularFile, now, now)
  }

  /** A slot is free when its name starts with NUL. */
  predicate IsEmptySlot(e: RootEntry) {
    CharAt(e.fileName, 0) == Nul
  }

  /** `findFile` and `removeFile` test a slot with `strncmp(entry.fileName, name, 16) == 0`. */
  predicate Matches(e: RootEntry, name: seq<char>) {
    StrncmpEqual(e.fileName, name, NameField)
  }

  /** A name that survives storage unchanged: 1 to 15 characters, none of them NUL. */
  predicate IsShortName(name: seq<char>) {
    0 < |name| < NameField && Nul !in name
  }

  /** A stored entry matches a query exactly when the query's first 16 characters equal
      the stored (15-character) name. */
  lemma NewEntryMatchesIff(name: seq<char>, size: U32, start: U16, now: U32, query: seq<char>)
    ensures Matches(NewEntry(name, size, start, now), query) <==>
            Take(CStr(name), NameField - 1) == Take(CStr(query), NameField)
  {
    StoredNameIsTruncated(name);
    StrncmpEqualIff(StoredName(name), query, NameField);
  }

  /** A short name is found again by its own spelling. */
  lemma ShortNameMatchesItself(name: seq<char>, size: U32, start: U16, now: U32)
    requires IsShortName(name)
    ensures Matches(NewEntry(name, size, start, now), name)
    ensures !IsEmptySlot(NewEntry(name, size, start, now))
  {
    NewEntryMatchesIff(name, size, start, now, name);
    assert name[|name|..] == [];
    CStrOfNulFree(name);
    StoredNameIsTruncated(name);
  }

  lemma {:induction false} CStrOfNulFree(s: seq<char>)
    requires Nul !in s
    ensures CStr(s) == s
  {
    if |s| > 0 {
      CStrOfNulFree(s[1..]);
    }
  }

  /** A name longer than 15 characters is stored truncated and is not found by its own spelling. */
  lemma LongNameNotFound(name: seq<char>, size: U32, start: U16, now: U32)
    requires |CStr(name)| >= NameField
    ensures !Matches(NewEntry(name, size, start, now), name)
  {
    NewEntryMatchesIff(name, size, start, now, name);
    assert |Take(CStr(name), NameField - 1)| != |Take(CStr(name), NameField)|;
  }

  /** Adding a file under an empty name writes NUL as the first character, so the slot still
      reads as empty. */
  lemma EmptyNameLeavesSlotEmpty(name: seq<char>, size: U32, start: U16, now: U32)
    requires CStr(name) == []
    ensures IsEmptySlot(NewEntry(name, size, start, now))
  {
    StoredNameIsTruncated(name);
    CStrUnfold(StoredName(name));
  }

  /** An empty name matches every cleared slot; a non-empty one never does. */
  lemma ZeroedMatchesOnlyEmptyName(name: seq<char>)
    ensures Matches(Zeroed, name) <==> CStr(name) == []
    ensures IsEmptySlot(Zeroed)
  {
    StrncmpEqualIff(Zeroed.fileName, name, NameField);
    CStrUnfold(Zeroed.fileName);
    if CStr(name) != [] {
      assert |Take(CStr(name), NameField)| > 0;
    }
  }

  // ---------------------------------------------------------------------------
  // Scans over the slots

  /** The slot `findFile(name)` returns: the first one that matches. */
  function FirstMatch(es: seq<RootEntry>, name: seq<char>): (r: Option<nat>)
    ensures r.Some? ==> r.value < |es| && Matches(es[r.value], name) &&
                        forall j :: 0 <= j < r.value ==> !Matches(es[j], name)
    ensures r.None? ==> forall j :: 0 <= j < |es| ==> !Matches(es[j], name)
  {
    if |es| == 0 then None
    else if Matches(es[0], name) then Some(0)
    else match FirstMatch(es[1..], name)
      case None => None
      case Some(i) => Some(i + 1)
  }

  /** The slot `addFile` fills: the first empty one. */
  function FirstEmpty(es: seq<RootEntry>): (r: Option<nat>)
    ensures r.Some? ==> r.value < |es| && IsEmptySlot(es[r.value]) &&
                        forall j :: 0 <= j < r.value ==> !IsEmptySlot(es[j])
    ensures r.None? ==> forall j :: 0 <= j < |es| ==> !IsEmptySlot(es[j])
  {
    if |es| == 0 then None
    else if IsEmptySlot(es[0]) then Some(0)
    else match FirstEmpty(es[1..])
      case None => None
      case Some(i) => Some(i + 1)
  }

  /** The slots `listFiles` reports: the non-empty ones, in slot order. */
  function Listed(es: seq<RootEntry>): seq<RootEntry> {
    if |es| == 0 then []
    else (if IsEmptySlot(es[0]) then [] else [es[0]]) + Listed(es[1..])
  }

  /** Exactly the non-empty slots are listed; nothing is listed when every slot is empty. */
  lemma {:induction false} ListedIsOccupied(es: seq<RootEntry>)
    ensures forall e :: e in Listed(es) <==> e in es && !IsEmptySlot(e)
    ensures Listed(es) == [] <==> forall j :: 0 <= j < |es| ==> IsEmptySlot(es[j])
    ensures |Listed(es)| <= |es|
  {
    if |es| > 0 {
      ListedIsOccupied(es[1..]);
      assert es == [es[0]] + es[1..];
      if !IsEmptySlot(es[0]) {
        assert Listed(es)[0] == es[0];
      } else {
        forall j | 0 < j < |es| && !IsEmptySlot(es[j])
          ensures Listed(es) != []
        {
          assert es[1..][j - 1] == es[j];
        }
      }
    }
  }

  /** Listing one more slot appends it when it is occupied. */
  lemma {:induction false} ListedSnoc(es: seq<RootEntry>, e: RootEntry)
    ensures Listed(es + [e]) == Listed(es) + (if IsEmptySlot(e) then [] else [e])
  {
    if |es| > 0 {
      ListedSnoc(es[1..], e);
      assert (es + [e])[1..] == es[1..] + [e];
    } else {
      assert Listed([e][1..]) == [];
    }
  }

  /** `addFile` on a list of slots: the slots afterwards, or `None` when none is empty. */
  function Added(es: seq<RootEntry>, name: seq<char>, size: U32, start: U16, now: U32): Option<seq<RootEntry>> {
    match FirstEmpty(es)
    case None => None
    case Some(i) => Some(es[i := NewEntry(name, size, start, now)])
  }

  /** After adding a short name that no slot matched, the lookup finds the new slot. */
  lemma AddThenFind(es: seq<RootEntry>, name: seq<char>, size: U32, start: U16, now: U32)
    requires IsShortName(name)
    requires FirstMatch(es, name) == None
    requires FirstEmpty(es).Some?
    ensures Added(es, name, size, start, now).Some?
    ensures FirstMatch(Added(es, name, size, start, now).value, name) == FirstEmpty(es)
  {
    var i := FirstEmpty(es).value;
    var es' := Added(es, name, size, start, now).value;
    ShortNameMatchesItself(name, size, start, now);
    assert forall j :: 0 <= j < i ==> es'[j] == es[j];
    FirstMatchIs(es', name, i);
  }

  /** `FirstMatch` is the first index whose slot matches. */
  lemma FirstMatchIs(es: seq<RootEntry>, name: seq<char>, i: nat)
    requires i < |es| && Matches(es[i], name)
    requires forall j :: 0 <= j < i ==> !Matches(es[j], name)
    ensures FirstMatch(es, name) == Some(i)
  {
  }

  /** Names are not unique: adding a name that a slot already holds succeeds whenever a
      slot is empty, and afterwards both slots match it. */
  lemma DuplicatesCoexist(es: seq<RootEntry>, name: seq<char>, size: U32, start: U16, now: U32)
    requires IsShortName(name)
    requires FirstMatch(es, name).Some?
    requires FirstEmpty(es).Some?
    ensures Added(es, name, size, start, now).Some?
    ensures var es' := Added(es, name, size, start, now).value;
      && Matches(es'[FirstMatch(es, name).value], name)
      && Matches(es'[FirstEmpty(es).value], name)
      && FirstMatch(es, name).value != FirstEmpty(es).value
  {
    var m := FirstMatch(es, name).value;
    var i := FirstEmpty(es).value;
    ShortNameMatchesItself(name, size, start, now);
  }

  /** `removeFile` on a list of slots: the first matching slot cleared, or `None`. */
  function Removed(es: seq<RootEntry>, name: seq<char>): Option<seq<RootEntry>> {
    match FirstMatch(es, name)
    case None => None
    case Some(i) => Some(es[i := Zeroed])
  }

  /** Removing a non-empty name that only one slot held leaves no slot matching it. */
  lemma RemoveThenNotFound(es: seq<RootEntry>, name: seq<char>)
    requires CStr(name) != []
    requires FirstMatch(es, name).Some?
    requires forall j :: 0 <= j < |es| && j != FirstMatch(es, name).value ==> !Matches(es[j], name)
    ensures Removed(es, name).Some?
    ensures FirstMatch(Removed(es, name).value, name) == None
  {
    ZeroedMatchesOnlyEmptyName(name);
  }

  /** Only an occupied slot matches a non-empty name. */
  lemma MatchedSlotOccupied(e: RootEntry, name: seq<char>)
    requires Matches(e, name) && CStr(name) != []
    ensures !IsEmptySlot(e)
  {
    StrncmpEqualIff(e.fileName, name, NameField);
    CStrUnfold(e.fileName);
    assert |Take(CStr(name), NameField)| > 0;
  }

  /** The empty name matches exactly the empty slots. */
  lemma EmptyNameMatchesEmptySlot(e: RootEntry, name: seq<char>)
    requires CStr(name) == []
    ensures Matches(e, name) <==> IsEmptySlot(e)
  {
    StrncmpEqualIff(e.fileName, name, NameField);
    CStrUnfold(e.fileName);
    if CStr(e.fileName) != [] {
      assert |Take(CStr(e.fileName), NameField)| > 0;
    }
  }

  /** A lookup of the empty name lands on the first empty slot, whatever it holds. */
  lemma EmptyNameFindsFirstEmpty(es: seq<RootEntry>, name: seq<char>)
    requires CStr(name) == []
    ensures FirstMatch(es, name) == FirstEmpty(es)
  {
    forall j | 0 <= j < |es|
      ensures Matches(es[j], name) <==> IsEmptySlot(es[j])
    {
      EmptyNameMatchesEmptySlot(es[j], name);
    }
  }

  // ---------------------------------------------------------------------------
  // The directory manager

  class RootDirectoryManager {
    var entries: seq<RootEntry>

    /** `entryCount` cleared slots. */
    constructor (entryCount: U16)
      ensures |entries| == entryCount
      ensures forall i :: 0 <= i < entryCount ==> entries[i] == Zeroed
    {
      entries := seq(entryCount, _ => Zeroed);
    }

    /** Clears every slot; the number of slots is kept. */
    method Initialize()
      modifies this
      ensures |entries| == old(|entries|)
      ensures forall i :: 0 <= i < |entries| ==> entries[i] == Zeroed
    {
      var i := 0;
      while i < |entries|
        invariant 0 <= i <= |entries| == old(|entries|)
        invariant forall j :: 0 <= j < i ==> entries[j] == Zeroed
      {
        entries := entries[i := Zeroed];
        i := i + 1;
      }
    }

    /** Fills the first empty slot, and no other, with a new entry; with no empty slot,
        returns false and changes nothing. No check is made that the name is new. */
    method AddFile(fileName: seq<char>, fileSize: U32, startCluster: U16, now: U32) returns (ok: bool)
      modifies this
      ensures ok <==> exists j :: 0 <= j < |old(entries)| && IsEmptySlot(old(entries)[j])
      ensures ok ==> entries == old(entries)[FirstEmpty(old(entries)).value := NewEntry(fileName, fileSize, startCluster, now)]
      ensures !ok ==> entries == old(entries)
      ensures Added(old(entries), fileName, fileSize, startCluster, now) == if ok then Some(entries) else None
    {
      var i := 0;
      while i < |entries|
        invariant 0 <= i <= |entries|
        invariant entries == old(entries)
        invariant forall j :: 0 <= j < i ==> !IsEmptySlot(entries[j])
      {
        if CharAt(entries[i].fileName, 0) == Nul {
          assert FirstEmpty(entries) == Some(i) by {
            var r := FirstEmpty(entries);
            assert r.Some? && r.value <= i;
          }
          entries := entries[i := NewEntry(fileName, fileSize, startCluster, now)];
          return true;
        }
        i := i + 1;
      }
      return false;
    }

    /** Clears the first slot matching `fileName` and returns true; returns false and
        changes nothing when no slot matches. */
    method RemoveFile(fileName: seq<char>) returns (ok: bool)
      modifies this
      ensures ok <==> FirstMatch(old(entries), fileName).Some?
      ensures ok ==> entries == old(entries)[FirstMatch(old(entries), fileName).value := Zeroed]
      ensures !ok ==> entries == old(entries)
      ensures Removed(old(entries), fileName) == if ok then Some(entries) else None
    {
      var i := 0;
      while i < |entries|
        invariant 0 <= i <= |entries|
        invariant entries == old(entries)
        invariant forall j :: 0 <= j < i ==> !Matches(entries[j], fileName)
      {
        if StrncmpEqual(entries[i].fileName, fileName, NameField) {
          FirstMatchIs(entries, fileName, i);
          entries := entries[i := Zeroed];
          return true;
        }
        i := i + 1;
      }
      return false;
    }

    /** The slots `listFiles` prints: every non-empty one, in slot order. */
    method ListFiles() returns (files: seq<RootEntry>)
      ensures files == Listed(entries)
    {
      files := [];
      var i := 0;
      while i < |entries|
        invariant 0 <= i <= |entries|
        invariant files == Listed(entries[..i])
      {
        ListedSnoc(entries[..i], entries[i]);
        assert entries[..i + 1] == entries[..i] + [entries[i]];
        if CharAt(entries[i].fileName, 0) != Nul {
          files := files + [entries[i]];
        }
        i := i + 1;
      }
      assert entries[..i] == entries;
    }

    /** The index of the first slot matching `fileName`, or `None`. */
    method FindFile(fileName: seq<char>) returns (slot: Option<nat>)
      ensures slot.Some? ==> slot.value < |entries| && Matches(entries[slot.value], fileName)
      ensures slot.Some? ==> forall j :: 0 <= j < slot.value ==> !Matches(entries[j], fileName)
      ensures slot.None? ==> forall j :: 0 <= j < |entries| ==> !Matches(entries[j], fileName)
    {
      var i := 0;
      while i < |entries|
        invariant 0 <= i <= |entries|
        invariant forall j :: 0 <= j < i ==> !Matches(entries[j], fileName)
      {
        if StrncmpEqual(entries[i].fileName, fileName, NameField) {
          return Some(i);
        }
        i := i + 1;
      }
      return None;
    }
  }
}
