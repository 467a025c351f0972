/**
 The address-to-text table of A5/src/assembly.c: open addressing with a window of four slots, and a
 rehash that retries at growing sizes until every entry fits.
*/
module AssemblyTable {

  const NOT_FOUND := -1
  const PROBES := 4
  const FIRST_SIZE := 4

  datatype Entry = Entry(valid: bool, addr: int, text: string)

  /** What calloc leaves in a slot. */
  const EMPTY := Entry(false, 0, "")

  // ----- tables as values

  /** Slot i is one of the four slots probed for addr. */
  predicate InWindow(addr: int, i: int, size: int)
    requires 0 < size
  {
    var home := addr % size;
    home <= i < home + PROBES || i + size < home + PROBES
  }

  /** How many probes reach slot i before it is probed for addr. */
  function ProbesBefore(addr: int, i: int, size: int): int
    requires 0 < size
  {
    if addr % size <= i then i - addr % size else i + size - addr % size
  }

  ghost predicate NoAddressTwice(t: seq<Entry>) {
    forall i, j :: 0 <= i < j < |t| && t[i].valid && t[j].valid ==> t[i].addr != t[j].addr
  }

  ghost predicate Placed(t: seq<Entry>) {
    && PROBES <= |t| && NoAddressTwice(t)
    && forall i :: 0 <= i < |t| && t[i].valid ==> 0 <= t[i].addr && InWindow(t[i].addr, i, |t|)
  }

  ghost predicate AllHome(t: seq<Entry>) {
    forall i :: 0 <= i < |t| && t[i].valid ==> t[i].addr == i
  }

  /** The map a table stands for. */
  ghost function Entries(t: seq<Entry>): map<int, string> {
    if t == [] then map[]
    else
      var last := t[|t| - 1];
      var rest := Entries(t[..|t| - 1]);
      if last.valid then rest[last.addr := last.text] else rest
  }

  lemma {:induction false} EntriesKeys(t: seq<Entry>, a: int)
    ensures a in Entries(t) <==> exists i :: 0 <= i < |t| && t[i].valid && t[i].addr == a
  {
    if t != [] {
      var last := |t| - 1;
      EntriesKeys(t[..last], a);
      if a in Entries(t) {
        if t[last].valid && t[last].addr == a {
        } else {
          var i :| 0 <= i < last && t[..last][i].valid && t[..last][i].addr == a;
          assert t[i].valid;
        }
      }
      if i :| 0 <= i < |t| && t[i].valid && t[i].addr == a {
        if i < last {
          assert t[..last][i].valid;
        }
      }
    }
  }

  lemma {:induction false} EntriesAt(t: seq<Entry>, i: int)
    requires NoAddressTwice(t) && 0 <= i < |t| && t[i].valid
    ensures t[i].addr in Entries(t) && Entries(t)[t[i].addr] == t[i].text
  {
    var last := |t| - 1;
    if i < last {
      EntriesAt(t[..last], i);
    }
  }

  /** Storing an entry in an empty slot, or over the entry for the same address, updates the map. */
  lemma {:induction false} EntriesStore(t: seq<Entry>, i: int, e: Entry)
    requires NoAddressTwice(t) && 0 <= i < |t| && e.valid
    requires t[i].valid ==> t[i].addr == e.addr
    requires forall j :: 0 <= j < |t| && j != i && t[j].valid ==> t[j].addr != e.addr
    ensures Entries(t[i := e]) == Entries(t)[e.addr := e.text]
    ensures NoAddressTwice(t[i := e])
  {
    var last := |t| - 1;
    if i == last {
      assert t[i := e][..last] == t[..last];
    } else {
      EntriesStore(t[..last], i, e);
      assert t[i := e][..last] == t[..last][i := e];
    }
  }

  // ----- what a history of sets should leave behind

  function Final(history: seq<(int, string)>): map<int, string> {
    if history == [] then map[]
    else Final(history[..|history| - 1])[history[|history| - 1].0 := history[|history| - 1].1]
  }

  /** The last set of an address wins. */
  lemma {:induction false} LastSetWins(history: seq<(int, string)>, k: nat)
    requires k < |history| && forall j :: k < j < |history| ==> history[j].0 != history[k].0
    ensures history[k].0 in Final(history) && Final(history)[history[k].0] == history[k].1
  {
    var last := |history| - 1;
    if k < last {
      LastSetWins(history[..last], k);
    }
  }

  // ----- the code

  class Assembly {
    var tableSize: int
    var lookupTable: array<Entry>

    ghost predicate Shaped()
      reads this, lookupTable
    {
      PROBES <= tableSize == lookupTable.Length
    }

    ghost predicate Valid()
      reads this, lookupTable
    {
      Shaped() && Placed(lookupTable[..])
    }

    ghost function Contents(): map<int, string>
      reads this, lookupTable
    {
      Entries(lookupTable[..])
    }

    constructor Create()
      ensures Valid() && Contents() == map[] && fresh(lookupTable)
    {
      var size := FIRST_SIZE;
      tableSize := size;
      lookupTable := new Entry[size](_ => EMPTY);
      new;
      NothingStored(lookupTable[..]);
    }

    static lemma {:induction false} NothingStored(t: seq<Entry>)
      requires forall i :: 0 <= i < |t| ==> !t[i].valid
      ensures Entries(t) == map[]
    {
      if t != [] {
        NothingStored(t[..|t| - 1]);
      }
    }

    method FindEntry(addr: int) returns (found: int)
      requires Valid() && 0 <= addr
      ensures found == NOT_FOUND <==> addr !in Contents()
      ensures found != NOT_FOUND ==>
        0 <= found < tableSize && lookupTable[found].valid && lookupTable[found].addr == addr
    {
      EntriesKeys(lookupTable[..], addr);
      var home := addr % tableSize;
      var idx := home;
      for offset := 0 to PROBES
        invariant 0 <= idx < tableSize && idx == (if home + offset < tableSize then home + offset else home + offset - tableSize)
        invariant forall i :: 0 <= i < tableSize && (home <= i < home + offset || i + tableSize < home + offset) ==>
          !(lookupTable[i].valid && lookupTable[i].addr == addr)
      {
        var e := lookupTable[idx];
        if e.valid && e.addr == addr {
          assert lookupTable[..][idx] == e;
          return idx;
        }
        idx := idx + 1;
        if idx == tableSize {
          idx := 0;
        }
      }
      return NOT_FOUND;
    }

    /** All slots probed before slot found are taken. */
    ghost predicate ProbedBefore(addr: int, found: int)
      requires Shaped()
      reads this, lookupTable
    {
      forall i :: 0 <= i < tableSize && ProbesBefore(addr, i, tableSize) < ProbesBefore(addr, found, tableSize) ==>
        lookupTable[i].valid
    }

    /** The first free slot of the window. */
    method FindEmpty(addr: int) returns (found: int)
      requires Shaped() && 0 <= addr
      ensures found == NOT_FOUND ==> forall i :: 0 <= i < tableSize && InWindow(addr, i, tableSize) ==> lookupTable[i].valid
      ensures found != NOT_FOUND ==> 0 <= found < tableSize && !lookupTable[found].valid && InWindow(addr, found, tableSize)
      ensures found != NOT_FOUND ==> ProbedBefore(addr, found)
    {
      var home := addr % tableSize;
      var idx := home;
      for offset := 0 to PROBES
        invariant 0 <= idx < tableSize && idx == (if home + offset < tableSize then home + offset else home + offset - tableSize)
        invariant forall i :: 0 <= i < tableSize && (home <= i < home + offset || i + tableSize < home + offset) ==>
          lookupTable[i].valid
      {
        var e := lookupTable[idx];
        if !e.valid {
          return idx;
        }
        idx := idx + 1;
        if idx == tableSize {
          idx := 0;
        }
      }
      return NOT_FOUND;
    }

    ghost predicate AllBelow(limit: int)
      reads this, lookupTable
    {
      forall a :: a in Contents() ==> a < limit
    }

    /** In a table larger than every address, each entry is in its home slot and no probe fails. */
    lemma HomeIsFree(addr: int)
      requires Valid() && AllHome(lookupTable[..]) && 0 <= addr < tableSize && addr !in Contents()
      ensures addr % tableSize == addr && !lookupTable[addr].valid
    {
      EntriesKeys(lookupTable[..], addr);
      assert lookupTable[..][addr] == lookupTable[addr];
    }

    lemma HomeIsFirst(addr: int, found: int)
      requires Valid() && AllHome(lookupTable[..]) && 0 <= addr < tableSize && addr !in Contents()
      requires found == NOT_FOUND ==> forall i :: 0 <= i < tableSize && InWindow(addr, i, tableSize) ==> lookupTable[i].valid
      requires found != NOT_FOUND ==> 0 <= found < tableSize && ProbedBefore(addr, found)
      ensures found == addr
    {
      HomeIsFree(addr);
      assert InWindow(addr, addr, tableSize) && ProbesBefore(addr, addr, tableSize) == 0;
    }

    static lemma StoredHome(t: seq<Entry>, i: int, e: Entry)
      requires AllHome(t) && 0 <= i < |t| && e.addr == i
      ensures AllHome(t[i := e])
    {
    }

    method Store(idx: int, e: Entry)
      requires Valid() && 0 <= idx < tableSize && e.valid && 0 <= e.addr && InWindow(e.addr, idx, tableSize)
      requires if lookupTable[idx].valid then lookupTable[idx].addr == e.addr else e.addr !in Contents()
      modifies lookupTable
      ensures Valid() && Contents() == old(Contents())[e.addr := e.text]
      ensures lookupTable[..] == old(lookupTable[..])[idx := e]
    {
      ghost var t := lookupTable[..];
      forall j | 0 <= j < |t| && j != idx && t[j].valid
        ensures t[j].addr != e.addr
      {
        EntriesKeys(t, e.addr);
      }
      EntriesStore(t, idx, e);
      lookupTable[idx] := e;
      assert lookupTable[..] == t[idx := e];
    }

    method GrowAndRehash(ghost limit: int)
      requires Valid() && AllBelow(limit)
      modifies this
      ensures Valid() && fresh(lookupTable) && Contents() == old(Contents()) && tableSize > old(tableSize)
      ensures limit <= tableSize ==> AllHome(lookupTable[..])
    {
      var oldSize := tableSize;
      var oldTable := lookupTable;
      ghost var t := oldTable[..];
      assert Contents() == Entries(t);
      var newSize := 1 + 2 * oldSize;
      var done := false;
      while !done
        invariant oldSize < newSize && oldTable[..] == t && Placed(t)
        invariant forall a :: a in Entries(t) ==> a < limit
        invariant done ==> Valid() && fresh(lookupTable) && Contents() == Entries(t) && tableSize > oldSize
        invariant done && limit <= tableSize ==> AllHome(lookupTable[..])
        decreases !done, if newSize < limit then limit - newSize else 0
      {
        done := Rehash(oldTable, newSize, limit);
        if !done {
          newSize := 1 + newSize * 2;
        }
      }
    }

    /** One try: a new table of the given size, filled from the old one until an entry does not fit. */
    method Rehash(oldTable: array<Entry>, newSize: int, ghost limit: int) returns (done: bool)
      requires Placed(oldTable[..]) && PROBES <= newSize
      requires forall a :: a in Entries(oldTable[..]) ==> a < limit
      modifies this
      ensures fresh(lookupTable) && tableSize == newSize
      ensures done ==> Valid() && Contents() == Entries(oldTable[..])
      ensures limit <= newSize ==> done && AllHome(lookupTable[..])
    {
      lookupTable := new Entry[newSize](_ => EMPTY);
      tableSize := newSize;
      ghost var t := oldTable[..];
      NothingStored(lookupTable[..]);
      NothingStored(t[..0]);
      assert AllHome(lookupTable[..]);
      assert t[..|t|] == t;
      hide Entries, ProbedBefore, Placed, NoAddressTwice, InWindow, ProbesBefore, AllHome;
      for i := 0 to oldTable.Length
        invariant Valid() && fresh(lookupTable) && tableSize == newSize && oldTable[..] == t
        invariant Contents() == Entries(t[..i])
        invariant limit <= newSize ==> AllHome(lookupTable[..])
      {
        EntryToMove(t, i, limit);
        if oldTable[i].valid {
          var e := oldTable[i];
          var newIdx := FindEmpty(e.addr);
          if limit <= newSize {
            HomeIsFirst(e.addr, newIdx);
            StoredHome(lookupTable[..], newIdx, e);
          }
          if newIdx == NOT_FOUND {
            return false;
          }
          Store(newIdx, e);
        }
      }
      return true;
    }

    static lemma EntriesNext(t: seq<Entry>, i: int)
      requires 0 <= i < |t|
      ensures Entries(t[..i + 1]) == if t[i].valid then Entries(t[..i])[t[i].addr := t[i].text] else Entries(t[..i])
    {
      assert t[..i + 1][..i] == t[..i];
    }

    static lemma NotYetMoved(t: seq<Entry>, i: int)
      requires NoAddressTwice(t) && 0 <= i < |t| && t[i].valid
      ensures t[i].addr !in Entries(t[..i])
    {
      hide Entries;
      EntriesKeys(t[..i], t[i].addr);
    }

    /** What is known of the i-th old entry when its turn comes. */
    static lemma EntryToMove(t: seq<Entry>, i: int, limit: int)
      requires Placed(t) && 0 <= i < |t| && forall a :: a in Entries(t) ==> a < limit
      ensures Entries(t[..i + 1]) == if t[i].valid then Entries(t[..i])[t[i].addr := t[i].text] else Entries(t[..i])
      ensures t[i].valid ==> 0 <= t[i].addr < limit && t[i].addr !in Entries(t[..i])
    {
      EntriesNext(t, i);
      if t[i].valid {
        EntriesAt(t, i);
        NotYetMoved(t, i);
      }
      hide Entries, NoAddressTwice;
    }

    /** An address above every stored one and above addr. */
    ghost method Limit(addr: int) returns (limit: int)
      requires Valid()
      ensures AllBelow(limit) && addr < limit
    {
      limit := addr + 1;
      ghost var t := lookupTable[..];
      for i := 0 to |t|
        invariant addr < limit && forall a :: a in Entries(t[..i]) ==> a < limit
      {
        assert t[..i + 1][..i] == t[..i];
        if limit <= t[i].addr {
          limit := t[i].addr + 1;
        }
      }
      assert t[..|t|] == t;
    }

    method Set(addr: int, text: string)
      requires Valid() && 0 <= addr
      modifies this, lookupTable
      ensures Valid() && Contents() == old(Contents())[addr := text]
      ensures fresh(lookupTable) || lookupTable == old(lookupTable)
    {
      ghost var before := Contents();
      var idx := FindEntry(addr);
      if idx == NOT_FOUND {
        ghost var limit := Limit(addr);
        idx := FindEmpty(addr);
        while idx == NOT_FOUND
          invariant Valid() && Contents() == before && AllBelow(limit)
          invariant fresh(lookupTable) || lookupTable == old(lookupTable)
          invariant idx != NOT_FOUND ==> 0 <= idx < tableSize && !lookupTable[idx].valid && InWindow(addr, idx, tableSize)
          decreases idx == NOT_FOUND, if tableSize < limit then limit - tableSize else 0
        {
          GrowAndRehash(limit);
          idx := FindEmpty(addr);
          if limit <= tableSize {
            HomeIsFirst(addr, idx);
          }
        }
      } else {
        assert lookupTable[..][idx] == lookupTable[idx];
      }
      Store(idx, Entry(true, addr, text));
    }

    method Get(addr: int) returns (text: string)
      requires Valid() && 0 <= addr
      ensures text == if addr in Contents() then Contents()[addr] else ""
    {
      var idx := FindEntry(addr);
      if idx == NOT_FOUND {
        return "";
      }
      EntriesAt(lookupTable[..], idx);
      return lookupTable[idx].text;
    }
  }

  /** Any history of sets: the table then answers with the last text set for each address. */
  method Replay(history: seq<(int, string)>, addr: int) returns (text: string)
    requires 0 <= addr && forall h :: h in history ==> 0 <= h.0
    ensures text == if addr in Final(history) then Final(history)[addr] else ""
  {
    var table := new Assembly.Create();
    for i := 0 to |history|
      invariant table.Valid() && fresh(table) && fresh(table.lookupTable)
      invariant table.Contents() == Final(history[..i])
    {
      assert history[..i + 1][..i] == history[..i];
      assert history[i] in history;
      table.Set(history[i].0, history[i].1);
    }
    assert history[..|history|] == history;
    text := table.Get(addr);
  }
}
