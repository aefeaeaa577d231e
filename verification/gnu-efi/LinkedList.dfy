/** gnu-efi/inc/efilink.h and gnu-efi/lib/runtime/vm.c: the circular doubly linked list macros, and
    the conversion of such a list to virtual addresses. Entries live in a memory that maps an
    address to the two links stored there. */
module LinkedListModel {
  type Address = nat

  datatype ListEntry = ListEntry(Flink: Address, Blink: Address)
  type Entries = map<Address, ListEntry>

  // ----- rings

  function Next(i: nat, n: nat): nat
    requires i < n
  {
    if i == n - 1 then 0 else i + 1
  }

  function Previous(i: nat, n: nat): nat
    requires i < n
  {
    if i == 0 then n - 1 else i - 1
  }

  predicate Distinct(s: seq<Address>) {
    forall i, j | 0 <= i < j < |s| :: s[i] != s[j]
  }

  /** The entry of a node links it to its neighbours on the ring `s`. */
  predicate LinkedAt(m: Entries, s: seq<Address>, i: nat)
    requires i < |s|
  {
    s[i] in m && m[s[i]] == ListEntry(s[Next(i, |s|)], s[Previous(i, |s|)])
  }

  /** The nodes of `s` form a ring in this order. */
  predicate Ring(m: Entries, s: seq<Address>) {
    s != [] && Distinct(s) && forall i | 0 <= i < |s| :: LinkedAt(m, s, i)
  }

  /** A memory holds at most one ring from a node on. */
  lemma RingUnique(m: Entries, s: seq<Address>, t: seq<Address>)
    requires Ring(m, s) && Ring(m, t) && s[0] == t[0]
    ensures s == t
  {
    if |s| <= |t| {
      SamePrefix(m, s, t, |s| - 1);
    } else {
      SamePrefix(m, t, s, |t| - 1);
    }
  }

  /** The shorter of two rings from the same node is a prefix of the other. */
  lemma {:induction false} SamePrefix(m: Entries, s: seq<Address>, t: seq<Address>, i: nat)
    requires Ring(m, s) && Ring(m, t) && s[0] == t[0] && i < |s| <= |t|
    ensures s[..i + 1] == t[..i + 1] && (i == |s| - 1 ==> |t| == |s|)
  {
    if i > 0 {
      SamePrefix(m, s, t, i - 1);
      assert s[i - 1] == s[..i][i - 1] == t[..i][i - 1] == t[i - 1];
      assert LinkedAt(m, s, i - 1) && LinkedAt(m, t, i - 1);
    }
    assert s[..i + 1] == s[..i] + [s[i]] && t[..i + 1] == t[..i] + [t[i]];
    assert LinkedAt(m, s, i) && LinkedAt(m, t, i);
  }

  /** A ring has no distinguished start. */
  lemma Rotate(m: Entries, a: seq<Address>, b: seq<Address>)
    requires Ring(m, a + b)
    ensures Ring(m, b + a)
  {
    var s, t, n := a + b, b + a, |a| + |b|;
    forall i | 0 <= i < n
      ensures LinkedAt(m, t, i)
    {
      var k := if i < |b| then |a| + i else i - |b|;
      assert t[i] == s[k] && LinkedAt(m, s, k);
      assert t[Next(i, n)] == s[Next(k, n)] && t[Previous(i, n)] == s[Previous(k, n)];
    }
    forall i, j | 0 <= i < j < n
      ensures t[i] != t[j]
    {
      var k, l := if i < |b| then |a| + i else i - |b|, if j < |b| then |a| + j else j - |b|;
      assert t[i] == s[k] && t[j] == s[l];
    }
  }

  // ----- the macros on a memory value

  function SetFlink(m: Entries, a: Address, to: Address): Entries
    requires a in m
  {
    m[a := m[a].(Flink := to)]
  }

  function SetBlink(m: Entries, a: Address, to: Address): Entries
    requires a in m
  {
    m[a := m[a].(Blink := to)]
  }

  predicate HasNeighbours(m: Entries, a: Address) {
    a in m && m[a].Flink in m && m[a].Blink in m
  }

  function Removed(m: Entries, e: Address): Entries
    requires HasNeighbours(m, e)
  {
    SetBlink(SetFlink(m, m[e].Blink, m[e].Flink), m[e].Flink, m[e].Blink)
  }

  /** InsertTailList puts `e` in front of `h`, which for a list head is the tail. */
  function InsertedBefore(m: Entries, h: Address, e: Address): Entries
    requires HasNeighbours(m, h) && e in m
  {
    var m' := m[e := ListEntry(h, m[h].Blink)];
    SetBlink(SetFlink(m', m[h].Blink, e), h, e)
  }

  function InsertedBehind(m: Entries, h: Address, e: Address): Entries
    requires HasNeighbours(m, h) && e in m
  {
    var m' := m[e := ListEntry(m[h].Flink, h)];
    SetFlink(SetBlink(m', m[h].Flink, e), h, e)
  }

  lemma RingNeighbours(m: Entries, s: seq<Address>, i: nat)
    requires Ring(m, s) && i < |s|
    ensures HasNeighbours(m, s[i]) && m[s[i]] == ListEntry(s[Next(i, |s|)], s[Previous(i, |s|)])
  {
    assert LinkedAt(m, s, i) && LinkedAt(m, s, Next(i, |s|)) && LinkedAt(m, s, Previous(i, |s|));
  }

  lemma InsertTailRing(m: Entries, s: seq<Address>, e: Address)
    requires Ring(m, s) && e !in s && e in m
    ensures HasNeighbours(m, s[0]) && Ring(InsertedBefore(m, s[0], e), s + [e])
  {
    RingNeighbours(m, s, 0);
    var n, t, m' := |s|, s + [e], InsertedBefore(m, s[0], e);
    forall i | 0 <= i < |t|
      ensures LinkedAt(m', t, i)
    {
      if i < n {
        assert LinkedAt(m, s, i) && s[i] in s;
      }
    }
  }

  lemma InsertHeadRing(m: Entries, s: seq<Address>, e: Address)
    requires Ring(m, s) && e !in s && e in m
    ensures HasNeighbours(m, s[0]) && Ring(InsertedBehind(m, s[0], e), [s[0], e] + s[1..])
  {
    RingNeighbours(m, s, 0);
    var n, t, m' := |s|, [s[0], e] + s[1..], InsertedBehind(m, s[0], e);
    assert forall i | 1 <= i < n :: t[i + 1] == s[i];
    forall i | 0 <= i < |t|
      ensures LinkedAt(m', t, i)
    {
      var k := if i < 2 then 0 else i - 1;
      assert LinkedAt(m, s, k) && s[k] in s;
    }
  }

  lemma RemoveFirst(m: Entries, s: seq<Address>)
    requires Ring(m, s) && |s| >= 2
    ensures HasNeighbours(m, s[0]) && Ring(Removed(m, s[0]), s[1..])
  {
    RingNeighbours(m, s, 0);
    var n, t, m' := |s|, s[1..], Removed(m, s[0]);
    forall i | 0 <= i < |t|
      ensures LinkedAt(m', t, i)
    {
      assert LinkedAt(m, s, i + 1);
    }
  }

  lemma RemoveRing(m: Entries, s: seq<Address>, i: nat)
    requires Ring(m, s) && |s| >= 2 && i < |s|
    ensures HasNeighbours(m, s[i]) && Ring(Removed(m, s[i]), s[..i] + s[i + 1..])
  {
    hide Ring, Removed;
    assert s == s[..i] + s[i..];
    Rotate(m, s[..i], s[i..]);
    var t := s[i..] + s[..i];
    RemoveFirst(m, t);
    assert t[1..] == s[i + 1..] + s[..i];
    Rotate(Removed(m, s[i]), s[i + 1..], s[..i]);
  }

  /** The ring with node `e` put in front of node `i`. */
  function Joined(s: seq<Address>, i: nat, e: Address): seq<Address>
    requires i < |s|
  {
    s[..i] + [e] + s[i..]
  }

  lemma InsertBeforeRing(m: Entries, s: seq<Address>, i: nat, e: Address)
    requires Ring(m, s) && i < |s| && e !in s && e in m
    ensures HasNeighbours(m, s[i]) && Ring(InsertedBefore(m, s[i], e), Joined(s, i, e))
  {
    hide Ring, InsertedBefore;
    assert s == s[..i] + s[i..];
    Rotate(m, s[..i], s[i..]);
    var t := s[i..] + s[..i];
    InsertTailRing(m, t, e);
    assert t + [e] == s[i..] + (s[..i] + [e]);
    Rotate(InsertedBefore(m, s[i], e), s[i..], s[..i] + [e]);
  }

  // ----- SwapListEntries

  /** What SwapListEntries writes, in its order. */
  function Swapped(m: Entries, e1: Address, e2: Address): Entries
    requires HasNeighbours(m, e1) && HasNeighbours(m, e2)
  {
    var m1 := Removed(m, e2);
    var m2 := SetBlink(SetFlink(m1, e2, e1), e2, m[e1].Blink);
    SetBlink(SetFlink(m2, m[e1].Blink, e2), e1, e2)
  }

  /** The ring with node `j` taken out and put in front of node `i`. */
  function Moved(s: seq<Address>, i: nat, j: nat): seq<Address>
    requires i < |s| && j < |s|
  {
    if i == j then s
    else
      var rest := s[..j] + s[j + 1..];
      Joined(rest, if i < j then i else i - 1, s[j])
  }

  lemma SwapIsMove(m: Entries, e1: Address, e2: Address)
    requires HasNeighbours(m, e1) && HasNeighbours(m, e2) && e1 != e2 && m[e1].Blink != e2
    requires m[e2].Flink != e1
    ensures HasNeighbours(Removed(m, e2), e1) && Swapped(m, e1, e2) == InsertedBefore(Removed(m, e2), e1, e2)
  {
  }

  lemma SwapMoves(m: Entries, s: seq<Address>, i: nat, j: nat)
    requires Ring(m, s) && i < |s| && j < |s| && i != j && i != Next(j, |s|)
    ensures HasNeighbours(m, s[i]) && HasNeighbours(m, s[j])
    ensures Ring(Swapped(m, s[i], s[j]), Moved(s, i, j))
  {
    RingNeighbours(m, s, i);
    RingNeighbours(m, s, j);
    var e1, e2 := s[i], s[j];
    assert m[e1].Blink == s[Previous(i, |s|)] && m[e2].Flink == s[Next(j, |s|)];
    SwapIsMove(m, e1, e2);
    RemoveRing(m, s, j);
    var m', rest := Removed(m, e2), s[..j] + s[j + 1..];
    var p := if i < j then i else i - 1;
    assert rest[p] == e1 && e2 !in rest;
    hide Ring, Removed, InsertedBefore, Swapped;
    InsertBeforeRing(m', rest, p, e2);
  }

  /** If Entry2 already stands directly before Entry1, no ring holds Entry1 afterwards: Entry2
      has been linked to itself. */
  lemma SwapBreaks(m: Entries, e1: Address, e2: Address, t: seq<Address>, k: nat)
    requires HasNeighbours(m, e1) && HasNeighbours(m, e2) && e1 != e2 && m[e1].Blink == e2
    requires k < |t| && t[k] == e1
    ensures !Ring(Swapped(m, e1, e2), t)
  {
    if Ring(Swapped(m, e1, e2), t) {
      BackAndForth(Swapped(m, e1, e2), t, k);
    }
  }

  /** On a ring the node behind a node links forward to it. */
  lemma BackAndForth(m: Entries, s: seq<Address>, k: nat)
    requires Ring(m, s) && k < |s|
    ensures s[k] in m && m[s[k]].Blink in m && m[m[s[k]].Blink].Flink == s[k]
  {
    assert LinkedAt(m, s, k) && LinkedAt(m, s, Previous(k, |s|));
  }

  /** An entry put before itself is alone on its ring afterwards. */
  lemma SwapAlone(m: Entries, e: Address, t: seq<Address>, k: nat)
    requires HasNeighbours(m, e) && k < |t| && t[k] == e && Ring(Swapped(m, e, e), t)
    ensures t == [e]
  {
    assert LinkedAt(Swapped(m, e, e), t, k);
    assert t[Next(k, |t|)] == e;
  }

  lemma SwapOne(m: Entries, e: Address)
    requires Ring(m, [e])
    ensures HasNeighbours(m, e) && Ring(Swapped(m, e, e), [e])
  {
    RingNeighbours(m, [e], 0);
  }

  /** SwapListEntries does what its comment says exactly when Entry1 and Entry2 are different and
      Entry2 is not already directly before Entry1, or when the list is a single entry. */
  lemma SwapWorksIff(m: Entries, s: seq<Address>, i: nat, j: nat)
    requires Ring(m, s) && i < |s| && j < |s|
    ensures HasNeighbours(m, s[i]) && HasNeighbours(m, s[j])
    ensures Ring(Swapped(m, s[i], s[j]), Moved(s, i, j))
            <==> |s| == 1 || (s[i] != s[j] && m[s[i]].Blink != s[j])
  {
    RingNeighbours(m, s, i);
    RingNeighbours(m, s, j);
    assert i != j ==> s[i] != s[j];
    assert m[s[i]].Blink == s[j] <==> i == Next(j, |s|);
    if i == j {
      if |s| == 1 {
        assert s == [s[i]];
        SwapOne(m, s[i]);
      } else if Ring(Swapped(m, s[i], s[i]), s) {
        SwapAlone(m, s[i], s, i);
      }
    } else if i != Next(j, |s|) {
      SwapMoves(m, s, i, j);
    } else {
      MovedHas(s, i, j);
      var k :| 0 <= k < |Moved(s, i, j)| && Moved(s, i, j)[k] == s[i];
      SwapBreaks(m, s[i], s[j], Moved(s, i, j), k);
    }
  }

  lemma MovedHas(s: seq<Address>, i: nat, j: nat)
    requires i < |s| && j < |s| && i != j
    ensures s[i] in Moved(s, i, j)
  {
    var p := if i < j then i else i - 1;
    assert Moved(s, i, j)[p + 1] == s[i];
  }

  /** No node is on both rings. */
  predicate Apart(s: seq<Address>, t: seq<Address>) {
    forall i, j | 0 <= i < |s| && 0 <= j < |t| :: s[i] != t[j]
  }

  /** A ring all of whose entries are kept is still a ring. */
  lemma RingKept(m: Entries, m': Entries, s: seq<Address>)
    requires Ring(m, s) && forall i | 0 <= i < |s| :: s[i] in m && s[i] in m' && m'[s[i]] == m[s[i]]
    ensures Ring(m', s)
  {
    forall i | 0 <= i < |s|
      ensures LinkedAt(m', s, i)
    {
      assert LinkedAt(m, s, i);
    }
  }

  /** The neighbours of `e` alone change. */
  lemma RemovedKeeps(m: Entries, t: seq<Address>, j: nat, s: seq<Address>)
    requires Ring(m, t) && j < |t| && Ring(m, s) && Apart(s, t)
    ensures HasNeighbours(m, t[j]) && t[j] in Removed(m, t[j]) && Ring(Removed(m, t[j]), s)
  {
    RingNeighbours(m, t, j);
    forall i | 0 <= i < |s|
      ensures s[i] in m && Removed(m, t[j])[s[i]] == m[s[i]]
    {
      RingNeighbours(m, s, i);
      assert s[i] != t[Next(j, |t|)] && s[i] != t[Previous(j, |t|)];
    }
    RingKept(m, Removed(m, t[j]), s);
  }

  /** Inserting changes the new node and two nodes of the ring. */
  lemma InsertedKeeps(m: Entries, s: seq<Address>, i: nat, e: Address, t: seq<Address>)
    requires Ring(m, s) && i < |s| && e in m && Ring(m, t) && Apart(s, t) && e !in t
    ensures HasNeighbours(m, s[i]) && Ring(InsertedBefore(m, s[i], e), t)
  {
    RingNeighbours(m, s, i);
    forall k | 0 <= k < |t|
      ensures t[k] in m && InsertedBefore(m, s[i], e)[t[k]] == m[t[k]]
    {
      RingNeighbours(m, t, k);
      assert t[k] != s[i] && t[k] != s[Previous(i, |s|)];
    }
    RingKept(m, InsertedBefore(m, s[i], e), t);
  }

  /** From another ring Entry2 is always moved to before Entry1, and its own ring closes. */
  lemma SwapAcross(m: Entries, s: seq<Address>, i: nat, t: seq<Address>, j: nat)
    requires Ring(m, s) && i < |s| && Ring(m, t) && j < |t| && Apart(s, t)
    ensures HasNeighbours(m, s[i]) && HasNeighbours(m, t[j])
    ensures Ring(Swapped(m, s[i], t[j]), Joined(s, i, t[j]))
    ensures |t| > 1 ==> Ring(Swapped(m, s[i], t[j]), t[..j] + t[j + 1..])
  {
    RingNeighbours(m, s, i);
    RingNeighbours(m, t, j);
    var e, rest := t[j], t[..j] + t[j + 1..];
    assert m[s[i]].Blink == s[Previous(i, |s|)] && m[e].Flink == t[Next(j, |t|)];
    SwapIsMove(m, s[i], e);
    RemovedKeeps(m, t, j, s);
    assert Apart(s, rest) && e !in rest && e !in s by {
      assert forall k | 0 <= k < |rest| :: rest[k] == t[if k < j then k else k + 1];
    }
    hide Ring, Removed, InsertedBefore, Swapped, Apart;
    InsertBeforeRing(Removed(m, e), s, i, e);
    if |t| > 1 {
      RemoveRing(m, t, j);
      InsertedKeeps(Removed(m, e), s, i, e, rest);
    }
  }

  /** On a ring of two nodes no swap works: not of the two, and not of one with itself. */
  lemma SwapFails()
    ensures var m: Entries := map[10 := ListEntry(20, 20), 20 := ListEntry(10, 10)];
            && Ring(m, [10, 20])
            && !Ring(Swapped(m, 10, 20), Moved([10, 20], 0, 1))
            && !Ring(Swapped(m, 10, 10), Moved([10, 20], 0, 0))
  {
    var m: Entries := map[10 := ListEntry(20, 20), 20 := ListEntry(10, 10)];
    assert LinkedAt(m, [10, 20], 0) && LinkedAt(m, [10, 20], 1);
    SwapWorksIff(m, [10, 20], 0, 1);
    SwapWorksIff(m, [10, 20], 0, 0);
  }

  // ----- the macros in memory

  class ListMemory {
    var entries: Entries

    constructor (entries: Entries)
      ensures this.entries == entries
    {
      this.entries := entries;
    }

    /** `(a)->Flink = to` and `(a)->Blink = to`. */
    method StoreFlink(a: Address, to: Address)
      requires a in entries
      modifies this
      ensures entries == SetFlink(old(entries), a, to)
    {
      entries := entries[a := ListEntry(to, entries[a].Blink)];
    }

    method StoreBlink(a: Address, to: Address)
      requires a in entries
      modifies this
      ensures entries == SetBlink(old(entries), a, to)
    {
      entries := entries[a := ListEntry(entries[a].Flink, to)];
    }

    method InitializeListHead(listHead: Address)
      requires listHead in entries
      modifies this
      ensures Ring(entries, [listHead])
      ensures entries == old(entries)[listHead := ListEntry(listHead, listHead)]
    {
      StoreFlink(listHead, listHead);
      StoreBlink(listHead, listHead);
    }

    /** IsListEmpty: the ring is the head alone. */
    method IsListEmpty(listHead: Address, ghost s: seq<Address>) returns (empty: bool)
      requires Ring(entries, s) && s[0] == listHead
      ensures empty <==> s == [listHead]
    {
      assert LinkedAt(entries, s, 0);
      empty := entries[listHead].Flink == listHead;
    }

    method RemoveEntryList(entry: Address, ghost s: seq<Address>, ghost i: nat)
      requires Ring(entries, s) && i < |s| && s[i] == entry
      modifies this
      ensures HasNeighbours(old(entries), entry) && entries == Removed(old(entries), entry)
      ensures if |s| == 1 then entries == old(entries) else Ring(entries, s[..i] + s[i + 1..])
    {
      RingNeighbours(entries, s, i);
      if |s| > 1 {
        RemoveRing(entries, s, i);
      }
      var front := entries[entry].Flink;
      var back := entries[entry].Blink;
      StoreFlink(back, front);
      StoreBlink(front, back);
    }

    method InsertTailList(listHead: Address, entry: Address, ghost s: seq<Address>)
      requires Ring(entries, s) && s[0] == listHead && entry in entries && entry !in s
      modifies this
      ensures Ring(entries, s + [entry])
      ensures forall a | a in old(entries) && a !in s && a != entry :: a in entries && entries[a] == old(entries)[a]
    {
      RingNeighbours(entries, s, 0);
      InsertTailRing(entries, s, entry);
      var back := entries[listHead].Blink;
      assert back in s;
      StoreFlink(entry, listHead);
      StoreBlink(entry, back);
      assert entries == old(entries)[entry := ListEntry(listHead, back)];
      StoreFlink(back, entry);
      StoreBlink(listHead, entry);
    }

    method InsertHeadList(listHead: Address, entry: Address, ghost s: seq<Address>)
      requires Ring(entries, s) && s[0] == listHead && entry in entries && entry !in s
      modifies this
      ensures Ring(entries, [listHead, entry] + s[1..])
      ensures forall a | a in old(entries) && a !in s && a != entry :: a in entries && entries[a] == old(entries)[a]
    {
      RingNeighbours(entries, s, 0);
      InsertHeadRing(entries, s, entry);
      var front := entries[listHead].Flink;
      assert front in s;
      StoreFlink(entry, front);
      StoreBlink(entry, listHead);
      assert entries == old(entries)[entry := ListEntry(front, listHead)];
      StoreBlink(front, entry);
      StoreFlink(listHead, entry);
    }

    /** Entry1 is node `i` of the ring `s`, Entry2 is node `j` of `t`, the same ring or another. */
    method SwapListEntries(entry1: Address, entry2: Address,
                           ghost s: seq<Address>, ghost i: nat, ghost t: seq<Address>, ghost j: nat)
      requires Ring(entries, s) && i < |s| && s[i] == entry1
      requires Ring(entries, t) && j < |t| && t[j] == entry2 && (t == s || Apart(s, t))
      modifies this
      ensures entry1 in old(entries)
      ensures t == s ==> (Ring(entries, Moved(s, i, j))
                          <==> |s| == 1 || (entry1 != entry2 && old(entries)[entry1].Blink != entry2))
      ensures t != s ==> Ring(entries, Joined(s, i, entry2)) && (|t| > 1 ==> Ring(entries, t[..j] + t[j + 1..]))
      ensures forall a | a in old(entries) && a !in s && a !in t :: a in entries && entries[a] == old(entries)[a]
    {
      RingNeighbours(entries, s, i);
      RingNeighbours(entries, t, j);
      if t == s {
        SwapWorksIff(entries, s, i, j);
      } else {
        SwapAcross(entries, s, i, t, j);
      }
      var entry2Flink := entries[entry2].Flink;
      var entry2Blink := entries[entry2].Blink;
      var entry1Blink := entries[entry1].Blink;
      assert entry2Flink in t && entry2Blink in t && entry1Blink in s;
      StoreFlink(entry2Blink, entry2Flink);
      StoreBlink(entry2Flink, entry2Blink);
      StoreFlink(entry2, entry1);
      StoreBlink(entry2, entry1Blink);
      StoreFlink(entry1Blink, entry2);
      StoreBlink(entry1, entry2);
    }

    /** Converts every link of the ring `s` once; `convert` is the firmware service, which takes
        the debug disposition and a pointer. */
    method RtConvertList(debugDisposition: nat, listHead: Address, convert: (nat, Address) -> Address,
                         ghost s: seq<Address>)
      requires Ring(entries, s) && s[0] == listHead
      modifies this
      ensures Converted(old(entries), entries, s, |s|, debugDisposition, convert)
      ensures forall k | 0 <= k < |s| :: s[k] in entries
                && entries[s[k]].Flink == convert(if Next(k, |s|) == 0 then debugDisposition else 0, s[Next(k, |s|)])
                && entries[s[k]].Blink
                   == convert(if Previous(k, |s|) == 0 then debugDisposition else 0, s[Previous(k, |s|)])
    {
      var link := listHead;
      ghost var i := 0;
      while true
        invariant i < |s| && link == s[i]
        invariant Converted(old(entries), entries, s, i, debugDisposition, convert)
        decreases |s| - i
      {
        ConvertStep(old(entries), entries, s, i, debugDisposition, convert);
        var nextLink := entries[link].Flink;
        StoreFlink(link, convert(if entries[link].Flink == listHead then debugDisposition else 0, entries[link].Flink));
        StoreBlink(link, convert(if entries[link].Blink == listHead then debugDisposition else 0, entries[link].Blink));
        link := nextLink;
        if link == listHead {
          break;
        }
        i := i + 1;
      }
      ConvertedLinks(old(entries), entries, s, debugDisposition, convert);
    }
  }

  // ----- conversion to virtual addresses

  /** Where a link to node `a` points after the conversion of a ring with head `head`. */
  function Image(a: Address, head: Address, debug: nat, convert: (nat, Address) -> Address): Address {
    convert(if a == head then debug else 0, a)
  }

  function ImageEntry(e: ListEntry, head: Address, debug: nat, convert: (nat, Address) -> Address): ListEntry {
    ListEntry(Image(e.Flink, head, debug, convert), Image(e.Blink, head, debug, convert))
  }

  /** The entries of the first `i` nodes are converted once, all others are as before. */
  ghost predicate Converted(m: Entries, m': Entries, s: seq<Address>, i: nat, debug: nat,
                            convert: (nat, Address) -> Address)
    requires Ring(m, s) && i <= |s|
  {
    && m'.Keys == m.Keys
    && (forall k | 0 <= k < i :: s[k] in m && m'[s[k]] == ImageEntry(m[s[k]], s[0], debug, convert))
    && (forall a | a in m && a !in s[..i] :: m'[a] == m[a])
  }

  /** The links of a converted node: the neighbours' converted addresses, with the debug disposition
      where the neighbour is the head. */
  lemma ConvertedLink(m: Entries, m': Entries, s: seq<Address>, debug: nat, convert: (nat, Address) -> Address, k: nat)
    requires Ring(m, s) && Converted(m, m', s, |s|, debug, convert) && k < |s|
    ensures s[k] in m'
    ensures m'[s[k]].Flink == convert(if Next(k, |s|) == 0 then debug else 0, s[Next(k, |s|)])
    ensures m'[s[k]].Blink == convert(if Previous(k, |s|) == 0 then debug else 0, s[Previous(k, |s|)])
  {
    assert LinkedAt(m, s, k);
    assert s[Next(k, |s|)] == s[0] <==> Next(k, |s|) == 0;
    assert s[Previous(k, |s|)] == s[0] <==> Previous(k, |s|) == 0;
  }

  lemma ConvertedLinks(m: Entries, m': Entries, s: seq<Address>, debug: nat, convert: (nat, Address) -> Address)
    requires Ring(m, s) && Converted(m, m', s, |s|, debug, convert)
    ensures forall k | 0 <= k < |s| :: s[k] in m'
              && m'[s[k]].Flink == convert(if Next(k, |s|) == 0 then debug else 0, s[Next(k, |s|)])
              && m'[s[k]].Blink == convert(if Previous(k, |s|) == 0 then debug else 0, s[Previous(k, |s|)])
  {
    hide Ring, Converted;
    forall k | 0 <= k < |s|
      ensures s[k] in m'
      ensures m'[s[k]].Flink == convert(if Next(k, |s|) == 0 then debug else 0, s[Next(k, |s|)])
      ensures m'[s[k]].Blink == convert(if Previous(k, |s|) == 0 then debug else 0, s[Previous(k, |s|)])
    {
      ConvertedLink(m, m', s, debug, convert, k);
    }
  }

  lemma ConvertStep(m: Entries, m': Entries, s: seq<Address>, i: nat, debug: nat, convert: (nat, Address) -> Address)
    requires Ring(m, s) && i < |s| && Converted(m, m', s, i, debug, convert)
    ensures s[i] in m && m'[s[i]] == m[s[i]] && m[s[i]].Flink == s[Next(i, |s|)]
    ensures s[Next(i, |s|)] == s[0] <==> i == |s| - 1
    ensures Converted(m, m'[s[i] := ImageEntry(m[s[i]], s[0], debug, convert)], s, i + 1, debug, convert)
  {
    RingPosition(m, s, i);
    hide Ring, Distinct, LinkedAt, ImageEntry, Image, Next;
    assert s[..i + 1] == s[..i] + [s[i]];
  }

  lemma RingPosition(m: Entries, s: seq<Address>, i: nat)
    requires Ring(m, s) && i < |s|
    ensures s[i] in m && m[s[i]].Flink == s[Next(i, |s|)] && s[i] !in s[..i]
    ensures forall k | 0 <= k < i :: s[k] != s[i]
    ensures s[Next(i, |s|)] == s[0] <==> i == |s| - 1
  {
    assert LinkedAt(m, s, i);
  }

  function Images(s: seq<Address>, head: Address, debug: nat, convert: (nat, Address) -> Address): (r: seq<Address>)
    ensures |r| == |s| && forall i | 0 <= i < |s| :: r[i] == Image(s[i], head, debug, convert)
  {
    if s == [] then [] else [Image(s[0], head, debug, convert)] + Images(s[1..], head, debug, convert)
  }

  /** Once the firmware has moved the nodes to where their addresses are converted to, they form
      the image of the ring. */
  lemma ConvertedIsImage(m: Entries, m': Entries, s: seq<Address>, debug: nat,
                         convert: (nat, Address) -> Address, moved: Entries)
    requires Ring(m, s) && Converted(m, m', s, |s|, debug, convert)
    requires Distinct(Images(s, s[0], debug, convert))
    requires forall a | a in s :: Image(a, s[0], debug, convert) in moved
                                  && a in m' && moved[Image(a, s[0], debug, convert)] == m'[a]
    ensures Ring(moved, Images(s, s[0], debug, convert))
  {
    var t := Images(s, s[0], debug, convert);
    forall i | 0 <= i < |t|
      ensures LinkedAt(moved, t, i)
    {
      assert LinkedAt(m, s, i) && s[i] in s;
    }
  }
}
