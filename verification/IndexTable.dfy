/**
 Index allocation (agent_index.c) on values: rows of sorted integer indexes, one row per OID, and
 what the operations mean for the map of allocations they represent.
 */
module IndexTable {
  import opened Outcomes

  type Oid = seq<nat>

  /** A session is identified by a number; `None` is the null session. */
  type Session = Option<nat>

  datatype Slot = Slot(value: int, taken: bool, session: Session)
  datatype Row = Row(name: Oid, slots: seq<Slot>)
  type Table = seq<Row>

  datatype Flag = This | Any | New

  // ----- comparing OIDs and values -----

  /** `snmp_oid_compare`: lexicographic, a proper prefix comes first. */
  function OidCompare(a: Oid, b: Oid): int {
    if a == [] then (if b == [] then 0 else -1)
    else if b == [] then 1
    else if a[0] < b[0] then -1
    else if a[0] > b[0] then 1
    else OidCompare(a[1..], b[1..])
  }

  lemma {:induction false} OidCompareZero(a: Oid, b: Oid)
    ensures OidCompare(a, b) == 0 <==> a == b
  {
    if a != [] && b != [] && a[0] == b[0] {
      OidCompareZero(a[1..], b[1..]);
      assert a == [a[0]] + a[1..] && b == [b[0]] + b[1..];
    }
  }

  lemma {:induction false} OidCompareFlip(a: Oid, b: Oid)
    ensures OidCompare(a, b) < 0 <==> OidCompare(b, a) > 0
  {
    if a != [] && b != [] {
      OidCompareFlip(a[1..], b[1..]);
    }
  }

  lemma {:induction false} OidCompareTransitive(a: Oid, b: Oid, c: Oid)
    requires OidCompare(a, b) < 0 && OidCompare(b, c) < 0
    ensures OidCompare(a, c) < 0
  {
    if a != [] && b != [] && c != [] && a[0] == b[0] == c[0] {
      OidCompareTransitive(a[1..], b[1..], c[1..]);
    }
  }

  /** Where two OIDs part: as far as they agree. */
  function Common(a: Oid, b: Oid): (n: nat)
    ensures n <= |a| && n <= |b|
    ensures forall k :: 0 <= k < n ==> a[k] == b[k]
    ensures n < |a| && n < |b| ==> a[n] != b[n]
  {
    if a == [] || b == [] || a[0] != b[0] then 0
    else
      var n := Common(a[1..], b[1..]);
      assert forall k :: 0 <= k < n ==> a[1..][k] == a[k + 1] && b[1..][k] == b[k + 1];
      1 + n
  }

  /** One OID is before another if it is a proper prefix of it, or smaller where they part. */
  lemma {:induction false} OidBefore(a: Oid, b: Oid)
    ensures var n := Common(a, b);
            OidCompare(a, b) < 0 <==> (a < b) || (n < |a| && n < |b| && a[n] < b[n])
  {
    if a != [] && b != [] && a[0] == b[0] {
      OidBefore(a[1..], b[1..]);
      assert a < b <==> a[1..] < b[1..] by {
        assert a == [a[0]] + a[1..] && b == [b[0]] + b[1..];
      }
    }
  }

  /** A difference of two longs, stored in an int. */
  function TruncInt(d: int): int {
    (d + 0x8000_0000) % 0x1_0000_0000 - 0x8000_0000
  }

  predicate FitsInt(d: int) {
    -0x8000_0000 <= d < 0x8000_0000
  }

  lemma TruncationIsExactIffItFits(d: int)
    ensures TruncInt(d) == d <==> FitsInt(d)
  {
  }

  // ----- sorted tables -----

  ghost predicate SortedSlots(slots: seq<Slot>) {
    forall j, k :: 0 <= j < k < |slots| ==> slots[j].value < slots[k].value
  }

  ghost predicate SortedNames(t: Table) {
    forall i, k :: 0 <= i < k < |t| ==> OidCompare(t[i].name, t[k].name) < 0
  }

  /** OIDs strictly increase, and there is at least one value for each. */
  ghost predicate Named(t: Table) {
    && SortedNames(t)
    && forall i :: 0 <= i < |t| ==> t[i].slots != []
  }

  /** And within each OID values strictly increase. */
  ghost predicate Sorted(t: Table) {
    Named(t) && forall i :: 0 <= i < |t| ==> SortedSlots(t[i].slots)
  }

  lemma NamesDiffer(t: Table, i: nat, k: nat)
    requires Named(t) && i < |t| && k < |t| && t[i].name == t[k].name
    ensures i == k
  {
    OidCompareZero(t[i].name, t[k].name);
    OidCompareZero(t[k].name, t[i].name);
  }

  // ----- the scans -----

  /** The first row whose OID is not before `name`. */
  function RowIndex(t: Table, name: Oid): (i: nat)
    ensures i <= |t|
    ensures forall k :: 0 <= k < i ==> OidCompare(name, t[k].name) > 0
    ensures i < |t| ==> OidCompare(name, t[i].name) <= 0
  {
    if t == [] || OidCompare(name, t[0].name) <= 0 then 0
    else 1 + RowIndex(t[1..], name)
  }

  predicate HasRow(t: Table, name: Oid) {
    var i := RowIndex(t, name);
    i < |t| && t[i].name == name
  }

  /** The first slot whose value, as the code compares it, is not below `v`. */
  function SlotIndex(slots: seq<Slot>, v: int): (j: nat)
    ensures j <= |slots|
    ensures forall k :: 0 <= k < j ==> TruncInt(v - slots[k].value) > 0
    ensures j < |slots| ==> TruncInt(v - slots[j].value) <= 0
  {
    if slots == [] || TruncInt(v - slots[0].value) <= 0 then 0
    else 1 + SlotIndex(slots[1..], v)
  }

  function FirstFree(slots: seq<Slot>): (j: nat)
    ensures j <= |slots|
    ensures forall k :: 0 <= k < j ==> slots[k].taken
    ensures j < |slots| ==> !slots[j].taken
  {
    if slots == [] || !slots[0].taken then 0 else 1 + FirstFree(slots[1..])
  }

  function InsertAt<T>(s: seq<T>, j: nat, x: T): (r: seq<T>)
    requires j <= |s|
    ensures |r| == |s| + 1 && r[j] == x
    ensures forall k :: 0 <= k < j ==> r[k] == s[k]
    ensures forall k :: j < k < |r| ==> r[k] == s[k - 1]
  {
    s[..j] + [x] + s[j..]
  }

  function RemoveAt<T>(s: seq<T>, j: nat): (r: seq<T>)
    requires j < |s|
    ensures |r| == |s| - 1
    ensures forall k :: 0 <= k < j ==> r[k] == s[k]
    ensures forall k :: j <= k < |r| ==> r[k] == s[k + 1]
  {
    s[..j] + s[j + 1..]
  }

  // ----- register_index -----

  /** What the search in the row finds: a slot to claim, a place for a new slot, or a refusal. */
  datatype Place = Claim(at: nat) | Insert(pos: nat, value: int) | Refused

  function FindPlace(slots: seq<Slot>, flag: Flag, v: int): (p: Place)
    requires slots != []
    ensures p.Claim? ==> p.at < |slots|
    ensures p.Insert? ==> p.pos <= |slots|
  {
    if flag == This then
      var j := SlotIndex(slots, v);
      if j < |slots| && TruncInt(v - slots[j].value) == 0 then
        (if slots[j].taken then Refused else Claim(j))
      else Insert(j, v)
    else
      var j := FirstFree(slots);
      if flag == Any && j < |slots| then Claim(j)
      else Insert(|slots|, slots[|slots| - 1].value + 1)
  }

  function WithSlots(t: Table, i: nat, slots: seq<Slot>): Table
    requires i < |t|
  {
    t[i := Row(t[i].name, slots)]
  }

  function Register(t: Table, name: Oid, flag: Flag, v: int, ss: Session): (r: (Table, Option<int>))
    requires Named(t)
  {
    var i := RowIndex(t, name);
    if HasRow(t, name) then
      var slots := t[i].slots;
      match FindPlace(slots, flag, v)
      case Refused => (t, None)
      case Claim(j) => (WithSlots(t, i, slots[j := Slot(slots[j].value, true, ss)]), Some(slots[j].value))
      case Insert(j, n) => (WithSlots(t, i, InsertAt(slots, j, Slot(n, true, ss))), Some(n))
    else
      var n := if flag == This then v else 1;
      (InsertAt(t, i, Row(name, [Slot(n, true, ss)])), Some(n))
  }

  /** The comparisons a request for a particular value makes stay within int range. */
  ghost predicate Comparable(t: Table, name: Oid, v: int) {
    HasRow(t, name) ==> ScanFits(t[RowIndex(t, name)].slots, v)
  }

  /** The slots that a successful request leaves in its row. */
  function Placed(slots: seq<Slot>, p: Place, ss: Session): seq<Slot>
    requires p.Claim? ==> p.at < |slots|
    requires p.Insert? ==> p.pos <= |slots|
  {
    match p
    case Refused => slots
    case Claim(j) => slots[j := Slot(slots[j].value, true, ss)]
    case Insert(j, n) => InsertAt(slots, j, Slot(n, true, ss))
  }

  /** The differences with every value up to the first that is not below `v` are int values. */
  ghost predicate ScanFits(slots: seq<Slot>, v: int) {
    forall j :: 0 <= j < |slots| && ReachedAt(slots, v, j) ==> FitsInt(v - slots[j].value)
  }

  /** Everything in front of position `j` is below `v`, so the scan should look there. */
  predicate ReachedAt(slots: seq<Slot>, v: int, j: nat)
    requires j < |slots|
  {
    j == 0 || slots[j - 1].value < v
  }

  /** Within int range the scan compares as integers compare. */
  lemma SlotIndexExact(slots: seq<Slot>, v: int)
    requires ScanFits(slots, v)
    ensures var j := SlotIndex(slots, v);
            && (forall k :: 0 <= k < j ==> slots[k].value < v)
            && (j < |slots| ==> v <= slots[j].value)
            && (j < |slots| ==> (TruncInt(v - slots[j].value) == 0 <==> slots[j].value == v))
  {
    hide SlotIndex;
    var j := SlotIndex(slots, v);
    PassedAreBelow(slots, v, j);
    if j < |slots| {
      assert ReachedAt(slots, v, j);
      TruncationIsExactIffItFits(v - slots[j].value);
    }
  }

  lemma {:induction false} PassedAreBelow(slots: seq<Slot>, v: int, n: nat)
    requires ScanFits(slots, v) && n <= |slots|
    requires forall k :: 0 <= k < n ==> TruncInt(v - slots[k].value) > 0
    ensures forall k :: 0 <= k < n ==> slots[k].value < v
  {
    if n > 0 {
      PassedAreBelow(slots, v, n - 1);
      assert ReachedAt(slots, v, n - 1);
      TruncationIsExactIffItFits(v - slots[n - 1].value);
    }
  }

  lemma PlacedSorted(slots: seq<Slot>, flag: Flag, v: int, ss: Session)
    requires slots != [] && SortedSlots(slots) && (flag == This ==> ScanFits(slots, v))
    ensures var r := Placed(slots, FindPlace(slots, flag, v), ss); r != [] && SortedSlots(r)
  {
    hide SlotIndex, FirstFree, TruncInt, InsertAt;
    if flag == This {
      SlotIndexExact(slots, v);
    }
    var p := FindPlace(slots, flag, v);
    if p.Insert? {
      InsertedSorted(slots, p.pos, Slot(p.value, true, ss));
    }
  }

  lemma InsertedSorted(slots: seq<Slot>, j: nat, s: Slot)
    requires SortedSlots(slots) && j <= |slots|
    requires j > 0 ==> slots[j - 1].value < s.value
    requires j < |slots| ==> s.value < slots[j].value
    ensures SortedSlots(InsertAt(slots, j, s))
  {
    hide InsertAt;
  }

  /** Whatever is compared, OIDs stay in order and none is left without a value. */
  lemma RegisterKeepsNamed(t: Table, name: Oid, flag: Flag, v: int, ss: Session)
    requires Named(t)
    ensures Named(Register(t, name, flag, v, ss).0)
  {
    hide OidCompare, FindPlace, RowIndex;
    var i := RowIndex(t, name);
    var t' := Register(t, name, flag, v, ss).0;
    if HasRow(t, name) {
      assert forall k :: 0 <= k < |t| ==> t'[k].name == t[k].name;
    } else {
      InsertedRowNamed(t, i, t'[i]);
    }
  }

  lemma RegisterKeepsSorted(t: Table, name: Oid, flag: Flag, v: int, ss: Session)
    requires Sorted(t) && (flag == This ==> Comparable(t, name, v))
    ensures Sorted(Register(t, name, flag, v, ss).0)
  {
    hide OidCompare, FindPlace, SortedSlots, Named, RowIndex;
    var i := RowIndex(t, name);
    var t' := Register(t, name, flag, v, ss).0;
    RegisterKeepsNamed(t, name, flag, v, ss);
    if HasRow(t, name) {
      RowSorted(t, i);
      PlacedSorted(t[i].slots, flag, v, ss);
      assert t'[i] == Row(t[i].name, Placed(t[i].slots, FindPlace(t[i].slots, flag, v), ss));
    } else {
      SingletonSorted(t'[i].slots);
    }
  }

  lemma RowSorted(t: Table, i: nat)
    requires Sorted(t) && i < |t|
    ensures t[i].slots != [] && SortedSlots(t[i].slots)
  {
  }

  lemma RowNonempty(t: Table, i: nat)
    requires Named(t) && i < |t|
    ensures t[i].slots != []
  {
  }

  lemma SingletonSorted(slots: seq<Slot>)
    requires |slots| == 1
    ensures SortedSlots(slots)
  {
  }

  lemma InsertedRowNamed(t: Table, i: nat, row: Row)
    requires Named(t) && i == RowIndex(t, row.name) && !HasRow(t, row.name) && row.slots != []
    ensures Named(InsertAt(t, i, row))
  {
    hide OidCompare;
    var t' := InsertAt(t, i, row);
    forall a, b | 0 <= a < b < |t'| ensures OidCompare(t'[a].name, t'[b].name) < 0 {
      if b == i {
        OidCompareFlip(t[a].name, row.name);
      } else if a == i {
        OidCompareZero(row.name, t[i].name);
        if b > i + 1 {
          OidCompareTransitive(row.name, t[i].name, t[b - 1].name);
        }
      }
    }
  }

  // ----- unregister_index -----

  datatype Status = NoError | NotAllocated | WrongSession

  function Unregister(t: Table, name: Oid, v: int, remember: bool, ss: Session): (Table, Status)
    requires Named(t)
  {
    var i := RowIndex(t, name);
    if !HasRow(t, name) then (t, NotAllocated)
    else
      var slots := t[i].slots;
      var j := SlotIndex(slots, v);
      if j == |slots| || TruncInt(v - slots[j].value) != 0 || !slots[j].taken then (t, NotAllocated)
      else if slots[j].session != ss then (t, WrongSession)
      else if remember then (WithSlots(t, i, slots[j := Slot(slots[j].value, false, None)]), NoError)
      else (Without(t, i, j), NoError)
  }

  /** The table without position `j` of row `i`; a row without slots goes. */
  function Without(t: Table, i: nat, j: nat): Table
    requires i < |t| && j < |t[i].slots|
  {
    if |t[i].slots| == 1 then RemoveAt(t, i) else WithSlots(t, i, RemoveAt(t[i].slots, j))
  }

  lemma WithoutNamed(t: Table, i: nat, j: nat)
    requires Named(t) && i < |t| && j < |t[i].slots|
    ensures Named(Without(t, i, j))
  {
    hide OidCompare;
  }

  lemma UnregisterKeepsNamed(t: Table, name: Oid, v: int, remember: bool, ss: Session)
    requires Named(t)
    ensures Named(Unregister(t, name, v, remember, ss).0)
  {
    hide OidCompare;
  }

  lemma UnregisterKeepsSorted(t: Table, name: Oid, v: int, remember: bool, ss: Session)
    requires Sorted(t)
    ensures Sorted(Unregister(t, name, v, remember, ss).0)
  {
    hide OidCompare;
  }

  // ----- unregister_index_by_session -----

  function Release(s: Slot, ss: Session): Slot {
    if s.session == ss then Slot(s.value, false, None) else s
  }

  function ReleaseSlots(slots: seq<Slot>, ss: Session): (r: seq<Slot>)
    ensures |r| == |slots| && forall j :: 0 <= j < |slots| ==> r[j] == Release(slots[j], ss)
  {
    seq(|slots|, j requires 0 <= j < |slots| => Release(slots[j], ss))
  }

  function ReleaseSession(t: Table, ss: Session): (r: Table)
    ensures |r| == |t|
    ensures forall i :: 0 <= i < |t| ==> r[i] == Row(t[i].name, ReleaseSlots(t[i].slots, ss))
  {
    seq(|t|, i requires 0 <= i < |t| => Row(t[i].name, ReleaseSlots(t[i].slots, ss)))
  }

  lemma ReleaseKeepsNamed(t: Table, ss: Session)
    requires Named(t)
    ensures Named(ReleaseSession(t, ss))
  {
    hide OidCompare;
  }

  lemma ReleaseKeepsSorted(t: Table, ss: Session)
    requires Sorted(t)
    ensures Sorted(ReleaseSession(t, ss))
  {
    hide OidCompare;
    var t' := ReleaseSession(t, ss);
    ReleaseKeepsNamed(t, ss);
    forall i | 0 <= i < |t'| ensures SortedSlots(t'[i].slots) {
      assert SortedSlots(t[i].slots);
    }
  }

  /** `count_indexes` on one row. */
  function CountSlots(slots: seq<Slot>, all: bool): nat {
    if slots == [] then 0
    else (if slots[0].taken || all then 1 else 0) + CountSlots(slots[1..], all)
  }

  function TakenPlaces(slots: seq<Slot>): set<nat> {
    set j: nat | j < |slots| && slots[j].taken
  }

  /** All entries, or those that are allocated. */
  lemma {:induction false} CountSlotsIs(slots: seq<Slot>, all: bool)
    ensures CountSlots(slots, all) == if all then |slots| else |TakenPlaces(slots)|
  {
    if slots != [] {
      var n := |slots| - 1;
      CountSlotsIs(slots[..n], all);
      CountSlotsSnoc(slots[..n], slots[n], all);
      assert slots[..n] + [slots[n]] == slots;
      assert TakenPlaces(slots) == TakenPlaces(slots[..n]) + if slots[n].taken then {n} else {};
    } else {
      assert TakenPlaces(slots) == {};
    }
  }

  lemma {:induction false} CountSlotsSnoc(slots: seq<Slot>, s: Slot, all: bool)
    ensures CountSlots(slots + [s], all) == CountSlots(slots, all) + if s.taken || all then 1 else 0
  {
    if slots == [] {
      assert [] + [s] == [s] && [s][1..] == [];
    } else {
      assert (slots + [s])[1..] == slots[1..] + [s];
      CountSlotsSnoc(slots[1..], s, all);
    }
  }

  // ----- the allocations a table stands for -----

  /** The slot for a value, found without relying on any order. */
  function GetSlot(slots: seq<Slot>, x: int): (r: Option<Slot>)
    ensures r.Some? ==> r.value.value == x && exists j :: 0 <= j < |slots| && slots[j] == r.value
    ensures r.None? ==> forall j :: 0 <= j < |slots| ==> slots[j].value != x
  {
    if slots == [] then None
    else if slots[0].value == x then Some(slots[0])
    else
      var r := GetSlot(slots[1..], x);
      assert forall j :: 0 <= j < |slots[1..]| ==> slots[1..][j] == slots[j + 1];
      r
  }

  /** The slots for an OID, found without relying on any order. */
  function GetRow(t: Table, name: Oid): (r: seq<Slot>)
    ensures || (r == [] && forall i :: 0 <= i < |t| ==> t[i].name != name)
            || exists i :: 0 <= i < |t| && t[i].name == name && t[i].slots == r
  {
    if t == [] then []
    else if t[0].name == name then t[0].slots
    else
      var r := GetRow(t[1..], name);
      assert forall i :: 0 <= i < |t[1..]| ==> t[1..][i] == t[i + 1];
      r
  }

  /** The table as a function: what is registered for an OID and a value. */
  function Get(t: Table, name: Oid, x: int): Option<Slot> {
    GetSlot(GetRow(t, name), x)
  }

  predicate IsFree(t: Table, name: Oid, x: int) {
    Get(t, name, x).Some? && !Get(t, name, x).value.taken
  }

  lemma GetSlotAt(slots: seq<Slot>, j: nat)
    requires SortedSlots(slots) && j < |slots|
    ensures GetSlot(slots, slots[j].value) == Some(slots[j])
  {
    hide GetSlot;
    var r := GetSlot(slots, slots[j].value);
    var k :| 0 <= k < |slots| && slots[k] == r.value;
    assert k == j;
  }

  lemma GetSlotNone(slots: seq<Slot>, x: int)
    requires forall j :: 0 <= j < |slots| ==> slots[j].value != x
    ensures GetSlot(slots, x) == None
  {
  }

  lemma GetRowAt(t: Table, i: nat)
    requires Named(t) && i < |t|
    ensures GetRow(t, t[i].name) == t[i].slots
  {
    hide GetRow;
    if k :| 0 <= k < |t| && t[k].name == t[i].name && t[k].slots == GetRow(t, t[i].name) {
      NamesDiffer(t, i, k);
    }
  }

  lemma GetRowNone(t: Table, name: Oid)
    requires Named(t) && !HasRow(t, name)
    ensures GetRow(t, name) == []
  {
    hide OidCompare, GetRow;
    if k :| 0 <= k < |t| && t[k].name == name {
      var i := RowIndex(t, name);
      OidCompareZero(name, name);
      if i < k {
        OidCompareZero(name, t[i].name);
        OidCompareFlip(name, t[i].name);
        OidCompareFlip(t[i].name, name);
      }
    }
  }

  lemma GetAfterClaim(slots: seq<Slot>, j: nat, s: Slot, x: int)
    requires SortedSlots(slots) && j < |slots| && s.value == slots[j].value
    ensures GetSlot(slots[j := s], x) == if x == s.value then Some(s) else GetSlot(slots, x)
  {
    hide GetSlot;
    var r := slots[j := s];
    assert SortedSlots(r);
    if k :| 0 <= k < |slots| && slots[k].value == x {
      GetSlotAt(r, k);
      GetSlotAt(slots, k);
    } else {
      GetSlotNone(r, x);
      GetSlotNone(slots, x);
    }
  }

  lemma GetAfterInsert(slots: seq<Slot>, j: nat, s: Slot, x: int)
    requires SortedSlots(slots) && j <= |slots| && SortedSlots(InsertAt(slots, j, s))
    ensures GetSlot(InsertAt(slots, j, s), x) == if x == s.value then Some(s) else GetSlot(slots, x)
    ensures GetSlot(slots, s.value) == None
  {
    hide GetSlot, InsertAt;
    var r := InsertAt(slots, j, s);
    forall k | 0 <= k < |slots| ensures r[if k < j then k else k + 1] == slots[k] && slots[k].value != s.value {
    }
    GetSlotNone(slots, s.value);
    GetSlotAt(r, j);
    if k :| 0 <= k < |slots| && slots[k].value == x {
      GetSlotAt(r, if k < j then k else k + 1);
      GetSlotAt(slots, k);
    } else if x != s.value {
      forall k | 0 <= k < |r| ensures r[k].value != x {
        if k < j { assert r[k] == slots[k]; } else if k > j { assert r[k] == slots[k - 1]; }
      }
      GetSlotNone(r, x);
      GetSlotNone(slots, x);
    }
  }

  lemma GetAfterRemove(slots: seq<Slot>, j: nat, x: int)
    requires SortedSlots(slots) && j < |slots|
    ensures GetSlot(RemoveAt(slots, j), x) == if x == slots[j].value then None else GetSlot(slots, x)
  {
    hide GetSlot, RemoveAt;
    var r := RemoveAt(slots, j);
    if x != slots[j].value {
      if k :| 0 <= k < |slots| && slots[k].value == x {
        assert r[if k < j then k else k - 1] == slots[k];
        assert SortedSlots(r);
        GetSlotAt(r, if k < j then k else k - 1);
        GetSlotAt(slots, k);
      } else {
        GetSlotNone(r, x);
        GetSlotNone(slots, x);
      }
    } else {
      GetSlotNone(r, x);
    }
  }

  lemma RowAfterUpdate(t: Table, i: nat, slots: seq<Slot>, n: Oid)
    requires Named(t) && i < |t| && Named(WithSlots(t, i, slots))
    ensures GetRow(WithSlots(t, i, slots), n) == if n == t[i].name then slots else GetRow(t, n)
  {
    hide GetRow, OidCompare, SortedSlots;
    var t' := WithSlots(t, i, slots);
    GetRowAt(t', i);
    if n != t[i].name {
      if k :| 0 <= k < |t| && t[k].name == n {
        GetRowAt(t, k);
        GetRowAt(t', k);
      }
    }
  }

  lemma RowAfterInsert(t: Table, i: nat, row: Row, n: Oid)
    requires Named(t) && i <= |t| && Named(InsertAt(t, i, row))
    ensures GetRow(InsertAt(t, i, row), n) == if n == row.name then row.slots else GetRow(t, n)
  {
    hide GetRow, OidCompare, SortedSlots, InsertAt;
    var t' := InsertAt(t, i, row);
    GetRowAt(t', i);
    if n != row.name {
      if k :| 0 <= k < |t| && t[k].name == n {
        GetRowAt(t, k);
        assert t'[if k < i then k else k + 1] == t[k];
        GetRowAt(t', if k < i then k else k + 1);
      } else {
        forall k | 0 <= k < |t'| ensures t'[k].name != n {
          if k < i { assert t'[k] == t[k]; } else if k > i { assert t'[k] == t[k - 1]; }
        }
      }
    }
  }

  lemma RowAfterRemove(t: Table, i: nat, n: Oid)
    requires Named(t) && i < |t| && Named(RemoveAt(t, i))
    ensures GetRow(RemoveAt(t, i), n) == if n == t[i].name then [] else GetRow(t, n)
  {
    hide GetRow, OidCompare, SortedSlots, RemoveAt;
    var t' := RemoveAt(t, i);
    if n == t[i].name {
      if k :| 0 <= k < |t'| && t'[k].name == n {
        NamesDiffer(t, i, if k < i then k else k + 1);
      }
    } else {
      if k :| 0 <= k < |t| && t[k].name == n {
        GetRowAt(t, k);
        assert t'[if k < i then k else k - 1] == t[k];
        GetRowAt(t', if k < i then k else k - 1);
      }
    }
  }

  // ----- what registering promises -----

  /** Exactly the slot for one OID and value changed. */
  ghost predicate OnlyChanged(t: Table, t': Table, name: Oid, v: int, after: Option<Slot>) {
    forall n, x :: Get(t', n, x) == if n == name && x == v then after else Get(t, n, x)
  }

  /** `v` is above everything ever registered for the OID, and the least such value from 1 on. */
  ghost predicate Above(t: Table, name: Oid, v: int) {
    && (forall x :: Get(t, name, x).Some? ==> x < v)
    && (Get(t, name, v - 1).Some? || (v == 1 && forall x :: Get(t, name, x).None?))
  }

  ghost predicate LowestFree(t: Table, name: Oid, v: int) {
    IsFree(t, name, v) && forall x :: IsFree(t, name, x) ==> v <= x
  }

  /** Which value a request is granted, given what is registered. */
  ghost predicate RightValue(t: Table, name: Oid, flag: Flag, req: int, v: int) {
    match flag
    case This => v == req
    case New => Above(t, name, v)
    case Any => if exists x :: IsFree(t, name, x) then LowestFree(t, name, v) else Above(t, name, v)
  }

  ghost predicate RightPlace(t: Table, name: Oid, flag: Flag, req: int, p: Place, slots: seq<Slot>)
    requires p.Claim? ==> p.at < |slots|
  {
    && (p.Refused? <==> flag == This && Get(t, name, req).Some? && Get(t, name, req).value.taken)
    && (p.Claim? ==> IsFree(t, name, slots[p.at].value) && RightValue(t, name, flag, req, slots[p.at].value))
    && (p.Insert? ==> Get(t, name, p.value).None? && RightValue(t, name, flag, req, p.value))
  }

  lemma FindsRequested(t: Table, name: Oid, req: int, slots: seq<Slot>)
    requires SortedSlots(slots) && slots != [] && ScanFits(slots, req) && GetRow(t, name) == slots
    ensures RightPlace(t, name, This, req, FindPlace(slots, This, req), slots)
  {
    hide GetSlot, GetRow, TruncInt, SlotIndex;
    SlotIndexExact(slots, req);
    ScanFinds(slots, req);
  }

  lemma LastIsHighest(t: Table, name: Oid, slots: seq<Slot>)
    requires SortedSlots(slots) && slots != [] && GetRow(t, name) == slots
    ensures Above(t, name, slots[|slots| - 1].value + 1)
    ensures Get(t, name, slots[|slots| - 1].value + 1).None?
  {
    hide GetSlot, GetRow;
    GetSlotAt(slots, |slots| - 1);
  }

  lemma FindsFree(t: Table, name: Oid, slots: seq<Slot>)
    requires SortedSlots(slots) && GetRow(t, name) == slots
    ensures var j := FirstFree(slots);
            if j < |slots| then LowestFree(t, name, slots[j].value) else forall x :: !IsFree(t, name, x)
  {
    hide GetSlot, GetRow, FirstFree;
    var j := FirstFree(slots);
    if j < |slots| {
      GetSlotAt(slots, j);
    }
  }

  /** The place that the scan of a row finds is the right one. */
  lemma FindsRightPlace(t: Table, name: Oid, flag: Flag, req: int)
    requires Sorted(t) && HasRow(t, name) && (flag == This ==> Comparable(t, name, req))
    ensures var slots := t[RowIndex(t, name)].slots; RightPlace(t, name, flag, req, FindPlace(slots, flag, req), slots)
  {
    hide GetSlot, GetRow, OidCompare, RightPlace, FindPlace, SortedSlots;
    var i := RowIndex(t, name);
    GetRowAt(t, i);
    if flag == This {
      FindsRequested(t, name, req, t[i].slots);
    } else {
      FindsUnrequested(t, name, flag, req, t[i].slots);
    }
  }

  lemma FindsUnrequested(t: Table, name: Oid, flag: Flag, req: int, slots: seq<Slot>)
    requires SortedSlots(slots) && slots != [] && GetRow(t, name) == slots && flag != This
    ensures RightPlace(t, name, flag, req, FindPlace(slots, flag, req), slots)
  {
    hide Get, FirstFree, Above, LowestFree, SortedSlots, IsFree;
    LastIsHighest(t, name, slots);
    FindsFree(t, name, slots);
    if FirstFree(slots) < |slots| {
      LowestIsFree(t, name, slots[FirstFree(slots)].value);
    }
  }

  lemma LowestIsFree(t: Table, name: Oid, v: int)
    requires LowestFree(t, name, v)
    ensures IsFree(t, name, v)
  {
  }

  predicate Taken(t: Table, name: Oid, x: int) {
    Get(t, name, x).Some? && Get(t, name, x).value.taken
  }

  /**
   What a request promises: a value in use is refused, and only that; what is granted was not in
   use and is the right value; and nothing else changes.
   */
  ghost predicate RightGrant(t: Table, name: Oid, flag: Flag, req: int, ss: Session)
    requires Named(t)
  {
    var (t', rv) := Register(t, name, flag, req, ss);
    && (rv.None? <==> flag == This && Taken(t, name, req))
    && (rv.None? ==> t' == t)
    && (rv.Some? ==> && !Taken(t, name, rv.value) && RightValue(t, name, flag, req, rv.value)
                     && OnlyChanged(t, t', name, rv.value, Some(Slot(rv.value, true, ss))))
  }

  lemma GrantsWhenComparable(t: Table, name: Oid, flag: Flag, req: int, ss: Session)
    requires Sorted(t) && (flag == This ==> Comparable(t, name, req))
    ensures RightGrant(t, name, flag, req, ss)
  {
    hide Sorted, Comparable, RightGrant, HasRow;
    if HasRow(t, name) {
      GrantsInRow(t, name, flag, req, ss);
    } else {
      GrantsNewRow(t, name, flag, req, ss);
    }
  }

  lemma GrantsInRow(t: Table, name: Oid, flag: Flag, req: int, ss: Session)
    requires Sorted(t) && HasRow(t, name) && (flag == This ==> Comparable(t, name, req))
    ensures RightGrant(t, name, flag, req, ss)
  {
    hide GetSlot, GetRow, OidCompare, FindPlace, SortedSlots, RightValue, ScanFits, Named, RowIndex;
    var i := RowIndex(t, name);
    var (t', rv) := Register(t, name, flag, req, ss);
    RowSorted(t, i);
    FindsRightPlace(t, name, flag, req);
    var p := FindPlace(t[i].slots, flag, req);
    if !p.Refused? {
      assert PlacedSlots(t, i, p, ss) == t';
      forall n, x ensures Get(t', n, x) == if n == name && x == rv.value then Some(Slot(rv.value, true, ss)) else Get(t, n, x) {
        GetAfterPlacing(t, i, flag, req, ss, n, x);
      }
    }
  }

  lemma GrantsNewRow(t: Table, name: Oid, flag: Flag, req: int, ss: Session)
    requires Sorted(t) && !HasRow(t, name)
    ensures RightGrant(t, name, flag, req, ss)
  {
    hide GetSlot, GetRow, OidCompare, FindPlace, SortedSlots, RightValue, Named, RowIndex, InsertAt;
    var i := RowIndex(t, name);
    var (t', rv) := Register(t, name, flag, req, ss);
    RegisterKeepsNamed(t, name, flag, req, ss);
    GetRowNone(t, name);
    NewRowValue(t, name, flag, req);
    forall n, x ensures Get(t', n, x) == if n == name && x == rv.value then Some(Slot(rv.value, true, ss)) else Get(t, n, x) {
      RowAfterInsert(t, i, t'[i], n);
      GetOfOne(t'[i].slots[0], x);
    }
  }

  function PlacedSlots(t: Table, i: nat, p: Place, ss: Session): Table
    requires i < |t| && (p.Claim? ==> p.at < |t[i].slots|) && (p.Insert? ==> p.pos <= |t[i].slots|)
  {
    WithSlots(t, i, Placed(t[i].slots, p, ss))
  }

  lemma GetAfterPlacing(t: Table, i: nat, flag: Flag, req: int, ss: Session, n: Oid, x: int)
    requires Sorted(t) && i < |t| && (flag == This ==> ScanFits(t[i].slots, req))
    requires !FindPlace(t[i].slots, flag, req).Refused?
    ensures var p := FindPlace(t[i].slots, flag, req);
            var v := if p.Claim? then t[i].slots[p.at].value else p.value;
            Get(PlacedSlots(t, i, p, ss), n, x)
            == if n == t[i].name && x == v then Some(Slot(v, true, ss)) else Get(t, n, x)
  {
    hide GetSlot, GetRow, OidCompare, FindPlace, SortedSlots, ScanFits;
    var slots := t[i].slots;
    var p := FindPlace(slots, flag, req);
    RowSorted(t, i);
    PlacedSorted(slots, flag, req, ss);
    RowAfterUpdate(t, i, Placed(slots, p, ss), n);
    GetRowAt(t, i);
    if p.Claim? {
      GetAfterClaim(slots, p.at, Slot(slots[p.at].value, true, ss), x);
    } else {
      GetAfterInsert(slots, p.pos, Slot(p.value, true, ss), x);
    }
  }

  lemma GetOfOne(s: Slot, x: int)
    ensures GetSlot([s], x) == if x == s.value then Some(s) else None
    ensures GetSlot([], x) == None
  {
  }

  lemma NewRowValue(t: Table, name: Oid, flag: Flag, req: int)
    requires GetRow(t, name) == []
    ensures RightValue(t, name, flag, req, if flag == This then req else 1)
    ensures forall x :: Get(t, name, x).None?
  {
  }

  // ----- what unregistering promises -----

  /** What a release promises: which status, and that a success changes exactly its own entry. */
  ghost predicate RightRelease(t: Table, name: Oid, v: int, remember: bool, ss: Session)
    requires Named(t)
  {
    var (t', status) := Unregister(t, name, v, remember, ss);
    && (status == NotAllocated <==> !Taken(t, name, v))
    && (status == NoError <==> Taken(t, name, v) && Get(t, name, v).value.session == ss)
    && (status != NoError ==> t' == t)
    && (status == NoError ==> OnlyChanged(t, t', name, v, if remember then Some(Slot(v, false, None)) else None))
  }

  lemma ReleasesWhenComparable(t: Table, name: Oid, v: int, remember: bool, ss: Session)
    requires Sorted(t) && Comparable(t, name, v)
    ensures RightRelease(t, name, v, remember, ss)
  {
    hide GetSlot, GetRow, OidCompare, SortedSlots, TruncInt, SlotIndex, ScanFits, Named, Without, WithSlots;
    var i := RowIndex(t, name);
    var (t', status) := Unregister(t, name, v, remember, ss);
    if !HasRow(t, name) {
      GetRowNone(t, name);
      GetSlotNone([], v);
    } else {
      var slots := t[i].slots;
      GetRowAt(t, i);
      RowSorted(t, i);
      SlotIndexExact(slots, v);
      ScanFinds(slots, v);
      if status == NoError {
        var j := SlotIndex(slots, v);
        forall n, x
          ensures Get(t', n, x) == if n == name && x == v then (if remember then Some(Slot(v, false, None)) else None) else Get(t, n, x)
        {
          if remember {
            GetAfterFreeing(t, i, j, n, x);
          } else {
            GetAfterDropping(t, i, j, n, x);
          }
        }
      }
    }
  }

  lemma GetAfterFreeing(t: Table, i: nat, j: nat, n: Oid, x: int)
    requires Sorted(t) && i < |t| && j < |t[i].slots|
    ensures var s := Slot(t[i].slots[j].value, false, None);
            Get(WithSlots(t, i, t[i].slots[j := s]), n, x)
            == if n == t[i].name && x == s.value then Some(s) else Get(t, n, x)
  {
    hide GetSlot, GetRow, OidCompare, SortedSlots;
    var s := Slot(t[i].slots[j].value, false, None);
    RowSorted(t, i);
    GetRowAt(t, i);
    RowAfterUpdate(t, i, t[i].slots[j := s], n);
    GetAfterClaim(t[i].slots, j, s, x);
  }

  lemma GetAfterDropping(t: Table, i: nat, j: nat, n: Oid, x: int)
    requires Sorted(t) && i < |t| && j < |t[i].slots|
    ensures Get(Without(t, i, j), n, x) == if n == t[i].name && x == t[i].slots[j].value then None else Get(t, n, x)
  {
    hide GetSlot, GetRow, OidCompare, SortedSlots, Named;
    var slots := t[i].slots;
    RowSorted(t, i);
    GetRowAt(t, i);
    GetAfterRemove(slots, j, x);
    WithoutNamed(t, i, j);
    if |slots| == 1 {
      RowAfterRemove(t, i, n);
      assert RemoveAt(slots, j) == [];
    } else {
      RowAfterUpdate(t, i, RemoveAt(slots, j), n);
    }
  }

  lemma ScanFinds(slots: seq<Slot>, v: int)
    requires SortedSlots(slots) && ScanFits(slots, v)
    ensures var j := SlotIndex(slots, v);
            GetSlot(slots, v) == if j < |slots| && slots[j].value == v then Some(slots[j]) else None
  {
    hide GetSlot;
    SlotIndexExact(slots, v);
    var j := SlotIndex(slots, v);
    if j < |slots| && slots[j].value == v {
      GetSlotAt(slots, j);
    } else {
      GetSlotNone(slots, v);
    }
  }

  /** Session cleanup frees exactly that session's entries. */
  lemma ReleaseFreesExactly(t: Table, ss: Session, name: Oid, x: int)
    requires Sorted(t)
    ensures var s := Get(t, name, x);
            Get(ReleaseSession(t, ss), name, x)
            == if s.Some? && s.value.session == ss then Some(Slot(x, false, None)) else s
  {
    hide GetSlot, GetRow, OidCompare;
    var t' := ReleaseSession(t, ss);
    ReleaseKeepsSorted(t, ss);
    if i :| 0 <= i < |t| && t[i].name == name {
      GetRowAt(t, i);
      GetRowAt(t', i);
      assert SortedSlots(t[i].slots) && SortedSlots(t'[i].slots);
      if j :| 0 <= j < |t[i].slots| && t[i].slots[j].value == x {
        GetSlotAt(t[i].slots, j);
        GetSlotAt(t'[i].slots, j);
      } else {
        GetSlotNone(t[i].slots, x);
        GetSlotNone(t'[i].slots, x);
      }
    } else {
      GetSlotNone([], x);
    }
  }

  // ----- 32-bit values, and differences that do not fit -----

  predicate Int32(v: int) {
    FitsInt(v)
  }

  ghost predicate Values32(t: Table) {
    forall i, j :: 0 <= i < |t| && 0 <= j < |t[i].slots| ==> Int32(t[i].slots[j].value)
  }

  /**
   On 32-bit values a scan whose differences do not fit goes wrong in one of two ways: it stops at
   once in front of a smaller value, or runs off the end past the first greater one.
   */
  lemma WrongScan(slots: seq<Slot>, v: int)
    requires slots != [] && SortedSlots(slots) && Int32(v) && !ScanFits(slots, v)
    requires forall k :: 0 <= k < |slots| ==> Int32(slots[k].value)
    ensures || (SlotIndex(slots, v) == 0 && TruncInt(v - slots[0].value) < 0 && slots[0].value < v)
            || (SlotIndex(slots, v) == |slots| && slots[|slots| - 1].value > v && GetSlot(slots, v).None?)
  {
    hide SlotIndex, GetSlot, TruncInt, SortedSlots;
    if v - slots[0].value >= 0x8000_0000 {
      StopsAtOnce(slots, v);
    } else {
      var j :| 0 <= j < |slots| && ReachedAt(slots, v, j) && !FitsInt(v - slots[j].value);
      RunsOff(slots, v, j);
    }
  }

  lemma StopsAtOnce(slots: seq<Slot>, v: int)
    requires slots != [] && Int32(v) && Int32(slots[0].value) && v - slots[0].value >= 0x8000_0000
    ensures SlotIndex(slots, v) == 0 && TruncInt(v - slots[0].value) < 0
  {
  }

  lemma RunsOff(slots: seq<Slot>, v: int, j: nat)
    requires SortedSlots(slots) && Int32(v) && forall k :: 0 <= k < |slots| ==> Int32(slots[k].value)
    requires j < |slots| && ReachedAt(slots, v, j) && !FitsInt(v - slots[j].value)
    requires v - slots[0].value < 0x8000_0000
    ensures SlotIndex(slots, v) == |slots| && slots[|slots| - 1].value > v && GetSlot(slots, v).None?
  {
    hide SlotIndex, GetSlot;
    assert slots[j].value > v;
    forall k | 0 <= k < |slots| ensures TruncInt(v - slots[k].value) > 0 && slots[k].value != v {
      if k > j { assert slots[j].value < slots[k].value; }
    }
    GetSlotNone(slots, v);
  }

  /**
   On 32-bit values the registry stays sorted exactly when the differences that the scan should
   take are int values; otherwise the new value is filed before a smaller one or behind a greater one.
   */
  lemma RegistryStaysSortedIff(t: Table, name: Oid, v: int, ss: Session)
    requires Sorted(t) && Values32(t) && Int32(v)
    ensures Sorted(Register(t, name, This, v, ss).0) <==> Comparable(t, name, v)
  {
    hide OidCompare, SlotIndex, ScanFits, TruncInt;
    if Comparable(t, name, v) {
      RegisterKeepsSorted(t, name, This, v, ss);
    } else {
      var i := RowIndex(t, name);
      var slots := t[i].slots;
      WrongScan(slots, v);
      var r := Register(t, name, This, v, ss).0[i].slots;
      assert r == InsertAt(slots, SlotIndex(slots, v), Slot(v, true, ss));
      if SlotIndex(slots, v) == 0 {
        assert r[0].value == v && r[1].value == slots[0].value;
      } else {
        assert r[|slots| - 1].value > r[|slots|].value;
      }
    }
  }

  lemma {:induction false} GetAfterAppend(slots: seq<Slot>, s: Slot, x: int)
    ensures GetSlot(slots + [s], x) == if GetSlot(slots, x).Some? || x != s.value then GetSlot(slots, x) else Some(s)
  {
    if slots != [] {
      assert (slots + [s])[1..] == slots[1..] + [s];
      GetAfterAppend(slots[1..], s, x);
    }
  }

  lemma GetAfterPrepend(slots: seq<Slot>, s: Slot, x: int)
    ensures GetSlot([s] + slots, x) == if x == s.value then Some(s) else GetSlot(slots, x)
  {
    assert ([s] + slots)[1..] == slots;
  }

  /** A misplaced value is granted and recorded all the same; nothing notices that it may be in use. */
  lemma WrongScanGrants(t: Table, name: Oid, v: int, ss: Session)
    requires Sorted(t) && Values32(t) && Int32(v) && !Comparable(t, name, v)
    ensures var (t', rv) := Register(t, name, This, v, ss);
            rv == Some(v) && OnlyChanged(t, t', name, v, Some(Slot(v, true, ss)))
  {
    hide OidCompare, SlotIndex, ScanFits, TruncInt, GetSlot, GetRow, SortedSlots, RowIndex, Named;
    var i := RowIndex(t, name);
    var slots := t[i].slots;
    var s := Slot(v, true, ss);
    RowSorted(t, i);
    WrongScan(slots, v);
    RegisterKeepsNamed(t, name, This, v, ss);
    var t' := Register(t, name, This, v, ss).0;
    var r := InsertAt(slots, SlotIndex(slots, v), s);
    assert t' == WithSlots(t, i, r);
    assert r == if SlotIndex(slots, v) == 0 then [s] + slots else slots + [s];
    GetRowAt(t, i);
    forall n, x ensures Get(t', n, x) == if n == name && x == v then Some(s) else Get(t, n, x) {
      RowAfterUpdate(t, i, r, n);
      GetAfterAppend(slots, s, x);
      GetAfterPrepend(slots, s, x);
    }
  }

  /**
   Integer index allocation is exclusive and fresh (section 7.1.2 of RFC 2741): a value in use is
   never granted again; ANY reuses the lowest released value if there is one; NEW, and ANY when
   nothing is free, return one above every value registered for the OID; and nothing else changes.
   On 32-bit values this holds exactly unless a value in use is asked for whose differences do not
   fit an int: that value is granted a second time.
   */
  lemma RegisterGrants(t: Table, name: Oid, flag: Flag, req: int, ss: Session)
    requires Sorted(t) && Values32(t) && Int32(req)
    ensures RightGrant(t, name, flag, req, ss) <==> (flag == This && Taken(t, name, req) ==> Comparable(t, name, req))
    ensures flag == This && Taken(t, name, req)
            ==> (Register(t, name, flag, req, ss).1.None? <==> Comparable(t, name, req))
  {
    hide Get, OidCompare, FindPlace, Comparable, Named, Register, Values32;
    if flag == This && !Comparable(t, name, req) {
      WrongScanGrants(t, name, req, ss);
    } else {
      GrantsWhenComparable(t, name, flag, req, ss);
    }
  }

  lemma WrongScanReleasesNothing(t: Table, name: Oid, v: int, remember: bool, ss: Session)
    requires Sorted(t) && Values32(t) && Int32(v) && !Comparable(t, name, v)
    ensures Unregister(t, name, v, remember, ss) == (t, NotAllocated)
  {
    hide OidCompare, SlotIndex, ScanFits, TruncInt, GetSlot, RowIndex;
    WrongScan(t[RowIndex(t, name)].slots, v);
  }

  /**
   A release succeeds exactly for the session that has the value, and then changes that entry
   alone.  On 32-bit values this holds exactly unless the value is in use and its differences do
   not fit an int: its own session is told that it is not allocated.
   */
  lemma UnregisterReleases(t: Table, name: Oid, v: int, remember: bool, ss: Session)
    requires Sorted(t) && Values32(t) && Int32(v)
    ensures RightRelease(t, name, v, remember, ss) <==> (Taken(t, name, v) ==> Comparable(t, name, v))
    ensures Taken(t, name, v) && Get(t, name, v).value.session == ss
            ==> (Unregister(t, name, v, remember, ss).1 == NoError <==> Comparable(t, name, v))
  {
    hide Get, OidCompare, Comparable, Named, Unregister, Values32;
    if Comparable(t, name, v) {
      ReleasesWhenComparable(t, name, v, remember, ss);
    } else {
      WrongScanReleasesNothing(t, name, v, remember, ss);
    }
  }

  /** For a value in use, that is a matter of its distance from the lowest registered value alone. */
  lemma InUseComparableIff(t: Table, name: Oid, v: int)
    requires Sorted(t) && Taken(t, name, v)
    ensures GetRow(t, name) != []
    ensures Comparable(t, name, v) <==> FitsInt(v - GetRow(t, name)[0].value)
  {
    hide OidCompare, GetSlot, GetRow, RowIndex, Named, ScanFits, SortedSlots;
    if HasRow(t, name) {
      var i := RowIndex(t, name);
      GetRowAt(t, i);
      RowSorted(t, i);
      ScanToPresentValue(t[i].slots, v);
    } else {
      GetRowNone(t, name);
    }
  }

  lemma ScanToPresentValue(slots: seq<Slot>, v: int)
    requires slots != [] && SortedSlots(slots) && GetSlot(slots, v).Some?
    ensures ScanFits(slots, v) <==> FitsInt(v - slots[0].value)
  {
    hide GetSlot;
    assert ReachedAt(slots, v, 0);
    var p :| 0 <= p < |slots| && slots[p] == GetSlot(slots, v).value;
    forall j | 0 <= j < |slots| && ReachedAt(slots, v, j) ensures slots[0].value <= slots[j].value <= v {
    }
  }

  // ----- whole runs -----

  datatype Op =
    | Reg(name: Oid, flag: Flag, value: int, ss: Session)
    | Unreg(name: Oid, value: int, remember: bool, ss: Session)
    | Drop(ss: Session)

  function Apply(t: Table, op: Op): Table
    requires Named(t)
  {
    match op
    case Reg(name, flag, v, ss) => Register(t, name, flag, v, ss).0
    case Unreg(name, v, remember, ss) => Unregister(t, name, v, remember, ss).0
    case Drop(ss) => ReleaseSession(t, ss)
  }

  lemma ApplyKeepsNamed(t: Table, op: Op)
    requires Named(t)
    ensures Named(Apply(t, op))
  {
    hide Named;
    match op
    case Reg(name, flag, v, ss) => RegisterKeepsNamed(t, name, flag, v, ss);
    case Unreg(name, v, remember, ss) => UnregisterKeepsNamed(t, name, v, remember, ss);
    case Drop(ss) => ReleaseKeepsNamed(t, ss);
  }

  ghost function Run(t: Table, ops: seq<Op>): (r: Table)
    requires Named(t)
    ensures Named(r)
    decreases |ops|
  {
    if ops == [] then t else ApplyKeepsNamed(t, ops[0]); Run(Apply(t, ops[0]), ops[1..])
  }

  /** The scans for a requested value take differences that fit an int. */
  ghost predicate InRange(t: Table, op: Op) {
    op.Reg? && op.flag == This ==> Comparable(t, op.name, op.value)
  }

  ghost predicate AllInRange(t: Table, ops: seq<Op>)
    requires Named(t)
    decreases |ops|
  {
    ops == [] || (InRange(t, ops[0]) && (ApplyKeepsNamed(t, ops[0]); AllInRange(Apply(t, ops[0]), ops[1..])))
  }

  lemma ApplyKeepsSorted(t: Table, op: Op)
    requires Sorted(t) && InRange(t, op)
    ensures Sorted(Apply(t, op))
  {
    hide Sorted, Comparable;
    match op
    case Reg(name, flag, v, ss) => RegisterKeepsSorted(t, name, flag, v, ss);
    case Unreg(name, v, remember, ss) => UnregisterKeepsSorted(t, name, v, remember, ss);
    case Drop(ss) => ReleaseKeepsSorted(t, ss);
  }

  /** In every run of requests, releases and cleanups in which every requested value is in range, the registry stays sorted. */
  lemma {:induction false} RunKeepsSorted(t: Table, ops: seq<Op>)
    requires Sorted(t) && AllInRange(t, ops)
    ensures Sorted(Run(t, ops))
    decreases |ops|
  {
    hide Named, Apply, InRange;
    if ops != [] {
      ApplyKeepsSorted(t, ops[0]);
      RunKeepsSorted(Apply(t, ops[0]), ops[1..]);
    }
  }

  /** All values that the run sees are 32-bit values. */
  ghost predicate Run32(t: Table, ops: seq<Op>)
    requires Named(t)
    decreases |ops|
  {
    && Values32(t)
    && (ops != [] ==> && (!ops[0].Drop? ==> Int32(ops[0].value))
                      && (ApplyKeepsNamed(t, ops[0]); Run32(Apply(t, ops[0]), ops[1..])))
  }

  ghost predicate SortedThroughout(t: Table, ops: seq<Op>)
    requires Named(t)
    decreases |ops|
  {
    Sorted(t) && (ops != [] ==> (ApplyKeepsNamed(t, ops[0]); SortedThroughout(Apply(t, ops[0]), ops[1..])))
  }

  /** A run on 32-bit values is sorted all the way if and only if every requested value is in range. */
  lemma {:induction false} SortedThroughoutIff(t: Table, ops: seq<Op>)
    requires Sorted(t) && Run32(t, ops)
    ensures SortedThroughout(t, ops) <==> AllInRange(t, ops)
    decreases |ops|
  {
    hide Named, Comparable, Values32, Register, Unregister;
    if ops != [] {
      var op := ops[0];
      ApplyKeepsNamed(t, op);
      if InRange(t, op) {
        ApplyKeepsSorted(t, op);
        SortedThroughoutIff(Apply(t, op), ops[1..]);
      } else {
        RegistryStaysSortedIff(t, op.name, op.value, op.ss);
      }
    }
  }

  /** An operation by which a session gives something up under an OID. */
  predicate ReleasedBy(op: Op, name: Oid, owner: Session) {
    match op
    case Reg(_, _, _, _) => false
    case Unreg(n, _, _, ss) => n == name && ss == owner
    case Drop(ss) => ss == owner
  }

  /** The operation gives up this very value. */
  predicate GivesUp(op: Op, name: Oid, x: int, owner: Session) {
    ReleasedBy(op, name, owner) && (op.Unreg? ==> op.value == x)
  }

  /**
   On 32-bit values, what is registered for a value in use changes only when its own session gives
   it up, or when it is granted a second time because its differences do not fit.
   */
  lemma OnlyOwnerReleases(t: Table, op: Op, name: Oid, x: int)
    requires Sorted(t) && Values32(t) && (!op.Drop? ==> Int32(op.value)) && Taken(t, name, x)
    ensures || Get(Apply(t, op), name, x) == Get(t, name, x)
            || GivesUp(op, name, x, Get(t, name, x).value.session)
            || (op.Reg? && op.flag == This && op.name == name && op.value == x && !Comparable(t, name, x))
  {
    hide Sorted, Get, Comparable, Named, Values32, RightValue, Register, Unregister;
    match op
    case Reg(n, flag, v, ss) =>
      RegisterGrants(t, n, flag, v, ss);
      if flag == This && !Comparable(t, n, v) { WrongScanGrants(t, n, v, ss); }
    case Unreg(n, v, remember, ss) =>
      UnregisterReleases(t, n, v, remember, ss);
      if !Comparable(t, n, v) { WrongScanReleasesNothing(t, n, v, remember, ss); }
    case Drop(ss) => ReleaseFreesExactly(t, ss, name, x);
  }

  lemma PlacedKeeps(slots: seq<Slot>, flag: Flag, v: int, ss: Session, s: Slot)
    requires slots != [] && s in slots && s.taken
    ensures s in Placed(slots, FindPlace(slots, flag, v), ss)
  {
    hide SlotIndex, FirstFree, TruncInt, InsertAt;
    var p := FindPlace(slots, flag, v);
    var r := Placed(slots, p, ss);
    var k :| 0 <= k < |slots| && slots[k] == s;
    if p.Insert? {
      assert r[if k < p.pos then k else k + 1] == s;
    } else {
      assert r[k] == s;
    }
  }

  lemma RegisterKeepsEntry(t: Table, name: Oid, flag: Flag, v: int, ss: Session, n: Oid, s: Slot)
    requires Named(t) && s in GetRow(t, n) && s.taken
    ensures s in GetRow(Register(t, name, flag, v, ss).0, n)
  {
    hide GetRow, OidCompare, FindPlace, RowIndex, Named;
    var i := RowIndex(t, name);
    var t' := Register(t, name, flag, v, ss).0;
    RegisterKeepsNamed(t, name, flag, v, ss);
    if HasRow(t, name) {
      RowNonempty(t, i);
      var r := Placed(t[i].slots, FindPlace(t[i].slots, flag, v), ss);
      assert t' == WithSlots(t, i, r);
      RowAfterUpdate(t, i, r, n);
      GetRowAt(t, i);
      if n == name {
        PlacedKeeps(t[i].slots, flag, v, ss, s);
      }
    } else {
      GetRowNone(t, name);
      RowAfterInsert(t, i, t'[i], n);
    }
  }

  lemma UnregisterKeepsEntry(t: Table, name: Oid, v: int, remember: bool, ss: Session, n: Oid, s: Slot)
    requires Named(t) && s in GetRow(t, n) && (n == name ==> s.session != ss)
    ensures s in GetRow(Unregister(t, name, v, remember, ss).0, n)
  {
    hide GetRow, OidCompare, RowIndex, Named, SlotIndex, TruncInt, RemoveAt;
    var i := RowIndex(t, name);
    var (t', status) := Unregister(t, name, v, remember, ss);
    UnregisterKeepsNamed(t, name, v, remember, ss);
    if status == NoError {
      var slots := t[i].slots;
      var j := SlotIndex(slots, v);
      GetRowAt(t, i);
      if remember {
        RowAfterUpdate(t, i, slots[j := Slot(slots[j].value, false, None)], n);
      } else if |slots| == 1 {
        RowAfterRemove(t, i, n);
      } else {
        RowAfterUpdate(t, i, RemoveAt(slots, j), n);
      }
      if n == name {
        var k :| 0 <= k < |slots| && slots[k] == s;
        if remember {
          assert slots[j := Slot(slots[j].value, false, None)][k] == s;
        } else if |slots| > 1 {
          assert RemoveAt(slots, j)[if k < j then k else k - 1] == s;
        }
      }
    }
  }

  lemma ReleaseKeepsEntry(t: Table, ss: Session, n: Oid, s: Slot)
    requires Named(t) && s in GetRow(t, n) && s.session != ss
    ensures s in GetRow(ReleaseSession(t, ss), n)
  {
    hide GetRow, OidCompare;
    var t' := ReleaseSession(t, ss);
    ReleaseKeepsNamed(t, ss);
    var i :| 0 <= i < |t| && t[i].name == n && t[i].slots == GetRow(t, n);
    GetRowAt(t', i);
    var k :| 0 <= k < |t[i].slots| && t[i].slots[k] == s;
    assert t'[i].slots[k] == s;
  }

  /**
   In every run whatsoever, sorted or not: an allocated entry stays as it is until its own session
   releases something under that OID, or is cleaned up.
   */
  lemma {:induction false} AllocationPersists(t: Table, ops: seq<Op>, name: Oid, s: Slot)
    requires Named(t) && s in GetRow(t, name) && s.taken
    requires forall op :: op in ops ==> !ReleasedBy(op, name, s.session)
    ensures s in GetRow(Run(t, ops), name)
    decreases |ops|
  {
    hide Named, GetRow;
    if ops != [] {
      var op := ops[0];
      assert op in ops;
      match op {
        case Reg(n, flag, v, ss) => RegisterKeepsEntry(t, n, flag, v, ss, name, s);
        case Unreg(n, v, remember, ss) => UnregisterKeepsEntry(t, n, v, remember, ss, name, s);
        case Drop(ss) => ReleaseKeepsEntry(t, ss, name, s);
      }
      ApplyKeepsNamed(t, op);
      AllocationPersists(Apply(t, op), ops[1..], name, s);
    }
  }

  // ----- what the truncation does -----

  /** A new value is filed in front of a smaller one. */
  lemma TruncationUnsortsTable(name: Oid, ss: Session)
    ensures var t := [Row(name, [Slot(-1, true, ss)])];
            Sorted(t) && !Comparable(t, name, 0x7fff_ffff) && !Sorted(Register(t, name, This, 0x7fff_ffff, ss).0)
  {
    var t := [Row(name, [Slot(-1, true, ss)])];
    RowOfOne(name, t[0].slots);
    var v := 0x7fff_ffff;
    assert ReachedAt(t[0].slots, v, 0);
    RegistryStaysSortedIff(t, name, v, ss);
  }

  lemma RowOfOne(name: Oid, slots: seq<Slot>)
    requires slots != []
    ensures var t := [Row(name, slots)];
            RowIndex(t, name) == 0 && HasRow(t, name) && Named(t) && GetRow(t, name) == slots
  {
    OidCompareZero(name, name);
  }

  /** The row that the three requests below leave. */
  function WideRow(ss: Session): seq<Slot> {
    [Slot(-0x8000_0000, true, ss), Slot(0, true, ss), Slot(0x7fff_ffff, true, ss)]
  }

  /** Three requests, all in range, after which the highest value is in use. */
  function WideRequests(name: Oid, ss: Session): seq<Op> {
    [Reg(name, This, 0, ss), Reg(name, This, 0x7fff_ffff, ss), Reg(name, This, -0x8000_0000, ss)]
  }

  lemma FirstRequest(name: Oid, v: int, ss: Session)
    ensures Register([], name, This, v, ss) == ([Row(name, [Slot(v, true, ss)])], Some(v))
    ensures Named([]) && Comparable([], name, v)
  {
    var row := Row(name, [Slot(v, true, ss)]);
    assert InsertAt([], 0, row) == [row];
  }

  lemma NextRequest(name: Oid, slots: seq<Slot>, v: int, ss: Session, j: nat)
    requires slots != [] && SortedSlots(slots) && j <= |slots| && forall k :: 0 <= k < |slots| && k <= j ==> FitsInt(v - slots[k].value)
    requires (forall k :: 0 <= k < j ==> slots[k].value < v) && (j < |slots| ==> v < slots[j].value)
    ensures var t := [Row(name, slots)];
            && Named(t) && Comparable(t, name, v)
            && Register(t, name, This, v, ss).0 == [Row(name, InsertAt(slots, j, Slot(v, true, ss)))]
  {
    hide SlotIndex, TruncInt;
    RowOfOne(name, slots);
    assert ScanFits(slots, v);
    SlotIndexExact(slots, v);
    assert SlotIndex(slots, v) == j;
    if j < |slots| {
      TruncationIsExactIffItFits(v - slots[j].value);
    }
  }

  /**
   A value in use is granted to another session, and the session that has it cannot release it:
   the difference with the lowest value does not fit an int.
   */
  lemma GrantedTwice(name: Oid, ss: Session, other: Session)
    ensures Named([]) && AllInRange([], WideRequests(name, ss))
    ensures var t := Run([], WideRequests(name, ss));
            && t == [Row(name, WideRow(ss))] && Taken(t, name, 0x7fff_ffff)
            && Register(t, name, This, 0x7fff_ffff, other).1 == Some(0x7fff_ffff)
            && Unregister(t, name, 0x7fff_ffff, true, ss) == (t, NotAllocated)
  {
    WideRun(name, ss);
    WideInUse(name, ss);
    hide *;
    var t := [Row(name, WideRow(ss))];
    WrongScanGrants(t, name, 0x7fff_ffff, other);
    WrongScanReleasesNothing(t, name, 0x7fff_ffff, true, ss);
  }

  lemma WideInUse(name: Oid, ss: Session)
    ensures var t := [Row(name, WideRow(ss))];
            && Sorted(t) && Values32(t) && Int32(0x7fff_ffff)
            && Taken(t, name, 0x7fff_ffff) && !Comparable(t, name, 0x7fff_ffff)
  {
    hide GetSlot, GetRow, OidCompare, RowIndex, Comparable;
    var t := [Row(name, WideRow(ss))];
    RowOfOne(name, WideRow(ss));
    GetSlotAt(WideRow(ss), 2);
    InUseComparableIff(t, name, 0x7fff_ffff);
  }

  lemma WideRun(name: Oid, ss: Session)
    ensures Named([]) && AllInRange([], WideRequests(name, ss))
    ensures Run([], WideRequests(name, ss)) == [Row(name, WideRow(ss))]
  {
    hide Comparable, SortedNames, Register;
    var ops := WideRequests(name, ss);
    var one, two := [Slot(0, true, ss)], [Slot(0, true, ss), Slot(0x7fff_ffff, true, ss)];
    var t1, t2, t3 := [Row(name, one)], [Row(name, two)], [Row(name, WideRow(ss))];
    FirstRequest(name, 0, ss);
    NextRequest(name, one, 0x7fff_ffff, ss, 1);
    NextRequest(name, two, -0x8000_0000, ss, 0);
    assert InsertAt(one, 1, Slot(0x7fff_ffff, true, ss)) == two;
    assert InsertAt(two, 0, Slot(-0x8000_0000, true, ss)) == WideRow(ss);
    RowOfOne(name, WideRow(ss));
    assert ops[1..][1..] == [ops[2]] && ops[1..][0] == ops[1] && [ops[2]][1..] == [];
    assert Run(t3, []) == t3 && AllInRange(t3, []);
    assert InRange(t2, ops[2]) && Apply(t2, ops[2]) == t3;
    assert Run(t2, [ops[2]]) == t3 && AllInRange(t2, [ops[2]]);
    assert InRange(t1, ops[1]) && Apply(t1, ops[1]) == t2;
    assert Run(t1, ops[1..]) == t3 && AllInRange(t1, ops[1..]);
  }
}
