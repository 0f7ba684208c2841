/**
 The index registry of agent_index.c as it is linked in memory: a list of OIDs through
 `nextOid`, each heading a chain of indexes through `nextIdx`, where every index of a chain points
 to the head of the next chain.  The heap represents the table of `IndexTable`.
 */
module IndexRegistry {
  import opened Outcomes
  import opened IndexTable

  class Index {
    var name: Oid
    var value: int
    var taken: bool
    var session: Session
    var nextOid: Index?
    var nextIdx: Index?

    constructor (name: Oid, value: int, session: Session)
      ensures this.name == name && AsSlot() == Slot(value, true, session)
    {
      this.name, this.value, this.taken, this.session := name, value, true, session;
      nextOid, nextIdx := null, null;
    }

    function AsSlot(): Slot
      reads this
    {
      Slot(value, taken, session)
    }
  }

  // ----- one chain -----

  ghost function NextIn(row: seq<Index>, j: nat): Index? {
    if j + 1 < |row| then row[j + 1] else null
  }

  ghost predicate NodeOk(row: seq<Index>, j: nat, r: Row, next: Index?)
    requires j < |row| == |r.slots|
    reads row
  {
    && row[j].name == r.name && row[j].AsSlot() == r.slots[j]
    && row[j].nextOid == next && row[j].nextIdx == NextIn(row, j)
  }

  /** The chain holds the row's slots in order, and all of it points to the same next chain. */
  ghost predicate RowOk(row: seq<Index>, r: Row, next: Index?)
    reads row
  {
    && |row| == |r.slots| && row != []
    && forall j :: 0 <= j < |row| ==> NodeOk(row, j, r, next)
  }

  /** Point every index of a chain to another next chain. */
  method Relink(first: Index, target: Index?, ghost row: seq<Index>, ghost r: Row, ghost next: Index?)
    requires RowOk(row, r, next) && first == row[0]
    modifies row
    ensures RowOk(row, r, target)
  {
    var p: Index? := first;
    ghost var n := 0;
    while p != null
      invariant 0 <= n <= |row| && p == if n < |row| then row[n] else null
      invariant forall j :: 0 <= j < |row| ==> old(NodeOk(row, j, r, next))
      invariant forall j :: 0 <= j < |row| ==> row[j].nextIdx == old(row[j].nextIdx)
      invariant forall j :: 0 <= j < |row| ==> row[j].name == old(row[j].name) && row[j].value == old(row[j].value)
      invariant forall j :: 0 <= j < |row| ==> row[j].taken == old(row[j].taken) && row[j].session == old(row[j].session)
      invariant forall j :: 0 <= j < n ==> row[j].nextOid == target
      decreases |row| - n
    {
      assert old(NodeOk(row, n, r, next));
      p.nextOid := target;
      p := p.nextIdx;
      n := n + 1;
    }
    forall j | 0 <= j < |row| ensures NodeOk(row, j, r, target) {
      assert old(NodeOk(row, j, r, next));
    }
  }

  /** A chain that ends has no index twice: what follows a repeated index would be repeated too. */
  lemma {:induction false} NoRepeat(row: seq<Index>, r: Row, next: Index?, a: nat, b: nat)
    requires RowOk(row, r, next) && a < b < |row|
    ensures row[a] != row[b]
    decreases |row| - b
  {
    assert NodeOk(row, a, r, next) && NodeOk(row, b, r, next);
    if b + 1 < |row| {
      NoRepeat(row, r, next, a + 1, b + 1);
    }
  }

  lemma DistinctInRow(row: seq<Index>, r: Row, next: Index?, j: nat)
    requires RowOk(row, r, next) && j < |row|
    ensures forall k :: 0 <= k < |row| && k != j ==> row[k] != row[j]
  {
    forall k | 0 <= k < |row| && k != j ensures row[k] != row[j] {
      if k < j { NoRepeat(row, r, next, k, j); } else { NoRepeat(row, r, next, j, k); }
    }
  }

  ghost predicate Apart(a: seq<Index>, b: seq<Index>) {
    forall x :: x in a ==> x !in b
  }

  lemma RowNames(row: seq<Index>, r: Row, next: Index?)
    requires RowOk(row, r, next)
    ensures forall x :: x in row ==> x.name == r.name
  {
    forall x | x in row ensures x.name == r.name {
      var j :| 0 <= j < |row| && row[j] == x;
      assert NodeOk(row, j, r, next);
    }
  }

  lemma DisjointRows(row: seq<Index>, r: Row, next: Index?, row': seq<Index>, r': Row, next': Index?)
    requires RowOk(row, r, next) && RowOk(row', r', next') && r.name != r'.name
    ensures Apart(row, row')
  {
    RowNames(row, r, next);
    RowNames(row', r', next');
  }

  /** Link a new index behind `prev`. */
  method LinkAfter(prev: Index, n: Index, ghost j: nat, ghost row: seq<Index>, ghost r: Row, ghost next: Index?)
    requires RowOk(row, r, next) && j < |row| && prev == row[j]
    requires n !in row && n.name == r.name
    modifies prev`nextIdx, n`nextIdx, n`nextOid
    ensures RowOk(InsertAt(row, j + 1, n), Row(r.name, InsertAt(r.slots, j + 1, n.AsSlot())), next)
  {
    DistinctInRow(row, r, next, j);
    assert NodeOk(row, j, r, next);
    n.nextIdx := prev.nextIdx;
    n.nextOid := prev.nextOid;
    prev.nextIdx := n;
    ghost var row' := InsertAt(row, j + 1, n);
    ghost var r' := Row(r.name, InsertAt(r.slots, j + 1, n.AsSlot()));
    forall k | 0 <= k < |row'| ensures NodeOk(row', k, r', next) {
      if k <= j {
        assert old(NodeOk(row, k, r, next));
      } else if k > j + 1 {
        assert old(NodeOk(row, k - 1, r, next));
      }
    }
  }

  /** Link a new index in front of a chain. */
  method LinkFirst(first: Index, n: Index, ghost row: seq<Index>, ghost r: Row, ghost next: Index?)
    requires RowOk(row, r, next) && first == row[0]
    requires n !in row && n.name == r.name
    modifies n`nextIdx, n`nextOid
    ensures RowOk(InsertAt(row, 0, n), Row(r.name, InsertAt(r.slots, 0, n.AsSlot())), next)
  {
    assert NodeOk(row, 0, r, next);
    n.nextIdx := first;
    n.nextOid := first.nextOid;
    ghost var row' := InsertAt(row, 0, n);
    ghost var r' := Row(r.name, InsertAt(r.slots, 0, n.AsSlot()));
    forall k | 0 <= k < |row'| ensures NodeOk(row', k, r', next) {
      if k > 0 {
        assert old(NodeOk(row, k - 1, r, next));
      }
    }
  }

  /** A new index as a chain of its own. */
  method LinkAlone(n: Index, next: Index?)
    modifies n`nextIdx, n`nextOid
    ensures RowOk([n], Row(n.name, [n.AsSlot()]), next)
  {
    n.nextIdx := null;
    n.nextOid := next;
    assert NodeOk([n], 0, Row(n.name, [n.AsSlot()]), next);
  }

  /** Take the index behind `prev` out of its chain. */
  method UnlinkAfter(prev: Index, x: Index, ghost j: nat, ghost row: seq<Index>, ghost r: Row, ghost next: Index?)
    requires RowOk(row, r, next) && 0 < j < |row| && prev == row[j - 1] && x == row[j]
    modifies prev`nextIdx
    ensures RowOk(RemoveAt(row, j), Row(r.name, RemoveAt(r.slots, j)), next)
  {
    DistinctInRow(row, r, next, j - 1);
    assert NodeOk(row, j, r, next);
    prev.nextIdx := x.nextIdx;
    ghost var row' := RemoveAt(row, j);
    ghost var r' := Row(r.name, RemoveAt(r.slots, j));
    forall k | 0 <= k < |row'| ensures NodeOk(row', k, r', next) {
      assert old(NodeOk(row, if k < j then k else k + 1, r, next));
    }
  }

  /** Change the allocation of one index. */
  method Mark(x: Index, taken: bool, session: Session, ghost j: nat, ghost row: seq<Index>, ghost r: Row, ghost next: Index?)
    requires RowOk(row, r, next) && j < |row| && x == row[j]
    modifies x`taken, x`session
    ensures RowOk(row, Row(r.name, r.slots[j := Slot(r.slots[j].value, taken, session)]), next)
  {
    DistinctInRow(row, r, next, j);
    assert NodeOk(row, j, r, next);
    x.taken := taken;
    x.session := session;
    ghost var r' := Row(r.name, r.slots[j := Slot(r.slots[j].value, taken, session)]);
    forall k | 0 <= k < |row| ensures NodeOk(row, k, r', next) {
      assert old(NodeOk(row, k, r, next));
    }
  }

  lemma DropFirst(row: seq<Index>, r: Row, next: Index?)
    requires RowOk(row, r, next) && |row| > 1
    ensures RowOk(row[1..], Row(r.name, r.slots[1..]), next)
  {
    forall k | 0 <= k < |row[1..]| ensures NodeOk(row[1..], k, Row(r.name, r.slots[1..]), next) {
      assert NodeOk(row, k + 1, r, next);
    }
  }

  /** Look for a value in a chain. */
  method FindValue(idx: Index, v: int, ghost row: seq<Index>, ghost r: Row, ghost next: Index?)
    returns (prev: Index?, x: Index?, res2: int, ghost j: nat)
    requires RowOk(row, r, next) && idx == row[0]
    ensures j == SlotIndex(r.slots, v) <= |row|
    ensures x == if j < |row| then row[j] else null
    ensures prev == if j == 0 then null else row[j - 1]
    ensures res2 == 0 <==> j < |row| && TruncInt(v - r.slots[j].value) == 0
    ensures x == null ==> res2 != 0
  {
    hide TruncInt, SlotIndex;
    prev, x, res2, j := null, idx, 1, 0;
    while x != null
      invariant j <= |row| && res2 > 0
      invariant x == if j < |row| then row[j] else null
      invariant prev == if j == 0 then null else row[j - 1]
      invariant forall k :: 0 <= k < j ==> TruncInt(v - r.slots[k].value) > 0
      decreases |row| - j
    {
      assert NodeOk(row, j, r, next);
      res2 := TruncInt(v - x.value);
      if res2 <= 0 {
        return;
      }
      prev, x, j := x, x.nextIdx, j + 1;
    }
  }

  /** Look for a released index in a chain, or its end. */
  method FindFree(idx: Index, reuse: bool, ghost row: seq<Index>, ghost r: Row, ghost next: Index?)
    returns (prev: Index?, x: Index?, ghost j: nat)
    requires RowOk(row, r, next) && idx == row[0]
    ensures var k := if reuse then FirstFree(r.slots) else |row|;
            && j == k <= |row|
            && x == (if k < |row| then row[k] else null)
            && prev == if k == 0 then null else row[k - 1]
  {
    hide FirstFree;
    prev, x, j := null, idx, 0;
    while x != null
      invariant j <= |row|
      invariant x == if j < |row| then row[j] else null
      invariant prev == if j == 0 then null else row[j - 1]
      invariant reuse ==> forall k :: 0 <= k < j ==> r.slots[k].taken
      decreases |row| - j
    {
      assert NodeOk(row, j, r, next);
      if reuse && !x.taken {
        return;
      }
      prev, x, j := x, x.nextIdx, j + 1;
    }
  }

  /** Search a chain for what a request may claim, or for where a new index goes. */
  method FindPlaceInRow(idx: Index, flag: Flag, v: int, ghost row: seq<Index>, ghost r: Row, ghost next: Index?)
    returns (refused: bool, prev: Index?, x: Index?, value: int)
    requires RowOk(row, r, next) && idx == row[0]
    ensures var p := FindPlace(r.slots, flag, v);
            && refused == p.Refused?
            && (p.Claim? ==> x == row[p.at] && value == r.slots[p.at].value)
            && (p.Insert? ==> x == null && value == p.value && prev == if p.pos == 0 then null else row[p.pos - 1])
  {
    hide SlotIndex, FirstFree, TruncInt;
    ghost var j;
    refused, value := false, 0;
    if flag == This {
      var res2;
      prev, x, res2, j := FindValue(idx, v, row, r, next);
      value := v;
      if res2 == 0 {
        assert NodeOk(row, j, r, next);
        refused, value := x.taken, x.value;
      } else {
        x := null;
      }
    } else {
      prev, x, j := FindFree(idx, flag == Any, row, r, next);
      if x != null {
        assert NodeOk(row, j, r, next);
        value := x.value;
      } else {
        assert NodeOk(row, j - 1, r, next);
        value := prev.value + 1;
      }
    }
  }

  /** Free every index of a chain that belongs to a session. */
  method ReleaseRow(first: Index, ss: Session, ghost row: seq<Index>, ghost r: Row, ghost next: Index?)
    requires RowOk(row, r, next) && first == row[0]
    modifies row
    ensures RowOk(row, Row(r.name, ReleaseSlots(r.slots, ss)), next)
  {
    var x: Index? := first;
    ghost var n := 0;
    ghost var cur := r;
    while x != null
      invariant n <= |row| && x == (if n < |row| then row[n] else null)
      invariant RowOk(row, cur, next) && cur.name == r.name
      invariant forall j :: 0 <= j < |row| ==> cur.slots[j] == if j < n then Release(r.slots[j], ss) else r.slots[j]
      decreases |row| - n
    {
      assert NodeOk(row, n, cur, next);
      if x.session == ss {
        Mark(x, false, None, n, row, cur, next);
        cur := Row(cur.name, cur.slots[n := Slot(cur.slots[n].value, false, None)]);
        assert NodeOk(row, n, cur, next);
      }
      x := x.nextIdx;
      n := n + 1;
    }
    assert cur.slots == ReleaseSlots(r.slots, ss);
  }

  /** Count the indexes of a chain, those in use or all of them. */
  method CountRow(first: Index, all: bool, ghost row: seq<Index>, ghost r: Row, ghost next: Index?) returns (n: nat)
    requires RowOk(row, r, next) && first == row[0]
    ensures n == CountSlots(r.slots, all)
  {
    var x: Index? := first;
    ghost var j := 0;
    n := 0;
    while x != null
      invariant j <= |row| && x == (if j < |row| then row[j] else null)
      invariant n + CountSlots(r.slots[j..], all) == CountSlots(r.slots, all)
      decreases |row| - j
    {
      assert NodeOk(row, j, r, next);
      assert r.slots[j..][1..] == r.slots[j + 1..];
      if x.taken || all {
        n := n + 1;
      }
      x := x.nextIdx;
      j := j + 1;
    }
  }

  // ----- the whole registry -----

  ghost function First(rows: seq<seq<Index>>, i: nat): Index? {
    if i < |rows| && rows[i] != [] then rows[i][0] else null
  }

  class Registry {
    var head: Index?
    ghost var rows: seq<seq<Index>>
    ghost var table: Table
    ghost var repr: set<Index>

    ghost predicate Shaped()
      reads this
    {
      && |rows| == |table| && Named(table)
      && Covers(repr, rows)
    }

    ghost predicate Valid()
      reads this, repr
    {
      && Shaped()
      && head == First(rows, 0)
      && forall i :: 0 <= i < |rows| ==> RowOk(rows[i], table[i], First(rows, i + 1))
    }

    constructor ()
      ensures Valid() && table == [] && fresh(repr)
    {
      head, rows, table, repr := null, [], [], {};
    }

    lemma OtherRowsApart(i: nat, next: Index?)
      requires Shaped() && i < |rows| && RowOk(rows[i], table[i], next)
      requires forall k :: 0 <= k < |rows| && k != i ==> RowOk(rows[k], table[k], First(rows, k + 1))
      ensures forall k :: 0 <= k < |rows| && k != i ==> Apart(rows[k], rows[i])
    {
      hide OidCompare;
      forall k | 0 <= k < |rows| && k != i ensures Apart(rows[k], rows[i]) {
        if table[k].name == table[i].name {
          NamesDiffer(table, k, i);
        }
        DisjointRows(rows[k], table[k], First(rows, k + 1), rows[i], table[i], next);
      }
    }

    /** Make the chain before row `i`, or the head of the list, point to row `i`. */
    method Repoint(prevOid: Index?, target: Index?, ghost i: nat, ghost next: Index?)
      requires Shaped() && i <= |rows| && target == First(rows, i)
      requires forall k :: 0 <= k < |rows| && k + 1 != i ==> RowOk(rows[k], table[k], First(rows, k + 1))
      requires if i == 0 then prevOid == null
               else RowOk(rows[i - 1], table[i - 1], next) && prevOid == rows[i - 1][0] && head == First(rows, 0)
      modifies `head, repr
      ensures Valid()
    {
      if prevOid != null {
        hide Named;
        ghost var rs, t, p := rows, table, i - 1;
        OtherRowsApart(p, next);
        Relink(prevOid, target, rs[p], t[p], next);
        forall k | 0 <= k < |rs| ensures RowOk(rs[k], t[k], First(rs, k + 1)) {
          if k != p {
            assert Apart(rs[k], rs[p]);
            ghost var row, after := rs[k], First(rs, k + 1);
            forall j | 0 <= j < |row| ensures NodeOk(row, j, t[k], after) {
              assert row[j] in row && old(NodeOk(row, j, t[k], after));
            }
          }
        }
      } else {
        head := target;
      }
    }

    /** `n` has just been allocated and is not linked anywhere. */
    lemma NewIsApart(n: Index)
      requires Shaped() && n !in repr
      ensures forall k :: 0 <= k < |rows| ==> n !in rows[k]
    {
    }

    /** Row `i` with `n` linked in at position `j`; the other rows are as they were. */
    ghost predicate LinkedIn(i: nat, j: nat, n: Index)
      requires |rows| == |table| && i < |rows| && j <= |rows[i]| == |table[i].slots|
      reads this, repr, n
    {
      && Covers(repr, rows)
      && (forall k :: 0 <= k < |rows| && k != i ==> RowOk(rows[k], table[k], First(rows, k + 1)))
      && (forall x :: x in InsertAt(rows[i], j, n) ==> x in repr || x == n)
      && RowOk(InsertAt(rows[i], j, n), Row(table[i].name, InsertAt(table[i].slots, j, n.AsSlot())), First(rows, i + 1))
    }

    method LinkBehind(prev: Index, n: Index, ghost i: nat, ghost j: nat)
      requires Valid() && i < |rows| && j < |rows[i]| == |table[i].slots| && prev == rows[i][j]
      requires n !in repr && n.name == table[i].name
      modifies prev`nextIdx, n`nextIdx, n`nextOid
      ensures LinkedIn(i, j + 1, n)
    {
      hide Named, RowOk, InsertAt;
      ghost var rs: seq<seq<Index>>, t: Table, next := rows, table, First(rows, i + 1);
      OtherRowsApart(i, next);
      NewIsApart(n);
      assert prev in rs[i];
      LinkAfter(prev, n, j, rs[i], t[i], next);
      MembersOfInsert(rs[i], j + 1, n);
      forall k | 0 <= k < |rs| && k != i ensures RowOk(rs[k], t[k], First(rs, k + 1)) {
        assert Apart(rs[k], rs[i]);
        assert old(RowOk(rs[k], t[k], First(rs, k + 1)));
      }
    }

    method LinkInFront(first: Index, n: Index, ghost i: nat)
      requires Valid() && i < |rows| && rows[i] != [] && first == rows[i][0] && |rows[i]| == |table[i].slots|
      requires n !in repr && n.name == table[i].name
      modifies n`nextIdx, n`nextOid
      ensures LinkedIn(i, 0, n)
    {
      hide Named, RowOk, InsertAt;
      ghost var rs: seq<seq<Index>>, t: Table, next := rows, table, First(rows, i + 1);
      NewIsApart(n);
      LinkFirst(first, n, rs[i], t[i], next);
      MembersOfInsert(rs[i], 0, n);
      forall k | 0 <= k < |rs| && k != i ensures RowOk(rs[k], t[k], First(rs, k + 1)) {
        assert old(RowOk(rs[k], t[k], First(rs, k + 1)));
      }
    }

    /** Link `n` behind position `j` of row `i`. */
    method InsertBehind(prev: Index, n: Index, ghost i: nat, ghost j: nat)
      requires Valid() && i < |rows| && j < |rows[i]| == |table[i].slots| && prev == rows[i][j]
      requires n !in repr && n.name == table[i].name
      requires Named(WithSlots(table, i, InsertAt(table[i].slots, j + 1, n.AsSlot())))
      modifies this, repr, n
      ensures Valid() && repr == old(repr) + {n} && n.AsSlot() == old(n.AsSlot())
      ensures table == WithSlots(old(table), i, InsertAt(old(table)[i].slots, j + 1, n.AsSlot()))
    {
      hide Named, RowOk, InsertAt, First;
      LinkBehind(prev, n, i, j);
      ghost var row, r := InsertAt(rows[i], j + 1, n), Row(table[i].name, InsertAt(table[i].slots, j + 1, n.AsSlot()));
      RowsAfterSameHead(rows, table, repr + {n}, i, row, r);
      rows, table, repr := rows[i := row], table[i := r], repr + {n};
    }

    /** Link `n` as the new first index of row `i`. */
    method InsertFront(prevOid: Index?, first: Index, n: Index, ghost i: nat)
      requires Valid() && i < |rows| && rows[i] != [] && first == rows[i][0] && |rows[i]| == |table[i].slots|
      requires 0 < i ==> rows[i - 1] != []
      requires prevOid == if i == 0 then null else rows[i - 1][0]
      requires n !in repr && n.name == table[i].name
      requires Named(WithSlots(table, i, InsertAt(table[i].slots, 0, n.AsSlot())))
      modifies this, repr, n
      ensures Valid() && repr == old(repr) + {n} && n.AsSlot() == old(n.AsSlot())
      ensures table == WithSlots(old(table), i, InsertAt(old(table)[i].slots, 0, n.AsSlot()))
    {
      hide Named, RowOk, InsertAt, First;
      ghost var next := First(rows, i);
      LinkInFront(first, n, i);
      ghost var row, r := InsertAt(rows[i], 0, n), Row(table[i].name, InsertAt(table[i].slots, 0, n.AsSlot()));
      RowsAfterReplace(rows, table, repr + {n}, i, row, r);
      rows, table, repr := rows[i := row], table[i := r], repr + {n};
      Repoint(prevOid, n, i, next);
      NodeAt(i, 0);
    }

    /** Link `n` as a chain of its own at row `i`. */
    method InsertRow(prevOid: Index?, idx: Index?, n: Index, ghost i: nat)
      requires Valid() && i <= |rows| && idx == First(rows, i)
      requires prevOid == if i == 0 then null else rows[i - 1][0]
      requires n !in repr
      requires Named(InsertAt(table, i, Row(n.name, [n.AsSlot()])))
      modifies this, repr, n
      ensures Valid() && repr == old(repr) + {n}
      ensures n.name == old(n.name) && n.AsSlot() == old(n.AsSlot())
      ensures table == InsertAt(old(table), i, Row(n.name, [n.AsSlot()]))
    {
      hide Named, RowOk;
      ghost var rs, t := rows, table;
      NewIsApart(n);
      LinkAlone(n, idx);
      ghost var r := Row(n.name, [n.AsSlot()]);
      forall k | 0 <= k < |rs| ensures RowOk(rs[k], t[k], First(rs, k + 1)) {
        assert old(RowOk(rs[k], t[k], First(rs, k + 1)));
      }
      hide InsertAt, First;
      rows := InsertAt(rs, i, [n]);
      table := InsertAt(t, i, r);
      repr := repr + {n};
      RowsAfterInsert(rs, t, repr, i, [n], r);
      Repoint(prevOid, n, i, First(rs, i));
      NodeAt(i, 0);
    }

    /** Take position `j` of row `i` out of the registry. */
    method RemoveIndex(prevOid: Index?, prev: Index?, x: Index, ghost i: nat, ghost j: nat)
      requires Valid() && i < |rows| && j < |rows[i]| && x == rows[i][j]
      requires prevOid == if i == 0 then null else rows[i - 1][0]
      requires prev == if j == 0 then null else rows[i][j - 1]
      modifies this, repr
      ensures Valid() && repr == old(repr) && j < |old(table)[i].slots|
      ensures table == Without(old(table), i, j)
    {
      ghost var rs, t := rows, table;
      assert RowOk(rs[i], t[i], First(rs, i + 1)) && NodeOk(rs[i], j, t[i], First(rs, i + 1));
      if prev != null {
        RemoveBehind(prev, x, i, j);
      } else {
        var target := if x.nextIdx != null then x.nextIdx else x.nextOid;
        RemoveFront(prevOid, target, i);
      }
    }

    lemma SameLength(i: nat)
      requires Valid() && i < |rows|
      ensures 0 < |rows[i]| == |table[i].slots|
    {
    }

    method RemoveBehind(prev: Index, x: Index, ghost i: nat, ghost j: nat)
      requires Valid() && i < |rows| && 0 < j < |rows[i]| && x == rows[i][j] && prev == rows[i][j - 1]
      modifies this, repr
      ensures Valid() && repr == old(repr) && 1 < |old(table)[i].slots| && j < |old(table)[i].slots|
      ensures table == Without(old(table), i, j)
    {
      hide Named, RowOk, InsertAt, RemoveAt;
      SameLength(i);
      WithoutNamed(table, i, j);
      ghost var rs: seq<seq<Index>>, t: Table, next := rows, table, First(rows, i + 1);
      NodeAt(i, j);
      OtherRowsApart(i, next);
      assert prev in rs[i];
      UnlinkAfter(prev, x, j, rs[i], t[i], next);
      forall k | 0 <= k < |rs| && k != i ensures RowOk(rs[k], t[k], First(rs, k + 1)) {
        assert Apart(rs[k], rs[i]);
        assert old(RowOk(rs[k], t[k], First(rs, k + 1)));
      }
      ghost var row, r := RemoveAt(rs[i], j), Row(t[i].name, RemoveAt(t[i].slots, j));
      rows, table := rs[i := row], t[i := r];
      MembersOfRemove(rs[i], j);
      RowsAfterSameHead(rs, t, repr, i, row, r);
    }

    method RemoveFront(prevOid: Index?, target: Index?, ghost i: nat)
      requires Valid() && i < |rows|
      requires prevOid == if i == 0 then null else rows[i - 1][0]
      requires target == if |rows[i]| > 1 then rows[i][1] else First(rows, i + 1)
      modifies this, repr
      ensures Valid() && repr == old(repr) && 0 < |old(table)[i].slots|
      ensures table == Without(old(table), i, 0)
    {
      hide Named;
      SameLength(i);
      WithoutNamed(table, i, 0);
      ghost var rs, t := rows, table;
      assert i > 0 ==> RowOk(rs[i - 1], t[i - 1], First(rs, i)) && rs[i - 1][0] in rs[i - 1];
      assert RowOk(rs[i], t[i], First(rs, i + 1));
      if |rs[i]| > 1 {
        DropFirst(rs[i], t[i], First(rs, i + 1));
      }
      hide RowOk;
      if |rs[i]| > 1 {
        rows := rs[i := rs[i][1..]];
        table := WithSlots(t, i, RemoveAt(t[i].slots, 0));
        assert RemoveAt(t[i].slots, 0) == t[i].slots[1..];
        assert forall y :: y in rows[i] ==> y in rs[i];
        assert forall k :: 0 <= k <= |rs| && k != i ==> First(rows, k) == First(rs, k);
      } else {
        rows := RemoveAt(rs, i);
        table := RemoveAt(t, i);
        RowsAfterRemove(rs, t, repr, i);
      }
      Repoint(prevOid, target, i, First(rs, i));
    }

    /** Overwrite the allocation of position `j` of row `i`. */
    method MarkIndex(x: Index, taken: bool, session: Session, ghost i: nat, ghost j: nat)
      requires Valid() && i < |rows| && j < |rows[i]| && x == rows[i][j]
      requires Named(WithSlots(table, i, table[i].slots[j := Slot(table[i].slots[j].value, taken, session)]))
      modifies `table, repr
      ensures Valid()
      ensures table == WithSlots(old(table), i, old(table)[i].slots[j := Slot(old(table)[i].slots[j].value, taken, session)])
    {
      hide Named, RowOk, InsertAt, RemoveAt;
      ghost var rs: seq<seq<Index>>, t: Table, next := rows, table, First(rows, i + 1);
      NodeAt(i, j);
      OtherRowsApart(i, next);
      assert x in rs[i];
      Mark(x, taken, session, j, rs[i], t[i], next);
      forall k | 0 <= k < |rs| && k != i ensures RowOk(rs[k], t[k], First(rs, k + 1)) {
        assert Apart(rs[k], rs[i]);
        assert old(RowOk(rs[k], t[k], First(rs, k + 1)));
      }
      table := WithSlots(t, i, t[i].slots[j := Slot(t[i].slots[j].value, taken, session)]);
    }

    // ----- the scans -----

    lemma NodeAt(i: nat, j: nat)
      requires Valid() && i < |rows| && j < |rows[i]|
      ensures |rows[i]| == |table[i].slots| && rows[i] != []
      ensures NodeOk(rows[i], j, table[i], First(rows, i + 1))
    {
    }

    /** Look for the OID: the first chain that is not before it, and the chain in front of that. */
    method FindOid(name: Oid) returns (prevOid: Index?, idx: Index?, res: int, ghost i: nat)
      requires Valid()
      ensures i == RowIndex(table, name) && idx == First(rows, i)
      ensures 0 < i ==> rows[i - 1] != []
      ensures prevOid == if i == 0 then null else rows[i - 1][0]
      ensures res == 0 && idx != null <==> HasRow(table, name)
      ensures HasRow(table, name) ==> i < |rows| && rows[i] != [] && idx == rows[i][0]
    {
      hide Named, OidCompare, RowIndex, RowOk;
      if 0 < |rows| {
        NodeNonempty(0);
      }
      prevOid, idx, res, i := null, head, 1, 0;
      while idx != null
        invariant i <= |rows| && idx == First(rows, i) && res > 0
        invariant 0 < i ==> rows[i - 1] != []
        invariant prevOid == if i == 0 then null else rows[i - 1][0]
        invariant forall k :: 0 <= k < i ==> OidCompare(name, table[k].name) > 0
        decreases |rows| - i
      {
        NodeAt(i, 0);
        res := OidCompare(name, idx.name);
        if res <= 0 {
          OidCompareZero(name, idx.name);
          return;
        }
        if i + 1 < |rows| {
          NodeNonempty(i + 1);
        }
        prevOid, idx, i := idx, idx.nextOid, i + 1;
      }
      if i < |rows| {
        NodeNonempty(i);
      }
    }

    lemma NodeNonempty(i: nat)
      requires Valid() && i < |rows|
      ensures rows[i] != [] && First(rows, i) == rows[i][0]
    {
    }

    // ----- the operations -----

    /** Link a new index between `prev` and what follows it, as position `j` of row `i`. */
    method LinkNew(prevOid: Index?, prev: Index?, idx: Index, n: Index, ghost i: nat, ghost j: nat)
      requires Valid() && i < |rows| && rows[i] != [] && idx == rows[i][0] && j <= |rows[i]| == |table[i].slots|
      requires 0 < i ==> rows[i - 1] != []
      requires prevOid == if i == 0 then null else rows[i - 1][0]
      requires prev == if j == 0 then null else rows[i][j - 1]
      requires n !in repr && n.name == table[i].name
      requires Named(WithSlots(table, i, InsertAt(table[i].slots, j, n.AsSlot())))
      modifies this, repr, n
      ensures Valid() && repr == old(repr) + {n} && n.AsSlot() == old(n.AsSlot())
      ensures table == WithSlots(old(table), i, InsertAt(old(table)[i].slots, j, n.AsSlot()))
    {
      hide Named, RowOk;
      if prev != null {
        InsertBehind(prev, n, i, j - 1);
      } else {
        InsertFront(prevOid, idx, n, i);
      }
    }

    /** `register_index`, for an OID that has a row. */
    method RegisterInRow(prevOid: Index?, idx: Index, flag: Flag, v: int, ss: Session, ghost i: nat, ghost name: Oid)
      returns (rv: Option<int>)
      requires Valid() && HasRow(table, name) && i == RowIndex(table, name)
      requires i < |rows| && rows[i] != [] && idx == rows[i][0]
      requires 0 < i ==> rows[i - 1] != []
      requires prevOid == if i == 0 then null else rows[i - 1][0]
      modifies this, repr
      ensures Valid() && fresh(repr - old(repr))
      ensures (table, rv) == Register(old(table), name, flag, v, ss)
    {
      hide Named, OidCompare, RowOk, RowIndex, FindPlace, HasRow, InsertAt, Covers, First;
      RegisterKeepsNamed(table, name, flag, v, ss);
      NodeAt(i, 0);
      SameLength(i);
      var refused, prev, x, value := FindPlaceInRow(idx, flag, v, rows[i], table[i], First(rows, i + 1));
      ghost var place := FindPlace(table[i].slots, flag, v);
      if refused {
        return None;
      }
      rv := Some(value);
      if x != null {
        MarkIndex(x, true, ss, i, place.at);
      } else {
        var n := new Index(idx.name, value, ss);
        LinkNew(prevOid, prev, idx, n, i, place.pos);
      }
    }

    /** `register_index`. */
    method RegisterIndex(name: Oid, flag: Flag, v: int, ss: Session) returns (rv: Option<int>)
      requires Valid()
      modifies this, repr
      ensures Valid() && fresh(repr - old(repr))
      ensures (table, rv) == Register(old(table), name, flag, v, ss)
      ensures old(Sorted(table) && (flag == This ==> Comparable(table, name, v))) ==> Sorted(table)
    {
      hide Named, Sorted, Comparable, OidCompare, RowOk, RowIndex, FindPlace, InsertAt;
      if Sorted(table) && (flag == This ==> Comparable(table, name, v)) {
        RegisterKeepsSorted(table, name, flag, v, ss);
      }
      var prevOid, idx, res;
      ghost var i;
      prevOid, idx, res, i := FindOid(name);
      if res == 0 && idx != null {
        rv := RegisterInRow(prevOid, idx, flag, v, ss, i, name);
      } else {
        RegisterKeepsNamed(table, name, flag, v, ss);
        var value := if flag == This then v else 1;
        var n := new Index(name, value, ss);
        rv := Some(value);
        InsertRow(prevOid, idx, n, i);
      }
    }

    /** `unregister_index`. */
    method UnregisterIndex(name: Oid, v: int, remember: bool, ss: Session) returns (status: Status)
      requires Valid()
      modifies this, repr
      ensures Valid() && repr == old(repr)
      ensures (table, status) == Unregister(old(table), name, v, remember, ss)
      ensures old(Sorted(table)) ==> Sorted(table)
    {
      hide Named, Sorted, OidCompare, RowOk, RowIndex, SlotIndex, TruncInt, RemoveAt;
      var prevOid, idx, res;
      ghost var i;
      prevOid, idx, res, i := FindOid(name);
      UnregisterKeepsNamed(table, name, v, remember, ss);
      if Sorted(table) {
        UnregisterKeepsSorted(table, name, v, remember, ss);
      }
      if res != 0 || idx == null {
        return NotAllocated;
      }
      var prev, x, res2;
      ghost var j;
      NodeAt(i, 0);
      prev, x, res2, j := FindValue(idx, v, rows[i], table[i], First(rows, i + 1));
      if x != null {
        NodeAt(i, j);
      }
      if res2 != 0 || !x.taken {
        return NotAllocated;
      }
      if ss != x.session {
        return WrongSession;
      }
      status := NoError;
      if remember {
        MarkIndex(x, false, None, i, j);
      } else {
        RemoveIndex(prevOid, prev, x, i, j);
      }
    }

    /** `unregister_index_by_session`. */
    method UnregisterSession(ss: Session)
      requires Valid()
      modifies `table, repr
      ensures Valid() && table == ReleaseSession(old(table), ss)
      ensures old(Sorted(table)) ==> Sorted(table)
    {
      hide Named, Sorted, RowOk;
      var idx := head;
      ghost var i := 0;
      ghost var t := table;
      if Sorted(table) {
        ReleaseKeepsSorted(table, ss);
      }
      if 0 < |rows| {
        NodeNonempty(0);
      }
      while idx != null
        invariant Valid() && i <= |rows| && idx == First(rows, i) && |table| == |t|
        invariant i < |rows| ==> rows[i] != []
        invariant forall k :: 0 <= k < |t| ==> table[k] == if k < i then Row(t[k].name, ReleaseSlots(t[k].slots, ss)) else t[k]
        decreases |rows| - i
      {
        ReleaseOneRow(idx, ss, i);
        NodeAt(i, 0);
        if i + 1 < |rows| {
          NodeNonempty(i + 1);
        }
        idx := idx.nextOid;
        i := i + 1;
      }
      assert i == |rows|;
      assert table == ReleaseSession(t, ss);
    }

    method ReleaseOneRow(first: Index, ss: Session, ghost i: nat)
      requires Valid() && i < |rows| && rows[i] != [] && first == rows[i][0]
      modifies `table, repr
      ensures Valid() && table == WithSlots(old(table), i, ReleaseSlots(old(table)[i].slots, ss))
    {
      hide Named;
      ghost var rs: seq<seq<Index>>, t: Table, next := rows, table, First(rows, i + 1);
      OtherRowsApart(i, next);
      ReleaseRow(first, ss, rs[i], t[i], next);
      forall k | 0 <= k < |rs| && k != i ensures RowOk(rs[k], t[k], First(rs, k + 1)) {
        assert Apart(rs[k], rs[i]);
        ghost var row, after := rs[k], First(rs, k + 1);
        forall j | 0 <= j < |row| ensures NodeOk(row, j, t[k], after) {
          assert row[j] in row && old(NodeOk(row, j, t[k], after));
        }
      }
      table := WithSlots(t, i, ReleaseSlots(t[i].slots, ss));
      ReleasedRowNamed(t, i, ss);
    }

    /** `count_indexes`: every chain is visited, and those of the OID are counted. */
    method CountIndexes(name: Oid, all: bool) returns (n: nat)
      requires Valid()
      ensures n == CountSlots(GetRow(table, name), all)
    {
      hide Named, OidCompare, RowOk, NodeOk, GetRow, CountSlots, Covers, CountBefore, First;
      var i := head;
      ghost var k := 0;
      n := 0;
      CountBeforeAll(table, name, all);
      NoRow();
      while i != null
        invariant k <= |rows| && i == First(rows, k)
        invariant n == CountBefore(table, k, name, all)
        decreases |rows| - k
      {
        HeadOfRow(k);
        CountOneMore(table, k, name, all);
        OidCompareZero(name, i.name);
        if OidCompare(name, i.name) == 0 {
          var m := CountRow(i, all, rows[k], table[k], First(rows, k + 1));
          n := n + m;
        }
        i := i.nextOid;
        k := k + 1;
      }
    }

    lemma NoRow()
      requires Valid()
      ensures forall k :: 0 <= k <= |rows| ==> (First(rows, k) == null <==> k == |rows|)
    {
    }

    lemma HeadOfRow(k: nat)
      requires Valid() && k < |rows|
      ensures rows[k] != [] && RowOk(rows[k], table[k], First(rows, k + 1))
      ensures First(rows, k) == rows[k][0] && rows[k][0] in repr
      ensures rows[k][0].name == table[k].name && rows[k][0].nextOid == First(rows, k + 1)
    {
      NodeAt(k, 0);
    }
  }

  lemma CountOneMore(t: Table, k: nat, name: Oid, all: bool)
    requires k < |t|
    ensures CountBefore(t, k + 1, name, all)
         == CountBefore(t, k, name, all) + if t[k].name == name then CountSlots(t[k].slots, all) else 0
  {
  }

  lemma ReleasedRowNamed(t: Table, i: nat, ss: Session)
    requires Named(t) && i < |t|
    ensures Named(WithSlots(t, i, ReleaseSlots(t[i].slots, ss)))
  {
    hide OidCompare;
  }

  /** What the first `k` rows contribute to the count for an OID. */
  ghost function CountBefore(t: Table, k: nat, name: Oid, all: bool): nat
    requires k <= |t|
  {
    if k == 0 then 0
    else CountBefore(t, k - 1, name, all) + if t[k - 1].name == name then CountSlots(t[k - 1].slots, all) else 0
  }

  lemma {:induction false} CountBeforeIs(t: Table, k: nat, name: Oid, all: bool)
    requires Named(t) && k <= |t|
    ensures CountBefore(t, k, name, all)
         == if exists i :: 0 <= i < k && t[i].name == name then CountSlots(GetRow(t, name), all) else 0
  {
    hide OidCompare, GetRow, CountSlots;
    if k > 0 {
      CountBeforeIs(t, k - 1, name, all);
      if t[k - 1].name == name {
        GetRowAt(t, k - 1);
        if i :| 0 <= i < k - 1 && t[i].name == name {
          NamesDiffer(t, i, k - 1);
        }
      }
    }
  }

  lemma CountBeforeAll(t: Table, name: Oid, all: bool)
    requires Named(t)
    ensures CountBefore(t, 0, name, all) == 0
    ensures CountBefore(t, |t|, name, all) == CountSlots(GetRow(t, name), all)
  {
    CountBeforeIs(t, |t|, name, all);
    assert CountSlots([], all) == 0;
  }

  ghost predicate Covers(repr: set<Index>, rows: seq<seq<Index>>) {
    forall i, x :: 0 <= i < |rows| && x in rows[i] ==> x in repr
  }

  lemma MembersOfInsert(row: seq<Index>, j: nat, n: Index)
    requires j <= |row|
    ensures forall x :: x in InsertAt(row, j, n) ==> x == n || x in row
  {
  }

  lemma MembersOfRemove(row: seq<Index>, j: nat)
    requires j < |row|
    ensures forall x :: x in RemoveAt(row, j) ==> x in row
  {
  }

  /** A chain in place of another is right; the chain before it has to be repointed if the head changed. */
  lemma RowsAfterReplace(rows: seq<seq<Index>>, t: Table, repr: set<Index>, i: nat, row: seq<Index>, r: Row)
    requires |rows| == |t| && i < |rows| && Covers(repr, rows) && forall x :: x in row ==> x in repr
    requires forall k :: 0 <= k < |rows| && k != i ==> RowOk(rows[k], t[k], First(rows, k + 1))
    requires RowOk(row, r, First(rows, i + 1))
    ensures var rows', t' := rows[i := row], t[i := r];
            && row != [] && First(rows', i) == row[0] && Covers(repr, rows')
            && (forall k :: k != i ==> First(rows', k) == First(rows, k))
            && forall k :: 0 <= k < |rows'| && k + 1 != i ==> RowOk(rows'[k], t'[k], First(rows', k + 1))
  {
    assert row != [];
    hide RowOk;
  }

  /** If the head of the chain is the same, nothing has to be repointed. */
  lemma RowsAfterSameHead(rows: seq<seq<Index>>, t: Table, repr: set<Index>, i: nat, row: seq<Index>, r: Row)
    requires |rows| == |t| && i < |rows| && Covers(repr, rows) && forall x :: x in row ==> x in repr
    requires forall k :: 0 <= k < |rows| && k != i ==> RowOk(rows[k], t[k], First(rows, k + 1))
    requires RowOk(row, r, First(rows, i + 1)) && rows[i] != [] && row != [] && row[0] == rows[i][0]
    ensures var rows', t' := rows[i := row], t[i := r];
            && Covers(repr, rows') && First(rows', 0) == First(rows, 0)
            && forall k :: 0 <= k < |rows'| ==> RowOk(rows'[k], t'[k], First(rows', k + 1))
  {
    RowsAfterReplace(rows, t, repr, i, row, r);
    hide RowOk;
    var rows' := rows[i := row];
    assert First(rows', i) == First(rows, i);
  }

  /** A chain put between two others is right; only the chain before it has still to be repointed. */
  lemma RowsAfterInsert(rows: seq<seq<Index>>, t: Table, repr: set<Index>, i: nat, row: seq<Index>, r: Row)
    requires |rows| == |t| && i <= |rows| && Covers(repr, rows) && forall x :: x in row ==> x in repr
    requires forall k :: 0 <= k < |rows| ==> RowOk(rows[k], t[k], First(rows, k + 1))
    requires RowOk(row, r, First(rows, i))
    ensures var rows', t' := InsertAt(rows, i, row), InsertAt(t, i, r);
            && Covers(repr, rows') && First(rows', i) == row[0] && (0 < i ==> First(rows', 0) == First(rows, 0))
            && (0 < i ==> rows'[i - 1] == rows[i - 1] && t'[i - 1] == t[i - 1])
            && forall k :: 0 <= k < |rows'| && k + 1 != i ==> RowOk(rows'[k], t'[k], First(rows', k + 1))
  {
    FirstAfterInsert(rows, i, row);
    hide First, RowOk, InsertAt;
    var rows', t' := InsertAt(rows, i, row), InsertAt(t, i, r);
    forall k | 0 <= k < |rows'| && k + 1 != i ensures RowOk(rows'[k], t'[k], First(rows', k + 1)) {
      if k < i {
        assert rows'[k] == rows[k] && t'[k] == t[k];
      } else if k > i {
        assert rows'[k] == rows[k - 1] && t'[k] == t[k - 1];
        assert RowOk(rows[k - 1], t[k - 1], First(rows, k));
      }
    }
    forall k, x | 0 <= k < |rows'| && x in rows'[k] ensures x in repr {
      if k < i { assert rows'[k] == rows[k]; } else if k > i { assert rows'[k] == rows[k - 1]; }
    }
  }

  /** The same for a chain that is taken out. */
  lemma RowsAfterRemove(rows: seq<seq<Index>>, t: Table, repr: set<Index>, i: nat)
    requires |rows| == |t| && i < |rows| && Covers(repr, rows)
    requires forall k :: 0 <= k < |rows| ==> RowOk(rows[k], t[k], First(rows, k + 1))
    ensures var rows', t' := RemoveAt(rows, i), RemoveAt(t, i);
            && Covers(repr, rows') && First(rows', i) == First(rows, i + 1) && (0 < i ==> First(rows', 0) == First(rows, 0))
            && (0 < i ==> rows'[i - 1] == rows[i - 1] && t'[i - 1] == t[i - 1])
            && forall k :: 0 <= k < |rows'| && k + 1 != i ==> RowOk(rows'[k], t'[k], First(rows', k + 1))
  {
    FirstAfterRemove(rows, i);
    hide First, RowOk, RemoveAt;
    var rows', t' := RemoveAt(rows, i), RemoveAt(t, i);
    forall k | 0 <= k < |rows'| && k + 1 != i ensures RowOk(rows'[k], t'[k], First(rows', k + 1)) {
      if k < i {
        assert rows'[k] == rows[k] && t'[k] == t[k];
      } else {
        assert rows'[k] == rows[k + 1] && t'[k] == t[k + 1];
        assert RowOk(rows[k + 1], t[k + 1], First(rows, k + 2));
      }
    }
    forall k, x | 0 <= k < |rows'| && x in rows'[k] ensures x in repr {
      if k < i { assert rows'[k] == rows[k]; } else { assert rows'[k] == rows[k + 1]; }
    }
  }

  lemma FirstAfterInsert(rows: seq<seq<Index>>, i: nat, row: seq<Index>)
    requires i <= |rows| && row != []
    ensures var r := InsertAt(rows, i, row);
            && First(r, i) == row[0]
            && (forall k :: 0 <= k < i ==> First(r, k) == First(rows, k))
            && (forall k :: i < k ==> First(r, k) == First(rows, k - 1))
  {
  }

  lemma FirstAfterRemove(rows: seq<seq<Index>>, i: nat)
    requires i < |rows|
    ensures var r := RemoveAt(rows, i);
            && (forall k :: 0 <= k < i ==> First(r, k) == First(rows, k))
            && (forall k :: i <= k ==> First(r, k) == First(rows, k + 1))
  {
  }
}
