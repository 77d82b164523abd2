/**
 The open-addressing table of practicum1/cache.c on the ids its slots point to: linear probing from
 `id % 103`, insertion into the first empty slot of the probe, and removal that empties the slot and
 leaves no mark. A search stops at the first empty slot, so a removal can hide another id.
 */
module ProbeTable {
  import opened Wrappers
  import opened Members

  const SIZE: nat := 103

  type Table = t: seq<Option<nat>> | |t| == SIZE witness seq(SIZE, _ => None)

  function EmptyTable(): Table { seq(SIZE, _ => None) }

  /** The slot of probe number `i` for `id`. */
  function Slot(id: nat, i: nat): (slot: nat)
    ensures slot < SIZE
  {
    (id % SIZE + i) % SIZE
  }

  /** A search for `id` does not stop at a slot that holds another id. */
  predicate PassesOver(table: Table, id: nat, i: nat) {
    var entry := table[Slot(id, i)];
    entry.Some? && entry.value != id
  }

  /** The number of the probe that ends a search for `id`, SIZE when the search would not end. */
  function Distance(table: Table, id: nat, i: nat := 0): (d: nat)
    requires i <= SIZE
    ensures i <= d <= SIZE
    ensures forall j :: i <= j < d ==> PassesOver(table, id, j)
    ensures d < SIZE ==> !PassesOver(table, id, d)
    decreases SIZE - i
  {
    if i == SIZE || !PassesOver(table, id, i) then i else Distance(table, id, i + 1)
  }

  function EndSlot(table: Table, id: nat): (slot: nat)
    ensures slot < SIZE
  {
    Slot(id, Distance(table, id))
  }

  predicate Found(table: Table, id: nat) {
    Distance(table, id) < SIZE && table[EndSlot(table, id)] == Some(id)
  }

  lemma DistanceIs(table: Table, id: nat, d: nat)
    requires d < SIZE && !PassesOver(table, id, d)
    requires forall j :: 0 <= j < d ==> PassesOver(table, id, j)
    ensures Distance(table, id) == d
  {
    var e := Distance(table, id);
    assert e < SIZE ==> !PassesOver(table, id, e);
  }

  /** No slot points to an id that is not listed. */
  ghost predicate NoStale(table: Table, ids: seq<nat>) {
    forall i :: 0 <= i < SIZE && table[i].Some? ==> table[i].value in ids
  }

  ghost predicate NoTwice(table: Table) {
    forall i, j :: 0 <= i < j < SIZE && table[i].Some? ==> table[i] != table[j]
  }

  /** Each listed id is in some slot. */
  ghost predicate AllPlaced(table: Table, ids: seq<nat>) {
    forall id :: id in ids ==> Some(id) in table
  }

  /** The table holds each listed id in exactly one slot, and no other id; searches may still miss one. */
  ghost predicate Clean(table: Table, ids: seq<nat>) {
    NoStale(table, ids) && NoTwice(table) && AllPlaced(table, ids)
  }

  /** A search finds every listed id. */
  ghost predicate AllFound(table: Table, ids: seq<nat>) {
    forall id {:trigger Found(table, id)} :: id in ids ==> Found(table, id)
  }

  ghost predicate Represents(table: Table, ids: seq<nat>) {
    Clean(table, ids) && AllFound(table, ids)
  }

  // ----- Searches end while an empty slot is left

  /** The ids in the first `n` slots. */
  ghost function Used(table: Table, n: nat): (used: set<nat>)
    requires n <= SIZE
    ensures forall id :: id in used ==> exists i :: 0 <= i < n && table[i] == Some(id)
  {
    if n == 0 then {} else Used(table, n - 1) + if table[n - 1].Some? then {table[n - 1].value} else {}
  }

  lemma UsedStep(table: Table, n: nat)
    requires NoTwice(table) && n < SIZE && table[n].Some?
    ensures Used(table, n + 1) == Used(table, n) + {table[n].value} && table[n].value !in Used(table, n)
  {
  }

  lemma {:induction false} UsedCount(table: Table, n: nat)
    requires NoTwice(table) && n <= SIZE
    requires forall i :: 0 <= i < n ==> table[i].Some?
    ensures |Used(table, n)| == n
  {
    hide *;
    if n == 0 {
      UsedNone(table);
    } else {
      UsedCount(table, n - 1);
      UsedStep(table, n - 1);
    }
  }

  lemma UsedNone(table: Table)
    ensures Used(table, 0) == {}
  {
  }

  lemma UsedListed(table: Table, ids: seq<nat>)
    requires NoStale(table, ids)
    ensures Used(table, SIZE) <= IdSet(ids)
  {
    hide Used, IdSet;
  }

  lemma FreeSlot(table: Table, ids: seq<nat>) returns (free: nat)
    requires Clean(table, ids) && |ids| < SIZE
    ensures free < SIZE && table[free].None?
  {
    hide Used, IdSet;
    if i :| 0 <= i < SIZE && table[i].None? {
      free := i;
    } else {
      UsedCount(table, SIZE);
      UsedListed(table, ids);
      SubsetSize(Used(table, SIZE), IdSet(ids));
      assert false;
    }
  }

  /** The probe number at which a search reaches a slot. */
  lemma ReachesSlot(id: nat, slot: nat) returns (i: nat)
    requires slot < SIZE
    ensures i < SIZE && Slot(id, i) == slot
  {
    i := if slot >= id % SIZE then slot - id % SIZE else slot + SIZE - id % SIZE;
  }

  /** A search ends, at the id's own slot or at an empty one, and never at an id that is not listed. */
  lemma SearchEnds(table: Table, ids: seq<nat>, id: nat)
    requires Clean(table, ids) && |ids| < SIZE
    ensures Distance(table, id) < SIZE
    ensures table[EndSlot(table, id)] == if Found(table, id) then Some(id) else None
    ensures Found(table, id) ==> id in ids
  {
    hide Distance, Slot, AllPlaced, NoTwice;
    var free := FreeSlot(table, ids);
    var i := ReachesSlot(id, free);
    assert !PassesOver(table, id, i);
    assert !PassesOver(table, id, Distance(table, id));
  }

  // ----- Insertion

  /** Filling an empty slot leaves every successful search as it was. */
  lemma FoundAfterFill(table: Table, slot: nat, id: nat, k: nat)
    requires slot < SIZE && table[slot].None? && Distance(table, k) < SIZE
    requires if k == id then EndSlot(table, k) == slot else Found(table, k)
    ensures Found(table[slot := Some(id)], k)
  {
    hide Slot, Distance;
    var table', d := table[slot := Some(id)], Distance(table, k);
    forall j | 0 <= j < d ensures PassesOver(table', k, j) {
      assert PassesOver(table, k, j);
    }
    DistanceIs(table', k, d);
  }

  lemma FillClean(table: Table, ids: seq<nat>, slot: nat, id: nat)
    requires Clean(table, ids) && slot < SIZE && table[slot].None? && id !in ids
    ensures Clean(table[slot := Some(id)], ids + [id])
  {
    var table' := table[slot := Some(id)];
    forall k | k in ids + [id] ensures Some(k) in table' {
      if k == id {
        assert table'[slot] == Some(k);
      } else {
        var i :| 0 <= i < SIZE && table[i] == Some(k);
        assert table'[i] == Some(k);
      }
    }
  }

  /** A new id goes where its search ended: it is found from then on, and so is every id that was. */
  lemma InsertKeeps(table: Table, ids: seq<nat>, id: nat)
    requires Clean(table, ids) && |ids| < SIZE && id !in ids
    ensures Clean(table[EndSlot(table, id) := Some(id)], ids + [id])
    ensures forall k :: k == id || (k in ids && Found(table, k)) ==> Found(table[EndSlot(table, id) := Some(id)], k)
  {
    hide Slot, Distance, Clean, Found;
    SearchEnds(table, ids, id);
    FillClean(table, ids, EndSlot(table, id), id);
    forall k | k == id || (k in ids && Found(table, k))
      ensures Found(table[EndSlot(table, id) := Some(id)], k)
    {
      SearchEnds(table, ids, k);
      FoundAfterFill(table, EndSlot(table, id), id, k);
    }
  }

  // ----- Eviction

  /** The search for `id` passes over `slot` on its way. */
  ghost predicate Crosses(table: Table, id: nat, slot: nat) {
    exists j :: 0 <= j < Distance(table, id) && Slot(id, j) == slot
  }

  lemma SlotsDiffer(id: nat, i: nat, j: nat)
    requires i < SIZE && j < SIZE && i != j
    ensures Slot(id, i) != Slot(id, j)
  {
  }

  /**
   What an eviction followed by an insertion does to the search for `k`: slot `gone` has been emptied and
   slot `filled`, empty before, has been given to `id`.
   */
  lemma FoundAfterReplace(table: Table, gone: nat, filled: nat, id: nat, k: nat)
    requires gone < SIZE && table[gone].Some? && table[gone].value != k
    requires filled < SIZE && table[filled].None?
    requires Distance(table, k) < SIZE
    requires if k == id then EndSlot(table, k) == filled else Found(table, k)
    ensures Found(table[gone := None][filled := Some(id)], k) <==> !Crosses(table, k, gone)
  {
    var table', d := table[gone := None][filled := Some(id)], Distance(table, k);
    if j :| 0 <= j < d && Slot(k, j) == gone {
      forall i | 0 <= i < j ensures PassesOver(table', k, i) {
        assert PassesOver(table, k, i);
        SlotsDiffer(k, i, j);
      }
      DistanceIs(table', k, j);
    } else {
      forall i | 0 <= i < d ensures PassesOver(table', k, i) {
        assert PassesOver(table, k, i);
      }
      DistanceIs(table', k, d);
    }
  }

  /** No search for a remaining id or for the new one passes over the slot of the id `gone`. */
  ghost predicate SafeToReplace(table: Table, ids: seq<nat>, gone: nat, id: nat) {
    !Crosses(table, id, EndSlot(table, gone)) &&
    forall k :: k in ids && k != gone ==> !Crosses(table, k, EndSlot(table, gone))
  }

  /** The table after `gone` has been evicted and `id` put where the search for it ended before. */
  function Replaced(table: Table, gone: nat, id: nat): Table {
    table[EndSlot(table, gone) := None][EndSlot(table, id) := Some(id)]
  }

  /**
   The new id goes where the search for it ended before the eviction. When the search for the id evicted
   finds it, the table holds exactly the new ids afterwards.
   */
  lemma ReplaceClean(table: Table, ids: seq<nat>, ids': seq<nat>, gone: nat, id: nat)
    requires Clean(table, ids) && |ids| < SIZE && gone in ids && Found(table, gone) && id !in ids
    requires forall k :: k in ids' <==> k == id || (k in ids && k != gone)
    ensures Clean(Replaced(table, gone, id), ids')
  {
    hide Slot, Distance, Clean;
    SearchEnds(table, ids, id);
    SwapClean(table, ids, ids', EndSlot(table, gone), EndSlot(table, id), gone, id);
  }

  lemma SwapClean(table: Table, ids: seq<nat>, ids': seq<nat>, slot: nat, filled: nat, gone: nat, id: nat)
    requires Clean(table, ids) && id !in ids
    requires slot < SIZE && table[slot] == Some(gone) && filled < SIZE && table[filled].None?
    requires forall k :: k in ids' <==> k == id || (k in ids && k != gone)
    ensures Clean(table[slot := None][filled := Some(id)], ids')
  {
    var table' := table[slot := None][filled := Some(id)];
    forall i | 0 <= i < SIZE && table'[i].Some? && i != filled
      ensures table[i] == table'[i] && table[i] != Some(gone) && table[i].value in ids'
    {
      var k := table[i].value;
      assert k in ids;
      assert table[slot] == Some(k) ==> i == slot;
    }
    forall k | k in ids' ensures Some(k) in table' {
      if k == id {
        assert table'[filled] == Some(k);
      } else {
        var i :| 0 <= i < SIZE && table[i] == Some(k);
        assert table'[i] == Some(k);
      }
    }
  }

  /** When every id was found before, every id is found afterwards exactly when the replacement was safe. */
  lemma ReplaceExact(table: Table, ids: seq<nat>, ids': seq<nat>, gone: nat, id: nat)
    requires Represents(table, ids) && |ids| < SIZE && gone in ids && id !in ids
    requires forall k :: k in ids' <==> k == id || (k in ids && k != gone)
    ensures Represents(Replaced(table, gone, id), ids') <==>
            SafeToReplace(table, ids, gone, id)
  {
    hide Slot, Distance, Clean, Crosses, Found;
    assert Found(table, gone);
    ReplaceClean(table, ids, ids', gone, id);
    var table' := Replaced(table, gone, id);
    forall k | k in ids' ensures Found(table', k) <==> !Crosses(table, k, EndSlot(table, gone)) {
      ReplacedFound(table, ids, gone, id, k);
    }
  }

  lemma ReplacedFound(table: Table, ids: seq<nat>, gone: nat, id: nat, k: nat)
    requires Represents(table, ids) && |ids| < SIZE && gone in ids && id !in ids
    requires k == id || (k in ids && k != gone)
    ensures Found(Replaced(table, gone, id), k) <==>
            !Crosses(table, k, EndSlot(table, gone))
  {
    hide Slot, Distance, Clean, Crosses;
    assert Found(table, gone) && (k != id ==> Found(table, k));
    SearchEnds(table, ids, gone);
    SearchEnds(table, ids, id);
    SearchEnds(table, ids, k);
    FoundAfterReplace(table, EndSlot(table, gone), EndSlot(table, id), id, k);
  }

  /** When the search for the id evicted does not find it, its slot stays behind. */
  lemma HiddenGoneLeavesSlot(table: Table, ids: seq<nat>, ids': seq<nat>, gone: nat, id: nat)
    requires Clean(table, ids) && |ids| < SIZE && gone in ids && !Found(table, gone) && id !in ids
    requires gone !in ids'
    ensures !NoStale(Replaced(table, gone, id), ids')
  {
    SearchEnds(table, ids, gone);
    SearchEnds(table, ids, id);
    var i :| 0 <= i < SIZE && table[i] == Some(gone);
    assert Replaced(table, gone, id)[i] == Some(gone);
  }

  // ----- Ids that never collide

  /** Every listed id is in the slot it hashes to. */
  ghost predicate AtHome(table: Table, ids: seq<nat>) {
    forall id :: id in ids ==> table[Slot(id, 0)] == Some(id)
  }

  /** No two of the ids hash to one slot. */
  ghost predicate CollisionFree(universe: set<nat>) {
    forall a, b :: a in universe && b in universe && a != b ==> Slot(a, 0) != Slot(b, 0)
  }

  /** The slot `p` places after `free`. */
  function Past(free: nat, p: nat): (slot: nat)
    ensures slot < SIZE
  {
    (free + p) % SIZE
  }

  /** The slot without a remainder of a sum: once round the table at most. */
  function Round(h: nat, i: nat): nat {
    if h + i < SIZE then h + i else h + i - SIZE
  }

  lemma SlotIs(id: nat, i: nat)
    requires i < SIZE
    ensures Slot(id, i) == Round(id % SIZE, i)
  {
  }

  lemma PastIs(free: nat, p: nat)
    requires free < SIZE && p < SIZE
    ensures Past(free, p) == Round(free, p)
  {
  }

  lemma BackTo(id: nat, d: nat, free: nat, p: nat)
    requires free < SIZE && 0 < p < SIZE && d < SIZE && Slot(id, d) == Past(free, p)
    ensures d >= p ==> Slot(id, d - p) == free
    ensures d < p ==> Slot(id, 0) == Past(free, p - d)
  {
    hide Slot, Past;
    SlotIs(id, 0);
    SlotIs(id, d);
    PastIs(free, p);
    if d >= p { SlotIs(id, d - p); } else { PastIs(free, p - d); }
  }

  /** A search that ends `p` places after a slot it has not passed started after that slot. */
  lemma SearchStart(id: nat, d: nat, free: nat, p: nat)
    requires free < SIZE && 0 < p < SIZE && d < SIZE && Slot(id, d) == Past(free, p)
    requires forall j :: 0 <= j < d ==> Slot(id, j) != free
    ensures d < p && Slot(id, 0) == Past(free, p - d)
  {
    hide Slot, Past;
    BackTo(id, d, free, p);
  }

  /** Ids that do not collide are all at home: the first one displaced would have displaced another before. */
  lemma {:induction false} HomeAt(table: Table, ids: seq<nat>, universe: set<nat>, free: nat, p: nat)
    requires Represents(table, ids) && CollisionFree(universe) && forall k :: k in ids ==> k in universe
    requires free < SIZE && table[free].None? && 0 < p < SIZE
    ensures table[Past(free, p)].Some? ==> Slot(table[Past(free, p)].value, 0) == Past(free, p)
    decreases p
  {
    hide Slot, Distance, AllPlaced, NoTwice, Past;
    if table[Past(free, p)].Some? {
      var id := table[Past(free, p)].value;
      var d := Distance(table, id);
      FoundAt(table, ids, id, Past(free, p));
      forall j | 0 <= j < d ensures Slot(id, j) != free { assert PassesOver(table, id, j); }
      SearchStart(id, d, free, p);
      if d > 0 {
        assert PassesOver(table, id, 0);
        HomeAt(table, ids, universe, free, p - d);
      }
    }
  }

  lemma FoundAt(table: Table, ids: seq<nat>, id: nat, slot: nat)
    requires Represents(table, ids) && slot < SIZE && table[slot] == Some(id)
    ensures id in ids && Found(table, id) && EndSlot(table, id) == slot
  {
    hide Slot, Distance;
    assert id in ids;
    assert Found(table, id);
    var found := EndSlot(table, id);
    assert table[found] == table[slot];
  }

  lemma AllAtHome(table: Table, ids: seq<nat>, universe: set<nat>)
    requires Represents(table, ids) && |ids| < SIZE && CollisionFree(universe)
    requires forall k :: k in ids ==> k in universe
    ensures AtHome(table, ids)
  {
    hide Slot, Distance, CollisionFree;
    var free := FreeSlot(table, ids);
    forall id | id in ids ensures table[Slot(id, 0)] == Some(id) {
      assert Found(table, id);
      var p := PlaceAfter(free, EndSlot(table, id));
      HomeAt(table, ids, universe, free, p);
    }
  }

  lemma PlaceAfter(free: nat, slot: nat) returns (p: nat)
    requires free < SIZE && slot < SIZE && slot != free
    ensures 0 < p < SIZE && Past(free, p) == slot
  {
    p := if slot > free then slot - free else slot + SIZE - free;
  }

  /** Without collisions every search ends at once, so no eviction is ever in the way. */
  lemma NoCollisionNoCrossing(table: Table, ids: seq<nat>, universe: set<nat>, gone: nat, id: nat)
    requires Represents(table, ids) && AtHome(table, ids) && CollisionFree(universe)
    requires (forall k :: k in ids ==> k in universe) && id in universe && id !in ids
    ensures SafeToReplace(table, ids, gone, id)
  {
    forall k | k in universe ensures Distance(table, k) == 0 {
      if k !in ids { HomeIsFree(table, ids, universe, k); }
      DistanceIs(table, k, 0);
    }
  }

  lemma HomeIsFree(table: Table, ids: seq<nat>, universe: set<nat>, id: nat)
    requires Represents(table, ids) && AtHome(table, ids) && CollisionFree(universe)
    requires (forall k :: k in ids ==> k in universe) && id in universe && id !in ids
    ensures table[Slot(id, 0)].None?
  {
    var slot := Slot(id, 0);
    assert table[slot].Some? ==> Slot(table[slot].value, 0) == slot;
  }
}
