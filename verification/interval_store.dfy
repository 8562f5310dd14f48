/**
  The temporal interval store held by every grid cell.

  A store is a set of entries (start, end, trajectory id). The interval
  container behind a cell ignores the insertion of a triple it already holds,
  so a set is the faithful abstraction. Its slice `store[t1:t2]` returns the
  entries whose half-open interval [start, end) meets the half-open window
  [t1, t2); `Overlaps` is that test, stated once.
 */
module IntervalStore {

  type TrajId = int

  datatype Entry = Entry(start: int, end: int, id: TrajId)

  type Store = set<Entry>

  /** Half-open overlap of [s, e) with the window [t1, t2); a window with t1 >= t2 meets nothing. */
  predicate Overlaps(s: int, e: int, t1: int, t2: int) {
    t1 < t2 && s < t2 && e > t1
  }

  /**
    The container answers a slice as the union of the entries holding the
    window's start point (s <= t1 < e) and the entries starting inside the
    window (t1 <= s < t2), and answers nothing for a window with t1 >= t2.
    For the non-empty intervals it stores, that is exactly `Overlaps`.
   */
  lemma OverlapsAsPointOrStart(s: int, e: int, t1: int, t2: int)
    requires s < e
    ensures Overlaps(s, e, t1, t2) <==> t1 < t2 && ((s <= t1 < e) || (t1 <= s < t2))
  {
  }

  /** The trajectory ids mentioned by a store. */
  function Ids(st: Store): (r: set<TrajId>)
    ensures forall id :: id in r <==> exists e :: e in st && e.id == id
  {
    set e | e in st :: e.id
  }

  /** remove_all(id): every entry with that id goes, every other entry stays. */
  function RemoveId(st: Store, id: TrajId): (r: Store)
    ensures r <= st
    ensures id !in Ids(r)
    ensures forall e :: e in st && e.id != id ==> e in r
  {
    set e | e in st && e.id != id
  }

  /** The slice st[t1:t2]: the stored entries overlapping the window. */
  function Slice(st: Store, t1: int, t2: int): (r: Store)
    ensures r <= st
    ensures forall e :: e in st ==> (e in r <==> Overlaps(e.start, e.end, t1, t2))
    ensures t1 >= t2 ==> r == {}
  {
    set e | e in st && Overlaps(e.start, e.end, t1, t2)
  }

  /** Removing an id twice is removing it once. */
  lemma RemoveIdIdempotent(st: Store, id: TrajId)
    ensures RemoveId(RemoveId(st, id), id) == RemoveId(st, id)
  {
  }

  /** Removing an id the store does not mention changes nothing. */
  lemma RemoveAbsentId(st: Store, id: TrajId)
    requires id !in Ids(st)
    ensures RemoveId(st, id) == st
  {
    assert forall e :: e in st ==> e.id != id;
  }
}
