/**
 * Which entry the disk cache evicts when it is over its limit. The source goes through its map in the
 * order of the names; here `rank` gives that order, whatever it is.
 */
module Eviction {
  datatype LockState = Unlocked | Locked | Unlocking

  datatype Entry = Entry(lock: LockState, accessors: nat, size: nat, streams: nat, modified: int)

  type Entries = map<string, Entry>

  type Rank = string -> real

  ghost predicate Distinct(rank: Rank) {
    forall a, b :: rank(a) == rank(b) ==> a == b
  }

  predicate Idle(e: Entry) {
    e.lock.Unlocked? && e.accessors == 0
  }

  function IdleOnes(entries: Entries): set<string> {
    set x | x in entries && Idle(entries[x])
  }

  /** The entries from this one on, in the order of the map. */
  function From(rank: Rank, entries: Entries, x: string): set<string> {
    set y | y in entries && rank(x) <= rank(y)
  }

  ghost predicate Lowest(rank: Rank, ids: set<string>, x: string) {
    x in ids && forall y | y in ids :: rank(x) <= rank(y)
  }

  lemma LowestIsOne(rank: Rank, ids: set<string>, x: string, y: string)
    requires Distinct(rank) && Lowest(rank, ids, x) && Lowest(rank, ids, y)
    ensures x == y
  {
    assert rank(x) == rank(y);
  }

  method LowestOf(rank: Rank, ids: set<string>) returns (x: string)
    requires ids != {}
    ensures Lowest(rank, ids, x)
  {
    x :| x in ids;
    var left := ids - {x};
    while left != {}
      invariant left <= ids && x in ids
      invariant forall y | y in ids && y !in left :: rank(x) <= rank(y)
      decreases left
    {
      var y :| y in left;
      if rank(y) < rank(x) {
        x := y;
      }
      left := left - {y};
    }
  }

  /**
   * The least recently modified of these, in use or not. Of several the source takes the first, but
   * `next` before any other, because that is where it starts.
   */
  ghost predicate Eldest(rank: Rank, entries: Entries, ids: set<string>, next: string, v: string)
    requires ids <= entries.Keys && next in ids
  {
    && v in ids
    && (forall y | y in ids :: entries[v].modified <= entries[y].modified)
    && (entries[next].modified == entries[v].modified ==> v == next)
    && (v != next ==> forall y | y in ids && entries[y].modified == entries[v].modified :: rank(v) <= rank(y))
  }

  /**
   * The source looks for the first idle entry, and then among the entries from there on for the least
   * recently modified one, starting with the one after the idle entry.
   */
  ghost predicate Chosen(rank: Rank, entries: Entries, first: string, next: string, v: string) {
    && Lowest(rank, IdleOnes(entries), first)
    && var ids := From(rank, entries, first);
       Lowest(rank, ids - {first}, next) && Eldest(rank, entries, ids, next, v)
  }

  ghost predicate IsVictim(rank: Rank, entries: Entries, v: string) {
    exists first, next :: Chosen(rank, entries, first, next, v)
  }

  lemma VictimIsOne(rank: Rank, entries: Entries, v: string, w: string)
    requires Distinct(rank) && IsVictim(rank, entries, v) && IsVictim(rank, entries, w)
    ensures v == w
  {
    var a, b :| Chosen(rank, entries, a, b, v);
    var c, d :| Chosen(rank, entries, c, d, w);
    LowestIsOne(rank, IdleOnes(entries), a, c);
    LowestIsOne(rank, From(rank, entries, a) - {a}, b, d);
    hide Lowest;
    assert entries[v].modified == entries[w].modified;
    if v != b {
      assert rank(v) <= rank(w) && rank(w) <= rank(v);
    }
  }

  /** No idle entry; an idle entry with none after it, behind which the source looks all the same; or a choice. */
  datatype Search = NoneIdle | PastEnd | Found(id: string)

  method FirstIdle(rank: Rank, entries: Entries) returns (found: bool, first: string)
    ensures found <==> IdleOnes(entries) != {}
    ensures found ==> Lowest(rank, IdleOnes(entries), first)
  {
    var left := entries.Keys;
    first := "";
    while left != {}
      invariant left <= entries.Keys && IdleOnes(entries) <= left
      decreases left
    {
      first := LowestOf(rank, left);
      if Idle(entries[first]) {
        assert first in IdleOnes(entries);
        return true, first;
      }
      left := left - {first};
    }
    return false, first;
  }

  /** The loop over the entries from the first idle one on. */
  method EldestFrom(rank: Rank, entries: Entries, ids: set<string>, next: string) returns (oldest: string)
    requires Distinct(rank) && ids <= entries.Keys && next in ids
    ensures Eldest(rank, entries, ids, next, oldest)
  {
    oldest := next;
    var left := ids;
    while left != {}
      invariant left <= ids && oldest in ids
      invariant forall x, y | x in ids - left && y in left :: rank(x) <= rank(y)
      invariant forall y | y in ids - left || y == next :: entries[oldest].modified <= entries[y].modified
      invariant oldest != next ==>
                  && entries[oldest].modified < entries[next].modified
                  && oldest !in left
                  && forall y | y in ids - left && entries[y].modified == entries[oldest].modified :: rank(oldest) <= rank(y)
      decreases left
    {
      var it := LowestOf(rank, left);
      if entries[it].modified < entries[oldest].modified {
        oldest := it;
      }
      left := left - {it};
    }
  }

  method FindVictim(rank: Rank, entries: Entries) returns (s: Search)
    requires Distinct(rank)
    ensures s.NoneIdle? <==> IdleOnes(entries) == {}
    ensures s.PastEnd? <==> exists first :: Lowest(rank, IdleOnes(entries), first) && From(rank, entries, first) == {first}
    ensures if s.Found? then IsVictim(rank, entries, s.id) else !exists v :: IsVictim(rank, entries, v)
  {
    hide IdleOnes, Eldest;
    var found, first := FirstIdle(rank, entries);
    if !found {
      return NoneIdle;
    }
    forall other | Lowest(rank, IdleOnes(entries), other) ensures other == first {
      LowestIsOne(rank, IdleOnes(entries), other, first);
    }
    IdleAreEntries(entries);
    var ids := From(rank, entries, first);
    if ids == {first} {
      return PastEnd;
    }
    assert first in ids;
    assert ids - {first} != {};
    var next := LowestOf(rank, ids - {first});
    var oldest := EldestFrom(rank, entries, ids, next);
    assert Chosen(rank, entries, first, next, oldest);
    return Found(oldest);
  }

  lemma IdleAreEntries(entries: Entries)
    ensures IdleOnes(entries) <= entries.Keys
  {
  }

  // --- evicting down to a limit ---------------------------------------------------------------------

  /** Some entries may be gone, all of them unlocked and without accessors; the others are untouched. */
  ghost predicate OnlyIdleRemoved(entries: Entries, entries': Entries) {
    && (forall id | id in entries' :: id in entries && entries'[id] == entries[id])
    && (forall id | id in entries && id !in entries' :: Idle(entries[id]))
  }

  /** The choice falls on an idle entry, so that it can be deleted. */
  ghost predicate CanEvict(rank: Rank, entries: Entries) {
    exists v :: v in entries && IsVictim(rank, entries, v) && Idle(entries[v])
  }

  ghost function Victim(rank: Rank, entries: Entries): (v: string)
    requires CanEvict(rank, entries)
    ensures v in entries && IsVictim(rank, entries, v) && Idle(entries[v])
  {
    var v :| v in entries && IsVictim(rank, entries, v) && Idle(entries[v]);
    v
  }

  /** What is left, and its total size, after evicting down to the limit as long as the choice allows it. */
  ghost function Evicted(rank: Rank, limit: nat, entries: Entries, total: int): (r: (Entries, int))
    ensures r.1 <= limit || !CanEvict(rank, r.0)
    decreases |entries|
  {
    if total <= limit || !CanEvict(rank, entries) then (entries, total)
    else
      var v := Victim(rank, entries);
      assert |entries - {v}| < |entries| by { Smaller(entries, v); }
      Evicted(rank, limit, entries - {v}, total - entries[v].size)
  }

  lemma Smaller(m: Entries, id: string)
    requires id in m
    ensures |m - {id}| == |m| - 1
  {
    assert (m - {id}).Keys == m.Keys - {id};
    assert |(m - {id}).Keys| == |m - {id}| && |m.Keys| == |m|;
  }

  lemma EvictedStep(rank: Rank, limit: nat, entries: Entries, total: int, v: string)
    requires Distinct(rank) && total > limit && v in entries && IsVictim(rank, entries, v) && Idle(entries[v])
    ensures Evicted(rank, limit, entries, total) == Evicted(rank, limit, entries - {v}, total - entries[v].size)
  {
    hide IsVictim;
    VictimIsOne(rank, entries, v, Victim(rank, entries));
  }

  lemma NothingEvicted(rank: Rank, limit: nat, entries: Entries, total: int)
    requires !exists v :: IsVictim(rank, entries, v)
    ensures Evicted(rank, limit, entries, total) == (entries, total)
  {
    hide IsVictim;
  }

  lemma ChosenInUse(rank: Rank, limit: nat, entries: Entries, total: int, v: string)
    requires Distinct(rank) && v in entries && IsVictim(rank, entries, v) && !Idle(entries[v])
    ensures Evicted(rank, limit, entries, total) == (entries, total)
  {
    hide IsVictim;
    if CanEvict(rank, entries) {
      VictimIsOne(rank, entries, v, Victim(rank, entries));
    }
  }

  lemma WithinLimit(rank: Rank, limit: nat, entries: Entries, total: int)
    requires total <= limit
    ensures Evicted(rank, limit, entries, total) == (entries, total)
  {
  }

  lemma VictimIsThere(rank: Rank, entries: Entries, v: string)
    requires IsVictim(rank, entries, v)
    ensures v in entries
  {
  }

  lemma {:induction false} EvictsOnlyIdle(rank: Rank, limit: nat, entries: Entries, total: int)
    ensures OnlyIdleRemoved(entries, Evicted(rank, limit, entries, total).0)
    decreases |entries|
  {
    hide CanEvict, OnlyIdleRemoved, IsVictim, Idle;
    if total > limit && CanEvict(rank, entries) {
      var v := Victim(rank, entries);
      Smaller(entries, v);
      EvictsOnlyIdle(rank, limit, entries - {v}, total - entries[v].size);
      OneRemoved(entries, v, Evicted(rank, limit, entries, total).0);
    } else {
      NoneRemoved(entries);
    }
  }

  lemma OneRemoved(entries: Entries, v: string, left: Entries)
    requires v in entries && Idle(entries[v]) && OnlyIdleRemoved(entries - {v}, left)
    ensures OnlyIdleRemoved(entries, left)
  {
    forall id | id in entries && id !in left ensures Idle(entries[id]) {
      assert id == v || id in entries - {v};
    }
  }

  lemma NoneRemoved(entries: Entries)
    ensures OnlyIdleRemoved(entries, entries)
  {
  }

  /** Idle entries are there, and nothing can be evicted. */
  ghost predicate GivesUp(rank: Rank, entries: Entries) {
    IdleOnes(entries) != {} && !CanEvict(rank, entries)
  }

  /**
   * Eviction gives up on idle entries exactly when the first of them is the last of all, or when the
   * least recently modified from there on is one in use.
   */
  lemma WhenItGivesUp(rank: Rank, entries: Entries, first: string)
    requires Distinct(rank) && Lowest(rank, IdleOnes(entries), first)
    ensures GivesUp(rank, entries) <==>
              || From(rank, entries, first) == {first}
              || exists next, v :: Chosen(rank, entries, first, next, v) && !Idle(entries[v])
  {
    OneChoice(rank, entries, first);
    hide Lowest, Eldest, From;
    if exists v :: IsVictim(rank, entries, v) {
      var v :| IsVictim(rank, entries, v);
      var f, next :| Chosen(rank, entries, f, next, v);
      LowestIsOne(rank, IdleOnes(entries), first, f);
      ChosenIsThere(rank, entries, first, next, v);
      assert Chosen(rank, entries, first, next, v);
      if CanEvict(rank, entries) {
        VictimIsOne(rank, entries, v, Victim(rank, entries));
      }
      forall next', v' | Chosen(rank, entries, first, next', v') ensures v' == v {
        assert IsVictim(rank, entries, v');
        VictimIsOne(rank, entries, v, v');
      }
    }
  }

  lemma ChosenIsThere(rank: Rank, entries: Entries, first: string, next: string, v: string)
    requires Chosen(rank, entries, first, next, v)
    ensures v in entries && From(rank, entries, first) != {first}
  {
  }

  lemma {:induction false} HasLowest(rank: Rank, ids: set<string>) returns (x: string)
    requires ids != {}
    ensures Lowest(rank, ids, x)
    decreases ids
  {
    var y :| y in ids;
    if ids == {y} {
      x := y;
    } else {
      x := HasLowest(rank, ids - {y});
      x := if rank(y) < rank(x) then y else x;
      assert forall z | z in ids :: z == y || z in ids - {y};
    }
  }

  lemma {:induction false} HasOldest(entries: Entries, ids: set<string>) returns (x: string)
    requires ids != {} && ids <= entries.Keys
    ensures x in ids && forall y | y in ids :: entries[x].modified <= entries[y].modified
    decreases ids
  {
    var y :| y in ids;
    if ids == {y} {
      x := y;
    } else {
      x := HasOldest(entries, ids - {y});
      x := if entries[y].modified < entries[x].modified then y else x;
      assert forall z | z in ids :: z == y || z in ids - {y};
    }
  }

  lemma HasEldest(rank: Rank, entries: Entries, ids: set<string>, next: string) returns (v: string)
    requires ids <= entries.Keys && next in ids
    ensures Eldest(rank, entries, ids, next, v)
  {
    v := HasOldest(entries, ids);
    var oldest := set y | y in ids && entries[y].modified == entries[v].modified;
    assert v in oldest;
    if next in oldest {
      v := next;
    } else {
      v := HasLowest(rank, oldest);
    }
  }

  /** There is a choice exactly when something follows the first idle entry. */
  lemma OneChoice(rank: Rank, entries: Entries, first: string)
    requires Distinct(rank) && Lowest(rank, IdleOnes(entries), first)
    ensures (exists v :: IsVictim(rank, entries, v)) <==> From(rank, entries, first) != {first}
    ensures first in IdleOnes(entries)
  {
    var ids := From(rank, entries, first);
    assert first in ids;
    if ids != {first} {
      assert ids - {first} != {};
      var next := HasLowest(rank, ids - {first});
      var v := HasEldest(rank, entries, ids, next);
      assert Chosen(rank, entries, first, next, v);
      assert IsVictim(rank, entries, v);
    }
  }

  /** Two caches whose idle entry is not evicted: a single one, and one with an older entry in use behind it. */
  lemma GivesUpTooEarly(rank: Rank, a: string, b: string, e: Entry, f: Entry)
    requires Distinct(rank) && rank(a) < rank(b) && Idle(e) && !Idle(f) && f.modified <= e.modified
    ensures GivesUp(rank, map[a := e]) && GivesUp(rank, map[a := e, b := f])
  {
    var one, two := map[a := e], map[a := e, b := f];
    assert a in IdleOnes(one) && a in IdleOnes(two);
    assert IdleOnes(one) == {a} && IdleOnes(two) == {a};
    assert Lowest(rank, IdleOnes(one), a) && Lowest(rank, IdleOnes(two), a);
    assert From(rank, one, a) == {a} && From(rank, two, a) == {a, b};
    assert Chosen(rank, two, a, b, b);
    hide Lowest, Chosen, From;
    WhenItGivesUp(rank, one, a);
    WhenItGivesUp(rank, two, a);
  }
}
