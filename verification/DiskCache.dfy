/** The disk cache: per-resource locks, accessor counts, and the sizes it believes its files have. */
module DiskCache {
  import opened Eviction

  /** A stream of a resource, and the file that holds it. */
  datatype File = File(id: string, index: nat)

  /** A stream handed out and not yet released. */
  datatype Adapter = Adapter(file: File, writer: bool)

  datatype Opened = Refused | Stream(adapter: Adapter)

  // --- sums over the entries --------------------------------------------------------------------

  function SizeOf(e: Entry): nat { e.size }

  function AccessorsOf(e: Entry): nat { e.accessors }

  ghost function Sum(m: map<string, Entry>, f: Entry -> nat): nat
    decreases |m|
  {
    if m == map[] then 0
    else
      var id :| id in m;
      assert |m - {id}| < |m| by { Smaller(m, id); }
      f(m[id]) + Sum(m - {id}, f)
  }

  /** The sum may be split at any entry. */
  lemma {:induction false} SumSplit(m: map<string, Entry>, f: Entry -> nat, id: string)
    requires id in m
    ensures Sum(m, f) == f(m[id]) + Sum(m - {id}, f)
    decreases |m|
  {
    var first :| first in m && Sum(m, f) == f(m[first]) + Sum(m - {first}, f);
    if first != id {
      Smaller(m, first);
      Smaller(m, id);
      SumSplit(m - {first}, f, id);
      SumSplit(m - {id}, f, first);
      assert m - {first} - {id} == m - {id} - {first};
    }
  }

  lemma SumUpdate(m: map<string, Entry>, f: Entry -> nat, id: string, e: Entry)
    ensures Sum(m[id := e], f) == Sum(m, f) - (if id in m then f(m[id]) else 0) + f(e)
  {
    SumSplit(m[id := e], f, id);
    assert m[id := e] - {id} == m - {id};
    if id in m {
      SumSplit(m, f, id);
    } else {
      assert m - {id} == m;
    }
  }

  // --- live adapters ----------------------------------------------------------------------------

  function Count(adapters: seq<Adapter>, id: string): (n: nat)
    ensures n > 0 <==> exists i :: 0 <= i < |adapters| && adapters[i].file.id == id
  {
    if adapters == [] then 0
    else
      Count(adapters[..|adapters| - 1], id) + if adapters[|adapters| - 1].file.id == id then 1 else 0
  }

  lemma {:induction false} CountAppend(a: seq<Adapter>, b: seq<Adapter>, id: string)
    ensures Count(a + b, id) == Count(a, id) + Count(b, id)
    decreases |b|
  {
    if b == [] {
      assert a + b == a;
    } else {
      CountAppend(a, b[..|b| - 1], id);
      assert (a + b)[..|a + b| - 1] == a + b[..|b| - 1];
    }
  }

  lemma {:induction false} CountOneMore(adapters: seq<Adapter>, a: Adapter)
    ensures forall id :: Count(adapters + [a], id) == Count(adapters, id) + if a.file.id == id then 1 else 0
  {
    assert (adapters + [a])[..|adapters|] == adapters;
  }

  function Without(adapters: seq<Adapter>, k: nat): seq<Adapter>
    requires k < |adapters|
  {
    adapters[..k] + adapters[k + 1..]
  }

  lemma CountWithout(adapters: seq<Adapter>, k: nat, id: string)
    requires k < |adapters|
    ensures Count(Without(adapters, k), id) == Count(adapters, id) - if adapters[k].file.id == id then 1 else 0
  {
    assert adapters == adapters[..k] + ([adapters[k]] + adapters[k + 1..]);
    CountAppend(adapters[..k], [adapters[k]] + adapters[k + 1..], id);
    CountAppend([adapters[k]], adapters[k + 1..], id);
    CountAppend(adapters[..k], adapters[k + 1..], id);
    assert [adapters[k]][..0] == [];
  }

  predicate OpenForWriting(adapters: seq<Adapter>, f: File) {
    exists i :: 0 <= i < |adapters| && adapters[i].writer && adapters[i].file == f
  }

  // --- what the files weigh ---------------------------------------------------------------------

  /** On-disk size of the first n streams of a resource, those open for writing left out. */
  ghost function ClosedSize(files: map<File, nat>, adapters: seq<Adapter>, id: string, n: nat): nat {
    if n == 0 then 0
    else
      var f := File(id, n - 1);
      ClosedSize(files, adapters, id, n - 1)
      + if f in files && !OpenForWriting(adapters, f) then files[f] else 0
  }

  /** Only the files of this resource, and whether they are open, matter. */
  lemma {:induction false} ClosedSizeSame(files: map<File, nat>, adapters: seq<Adapter>,
                                          files': map<File, nat>, adapters': seq<Adapter>, id: string, n: nat)
    requires forall i | 0 <= i < n ::
               var f := File(id, i);
               && OpenForWriting(adapters, f) == OpenForWriting(adapters', f)
               && (!OpenForWriting(adapters, f) ==> (f in files) == (f in files') && (f in files ==> files[f] == files'[f]))
    ensures ClosedSize(files, adapters, id, n) == ClosedSize(files', adapters', id, n)
    decreases n
  {
    hide OpenForWriting;
    if n > 0 {
      var f := File(id, n - 1);
      ClosedSizeSame(files, adapters, files', adapters', id, n - 1);
    }
  }

  /** Opening one file for writing takes its old size out of the sum. */
  lemma {:induction false} ClosedSizeWithout(files: map<File, nat>, adapters: seq<Adapter>,
                                             files': map<File, nat>, adapters': seq<Adapter>, id: string, k: nat, n: nat)
    requires k < n && !OpenForWriting(adapters, File(id, k)) && OpenForWriting(adapters', File(id, k))
    requires forall i | 0 <= i < n && i != k ::
               var f := File(id, i);
               && OpenForWriting(adapters, f) == OpenForWriting(adapters', f)
               && (!OpenForWriting(adapters, f) ==> (f in files) == (f in files') && (f in files ==> files[f] == files'[f]))
    ensures ClosedSize(files, adapters, id, n)
         == ClosedSize(files', adapters', id, n) + if File(id, k) in files then files[File(id, k)] else 0
    decreases n
  {
    hide OpenForWriting;
    if n - 1 == k {
      ClosedSizeSame(files, adapters, files', adapters', id, n - 1);
    } else {
      var f := File(id, n - 1);
      ClosedSizeWithout(files, adapters, files', adapters', id, k, n - 1);
    }
  }

  /** Streams without a file add nothing. */
  lemma {:induction false} ClosedSizeBeyond(files: map<File, nat>, adapters: seq<Adapter>, id: string, n: nat, more: nat)
    requires n <= more && forall i | n <= i < more :: File(id, i) !in files
    ensures ClosedSize(files, adapters, id, more) == ClosedSize(files, adapters, id, n)
    decreases more - n
  {
    hide OpenForWriting;
    if n < more {
      ClosedSizeBeyond(files, adapters, id, n, more - 1);
      assert File(id, more - 1) !in files;
    }
  }

  // --- the invariants ---------------------------------------------------------------------------

  ghost predicate Accounted(entries: map<string, Entry>, totalSize: nat, totalAccessors: nat) {
    totalSize == Sum(entries, SizeOf) && totalAccessors == Sum(entries, AccessorsOf)
  }

  /**
   * Every live adapter has its entry, and writes exactly when that entry is not unlocked, so that
   * readers and writers of one resource never coexist; accessors count the live adapters; and an
   * entry that is unlocking still has one.
   */
  ghost predicate LocksAgree(entries: map<string, Entry>, adapters: seq<Adapter>) {
    && (forall i | 0 <= i < |adapters| ::
          adapters[i].file.id in entries && adapters[i].writer == !entries[adapters[i].file.id].lock.Unlocked?)
    && (forall id | id in entries ::
          entries[id].accessors == Count(adapters, id) && (entries[id].lock.Unlocking? ==> entries[id].accessors > 0))
  }

  /**
   * Files belong to known streams, a file being written exists and has one writer, and each
   * entry's size is the on-disk size of its streams that are not being written.
   */
  ghost predicate DiskAgrees(entries: map<string, Entry>, files: map<File, nat>, adapters: seq<Adapter>) {
    && FilesKnown(entries, files)
    && WritersDistinct(files, adapters)
    && forall id | id in entries :: entries[id].size == ClosedSize(files, adapters, id, entries[id].streams)
  }

  ghost predicate FilesKnown(entries: map<string, Entry>, files: map<File, nat>) {
    forall f | f in files :: f.id in entries && f.index < entries[f.id].streams
  }

  ghost predicate WritersDistinct(files: map<File, nat>, adapters: seq<Adapter>) {
    && (forall i | 0 <= i < |adapters| && adapters[i].writer :: adapters[i].file in files)
    && (forall i, j | 0 <= i < j < |adapters| && adapters[i].writer && adapters[j].writer :: adapters[i].file != adapters[j].file)
  }

  function Max(a: nat, b: nat): nat {
    if a > b then a else b
  }

  function FileSize(files: map<File, nat>, f: File): nat {
    if f in files then files[f] else 0
  }

  /** The entry once f was opened for writing. */
  function Rewritten(e: Entry, files: map<File, nat>, f: File): Entry {
    var previous := FileSize(files, f);
    e.(accessors := e.accessors + 1, streams := Max(e.streams, f.index + 1),
       size := if previous > e.size then 0 else e.size - previous)
  }

  /** The entry once an adapter of f was released, with a pending unlock completed by the last one. */
  function Released(e: Entry, files: map<File, nat>, f: File, now: int): Entry
    requires e.accessors > 0
  {
    var last := e.lock.Unlocking? && e.accessors == 1;
    e.(accessors := e.accessors - 1,
       size := if e.lock.Unlocked? then e.size else e.size + FileSize(files, f),
       lock := if last then Unlocked else e.lock,
       modified := if last then now else e.modified)
  }

  /** A writer joins: its file is emptied, and its old size leaves the entry's. */
  lemma OpenWriter(entries: map<string, Entry>, adapters: seq<Adapter>, f: File, e: Entry)
    requires LocksAgree(entries, adapters) && f.id in entries && entries[f.id].lock.Locked?
    requires e.lock.Locked? && e.accessors == entries[f.id].accessors + 1
    ensures LocksAgree(entries[f.id := e], adapters + [Adapter(f, true)])
  {
    hide Count;
    CountOneMore(adapters, Adapter(f, true));
  }

  lemma WriterWeighs(entries: map<string, Entry>, files: map<File, nat>, adapters: seq<Adapter>, f: File)
    requires DiskAgrees(entries, files, adapters) && f.id in entries && f in files && !OpenForWriting(adapters, f)
    ensures files[f] <= entries[f.id].size
  {
    var some := adapters + [Adapter(f, true)];
    OpenAfterAppend(adapters, Adapter(f, true));
    hide OpenForWriting;
    ClosedSizeWithout(files, adapters, files, some, f.id, f.index, entries[f.id].streams);
  }

  lemma OpenAfterAppend(adapters: seq<Adapter>, a: Adapter)
    ensures forall f :: OpenForWriting(adapters + [a], f) == (OpenForWriting(adapters, f) || (a.writer && a.file == f))
  {
    forall f
      ensures OpenForWriting(adapters + [a], f) == (OpenForWriting(adapters, f) || (a.writer && a.file == f))
    {
      var more := adapters + [a];
      if OpenForWriting(adapters, f) {
        var i :| 0 <= i < |adapters| && adapters[i].writer && adapters[i].file == f;
        assert more[i] == adapters[i];
      }
      if a.writer && a.file == f {
        assert more[|adapters|] == a;
      }
    }
  }

  lemma OpenWriterOnDisk(entries: map<string, Entry>, files: map<File, nat>, adapters: seq<Adapter>, f: File, e: Entry)
    requires DiskAgrees(entries, files, adapters) && f.id in entries && !OpenForWriting(adapters, f)
    requires e.streams == Max(entries[f.id].streams, f.index + 1)
    requires e.size == entries[f.id].size - if f in files then files[f] else 0
    ensures DiskAgrees(entries[f.id := e], files[f := 0], adapters + [Adapter(f, true)])
  {
    var entries', files', adapters' := entries[f.id := e], files[f := 0], adapters + [Adapter(f, true)];
    OpenAfterAppend(adapters, Adapter(f, true));
    WriterIsDistinct(files, adapters, f);
    hide OpenForWriting, WritersDistinct;
    forall id | id in entries'
      ensures entries'[id].size == ClosedSize(files', adapters', id, entries'[id].streams)
    {
      if id == f.id {
        ClosedSizeBeyond(files, adapters, id, entries[id].streams, e.streams);
        ClosedSizeWithout(files, adapters, files', adapters', id, f.index, e.streams);
      } else {
        ClosedSizeSame(files, adapters, files', adapters', id, entries[id].streams);
      }
    }
  }

  lemma WriterIsDistinct(files: map<File, nat>, adapters: seq<Adapter>, f: File)
    requires WritersDistinct(files, adapters) && !OpenForWriting(adapters, f)
    ensures WritersDistinct(files[f := 0], adapters + [Adapter(f, true)])
  {
  }

  /** A reader joins. */
  lemma OpenReader(entries: map<string, Entry>, adapters: seq<Adapter>, f: File)
    requires LocksAgree(entries, adapters) && f.id in entries && entries[f.id].lock.Unlocked?
    ensures var e := entries[f.id];
            LocksAgree(entries[f.id := e.(accessors := e.accessors + 1)], adapters + [Adapter(f, false)])
  {
    hide Count;
    CountOneMore(adapters, Adapter(f, false));
  }

  lemma OpenReaderOnDisk(entries: map<string, Entry>, files: map<File, nat>, adapters: seq<Adapter>, f: File)
    requires DiskAgrees(entries, files, adapters) && f.id in entries
    ensures var e := entries[f.id];
            DiskAgrees(entries[f.id := e.(accessors := e.accessors + 1)], files, adapters + [Adapter(f, false)])
  {
    var e := entries[f.id];
    var adapters' := adapters + [Adapter(f, false)];
    OpenAfterAppend(adapters, Adapter(f, false));
    assert WritersDistinct(files, adapters');
    hide OpenForWriting, WritersDistinct;
    SameOnDisk(entries, entries[f.id := e.(accessors := e.accessors + 1)], files, adapters, adapters');
  }

  /** Changes that touch neither sizes, streams, files nor writers leave the disk in agreement. */
  lemma SameOnDisk(entries: map<string, Entry>, entries': map<string, Entry>, files: map<File, nat>,
                   adapters: seq<Adapter>, adapters': seq<Adapter>)
    requires DiskAgrees(entries, files, adapters) && WritersDistinct(files, adapters')
    requires entries.Keys == entries'.Keys
    requires forall id | id in entries :: entries'[id].size == entries[id].size && entries'[id].streams == entries[id].streams
    requires forall f :: OpenForWriting(adapters', f) == OpenForWriting(adapters, f)
    ensures DiskAgrees(entries', files, adapters')
  {
    hide OpenForWriting, WritersDistinct;
    forall id | id in entries'
      ensures entries'[id].size == ClosedSize(files, adapters', id, entries'[id].streams)
    {
      ClosedSizeSame(files, adapters, files, adapters', id, entries[id].streams);
    }
  }

  /** An adapter leaves. */
  lemma CloseAdapter(entries: map<string, Entry>, adapters: seq<Adapter>, k: nat, e: Entry)
    requires LocksAgree(entries, adapters) && k < |adapters|
    requires var was := entries[adapters[k].file.id];
             && e.accessors == was.accessors - 1
             && (e.lock == was.lock || (was.lock.Unlocking? && e.accessors == 0 && e.lock.Unlocked?))
             && (e.lock.Unlocking? ==> e.accessors > 0)
    ensures LocksAgree(entries[adapters[k].file.id := e], Without(adapters, k))
  {
    var gone, rest := adapters[k], Without(adapters, k);
    forall id
      ensures Count(rest, id) == Count(adapters, id) - if gone.file.id == id then 1 else 0
    {
      CountWithout(adapters, k, id);
    }
    if e.lock != entries[gone.file.id].lock {
      assert Count(rest, gone.file.id) == 0;
    }
    forall i | 0 <= i < |rest|
      ensures rest[i] in adapters
    {
    }
    hide Count;
  }

  lemma OpenAfterClose(files: map<File, nat>, adapters: seq<Adapter>, k: nat)
    requires k < |adapters| && WritersDistinct(files, adapters)
    ensures WritersDistinct(files, Without(adapters, k))
    ensures forall f :: OpenForWriting(Without(adapters, k), f)
                        == (OpenForWriting(adapters, f) && !(adapters[k].writer && adapters[k].file == f))
  {
    var rest := Without(adapters, k);
    assert forall i | 0 <= i < |rest| :: rest[i] == adapters[if i < k then i else i + 1];
    forall f
      ensures OpenForWriting(rest, f) == (OpenForWriting(adapters, f) && !(adapters[k].writer && adapters[k].file == f))
    {
      if OpenForWriting(adapters, f) && !(adapters[k].writer && adapters[k].file == f) {
        var i :| 0 <= i < |adapters| && adapters[i].writer && adapters[i].file == f;
        var j := if i < k then i else i - 1;
        assert rest[j] == adapters[i];
      }
    }
  }

  lemma CloseReaderOnDisk(entries: map<string, Entry>, files: map<File, nat>, adapters: seq<Adapter>, k: nat, e: Entry)
    requires DiskAgrees(entries, files, adapters) && k < |adapters| && !adapters[k].writer && adapters[k].file.id in entries
    requires e.size == entries[adapters[k].file.id].size && e.streams == entries[adapters[k].file.id].streams
    ensures DiskAgrees(entries[adapters[k].file.id := e], files, Without(adapters, k))
  {
    OpenAfterClose(files, adapters, k);
    hide OpenForWriting, WritersDistinct;
    SameOnDisk(entries, entries[adapters[k].file.id := e], files, adapters, Without(adapters, k));
  }

  lemma CloseWriterOnDisk(entries: map<string, Entry>, files: map<File, nat>, adapters: seq<Adapter>, k: nat, e: Entry)
    requires DiskAgrees(entries, files, adapters) && k < |adapters| && adapters[k].writer && adapters[k].file.id in entries
    requires e.streams == entries[adapters[k].file.id].streams
    requires adapters[k].file in files && e.size == entries[adapters[k].file.id].size + files[adapters[k].file]
    ensures DiskAgrees(entries[adapters[k].file.id := e], files, Without(adapters, k))
  {
    var f, rest := adapters[k].file, Without(adapters, k);
    var entries' := entries[f.id := e];
    OpenAfterClose(files, adapters, k);
    hide WritersDistinct;
    forall id | id in entries'
      ensures entries'[id].size == ClosedSize(files, rest, id, entries'[id].streams)
    {
      assert OpenForWriting(adapters, f);
      hide OpenForWriting;
      if id == f.id {
        ClosedSizeWithout(files, rest, files, adapters, id, f.index, e.streams);
      } else {
        ClosedSizeSame(files, adapters, files, rest, id, entries[id].streams);
      }
    }
  }

  /** A resource without adapters goes, and its files with it. */
  lemma RemoveEntry(entries: map<string, Entry>, adapters: seq<Adapter>, id: string)
    requires LocksAgree(entries, adapters) && id in entries && entries[id].accessors == 0
    ensures LocksAgree(entries - {id}, adapters)
  {
    assert Count(adapters, id) == 0;
  }

  /** The files are as before, except that some of the first n streams of `id` may be missing. */
  ghost predicate OnlyFewer(files: map<File, nat>, files': map<File, nat>, id: string, n: nat) {
    && (forall f | f in files' :: f in files && files'[f] == files[f])
    && (forall f | f in files && (f.id != id || f.index >= n) :: f in files')
  }

  ghost predicate Gone(files: map<File, nat>, id: string, n: nat) {
    forall f | f in files :: f.id != id || f.index >= n
  }

  lemma WritersStay(entries: map<string, Entry>, files: map<File, nat>, files': map<File, nat>, adapters: seq<Adapter>, id: string)
    requires WritersDistinct(files, adapters) && LocksAgree(entries, adapters)
    requires id in entries && entries[id].accessors == 0
    requires OnlyFewer(files, files', id, entries[id].streams)
    ensures WritersDistinct(files', adapters)
  {
    assert Count(adapters, id) == 0;
    hide Count;
  }

  lemma RemoveEntryOnDisk(entries: map<string, Entry>, files: map<File, nat>, files': map<File, nat>,
                          adapters: seq<Adapter>, id: string)
    requires DiskAgrees(entries, files, adapters) && LocksAgree(entries, adapters)
    requires id in entries && entries[id].accessors == 0
    requires OnlyFewer(files, files', id, entries[id].streams) && Gone(files', id, entries[id].streams)
    ensures DiskAgrees(entries - {id}, files', adapters)
  {
    hide OpenForWriting, WritersDistinct, Count, LocksAgree;
    WritersStay(entries, files, files', adapters, id);
    forall other | other in entries && other != id
      ensures entries[other].size == ClosedSize(files', adapters, other, entries[other].streams)
    {
      ClosedSizeSame(files, adapters, files', adapters, other, entries[other].streams);
    }
  }

  lemma SetLock(entries: map<string, Entry>, adapters: seq<Adapter>, id: string, lock: LockState, modified: int)
    requires LocksAgree(entries, adapters) && id in entries
    requires entries[id].accessors == 0 || (lock.Unlocked? <==> entries[id].lock.Unlocked?)
    requires lock.Unlocking? ==> entries[id].accessors > 0
    ensures LocksAgree(entries[id := entries[id].(lock := lock, modified := modified)], adapters)
  {
    if entries[id].accessors == 0 {
      assert Count(adapters, id) == 0;
    }
  }

  function NewEntry(now: int): Entry {
    Entry(Unlocked, 0, 0, 0, now)
  }

  /** A resource nobody asked for yet gets an empty entry. */
  lemma AddEntry(entries: map<string, Entry>, adapters: seq<Adapter>, id: string, now: int)
    requires LocksAgree(entries, adapters) && id !in entries
    ensures LocksAgree(entries[id := NewEntry(now)], adapters)
  {
    assert Count(adapters, id) == 0;
    hide Count;
  }

  lemma AddEntryOnDisk(entries: map<string, Entry>, files: map<File, nat>, adapters: seq<Adapter>, id: string, now: int)
    requires DiskAgrees(entries, files, adapters) && id !in entries
    ensures DiskAgrees(entries[id := NewEntry(now)], files, adapters)
  {
    hide OpenForWriting, WritersDistinct;
  }

  /** What the two totals must become when one entry changes or is added. */
  lemma AccountedUpdate(entries: map<string, Entry>, totalSize: nat, totalAccessors: nat, id: string, e: Entry)
    requires Accounted(entries, totalSize, totalAccessors)
    ensures var was := if id in entries then entries[id] else NewEntry(0);
            && was.size <= totalSize && was.accessors <= totalAccessors
            && Accounted(entries[id := e], totalSize - was.size + e.size, totalAccessors - was.accessors + e.accessors)
  {
    SumUpdate(entries, SizeOf, id, e);
    SumUpdate(entries, AccessorsOf, id, e);
    if id in entries {
      SumSplit(entries, SizeOf, id);
      SumSplit(entries, AccessorsOf, id);
    }
  }

  lemma AccountedRemove(entries: map<string, Entry>, totalSize: nat, totalAccessors: nat, id: string)
    requires Accounted(entries, totalSize, totalAccessors) && id in entries && entries[id].accessors == 0
    ensures entries[id].size <= totalSize && Accounted(entries - {id}, totalSize - entries[id].size, totalAccessors)
  {
    SumSplit(entries, SizeOf, id);
    SumSplit(entries, AccessorsOf, id);
  }

  /** Two live adapters of one resource both read or both write. */
  lemma ReadersExcludeWriters(entries: map<string, Entry>, adapters: seq<Adapter>, i: nat, j: nat)
    requires LocksAgree(entries, adapters) && i < |adapters| && j < |adapters|
    requires adapters[i].file.id == adapters[j].file.id
    ensures adapters[i].writer == adapters[j].writer
    ensures entries[adapters[i].file.id].accessors == Count(adapters, adapters[i].file.id) >= 1
  {
  }

  /** Every other entry is locked, about to be unlocked, or in use. */
  ghost predicate NoneIdleBut(id: string, entries: map<string, Entry>) {
    forall other | other in entries && other != id :: !entries[other].lock.Unlocked? || entries[other].accessors > 0
  }

  lemma Kept(entries: map<string, Entry>, entries': map<string, Entry>, id: string, e: Entry)
    requires OnlyIdleRemoved(entries, entries') && id in entries
    ensures if id in entries' then entries'[id] == entries[id] else entries[id].lock.Unlocked?
    ensures id in entries' ==> entries'[id := e][id := entries[id]] == entries'
  {
  }

  /** When something was removed and only one entry could be, it is that one. */
  lemma OnlyOneIdle(entries: map<string, Entry>, entries': map<string, Entry>, id: string)
    requires OnlyIdleRemoved(entries, entries') && exists v :: v in entries && v !in entries'
    ensures NoneIdleBut(id, entries) ==> id !in entries'
  {
  }

  /** A live adapter has its entry; a writer's file exists as long as the disk agrees. */
  lemma AdapterHasEntry(entries: map<string, Entry>, files: map<File, nat>, adapters: seq<Adapter>, k: nat)
    requires LocksAgree(entries, adapters) && k < |adapters|
    ensures adapters[k].file.id in entries && entries[adapters[k].file.id].accessors > 0
    ensures adapters[k].writer == !entries[adapters[k].file.id].lock.Unlocked?
    ensures DiskAgrees(entries, files, adapters) && adapters[k].writer ==> adapters[k].file in files
  {
    assert Count(adapters, adapters[k].file.id) > 0;
  }

  class Cache {
    /** Whether the folder was set. */
    var ready: bool
    var maxCache: nat
    var totalSize: nat
    var totalAccessors: nat
    var entries: map<string, Entry>
    /** The files on disk with their sizes. */
    var files: map<File, nat>
    /** The streams handed out and not yet released. */
    var adapters: seq<Adapter>
    /** Whether the file system deletes whatever it is asked to. */
    const reliable: bool
    /** The order of the map of entries. */
    const rank: Rank
    /**
     * No file was too large for the scan, no stream was ever opened for writing twice at once, and
     * every deletion succeeded.
     */
    ghost var clean: bool

    ghost predicate Valid()
      reads this
    {
      && Accounted(entries, totalSize, totalAccessors)
      && LocksAgree(entries, adapters)
      && (clean ==> DiskAgrees(entries, files, adapters))
      && Distinct(rank)
    }

    constructor (reliable: bool, rank: Rank)
      requires Distinct(rank)
      ensures Valid() && this.reliable == reliable && this.rank == rank
      ensures !ready && entries == map[] && files == map[] && adapters == [] && clean && totalSize == maxCache == 0
    {
      this.reliable, this.rank := reliable, rank;
      ready, maxCache, totalSize, totalAccessors := false, 0, 0, 0;
      entries, files, adapters, clean := map[], map[], [], true;
    }

    /**
     * Initialize: takes the books from the files in the folder, once, and evicts down to the limit.
     * The books agree with the disk exactly when every file's size fits the 32 bits that are looked at.
     */
    method Initialize(size: nat, found: map<File, nat>, written: File -> int, created: bool)
      returns (ok: bool, ghost restored: map<string, Entry>)
      requires Valid() && (!ready ==> entries == map[] && adapters == [])
      modifies this
      ensures Valid() && (old(ready) ==> !ok && entries == old(entries) && files == old(files))
      ensures ready == (old(ready) || created)
      ensures ok ==> ready && maxCache == size && totalSize <= maxCache
      ensures !old(ready) && ready ==>
                DiskAgrees(restored, Low(found), []) && AllIdle(restored) && OnlyIdleRemoved(restored, entries)
      ensures !ready ==> clean == old(clean)
      ensures !old(ready) && ready && clean ==> forall f | f in found :: found[f] < WORD
      ensures !old(ready) && ready && reliable ==> (clean <==> forall f | f in found :: found[f] < WORD)
    {
      hide LocksAgree, DiskAgrees, Low;
      restored := map[];
      if ready || !created {
        return false, restored;
      }
      ready, maxCache, files := true, size, found;
      InitializeEntries(written);
      restored := entries;
      ok := CheckLimit();
    }

    /** InitializeEntries: goes through the files in any order. */
    method InitializeEntries(written: File -> int)
      requires entries == map[] && adapters == [] && totalSize == totalAccessors == 0 && Distinct(rank)
      modifies this`entries, this`totalSize, this`clean
      ensures Valid() && DiskAgrees(entries, Low(files), []) && AllIdle(entries)
      ensures forall id | id in entries :: exists i :: File(id, i) in files && entries[id].modified == written(File(id, i))
      ensures clean == (forall f | f in files :: files[f] < WORD)
      ensures clean == DiskAgrees(entries, files, [])
    {
      hide DiskAgrees, Accounted, Sum, LocksAgree;
      var left := files.Keys;
      ghost var seen: map<File, nat> := map[];
      NothingFound();
      while left != {}
        invariant left <= files.Keys && seen.Keys == files.Keys - left
        invariant forall f | f in seen :: seen[f] == files[f] % WORD
        invariant Accounted(entries, totalSize, totalAccessors) && totalAccessors == 0
        invariant DiskAgrees(entries, seen, []) && AllIdle(entries)
        invariant forall id | id in entries :: exists i :: File(id, i) in files && entries[id].modified == written(File(id, i))
        decreases left
      {
        var f :| f in left;
        var low := files[f] % WORD;
        var e := if f.id in entries then entries[f.id] else NewEntry(0);
        var e' := e.(size := e.size + low, streams := Max(e.streams, f.index + 1), modified := written(f));
        FoundFile(entries, seen, f, low, written(f));
        AccountedUpdate(entries, totalSize, totalAccessors, f.id, e');
        entries := entries[f.id := e'];
        totalSize := totalSize + low;
        seen := seen[f := low];
        left := left - {f};
      }
      assert seen == Low(files);
      clean := forall f | f in files :: files[f] < WORD;
      LowAgrees(entries, files);
      IdleLocks(entries);
    }

    /** GetOrCreateEntry: a resource nobody asked for yet gets an empty entry, which changes no total. */
    method GetOrCreateEntry(id: string, now: int)
      requires Valid()
      modifies this`entries
      ensures Valid()
      ensures entries == old(entries)[id := if id in old(entries) then old(entries)[id] else NewEntry(now)]
    {
      hide LocksAgree, DiskAgrees, Accounted;
      if id !in entries {
        AddEntry(entries, adapters, id, now);
        if clean {
          AddEntryOnDisk(entries, files, adapters, id, now);
        }
        AccountedUpdate(entries, totalSize, totalAccessors, id, NewEntry(now));
        entries := entries[id := NewEntry(now)];
      }
    }

    /**
     * LockResource: from unlocked without readers, or from unlocking. Over its limit the cache evicts
     * first. The source goes on with the entry it found before, so the lock is `lost` when that entry
     * was evicted: only over the limit and never while an unlock is pending, but whenever the lock is
     * granted over the limit and no other entry could be evicted.
     */
    method LockResource(id: string, now: int) returns (ok: bool, lost: bool)
      requires Valid()
      modifies this`entries, this`totalSize, this`files, this`clean
      ensures Valid() && (lost ==> ok) && (reliable ==> clean == old(clean))
      ensures var e := if id in old(entries) then old(entries)[id] else NewEntry(now);
              var entries' := old(entries)[id := e];
              if e.lock.Locked? || (e.lock.Unlocked? && e.accessors > 0) then !ok && entries == entries'
              else
                && (old(totalSize) <= maxCache ==> ok && !lost && entries == entries'[id := e.(lock := Locked)])
                && (!ok ==> OnlyIdleRemoved(entries', entries))
                && (ok && !lost ==> id in entries && entries[id] == e.(lock := Locked) && OnlyIdleRemoved(entries', entries[id := e]))
                && (lost ==> id !in entries && OnlyIdleRemoved(entries', entries) && old(totalSize) > maxCache && e.lock.Unlocked?)
                && (ok && old(totalSize) > maxCache && NoneIdleBut(id, entries') ==> lost)
                && (reliable ==>
                      var (left, total) := Evicted(rank, maxCache, entries', old(totalSize));
                      && (ok <==> total <= maxCache) && (lost <==> ok && id !in left)
                      && entries == if ok && !lost then left[id := e.(lock := Locked)] else left)
    {
      hide LocksAgree, DiskAgrees, Accounted, OnlyIdleRemoved, NoneIdleBut;
      GetOrCreateEntry(id, now);
      var e := entries[id];
      if e.lock.Locked? || (e.lock.Unlocked? && e.accessors > 0) {
        return false, false;
      }
      ghost var created := entries;
      NoneRemoved(created);
      if totalSize > maxCache {
        var within := CheckLimit();
        if !within {
          return false, false;
        }
        OnlyOneIdle(created, entries, id);
      }
      Kept(created, entries, id, e.(lock := Locked));
      if id !in entries {
        return true, true;
      }
      Relock(id, Locked, e.modified);
      assert entries[id := e] == old(entries)[id := e] || old(totalSize) > maxCache;
      return true, false;
    }

    /** Changes the lock of an entry and when it was modified, and nothing else. */
    method Relock(id: string, lock: LockState, modified: int)
      requires Valid() && id in entries
      requires entries[id].accessors == 0 || (lock.Unlocked? <==> entries[id].lock.Unlocked?)
      requires lock.Unlocking? ==> entries[id].accessors > 0
      modifies this`entries
      ensures Valid() && entries == old(entries)[id := old(entries)[id].(lock := lock, modified := modified)]
    {
      hide LocksAgree, Accounted, OpenForWriting, ClosedSize;
      var e := entries[id].(lock := lock, modified := modified);
      SetLock(entries, adapters, id, lock, modified);
      if clean {
        SameOnDisk(entries, entries[id := e], files, adapters, adapters);
      }
      AccountedUpdate(entries, totalSize, totalAccessors, id, e);
      entries := entries[id := e];
    }

    /**
     * WriteResource: only under the lock; empties the file and takes its size off the books. The
     * source asserts that the file is not larger than the entry: it is not, unless it is open already.
     */
    method WriteResource(id: string, index: nat, canOpen: bool) returns (stream: Opened)
      requires Valid() && id in entries
      modifies this`entries, this`totalSize, this`totalAccessors, this`adapters, this`files, this`clean
      ensures Valid()
      ensures stream.Refused? ==> entries == old(entries) && adapters == old(adapters) && files == old(files)
      ensures stream.Refused? <==> !old(entries)[id].lock.Locked? || !canOpen
      ensures !stream.Refused? ==>
                && stream.adapter == Adapter(File(id, index), true)
                && adapters == old(adapters) + [stream.adapter] && files == old(files)[File(id, index) := 0]
                && entries == old(entries)[id := Rewritten(old(entries)[id], old(files), File(id, index))]
      ensures clean == (old(clean) && (stream.Refused? || !OpenForWriting(old(adapters), File(id, index))))
      ensures old(clean) && !OpenForWriting(old(adapters), File(id, index)) ==>
                FileSize(old(files), File(id, index)) <= old(entries)[id].size
    {
      hide LocksAgree, DiskAgrees, Accounted, OpenForWriting;
      var e, f := entries[id], File(id, index);
      if clean && f in files && !OpenForWriting(adapters, f) {
        WriterWeighs(entries, files, adapters, f);
      }
      if !e.lock.Locked? {
        return Refused;
      }
      var previous := FileSize(files, f);
      if previous > e.size {
        previous := e.size;
      }
      if !canOpen {
        return Refused;
      }
      var e' := e.(accessors := e.accessors + 1, size := e.size - previous, streams := Max(e.streams, index + 1));
      OpenWriter(entries, adapters, f, e');
      if clean && !OpenForWriting(adapters, f) {
        OpenWriterOnDisk(entries, files, adapters, f, e');
      }
      clean := clean && !OpenForWriting(adapters, f);
      AccountedUpdate(entries, totalSize, totalAccessors, id, e');
      entries := entries[id := e'];
      totalSize := totalSize - previous;
      totalAccessors := totalAccessors + 1;
      files := files[f := 0];
      adapters := adapters + [Adapter(f, true)];
      return Stream(Adapter(f, true));
    }

    /** A writer changes the length of its file. */
    method WriteToFile(k: nat, size: nat)
      requires Valid() && k < |adapters| && adapters[k].writer
      modifies this`files
      ensures Valid() && files == old(files)[adapters[k].file := size]
    {
      if clean {
        GrowOnDisk(entries, files, adapters, k, size);
      }
      files := files[adapters[k].file := size];
    }

    /** UnlockResource: at once without writers, otherwise when the last of them is released. */
    method UnlockResource(id: string, now: int) returns (ok: bool)
      requires Valid() && id in entries
      modifies this`entries, this`totalSize, this`files, this`clean
      ensures Valid() && (reliable ==> clean == old(clean))
      ensures ok == old(entries)[id].lock.Locked?
      ensures !ok ==> entries == old(entries)
      ensures ok && old(entries)[id].accessors > 0 ==> entries == old(entries)[id := old(entries)[id].(lock := Unlocking)]
      ensures ok && old(entries)[id].accessors == 0 ==>
                var entries' := old(entries)[id := old(entries)[id].(lock := Unlocked, modified := now)];
                && OnlyIdleRemoved(entries', entries)
                && (reliable ==> (entries, totalSize) == Evicted(rank, maxCache, entries', old(totalSize)))
    {
      if !entries[id].lock.Locked? {
        return false;
      }
      if entries[id].accessors > 0 {
        Relock(id, Unlocking, entries[id].modified);
      } else {
        Relock(id, Unlocked, now);
        var within := CheckLimit();
      }
      return true;
    }

    /** ReadResource: only while unlocked, and only streams that were written. */
    method ReadResource(id: string, index: nat, canOpen: bool) returns (stream: Opened)
      requires Valid() && id in entries
      modifies this`entries, this`totalAccessors, this`adapters
      ensures Valid()
      ensures stream.Refused? ==> entries == old(entries) && adapters == old(adapters)
      ensures stream.Refused? <==> !old(entries)[id].lock.Unlocked? || index >= old(entries)[id].streams || !canOpen
      ensures !stream.Refused? ==>
                && stream.adapter == Adapter(File(id, index), false)
                && adapters == old(adapters) + [stream.adapter]
                && entries == old(entries)[id := old(entries)[id].(accessors := old(entries)[id].accessors + 1)]
    {
      hide LocksAgree, DiskAgrees, Accounted;
      var e, f := entries[id], File(id, index);
      if !e.lock.Unlocked? || index >= e.streams {
        return Refused;
      }
      if !canOpen {
        return Refused;
      }
      var e' := e.(accessors := e.accessors + 1);
      OpenReader(entries, adapters, f);
      if clean {
        OpenReaderOnDisk(entries, files, adapters, f);
      }
      AccountedUpdate(entries, totalSize, totalAccessors, id, e');
      entries := entries[id := e'];
      totalAccessors := totalAccessors + 1;
      adapters := adapters + [Adapter(f, false)];
      return Stream(Adapter(f, false));
    }

    /**
     * ReleaseResource, from the adapter's destructor: its entry is always there. A writer's file
     * goes back on the books, and the last writer completes a pending unlock.
     */
    method ReleaseResource(k: nat, now: int) returns (missing: bool)
      requires Valid() && k < |adapters|
      modifies this`entries, this`totalSize, this`totalAccessors, this`adapters, this`files, this`clean
      ensures Valid() && !missing && (reliable ==> clean == old(clean))
      ensures adapters == Without(old(adapters), k)
      ensures var f := old(adapters)[k].file;
              f.id in old(entries) && old(entries)[f.id].accessors > 0
              && (if old(entries)[f.id].lock.Unlocking? && old(entries)[f.id].accessors == 1
                  then
                    var entries' := old(entries)[f.id := Released(old(entries)[f.id], old(files), f, now)];
                    && OnlyIdleRemoved(entries', entries)
                    && (reliable ==> (entries, totalSize) == Evicted(rank, maxCache, entries', old(totalSize) + FileSize(old(files), f)))
                  else entries == old(entries)[f.id := Released(old(entries)[f.id], old(files), f, now)])
    {
      hide LocksAgree, DiskAgrees, Accounted;
      var f := adapters[k].file;
      AdapterHasEntry(entries, files, adapters, k);
      missing := f.id !in entries;
      var e := entries[f.id];
      var e' := e.(accessors := e.accessors - 1);
      if e.lock.Unlocked? {
        CloseAdapter(entries, adapters, k, e');
        if clean {
          CloseReaderOnDisk(entries, files, adapters, k, e');
        }
        AccountedUpdate(entries, totalSize, totalAccessors, f.id, e');
        entries := entries[f.id := e'];
        totalAccessors := totalAccessors - 1;
        adapters := Without(adapters, k);
        return;
      }
      var size := FileSize(files, f);
      e' := e'.(size := e.size + size);
      var last := e.lock.Unlocking? && e'.accessors == 0;
      if last {
        e' := e'.(lock := Unlocked, modified := now);
      }
      CloseAdapter(entries, adapters, k, e');
      if clean {
        CloseWriterOnDisk(entries, files, adapters, k, e');
      }
      AccountedUpdate(entries, totalSize, totalAccessors, f.id, e');
      entries := entries[f.id := e'];
      totalAccessors := totalAccessors - 1;
      totalSize := totalSize + size;
      adapters := Without(adapters, k);
      if last {
        var within := CheckLimit();
      }
    }

    /** Deletes the files of a resource, as far as the file system lets it. */
    method DeleteFiles(id: string, streams: nat) returns (ok: bool)
      modifies this`files
      ensures OnlyFewer(old(files), files, id, streams)
      ensures (ok <==> Gone(files, id, streams)) && (reliable ==> ok)
    {
      ok := true;
      for i := 0 to streams
        invariant OnlyFewer(old(files), files, id, i)
        invariant (ok <==> Gone(files, id, i)) && (reliable ==> ok)
      {
        if File(id, i) in files {
          var deleted := *;
          if deleted || reliable {
            files := files - {File(id, i)};
          } else {
            ok := false;
          }
        }
      }
    }

    /** DeleteResource: only an idle resource; the entry goes even when a file stays behind. */
    method DeleteResource(id: string) returns (ok: bool)
      requires Valid()
      modifies this`entries, this`totalSize, this`files, this`clean
      ensures Valid() && (reliable ==> clean == old(clean))
      ensures if id in old(entries) && old(entries)[id].lock.Unlocked? && old(entries)[id].accessors == 0
              then entries == old(entries) - {id} && totalSize == old(totalSize) - old(entries)[id].size && clean == (old(clean) && ok) && (reliable ==> ok)
              else entries == old(entries) && totalSize == old(totalSize) && clean == old(clean) && ok == (id !in entries)
      ensures id !in old(entries) || !old(entries)[id].lock.Unlocked? || old(entries)[id].accessors > 0 ==> files == old(files)
    {
      hide LocksAgree, DiskAgrees, Accounted, OnlyFewer, Gone;
      if id !in entries {
        return true;
      }
      var e := entries[id];
      if !e.lock.Unlocked? || e.accessors > 0 {
        return false;
      }
      ok := DeleteFiles(id, e.streams);
      AccountedRemove(entries, totalSize, totalAccessors, id);
      RemoveEntry(entries, adapters, id);
      if clean && ok {
        RemoveEntryOnDisk(entries, old(files), files, adapters, id);
      }
      clean := clean && ok;
      totalSize := totalSize - e.size;
      entries := entries - {id};
    }

    /**
     * CheckLimit: as long as the cache is over its limit, the entry chosen is deleted if it is idle. It
     * gives up when none is idle, when the first idle one is the last of the map (the source then
     * looks past the end), when the entry chosen is in use, or when a file cannot be deleted.
     */
    method CheckLimit() returns (ok: bool)
      requires Valid()
      modifies this`entries, this`totalSize, this`files, this`clean
      ensures Valid() && (ok ==> totalSize <= maxCache) && (clean ==> old(clean)) && (reliable ==> clean == old(clean))
      ensures old(totalSize) <= maxCache ==> ok && entries == old(entries) && files == old(files)
      ensures OnlyIdleRemoved(old(entries), entries)
      ensures ok && old(totalSize) > maxCache ==> exists v :: v in old(entries) && v !in entries
      ensures reliable ==> (entries, totalSize) == Evicted(rank, maxCache, old(entries), old(totalSize)) && (ok <==> totalSize <= maxCache)
    {
      hide LocksAgree, DiskAgrees, Accounted, Evicted, IsVictim, Distinct, IdleOnes, From, Lowest;
      while totalSize > maxCache
        invariant Valid() && (clean ==> old(clean)) && (reliable ==> clean == old(clean))
        invariant OnlyIdleRemoved(old(entries), entries)
        invariant totalSize == old(totalSize) || exists v :: v in old(entries) && v !in entries
        invariant old(totalSize) <= maxCache ==> entries == old(entries) && files == old(files) && totalSize == old(totalSize)
        invariant Evicted(rank, maxCache, entries, totalSize) == Evicted(rank, maxCache, old(entries), old(totalSize))
        decreases |entries|
      {
        var search := FindVictim(rank, entries);
        if !search.Found? {
          NothingEvicted(rank, maxCache, entries, totalSize);
          return false;
        }
        var victim := search.id;
        VictimIsThere(rank, entries, victim);
        Smaller(entries, victim);
        if Idle(entries[victim]) {
          EvictedStep(rank, maxCache, entries, totalSize, victim);
        } else {
          ChosenInUse(rank, maxCache, entries, totalSize, victim);
        }
        var deleted := DeleteResource(victim);
        if !deleted {
          return false;
        }
        assert victim in old(entries) && victim !in entries;
      }
      WithinLimit(rank, maxCache, entries, totalSize);
      return true;
    }

    /**
     * Purge: refuses while streams are out, then drops every file and entry; when the files cannot all
     * be deleted the entries stay. It does not reset the total, so the books are right afterwards
     * exactly when the cache was empty.
     */
    method Purge() returns (ok: bool)
      requires Valid()
      modifies this`entries, this`files, this`clean
      ensures !ok ==> Valid() && entries == old(entries) && (forall f | f in files :: f in old(files) && files[f] == old(files)[f])
      ensures !ok && (!ready || totalAccessors > 0) ==> files == old(files) && clean == old(clean)
      ensures reliable ==> (ok <==> ready && totalAccessors == 0)
      ensures ok ==> ready && old(totalAccessors) == 0 && entries == map[] && files == map[] && totalSize == old(totalSize)
      ensures ok ==> (Accounted(entries, totalSize, totalAccessors) <==> old(totalSize) == 0)
    {
      if !ready || totalAccessors > 0 {
        return false;
      }
      var kept: set<File> := *;
      files := map f | f in files && f in kept && !reliable :: files[f];
      if files != map[] {
        clean := false;
        return false;
      }
      entries := map[];
      return true;
    }

    /**
     * Any sequence of calls a user may make, streams written and released in any order among them. A
     * careful user opens no stream for writing that is open for writing already. If the file system is
     * reliable, books that agree with the disk then agree with it after every run.
     */
    method Run(ops: seq<Op>, careful: bool)
      requires Valid()
      modifies this
      ensures Valid() && ready == old(ready) && maxCache == old(maxCache)
      ensures old(clean) && reliable && careful ==> clean && DiskAgrees(entries, files, adapters)
    {
      hide LocksAgree, DiskAgrees, Accounted, OpenForWriting;
      for i := 0 to |ops|
        invariant Valid() && ready == old(ready) && maxCache == old(maxCache)
        invariant old(clean) && reliable && careful ==> clean
      {
        match ops[i] {
          case Lock(id, now) =>
            var ok, lost := LockResource(id, now);
          case OpenToWrite(id, index, canOpen) =>
            if id in entries && !(careful && OpenForWriting(adapters, File(id, index))) {
              var stream := WriteResource(id, index, canOpen);
            }
          case Unlock(id, now) =>
            if id in entries {
              var ok := UnlockResource(id, now);
            }
          case OpenToRead(id, index, canOpen) =>
            if id in entries {
              var stream := ReadResource(id, index, canOpen);
            }
          case Release(k, now) =>
            if k < |adapters| {
              var missing := ReleaseResource(k, now);
            }
          case Delete(id) =>
            var ok := DeleteResource(id);
          case SetLength(k, size) =>
            if k < |adapters| && adapters[k].writer {
              WriteToFile(k, size);
            }
        }
      }
    }
  }

  datatype Op =
    | Lock(id: string, now: int) | OpenToWrite(id: string, index: nat, canOpen: bool)
    | Unlock(id: string, now: int) | OpenToRead(id: string, index: nat, canOpen: bool)
    | Release(k: nat, now: int) | Delete(id: string) | SetLength(k: nat, size: nat)

  /**
   * A cache from its creation on: with a reliable file system, files the scan can take in and a careful
   * user, each entry's size is at the end of any run the on-disk size of its streams not being written.
   */
  method WholeLife(reliable: bool, rank: Rank, careful: bool, size: nat, found: map<File, nat>, written: File -> int, created: bool,
                   ops: seq<Op>)
    returns (cache: Cache)
    requires Distinct(rank)
    ensures cache.Valid()
    ensures reliable && careful && (forall f | f in found :: found[f] < WORD) ==>
              DiskAgrees(cache.entries, cache.files, cache.adapters)
  {
    hide LocksAgree, DiskAgrees, Accounted;
    cache := new Cache(reliable, rank);
    ghost var restored;
    var ok;
    ok, restored := cache.Initialize(size, found, written, created);
    cache.Run(ops, careful);
  }

  // --- restoring the books ------------------------------------------------------------------------

  /** Sizes are taken from the low 32 bits the directory listing gives. */
  const WORD: nat := 0x1_0000_0000

  function Low(files: map<File, nat>): map<File, nat> {
    map f | f in files :: files[f] % WORD
  }

  ghost predicate AllIdle(entries: map<string, Entry>) {
    forall id | id in entries :: entries[id].lock.Unlocked? && entries[id].accessors == 0
  }

  lemma NothingFound()
    ensures Accounted(map[], 0, 0) && DiskAgrees(map[], map[], [])
  {
  }

  lemma IdleLocks(entries: map<string, Entry>)
    requires AllIdle(entries)
    ensures LocksAgree(entries, [])
  {
  }

  /** A file not seen before adds its size to the sum of its resource. */
  lemma {:induction false} ClosedSizeFound(files: map<File, nat>, f: File, size: nat, n: nat)
    requires f !in files
    ensures ClosedSize(files[f := size], [], f.id, n) == ClosedSize(files, [], f.id, n) + if f.index < n then size else 0
    decreases n
  {
    if n > 0 {
      ClosedSizeFound(files, f, size, n - 1);
    }
  }

  lemma FoundFile(entries: map<string, Entry>, files: map<File, nat>, f: File, size: nat, at: int)
    requires DiskAgrees(entries, files, []) && f !in files
    ensures var e := if f.id in entries then entries[f.id] else NewEntry(0);
            DiskAgrees(entries[f.id := e.(size := e.size + size, streams := Max(e.streams, f.index + 1), modified := at)],
                       files[f := size], [])
  {
    hide OpenForWriting;
    var e := if f.id in entries then entries[f.id] else NewEntry(0);
    var n := Max(e.streams, f.index + 1);
    var entries' := entries[f.id := e.(size := e.size + size, streams := n, modified := at)];
    ClosedSizeBeyond(files, [], f.id, e.streams, n);
    ClosedSizeFound(files, f, size, n);
    forall id | id in entries'
      ensures entries'[id].size == ClosedSize(files[f := size], [], id, entries'[id].streams)
    {
      if id != f.id {
        ClosedSizeSame(files, [], files[f := size], [], id, entries[id].streams);
      }
    }
  }

  /** Low parts never weigh more, and less as soon as one file is larger. */
  lemma {:induction false} LowWeighsLess(files: map<File, nat>, id: string, n: nat)
    ensures ClosedSize(Low(files), [], id, n) <= ClosedSize(files, [], id, n)
    ensures (ClosedSize(Low(files), [], id, n) == ClosedSize(files, [], id, n))
            <==> forall i | 0 <= i < n && File(id, i) in files :: files[File(id, i)] < WORD
    decreases n
  {
    if n > 0 {
      LowWeighsLess(files, id, n - 1);
    }
  }

  lemma LowAgrees(entries: map<string, Entry>, files: map<File, nat>)
    requires DiskAgrees(entries, Low(files), [])
    ensures DiskAgrees(entries, files, []) <==> forall f | f in files :: files[f] < WORD
  {
    hide OpenForWriting;
    if forall f | f in files :: files[f] < WORD {
      assert Low(files) == files;
    } else {
      var f :| f in files && files[f] >= WORD;
      assert f in Low(files);
      LowWeighsLess(files, f.id, entries[f.id].streams);
      assert File(f.id, f.index) == f;
    }
  }

  lemma GrowOnDisk(entries: map<string, Entry>, files: map<File, nat>, adapters: seq<Adapter>, k: nat, size: nat)
    requires DiskAgrees(entries, files, adapters) && k < |adapters| && adapters[k].writer
    ensures DiskAgrees(entries, files[adapters[k].file := size], adapters)
  {
    var f := adapters[k].file;
    assert OpenForWriting(adapters, f);
    hide OpenForWriting;
    forall id | id in entries
      ensures entries[id].size == ClosedSize(files[f := size], adapters, id, entries[id].streams)
    {
      ClosedSizeSame(files, adapters, files[f := size], adapters, id, entries[id].streams);
    }
  }
}
