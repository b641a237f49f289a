/** Crash steps of the atomic file write (internal/atomicfile/write.go). */
module AtomicFile {
  import opened Streams

  type Content = seq<byte>

  /** A directory and its files. `dir` and `data` are what running programs see. Of the rest a crash
      keeps what is on disk: an entry may come back as any of its `maybe` values, all those it had
      since the directory was last synced, and a file outside `synced` may come back as anything. */
  datatype Disk = Disk(dir: map<string, nat>, maybe: map<string, set<Option<nat>>>, data: map<nat, Content>,
                       synced: set<nat>)
  {
    /** The live entry is one of those a crash may leave, and all of them are files. */
    ghost predicate Grounded(name: string) {
      Entry(name) in Possible(name) && forall i :: Some(i) in Possible(name) ==> i in data
    }

    ghost predicate Valid() {
      forall n :: Grounded(n)
    }

    function Entry(name: string): Option<nat> {
      if name in dir then Some(dir[name]) else None
    }

    function Possible(name: string): set<Option<nat>> {
      if name in maybe then maybe[name] else {None}
    }

    /** What a running program reads. */
    ghost function Live(name: string): Option<Content>
      requires Valid()
    {
      assert Grounded(name);
      if name in dir then Some(data[dir[name]]) else None
    }

    /** What may be read after a crash at this moment. */
    ghost predicate MaySee(name: string, v: Option<Content>) {
      exists e :: e in Possible(name) && Yields(e, v)
    }

    ghost predicate Yields(e: Option<nat>, v: Option<Content>) {
      match e
      case None => v == None
      case Some(i) => v.Some? && (i in synced && i in data ==> v == Some(data[i]))
    }

    /** `name` now refers to `e`, not yet on disk. */
    function Relink(name: string, e: Option<nat>): Disk {
      Disk(if e.Some? then dir[name := e.value] else dir - {name}, maybe[name := Possible(name) + {e}], data, synced)
    }

    function SetFile(i: nat, c: Content): Disk {
      Disk(dir, maybe, data[i := c], synced - {i})
    }

    function SyncFile(i: nat): Disk {
      Disk(dir, maybe, data, synced + {i})
    }

    function SyncDir(): Disk {
      Disk(dir, map n | n in maybe :: {Entry(n)}, data, synced)
    }
  }

  /** Compared with `before`, the target reads as before or as `c`, now and after a crash. */
  ghost predicate OldOrNew(before: Disk, d: Disk, path: string, c: Content)
    requires before.Valid()
  {
    && d.Valid()
    && (d.Live(path) == before.Live(path) || d.Live(path) == Some(c))
    && (forall v :: d.MaySee(path, v) ==> before.MaySee(path, v) || v == Some(c))
  }

  /** Files other than `i` are as before. */
  ghost predicate SameFiles(before: Disk, d: Disk, i: nat) {
    && i !in before.data && i in d.data
    && (forall k :: k in before.data ==> k in d.data && d.data[k] == before.data[k])
    && (forall k :: k != i ==> (k in d.synced <==> k in before.synced))
  }

  /** The write so far has touched nothing but the temporary name and file `i`. */
  ghost predicate OnlyTemp(before: Disk, d: Disk, tmp: string, i: nat) {
    && before.Valid() && tmp !in before.dir && SameFiles(before, d, i) && d.Grounded(tmp)
    && (forall n :: n != tmp ==> d.Entry(n) == before.Entry(n) && d.Possible(n) == before.Possible(n))
  }

  /** An entry made before the write yields what it yielded. */
  lemma SameYield(before: Disk, d: Disk, i: nat, name: string, e: Option<nat>, v: Option<Content>)
    requires before.Valid() && SameFiles(before, d, i) && e in before.Possible(name)
    ensures d.Yields(e, v) <==> before.Yields(e, v)
  {
    assert before.Grounded(name);
  }

  lemma StillValid(before: Disk, d: Disk, i: nat, n: string)
    requires before.Valid() && SameFiles(before, d, i) && d.Entry(n) == before.Entry(n)
      && d.Possible(n) == before.Possible(n)
    ensures d.Grounded(n)
  {
    assert before.Grounded(n);
  }

  lemma TempIsHarmless(before: Disk, d: Disk, tmp: string, i: nat, path: string, c: Content)
    requires OnlyTemp(before, d, tmp, i) && path != tmp
    ensures OldOrNew(before, d, path, c)
    ensures forall n :: n != tmp ==> d.Live(n) == before.Live(n)
    ensures forall v :: d.MaySee(path, v) <==> before.MaySee(path, v)
  {
    forall n | n != tmp
      ensures d.Grounded(n)
    {
      StillValid(before, d, i, n);
    }
    forall v, e | e in before.Possible(path)
      ensures d.Yields(e, v) <==> before.Yields(e, v)
    {
      SameYield(before, d, i, path, e, v);
    }
    forall n | n != tmp
      ensures d.Valid() && d.Live(n) == before.Live(n)
    {
      assert before.Grounded(n) && d.Grounded(n) && d.Entry(n) == before.Entry(n);
    }
  }

  lemma CreateTemp(before: Disk, tmp: string, i: nat)
    requires before.Valid() && tmp !in before.dir && i !in before.data
    ensures var d := before.SetFile(i, []).Relink(tmp, Some(i)); OnlyTemp(before, d, tmp, i) && d.Entry(tmp) == Some(i)
  {
    assert before.Grounded(tmp);
  }

  lemma EditTemp(before: Disk, d: Disk, tmp: string, i: nat, c: Content)
    requires OnlyTemp(before, d, tmp, i)
    ensures OnlyTemp(before, d.SetFile(i, c), tmp, i) && d.SetFile(i, c).Entry(tmp) == d.Entry(tmp)
    ensures OnlyTemp(before, d.SyncFile(i), tmp, i) && d.SyncFile(i).Entry(tmp) == d.Entry(tmp)
  {
  }

  /** Right after the rename the target reads as the new content; a crash may still undo it. */
  lemma RenameIsSafe(before: Disk, d: Disk, path: string, c: Content, tmp: string, i: nat)
    requires before.Valid() && tmp !in before.dir && path != tmp && SameFiles(before, d, i) && d.Grounded(tmp)
    requires d.data[i] == c && i in d.synced && tmp !in d.dir
    requires d.Entry(path) == Some(i) && d.Possible(path) == before.Possible(path) + {Some(i)}
    requires forall n :: n != path && n != tmp ==> d.Entry(n) == before.Entry(n) && d.Possible(n) == before.Possible(n)
    ensures OldOrNew(before, d, path, c) && d.Live(path) == Some(c)
    ensures forall n :: n != path ==> d.Live(n) == before.Live(n)
  {
    assert before.Grounded(path) && before.Grounded(tmp);
    forall n | n != path && n != tmp
      ensures d.Grounded(n)
    {
      StillValid(before, d, i, n);
    }
    assert d.Grounded(path);
    forall v | d.MaySee(path, v)
      ensures before.MaySee(path, v) || v == Some(c)
    {
      var e :| e in d.Possible(path) && d.Yields(e, v);
      if e != Some(i) {
        SameYield(before, d, i, path, e, v);
      }
    }
    forall n | n != path
      ensures d.Valid() && d.Live(n) == before.Live(n)
    {
      assert before.Grounded(n) && d.Grounded(n) && d.Entry(n) == before.Entry(n);
    }
  }

  /** Syncing the directory settles it: what is live is what a crash leaves. */
  lemma SyncSettles(before: Disk, d: Disk, path: string, c: Content)
    requires before.Valid() && d.Valid() && OldOrNew(before, d, path, c) && d.Live(path) == Some(c)
    requires path in d.dir && d.dir[path] in d.synced
    ensures var s := d.SyncDir();
            && OldOrNew(before, s, path, c) && s.Live(path) == Some(c)
            && (forall v :: s.MaySee(path, v) <==> v == Some(c))
            && (forall n :: s.Live(n) == d.Live(n))
  {
    var s := d.SyncDir();
    forall n
      ensures d.Grounded(n) && s.Grounded(n) && s.Entry(n) == d.Entry(n) && s.Possible(n) == {d.Entry(n)}
    {
      assert d.Grounded(n);
    }
    forall v
      ensures s.MaySee(path, v) <==> v == Some(c)
    {
      assert d.Entry(path) in s.Possible(path);
      assert s.Yields(d.Entry(path), v) <==> v == Some(c);
    }
  }

  /** Which calls of one Write fail; a short write gets `written` bytes out. */
  datatype Faults = Faults(create: bool, written: Option<nat>, chmodOrSync: bool, closeOrRename: bool, dirSync: bool) {
    predicate Any() {
      create || written.Some? || chmodOrSync || closeOrRename || dirSync
    }
  }

  class FileSystem {
    var disk: Disk
    ghost var trace: seq<Disk>    // every state since the last write began

    /** A crash may come right here. */
    method Become(d: Disk)
      modifies this
      ensures disk == d && trace == old(trace) + [d]
    {
      disk, trace := d, trace + [d];
    }

    method Write(path: string, c: Content, tmp: string, i: nat, faults: Faults) returns (err: bool)
      requires disk.Valid() && trace == []
      requires tmp !in disk.dir && tmp != path && i !in disk.data  // os.CreateTemp picks unused ones
      modifies this
      // at every crash point, and at every moment in between, the target is old or new
      ensures forall k :: 0 <= k < |trace| ==> OldOrNew(old(disk), trace[k], path, c)
      ensures OldOrNew(old(disk), disk, path, c)
      // a nil return: nothing failed, and the new content is there, durably
      ensures err == faults.Any()
      ensures !err ==> disk.Live(path) == Some(c) && forall v :: disk.MaySee(path, v) <==> v == Some(c)
      // an error leaves the old content, unless it came after the rename
      ensures err ==>
        if faults.create || faults.written.Some? || faults.chmodOrSync || faults.closeOrRename then
          disk.Live(path) == old(disk).Live(path) && forall v :: disk.MaySee(path, v) <==> old(disk).MaySee(path, v)
        else
          disk.Live(path) == Some(c)
      // the temporary name is gone and no other file was touched
      ensures forall n :: n != path ==> disk.Live(n) == old(disk).Live(n)
    {
      ghost var before := disk;
      if faults.create {
        return true;
      }
      var ready := WriteTemp(path, c, tmp, i, faults);
      if ready && !faults.closeOrRename {
        err := Publish(path, c, tmp, i, before, faults.dirSync);
        return;
      }
      // the deferred Remove
      Become(disk.Relink(tmp, None));
      TempIsHarmless(before, disk, tmp, i, path, c);
      assert disk.Live(tmp) == before.Live(tmp) == None;
      return true;
    }

    /** CreateTemp, Write, Chmod and Sync; after the first each of them may fail. */
    method WriteTemp(path: string, c: Content, tmp: string, i: nat, faults: Faults) returns (ready: bool)
      requires disk.Valid() && trace == [] && tmp !in disk.dir && tmp != path && i !in disk.data
      modifies this
      ensures OnlyTemp(old(disk), disk, tmp, i) && disk.Entry(tmp) == Some(i)
      ensures forall k :: 0 <= k < |trace| ==> OldOrNew(old(disk), trace[k], path, c)
      ensures ready <==> faults.written.None? && !faults.chmodOrSync
      ensures ready ==> disk.data[i] == c && i in disk.synced
    {
      ghost var before := disk;
      CreateTemp(before, tmp, i);
      Become(disk.SetFile(i, []).Relink(tmp, Some(i)));
      TempIsHarmless(before, disk, tmp, i, path, c);
      var written := if faults.written.None? then c else c[..Min(faults.written.value, |c|)];
      EditTemp(before, disk, tmp, i, written);
      Become(disk.SetFile(i, written));
      TempIsHarmless(before, disk, tmp, i, path, c);
      if faults.written.Some? || faults.chmodOrSync {
        return false;
      }
      EditTemp(before, disk, tmp, i, c);
      Become(disk.SyncFile(i));
      TempIsHarmless(before, disk, tmp, i, path, c);
      return true;
    }

    /** The rename and what follows it. */
    method Publish(path: string, c: Content, tmp: string, i: nat, ghost before: Disk, syncFails: bool)
      returns (err: bool)
      requires OnlyTemp(before, disk, tmp, i) && path != tmp && disk.data[i] == c && i in disk.synced
      requires disk.Entry(tmp) == Some(i)
      requires forall k :: 0 <= k < |trace| ==> OldOrNew(before, trace[k], path, c)
      modifies this
      ensures forall k :: 0 <= k < |trace| ==> OldOrNew(before, trace[k], path, c)
      ensures OldOrNew(before, disk, path, c) && disk.Live(path) == Some(c)
      ensures err == syncFails && (!err ==> forall v :: disk.MaySee(path, v) <==> v == Some(c))
      ensures forall n :: n != path ==> disk.Live(n) == before.Live(n)
    {
      Become(disk.Relink(path, Some(i)).Relink(tmp, None));
      RenameIsSafe(before, disk, path, c, tmp, i);
      if !syncFails {
        SyncSettles(before, disk, path, c);
        Become(disk.SyncDir());
      }
      return syncFails;
    }
  }

  // ---------- many writes ----------

  /** One call of Write as its caller sees it. */
  datatype Attempt = Attempt(content: Content, err: bool)

  ghost predicate Attempted(d: Disk, d': Disk, path: string, a: Attempt) {
    && d.Valid() && OldOrNew(d, d', path, a.content)
    && (!a.err ==> forall v :: d'.MaySee(path, v) <==> v == Some(a.content))
  }

  /** Once a write has returned nil, a crash at any later time leaves that content or one a later call
      was given: acknowledged content is never lost and never mixed. */
  lemma {:induction false} AcknowledgedSurvives(ds: seq<Disk>, attempts: seq<Attempt>, path: string, s: nat,
                                                v: Option<Content>)
    requires |ds| == |attempts| + 1 && s < |attempts| && !attempts[s].err
    requires forall k :: 0 <= k < |attempts| ==> Attempted(ds[k], ds[k + 1], path, attempts[k])
    requires ds[|attempts|].MaySee(path, v)
    ensures exists k :: s <= k < |attempts| && v == Some(attempts[k].content)
    decreases |attempts|
  {
    var n := |attempts| - 1;
    assert Attempted(ds[n], ds[n + 1], path, attempts[n]);
    if s < n && v != Some(attempts[n].content) {
      AcknowledgedSurvives(ds[..n + 1], attempts[..n], path, s, v);
      var k :| s <= k < n && v == Some(attempts[..n][k].content);
      assert attempts[k] == attempts[..n][k];
    }
  }
}
