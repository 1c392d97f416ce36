/** Replacing a file so that a crash leaves the old one or the new one.

    A volume holds inodes and the name tables a crash may fall back to: every table
    since the directory was last synced, the last of them being the one in force. What
    an unsynced inode holds after a crash is anything at all. */
module Disk {
  import opened Basics

  datatype Content<T> = Whole(value: T) | Torn

  datatype Inode<T> = Inode(content: Content<T>, synced: bool)

  /** The file itself and the sibling it is written to first. */
  datatype Names = Names(main: Option<nat>, temporary: Option<nat>)

  datatype Disk<T> = Disk(inodes: seq<Inode<T>>, tables: seq<Names>)

  predicate InRange<T>(d: Disk<T>, id: Option<nat>) {
    id.Some? ==> id.value < |d.inodes|
  }

  predicate WellNamed<T>(d: Disk<T>) {
    && d.tables != []
    && (forall k :: 0 <= k < |d.tables| ==> InRange(d, d.tables[k].main))
    && (forall k :: 0 <= k < |d.tables| ==> InRange(d, d.tables[k].temporary))
  }

  function Live<T>(d: Disk<T>): Names
    requires d.tables != []
  {
    d.tables[|d.tables| - 1]
  }

  /** What the file reads as under one table. */
  function MainUnder<T>(d: Disk<T>, names: Names): Option<Content<T>>
    requires InRange(d, names.main)
  {
    match names.main
    case None => None
    case Some(id) => Some(d.inodes[id].content)
  }

  function Main<T>(d: Disk<T>): Option<Content<T>>
    requires WellNamed(d)
  {
    MainUnder(d, Live(d))
  }

  /** Under every table the file is whole and on the platter, and is not what the next
      write will truncate. */
  ghost predicate Settled<T>(d: Disk<T>) {
    WellNamed(d) && forall k :: 0 <= k < |d.tables| ==> SafeUnder(d, d.tables[k])
  }

  predicate SafeUnder<T>(d: Disk<T>, names: Names)
    requires d.tables != []
  {
    names.main.Some? ==>
      && names.main.value < |d.inodes|
      && d.inodes[names.main.value].synced && d.inodes[names.main.value].content.Whole?
      && names.temporary != names.main && Live(d).temporary != names.main
  }

  /** A crash may leave the file reading as this. */
  ghost predicate MayRead<T(!new)>(d: Disk<T>, c: Option<Content<T>>)
    requires WellNamed(d)
  {
    exists k :: 0 <= k < |d.tables| && MainUnder(d, d.tables[k]) == c
  }

  /** A crash: one of the tables survives, and only synced contents are as they were. */
  ghost predicate CrashesTo<T(!new)>(d: Disk<T>, e: Disk<T>) {
    && |e.tables| == 1 && e.tables[0] in d.tables
    && |e.inodes| == |d.inodes|
    && forall i :: 0 <= i < |d.inodes| && d.inodes[i].synced ==> e.inodes[i] == d.inodes[i]
  }

  // --- the five effects -------------------------------------------------------------------------

  function SetInode<T>(d: Disk<T>, id: nat, node: Inode<T>): Disk<T>
    requires id < |d.inodes|
  {
    d.(inodes := d.inodes[id := node])
  }

  /** Create or truncate the sibling. */
  function OpenTemporary<T>(d: Disk<T>): Disk<T>
    requires WellNamed(d)
  {
    match Live(d).temporary
    case Some(id) => SetInode(d, id, Inode(Torn, false))
    case None =>
      Disk(d.inodes + [Inode(Torn, false)], d.tables + [Live(d).(temporary := Some(|d.inodes|))])
  }

  function WriteAll<T>(d: Disk<T>, value: T): Disk<T>
    requires WellNamed(d)
  {
    match Live(d).temporary
    case None => d
    case Some(id) => SetInode(d, id, Inode(Whole(value), false))
  }

  function SyncFile<T>(d: Disk<T>): Disk<T>
    requires WellNamed(d)
  {
    match Live(d).temporary
    case None => d
    case Some(id) => SetInode(d, id, d.inodes[id].(synced := true))
  }

  function Rename<T>(d: Disk<T>): Disk<T>
    requires WellNamed(d)
  {
    match Live(d).temporary
    case None => d
    case Some(id) => d.(tables := d.tables + [Names(Some(id), None)])
  }

  function SyncDirectory<T>(d: Disk<T>): Disk<T>
    requires WellNamed(d)
  {
    d.(tables := [Live(d)])
  }

  /** The disk after the first `n` effects of a write. */
  function After<T>(d: Disk<T>, value: T, n: nat): (e: Disk<T>)
    requires WellNamed(d) && n <= 5
    ensures WellNamed(e)
  {
    if n == 0 then d
    else
      var before := After(d, value, n - 1);
      if n == 1 then OpenTemporary(before)
      else if n == 2 then WriteAll(before, value)
      else if n == 3 then SyncFile(before)
      else if n == 4 then Rename(before)
      else SyncDirectory(before)
  }

  /** A state the disk passes through while a value is being written. */
  ghost predicate MidWrite<T>(before: Disk<T>, value: T, d: Disk<T>)
    requires WellNamed(before)
  {
    exists n :: 0 <= n <= 5 && d == After(before, value, n)
  }

  /** Which effect fails, if one does. A directory that cannot be synced is not an error. */
  datatype Failure = AtOpen | AtWrite | AtSync | AtRename | AtDirectory

  class Volume<T(!new)> {
    var disk: Disk<T>
    ghost var trace: seq<Disk<T>>

    constructor ()
      ensures disk == Disk([], [Names(None, None)]) && trace == []
    {
      disk := Disk([], [Names(None, None)]);
      trace := [];
    }

    method Apply(next: Disk<T>)
      modifies this
      ensures disk == next && trace == old(trace) + [next]
    {
      disk := next;
      trace := trace + [next];
    }

    /** Writes a sibling, syncs it, renames it over the file, syncs the directory. */
    method WritePrivate(value: T, failure: Option<Failure>) returns (ok: bool, ghost reached: nat)
      requires WellNamed(disk)
      modifies this
      ensures ok <==> failure.None? || failure.value.AtDirectory?
      ensures reached <= 5 && disk == After(old(disk), value, reached) && (ok <==> reached >= 4)
      ensures |trace| == |old(trace)| + reached && trace[..|old(trace)|] == old(trace)
      ensures forall i :: |old(trace)| <= i < |trace| ==> MidWrite(old(disk), value, trace[i])
    {
      hide After, OpenTemporary, WriteAll, SyncFile, Rename, SyncDirectory;
      AfterSteps(disk, value);
      if failure == Some(AtOpen) {
        return false, 0;
      }
      Apply(OpenTemporary(disk));
      if failure == Some(AtWrite) {
        return false, 1;
      }
      Apply(WriteAll(disk, value));
      if failure == Some(AtSync) {
        return false, 2;
      }
      Apply(SyncFile(disk));
      if failure == Some(AtRename) {
        return false, 3;
      }
      Apply(Rename(disk));
      if failure == Some(AtDirectory) {
        return true, 4;
      }
      Apply(SyncDirectory(disk));
      return true, 5;
    }
  }

  lemma AfterSteps<T>(d: Disk<T>, value: T)
    requires WellNamed(d)
    ensures After(d, value, 0) == d
    ensures After(d, value, 1) == OpenTemporary(d)
    ensures After(d, value, 2) == WriteAll(After(d, value, 1), value)
    ensures After(d, value, 3) == SyncFile(After(d, value, 2))
    ensures After(d, value, 4) == Rename(After(d, value, 3))
    ensures After(d, value, 5) == SyncDirectory(After(d, value, 4))
  {
  }

  // --- what a crash can leave -----------------------------------------------------------------------

  lemma SiblingOpened<T(!new)>(d: Disk<T>)
    requires Settled(d)
    ensures var e := OpenTemporary(d);
      Settled(e) && Live(e).temporary.Some? && Live(e).main == Live(d).main && Main(e) == Main(d)
    ensures forall c :: MayRead(OpenTemporary(d), c) <==> MayRead(d, c)
  {
    hide MayRead, MainUnder, SafeUnder;
    if Live(d).temporary.Some? {
      SiblingWritten(d, Inode(Torn, false));
    } else {
      SiblingCreated(d);
    }
  }

  lemma SiblingCreated<T(!new)>(d: Disk<T>)
    requires Settled(d) && Live(d).temporary.None?
    ensures Settled(OpenTemporary(d)) && Main(OpenTemporary(d)) == Main(d)
    ensures forall c :: MayRead(OpenTemporary(d), c) <==> MayRead(d, c)
  {
    var e := OpenTemporary(d);
    forall k | 0 <= k < |d.tables|
      ensures e.tables[k] == d.tables[k] && MainUnder(e, e.tables[k]) == MainUnder(d, d.tables[k])
    {
    }
    forall c
      ensures MayRead(e, c) <==> MayRead(d, c)
    {
      if MayRead(d, c) {
        var k :| 0 <= k < |d.tables| && MainUnder(d, d.tables[k]) == c;
        assert MainUnder(e, e.tables[k]) == c;
      }
      if MayRead(e, c) {
        var k :| 0 <= k < |e.tables| && MainUnder(e, e.tables[k]) == c;
        assert MainUnder(d, d.tables[if k < |d.tables| then k else |d.tables| - 1]) == c;
      }
    }
  }

  /** Changing the sibling's inode changes nothing the file may read as. */
  lemma SiblingWritten<T(!new)>(d: Disk<T>, node: Inode<T>)
    requires Settled(d) && Live(d).temporary.Some?
    ensures var e := SetInode(d, Live(d).temporary.value, node);
      Settled(e) && Main(e) == Main(d) && forall c :: MayRead(e, c) <==> MayRead(d, c)
  {
    var e := SetInode(d, Live(d).temporary.value, node);
    forall k | 0 <= k < |d.tables|
      ensures MainUnder(e, e.tables[k]) == MainUnder(d, d.tables[k])
    {
    }
    assert Settled(e);
    forall c
      ensures MayRead(e, c) <==> MayRead(d, c)
    {
      if MayRead(d, c) {
        var k :| 0 <= k < |d.tables| && MainUnder(d, d.tables[k]) == c;
        assert MainUnder(e, e.tables[k]) == c;
      }
      if MayRead(e, c) {
        var k :| 0 <= k < |e.tables| && MainUnder(e, e.tables[k]) == c;
        assert MainUnder(d, d.tables[k]) == c;
      }
    }
  }

  lemma Renamed<T(!new)>(d: Disk<T>, value: T)
    requires Settled(d) && Live(d).temporary.Some?
    requires d.inodes[Live(d).temporary.value] == Inode(Whole(value), true)
    ensures Settled(Rename(d)) && Main(Rename(d)) == Some(Whole(value))
    ensures forall c :: MayRead(Rename(d), c) <==> MayRead(d, c) || c == Some(Whole(value))
  {
    var e := Rename(d);
    assert forall k :: 0 <= k < |d.tables| ==> e.tables[k] == d.tables[k];
    forall c
      ensures MayRead(e, c) <==> MayRead(d, c) || c == Some(Whole(value))
    {
      if MayRead(d, c) {
        var k :| 0 <= k < |d.tables| && MainUnder(d, d.tables[k]) == c;
        assert MainUnder(e, e.tables[k]) == c;
      }
      assert MainUnder(e, e.tables[|d.tables|]) == Some(Whole(value));
      if MayRead(e, c) {
        var k :| 0 <= k < |e.tables| && MainUnder(e, e.tables[k]) == c;
        if k < |d.tables| {
          assert MainUnder(d, d.tables[k]) == c;
        }
      }
    }
  }

  /** What a write does, effect by effect: nothing to the file before the rename, the
      whole new value after it, and nothing but the new value after the last sync. */
  lemma AfterEffects<T(!new)>(d: Disk<T>, value: T, n: nat)
    requires Settled(d) && n <= 5
    ensures var e := After(d, value, n);
      && Settled(e)
      && Main(e) == (if n < 4 then Main(d) else Some(Whole(value)))
      && (n < 4 ==> forall c :: MayRead(e, c) <==> MayRead(d, c))
      && (n == 4 ==> forall c :: MayRead(e, c) <==> MayRead(d, c) || c == Some(Whole(value)))
      && (n == 5 ==> forall c :: MayRead(e, c) <==> c == Some(Whole(value)))
  {
    hide MayRead, MainUnder, SafeUnder, After;
    AfterSteps(d, value);
    SiblingOpened(d);
    var one, two, three := After(d, value, 1), After(d, value, 2), After(d, value, 3);
    SiblingWritten(one, Inode(Whole(value), false));
    SiblingWritten(two, Inode(Whole(value), true));
    Renamed(three, value);
    DirectorySynced(After(d, value, 4));
  }

  lemma DirectorySynced<T(!new)>(d: Disk<T>)
    requires Settled(d)
    ensures Settled(SyncDirectory(d)) && Main(SyncDirectory(d)) == Main(d)
    ensures forall c :: MayRead(SyncDirectory(d), c) <==> c == Main(d)
  {
    var e := SyncDirectory(d);
    assert MainUnder(e, e.tables[0]) == Main(d);
  }

  /** Whatever a crash leaves, the file is one of the contents it may have had. */
  lemma CrashReads<T(!new)>(d: Disk<T>, e: Disk<T>)
    requires Settled(d) && CrashesTo(d, e)
    ensures Settled(e) && MayRead(d, Main(e))
    ensures forall c :: MayRead(e, c) <==> c == Main(e)
  {
    var k :| 0 <= k < |d.tables| && d.tables[k] == e.tables[0];
    assert MainUnder(d, d.tables[k]) == Main(e);
    assert MainUnder(e, e.tables[0]) == Main(e);
  }

  /** A crash at any step of a replacement leaves the old file or the new one, whole;
      before the rename, the old one. The disk is ready for the next write either way. */
  lemma CrashSafe<T(!new)>(d: Disk<T>, value: T, n: nat, e: Disk<T>)
    requires Settled(d) && n <= 5 && CrashesTo(After(d, value, n), e)
    ensures Settled(e)
    ensures MayRead(d, Main(e)) || (n >= 4 && Main(e) == Some(Whole(value)))
    ensures n == 5 ==> Main(e) == Some(Whole(value))
    ensures Main(e).Some? ==> Main(e).value.Whole?
  {
    hide MayRead, CrashesTo, After;
    AfterEffects(d, value, n);
    CrashReads(After(d, value, n), e);
  }

  /** The order matters: renaming before the contents are on disk can publish an
      empty file. */
  lemma RenameBeforeSyncTears<T(!new)>(value: T)
    ensures var d := Rename(WriteAll(OpenTemporary(Disk([], [Names(None, None)])), value));
      exists e :: CrashesTo(d, e) && WellNamed(e) && Main(e) == Some(Torn)
  {
    var d := Rename(WriteAll(OpenTemporary(Disk([], [Names(None, None)])), value));
    var e := Disk([Inode(Torn, true)], [Names(Some(0), None)]);
    assert CrashesTo(d, e) && Main(e) == Some(Torn);
  }

  // --- any number of writes and crashes -------------------------------------------------------------------

  datatype Event<T> = Wrote(value: T, effects: nat) | Crashed

  ghost predicate Happens<T(!new)>(d: Disk<T>, event: Event<T>, e: Disk<T>) {
    match event
    case Wrote(value, effects) => WellNamed(d) && effects <= 5 && e == After(d, value, effects)
    case Crashed => CrashesTo(d, e)
  }

  ghost predicate History<T(!new)>(ds: seq<Disk<T>>, events: seq<Event<T>>) {
    |ds| == |events| + 1 && forall i :: 0 <= i < |events| ==> Happens(ds[i], events[i], ds[i + 1])
  }

  ghost predicate Attempted<T>(events: seq<Event<T>>, from: nat, value: T) {
    exists i :: from <= i < |events| && events[i].Wrote? && events[i].value == value
  }

  /** After any history of complete writes, failed writes and crashes, the file is whole:
      what the disk held at the start, or a value some write attempted; and once a write
      has run to its end, that value or a later one. */
  lemma {:induction false} HistorySafe<T(!new)>(ds: seq<Disk<T>>, events: seq<Event<T>>, done: nat)
    requires History(ds, events) && Settled(ds[0]) && done <= |events|
    requires done > 0 ==> events[done - 1].Wrote? && events[done - 1].effects == 5
    ensures Settled(ds[|events|])
    ensures forall c :: MayRead(ds[|events|], c) ==>
      || (done == 0 && MayRead(ds[0], c))
      || (c.Some? && c.value.Whole? && Attempted(events, if done == 0 then 0 else done - 1, c.value.value))
    decreases |events|
  {
    hide MayRead, After, CrashesTo, WellNamed;
    if events != [] {
      var n := |events| - 1;
      var shorter := events[..n];
      var ds' := ds[..n + 1];
      assert Happens(ds[n], events[n], ds[n + 1]);
      forall i | 0 <= i < n
        ensures Happens(ds'[i], shorter[i], ds'[i + 1])
      {
        assert Happens(ds[i], events[i], ds[i + 1]);
      }
      HistorySafe(ds', shorter, if done <= n then done else 0);
      assert forall v, f :: Attempted(shorter, f, v) ==> Attempted(events, f, v);
      match events[n] {
        case Wrote(value, effects) => AfterEffects(ds[n], value, effects);
        case Crashed => CrashReads(ds[n], ds[n + 1]);
      }
    }
  }
}
