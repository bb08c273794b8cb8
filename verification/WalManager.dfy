/** wal.Manager (internal/wal/wal.go): one active segment writer and the sealed segments of a directory. */
module WalManager {
  import opened Bytes
  import opened Types
  import opened Wal

  datatype SealOutcome = SealDone | CloseFails | OpenFails(created: bool)

  datatype ManagerError = ManagerClosed | CloseFailed | OpenFailed

  ghost predicate AscendingIDs(ids: seq<nat>) {
    forall i, j :: 0 <= i < j < |ids| ==> ids[i] < ids[j]
  }

  /** listSegmentIDs: the segment files of a directory, in ascending order. */
  ghost predicate Lists(ids: seq<nat>, dir: map<nat, seq<byte>>) {
    AscendingIDs(ids) && forall id :: id in ids <==> id in dir
  }

  function FileAt(dir: map<nat, seq<byte>>, id: nat): seq<byte> {
    if id in dir then dir[id] else []
  }

  class Manager {
    var files: map<nat, seq<byte>>    // the directory; the active writer's file is as the writer has it
    var active: SegmentWriter?
    var sealed: seq<nat>
    var nextID: nat
    var closed: bool

    /** The segment files on disk. */
    ghost function Segs(): map<nat, seq<byte>>
      reads this, active
    {
      if active == null then files else files[active.id := active.file]
    }

    /** What a reader of a segment's path finds; None for a missing file. */
    function Read(id: nat): (file: Option<seq<byte>>)
      reads this, active
      ensures file == Lookup(Segs(), id)
    {
      if active != null && active.id == id then Some(active.file) else Lookup(files, id)
    }

    ghost predicate Valid()
      reads this, active
    {
      && AscendingIDs(sealed)
      && (forall id | id in sealed :: id < nextID)
      && (active != null ==> active.id < nextID && forall id | id in sealed :: id < active.id)
    }

    /** OpenManager: a fresh directory gets segment 1; otherwise the newest segment is adopted as it is. */
    constructor Open(dir: map<nat, seq<byte>>, ids: seq<nat>)
      requires Lists(ids, dir)
      ensures Valid() && active != null && fresh(active) && fresh(active.buf) && !active.closed && !closed
      ensures Segs() == if dir == map[] then map[1 := []] else dir
      ensures dir == map[] ==> active.id == 1 && sealed == []
      ensures dir != map[] ==> sealed + [active.id] == ids
      ensures nextID == active.id + 1 && active.offset == |active.file|
    {
      files := dir;
      closed := false;
      if |ids| == 0 {
        active := new SegmentWriter(1, FileAt(dir, 1));
        sealed := [];
        nextID := 2;
      } else {
        sealed := ids[..|ids| - 1];
        var last := ids[|ids| - 1];
        active := new SegmentWriter(last, FileAt(dir, last));
        nextID := last + 1;
      }
      new;
      if |ids| == 0 {
        assert forall id | id in dir :: id in ids;
        assert dir == map[];
      } else {
        assert active.id in ids;
        assert dir[active.id := dir[active.id]] == dir;
      }
    }

    method Sealed() returns (out: seq<nat>)
      ensures out == sealed
    {
      out := [];
      while |out| < |sealed|
        invariant out <= sealed
      {
        out := out + [sealed[|out|]];
      }
    }

    /** The active segment joins the sealed ones and the next one opens. */
    method Seal(how: SealOutcome) returns (r: Result<nat, ManagerError>)
      requires Valid() && (active == null ==> closed)
      modifies this, active
      ensures Valid() && closed == old(closed)
      ensures r ==
        if closed then Err(ManagerClosed)
        else match how
             case SealDone => Ok(old(active.id))
             case CloseFails => Err(CloseFailed)
             case OpenFails(_) => Err(OpenFailed)
      ensures closed ==> unchanged(this)
      ensures r.Ok? ==> active != null && fresh(active) && fresh(active.buf) && !active.closed && active.id == old(nextID)
      ensures r.Ok? ==> nextID == old(nextID) + 1 && sealed == old(sealed) + [r.value]
      ensures r.Ok? ==> Segs() == old(Segs())[active.id := FileAt(old(Segs()), active.id)]
      ensures r == Err(CloseFailed) ==> active == old(active) && active.closed && unchanged(this) && Segs() == old(Segs())
      ensures r == Err(OpenFailed) ==> active == null && sealed == old(sealed) + [old(active.id)] && nextID == old(nextID)
      ensures r == Err(OpenFailed) ==>
        Segs() == if how.created then old(Segs())[nextID := FileAt(old(Segs()), nextID)] else old(Segs())
    {
      if closed { return Err(ManagerClosed); }
      var prev := active;
      prev.Close();
      if how.CloseFails? { return Err(CloseFailed); }
      files := files[prev.id := prev.file];
      assert forall i | 0 <= i < |sealed| :: sealed[i] in sealed;
      sealed := sealed + [prev.id];
      if how.OpenFails? {
        if how.created { files := files[nextID := FileAt(files, nextID)]; }
        active := null;
        return Err(OpenFailed);
      }
      active := new SegmentWriter(nextID, FileAt(files, nextID));
      nextID := nextID + 1;
      r := Ok(prev.id);
    }

    /** SealedSegment.Delete: removing a missing file is no error, and the list of sealed segments keeps the id. */
    method Delete(id: nat, ok: bool)
      requires active != null ==> id != active.id
      modifies `files
      ensures old(Valid()) ==> Valid()
      ensures Segs() == if ok then old(Segs()) - {id} else old(Segs())
    {
      if ok { files := files - {id}; }
    }
  }
}
