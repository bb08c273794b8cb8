/**
 The storage engine as a state machine over memory and disk (internal/engine/engine.go with
 internal/wal/wal.go). Every atomic region of the source - one critical section under the engine lock, one
 append, one rename, one delete - is a step; any number of writers and the flush worker interleave.
 */
module EngineState {
  import opened Bytes
  import opened Types
  import opened WalRecord
  import opened Wal
  import opened WalLog
  import opened MemTable

  datatype Config = Config(softLimit: int, hardLimit: int, maxFrozen: nat)

  datatype Env = Env(c: Codec, cfg: Config)

  /** An SSTable with the ranges its meta block records. */
  datatype Sst = Sst(
    id: nat,
    contents: map<DocID, LogRecord>,
    minDoc: DocID, maxDoc: DocID,
    minTs: Timestamp, maxTs: Timestamp
  )

  /** The meta ranges are attained and bound every record. */
  ghost predicate Exact(s: Sst) {
    && s.minDoc in s.contents && s.maxDoc in s.contents
    && (forall d | d in s.contents :: s.minDoc <= d <= s.maxDoc)
    && (forall d | d in s.contents :: s.minTs <= s.contents[d].timestamp <= s.maxTs)
    && (exists d :: d in s.contents && s.contents[d].timestamp == s.minTs)
    && (exists d :: d in s.contents && s.contents[d].timestamp == s.maxTs)
  }

  /** Where a writer stands in Write: Checked has seen the fatal flag down, Gated has passed the stall gate; Locked
      and Logged hold the engine's read lock. */
  datatype WriterPc =
    | Idle
    | Checked(rec: LogRecord)
    | Gated(rec: LogRecord)
    | Allocated(e: Entry)
    | Locked(e: Entry)
    | Logged(e: Entry)

  /** Where the flush worker stands in flushOneIfAny: FChecked has seen the fatal flag down. */
  datatype FlushPc =
    | FIdle
    | FChecked
    | FSnapped(table: Table, seg: nat)
    | FWriting(table: Table, seg: nat, sstID: nat)
    | FCommitted(table: Table, seg: nat, sst: Sst)
    | FSwapped(seg: nat)

  datatype Mem = Mem(
    active: Table,
    frozen: seq<Table>,
    frozenWALs: seq<nat>,
    sstables: seq<Sst>,
    alloc: uint64,
    activeSeg: nat,
    nextSeg: nat,
    synced: nat,
    sstSeq: nat,
    walOpen: bool,
    fatal: bool,
    writers: seq<WriterPc>,
    flush: FlushPc
  )

  /** WAL segments as bytes, SSTables under their final names, and the ids of unfinished SSTable files. */
  datatype Disk = Disk(segs: map<nat, seq<byte>>, ssts: map<nat, Sst>, tmps: set<nat>)

  datatype Node = Up(mem: Mem) | Down

  /**
   The node, its disk, and two histories: view is the abstract map (the records visible since the last Open),
   attempted is every entry some Write gave a DocID to.
   */
  datatype World = World(node: Node, disk: Disk, view: map<DocID, LogRecord>, attempted: set<Entry>)

  // ---- the abstract map -------------------------------------------------------------------------

  /** A stack of maps in which an earlier layer hides later ones. */
  function Overlay(layers: seq<map<DocID, LogRecord>>): map<DocID, LogRecord> {
    if layers == [] then map[] else Overlay(layers[1..]) + layers[0]
  }

  /** Frozen MemTables, newest first. */
  function FrozenLayers(frozen: seq<Table>): seq<map<DocID, LogRecord>> {
    if frozen == [] then []
    else [frozen[|frozen| - 1].contents] + FrozenLayers(frozen[..|frozen| - 1])
  }

  function SstLayers(sstables: seq<Sst>): (r: seq<map<DocID, LogRecord>>)
    ensures |r| == |sstables|
  {
    seq(|sstables|, i requires 0 <= i < |sstables| => sstables[i].contents)
  }

  /** What Get searches: active, then frozen newest first, then SSTables in list order. */
  function Layers(m: Mem): seq<map<DocID, LogRecord>> {
    [m.active.contents] + FrozenLayers(m.frozen) + SstLayers(m.sstables)
  }

  function View(m: Mem): map<DocID, LogRecord> {
    Overlay(Layers(m))
  }

  // ---- writers ----------------------------------------------------------------------------------

  predicate Pending(pc: WriterPc) {
    pc.Allocated? || pc.Locked? || pc.Logged?
  }

  predicate HoldsReadLock(pc: WriterPc) {
    pc.Locked? || pc.Logged?
  }

  /** The engine's write lock is available. */
  ghost predicate NoReaders(m: Mem) {
    forall t :: 0 <= t < |m.writers| ==> !HoldsReadLock(m.writers[t])
  }

  /** stallPredicateLocked */
  predicate Stalled(cfg: Config, m: Mem) {
    m.active.size >= cfg.hardLimit && |m.frozen| >= cfg.maxFrozen
  }

  /** The guard of doFreeze behind the write lock. */
  predicate MayRotate(cfg: Config, m: Mem) {
    !m.fatal && m.walOpen && m.active.size >= cfg.softLimit && |m.frozen| < cfg.maxFrozen
  }

  function SetWriter(m: Mem, t: nat, pc: WriterPc): Mem
    requires t < |m.writers|
  {
    m.(writers := m.writers[t := pc])
  }

  /** The allocator is one 64-bit counter. */
  function NextID(alloc: uint64): uint64 {
    (alloc + 1) % U64
  }

  function SegBytes(d: Disk, seg: nat): seq<byte> {
    if seg in d.segs then d.segs[seg] else []
  }

  function WriteSeg(d: Disk, seg: nat, bytes: seq<byte>): Disk {
    d.(segs := d.segs[seg := SegBytes(d, seg) + bytes])
  }

  // ---- freeze and flush -------------------------------------------------------------------------

  /** doFreeze past its guards: the active table joins the queue with its sealed segment. */
  function RotateMem(m: Mem, nextLen: nat): Mem {
    m.(active := EMPTY,
       frozen := m.frozen + [m.active.(frozen := true)],
       frozenWALs := m.frozenWALs + [m.activeSeg],
       activeSeg := m.nextSeg,
       nextSeg := m.nextSeg + 1,
       synced := nextLen)
  }

  /** Phase 4: the oldest frozen table leaves the queue as the newest SSTable. */
  function SwapMem(m: Mem, sst: Sst): Mem
    requires m.frozen != [] && m.frozenWALs != []
  {
    m.(frozen := m.frozen[1..],
       frozenWALs := m.frozenWALs[1..],
       sstables := [sst] + m.sstables)
  }

  predicate FlushHasSnapshot(f: FlushPc) {
    f.FSnapped? || f.FWriting? || f.FCommitted?
  }

  // ---- recovery ---------------------------------------------------------------------------------

  /** maxSSTableDocID */
  function Cutoff(sstables: seq<Sst>): DocID {
    if sstables == [] then 0
    else
      var rest := Cutoff(sstables[1..]);
      if sstables[0].maxDoc > rest then sstables[0].maxDoc else rest
  }

  predicate NotNewer(a: Sst, b: Sst) {
    a.maxDoc < b.maxDoc || (a.maxDoc == b.maxDoc && a.minDoc <= b.minDoc)
  }

  ghost predicate NewestFirst(sstables: seq<Sst>) {
    forall i, j :: 0 <= i < j < |sstables| ==> NotNewer(sstables[j], sstables[i])
  }

  /** The SSTable list of a fresh engine: everything on disk that was not quarantined, each once, newest first. */
  ghost predicate LoadedAs(order: seq<Sst>, ssts: map<nat, Sst>, quarantined: set<nat>) {
    && (forall id | id in ssts && id !in quarantined :: ssts[id] in order)
    && (forall s | s in order :: s.id in ssts && s.id !in quarantined && ssts[s.id] == s)
    && (forall i, j :: 0 <= i < j < |order| ==> order[i].id != order[j].id)
    && NewestFirst(order)
  }

  /** The replay callback over the records of one segment; None is an error that makes Open fail. */
  ghost function ReplayRecords(c: Codec, rs: seq<Record>, cutoff: DocID, t: Table): Option<Table> {
    if rs == [] then Some(t)
    else
      match DecodePayload(rs[0].payload)
      case None => None
      case Some((id, recordBytes)) =>
        if id <= cutoff then ReplayRecords(c, rs[1..], cutoff, t)
        else
          match c.unmarshal(recordBytes)
          case None => None
          case Some(rec) => ReplayRecords(c, rs[1..], cutoff, PutTable(t, id, rec))
  }

  ghost function ReplaySegs(c: Codec, segs: map<nat, seq<byte>>, ids: seq<nat>, cutoff: DocID, t: Table)
    : Option<Table>
    requires forall id | id in ids :: id in segs
  {
    if ids == [] then Some(t)
    else
      match ReplayRecords(c, Replay(segs[ids[0]], 0), cutoff, t)
      case None => None
      case Some(t') => ReplaySegs(c, segs, ids[1..], cutoff, t')
  }

  /** A segment recovery may delete: it holds no DocID above the cut-off. */
  ghost predicate FullyCovered(s: seq<byte>, cutoff: DocID) {
    forall r | r in Replay(s, 0) :: DecodePayload(r.payload).Some? ==> DecodePayload(r.payload).value.0 <= cutoff
  }

  /** ids in ascending order, each once (the directory listing after sort.Slice). */
  ghost predicate SortedIDs(ids: seq<nat>, keys: set<nat>) {
    && (forall id :: id in ids <==> id in keys)
    && (forall i, j :: 0 <= i < j < |ids| ==> ids[i] < ids[j])
  }

  ghost predicate IsMaxOrZero(x: DocID, keys: set<DocID>) {
    && (forall k | k in keys :: k <= x)
    && (x == 0 || x in keys)
  }

  /** OpenManager: a fresh directory gets segment 1. */
  function AdoptedSegs(d: Disk): map<nat, seq<byte>> {
    if d.segs == map[] then map[1 := []] else d.segs
  }

  /** What one run of Open chooses: directory orders, quarantined files, deletes that fail, the next SSTable id. */
  datatype OpenChoice = OpenChoice(
    order: seq<Sst>,
    quarantined: set<nat>,
    ids: seq<nat>,
    undeleted: set<nat>,
    sstSeq: nat,
    memMax: DocID,
    writers: nat
  )

  ghost predicate OpenChoiceOk(env: Env, d: Disk, ch: OpenChoice) {
    && ch.quarantined <= d.ssts.Keys
    && LoadedAs(ch.order, d.ssts, ch.quarantined)
    && SortedIDs(ch.ids, AdoptedSegs(d).Keys)
    && (forall id | id in d.ssts :: id <= ch.sstSeq)
    && (forall id | id in d.tmps :: id <= ch.sstSeq)
    && (ch.sstSeq == 0 || ch.sstSeq in d.ssts || ch.sstSeq in d.tmps)
  }

  ghost function Recovered(env: Env, d: Disk, ch: OpenChoice): Option<Table>
    requires OpenChoiceOk(env, d, ch)
  {
    ReplaySegs(env.c, AdoptedSegs(d), ch.ids, Cutoff(ch.order), EMPTY)
  }

  /** Recovery step 6 considers every segment but the last. */
  ghost predicate DeletedAtOpen(d: Disk, ch: OpenChoice, seg: nat) {
    && seg in AdoptedSegs(d) && ch.ids != [] && seg != ch.ids[|ch.ids| - 1]
    && seg !in ch.undeleted
    && FullyCovered(AdoptedSegs(d)[seg], Cutoff(ch.order))
  }

  function MaxID(a: DocID, b: DocID): DocID {
    if a < b then b else a
  }

  ghost function OpenedMem(env: Env, d: Disk, ch: OpenChoice): Mem
    requires OpenChoiceOk(env, d, ch) && Recovered(env, d, ch).Some? && ch.ids != []
  {
    var last := ch.ids[|ch.ids| - 1];
    Mem(Recovered(env, d, ch).value, [], [], ch.order,
        MaxID(Cutoff(ch.order), ch.memMax),
        last, last + 1, |AdoptedSegs(d)[last]|, ch.sstSeq,
        true, false, seq(ch.writers, _ => Idle), FIdle)
  }

  ghost function OpenedDisk(d: Disk, ch: OpenChoice): Disk {
    Disk(map seg | seg in AdoptedSegs(d) && !DeletedAtOpen(d, ch, seg) :: AdoptedSegs(d)[seg],
         d.ssts - ch.quarantined,
         {})
  }

  // ---- steps ------------------------------------------------------------------------------------

  datatype Step =
    | Check(t: nat, rec: LogRecord)
    | GiveUp(t: nat)
    | Gate(t: nat)
    | Alloc(t: nat)
    | Lock(t: nat)
    | Append(t: nat)
    | AppendFails(t: nat, k: nat)
    | Put(t: nat)
    | Freeze
    | SealFails(created: bool)
    | FlushCheck
    | FlushNothing
    | FlushSnap
    | FlushCreate
    | FlushCommit(sst: Sst)
    | FlushSwap
    | FlushDelete(ok: bool)
    | FlushFails(dropTmp: bool, fatal: bool)
    | Crash(t: nat, k: nat, keep: nat)
    | Open(ch: OpenChoice)

  /** The bytes an append under way has put into the file when the node stops. */
  function InFlight(c: Codec, m: Mem, t: nat, k: nat): seq<byte> {
    if t < |m.writers| && m.writers[t].Locked? && Fits(c, m.writers[t].e) && k <= |Frame(c, m.writers[t].e)|
    then Frame(c, m.writers[t].e)[..k]
    else []
  }

  // Guards and effects, step by step.

  /** The fatal flag is read on its own; it may go up between this and the gate. */
  predicate CanCheck(m: Mem, t: nat) {
    t < |m.writers| && m.writers[t].Idle? && !m.fatal
  }

  /** A stalled Write can end without a DocID: context, shutdown, or the flag read again. */
  predicate CanGiveUp(m: Mem, t: nat) {
    t < |m.writers| && m.writers[t].Checked?
  }

  predicate CanGate(cfg: Config, m: Mem, t: nat) {
    t < |m.writers| && m.writers[t].Checked? && !Stalled(cfg, m)
  }

  predicate CanAlloc(m: Mem, t: nat) {
    t < |m.writers| && m.writers[t].Gated?
  }

  function AllocEntry(m: Mem, t: nat): Entry
    requires CanAlloc(m, t)
  {
    Entry(NextID(m.alloc), m.writers[t].rec)
  }

  function AllocMem(m: Mem, t: nat): Mem
    requires CanAlloc(m, t)
  {
    SetWriter(m, t, Allocated(AllocEntry(m, t))).(alloc := NextID(m.alloc))
  }

  predicate CanLock(m: Mem, t: nat) {
    t < |m.writers| && m.writers[t].Allocated? && m.walOpen
  }

  predicate CanAppend(c: Codec, m: Mem, t: nat) {
    t < |m.writers| && m.writers[t].Locked? && Fits(c, m.writers[t].e)
  }

  function AppendDisk(c: Codec, m: Mem, d: Disk, t: nat): Disk
    requires CanAppend(c, m, t)
  {
    WriteSeg(d, m.activeSeg, Frame(c, m.writers[t].e))
  }

  /** The fsync behind a successful append covers the whole file. */
  function AppendMem(c: Codec, m: Mem, d: Disk, t: nat): Mem
    requires CanAppend(c, m, t)
  {
    SetWriter(m, t, Logged(m.writers[t].e)).(synced := |SegBytes(AppendDisk(c, m, d, t), m.activeSeg)|)
  }

  /** A failed append leaves the first k bytes of the frame behind; k = 0 when it fails before writing. */
  predicate CanAppendFail(c: Codec, m: Mem, t: nat, k: nat) {
    && t < |m.writers| && m.writers[t].Locked?
    && (k == 0 || (Fits(c, m.writers[t].e) && k <= |Frame(c, m.writers[t].e)|))
  }

  function AppendFailDisk(c: Codec, m: Mem, d: Disk, t: nat, k: nat): Disk
    requires CanAppendFail(c, m, t, k)
  {
    if k == 0 then d else WriteSeg(d, m.activeSeg, Frame(c, m.writers[t].e)[..k])
  }

  predicate CanPut(m: Mem, t: nat) {
    t < |m.writers| && m.writers[t].Logged? && !m.active.frozen
  }

  ghost function PutMem(m: Mem, t: nat): Mem
    requires CanPut(m, t)
  {
    SetWriter(m, t, Idle).(active := PutTable(m.active, m.writers[t].e.id, m.writers[t].e.rec))
  }

  function PutView(m: Mem, view: map<DocID, LogRecord>, t: nat): map<DocID, LogRecord>
    requires CanPut(m, t)
  {
    view[m.writers[t].e.id := m.writers[t].e.rec]
  }

  ghost predicate CanFreeze(cfg: Config, m: Mem) {
    NoReaders(m) && MayRotate(cfg, m)
  }

  function SealFailMem(m: Mem): Mem {
    m.(active := m.active.(frozen := true), walOpen := false, fatal := true)
  }

  predicate CanFlushCheck(m: Mem) {
    m.flush.FIdle? && !m.fatal
  }

  predicate CanSnap(m: Mem) {
    m.flush.FChecked? && m.frozen != [] && m.frozenWALs != []
  }

  function SnapMem(m: Mem): Mem
    requires CanSnap(m)
  {
    m.(flush := FSnapped(m.frozen[0], m.frozenWALs[0]))
  }

  function CreateMem(m: Mem): Mem
    requires m.flush.FSnapped?
  {
    m.(flush := FWriting(m.flush.table, m.flush.seg, m.sstSeq + 1), sstSeq := m.sstSeq + 1)
  }

  function CreateDisk(m: Mem, d: Disk): Disk {
    d.(tmps := d.tmps + {m.sstSeq + 1})
  }

  ghost predicate CanCommit(m: Mem, sst: Sst) {
    && m.flush.FWriting?
    && sst.id == m.flush.sstID && sst.contents == m.flush.table.contents && Exact(sst)
  }

  function CommitMem(m: Mem, sst: Sst): Mem
    requires m.flush.FWriting?
  {
    m.(flush := FCommitted(m.flush.table, m.flush.seg, sst))
  }

  /** The rename. */
  function CommitDisk(d: Disk, sst: Sst): Disk {
    d.(ssts := d.ssts[sst.id := sst], tmps := d.tmps - {sst.id})
  }

  ghost predicate CanSwap(m: Mem) {
    && m.flush.FCommitted? && NoReaders(m)
    && m.frozen != [] && m.frozenWALs != [] && m.frozen[0] == m.flush.table
  }

  ghost function SwappedMem(m: Mem): Mem
    requires CanSwap(m)
  {
    SwapMem(m, m.flush.sst).(flush := FSwapped(m.flush.seg))
  }

  function DeleteDisk(m: Mem, d: Disk, ok: bool): Disk
    requires m.flush.FSwapped?
  {
    if ok then d.(segs := d.segs - {m.flush.seg}) else d
  }

  function FlushFailDisk(m: Mem, d: Disk, dropTmp: bool): Disk {
    if dropTmp && m.flush.FWriting? then d.(tmps := d.tmps - {m.flush.sstID}) else d
  }

  /** A crash keeps every synced byte of the active segment and any part of what came behind. */
  predicate CanCrash(c: Codec, m: Mem, d: Disk, t: nat, k: nat, keep: nat) {
    m.synced <= keep <= |SegBytes(d, m.activeSeg) + InFlight(c, m, t, k)|
  }

  function CrashDisk(c: Codec, m: Mem, d: Disk, t: nat, k: nat, keep: nat): Disk
    requires CanCrash(c, m, d, t, k, keep)
  {
    d.(segs := d.segs[m.activeSeg := (SegBytes(d, m.activeSeg) + InFlight(c, m, t, k))[..keep]])
  }

  ghost predicate CanOpen(env: Env, d: Disk, ch: OpenChoice) {
    && OpenChoiceOk(env, d, ch) && ch.ids != []
    && Recovered(env, d, ch).Some?
    && IsMaxOrZero(ch.memMax, Recovered(env, d, ch).value.contents.Keys)
  }

  ghost predicate Enabled(env: Env, w: World, s: Step) {
    if w.node.Down? then s.Open? && CanOpen(env, w.disk, s.ch)
    else
      var m, d := w.node.mem, w.disk;
      match s
      case Check(t, _) => CanCheck(m, t)
      case GiveUp(t) => CanGiveUp(m, t)
      case Gate(t) => CanGate(env.cfg, m, t)
      case Alloc(t) => CanAlloc(m, t)
      case Lock(t) => CanLock(m, t)
      case Append(t) => CanAppend(env.c, m, t)
      case AppendFails(t, k) => CanAppendFail(env.c, m, t, k)
      case Put(t) => CanPut(m, t)
      case Freeze => CanFreeze(env.cfg, m)
      case SealFails(_) => CanFreeze(env.cfg, m)
      case FlushCheck => CanFlushCheck(m)
      case FlushNothing => m.flush.FChecked? && m.frozen == []
      case FlushSnap => CanSnap(m)
      case FlushCreate => m.flush.FSnapped?
      case FlushCommit(sst) => CanCommit(m, sst)
      case FlushSwap => CanSwap(m)
      case FlushDelete(_) => m.flush.FSwapped?
      case FlushFails(_, _) => FlushHasSnapshot(m.flush)
      case Crash(t, k, keep) => CanCrash(env.c, m, d, t, k, keep)
      case Open(_) => false
  }

  ghost function Do(env: Env, w: World, s: Step): World
    requires Enabled(env, w, s)
  {
    if s.Open? then
      var m := OpenedMem(env, w.disk, s.ch);
      World(Up(m), OpenedDisk(w.disk, s.ch), View(m), w.attempted)
    else
      var m, d := w.node.mem, w.disk;
      match s
      case Check(t, rec) => w.(node := Up(SetWriter(m, t, Checked(rec))))
      case GiveUp(t) => w.(node := Up(SetWriter(m, t, Idle)))
      case Gate(t) => w.(node := Up(SetWriter(m, t, Gated(m.writers[t].rec))))
      case Alloc(t) => w.(node := Up(AllocMem(m, t)), attempted := w.attempted + {AllocEntry(m, t)})
      case Lock(t) => w.(node := Up(SetWriter(m, t, Locked(m.writers[t].e))))
      case Append(t) => w.(node := Up(AppendMem(env.c, m, d, t)), disk := AppendDisk(env.c, m, d, t))
      case AppendFails(t, k) =>
        w.(node := Up(SetWriter(m, t, Idle)), disk := AppendFailDisk(env.c, m, d, t, k))
      case Put(t) => w.(node := Up(PutMem(m, t)), view := PutView(m, w.view, t))
      case Freeze =>
        w.(node := Up(RotateMem(m, |SegBytes(d, m.nextSeg)|)), disk := WriteSeg(d, m.nextSeg, []))
      case SealFails(created) =>
        w.(node := Up(SealFailMem(m)), disk := if created then WriteSeg(d, m.nextSeg, []) else d)
      case FlushCheck => w.(node := Up(m.(flush := FChecked)))
      case FlushNothing => w.(node := Up(m.(flush := FIdle)))
      case FlushSnap => w.(node := Up(SnapMem(m)))
      case FlushCreate => w.(node := Up(CreateMem(m)), disk := CreateDisk(m, d))
      case FlushCommit(sst) => w.(node := Up(CommitMem(m, sst)), disk := CommitDisk(d, sst))
      case FlushSwap => w.(node := Up(SwappedMem(m)))
      case FlushDelete(ok) => w.(node := Up(m.(flush := FIdle)), disk := DeleteDisk(m, d, ok))
      case FlushFails(dropTmp, fatal) =>
        w.(node := Up(m.(flush := FIdle, fatal := m.fatal || fatal)), disk := FlushFailDisk(m, d, dropTmp))
      case Crash(t, k, keep) => w.(node := Down, disk := CrashDisk(env.c, m, d, t, k, keep))
  }

  /** The steps of writers, as against rotation, flush, crash and recovery. */
  predicate WriterStep(s: Step) {
    s.Check? || s.GiveUp? || s.Gate? || s.Alloc? || s.Lock? || s.Append? || s.AppendFails? || s.Put?
  }

  const INITIAL := World(Down, Disk(map[], map[], {}), map[], {})

  /** The states a list of steps runs through; the list is a run when every step is enabled where it is taken. */
  ghost predicate Runs(env: Env, w: World, steps: seq<Step>, w': World)
    decreases |steps|
  {
    if steps == [] then w' == w
    else Enabled(env, w, steps[0]) && Runs(env, Do(env, w, steps[0]), steps[1..], w')
  }
}
