/** The DocID allocator (internal/types/allocator.go): one 64-bit counter under Next and Observe. */
module Allocator {
  import opened Bytes
  import opened Types

  class DocIDAllocator {
    var next: uint64

    constructor ()
      ensures next == 0
    {
      next := 0;
    }

    /** next.Add(1), which wraps at 2^64. */
    method Next() returns (id: DocID)
      modifies this
      ensures id == next == (old(next) + 1) % U64
      ensures id > old(next) <==> old(next) + 1 < U64
    {
      next := (next + 1) % U64;
      return next;
    }

    /**
     The compare-and-swap loop. interference[i] is what other goroutines have raised the counter to between the
     load and the swap of turn i; a swap succeeds only when nobody came between.
     */
    method Observe(seen: DocID, interference: seq<uint64>) returns (turns: nat)
      modifies this
      ensures next >= seen && next >= old(next)
      ensures turns <= |interference|
      ensures turns == 0 && (interference == [] || interference[0] <= old(next)) ==>
                next == if old(next) < seen then seen else old(next)
    {
      turns := 0;
      while true
        invariant turns <= |interference|
        invariant next >= old(next)
        invariant turns == 0 ==> next == old(next)
        decreases |interference| - turns
      {
        var cur := next;
        if seen <= cur {
          return;
        }
        if turns < |interference| && interference[turns] > next {
          next := interference[turns];
        }
        if next == cur {
          next := seen;
          return;
        }
        turns := turns + 1;
      }
    }

    method Peek() returns (id: DocID)
      ensures id == next
    {
      return next;
    }
  }

  // ---- interleaving -----------------------------------------------------------------------------

  /** Goroutine-level steps on the counter: an addition, a load, and the swap of a pending Observe. */
  datatype Op =
    | Add(g: nat)
    | Load(g: nat, seen: uint64)
    | Cas(g: nat)

  datatype Pc = Idle | Loaded(seen: uint64, cur: uint64)

  /** The counter, the goroutines, every DocID handed out so far and every value whose Observe has returned. */
  datatype State = State(next: uint64, pcs: seq<Pc>, issued: seq<uint64>, observed: set<uint64>)

  predicate Enabled(s: State, op: Op) {
    match op
    case Add(g) => g < |s.pcs| && s.pcs[g].Idle?
    case Load(g, _) => g < |s.pcs|
    case Cas(g) => g < |s.pcs| && s.pcs[g].Loaded?
  }

  function Do(s: State, op: Op): State
    requires Enabled(s, op)
  {
    match op
    case Add(g) =>
      var id := (s.next + 1) % U64;
      s.(next := id, issued := s.issued + [id])
    case Load(g, seen) =>
      if seen <= s.next then s.(pcs := s.pcs[g := Idle], observed := s.observed + {seen})
      else s.(pcs := s.pcs[g := Loaded(seen, s.next)])
    case Cas(g) =>
      var pc := s.pcs[g];
      if s.next == pc.cur then s.(next := pc.seen, pcs := s.pcs[g := Idle], observed := s.observed + {pc.seen})
      else s.(pcs := s.pcs[g := Idle])
  }

  ghost predicate Inv(s: State) {
    && (forall i :: 0 <= i < |s.issued| ==> s.issued[i] <= s.next)
    && (forall i, j :: 0 <= i < j < |s.issued| ==> s.issued[i] < s.issued[j])
    && (forall x | x in s.observed :: x <= s.next)
    && (forall g :: 0 <= g < |s.pcs| && s.pcs[g].Loaded? ==> s.pcs[g].cur < s.pcs[g].seen)
  }

  /** A run in which the counter never stands at its maximum when an addition comes. */
  ghost predicate Runs(s: State, ops: seq<Op>, s': State)
    decreases |ops|
  {
    if ops == [] then s' == s
    else
      && Enabled(s, ops[0]) && (ops[0].Add? ==> s.next + 1 < U64)
      && Runs(Do(s, ops[0]), ops[1..], s')
  }

  lemma StepKeepsInv(s: State, op: Op)
    requires Inv(s) && Enabled(s, op) && (op.Add? ==> s.next + 1 < U64)
    ensures Inv(Do(s, op))
    ensures s.next <= Do(s, op).next
    ensures s.issued <= Do(s, op).issued && s.observed <= Do(s, op).observed
    ensures op.Add? ==>
      var id := Do(s, op).next;
      (forall x | x in s.observed :: x < id) && (forall i :: 0 <= i < |s.issued| ==> s.issued[i] < id)
  {
  }

  /** Below 2^64 the counter never goes back, the DocIDs handed out are strictly increasing, and the next one is
      above everything handed out and everything observed, however Next and Observe interleave. */
  lemma {:induction false} AllocatorIsMonotonic(s: State, ops: seq<Op>, s': State)
    requires Inv(s) && Runs(s, ops, s')
    ensures Inv(s') && s.next <= s'.next
    ensures s.issued <= s'.issued && s.observed <= s'.observed
    decreases |ops|
  {
    hide Inv, Enabled, Do;
    if ops != [] {
      StepKeepsInv(s, ops[0]);
      AllocatorIsMonotonic(Do(s, ops[0]), ops[1..], s');
    }
  }

  /** Exactly when an addition hands out a DocID above all before it: when the counter is not at its maximum. */
  lemma NextIsFreshIff(s: State, g: nat)
    requires Inv(s) && Enabled(s, Add(g))
    ensures Do(s, Add(g)).next > s.next <==> s.next < U64 - 1
    ensures s.next == U64 - 1 ==> Do(s, Add(g)).next == 0
  {
  }
}
