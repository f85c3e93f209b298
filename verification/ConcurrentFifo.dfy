/**
 The two-ring queue of datastructures.c, with a producer that is an interrupt
 handler (main.c): a whole concurrent_fifo_add may happen between any two steps
 of concurrent_fifo_pop.  A state is the queue, the consumer's position and
 local variables, and a history of what was added and what was popped.
 */
module ConcurrentFifo {
  import opened Words
  import opened Rings

  datatype Side = A | B

  /** Where the consumer is: between calls, or before the named step of concurrent_fifo_pop. */
  datatype Position =
    | Idle
    | Check(side: Side)      // is the ring empty?
    | Compare(side: Side)    // is its oldest tag the next one?
    | Lock(side: Side)
    | Copy(side: Side, i: nat) // ring_buf_pop, word i
    | Remove(side: Side)   // ++tail
    | Wrap(side: Side)       // tail back to the start, past the end
    | Unlock(side: Side)
    | Deliver(i: nat)        // copy word i to the caller
    | Bump                   // ++curr_tag

  datatype Queue = Queue(a: Ring, b: Ring, aLck: bool, bLck: bool, tag: Word, curr: Word)

  /** cTag, held and out are local variables of the pop; sure, failed and below are history. */
  datatype State = State(
    q: Queue, at: Position, cTag: Word, held: seq<Word>, out: seq<Word>,
    sure: bool,              // the queue was not empty when this pop began
    failed: bool,            // how the last pop ended
    added: seq<seq<Word>>, popped: seq<seq<Word>>,
    ia: seq<nat>, ib: seq<nat>) // which additions are in each ring

  function RingOf(q: Queue, side: Side): Ring { if side.A? then q.a else q.b }

  function WithRing(q: Queue, side: Side, r: Ring): Queue { if side.A? then q.(a := r) else q.(b := r) }

  function Locked(q: Queue, side: Side): bool { if side.A? then q.aLck else q.bLck }

  function WithLock(q: Queue, side: Side, lck: bool): Queue { if side.A? then q.(aLck := lck) else q.(bLck := lck) }

  function In(s: State, side: Side): seq<nat> { if side.A? then s.ia else s.ib }

  // --------------------------------------------------------- the producer

  /** A ring that the handler may use: not locked, and not full. */
  predicate Open(q: Queue, side: Side) {
    !Locked(q, side) && ValidRing(RingOf(q, side)) && !IsFull(RingOf(q, side))
  }

  /** concurrent_fifo_add, atomically: the first open ring gets the tagged item; none, and the tag is taken back. */
  function Add(s: State, item: seq<Word>): State {
    var tagged := [s.q.tag] + item;
    if Open(s.q, A) then Added(s, A, tagged, item)
    else if Open(s.q, B) then Added(s, B, tagged, item)
    else s.(q := s.q.(tag := Sub(Words.Add(s.q.tag, 1), 1)))
  }

  function Added(s: State, side: Side, tagged: Item, item: seq<Word>): State
    requires ValidRing(RingOf(s.q, side))
  {
    var s' := s.(q := WithRing(s.q, side, Put(RingOf(s.q, side), tagged)).(tag := Words.Add(s.q.tag, 1)), added := s.added + [item]);
    if side.A? then s'.(ia := s.ia + [|s.added|]) else s'.(ib := s.ib + [|s.added|])
  }

  // --------------------------------------------------------- the consumer

  /** The words at the tail of a ring. */
  function Oldest(q: Queue, side: Side): Item {
    var r := RingOf(q, side);
    if r.tail < |r.slots| then r.slots[r.tail] else []
  }

  /** Neither ring has the next item: the pop reports failure, or tries the second ring first. */
  function Elsewhere(s: State, side: Side): State {
    if side.A? then s.(at := Check(B)) else s.(at := Idle, failed := true)
  }

  /** The next step of a pop; from Idle, the start of one. */
  function Consume(s: State): State {
    match s.at
    case Idle => s.(at := Check(A), cTag := s.q.curr, held := [], out := [],
                    sure := s.ia != [] || s.ib != [])
    case Check(side) =>
      if IsEmpty(RingOf(s.q, side)) then Elsewhere(s, side) else s.(at := Compare(side))
    case Compare(side) =>
      var r := RingOf(s.q, side);
      if r.tail < |r.slots| && r.slots[r.tail] != [] && r.slots[r.tail][0] == s.cTag then s.(at := Lock(side)) else Elsewhere(s, side)
    case Lock(side) => s.(q := WithLock(s.q, side, true), at := Copy(side, 0))
    case Copy(side, i) =>
      var r := RingOf(s.q, side);
      if r.tail < |r.slots| && i < |r.slots[r.tail]| then s.(held := s.held + [r.slots[r.tail][i]], at := Copy(side, i + 1))
      else s.(at := Remove(side))
    case Remove(side) =>
      var r := RingOf(s.q, side);
      var s' := s.(q := WithRing(s.q, side, r.(tail := r.tail + 1)), at := Wrap(side));
      if side.A? then s'.(ia := if s.ia == [] then [] else s.ia[1..]) else s'.(ib := if s.ib == [] then [] else s.ib[1..])
    case Wrap(side) =>
      var r := RingOf(s.q, side);
      s.(q := WithRing(s.q, side, if r.tail >= |r.slots| then r.(tail := 0) else r), at := Unlock(side))
    case Unlock(side) => s.(q := WithLock(s.q, side, false), at := Deliver(1))
    case Deliver(i) =>
      if i < |s.held| then s.(out := s.out + [s.held[i]], at := Deliver(i + 1)) else s.(at := Bump)
    case Bump => s.(q := s.q.(curr := Words.Add(s.q.curr, 1)), at := Idle, failed := false, popped := s.popped + [s.out])
  }

  // ------------------------------------------------------------ the invariant

  /** The ring as it will be once a pending wrap of its tail is done. */
  function Settled(r: Ring): Ring { if r.tail >= |r.slots| then r.(tail := 0) else r }

  /** Addition number j, as it is stored. */
  function Stored(added: seq<seq<Word>>, j: nat): Item
    requires j < |added|
  {
    [j % W64] + added[j]
  }

  /** The ring holds exactly the additions ix, in that order. */
  ghost predicate Holding(r: Ring, ix: seq<nat>, added: seq<seq<Word>>) {
    && ValidRing(r) && |Contents(r)| == |ix|
    && (forall i :: 0 <= i < |ix| ==> ix[i] < |added| && Contents(r)[i] == Stored(added, ix[i]))
    && (forall i, j :: 0 <= i < j < |ix| ==> ix[i] < ix[j])
  }

  /** Between the removal of an item from its ring and the count of it. */
  predicate InFlight(at: Position) { at.Wrap? || at.Unlock? || at.Deliver? || at.Bump? }

  /** The oldest addition still in a ring, if there is one. */
  function Next(s: State): nat { |s.popped| + if InFlight(s.at) then 1 else 0 }

  /** The rings hold exactly the additions from Next on, each once. */
  ghost predicate Interval(s: State) {
    && Next(s) <= |s.added| && |s.ia| + |s.ib| == |s.added| - Next(s)
    && (forall j {:trigger j in s.ia} {:trigger j in s.ib} :: Next(s) <= j < |s.added| <==> j in s.ia || j in s.ib)
    && (forall j {:trigger j in s.ia} :: j in s.ia ==> j !in s.ib)
  }

  ghost predicate Base(s: State) {
    && Holding(Settled(s.q.a), s.ia, s.added) && Holding(Settled(s.q.b), s.ib, s.added)
    && |s.q.a.slots| + |s.q.b.slots| < W64
    && Interval(s)
    && s.q.tag == |s.added| % W64 && s.q.curr == |s.popped| % W64
    && s.popped == s.added[..|s.popped|]
  }

  predicate Holds(at: Position, side: Side) {
    (at.Copy? && at.side == side) || at == Remove(side) || at == Wrap(side) || at == Unlock(side)
  }

  /** The oldest item of a ring is the next one to pop. */
  predicate Front(s: State, side: Side) { In(s, side) != [] && In(s, side)[0] == |s.popped| }

  /** A ring is locked exactly while its oldest item is being removed; only then can its tail be past the end. */
  predicate Locks(s: State) { LocksOn(s, A) && LocksOn(s, B) }

  predicate LocksOn(s: State, side: Side) {
    && (Locked(s.q, side) <==> Holds(s.at, side))
    && (s.at != Wrap(side) ==> RingOf(s.q, side).tail < |RingOf(s.q, side).slots|)
  }

  /** The consumer's local variables, by position. */
  ghost predicate Local(s: State) {
    && (!s.at.Idle? ==> s.cTag == s.q.curr)
    && match s.at
       case Idle => true
       case Check(side) => s.held == [] && s.out == [] && (s.sure ==> Waiting(s, side))
       case Compare(side) => s.held == [] && s.out == [] && In(s, side) != [] && (s.sure ==> Waiting(s, side))
       case Lock(side) => s.held == [] && s.out == [] && Front(s, side)
       case Copy(side, i) => s.out == [] && Front(s, side) && |s.popped| < |s.added| &&
                             i <= |Stored(s.added, |s.popped|)| && s.held == Stored(s.added, |s.popped|)[..i]
       case Remove(side) => s.out == [] && Front(s, side) && |s.popped| < |s.added| && s.held == Stored(s.added, |s.popped|)
       case Wrap(_) => s.out == [] && |s.popped| < |s.added| && s.held == Stored(s.added, |s.popped|)
       case Unlock(_) => s.out == [] && |s.popped| < |s.added| && s.held == Stored(s.added, |s.popped|)
       case Deliver(i) => |s.popped| < |s.added| && s.held == Stored(s.added, |s.popped|) &&
                          1 <= i <= |s.held| && s.out == s.held[1..i]
       case Bump => |s.popped| < |s.added| && s.out == s.added[|s.popped|]
  }

  /** The next item is in a ring that the pop has yet to look at. */
  predicate Waiting(s: State, side: Side) { |s.popped| in In(s, side) || (side.A? && |s.popped| in s.ib) }

  ghost predicate Inv(s: State) { Base(s) && Locks(s) && Local(s) }

  // -------------------------------------------------------------- additions

  lemma TagAndBack(t: Word)
    ensures Sub(Words.Add(t, 1), 1) == t
  {
  }

  /** Room for an addition: the consumer does not hold the ring, and one slot will still be free. */
  predicate Room(r: Ring, lck: bool) { !lck && ValidRing(r) && Count(r) + 1 < |r.slots| }

  lemma OpenIsRoom(q: Queue)
    ensures Open(q, A) <==> Room(q.a, q.aLck)
    ensures Open(q, B) <==> Room(q.b, q.bLck)
  {
    if ValidRing(q.a) { FullIsCount(q.a); }
    if ValidRing(q.b) { FullIsCount(q.b); }
  }

  /** An addition fails exactly when neither ring has room, and then leaves no trace. */
  lemma AddFails(s: State, item: seq<Word>)
    ensures !Room(s.q.a, s.q.aLck) && !Room(s.q.b, s.q.bLck) <==> Add(s, item).added == s.added
    ensures !Room(s.q.a, s.q.aLck) && !Room(s.q.b, s.q.bLck) ==> Add(s, item) == s
  {
    OpenIsRoom(s.q);
    TagAndBack(s.q.tag);
    assert |s.added + [item]| == |s.added| + 1;
    hide Room, Open;
  }

  /** The item with its tag goes to the end of the first ring if that has room, and otherwise of the second; only the tag changes besides. */
  lemma AddGoes(s: State, item: seq<Word>)
    ensures Room(s.q.a, s.q.aLck) ==>
              var q := Add(s, item).q;
              && ValidRing(q.a) && Contents(q.a) == Contents(s.q.a) + [[s.q.tag] + item] && |q.a.slots| == |s.q.a.slots|
              && q == s.q.(a := q.a, tag := if s.q.tag == 0xffff_ffff_ffff_ffff then 0 else s.q.tag + 1)
    ensures !Room(s.q.a, s.q.aLck) && Room(s.q.b, s.q.bLck) ==>
              var q := Add(s, item).q;
              && ValidRing(q.b) && Contents(q.b) == Contents(s.q.b) + [[s.q.tag] + item] && |q.b.slots| == |s.q.b.slots|
              && q == s.q.(b := q.b, tag := if s.q.tag == 0xffff_ffff_ffff_ffff then 0 else s.q.tag + 1)
  {
    OpenIsRoom(s.q);
    if Open(s.q, A) { PutAppends(s.q.a, [s.q.tag] + item); }
    if Open(s.q, B) { PutAppends(s.q.b, [s.q.tag] + item); }
    hide Room, Contents;
  }

  lemma HoldingPut(r: Ring, ix: seq<nat>, added: seq<seq<Word>>, item: seq<Word>)
    requires Holding(r, ix, added) && !IsFull(r)
    ensures Holding(Put(r, [|added| % W64] + item), ix + [|added|], added + [item])
  {
    PutAppends(r, [|added| % W64] + item);
    var c, c' := Contents(r), Contents(Put(r, [|added| % W64] + item));
    hide Contents;
    forall i | 0 <= i < |ix| + 1 ensures c'[i] == Stored(added + [item], (ix + [|added|])[i]) {
      if i < |ix| { assert c'[i] == c[i] == Stored(added, ix[i]); }
    }
  }

  lemma HoldingMore(r: Ring, ix: seq<nat>, added: seq<seq<Word>>, item: seq<Word>)
    requires Holding(r, ix, added)
    ensures Holding(r, ix, added + [item])
  {
    forall i | 0 <= i < |ix| ensures Contents(r)[i] == Stored(added + [item], ix[i]) {
      assert Contents(r)[i] == Stored(added, ix[i]);
    }
  }

  lemma IntervalAdd(s: State, side: Side, tagged: Item, item: seq<Word>)
    requires Interval(s) && ValidRing(RingOf(s.q, side))
    ensures Interval(Added(s, side, tagged, item))
  {
    var s' := Added(s, side, tagged, item);
    assert Next(s') == Next(s);
    forall j {:trigger j in s'.ia} {:trigger j in s'.ib}
      ensures Next(s') <= j < |s'.added| <==> j in s'.ia || j in s'.ib
      ensures j in s'.ia ==> j !in s'.ib
    {
      if side.A? {
        assert j in s'.ia <==> j in s.ia || j == |s.added|;
        assert j in s'.ib <==> j in s.ib;
      } else {
        assert j in s'.ib <==> j in s.ib || j == |s.added|;
        assert j in s'.ia <==> j in s.ia;
      }
    }
  }

  lemma AddBase(s: State, side: Side, item: seq<Word>)
    requires Base(s) && Open(s.q, side)
    ensures Base(Added(s, side, [s.q.tag] + item, item))
  {
    IntervalAdd(s, side, [s.q.tag] + item, item);
    hide Interval, Contents, Stored, IsFull;
    if side.A? {
      HoldingPut(s.q.a, s.ia, s.added, item);
      HoldingMore(Settled(s.q.b), s.ib, s.added, item);
    } else {
      HoldingPut(s.q.b, s.ib, s.added, item);
      HoldingMore(Settled(s.q.a), s.ia, s.added, item);
    }
    hide Holding;
    NextTag(|s.added|);
  }

  lemma NextTag(n: nat)
    ensures Words.Add(n % W64, 1) == (n + 1) % W64
  {
  }

  lemma AddLocks(s: State, side: Side, tagged: Item, item: seq<Word>)
    requires Locks(s) && ValidRing(RingOf(s.q, side))
    ensures Locks(Added(s, side, tagged, item))
  {
  }

  lemma AddLocal(s: State, side: Side, tagged: Item, item: seq<Word>)
    requires Local(s) && ValidRing(RingOf(s.q, side))
    ensures Local(Added(s, side, tagged, item))
  {
    hide Added, Stored;
    var s' := Added(s, side, tagged, item);
    AddSame(s, side, tagged, item);
    if |s.popped| < |s.added| { StoredSame(s.added, s'.added, |s.popped|); }
  }

  lemma StoredSame(added: seq<seq<Word>>, added': seq<seq<Word>>, j: nat)
    requires j < |added| && j < |added'| && added'[j] == added[j]
    ensures Stored(added', j) == Stored(added, j)
  {
  }

  lemma AddSame(s: State, side: Side, tagged: Item, item: seq<Word>)
    requires ValidRing(RingOf(s.q, side))
    ensures var s' := Added(s, side, tagged, item);
            && s'.at == s.at && s'.held == s.held && s'.out == s.out && s'.popped == s.popped && s'.cTag == s.cTag && s'.sure == s.sure
            && s'.q.curr == s.q.curr && |s'.added| == |s.added| + 1 && (forall j :: 0 <= j < |s.added| ==> s'.added[j] == s.added[j])
            && (s.ia != [] ==> s'.ia != [] && s'.ia[0] == s.ia[0]) && (s.ib != [] ==> s'.ib != [] && s'.ib[0] == s.ib[0])
            && (|s.popped| in s.ia ==> |s.popped| in s'.ia) && (|s.popped| in s.ib ==> |s.popped| in s'.ib)
  {
  }

  /** The handler keeps the invariant, wherever it interrupts the consumer. */
  lemma AddKeeps(s: State, item: seq<Word>)
    requires Inv(s)
    ensures Inv(Add(s, item))
  {
    hide Base, Locks, Local;
    TagAndBack(s.q.tag);
    if Open(s.q, A) {
      AddBase(s, A, item);
      AddLocks(s, A, [s.q.tag] + item, item);
      AddLocal(s, A, [s.q.tag] + item, item);
    } else if Open(s.q, B) {
      AddBase(s, B, item);
      AddLocks(s, B, [s.q.tag] + item, item);
      AddLocal(s, B, [s.q.tag] + item, item);
    } else {
      assert Add(s, item) == s;
    }
  }

  // ---------------------------------------------------------- consumer steps

  /** Steps that leave the queue's rings, the histories and the in-flight item as they are. */
  lemma BaseSame(s: State, s': State)
    requires Base(s) && s'.added == s.added && s'.popped == s.popped && s'.ia == s.ia && s'.ib == s.ib && Next(s') == Next(s)
    requires Settled(s'.q.a) == Settled(s.q.a) && Settled(s'.q.b) == Settled(s.q.b) && s'.q.tag == s.q.tag && s'.q.curr == s.q.curr
    requires |s'.q.a.slots| == |s.q.a.slots| && |s'.q.b.slots| == |s.q.b.slots|
    ensures Base(s')
  {
  }

  /** What a ring that is not past its end says about its oldest item. */
  lemma OldestIs(s: State, side: Side)
    requires Base(s) && RingOf(s.q, side).tail < |RingOf(s.q, side).slots|
    ensures IsEmpty(RingOf(s.q, side)) <==> In(s, side) == []
    ensures In(s, side) != [] ==> In(s, side)[0] < |s.added|
    ensures In(s, side) != [] ==> Next(s) <= In(s, side)[0] && RingOf(s.q, side).slots[RingOf(s.q, side).tail] == Stored(s.added, In(s, side)[0])
    ensures |s.added| - Next(s) < W64
  {
    var r := RingOf(s.q, side);
    FullIsCount(r);
    FullIsCount(Settled(s.q.a));
    FullIsCount(Settled(s.q.b));
    if In(s, side) != [] {
      DropRemoves(r);
      assert In(s, side)[0] in In(s, side);
    }
  }

  lemma SmallDistance(p: nat, j: nat)
    requires p <= j < p + W64 && j % W64 == p % W64
    ensures j == p
  {
  }

  /** Equal tags mean equal numbers: the tags in the queue span less than 2^64. */
  lemma TagMeansFront(s: State, side: Side)
    requires Base(s) && In(s, side) != [] && RingOf(s.q, side).tail < |RingOf(s.q, side).slots| && !InFlight(s.at)
    requires s.cTag == s.q.curr
    ensures var item := RingOf(s.q, side).slots[RingOf(s.q, side).tail];
            item != [] && (item[0] == s.cTag <==> Front(s, side))
  {
    OldestIs(s, side);
    var j, p := In(s, side)[0], |s.popped|;
    if j % W64 == p % W64 { SmallDistance(p, j); }
  }

  lemma NotHere(s: State, side: Side)
    requires Base(s) && !InFlight(s.at) && !Front(s, side)
    ensures |s.popped| !in In(s, side)
  {
    var ix := In(s, side);
    forall i | 0 <= i < |ix| ensures ix[i] > |s.popped| {
      assert ix[0] in ix && Next(s) <= ix[0];
    }
  }

  /** Locks and tails, at every step. */
  lemma LocksKeep(s: State, side: Side)
    requires LocksOn(s, side) && Settled(RingOf(s.q, side)).tail < |RingOf(s.q, side).slots|
    ensures LocksOn(Consume(s), side)
  {
    hide Consume, Settled, Holds, Locked;
    LockedStays(s, side);
    TailKeeps(s, side);
  }

  lemma LockedStays(s: State, side: Side)
    requires Locked(s.q, side) <==> Holds(s.at, side)
    ensures Locked(Consume(s).q, side) <==> Holds(Consume(s).at, side)
  {
    hide Consume, Holds, Locked;
    LocksMove(s, side);
    PlacesMove(s, side);
  }

  /** Only the two lock steps change a lock. */
  lemma LocksMove(s: State, side: Side)
    ensures Locked(Consume(s).q, side) ==
            if s.at == Lock(side) then true else if s.at == Unlock(side) then false else Locked(s.q, side)
  {
    hide IsEmpty;
  }

  /** Only the two lock steps enter and leave the stretch where a ring is held. */
  lemma PlacesMove(s: State, side: Side)
    ensures Holds(Consume(s).at, side) <==> s.at == Lock(side) || (Holds(s.at, side) && s.at != Unlock(side))
  {
    hide IsEmpty;
  }

  lemma StaysIdle(s: State)
    ensures forall side :: var s' := Elsewhere(s, side); s'.q == s.q && (s'.at == Idle || s'.at == Check(B))
  {
  }

  lemma TailKeeps(s: State, side: Side)
    requires s.at != Wrap(side) ==> RingOf(s.q, side).tail < |RingOf(s.q, side).slots|
    requires Settled(RingOf(s.q, side)).tail < |RingOf(s.q, side).slots|
    ensures Consume(s).at != Wrap(side) ==> RingOf(Consume(s).q, side).tail < |RingOf(Consume(s).q, side).slots|
  {
    hide IsEmpty, Elsewhere;
    StaysIdle(s);
  }

  lemma TailsSettled(s: State)
    requires Base(s)
    ensures Settled(s.q.a).tail < |s.q.a.slots| && Settled(s.q.b).tail < |s.q.b.slots|
  {
  }

  lemma QuietFields(s: State)
    requires !s.at.Remove? && !s.at.Bump?
    ensures var s' := Consume(s);
            && s'.added == s.added && s'.popped == s.popped && s'.ia == s.ia && s'.ib == s.ib && Next(s') == Next(s)
            && s'.q.tag == s.q.tag && s'.q.curr == s.q.curr
  {
  }

  lemma QuietRings(s: State)
    requires !s.at.Remove? && !s.at.Bump?
    ensures Settled(Consume(s).q.a) == Settled(s.q.a) && Settled(Consume(s).q.b) == Settled(s.q.b)
    ensures |Consume(s).q.a.slots| == |s.q.a.slots| && |Consume(s).q.b.slots| == |s.q.b.slots|
  {
    hide IsEmpty, Words.Add;
    match s.at {
      case Wrap(side) =>
      case Unlock(side) =>
      case Lock(side) =>
      case _ =>
    }
  }

  lemma QuietKeeps(s: State)
    requires Base(s) && !s.at.Remove? && !s.at.Bump?
    ensures Base(Consume(s))
  {
    hide *;
    QuietFields(s);
    QuietRings(s);
    BaseSame(s, Consume(s));
  }

  lemma StartKeeps(s: State)
    requires Inv(s) && s.at.Idle?
    ensures Local(Consume(s))
  {
    var s' := Consume(s);
    if s'.sure { assert Next(s) in s.ia || Next(s) in s.ib; }
  }

  lemma CheckKeeps(s: State)
    requires Inv(s) && s.at.Check?
    ensures Local(Consume(s)) && (Consume(s).at.Idle? ==> !s.sure)
  {
    OldestIs(s, s.at.side);
    hide Base, Locks;
  }

  lemma CompareKeeps(s: State)
    requires Inv(s) && s.at.Compare?
    ensures Local(Consume(s)) && (Consume(s).at.Idle? ==> !s.sure)
  {
    TagMeansFront(s, s.at.side);
    if !Front(s, s.at.side) { NotHere(s, s.at.side); }
    hide Base, Locks;
  }

  lemma LockKeeps(s: State)
    requires Inv(s) && s.at.Lock?
    ensures Local(Consume(s))
  {
    OldestIs(s, s.at.side);
    hide Base, Locks, Stored;
  }

  lemma CopyKeeps(s: State)
    requires Inv(s) && s.at.Copy?
    ensures Local(Consume(s))
  {
    OldestIs(s, s.at.side);
    hide Base, Locks, Stored;
    var item, i := Stored(s.added, |s.popped|), s.at.i;
    assert i < |item| ==> item[..i] + [item[i]] == item[..i + 1];
    assert i == |item| ==> item[..i] == item;
  }

  lemma HoldingDrop(r: Ring, ix: seq<nat>, added: seq<seq<Word>>)
    requires Holding(r, ix, added) && ix != []
    ensures Holding(Drop(r), ix[1..], added)
  {
    FullIsCount(r);
    DropRemoves(r);
    var c := Contents(r);
    hide Contents;
    forall i | 0 <= i < |ix| - 1 ensures Contents(Drop(r))[i] == Stored(added, ix[1..][i]) {
      assert c[1..][i] == c[i + 1];
    }
  }

  lemma IntervalDrop(s: State, s': State, side: Side)
    requires Interval(s) && Front(s, side) && !InFlight(s.at) && s'.added == s.added && s'.popped == s.popped && InFlight(s'.at)
    requires forall i, j :: 0 <= i < j < |In(s, side)| ==> In(s, side)[i] < In(s, side)[j]
    requires In(s', side) == In(s, side)[1..]
    requires if side.A? then s'.ib == s.ib else s'.ia == s.ia
    ensures Interval(s')
  {
    var p, ix := |s.popped|, In(s, side);
    assert p in ix && p < |s.added|;
    assert forall j {:trigger j in ix[1..]} :: j in ix[1..] <==> j in ix && j != p;
  }

  lemma Ordered(s: State, side: Side)
    requires Base(s)
    ensures forall i, j :: 0 <= i < j < |In(s, side)| ==> In(s, side)[i] < In(s, side)[j]
  {
  }

  lemma AdvanceKeeps(s: State)
    requires Inv(s) && s.at.Remove?
    ensures Base(Consume(s)) && Local(Consume(s))
  {
    hide Holding, Interval, Contents, Stored;
    var side, s' := s.at.side, Consume(s);
    var r := RingOf(s.q, side);
    Ordered(s, side);
    HoldingDrop(r, In(s, side), s.added);
    IntervalDrop(s, s', side);
    assert Settled(RingOf(s'.q, side)) == Drop(r);
  }

  lemma WrapKeeps(s: State)
    requires Inv(s) && s.at.Wrap?
    ensures Local(Consume(s))
  {
    hide Base, Locks, Stored;
  }

  lemma UnlockKeeps(s: State)
    requires Inv(s) && s.at.Unlock?
    ensures Local(Consume(s))
  {
    hide Base, Locks;
    assert |Stored(s.added, |s.popped|)| >= 1;
    hide Stored;
    assert s.held[1..1] == [];
  }

  lemma DeliverKeeps(s: State)
    requires Inv(s) && s.at.Deliver?
    ensures Local(Consume(s))
  {
    hide Base, Locks;
    var i := s.at.i;
    assert s.held[1..] == s.added[|s.popped|];
    hide Stored;
    if i < |s.held| {
      assert s.held[1..i] + [s.held[i]] == s.held[1..i + 1];
    } else {
      assert s.held[1..i] == s.held[1..];
    }
  }

  lemma BumpKeeps(s: State)
    requires Inv(s) && s.at.Bump?
    ensures Base(Consume(s)) && Local(Consume(s))
  {
    var s', p := Consume(s), |s.popped|;
    assert s'.popped == s.added[..p + 1];
    NextTag(p);
    hide Holding, Stored;
    assert Next(s') == Next(s);
  }

  /** Every step of a pop keeps the invariant. */
  lemma ConsumeKeeps(s: State)
    requires Inv(s)
    ensures Inv(Consume(s))
  {
    hide Base, Local, LocksOn, Consume;
    TailsSettled(s);
    LocksKeep(s, A);
    LocksKeep(s, B);
    if !s.at.Remove? && !s.at.Bump? { QuietKeeps(s); }
    match s.at {
      case Idle => StartKeeps(s);
      case Check(_) => CheckKeeps(s);
      case Compare(_) => CompareKeeps(s);
      case Lock(_) => LockKeeps(s);
      case Copy(_, _) => CopyKeeps(s);
      case Remove(_) => AdvanceKeeps(s);
      case Wrap(_) => WrapKeeps(s);
      case Unlock(_) => UnlockKeeps(s);
      case Deliver(_) => DeliverKeeps(s);
      case Bump => BumpKeeps(s);
    }
  }

  /** A pop that began on a queue that was not empty does not fail. */
  lemma PopSucceeds(s: State)
    requires Inv(s) && !s.at.Idle? && Consume(s).at.Idle? && s.sure
    ensures !Consume(s).failed && s.at == Bump && Consume(s).popped == s.popped + [s.added[|s.popped|]]
  {
    if s.at.Check? { CheckKeeps(s); }
    if s.at.Compare? { CompareKeeps(s); }
  }

  // ------------------------------------------------------------- whole runs

  datatype Event = Interrupt(item: seq<Word>) | Step

  function After(s: State, e: Event): State {
    match e
    case Interrupt(item) => Add(s, item)
    case Step => Consume(s)
  }

  function Run(s: State, es: seq<Event>): State
    decreases |es|
  {
    if es == [] then s else Run(After(s, es[0]), es[1..])
  }

  /** A new queue with rings of the given capacities. */
  function Fresh(slotsA: seq<Item>, slotsB: seq<Item>): State {
    State(Queue(Ring(slotsA, 0, 0), Ring(slotsB, 0, 0), false, false, 0, 0), Idle, 0, [], [], false, false, [], [], [], [])
  }

  lemma FreshInv(slotsA: seq<Item>, slotsB: seq<Item>)
    requires |slotsA| >= 2 && |slotsB| >= 2 && |slotsA| + |slotsB| < W64
    ensures Inv(Fresh(slotsA, slotsB))
  {
  }

  /** Wherever interrupts fall, what has been popped is the beginning of what was added, in order. */
  lemma {:induction false} RunSafe(s: State, es: seq<Event>)
    requires Inv(s)
    ensures Inv(Run(s, es)) && Run(s, es).popped <= Run(s, es).added && s.popped <= Run(s, es).popped && s.added <= Run(s, es).added
    decreases |es|
  {
    if es == [] {
      assert s.popped == s.added[..|s.popped|];
    } else {
      EventKeeps(s, es[0]);
      RunSafe(After(s, es[0]), es[1..]);
    }
  }

  lemma EventKeeps(s: State, e: Event)
    requires Inv(s)
    ensures Inv(After(s, e)) && s.popped <= After(s, e).popped && s.added <= After(s, e).added
  {
    OnlyGrows(s, e);
    hide Inv, Add, Consume;
    match e {
      case Interrupt(item) => AddKeeps(s, item);
      case Step => ConsumeKeeps(s);
    }
  }

  lemma OnlyGrows(s: State, e: Event)
    ensures s.popped <= After(s, e).popped && s.added <= After(s, e).added
  {
    hide Consume, IsFull;
    if e.Step? { StepGrows(s); }
  }

  lemma StepGrows(s: State)
    ensures Consume(s).added == s.added
    ensures Consume(s).popped == if s.at.Bump? then s.popped + [s.out] else s.popped
  {
    if !s.at.Remove? && !s.at.Bump? {
      hide Consume;
      QuietFields(s);
    }
  }

  /** From a new queue: the rings always hold exactly what was added and not yet popped. */
  lemma FifoUnderInterrupts(slotsA: seq<Item>, slotsB: seq<Item>, es: seq<Event>)
    requires |slotsA| >= 2 && |slotsB| >= 2 && |slotsA| + |slotsB| < W64
    ensures var s := Run(Fresh(slotsA, slotsB), es);
            && s.popped <= s.added && Interval(s)
            && Holding(Settled(s.q.a), s.ia, s.added) && Holding(Settled(s.q.b), s.ib, s.added)
  {
    FreshInv(slotsA, slotsB);
    RunSafe(Fresh(slotsA, slotsB), es);
  }

  // ---------------------------------------------------------- a pop as a whole

  /** The events until the pop under way ends. */
  predicate UntilIdle(s: State, es: seq<Event>)
    decreases |es|
  {
    es != [] && if After(s, es[0]).at.Idle? then |es| == 1 else UntilIdle(After(s, es[0]), es[1..])
  }

  /** What an event leaves alone while a pop is under way. */
  lemma StillUnderWay(s: State, e: Event)
    requires !s.at.Idle? && !After(s, e).at.Idle?
    ensures After(s, e).sure == s.sure && After(s, e).popped == s.popped
  {
    hide IsEmpty, IsFull;
  }

  lemma InterruptsDoNotEnd(s: State, item: seq<Word>)
    ensures Add(s, item).at == s.at
  {
    hide IsFull, Put;
  }

  lemma {:induction false} PopEnds(s: State, es: seq<Event>)
    requires Inv(s) && !s.at.Idle? && s.sure && UntilIdle(s, es)
    ensures var s' := Run(s, es);
            !s'.failed && |s.popped| < |s'.added| && s'.popped == s.popped + [s'.added[|s.popped|]]
    decreases |es|
  {
    hide Inv, Add, Consume;
    var s1 := After(s, es[0]);
    if s1.at.Idle? {
      if es[0].Interrupt? {
        InterruptsDoNotEnd(s, es[0].item);
      } else {
        LastStep(s);
      }
    } else {
      EventKeeps(s, es[0]);
      StillUnderWay(s, es[0]);
      PopEnds(s1, es[1..]);
    }
  }

  lemma LastStep(s: State)
    requires Inv(s) && !s.at.Idle? && Consume(s).at.Idle? && s.sure
    ensures var s' := Consume(s);
            !s'.failed && |s.popped| < |s'.added| && s'.popped == s.popped + [s'.added[|s.popped|]]
  {
    PopSucceeds(s);
    hide Base, Locks;
  }

  /**
   A pop that starts on a queue with something in it delivers the oldest item, whatever is added between its steps,
   and in whatever number.
   */
  lemma PopDelivers(s: State, es: seq<Event>)
    requires Inv(s) && s.at.Idle? && (s.ia != [] || s.ib != []) && UntilIdle(Consume(s), es)
    ensures var s' := Run(Consume(s), es);
            !s'.failed && |s.popped| < |s'.added| && s'.popped == s.popped + [s'.added[|s.popped|]]
  {
    assert Consume(s).sure && !Consume(s).at.Idle? && Consume(s).popped == s.popped;
    hide Inv, Consume;
    ConsumeKeeps(s);
    PopEnds(Consume(s), es);
  }

  // ------------------------------------------------ a pop without interrupts

  /** The pop under way, for at most n more steps. */
  function Settle(s: State, n: nat): State
    decreases n
  {
    if n == 0 || s.at.Idle? then s else Settle(Consume(s), n - 1)
  }

  lemma Once(s: State, n: nat)
    requires !s.at.Idle?
    ensures Settle(s, n + 1) == Settle(Consume(s), n)
  {
  }

  /** The ring that has the next item at its tail. */
  function Ready(q: Queue): Option<Side> {
    if IsReady(q, A) then Some(A) else if IsReady(q, B) then Some(B) else None
  }

  predicate IsReady(q: Queue, side: Side) {
    !IsEmpty(RingOf(q, side)) && Oldest(q, side) != [] && Oldest(q, side)[0] == q.curr
  }

  /** The queue after a whole pop. */
  function Popped(q: Queue): Queue {
    match Ready(q)
    case None => q
    case Some(side) => WithRing(q, side, Drop(RingOf(q, side))).(curr := Words.Add(q.curr, 1))
  }

  lemma {:induction false} DeliverAlone(s: State)
    requires s.at.Deliver? && 1 <= s.at.i <= |s.held|
    ensures var s' := Settle(s, |s.held| - s.at.i + 2);
            && s'.at.Idle? && !s'.failed && s'.popped == s.popped + [s.out + s.held[s.at.i..]]
            && s'.q == s.q.(curr := Words.Add(s.q.curr, 1))
    decreases |s.held| - s.at.i
  {
    var i := s.at.i;
    if i < |s.held| {
      assert s.out + [s.held[i]] + s.held[i + 1..] == s.out + s.held[i..];
      DeliverAlone(Consume(s));
    } else {
      assert s.out + s.held[i..] == s.out;
      assert Consume(s) == s.(at := Bump);
      assert Settle(Consume(Consume(s)), 0) == Consume(Consume(s));
    }
  }

  /** From the removal of the item to the end. */
  lemma RemoveAlone(s: State)
    requires s.at.Remove? && s.out == [] && s.held != [] && Locked(s.q, s.at.side)
    ensures var s', side := Settle(s, |s.held| + 4), s.at.side;
            && s'.at.Idle? && !s'.failed && s'.popped == s.popped + [s.held[1..]]
            && s'.q == WithLock(WithRing(s.q, side, Drop(RingOf(s.q, side))), side, false).(curr := Words.Add(s.q.curr, 1))
  {
    var s1 := Consume(s);
    var s2 := Consume(s1);
    var s3 := Consume(s2);
    assert s3.q == WithLock(WithRing(s.q, s.at.side, Drop(RingOf(s.q, s.at.side))), s.at.side, false);
    assert s3.out + s3.held[1..] == s.held[1..];
    DeliverAlone(s3);
    Once(s, |s.held| + 3);
    Once(s1, |s.held| + 2);
    Once(s2, |s.held| + 1);
  }

  lemma {:induction false} CopyAlone(s: State, n: nat)
    requires s.at.Copy? && RingOf(s.q, s.at.side).tail < |RingOf(s.q, s.at.side).slots| && s.at.i <= |Oldest(s.q, s.at.side)|
    ensures var item := Oldest(s.q, s.at.side);
            Settle(s, |item| - s.at.i + 1 + n) == Settle(s.(held := s.held + item[s.at.i..], at := Remove(s.at.side)), n)
    decreases |Oldest(s.q, s.at.side)| - s.at.i
  {
    var side, i := s.at.side, s.at.i;
    var item := Oldest(s.q, side);
    if i < |item| {
      var s1 := Consume(s);
      assert s1 == s.(held := s.held + [item[i]], at := Copy(side, i + 1));
      assert s.held + [item[i]] + item[i + 1..] == s.held + item[i..];
      CopyAlone(s1, n);
    } else {
      assert s.held + item[i..] == s.held;
    }
  }

  /** From the lock to the end. */
  lemma LockAlone(s: State)
    requires s.at.Lock? && s.out == [] && s.held == [] && !Locked(s.q, s.at.side)
    requires RingOf(s.q, s.at.side).tail < |RingOf(s.q, s.at.side).slots| && Oldest(s.q, s.at.side) != []
    ensures var side, item := s.at.side, Oldest(s.q, s.at.side);
            var s' := Settle(s, 2 * |item| + 6);
            && s'.at.Idle? && !s'.failed && s'.popped == s.popped + [item[1..]]
            && s'.q == WithRing(s.q, side, Drop(RingOf(s.q, side))).(curr := Words.Add(s.q.curr, 1))
  {
    hide Settle, Drop, Consume, Oldest, RingOf, WithRing;
    var side, item := s.at.side, Oldest(s.q, s.at.side);
    var s1 := Consume(s);
    Locking(s);
    Once(s, 2 * |item| + 5);
    CopyAlone(s1, |item| + 4);
    var s2 := s1.(held := s1.held + item[0..], at := Remove(side));
    assert s2.held == item;
    RemoveAlone(s2);
  }

  /** What locking a ring changes, and that unlocking undoes it. */
  lemma Locking(s: State)
    requires s.at.Lock? && !Locked(s.q, s.at.side)
    ensures var side, s1 := s.at.side, Consume(s);
            && s1 == s.(q := WithLock(s.q, side, true), at := Copy(side, 0)) && Locked(s1.q, side)
            && RingOf(s1.q, side) == RingOf(s.q, side) && Oldest(s1.q, side) == Oldest(s.q, side)
            && forall r :: WithLock(WithRing(s1.q, side, r), side, false) == WithRing(s.q, side, r)
  {
  }

  /** How many steps the checks take. */
  function Checks(q: Queue): nat {
    (if IsEmpty(q.a) then 1 else 2) + (if IsReady(q, A) then 0 else if IsEmpty(q.b) then 1 else 2)
  }

  /** Where the two checks lead: to the lock of the ring that is ready, or to failure. */
  lemma ChecksAlone(s: State, n: nat)
    requires s.at == Check(A) && s.cTag == s.q.curr && ValidRing(s.q.a) && ValidRing(s.q.b)
    ensures Settle(s, n + Checks(s.q)) ==
            match Ready(s.q) case Some(side) => Settle(s.(at := Lock(side)), n) case None => s.(at := Idle, failed := true)
  {
    hide Consume, Settle;
    var t := s.(at := Check(B));
    var n1 := if IsEmpty(s.q.b) then n + 1 else n + 2;
    if IsReady(s.q, A) {
      CheckAlone(s, A, n);
    } else {
      CheckAlone(s, A, n1);
      CheckAlone(t, B, n);
      if !IsReady(s.q, B) { Ended(s.(at := Idle, failed := true), n); }
    }
  }

  lemma Ended(s: State, n: nat)
    requires s.at.Idle?
    ensures Settle(s, n) == s
  {
  }

  lemma CheckAlone(s: State, side: Side, n: nat)
    requires s.at == Check(side) && s.cTag == s.q.curr && ValidRing(RingOf(s.q, side))
    ensures IsEmpty(RingOf(s.q, side)) ==> Settle(s, n + 1) == Settle(Elsewhere(s, side), n)
    ensures IsReady(s.q, side) ==> Settle(s, n + 2) == Settle(s.(at := Lock(side)), n)
    ensures !IsEmpty(RingOf(s.q, side)) && !IsReady(s.q, side) ==> Settle(s, n + 2) == Settle(Elsewhere(s, side), n)
  {
    var s1 := Consume(s);
    Once(s, n);
    Once(s, n + 1);
    if !s1.at.Idle? { Once(s1, n); }
    hide Settle;
  }

  /** A pop that is not interrupted, from any state between calls: what it returns and what it leaves. */
  lemma PopAlone(s: State) returns (n: nat)
    requires s.at.Idle? && !s.q.aLck && !s.q.bLck && ValidRing(s.q.a) && ValidRing(s.q.b)
    ensures var s', found := Settle(Consume(s), n), Ready(s.q);
            && s'.at.Idle? && s'.q == Popped(s.q) && s'.added == s.added && (s'.failed <==> found.None?)
            && s'.popped == s.popped + (if found.None? then [] else [Oldest(s.q, found.value)[1..]])
  {
    var s1, found := Consume(s), Ready(s.q);
    var m := if found.None? then 0 else 2 * |Oldest(s.q, found.value)| + 6;
    n := m + Checks(s.q);
    ChecksAlone(s1, m);
    if found.Some? { LockAlone(s1.(at := Lock(found.value))); }
    AddedStays(s1, n);
  }

  lemma {:induction false} AddedStays(s: State, n: nat)
    ensures Settle(s, n).added == s.added
    decreases n
  {
    if n > 0 && !s.at.Idle? {
      assert Consume(s).added == s.added by { OnlySteps(s); }
      AddedStays(Consume(s), n - 1);
    }
  }

  lemma OnlySteps(s: State)
    ensures Consume(s).added == s.added
  {
  }

  /** Between calls: a ring is ready exactly when something is left to pop, and has the oldest of it at its tail. */
  lemma ReadyIsOldest(s: State)
    requires Inv(s) && s.at.Idle?
    ensures Ready(s.q).None? <==> |s.popped| == |s.added|
    ensures Ready(s.q).Some? ==> |s.popped| < |s.added| && Oldest(s.q, Ready(s.q).value)[1..] == s.added[|s.popped|]
  {
    ReadySide(s, A);
    ReadySide(s, B);
    NextSomewhere(s);
    hide Inv, IsReady, Oldest;
  }

  lemma NextSomewhere(s: State)
    requires Inv(s) && s.at.Idle?
    ensures |s.popped| <= |s.added|
    ensures |s.popped| < |s.added| <==> |s.popped| in s.ia || |s.popped| in s.ib
  {
  }

  lemma ReadySide(s: State, side: Side)
    requires Inv(s) && s.at.Idle?
    ensures IsReady(s.q, side) <==> |s.popped| in In(s, side)
    ensures IsReady(s.q, side) ==> |s.popped| < |s.added| && Oldest(s.q, side)[1..] == s.added[|s.popped|]
  {
    var t := s.(cTag := s.q.curr);
    OldestIs(s, side);
    if In(s, side) != [] {
      TagMeansFront(t, side);
    }
    if !Front(s, side) { NotHere(s, side); }
    hide Interval;
  }
}
