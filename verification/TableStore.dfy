/** Lazy one-time initialisation of the tables (src/table_store.hpp) as a state machine: any number
    of threads call `ensure_tables` any number of times, in any interleaving of their atomic steps. */
module TableStore {
  import opened Basics
  import opened Bits
  import Crc
  import Deflate

  const SPIN_LIMIT: nat := 1_000_000_000

  type Bytes = seq<Byte>

  /** The embedded blob, and where each table starts in its uncompressed form. */
  datatype Blob = Blob(compressed: Bytes, size: nat, crc: bv32, offsets: seq<nat>)

  datatype InitState = Uninit | InProgress | Ready | Failed

  datatype Pointer = Null | At(buffer: nat, offset: nat)

  /** Where a thread stands in `ensure_tables`; each step up to the next point is atomic. */
  datatype Pc =
    | Entering
    | Claiming
    | Allocating
    | Declining
    | Filling(buffer: nat, done: nat)
    | Rejecting
    | Publishing(buffer: nat, done: nat)
    | Finishing(buffer: nat)
    | Spinning(spins: nat)
    | Returned(ok: bool)

  /** The shared state, every buffer ever allocated (`None` once deleted) and the threads. */
  datatype State = State(init: InitState, heap: seq<Option<Bytes>>, pointers: seq<Pointer>,
                         tablesBuffer: Option<nat>, threads: seq<Pc>)

  /** Which thread takes the next step; whether its allocation would succeed, and with what memory. */
  datatype Turn = Turn(thread: nat, memory: bool, junk: Bytes)

  // ---------------------------------------------------------------- the blob

  function Unpacked(blob: Blob): (o: Bytes)
    ensures |o| <= blob.size
  {
    if Deflate.InflateFrom([], blob.size, BitsOf(blob.compressed)).Done? then
      Deflate.InflateWithin([], blob.size, BitsOf(blob.compressed));
      Deflate.InflateFrom([], blob.size, BitsOf(blob.compressed)).out
    else []
  }

  function Raw(data: Bytes): (r: seq<bv8>) {
    seq(|data|, i requires 0 <= i < |data| => data[i] as bv8)
  }

  predicate Good(blob: Blob) {
    |Unpacked(blob)| == blob.size && Crc.Crc32(Raw(Unpacked(blob))) == blob.crc
  }

  function Memory(junk: Bytes, size: nat): (m: Bytes)
    ensures |m| == size
  {
    seq(size, i requires 0 <= i => if i < |junk| then junk[i] else 0)
  }

  // ---------------------------------------------------------------- steps

  function Initial(blob: Blob, threads: nat): State {
    State(Uninit, [], seq(|blob.offsets|, _ => Null), None, seq(threads, _ => Entering))
  }

  function Move(s: State, t: nat, pc: Pc): State
    requires t < |s.threads|
  {
    s.(threads := s.threads[t := pc])
  }

  /** What a step of thread `t` needs in order to be defined. */
  predicate Enabled(blob: Blob, s: State, t: nat) {
    && t < |s.threads| && |s.pointers| == |blob.offsets|
    && match s.threads[t]
       case Filling(b, k) =>
         && b < |s.heap| && s.heap[b].Some? && |s.heap[b].value| == blob.size
         && k <= |Unpacked(blob)|
       case Publishing(b, k) => k <= |blob.offsets|
       case _ => true
  }

  function Next(blob: Blob, s: State, t: nat, turn: Turn): State
    requires Enabled(blob, s, t)
  {
    match s.threads[t]
    case Entering =>
      if s.init == Ready then Move(s, t, Returned(true))
      else if s.init == Failed then Move(s, t, Returned(false))
      else Move(s, t, Claiming)
    case Claiming =>
      if s.init == Uninit then Move(s.(init := InProgress), t, Allocating) else Move(s, t, Spinning(0))
    case Allocating =>
      if turn.memory then Move(s.(heap := s.heap + [Some(Memory(turn.junk, blob.size))]), t, Filling(|s.heap|, 0))
      else Move(s, t, Declining)
    case Declining => Move(s.(init := Uninit), t, Returned(false))
    case Filling(b, k) =>
      if k < |Unpacked(blob)| then
        Move(s.(heap := s.heap[b := Some(s.heap[b].value[k := Unpacked(blob)[k]])]), t, Filling(b, k + 1))
      else if k == blob.size && Crc.Crc32(Raw(s.heap[b].value[..k])) == blob.crc then Move(s, t, Publishing(b, 0))
      else Move(s.(heap := s.heap[b := None]), t, Rejecting)
    case Rejecting => Move(s.(init := Failed), t, Returned(false))
    case Publishing(b, k) =>
      if k < |blob.offsets| then
        Move(s.(pointers := s.pointers[k := At(b, blob.offsets[k])]), t, Publishing(b, k + 1))
      else Move(s.(tablesBuffer := Some(b)), t, Finishing(b))
    case Finishing(_) => Move(s.(init := Ready), t, Returned(true))
    case Spinning(n) =>
      if n >= SPIN_LIMIT then Move(s, t, Returned(false))
      else if s.init == Ready then Move(s, t, Returned(true))
      else if s.init != InProgress then Move(s, t, Returned(false))
      else Move(s, t, Spinning(n + 1))
    case Returned(_) => Move(s, t, Entering)
  }

  // ---------------------------------------------------------------- invariant

  predicate Owns(pc: Pc) {
    pc.Allocating? || pc.Declining? || pc.Filling? || pc.Rejecting? || pc.Publishing? || pc.Finishing?
  }

  predicate NothingPublished(s: State) {
    s.tablesBuffer == None && forall j :: 0 <= j < |s.pointers| ==> s.pointers[j] == Null
  }

  /** Buffer `b` holds the unpacked blob, whose size and checksum are right. */
  predicate Verified(blob: Blob, s: State, b: nat) {
    && Good(blob) && b < |s.heap| && s.heap[b] == Some(Unpacked(blob))
  }

  /** Every pointer refers to its table in buffer `b`. */
  predicate Published(blob: Blob, s: State, b: nat) {
    && Verified(blob, s, b) && |s.pointers| == |blob.offsets|
    && s.tablesBuffer == Some(b)
    && forall j :: 0 <= j < |s.pointers| ==> s.pointers[j] == At(b, blob.offsets[j])
  }

  predicate PcOk(blob: Blob, s: State, pc: Pc) {
    match pc
    case Entering => true
    case Claiming => true
    case Allocating => NothingPublished(s)
    case Declining => NothingPublished(s)
    case Filling(b, k) =>
      && NothingPublished(s)
      && b < |s.heap| && s.heap[b].Some? && |s.heap[b].value| == blob.size
      && k <= |Unpacked(blob)| && s.heap[b].value[..k] == Unpacked(blob)[..k]
    case Rejecting => NothingPublished(s) && !Good(blob)
    case Publishing(b, k) =>
      && Verified(blob, s, b) && s.tablesBuffer == None && k <= |s.pointers| == |blob.offsets|
      && (forall j :: 0 <= j < k ==> s.pointers[j] == At(b, blob.offsets[j]))
    case Finishing(b) => Published(blob, s, b)
    case Spinning(n) => n <= SPIN_LIMIT
    case Returned(ok) => ok ==> s.init == Ready
  }

  predicate SharedOk(blob: Blob, s: State) {
    && |s.pointers| == |blob.offsets|
    && (s.init == Ready ==> s.tablesBuffer.Some? && Published(blob, s, s.tablesBuffer.value))
    && (s.init == Uninit || s.init == Failed ==> NothingPublished(s))
    && (s.init == Failed ==> !Good(blob))
  }

  /** Initialisation is in progress exactly when one thread owns it. */
  predicate OneOwner(s: State) {
    && (forall t, u :: 0 <= t < |s.threads| && 0 <= u < |s.threads| && Owns(s.threads[t]) && Owns(s.threads[u]) ==>
        t == u)
    && (s.init == InProgress <==> exists t :: 0 <= t < |s.threads| && Owns(s.threads[t]))
  }

  predicate Inv(blob: Blob, s: State) {
    && SharedOk(blob, s) && OneOwner(s)
    && forall t :: 0 <= t < |s.threads| ==> PcOk(blob, s, s.threads[t])
  }

  lemma InitialInv(blob: Blob, threads: nat)
    ensures Inv(blob, Initial(blob, threads))
  {}

  /** The invariant makes every step defined: no thread is ever blocked. */
  lemma NeverBlocked(blob: Blob, s: State, t: nat)
    requires Inv(blob, s) && t < |s.threads|
    ensures Enabled(blob, s, t)
  {
    assert PcOk(blob, s, s.threads[t]);
  }

  // ---------------------------------------------------------------- every step keeps it

  /** The owner moves on: the other threads' own facts do not depend on what it changes. */
  lemma OthersOk(blob: Blob, s: State, r: State, t: nat)
    requires Inv(blob, s) && t < |s.threads| && Owns(s.threads[t])
    requires |r.threads| == |s.threads| && r.threads == s.threads[t := r.threads[t]]
    requires PcOk(blob, r, r.threads[t])
    ensures forall u :: 0 <= u < |r.threads| ==> PcOk(blob, r, r.threads[u])
  {
    hide Verified, Published, NothingPublished, SharedOk, Unpacked, Good;
    forall u | 0 <= u < |r.threads| ensures PcOk(blob, r, r.threads[u]) {
      if u != t { assert PcOk(blob, s, s.threads[u]); }
    }
  }

  /** The owner stays the owner. */
  lemma OwnerStays(s: State, r: State, t: nat)
    requires OneOwner(s) && t < |s.threads| == |r.threads| && Owns(s.threads[t]) && Owns(r.threads[t])
    requires r.threads == s.threads[t := r.threads[t]] && r.init == s.init
    ensures OneOwner(r)
  {
    hide Owns;
    forall u | 0 <= u < |r.threads| && u != t ensures !Owns(r.threads[u]) {}
  }

  /** The owner gives the initialisation up. */
  lemma OwnerLeaves(s: State, r: State, t: nat)
    requires OneOwner(s) && t < |s.threads| == |r.threads| && Owns(s.threads[t]) && !Owns(r.threads[t])
    requires r.threads == s.threads[t := r.threads[t]] && r.init != InProgress
    ensures OneOwner(r)
  {
    hide Owns;
    forall u | 0 <= u < |r.threads| ensures !Owns(r.threads[u]) {}
  }

  lemma FillStep(blob: Blob, s: State, t: nat, turn: Turn)
    requires Inv(blob, s) && t < |s.threads| && Enabled(blob, s, t) && s.threads[t].Filling?
    ensures var r := Next(blob, s, t, turn);
            && r.init == s.init && Owns(r.threads[t]) && r.pointers == s.pointers && r.tablesBuffer == s.tablesBuffer
            && PcOk(blob, r, r.threads[t])
  {
    hide Unpacked, OneOwner, Crc.Crc32, Raw;
    assert PcOk(blob, s, s.threads[t]);
    var k, m := s.threads[t].done, s.heap[s.threads[t].buffer].value;
    if k == |Unpacked(blob)| {
      assert Unpacked(blob)[..k] == Unpacked(blob);
      assert k == blob.size ==> m[..k] == m;
    } else {
      assert Unpacked(blob)[..k + 1] == Unpacked(blob)[..k] + [Unpacked(blob)[k]];
      assert m[k := Unpacked(blob)[k]][..k + 1] == m[..k] + [Unpacked(blob)[k]];
    }
  }

  lemma PublishStep(blob: Blob, s: State, t: nat, turn: Turn)
    requires Inv(blob, s) && t < |s.threads| && Enabled(blob, s, t) && s.threads[t].Publishing?
    ensures var r := Next(blob, s, t, turn);
            && r.init == s.init && Owns(r.threads[t]) && |r.pointers| == |s.pointers|
            && PcOk(blob, r, r.threads[t])
  {
    hide Unpacked, OneOwner, Good;
    assert PcOk(blob, s, s.threads[t]);
  }

  lemma OwnerStep(blob: Blob, s: State, t: nat, turn: Turn)
    requires Inv(blob, s) && t < |s.threads| && Enabled(blob, s, t) && Owns(s.threads[t])
    ensures Inv(blob, Next(blob, s, t, turn))
  {
    var r := Next(blob, s, t, turn);
    assert PcOk(blob, s, s.threads[t]);
    assert r.threads == s.threads[t := r.threads[t]] && s.init == InProgress;
    if s.threads[t].Filling? {
      FillStep(blob, s, t, turn);
    } else if s.threads[t].Publishing? {
      PublishStep(blob, s, t, turn);
    }
    hide Unpacked, Good, Verified, OneOwner;
    if Owns(r.threads[t]) {
      OwnerStays(s, r, t);
    } else {
      OwnerLeaves(s, r, t);
    }
    OthersOk(blob, s, r, t);
  }

  /** A thread that owns nothing changes at most the state word, when it claims it. */
  lemma BystanderStep(blob: Blob, s: State, t: nat, turn: Turn)
    requires Inv(blob, s) && t < |s.threads| && Enabled(blob, s, t) && !Owns(s.threads[t])
    ensures var r := Next(blob, s, t, turn);
            && r.(init := s.init, threads := s.threads) == s
            && r.threads == s.threads[t := r.threads[t]]
            && (r.init != s.init ==> s.init == Uninit && r.init == InProgress)
            && (Owns(r.threads[t]) <==> r.init != s.init)
            && PcOk(blob, r, r.threads[t])
  {
    hide Unpacked, Good, Verified, OneOwner;
    assert PcOk(blob, s, s.threads[t]);
  }

  lemma BystanderKeeps(blob: Blob, s: State, t: nat, turn: Turn)
    requires Inv(blob, s) && t < |s.threads| && Enabled(blob, s, t) && !Owns(s.threads[t])
    ensures Inv(blob, Next(blob, s, t, turn))
  {
    BystanderStep(blob, s, t, turn);
    var r := Next(blob, s, t, turn);
    hide Next, Unpacked, Good, Verified, Enabled, Owns;
    forall u | 0 <= u < |r.threads| && u != t ensures Owns(r.threads[u]) == Owns(s.threads[u]) {}
    forall u | 0 <= u < |r.threads| ensures PcOk(blob, r, r.threads[u]) {
      if u != t {
        assert PcOk(blob, s, s.threads[u]);
        SameFacts(blob, s, r, s.threads[u]);
      }
    }
    BystanderOwners(s, r, t);
  }

  lemma SameFacts(blob: Blob, s: State, r: State, pc: Pc)
    requires PcOk(blob, s, pc) && r.(init := s.init, threads := s.threads) == s && (s.init == Ready ==> r.init == Ready)
    ensures PcOk(blob, r, pc)
  {
    hide Unpacked, Good;
  }

  lemma BystanderOwners(s: State, r: State, t: nat)
    requires OneOwner(s) && t < |s.threads| == |r.threads| && !Owns(s.threads[t])
    requires r.threads == s.threads[t := r.threads[t]] && (Owns(r.threads[t]) <==> r.init != s.init)
    requires r.init != s.init ==> s.init == Uninit && r.init == InProgress
    ensures OneOwner(r)
  {
    hide Owns;
    forall u | 0 <= u < |r.threads| && u != t ensures Owns(r.threads[u]) == Owns(s.threads[u]) {}
    if s.init == InProgress {
      var u :| 0 <= u < |s.threads| && Owns(s.threads[u]);
      assert Owns(r.threads[u]);
    }
  }

  /** Every step of every thread keeps the invariant. */
  lemma StepKeeps(blob: Blob, s: State, t: nat, turn: Turn)
    requires Inv(blob, s) && t < |s.threads|
    ensures Enabled(blob, s, t) && Inv(blob, Next(blob, s, t, turn))
  {
    hide Inv, Next, Enabled, Owns;
    NeverBlocked(blob, s, t);
    if Owns(s.threads[t]) {
      OwnerStep(blob, s, t, turn);
    } else {
      BystanderKeeps(blob, s, t, turn);
    }
  }

  // ---------------------------------------------------------------- whole runs

  /** One turn; a turn of a thread that does not exist changes nothing. */
  function Take(blob: Blob, s: State, turn: Turn): (r: State)
    requires Inv(blob, s)
    ensures Inv(blob, r) && |r.threads| == |s.threads|
  {
    hide Inv, Enabled;
    if turn.thread < |s.threads| then
      StepKeeps(blob, s, turn.thread, turn);
      Next(blob, s, turn.thread, turn)
    else s
  }

  /** The state after any schedule. */
  function Run(blob: Blob, s: State, schedule: seq<Turn>): (r: State)
    requires Inv(blob, s)
    ensures Inv(blob, r) && |r.threads| == |s.threads|
    decreases |schedule|
  {
    if schedule == [] then s else Run(blob, Take(blob, s, schedule[0]), schedule[1..])
  }

  /** Ready is permanent, and so is everything published: no step changes a buffer or a pointer. */
  lemma ReadyStep(blob: Blob, s: State, turn: Turn)
    requires Inv(blob, s) && s.init == Ready
    ensures Take(blob, s, turn).(threads := s.threads) == s
  {
    if turn.thread < |s.threads| {
      NeverBlocked(blob, s, turn.thread);
      assert !Owns(s.threads[turn.thread]);
      BystanderStep(blob, s, turn.thread, turn);
    }
  }

  lemma FailedStep(blob: Blob, s: State, turn: Turn)
    requires Inv(blob, s) && s.init == Failed
    ensures Take(blob, s, turn).(threads := s.threads) == s
  {
    if turn.thread < |s.threads| {
      NeverBlocked(blob, s, turn.thread);
      assert !Owns(s.threads[turn.thread]);
      BystanderStep(blob, s, turn.thread, turn);
    }
  }

  /** Ready and Failed are permanent: from then on only the threads' own positions change. */
  lemma {:induction false} Permanent(blob: Blob, s: State, schedule: seq<Turn>)
    requires Inv(blob, s) && (s.init == Ready || s.init == Failed)
    ensures Run(blob, s, schedule).(threads := s.threads) == s
    decreases |schedule|
  {
    if schedule != [] {
      hide Inv, Take;
      if s.init == Ready { ReadyStep(blob, s, schedule[0]); } else { FailedStep(blob, s, schedule[0]); }
      Permanent(blob, Take(blob, s, schedule[0]), schedule[1..]);
    }
  }

  function Start(blob: Blob, threads: nat): (s: State)
    ensures Inv(blob, s) && |s.threads| == threads
  {
    InitialInv(blob, threads);
    Initial(blob, threads)
  }

  /** In every run, a call returns true only once every pointer refers to its table in the one
      buffer that holds the blob unpacked with the right size and checksum, and neither pointers
      nor buffer change in any continuation. */
  lemma TrueMeansTables(blob: Blob, threads: nat, schedule: seq<Turn>, t: nat, later: seq<Turn>)
    requires t < threads && Run(blob, Start(blob, threads), schedule).threads[t] == Returned(true)
    ensures var s := Run(blob, Start(blob, threads), schedule);
            var r := Run(blob, s, later);
            && s.tablesBuffer.Some? && s.init == Ready && Good(blob)
            && Published(blob, s, s.tablesBuffer.value)
            && r.pointers == s.pointers && r.tablesBuffer == s.tablesBuffer && r.heap == s.heap && r.init == Ready
  {
    var s := Run(blob, Start(blob, threads), schedule);
    assert PcOk(blob, s, s.threads[t]);
    hide Run;
    Permanent(blob, s, later);
  }

  /** In every run at most one thread owns the initialisation, and some thread does exactly when
      the state word says so. */
  lemma OneWinner(blob: Blob, threads: nat, schedule: seq<Turn>)
    ensures var s := Run(blob, Start(blob, threads), schedule);
            && (s.init == InProgress <==> exists t :: 0 <= t < threads && Owns(s.threads[t]))
            && (forall t, u :: 0 <= t < threads && 0 <= u < threads && Owns(s.threads[t]) && Owns(s.threads[u]) ==>
                t == u)
  {
    hide Run, Owns;
    assert OneOwner(Run(blob, Start(blob, threads), schedule));
  }

  /** Only a corrupt blob fails for good; with a corrupt blob nothing is ever published. */
  lemma OnlyCorruptionFails(blob: Blob, threads: nat, schedule: seq<Turn>)
    ensures var s := Run(blob, Start(blob, threads), schedule);
            && (Good(blob) ==> s.init != Failed)
            && (!Good(blob) ==> s.init != Ready && NothingPublished(s)
                                && forall t :: 0 <= t < threads ==> s.threads[t] != Returned(true))
  {
    hide Run;
    var s := Run(blob, Start(blob, threads), schedule);
    hide Good, Unpacked;
    if !Good(blob) {
      forall t | 0 <= t < threads ensures s.threads[t] != Returned(true) {
        assert PcOk(blob, s, s.threads[t]);
      }
      if s.init == InProgress {
        var t :| 0 <= t < |s.threads| && Owns(s.threads[t]);
        assert PcOk(blob, s, s.threads[t]);
      }
    }
  }

  /** Giving up after a failed allocation publishes nothing, changes no pointer, and lets the next
      thread that tries claim the initialisation. */
  lemma FailedAllocationAllowsRetry(blob: Blob, s: State, t: nat, turn: Turn, u: nat, next: Turn)
    requires Inv(blob, s) && t < |s.threads| && s.threads[t].Declining? && turn.thread == t
    requires u < |s.threads| && Take(blob, s, turn).threads[u].Claiming? && next.thread == u
    ensures var r := Take(blob, s, turn);
            && r.init == Uninit && NothingPublished(r) && r.pointers == s.pointers && r.heap == s.heap
            && r.threads[t] == Returned(false)
            && Take(blob, r, next).threads[u].Allocating? && Take(blob, r, next).init == InProgress
  {
    assert PcOk(blob, s, s.threads[t]);
    hide Inv, Good, Unpacked;
  }

  // ---------------------------------------------------------------- every call finishes

  /** A bound on the steps a thread still takes before its call returns. */
  function Fuel(blob: Blob, pc: Pc): nat {
    var publishing := 2 + |blob.offsets|;
    var owning := publishing + 2 + |Unpacked(blob)|;
    var waiting := 2 + 1_000_000_000;
    match pc
    case Returned(_) => 0
    case Finishing(_) => 1
    case Declining => 1
    case Rejecting => 1
    case Publishing(_, k) => if k <= |blob.offsets| then publishing - k else 0
    case Filling(_, k) => if k <= |Unpacked(blob)| then publishing + 1 + |Unpacked(blob)| - k else 0
    case Allocating => owning
    case Spinning(n) => if n <= 1_000_000_000 then 1 + 1_000_000_000 - n else 0
    case Claiming => 1 + if owning > waiting then owning else waiting
    case Entering => 2 + if owning > waiting then owning else waiting
  }

  lemma FuelBurns(blob: Blob, s: State, turn: Turn)
    requires Inv(blob, s) && turn.thread < |s.threads| && !s.threads[turn.thread].Returned?
    ensures Fuel(blob, Take(blob, s, turn).threads[turn.thread]) < Fuel(blob, s.threads[turn.thread])
  {
    NeverBlocked(blob, s, turn.thread);
    assert PcOk(blob, s, s.threads[turn.thread]);
    hide Inv, Unpacked, Good, Verified, Published, NothingPublished, Fuel;
    if s.threads[turn.thread].Filling? || s.threads[turn.thread].Publishing? {
      WorkBurns(blob, s, turn);
    } else {
      OtherBurns(blob, s, turn);
    }
  }

  lemma WorkBurns(blob: Blob, s: State, turn: Turn)
    requires Enabled(blob, s, turn.thread)
    requires s.threads[turn.thread].Filling? || s.threads[turn.thread].Publishing?
    ensures Fuel(blob, Next(blob, s, turn.thread, turn).threads[turn.thread]) < Fuel(blob, s.threads[turn.thread])
  {
    hide Unpacked, Raw, Crc.Crc32;
  }

  lemma OtherBurns(blob: Blob, s: State, turn: Turn)
    requires Enabled(blob, s, turn.thread)
    requires !s.threads[turn.thread].Filling? && !s.threads[turn.thread].Publishing? &&
        !s.threads[turn.thread].Returned?
    requires s.threads[turn.thread].Spinning? ==> s.threads[turn.thread].spins <= SPIN_LIMIT
    ensures Fuel(blob, Next(blob, s, turn.thread, turn).threads[turn.thread]) < Fuel(blob, s.threads[turn.thread])
  {
    hide Unpacked, Raw, Crc.Crc32, Memory;
  }

  lemma OthersWait(blob: Blob, s: State, turn: Turn, t: nat)
    requires Inv(blob, s) && t < |s.threads| && turn.thread != t
    ensures Take(blob, s, turn).threads[t] == s.threads[t]
  {
    hide Inv, Unpacked, Good;
  }

  function OwnTurns(schedule: seq<Turn>, t: nat): nat {
    if schedule == [] then 0 else (if schedule[0].thread == t then 1 else 0) + OwnTurns(schedule[1..], t)
  }

  /** Whatever the other threads do, or do not do, a call returns within a fixed number of its own
      steps: the spin limit, or the work of unpacking and publishing. */
  lemma {:induction false} CallReturns(blob: Blob, s: State, schedule: seq<Turn>, t: nat) returns (i: nat)
    requires Inv(blob, s) && t < |s.threads| && OwnTurns(schedule, t) >= Fuel(blob, s.threads[t])
    ensures i <= |schedule| && Run(blob, s, schedule[..i]).threads[t].Returned?
    ensures OwnTurns(schedule[..i], t) <= Fuel(blob, s.threads[t])
    decreases |schedule|
  {
    hide Inv, Take;
    if s.threads[t].Returned? {
      i := 0;
    } else if schedule == [] {
      FuelNeeded(blob, s, t);
      assert false;
    } else {
      hide Fuel;
      var r := Take(blob, s, schedule[0]);
      if schedule[0].thread == t { FuelBurns(blob, s, schedule[0]); } else { OthersWait(blob, s, schedule[0], t); }
      var j := CallReturns(blob, r, schedule[1..], t);
      i := j + 1;
      assert schedule[..i][1..] == schedule[1..][..j];
    }
  }

  lemma FuelNeeded(blob: Blob, s: State, t: nat)
    requires Inv(blob, s) && t < |s.threads| && !s.threads[t].Returned?
    ensures Fuel(blob, s.threads[t]) > 0
  {
    FuelBurns(blob, s, Turn(t, false, []));
  }

  // ---------------------------------------------------------------- progress

  /** What an initialisation with memory comes to. */
  function Outcome(blob: Blob): InitState {
    if Good(blob) then Ready else Failed
  }

  /** A thread that owns the initialisation, left alone with memory, settles it. */
  lemma {:induction false} OwnerFinishes(blob: Blob, s: State, t: nat) returns (schedule: seq<Turn>)
    requires Inv(blob, s) && t < |s.threads|
    requires Owns(s.threads[t]) && !s.threads[t].Declining?
    ensures Run(blob, s, schedule).init == Outcome(blob)
    ensures Run(blob, s, schedule).threads[t] == Returned(Good(blob))
    decreases Fuel(blob, s.threads[t])
  {
    var turn := Turn(t, true, []);
    FuelBurns(blob, s, turn);
    OwnerGoesOn(blob, s, turn);
    var r := Take(blob, s, turn);
    hide Inv, Take, Good, Fuel;
    if s.threads[t].Finishing? || s.threads[t].Rejecting? {
      schedule := [turn];
      assert Run(blob, s, schedule) == Run(blob, r, []);
    } else {
      var more := OwnerFinishes(blob, r, t);
      schedule := [turn] + more;
      assert schedule[1..] == more;
    }
  }

  lemma OwnerGoesOn(blob: Blob, s: State, turn: Turn)
    requires Inv(blob, s) && turn.thread < |s.threads| && turn.memory
    requires Owns(s.threads[turn.thread]) && !s.threads[turn.thread].Declining?
    ensures var t, r := turn.thread, Take(blob, s, turn);
            if s.threads[t].Finishing? || s.threads[t].Rejecting? then
              r.init == Outcome(blob) && r.threads[t] == Returned(Good(blob))
            else Owns(r.threads[t]) && !r.threads[t].Declining? && (r.threads[t].Rejecting? ==> !Good(blob))
  {
    var t := turn.thread;
    NeverBlocked(blob, s, t);
    assert PcOk(blob, s, s.threads[t]);
    if s.threads[t].Filling? {
      var k, m := s.threads[t].done, s.heap[s.threads[t].buffer].value;
      if k == |Unpacked(blob)| { assert m[..k] == Unpacked(blob)[..k] == Unpacked(blob); }
    }
    hide Inv, Unpacked, NothingPublished, Crc.Crc32, Raw;
  }

  /** Whenever the tables are not initialised and memory can be had, a call that runs to its end
      settles the matter, however often calls have failed before: it makes the tables ready and
      returns true if the blob is good, and fails for good and returns false if it is corrupt. */
  lemma RetrySettles(blob: Blob, s: State, t: nat) returns (schedule: seq<Turn>)
    requires Inv(blob, s) && t < |s.threads| && s.threads[t].Entering? && s.init == Uninit
    ensures Run(blob, s, schedule).init == Outcome(blob)
    ensures Run(blob, s, schedule).threads[t] == Returned(Good(blob))
  {
    var turn := Turn(t, true, []);
    var r := Take(blob, s, turn);
    EnterClaim(blob, s, turn);
    var q := Take(blob, r, turn);
    hide Inv, Take, Good, Run, Unpacked;
    var more := OwnerFinishes(blob, q, t);
    schedule := [turn] + ([turn] + more);
    RunOn(blob, s, turn, [turn] + more);
    RunOn(blob, r, turn, more);
  }

  lemma RunOn(blob: Blob, s: State, turn: Turn, more: seq<Turn>)
    requires Inv(blob, s)
    ensures Run(blob, s, [turn] + more) == Run(blob, Take(blob, s, turn), more)
  {
    hide Inv, Take;
    assert ([turn] + more)[1..] == more;
  }

  lemma EnterClaim(blob: Blob, s: State, turn: Turn)
    requires Inv(blob, s) && turn.thread < |s.threads| && s.threads[turn.thread].Entering? && s.init == Uninit
    ensures Take(blob, Take(blob, s, turn), turn).threads[turn.thread].Allocating?
  {
    hide Inv, Unpacked, Good;
  }

  // ---------------------------------------------------------------- what a call answers

  /** A call that sees the outcome, on entry or while it waits, returns it with that step. */
  lemma OutcomeIsReturned(blob: Blob, s: State, turn: Turn)
    requires Inv(blob, s) && turn.thread < |s.threads| && (s.init == Ready || s.init == Failed)
    requires var pc := s.threads[turn.thread]; pc.Entering? || (pc.Spinning? && pc.spins < 1_000_000_000)
    ensures Take(blob, s, turn).threads[turn.thread] == Returned(s.init == Ready)
  {
    hide Inv, Unpacked, Good;
  }

  /** Nobody has given up, nobody waits for an initialisation that nobody has begun, and nobody
      comes to the end of its waiting within the schedule. */
  ghost predicate Smooth(s: State, schedule: seq<Turn>) {
    forall t :: 0 <= t < |s.threads| ==> Calm(s, s.threads[t], OwnTurns(schedule, t))
  }

  predicate Calm(s: State, pc: Pc, turns: nat) {
    && turns <= 1_000_000_000
    && !pc.Declining? && !pc.Rejecting? && pc != Returned(false)
    && (pc.Spinning? ==> s.init != Uninit && pc.spins + turns <= 1_000_000_000)
  }

  lemma SmoothStep(blob: Blob, s: State, schedule: seq<Turn>)
    requires Inv(blob, s) && Good(blob) && schedule != [] && schedule[0].memory && Smooth(s, schedule)
    ensures Smooth(Take(blob, s, schedule[0]), schedule[1..])
  {
    var turn := schedule[0];
    var r := Take(blob, s, turn);
    if turn.thread < |s.threads| { CalmStep(blob, s, turn, OwnTurns(schedule[1..], turn.thread)); }
    hide Inv, Next, Good, Unpacked;
    forall t | 0 <= t < |r.threads| ensures Calm(r, r.threads[t], OwnTurns(schedule[1..], t)) {
      assert Calm(s, s.threads[t], OwnTurns(schedule, t));
      if t != turn.thread { OthersWait(blob, s, turn, t); }
    }
  }

  lemma CalmStep(blob: Blob, s: State, turn: Turn, turns: nat)
    requires Inv(blob, s) && Good(blob) && turn.thread < |s.threads| && turn.memory
    requires Calm(s, s.threads[turn.thread], turns + 1)
    ensures var r := Take(blob, s, turn);
            Calm(r, r.threads[turn.thread], turns) && (r.init == Uninit ==> s.init == Uninit)
  {
    NeverBlocked(blob, s, turn.thread);
    assert PcOk(blob, s, s.threads[turn.thread]) && SharedOk(blob, s);
    if Owns(s.threads[turn.thread]) { OwnerGoesOn(blob, s, turn); }
    hide Inv, OneOwner, Good, Unpacked, Verified, Published, NothingPublished, Crc.Crc32, Raw;
  }

  lemma {:induction false} SmoothRun(blob: Blob, s: State, schedule: seq<Turn>)
    requires Inv(blob, s) && Good(blob) && Smooth(s, schedule)
    requires forall i :: 0 <= i < |schedule| ==> schedule[i].memory
    ensures Smooth(Run(blob, s, schedule), [])
    decreases |schedule|
  {
    hide Inv, Take, Good, Smooth;
    if schedule == [] {
      assert Run(blob, s, schedule) == s;
    } else {
      SmoothStep(blob, s, schedule);
      SmoothRun(blob, Take(blob, s, schedule[0]), schedule[1..]);
    }
  }

  /** With a good blob and memory, no call returns false before its thread has taken a thousand
      million steps, whatever the interleaving: concurrent callers wait for the one that unpacks. */
  lemma NoFalseAlarm(blob: Blob, threads: nat, schedule: seq<Turn>, t: nat)
    requires Good(blob) && t < threads
    requires forall i :: 0 <= i < |schedule| ==> schedule[i].memory
    requires forall u :: 0 <= u < threads ==> OwnTurns(schedule, u) <= 1_000_000_000
    ensures Run(blob, Start(blob, threads), schedule).threads[t] != Returned(false)
  {
    hide Inv, Run, Good, Smooth;
    var s := Start(blob, threads);
    SmoothStart(blob, threads, schedule);
    SmoothRun(blob, s, schedule);
    SmoothEnd(Run(blob, s, schedule), t);
  }

  lemma SmoothStart(blob: Blob, threads: nat, schedule: seq<Turn>)
    requires forall u :: 0 <= u < threads ==> OwnTurns(schedule, u) <= 1_000_000_000
    ensures Smooth(Start(blob, threads), schedule)
  {
    hide Inv, OwnTurns;
  }

  lemma SmoothEnd(s: State, t: nat)
    requires t < |s.threads| && Smooth(s, [])
    ensures s.threads[t] != Returned(false)
  {
    assert Calm(s, s.threads[t], OwnTurns([], t));
  }
}
