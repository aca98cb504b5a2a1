/** All interleavings of concurrent readers and writers that share one free list. Each client
    borrows a buffer, fills it byte by byte, uses what it filled, unless it is a reader whose
    input ends early, and returns the buffer; any client may move between any two of these steps. */
module FreeListRuns {
  import opened Bytes
  import opened Shift
  import opened Wire

  /** Writing a number of the given width, or reading input bytes and decoding them. */
  datatype Job = Put(val: nat, width: nat) | Get(input: seq<Byte>)
  {
    predicate Valid() {
      |Payload()| <= 8
    }

    /** What the buffer must hold when the client uses it. */
    function Payload(): seq<Byte> {
      match this
      case Put(val, width) => ToLittleEndian(val, width)
      case Get(input) => input
    }
  }

  datatype Phase =
    | Idle
    | Filling(buf: nat, job: Job, filled: nat)
    | Used(buf: nat)

  /** What a client wrote to its stream or decoded from its buffer. */
  datatype Event = Event(client: nat, job: Job, bytes: seq<Byte>)

  /** Buffers are named by allocation order; `free` is the list, oldest first. */
  datatype State = State(heap: seq<seq<Byte>>, free: seq<nat>, clients: map<nat, Phase>, events: seq<Event>)

  datatype Step =
    | Borrow(client: nat, job: Job)
    | FillByte(client: nat)
    | Use(client: nat)
    | FailRead(client: nat)  // the input ends before the buffer is filled
    | Return(client: nat)

  function PhaseOf(s: State, c: nat): Phase {
    if c in s.clients then s.clients[c] else Idle
  }

  /** One atomic step; a step that is not enabled changes nothing. */
  function Apply(s: State, step: Step): State {
    match step
    case Borrow(c, job) =>
      if !PhaseOf(s, c).Idle? || !job.Valid() then s
      else if s.free != [] then s.(free := s.free[1..], clients := s.clients[c := Filling(s.free[0], job, 0)])
      else s.(heap := s.heap + [seq(8, _ => 0)], clients := s.clients[c := Filling(|s.heap|, job, 0)])
    case FillByte(c) =>
      (match PhaseOf(s, c)
       case Filling(buf, job, i) =>
         if i < |job.Payload()| && buf < |s.heap| && i < |s.heap[buf]| then
           s.(heap := s.heap[buf := s.heap[buf][i := job.Payload()[i]]], clients := s.clients[c := Filling(buf, job, i + 1)])
         else s
       case _ => s)
    case Use(c) =>
      (match PhaseOf(s, c)
       case Filling(buf, job, i) =>
         if i == |job.Payload()| && buf < |s.heap| && i <= |s.heap[buf]| then
           s.(events := s.events + [Event(c, job, s.heap[buf][..i])], clients := s.clients[c := Used(buf)])
         else s
       case _ => s)
    case FailRead(c) =>
      (match PhaseOf(s, c)
       case Filling(buf, job, i) =>
         if job.Get? && i < |job.Payload()| then s.(clients := s.clients[c := Used(buf)]) else s
       case _ => s)
    case Return(c) =>
      (match PhaseOf(s, c)
       case Used(buf) =>
         s.(free := if |s.free| < FREE_LIST_MAX_ITEMS then s.free + [buf] else s.free, clients := s.clients[c := Idle])
       case _ => s)
  }

  function Run(steps: seq<Step>): State {
    if steps == [] then State([], [], map[], []) else Apply(Run(steps[..|steps| - 1]), steps[|steps| - 1])
  }

  ghost predicate Holds(s: State, c: nat, buf: nat) {
    !PhaseOf(s, c).Idle? && PhaseOf(s, c).buf == buf
  }

  /** Who owns what: list and lent buffers exist, no buffer is in two places. */
  ghost predicate Ownership(s: State) {
    && |s.free| <= FREE_LIST_MAX_ITEMS
    && (forall i :: 0 <= i < |s.heap| ==> |s.heap[i]| == 8)
    && (forall i :: 0 <= i < |s.free| ==> s.free[i] < |s.heap|)
    && (forall i, j :: 0 <= i < j < |s.free| ==> s.free[i] != s.free[j])
    && (forall c :: c in s.clients && !s.clients[c].Idle? ==> s.clients[c].buf < |s.heap| && s.clients[c].buf !in s.free)
    && (forall c, d :: c in s.clients && d in s.clients && c != d && !s.clients[c].Idle? && !s.clients[d].Idle? ==> s.clients[c].buf != s.clients[d].buf)
  }

  /** Every client has filled its own buffer with its own payload so far. */
  ghost predicate Contents(s: State) {
    && (forall c :: c in s.clients && s.clients[c].Filling? ==> FilledSoFar(s, s.clients[c]))
    && (forall e :: e in s.events ==> e.bytes == e.job.Payload())
  }

  ghost predicate FilledSoFar(s: State, p: Phase)
    requires p.Filling?
  {
    && p.job.Valid() && p.filled <= |p.job.Payload()|
    && p.buf < |s.heap| && p.filled <= |s.heap[p.buf]|
    && s.heap[p.buf][..p.filled] == p.job.Payload()[..p.filled]
  }

  lemma BorrowKeepsOwnership(s: State, c: nat, job: Job)
    requires Ownership(s)
    ensures Ownership(Apply(s, Borrow(c, job)))
  {
    if s.free != [] {
      assert s.free[0] !in s.free[1..];
    } else {
      assert |s.heap| !in s.free;
    }
  }

  lemma ReturnKeepsOwnership(s: State, c: nat)
    requires Ownership(s)
    ensures Ownership(Apply(s, Return(c)))
  {
  }

  lemma StepKeepsOwnership(s: State, step: Step)
    requires Ownership(s)
    ensures Ownership(Apply(s, step))
  {
    match step
    case Borrow(c, job) => BorrowKeepsOwnership(s, c, job);
    case FillByte(_) =>
    case Use(_) =>
    case FailRead(_) =>
    case Return(c) => ReturnKeepsOwnership(s, c);
  }

  lemma StepKeepsContents(s: State, step: Step)
    requires Ownership(s) && Contents(s)
    ensures Contents(Apply(s, step))
  {
    var t := Apply(s, step);
    forall c | c in t.clients && t.clients[c].Filling? ensures FilledSoFar(t, t.clients[c]) {
      if c in s.clients && s.clients[c] == t.clients[c] {
        assert FilledSoFar(s, s.clients[c]);
      } else if step.FillByte? {
        var p := s.clients[c];
        assert FilledSoFar(s, p);
        assert t.heap[p.buf][..p.filled + 1] == s.heap[p.buf][..p.filled] + [p.job.Payload()[p.filled]];
      }
    }
  }

  /** In every interleaving lent buffers are pairwise distinct and not on the list, the list
      never exceeds its capacity, and every emitted or decoded byte string is exactly that of
      the client's own job, whatever the recycled buffer held before. */
  lemma {:induction false} EveryRunKeepsBuffersApart(steps: seq<Step>)
    ensures Ownership(Run(steps)) && Contents(Run(steps))
  {
    if steps != [] {
      EveryRunKeepsBuffersApart(steps[..|steps| - 1]);
      StepKeepsOwnership(Run(steps[..|steps| - 1]), steps[|steps| - 1]);
      StepKeepsContents(Run(steps[..|steps| - 1]), steps[|steps| - 1]);
    }
  }

  /** A writer's bytes decode to its value and a reader's value is that of its input. */
  lemma EveryEventIsOwnValue(steps: seq<Step>, e: Event)
    requires e in Run(steps).events
    ensures e.job.Put? ==> |e.bytes| == e.job.width && LittleEndian(e.bytes) == e.job.val % Pow256(e.job.width)
    ensures e.job.Get? ==> LittleEndian(e.bytes) == LittleEndian(e.job.input)
  {
    EveryRunKeepsBuffersApart(steps);
    if e.job.Put? {
      ReadBack(e.job.val, e.job.width);
    }
  }

  /** A returned buffer is at the end of the list unless the list was full, and its client can
      borrow again. */
  lemma ReturnedOrFull(s: State, c: nat)
    requires PhaseOf(s, c).Used?
    ensures var t := Apply(s, Return(c)); var buf := PhaseOf(s, c).buf;
            && PhaseOf(t, c) == Idle && t.heap == s.heap && t.events == s.events
            && (|s.free| < 1024 ==> t.free == s.free + [buf] && buf in t.free)
            && (|s.free| >= 1024 ==> t.free == s.free)
  {
    assert (s.free + [PhaseOf(s, c).buf])[|s.free|] == PhaseOf(s, c).buf;
  }

  /** A buffer is made only when the list is empty; otherwise its oldest one is lent. */
  lemma BorrowedOrMade(s: State, c: nat, job: Job)
    requires Ownership(s) && PhaseOf(s, c).Idle? && job.Valid()
    ensures var t := Apply(s, Borrow(c, job)); var p := PhaseOf(t, c);
            && p.Filling? && p.job == job && p.filled == 0
            && (s.free != [] ==> p.buf == s.free[0] && p.buf !in t.free && |t.free| == |s.free| - 1 && t.heap == s.heap)
            && (s.free == [] ==> p.buf == |s.heap| && |t.heap| == |s.heap| + 1 && t.free == [])
  {
  }

  lemma {:induction false} DistinctBelow(s: seq<nat>, n: nat)
    requires (forall i :: 0 <= i < |s| ==> s[i] < n) && (forall i, j :: 0 <= i < j < |s| ==> s[i] != s[j])
    ensures |s| <= n
    decreases n
  {
    if i: nat :| i < |s| && s[i] == n - 1 {
      DistinctBelow(s[..i] + s[i + 1..], n - 1);
    } else if s != [] {
      assert s[0] < n;
      DistinctBelow(s, n - 1);
    }
  }

  /** A buffer is on the list or lent. */
  ghost predicate Kept(s: State, buf: nat) {
    buf in s.free || exists c :: Holds(s, c, buf)
  }

  /** The list has room for a buffer that is lent. */
  lemma RoomForLent(s: State, c: nat)
    requires Ownership(s) && !PhaseOf(s, c).Idle?
    ensures |s.free| < |s.heap|
  {
    DistinctBelow(s.free + [PhaseOf(s, c).buf], |s.heap|);
  }

  lemma StepKeeps(s: State, step: Step, buf: nat)
    requires Ownership(s) && |Apply(s, step).heap| <= FREE_LIST_MAX_ITEMS && buf < |Apply(s, step).heap|
    requires buf < |s.heap| ==> Kept(s, buf)
    ensures Kept(Apply(s, step), buf)
  {
    var t := Apply(s, step);
    if buf >= |s.heap| {
      assert Holds(t, step.client, buf);
    } else if buf in s.free {
      if buf !in t.free {
        assert Holds(t, step.client, buf);
      }
    } else {
      var c :| Holds(s, c, buf);
      if step.Return? && step.client == c && PhaseOf(s, c).Used? {
        RoomForLent(s, c);
        ReturnedOrFull(s, c);
      } else {
        assert Holds(t, c, buf);
      }
    }
  }

  /** As long as no more than 1024 buffers were ever made, none is lost: in every interleaving
      each is on the list or lent. */
  lemma {:induction false} NoBufferLost(steps: seq<Step>, buf: nat)
    requires |Run(steps).heap| <= 1024 && buf < |Run(steps).heap|
    ensures buf in Run(steps).free || exists c :: Holds(Run(steps), c, buf)
  {
    var before := steps[..|steps| - 1];
    if buf < |Run(before).heap| {
      NoBufferLost(before, buf);
    }
    EveryRunKeepsBuffersApart(before);
    StepKeeps(Run(before), steps[|steps| - 1], buf);
  }
}
