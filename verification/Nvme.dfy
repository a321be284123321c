/** The queue pair of kernel/nvme.c: commands go out through a submission ring,
    completions come back through a completion ring whose entries carry a phase bit
    that the controller flips on each lap. The controller is the environment. */
module Nvme {
  import opened DivFacts

  const CIDS := 0x1_0000
  const WORD := 0x1_0000_0000

  datatype Command = Command(cid: nat, opcode: nat, lba: nat, blocks: nat)
  datatype Completion = Completion(cid: nat, status: nat, phase: nat)

  /** `nlb - 1` in 32 bits: block counts are stored less one. */
  function StoredCount(blocks: nat): nat {
    (blocks + WORD - 1) % WORD
  }

  /** The stored count is one less, and for no blocks at all the largest word. */
  lemma {:induction false} StoredLess(blocks: nat)
    requires blocks < WORD
    ensures StoredCount(blocks) == if blocks == 0 then 0xFFFF_FFFF else blocks - 1
  {
    if blocks > 0 { assert (blocks + WORD - 1) % WORD == blocks - 1; }
  }

  /** The phase bit of the entries of a lap: 1 on the first one. */
  function PhaseOf(lap: nat): nat {
    1 - lap % 2
  }

  /** A ring that holds the entries `from..` of a history. */
  ghost predicate RingHolds(ring: seq<Command>, all: seq<Command>, from: nat) {
    && |ring| > 1 && from <= |all| < from + |ring|
    && forall k {:trigger all[k]} :: from <= k < |all| ==> ring[Rem(k, |ring|)] == all[k]
  }

  lemma {:induction false} RingPut(ring: seq<Command>, all: seq<Command>, from: nat, c: Command)
    requires RingHolds(ring, all, from) && |all| + 1 < from + |ring|
    ensures RingHolds(ring[Rem(|all|, |ring|) := c], all + [c], from)
  {
    hide Rem;
    forall k: nat | from <= k < |all| ensures Rem(k, |ring|) != Rem(|all|, |ring|) {
      RemApart(k, |all|, |ring|);
    }
  }

  lemma {:induction false} RingGet(ring: seq<Command>, all: seq<Command>, from: nat)
    requires RingHolds(ring, all, from) && from < |all|
    ensures ring[Rem(from, |ring|)] == all[from] && RingHolds(ring, all, from + 1)
  {
    assert all[from] in all;
  }

  /** The completion ring: the last lap of what was posted, and before the first lap
      is complete, slots never written, whose bits are all zero. */
  ghost predicate CqOk(cq: seq<Completion>, posted: seq<Completion>) {
    && |cq| > 1
    && (forall k {:trigger posted[k]} :: 0 <= k < |posted| ==> posted[k].phase == PhaseOf(Quot(k, |cq|)))
    && (forall k {:trigger posted[k]} :: 0 <= k < |posted| && |posted| <= k + |cq| ==> cq[Rem(k, |cq|)] == posted[k])
    && (forall k :: |posted| <= k < |cq| ==> cq[k].phase == 0)
  }

  lemma {:induction false} CqPost(cq: seq<Completion>, posted: seq<Completion>, e: Completion)
    requires CqOk(cq, posted) && e.phase == PhaseOf(Quot(|posted|, |cq|))
    ensures CqOk(cq[Rem(|posted|, |cq|) := e], posted + [e])
  {
    hide Rem, Quot, PhaseOf;
    var n, d := |posted|, |cq|;
    var cq' := cq[Rem(n, d) := e];
    forall k: nat | k < n && n + 1 <= k + d ensures cq'[Rem(k, d)] == posted[k] {
      RemApart(k, n, d);
    }
    forall k | n + 1 <= k < d ensures cq'[k].phase == 0 {
      RemSmall(n, d);
    }
  }

  /** The phase bit tells a new entry from one a lap old, and from no entry at all. */
  lemma {:induction false} CqPoll(cq: seq<Completion>, posted: seq<Completion>, taken: nat)
    requires CqOk(cq, posted) && taken <= |posted| < taken + |cq|
    ensures cq[Rem(taken, |cq|)].phase == PhaseOf(Quot(taken, |cq|)) <==> taken < |posted|
    ensures taken < |posted| ==> cq[Rem(taken, |cq|)] == posted[taken]
  {
    hide Rem, Quot;
    var d := |cq|;
    if taken < |posted| {
      assert posted[taken] == cq[Rem(taken, d)];
    } else if taken < d {
      RemSmall(taken, d);
    } else {
      RemLap(taken - d, d);
      assert posted[taken - d] == cq[Rem(taken - d, d)];
    }
  }

  // The parts of a queue's invariant, on values.

  /** Submission: the ring holds what the controller has not fetched. */
  ghost predicate SubmissionOk(sq: seq<Command>, issued: seq<Command>, fetched: nat, head: nat, tail: nat,
      nextCid: nat) {
    && RingHolds(sq, issued, fetched)
    && head == Rem(fetched, |sq|) && tail == Rem(|issued|, |sq|) && CidsOk(issued, nextCid)
  }

  /** Identifiers are given out in order, modulo 2^16. */
  ghost predicate CidsOk(issued: seq<Command>, nextCid: nat) {
    nextCid == |issued| % CIDS && forall k :: 0 <= k < |issued| ==> issued[k].cid == k % CIDS
  }

  /** Commands fewer than 2^16 apart have different identifiers. */
  lemma {:induction false} CidsDiffer(issued: seq<Command>, nextCid: nat, j: nat, k: nat)
    requires CidsOk(issued, nextCid) && j < k < |issued| && k < j + 0x1_0000
    ensures issued[j].cid != issued[k].cid && issued[k].cid < 0x1_0000
  {
    CidsApart(j, k);
  }

  lemma {:induction false} CidsApart(j: nat, k: nat)
    requires j < k < j + 0x1_0000
    ensures j % CIDS != k % CIDS
  {
  }

  lemma {:induction false} CidNext(issued: seq<Command>, nextCid: nat, c: Command)
    requires CidsOk(issued, nextCid) && c.cid == nextCid
    ensures CidsOk(issued + [c], (nextCid + 1) % CIDS)
  {
  }

  lemma {:induction false} Submitted(sq: seq<Command>, issued: seq<Command>, fetched: nat, head: nat, tail: nat,
      nextCid: nat, c: Command)
    requires SubmissionOk(sq, issued, fetched, head, tail, nextCid) && |issued| + 1 < fetched + |sq| && c.cid == nextCid
    ensures tail < |sq|
    ensures SubmissionOk(sq[tail := c], issued + [c], fetched, head, (tail + 1) % |sq|, (nextCid + 1) % CIDS)
  {
    hide Rem, RingHolds, CidsOk;
    RingSize(sq, issued, fetched);
    CidNext(issued, nextCid, c);
    RemStep(|issued|, |sq|);
    RingPut(sq, issued, fetched, c);
  }

  /** One command more than the ring has room for brings the tail back to the head. */
  lemma {:induction false} TailNext(sq: seq<Command>, issued: seq<Command>, fetched: nat, head: nat, tail: nat,
      nextCid: nat)
    requires SubmissionOk(sq, issued, fetched, head, tail, nextCid)
    ensures |sq| > 1 && tail < |sq| && |issued| + 1 <= fetched + |sq|
    ensures |issued| + 1 == fetched + |sq| ==> (tail + 1) % |sq| == head
  {
    hide Rem, RingHolds, CidsOk;
    RingSize(sq, issued, fetched);
    RemStep(|issued|, |sq|);
    RemLap(fetched, |sq|);
  }

  lemma {:induction false} RingSize(ring: seq<Command>, all: seq<Command>, from: nat)
    requires RingHolds(ring, all, from)
    ensures |ring| > 1 && from <= |all| < from + |ring|
  {
  }

  lemma {:induction false} Fetched(sq: seq<Command>, issued: seq<Command>, fetched: nat, head: nat, tail: nat,
      nextCid: nat)
    requires SubmissionOk(sq, issued, fetched, head, tail, nextCid)
    ensures |sq| > 1 && head < |sq| && fetched <= |issued| && (head == tail <==> fetched == |issued|)
    ensures fetched < |issued| ==> sq[head] == issued[fetched]
    ensures fetched < |issued| ==> SubmissionOk(sq, issued, fetched + 1, (head + 1) % |sq|, tail, nextCid)
  {
    hide Rem, RingHolds, CidsOk;
    RingSize(sq, issued, fetched);
    RemStep(fetched, |sq|);
    RemEqual(fetched, |issued|, |sq|);
    if fetched < |issued| { RingGet(sq, issued, fetched); }
  }

  /** Completion: both sides' indices and phases follow from how many entries were
      posted and how many of them taken. */
  ghost predicate CompletionOk(cq: seq<Completion>, posted: seq<Completion>, taken: nat, head: nat, phase: nat,
      tail: nat, lapBit: nat) {
    && CqOk(cq, posted) && taken <= |posted| < taken + |cq|
    && head == Rem(taken, |cq|) && phase == PhaseOf(Quot(taken, |cq|))
    && tail == Rem(|posted|, |cq|) && lapBit == PhaseOf(Quot(|posted|, |cq|))
  }

  lemma {:induction false} PhaseFlip(lap: nat)
    ensures PhaseOf(lap) <= 1 && PhaseOf(lap + 1) == 1 - PhaseOf(lap)
  {
  }

  lemma {:induction false} CqSize(cq: seq<Completion>, posted: seq<Completion>)
    requires CqOk(cq, posted)
    ensures |cq| > 1
  {
  }

  lemma {:induction false} Looked(cq: seq<Completion>, posted: seq<Completion>, taken: nat, head: nat, phase: nat,
      tail: nat, lapBit: nat)
    requires CompletionOk(cq, posted, taken, head, phase, tail, lapBit)
    ensures |cq| > 1 && head < |cq| && phase <= 1 && taken <= |posted|
    ensures cq[head].phase == phase <==> taken < |posted|
    ensures taken < |posted| ==> cq[head] == posted[taken]
    ensures taken < |posted| ==>
              CompletionOk(cq, posted, taken + 1, (head + 1) % |cq|, if (head + 1) % |cq| == 0 then 1 - phase
                else phase, tail, lapBit)
  {
    hide Rem, Quot, PhaseOf, CqOk;
    CqSize(cq, posted);
    CqPoll(cq, posted, taken);
    RemStep(taken, |cq|);
    PhaseFlip(Quot(taken, |cq|));
  }

  lemma {:induction false} Posted(cq: seq<Completion>, posted: seq<Completion>, taken: nat, head: nat, phase: nat,
      tail: nat, lapBit: nat, e: Completion)
    requires CompletionOk(cq, posted, taken, head, phase, tail, lapBit) && e.phase == lapBit
    ensures |cq| > 1 && tail < |cq| && lapBit <= 1
    ensures (tail + 1) % |cq| != head <==> |posted| + 1 < taken + |cq|
    ensures |posted| + 1 < taken + |cq| ==>
              CompletionOk(cq[tail := e], posted + [e], taken, head, phase, (tail + 1) % |cq|, if (tail + 1) % |cq| ==
                0 then 1 - lapBit else lapBit)
  {
    hide Rem, Quot, PhaseOf, CqOk;
    CqSize(cq, posted);
    CqPost(cq, posted, e);
    RemStep(|posted|, |cq|);
    PhaseFlip(Quot(|posted|, |cq|));
    if |posted| + 1 < taken + |cq| {
      RemEqual(taken, |posted| + 1, |cq|);
    } else {
      RemLap(taken, |cq|);
    }
  }

  /** Books: every fetched command is either being worked on or completed, once. */
  ghost predicate BooksOk(issued: seq<Command>, fetched: nat, inflight: seq<Command>, done: seq<Command>,
      posted: seq<Completion>, taken: nat, results: seq<bool>) {
    && fetched <= |issued| && multiset(issued[..fetched]) == multiset(done) + multiset(inflight)
    && |done| == |posted| && |results| == taken <= |posted|
    && (forall k :: 0 <= k < |posted| ==> posted[k].cid == done[k].cid)
    && (forall k :: 0 <= k < taken ==> results[k] == (posted[k].status == 0))
  }

  lemma {:induction false} BooksSubmitted(issued: seq<Command>, fetched: nat, inflight: seq<Command>,
      done: seq<Command>, posted: seq<Completion>, taken: nat, results: seq<bool>, c: Command)
    requires BooksOk(issued, fetched, inflight, done, posted, taken, results)
    ensures BooksOk(issued + [c], fetched, inflight, done, posted, taken, results)
  {
    assert (issued + [c])[..fetched] == issued[..fetched];
  }

  lemma {:induction false} BooksFetched(issued: seq<Command>, fetched: nat, inflight: seq<Command>, done: seq<Command>,
      posted: seq<Completion>, taken: nat, results: seq<bool>)
    requires BooksOk(issued, fetched, inflight, done, posted, taken, results) && fetched < |issued|
    ensures BooksOk(issued, fetched + 1, inflight + [issued[fetched]], done, posted, taken, results)
  {
    assert issued[..fetched + 1] == issued[..fetched] + [issued[fetched]];
  }

  lemma {:induction false} BooksPosted(issued: seq<Command>, fetched: nat, inflight: seq<Command>, done: seq<Command>,
      posted: seq<Completion>, taken: nat, results: seq<bool>, i: nat, e: Completion)
    requires BooksOk(issued, fetched, inflight, done, posted, taken, results) && i < |inflight|
    requires e.cid == inflight[i].cid
    ensures BooksOk(issued, fetched, inflight[..i] + inflight[i + 1..], done + [inflight[i]], posted + [e], taken,
      results)
  {
    assert inflight == inflight[..i] + [inflight[i]] + inflight[i + 1..];
  }

  /** One command at a time, and in order: what the books look like as long as no call
      has timed out. */
  ghost predicate InOrder(issued: seq<Command>, fetched: nat, inflight: seq<Command>, done: seq<Command>, taken: nat) {
    && |done| <= fetched <= |issued| <= taken + 1 && taken <= |done|
    && done == issued[..|done|] && inflight == issued[|done|..fetched]
  }

  lemma {:induction false} InOrderSubmitted(issued: seq<Command>, fetched: nat, inflight: seq<Command>,
      done: seq<Command>, taken: nat, c: Command)
    ensures InOrder(issued, fetched, inflight, done, taken) && taken == |issued| ==>
      InOrder(issued + [c], fetched, inflight, done, taken) && fetched == |issued| && (issued + [c])[taken] == c
  {
  }

  lemma {:induction false} InOrderPosted(issued: seq<Command>, fetched: nat, inflight: seq<Command>,
      done: seq<Command>, taken: nat, i: nat)
    requires InOrder(issued, fetched, inflight, done, taken) && i < |inflight|
    ensures InOrder(issued, fetched, inflight[..i] + inflight[i + 1..], done + [inflight[i]], taken)
  {
  }

  class Queue {
    const depth: nat
    const sq: array<Command>
    const cq: array<Completion>
    // The driver's side.
    var sqTail: nat
    var cqHead: nat
    var cqPhase: nat
    var nextCid: nat
    /** What the calls returned: whether the status was zero. */
    var results: seq<bool>
    // The controller's side.
    var sqHead: nat
    var cqTail: nat
    var lapBit: nat
    var inflight: seq<Command>
    // History: commands submitted, how many were fetched, those completed, their
    // completions, and how many of these the driver has taken.
    ghost var issued: seq<Command>
    ghost var fetched: nat
    ghost var done: seq<Command>
    ghost var posted: seq<Completion>
    ghost var taken: nat

    ghost predicate Valid()
      reads this, sq, cq
    {
      && sq.Length == cq.Length == depth
      && SubmissionOk(sq[..], issued, fetched, sqHead, sqTail, nextCid)
      && CompletionOk(cq[..], posted, taken, cqHead, cqPhase, cqTail, lapBit)
      && BooksOk(issued, fetched, inflight, done, posted, taken, results)
    }

    ghost predicate Single()
      reads this
    {
      InOrder(issued, fetched, inflight, done, taken)
    }

    constructor (size: nat)
      requires size > 1
      ensures Valid() && Single() && issued == [] && taken == 0 && depth == size
    {
      depth := size;
      sq := new Command[size](_ => Command(0, 0, 0, 0));
      cq := new Completion[size](_ => Completion(0, 0, 0));
      sqTail, cqHead, cqPhase, nextCid, results := 0, 0, 1, 0, [];
      sqHead, cqTail, lapBit, inflight := 0, 0, 1, [];
      issued, fetched, done, posted, taken := [], 0, [], [], 0;
      new;
      RemSmall(0, size);
    }

    /** The first half of `nvme_io`: the command goes into the ring and the doorbell is
        rung; the block count is stored less one, modulo 2^32. The driver does not look
        whether the ring has room, and a full ring looks empty to the controller. */
    method Submit(opcode: nat, lba: nat, blocks: nat) returns (cid: nat)
      requires Valid() && blocks < WORD
      modifies this`nextCid, this`sqTail, this`issued, sq
      ensures issued == old(issued) + [Command(cid, opcode, lba, StoredCount(blocks))]
      ensures |issued| < fetched + depth ==> Valid()
      ensures |issued| >= fetched + depth ==> |issued| == fetched + depth && sqTail == sqHead
      ensures old(Single() && taken == |issued|) ==> Valid() && Single() && taken < |issued| && issued[taken].cid == cid
    {
      hide SubmissionOk, CompletionOk, BooksOk, InOrder, StoredCount;
      cid := nextCid;
      var c := Command(cid, opcode, lba, StoredCount(blocks));
      InOrderSubmitted(issued, fetched, inflight, done, taken, c);
      SizeOf();
      Enqueue(c);
    }

    /** `sq_ring` behind the store. */
    method Enqueue(c: Command)
      requires Valid() && c.cid == nextCid
      modifies this`nextCid, this`sqTail, this`issued, sq
      ensures issued == old(issued) + [c]
      ensures |issued| < fetched + depth ==> Valid()
      ensures |issued| >= fetched + depth ==> |issued| == fetched + depth && sqTail == sqHead
    {
      TailNext(sq[..], issued, fetched, sqHead, sqTail, nextCid);
      hide SubmissionOk, CompletionOk, BooksOk;
      if |issued| + 1 < fetched + depth {
        Submitted(sq[..], issued, fetched, sqHead, sqTail, nextCid, c);
        BooksSubmitted(issued, fetched, inflight, done, posted, taken, results, c);
      }
      nextCid := (nextCid + 1) % CIDS;
      sq[sqTail] := c;
      sqTail := (sqTail + 1) % depth;
      issued := issued + [c];
    }

    lemma {:induction false} SizeOf()
      requires Valid()
      ensures depth > 1
    {
    }

    /** One look of `cq_poll` at the head of the completion ring. An entry of an earlier
        lap is never taken; neither is the completion of another command, so one that
        comes after its call gave up blocks the ring. */
    method Poll(cid: nat) returns (found: bool)
      requires Valid()
      modifies this`cqHead, this`cqPhase, this`results, this`taken
      ensures Valid()
      ensures found <==> old(taken) < |posted| && posted[old(taken)].cid == cid
      ensures !found ==> taken == old(taken) && results == old(results)
      ensures found ==> taken == old(taken) + 1 && results == old(results) + [posted[old(taken)].status == 0]
      ensures old(Single()) ==> Single()
      ensures old(Single() && taken < |issued| && cid == issued[taken].cid) ==> (found <==> old(taken) < |posted|)
    {
      hide SubmissionOk, CompletionOk;
      Looked(cq[..], posted, taken, cqHead, cqPhase, cqTail, lapBit);
      var e := cq[cqHead];
      found := e.phase == cqPhase && e.cid == cid;
      if found {
        cqHead := (cqHead + 1) % depth;
        if cqHead == 0 {
          cqPhase := 1 - cqPhase;
        }
        results := results + [e.status == 0];
        taken := taken + 1;
      }
    }

    /** The controller fetches the oldest command it has not seen. */
    method Fetch() returns (any: bool)
      requires Valid()
      modifies this`sqHead, this`inflight, this`fetched
      ensures Valid() && (any <==> old(fetched) < |issued|)
      ensures any ==> fetched == old(fetched) + 1 && inflight == old(inflight) + [issued[old(fetched)]]
      ensures !any ==> fetched == old(fetched) && inflight == old(inflight)
      ensures old(Single()) ==> Single()
    {
      hide SubmissionOk, CompletionOk, BooksOk;
      Fetched(sq[..], issued, fetched, sqHead, sqTail, nextCid);
      any := sqHead != sqTail;
      if any {
        BooksFetched(issued, fetched, inflight, done, posted, taken, results);
        inflight := inflight + [sq[sqHead]];
        sqHead := (sqHead + 1) % depth;
        fetched := fetched + 1;
      }
    }

    /** The controller completes some command it is working on, in any order, unless
        the completion ring is full. */
    method Post(i: nat, status: nat) returns (any: bool)
      requires Valid()
      modifies this`cqTail, this`lapBit, this`inflight, this`done, this`posted, cq
      ensures Valid() && (any <==> i < |old(inflight)| && |old(posted)| + 1 < taken + depth)
      ensures any ==> done == old(done) + [old(inflight)[i]] && |posted| == |old(posted)| + 1
      ensures any ==> posted == old(posted) + [Completion(old(inflight)[i].cid, status, old(lapBit))]
      ensures !any ==> done == old(done) && posted == old(posted) && inflight == old(inflight)
      ensures old(Single()) ==> Single()
    {
      hide SubmissionOk, CompletionOk, BooksOk, InOrder;
      var e := Completion(if i < |inflight| then inflight[i].cid else 0, status, lapBit);
      Posted(cq[..], posted, taken, cqHead, cqPhase, cqTail, lapBit, e);
      any := i < |inflight| && (cqTail + 1) % depth != cqHead;
      if any {
        BooksPosted(issued, fetched, inflight, done, posted, taken, results, i, e);
        if Single() { InOrderPosted(issued, fetched, inflight, done, taken, i); }
        cq[cqTail] := e;
        posted, done := posted + [e], done + [inflight[i]];
        inflight := inflight[..i] + inflight[i + 1..];
        cqTail := (cqTail + 1) % depth;
        if cqTail == 0 {
          lapBit := 1 - lapBit;
        }
      }
    }
  }

  /** One step of the controller, or of the driver: a call of `nvme_io` begins when the
      one before it has returned, and looks at the ring until its completion is there. */
  datatype Step = Driver(opcode: nat, lba: nat, blocks: nat) | Fetch | Post(i: nat, status: nat)

  /** Over every interleaving in which no call gives up, calls return in the order in
      which they were made, each with the status of its own command. */
  method Run(q: Queue, steps: seq<Step>) returns (waiting: bool)
    requires q.Valid() && q.Single() && q.taken == |q.issued| == 0
    requires forall k :: 0 <= k < |steps| && steps[k].Driver? ==> steps[k].blocks < WORD
    modifies q, q.sq, q.cq
    ensures q.Valid() && q.Single() && (waiting <==> q.taken < |q.issued|)
    ensures |q.results| == q.taken <= |q.done| == |q.posted| && q.done <= q.issued
    ensures forall k :: 0 <= k < q.taken ==>
      q.posted[k].cid == q.issued[k].cid && q.results[k] == (q.posted[k].status == 0)
  {
    waiting := false;
    var cid := 0;
    for k := 0 to |steps|
      invariant q.Valid() && q.Single() && (waiting <==> q.taken < |q.issued|)
      invariant waiting ==> q.issued[q.taken].cid == cid
    {
      hide SubmissionOk, CompletionOk, BooksOk;
      match steps[k] {
        case Driver(opcode, lba, blocks) =>
          if waiting {
            var found := q.Poll(cid);
            waiting := !found;
          } else {
            AllFetched(q);
            cid := q.Submit(opcode, lba, blocks);
            waiting := true;
          }
        case Fetch => var _ := q.Fetch();
        case Post(i, status) => var _ := q.Post(i, status);
      }
    }
  }

  lemma {:induction false} AllFetched(q: Queue)
    requires q.Valid() && q.Single() && q.taken == |q.issued|
    ensures q.fetched == |q.issued| && q.depth > 1
  {
  }
}
