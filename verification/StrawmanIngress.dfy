/** The ingress loop: it polls a ring in shared memory that the client writes at any moment,
    filters the vector at the tail and admits or traps. */
module StrawmanIngress {
  import opened Words
  import opened IntegerSqrt
  import opened ShearGeometry
  import opened PhonemeEngine
  import opened Coordinate

  const SOVR_RING_VECTOR_CAPACITY: nat := 50
  const TRAP: u32 := 0xDEAD

  const ZERO_RAW: seq<bv64> := [0, 0, 0, 0, 0, 0, 0, 0]

  /** Eight 64-bit memory words. */
  type RawVector = v: seq<bv64> | |v| == E8_DIM witness ZERO_RAW
  type Vectors = v: seq<RawVector> | |v| == SOVR_RING_VECTOR_CAPACITY
    witness seq(SOVR_RING_VECTOR_CAPACITY, i => ZERO_RAW)

  /** The part of the shared page that the client writes, as one volatile read finds it. */
  datatype ClientView = ClientView(head: u32, clientState: u32, vectors: Vectors)

  /** What each of the volatile reads of one poll finds: the client may rewrite everything
      between two of them. Read 0 is the head, reads 1 to 8 the coordinates, read 9 the
      client state and read 10 the head again. */
  type Views = v: seq<ClientView> | |v| == 11
    witness seq(11, i => ClientView(0, 0, seq(SOVR_RING_VECTOR_CAPACITY, j => ZERO_RAW)))

  function ToVector(raw: RawVector): Vector {
    seq(E8_DIM, i requires 0 <= i < E8_DIM => Signed(raw[i]))
  }

  const PRIOR: Vector := [1288500, 152100, 1000000, 1000000, 0, 0, 0, 0]

  /** The variables the loop itself owns. */
  datatype Consumer = Consumer(tail: u32, expectedSeq: u32)

  datatype Outcome = Idle | Trapped | Admitted(slot: nat, candidate: RawVector)

  const START: Consumer := Consumer(0, 1)

  function Snapshot(views: Views, slot: nat): RawVector
    requires slot < SOVR_RING_VECTOR_CAPACITY
  {
    seq(E8_DIM, i requires 0 <= i < E8_DIM => views[1 + i].vectors[slot][i])
  }

  /** One turn of the endless loop. */
  function Poll(c: Consumer, views: Views): (Consumer, Outcome) {
    if views[0].head == c.tail then (c, Idle)
    else
      var slot := c.tail % 50;
      var candidate := Snapshot(views, slot);
      if !PhonemePasses(candidate[4]) then (c, Trapped)
      else if AdmitCode(views[9].clientState, c.expectedSeq, views[10].head, PRIOR, ToVector(candidate))
              != STATUS_ADMITTED
      then (c, Trapped)
      else (Consumer((c.tail + 1) % 0x1_0000_0000 % 50, (c.expectedSeq + 1) % 0x1_0000_0000),
            Admitted(slot, candidate))
  }

  class StrawmanIngress {
    var tail: u32
    var bufferFlags: u32
    var expectedSeq: u32

    function View(): Consumer
      reads this
    {
      Consumer(tail, expectedSeq)
    }

    constructor ()
      ensures View() == START && bufferFlags == 0
    {
      tail := 0;
      bufferFlags := 0;
      expectedSeq := 1;
    }

    /** The body of the loop in `strawman_ingress_entry`. */
    method PollOnce(views: Views) returns (outcome: Outcome)
      modifies this
      ensures (View(), outcome) == Poll(old(View()), views)
      ensures bufferFlags == if outcome.Trapped? then 0xDEAD else old(bufferFlags)
    {
      if views[0].head == tail {
        return Idle;
      }
      var idx := tail % 50;
      var read: seq<bv64> := [];
      var i := 0;
      while i < E8_DIM
        invariant 0 <= i <= E8_DIM && |read| == i
        invariant forall k :: 0 <= k < i ==> read[k] == views[1 + k].vectors[idx][k]
      {
        read := read + [views[1 + i].vectors[idx][i]];
        i := i + 1;
      }
      var candidate: RawVector := read;
      assert candidate == Snapshot(views, idx);

      var phonemeWord := PhonemeWord(candidate[4]);
      if phonemeWord != 0 && !ValidWord(phonemeWord) {
        bufferFlags := TRAP;
        return Trapped;
      }
      var code := StrawmanAdmitProposal(views[9].clientState, expectedSeq, views[10].head, PRIOR, ToVector(candidate));
      if code == STATUS_ADMITTED {
        tail := (tail + 1) % 0x1_0000_0000 % 50;
        expectedSeq := (expectedSeq + 1) % 0x1_0000_0000;
        outcome := Admitted(idx, candidate);
      } else {
        bufferFlags := TRAP;
        outcome := Trapped;
      }
    }
  }

  // ---------------------------------------------------------------------
  // Runs: any number of polls, under any interleaved client writes

  function StateAfter(run: seq<Views>, n: nat): Consumer
    requires n <= |run|
  {
    if n == 0 then START else Poll(StateAfter(run, n - 1), run[n - 1]).0
  }

  function OutcomeAt(run: seq<Views>, n: nat): Outcome
    requires n < |run|
  {
    Poll(StateAfter(run, n), run[n]).1
  }

  function Admissions(run: seq<Views>, n: nat): nat
    requires n <= |run|
  {
    if n == 0 then 0 else Admissions(run, n - 1) + (if OutcomeAt(run, n - 1).Admitted? then 1 else 0)
  }

  lemma NextCounts(k: nat)
    ensures k % 50 % 50 == k % 50
    ensures ((k % 50) + 1) % 0x1_0000_0000 % 50 == (k + 1) % 50
    ensures ((1 + k) % 0x1_0000_0000 + 1) % 0x1_0000_0000 == (1 + (k + 1)) % 0x1_0000_0000
  {
  }

  lemma PollMoves(c: Consumer, views: Views)
    ensures var (c', outcome) := Poll(c, views);
            c' == if outcome.Admitted?
                  then Consumer((c.tail + 1) % 0x1_0000_0000 % 50, (c.expectedSeq + 1) % 0x1_0000_0000)
                  else c
  {
  }

  /** After k admissions the tail is k mod 50 and the sequence number expected next is 1 + k
      mod 2^32, whatever the client wrote and however many polls were idle or trapped. */
  lemma {:induction false} StateCountsAdmissions(run: seq<Views>, n: nat)
    requires n <= |run|
    ensures StateAfter(run, n) == Consumer(Admissions(run, n) % 50, (1 + Admissions(run, n)) % 0x1_0000_0000)
  {
    hide Poll;
    if n != 0 {
      StateCountsAdmissions(run, n - 1);
      PollMoves(StateAfter(run, n - 1), run[n - 1]);
      NextCounts(Admissions(run, n - 1));
    }
  }

  lemma PollAdmits(c: Consumer, views: Views)
    ensures var outcome := Poll(c, views).1;
            && (outcome.Idle? <==> views[0].head == c.tail)
            && (outcome.Admitted? ==>
                  var w := outcome.candidate;
                  && outcome.slot == c.tail % 50
                  && (forall i :: 0 <= i < 8 ==> w[i] == views[1 + i].vectors[c.tail % 50][i])
                  && views[10].head == c.expectedSeq && views[9].clientState % 8 == 7
                  && PhonemePasses(w[4]) && ShearAccepts(PRIOR, Signeds(w)))
  {
    if Poll(c, views).1.Admitted? {
      assert ToVector(Poll(c, views).1.candidate) == Signeds(Poll(c, views).1.candidate);
    }
  }

  /** The eight words as signed numbers, in their order. */
  function Signeds(w: RawVector): Vector {
    [Signed(w[0]), Signed(w[1]), Signed(w[2]), Signed(w[3]), Signed(w[4]), Signed(w[5]), Signed(w[6]), Signed(w[7])]
  }

  /** Every admission takes the slot that is next in turn and carries the next sequence number;
      the vector it hands on is, word by word, what the ring held in that slot when each word was
      read, and the very one that passed the phoneme and shear tests. A poll is idle just when the
      head equals the tail, and one that does not admit moves nothing. */
  lemma AdmissionsAreFiltered(run: seq<Views>, n: nat)
    requires n < |run|
    ensures var k, outcome := Admissions(run, n), OutcomeAt(run, n);
            && (outcome.Idle? <==> run[n][0].head == k % 50)
            && if outcome.Admitted? then
                 && outcome.slot == k % 50
                 && (forall i :: 0 <= i < 8 ==> outcome.candidate[i] == run[n][1 + i].vectors[k % 50][i])
                 && run[n][10].head == (1 + k) % 0x1_0000_0000
                 && run[n][9].clientState % 8 == 7
                 && PhonemePasses(outcome.candidate[4]) && ShearAccepts(PRIOR, Signeds(outcome.candidate))
               else StateAfter(run, n + 1) == StateAfter(run, n)
  {
    hide Poll, Admissions, Signeds, PhonemePasses, ShearAccepts;
    var c := StateAfter(run, n);
    StateCountsAdmissions(run, n);
    PollMoves(c, run[n]);
    PollAdmits(c, run[n]);
    NextCounts(Admissions(run, n));
  }

  // ---------------------------------------------------------------------
  // The combined filter

  lemma {:induction false} TermWithinSum(a: Vector, b: Vector, n: nat, i: nat)
    requires i < n <= E8_DIM
    ensures Sq(Delta(a, b, i)) <= SumSq(a, b, n)
  {
    if i < n - 1 {
      TermWithinSum(a, b, n - 1, i);
    }
  }

  lemma CoordinateWithinBound(v: Vector)
    requires DistSq(PRIOR, v) <= MAX_DIST_SQ
    ensures -150000 <= v[4] <= 150000
  {
    TermWithinSum(PRIOR, v, E8_DIM, 4);
    var x := Delta(PRIOR, v, 4);
    assert x == v[4];
    SquareLess(x, 150001);
    assert (-x) * (-x) == x * x;
    SquareLess(-x, 150001);
  }

  /** Let the poll find the ring non-empty, the sequence number and the badge right, and the words
      w in the slot at the tail, with values v whose distance does not overflow. Then w is admitted
      exactly when the squared distance of v from the prior is at most 22500300000 and channel 4
      is not negative, and trapped otherwise. */
  lemma FilterExactly(c: Consumer, views: Views, w: RawVector, v: Vector)
    requires views[0].head != c.tail
    requires views[10].head == c.expectedSeq && views[9].clientState % 8 == 7
    requires forall i :: 0 <= i < 8 ==> w[i] == views[1 + i].vectors[c.tail % 50][i] && v[i] == Signed(w[i])
    requires DistSq(PRIOR, v) < 0x8000_0000_0000_0000
    ensures Poll(c, views).1 ==
            if DistSq(PRIOR, v) <= 22500300000 && v[4] >= 0 then Admitted(c.tail % 50, w) else Trapped
  {
    assert Snapshot(views, c.tail % 50) == w && ToVector(w) == v;
    ShearAcceptsExactly(PRIOR, v);
    if DistSq(PRIOR, v) <= MAX_DIST_SQ {
      CoordinateWithinBound(v);
      PhonemeRejectsNegatives(w[4]);
    }
  }

  lemma PollWithStaleHead(c: Consumer, views: Views)
    requires views[10].head != c.expectedSeq
    ensures Poll(c, views).1 == if views[0].head == c.tail then Idle else Trapped
  {
  }

  /** The ring compares the 32-bit head with a tail reduced modulo 50. A client that has published
      k vectors, all admitted, and adds nothing, finds the loop idle exactly when k leaves the
      same remainder by 2^32 and by 50; otherwise the poll traps. Below 2^32 that is k < 50. */
  lemma QuietRing(run: seq<Views>, n: nat)
    requires n < |run|
    requires run[n][0].head == run[n][10].head == Admissions(run, n) % 0x1_0000_0000
    ensures var k := Admissions(run, n);
            && OutcomeAt(run, n) == (if k % 0x1_0000_0000 == k % 50 then Idle else Trapped)
            && (k < 0x1_0000_0000 ==> (k % 0x1_0000_0000 == k % 50 <==> k < 50))
  {
    hide Poll, Admissions, StateAfter;
    StateCountsAdmissions(run, n);
    QuietPoll(StateAfter(run, n), run[n], Admissions(run, n));
    SmallCounts(Admissions(run, n));
  }

  lemma QuietPoll(c: Consumer, views: Views, k: nat)
    requires c == Consumer(k % 50, (1 + k) % 0x1_0000_0000)
    requires views[0].head == views[10].head == k % 0x1_0000_0000
    ensures Poll(c, views).1 == if k % 0x1_0000_0000 == k % 50 then Idle else Trapped
  {
    hide Poll;
    HeadIsBehindNumber(k);
    PollWithStaleHead(c, views);
  }

  lemma HeadIsBehindNumber(k: nat)
    ensures k % 0x1_0000_0000 != (1 + k) % 0x1_0000_0000
  {
  }

  lemma SmallCounts(k: nat)
    ensures k < 0x1_0000_0000 ==> (k % 0x1_0000_0000 == k % 50 <==> k < 50)
  {
  }

  // ---------------------------------------------------------------------
  // Progress

  /** The number expected next and the tail never meet, for any count: they differ by parity. So
      a client that publishes under that number is not mistaken for an idle one. */
  lemma NumberIsNotTheTail(k: nat)
    ensures (1 + k) % 0x1_0000_0000 != k % 50
  {
    var q, t := (1 + k) / 0x1_0000_0000, k / 50;
    assert (1 + k) % 0x1_0000_0000 == 1 + k - 0x1_0000_0000 * q;
    assert k % 50 == k - 50 * t;
  }

  const PRIOR_RAW: RawVector := [1288500, 152100, 1000000, 1000000, 0, 0, 0, 0]

  /** The client repeats the prior in every slot, under the number n. */
  function Repeating(n: u32): Views {
    seq(11, i => ClientView(n, 7, seq(SOVR_RING_VECTOR_CAPACITY, j => PRIOR_RAW)))
  }

  lemma PriorIsPrior()
    ensures ToVector(PRIOR_RAW) == PRIOR && DistSq(PRIOR, PRIOR) == 0
  {
    NoDistance(PRIOR, 8);
  }

  lemma {:induction false} NoDistance(v: Vector, n: nat)
    requires n <= E8_DIM
    ensures SumSq(v, v, n) == 0
  {
    if n != 0 {
      NoDistance(v, n - 1);
    }
  }

  lemma RepeatedPriorPasses(c: Consumer)
    requires c.tail != c.expectedSeq
    ensures Poll(c, Repeating(c.expectedSeq)).1.Admitted?
  {
    hide Poll, DistSq;
    PriorIsPrior();
    FilterExactly(c, Repeating(c.expectedSeq), PRIOR_RAW, PRIOR);
  }

  /** A vector on the prior, published under the next number, is admitted after any run. */
  lemma NextIsAdmitted(run: seq<Views>)
    ensures var c := StateAfter(run, |run|); Poll(c, Repeating(c.expectedSeq)).1.Admitted?
  {
    hide Poll, Admissions, StateAfter, DistSq, ToVector;
    var c := StateAfter(run, |run|);
    StateCountsAdmissions(run, |run|);
    NumberIsNotTheTail(Admissions(run, |run|));
    RepeatedPriorPasses(c);
  }

  lemma {:induction false} PrefixRun(run: seq<Views>, more: seq<Views>, n: nat)
    requires n <= |run|
    ensures StateAfter(run + more, n) == StateAfter(run, n) && Admissions(run + more, n) == Admissions(run, n)
  {
    if n != 0 {
      PrefixRun(run, more, n - 1);
    }
  }

  lemma OneMorePoll(run: seq<Views>, views: Views)
    ensures Admissions(run + [views], |run| + 1) ==
            Admissions(run, |run|) + (if Poll(StateAfter(run, |run|), views).1.Admitted? then 1 else 0)
  {
    hide Poll;
    PrefixRun(run, [views], |run|);
    assert (run + [views])[|run|] == views;
  }

  /** Every number of admissions is reached by some run, also those at which a resting client is
      trapped. */
  lemma {:induction false} EveryCountIsReached(k: nat) returns (run: seq<Views>)
    ensures |run| == k && Admissions(run, k) == k
  {
    if k == 0 {
      run := [];
      assert Admissions(run, 0) == 0;
    } else {
      hide Poll, StateAfter, Repeating, Admissions;
      var shorter := EveryCountIsReached(k - 1);
      var views := Repeating(StateAfter(shorter, k - 1).expectedSeq);
      NextIsAdmitted(shorter);
      run := shorter + [views];
      OneMorePoll(shorter, views);
    }
  }
}
