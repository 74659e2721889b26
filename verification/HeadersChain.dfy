/** Chains of headers, the commitments made to them and their work: what the two phases of a
    headers sync compare (src/headerssync.h, src/headerssync.cpp). */
module HeadersChains {
  datatype Stake = NoStake | StakedFrom(hash: nat, n: nat)

  datatype Header = Header(version: int, prev: nat, merkleRoot: nat, time: nat, bits: nat, nonce: nat,
                           stateRoot: nat, utxoRoot: nat, prevoutStake: Stake, blockSigDlgt: seq<nat>)

  const NULL_HEADER := Header(0, 0, 0, 0, 0, 0, 0, 0, NoStake, [])

  /** A header without the hash of its predecessor. */
  datatype CompressedHeader = CompressedHeader(version: int, merkleRoot: nat, time: nat, bits: nat, nonce: nat,
                                               stateRoot: nat, utxoRoot: nat, prevoutStake: Stake,
                                                   blockSigDlgt: seq<nat>)

  function Compress(h: Header): CompressedHeader {
    CompressedHeader(h.version, h.merkleRoot, h.time, h.bits, h.nonce, h.stateRoot, h.utxoRoot, h.prevoutStake,
        h.blockSigDlgt)
  }

  function GetFullHeader(c: CompressedHeader, prev: nat): Header {
    Header(c.version, prev, c.merkleRoot, c.time, c.bits, c.nonce, c.stateRoot, c.utxoRoot, c.prevoutStake,
        c.blockSigDlgt)
  }

  /** Nothing but the predecessor's hash is lost, and it is restored exactly. */
  lemma {:induction false} CompressRoundTrip(h: Header, prev: nat)
    ensures GetFullHeader(Compress(h), prev) == h <==> prev == h.prev
  {
  }

  const HEADER_COMMITMENT_PERIOD := 59
  const REDOWNLOAD_BUFFER_SIZE := 741
  const WORK_MODULUS := 0x1_0000_0000_0000_0000_0000_0000_0000_0000_0000_0000_0000_0000_0000_0000_0000_0000

  /** The block the peer's chain builds on, the thresholds, and the functions this code calls:
      block hashes, the salted hash bit, the difficulty rule, the work of a target. */
  datatype Params = Params(start: Header, startHeight: nat, startWork: nat, minimumWork: nat, commitOffset: nat,
      maxCommitments: nat,
                           hash: Header -> nat, saltedBit: nat -> bool, permitted: (nat, nat, nat) -> bool,
                               proof: nat -> nat)

  function Bit(p: Params, h: Header): bool {
    p.saltedBit(p.hash(h))
  }

  /** The i-th header after the start is one to commit to. */
  predicate CommitsAt(p: Params, i: nat) {
    (p.startHeight + 1 + i) % HEADER_COMMITMENT_PERIOD == p.commitOffset
  }

  /** How many of the first `n` headers are committed to. */
  function CommitCount(p: Params, n: nat): nat {
    if n == 0 then 0 else CommitCount(p, n - 1) + if CommitsAt(p, n - 1) then 1 else 0
  }

  /** The commitments to a chain, in order. */
  function Commitments(p: Params, hs: seq<Header>): seq<bool> {
    if hs == [] then [] else
      var n := |hs| - 1;
      Commitments(p, hs[..n]) + if CommitsAt(p, n) then [Bit(p, hs[n])] else []
  }

  function Work(p: Params, hs: seq<Header>): nat {
    if hs == [] then p.startWork else
      var n := |hs| - 1;
      (Work(p, hs[..n]) + p.proof(hs[n].bits)) % WORK_MODULUS
  }

  function LastHeader(p: Params, hs: seq<Header>): Header {
    if hs == [] then p.start else hs[|hs| - 1]
  }

  /** Each header names the one before it, the first one the start. */
  ghost predicate Linked(p: Params, hs: seq<Header>) {
    forall i {:trigger hs[i]} :: 0 <= i < |hs| ==> hs[i].prev == p.hash(LastHeader(p, hs[..i]))
  }

  /** Every change of difficulty is permitted. */
  ghost predicate Permitted(p: Params, hs: seq<Header>) {
    forall i {:trigger hs[i]} :: 0 <= i < |hs| ==>
        p.permitted(p.startHeight + 1 + i, LastHeader(p, hs[..i]).bits, hs[i].bits)
  }

  /** Some nonempty beginning of at most `n` headers has the required work. */
  ghost predicate Reached(p: Params, hs: seq<Header>, n: nat) {
    exists j {:trigger hs[..j]} :: 0 < j <= n && j <= |hs| && Work(p, hs[..j]) >= p.minimumWork
  }

  ghost predicate MatchesAt(p: Params, first: seq<Header>, second: seq<Header>, i: nat)
    requires i < |second|
  {
    CommitsAt(p, i) && !Reached(p, second, i + 1) ==> i < |first| && Bit(p, second[i]) == Bit(p, first[i])
  }

  /** Up to where the work is reached, the second chain agrees with the first at every committed
      height. */
  ghost predicate Matches(p: Params, first: seq<Header>, second: seq<Header>) {
    forall i {:trigger MatchesAt(p, first, second, i)} :: 0 <= i < |second| ==> MatchesAt(p, first, second, i)
  }

  lemma {:induction false} CommitmentsCount(p: Params, hs: seq<Header>)
    ensures |Commitments(p, hs)| == CommitCount(p, |hs|)
  {
    if hs != [] { CommitmentsCount(p, hs[..|hs| - 1]); }
  }

  lemma {:induction false} CountMonotone(p: Params, m: nat, n: nat)
    requires m <= n
    ensures CommitCount(p, m) <= CommitCount(p, n)
    ensures m < n && CommitsAt(p, m) ==> CommitCount(p, m) < CommitCount(p, n)
  {
    if m < n { CountMonotone(p, m, n - 1); }
  }

  /** The commitment to the i-th header is where counting says. */
  lemma {:induction false} CommitmentAt(p: Params, hs: seq<Header>, i: nat)
    requires CommitsAt(p, i) && CommitCount(p, i) < |Commitments(p, hs)|
    ensures i < |hs| && Commitments(p, hs)[CommitCount(p, i)] == Bit(p, hs[i])
  {
    CommitmentsCount(p, hs);
    if i >= |hs| {
      CountMonotone(p, |hs|, i);
      assert false;
    }
    var n := |hs| - 1;
    CommitmentsCount(p, hs[..n]);
    if i < n {
      CountMonotone(p, i, n);
      CommitmentAt(p, hs[..n], i);
    }
  }

  // ---- One more header ----

  lemma {:induction false} SnocChain(p: Params, hs: seq<Header>, h: Header)
    ensures Work(p, hs + [h]) == (Work(p, hs) + p.proof(h.bits)) % WORK_MODULUS
    ensures Commitments(p, hs + [h]) == Commitments(p, hs) + if CommitsAt(p, |hs|) then [Bit(p, h)] else []
    ensures LastHeader(p, hs + [h]) == h
    ensures Linked(p, hs) && h.prev == p.hash(LastHeader(p, hs)) ==> Linked(p, hs + [h])
    ensures Permitted(p, hs) && p.permitted(p.startHeight + 1 + |hs|, LastHeader(p, hs).bits, h.bits) ==>
            Permitted(p, hs + [h])
  {
    SnocTotals(p, hs, h);
    hide Work, Commitments, Linked, Permitted;
    SnocLinked(p, hs, h);
    SnocPermitted(p, hs, h);
  }

  lemma {:induction false} SnocTotals(p: Params, hs: seq<Header>, h: Header)
    ensures Work(p, hs + [h]) == (Work(p, hs) + p.proof(h.bits)) % WORK_MODULUS
    ensures Commitments(p, hs + [h]) == Commitments(p, hs) + if CommitsAt(p, |hs|) then [Bit(p, h)] else []
    ensures LastHeader(p, hs + [h]) == h
  {
    hide Bit, CommitsAt;
    assert (hs + [h])[..|hs|] == hs;
  }

  lemma {:induction false} SnocLinked(p: Params, hs: seq<Header>, h: Header)
    ensures Linked(p, hs) && h.prev == p.hash(LastHeader(p, hs)) ==> Linked(p, hs + [h])
  {
    hide LastHeader;
    var hs' := hs + [h];
    forall i {:trigger hs'[i]} | 0 <= i < |hs'|
      ensures hs'[..i] == if i < |hs| then hs[..i] else hs
    {
    }
  }

  lemma {:induction false} SnocPermitted(p: Params, hs: seq<Header>, h: Header)
    ensures Permitted(p, hs) && p.permitted(p.startHeight + 1 + |hs|, LastHeader(p, hs).bits, h.bits) ==>
            Permitted(p, hs + [h])
  {
    hide LastHeader;
    var hs' := hs + [h];
    forall i {:trigger hs'[i]} | 0 <= i < |hs'|
      ensures hs'[..i] == if i < |hs| then hs[..i] else hs
    {
    }
  }

  lemma {:induction false} ReachedSnoc(p: Params, hs: seq<Header>, h: Header)
    ensures forall n: nat {:trigger Reached(p, hs, n)} :: n <= |hs| ==> (Reached(p, hs + [h], n) <==> Reached(p, hs, n))
    ensures Reached(p, hs + [h], |hs| + 1) <==> Reached(p, hs, |hs|) || Work(p, hs + [h]) >= p.minimumWork
  {
    var hs' := hs + [h];
    assert hs'[..|hs| + 1] == hs';
    forall j | 0 <= j <= |hs| ensures hs'[..j] == hs[..j] {}
    if Reached(p, hs', |hs| + 1) && Work(p, hs') < p.minimumWork {
      var j :| 0 < j <= |hs| + 1 && j <= |hs'| && Work(p, hs'[..j]) >= p.minimumWork;
      assert j != |hs| + 1;
      assert hs'[..j] == hs[..j];
    }
    if Work(p, hs') >= p.minimumWork { assert Work(p, hs'[..|hs| + 1]) >= p.minimumWork; }
    forall n: nat | n <= |hs| ensures Reached(p, hs', n) <==> Reached(p, hs, n) {
      if Reached(p, hs', n) {
        var j :| 0 < j <= n && j <= |hs'| && Work(p, hs'[..j]) >= p.minimumWork;
        assert hs'[..j] == hs[..j];
      }
      if Reached(p, hs, n) {
        var j :| 0 < j <= n && j <= |hs| && Work(p, hs[..j]) >= p.minimumWork;
        assert hs'[..j] == hs[..j];
      }
    }
    if Reached(p, hs, |hs|) {
      assert Reached(p, hs', |hs|);
      var j :| 0 < j <= |hs| && j <= |hs'| && Work(p, hs'[..j]) >= p.minimumWork;
    }
  }

  /** A header that passes the commitment check, or comes after the work is reached. */
  lemma {:induction false} MatchesSnoc(p: Params, first: seq<Header>, second: seq<Header>, h: Header)
    requires Matches(p, first, second) && MatchesAt(p, first, second + [h], |second|)
    ensures Matches(p, first, second + [h])
  {
    hide Reached;
    ReachedSnoc(p, second, h);
    forall i | 0 <= i < |second + [h]| ensures MatchesAt(p, first, second + [h], i) {
      if i < |second| {
        assert MatchesAt(p, first, second, i);
        assert Reached(p, second, i + 1) <==> Reached(p, second + [h], i + 1);
      }
    }
  }
}
