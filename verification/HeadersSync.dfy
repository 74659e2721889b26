/** Downloading a peer's headers twice (src/headerssync.cpp, class HeadersSyncState). */
module HeadersSyncs {
  import opened HeadersChains

  datatype DownloadState = PRESYNC | REDOWNLOAD | FINAL

  datatype ProcessingResult = ProcessingResult(powValidatedHeaders: seq<Header>, success: bool, requestMore: bool)

  function CompressAll(hs: seq<Header>): seq<CompressedHeader> {
    seq(|hs|, i requires 0 <= i < |hs| => Compress(hs[i]))
  }

  /** What was accepted in the first phase, what in the second, and what was released of that. */
  datatype History = History(presynced: seq<Header>, accepted: seq<Header>, released: seq<Header>)

  /** Over the whole sync: the released headers begin the accepted ones, which are linked from the
      start, within the difficulty rule, and match the first download at every committed height
      up to where the required work is reached. */
  ghost predicate HistoryOk(p: Params, h: History) {
    && h.released <= h.accepted && Linked(p, h.accepted) && Permitted(p, h.accepted)
        && Matches(p, h.presynced, h.accepted)
    && (h.accepted != [] ==> Work(p, h.presynced) >= p.minimumWork)
  }

  /** The buffer holds what was accepted and not yet released. */
  ghost predicate Buffered(p: Params, h: History, buffer: seq<CompressedHeader>, lastHeight: nat, lastHash: nat,
      firstPrevHash: nat) {
    && h.released <= h.accepted && buffer == CompressAll(h.accepted[|h.released|..])
        && lastHeight == p.startHeight + |h.accepted|
    && lastHash == p.hash(LastHeader(p, h.accepted)) && firstPrevHash == p.hash(LastHeader(p, h.released))
  }

  /** Until the work is reached, the commitments left are those to the part of the first chain not
      yet seen again. */
  ghost predicate CommitmentsLeft(p: Params, first: seq<Header>, second: seq<Header>, reached: bool, left: seq<bool>) {
    && (reached <==> Reached(p, second, |second|))
    && (!reached ==>
        CommitCount(p, |second|) <= |Commitments(p, first)|
        && left == Commitments(p, first)[CommitCount(p, |second|)..])
  }

  /** The first phase takes a header: its difficulty is permitted and the commitments fit. */
  ghost predicate Countable(p: Params, chain: seq<Header>, h: Header) {
    p.permitted(p.startHeight + 1 + |chain|, LastHeader(p, chain).bits, h.bits)
        && |Commitments(p, chain + [h])| <= p.maxCommitments
  }

  /** The first phase takes a message: it connects, and each header can be taken in turn. */
  ghost predicate CountableAll(p: Params, chain: seq<Header>, hs: seq<Header>)
    requires hs != []
  {
    && hs[0].prev == p.hash(LastHeader(p, chain))
        && (hs[0].prevoutStake != NoStake ==> hs[0].time > LastHeader(p, chain).time)
    && forall i {:trigger hs[i]} :: 0 <= i < |hs| ==> Countable(p, chain + hs[..i], hs[i])
  }

  /** The second phase takes a header: it connects, its difficulty is permitted, and if the work is
      not reached with it, its bit is the one committed to at its height. */
  ghost predicate Storable(p: Params, first: seq<Header>, second: seq<Header>, h: Header) {
    && h.prev == p.hash(LastHeader(p, second))
        && p.permitted(p.startHeight + 1 + |second|, LastHeader(p, second).bits, h.bits)
    && MatchesAt(p, first, second + [h], |second|)
  }

  /** The headers taken are those up to the first that cannot be. */
  ghost predicate Stored(p: Params, before: History, hs: seq<Header>, after: History, all: bool) {
    var n := |after.accepted| - |before.accepted|;
    && 0 <= n <= |hs| && after.accepted == before.accepted + hs[..n] && after.presynced == before.presynced
    && (all <==> n == |hs|) && (n < |hs| ==> !Storable(p, after.presynced, after.accepted, hs[n]))
  }

  /** What is released once a message has been accepted: everything if the work is reached, otherwise all
      but the last headers that fill the buffer. */
  ghost predicate ReleasedExactly(p: Params, before: History, after: History) {
    if Reached(p, after.accepted, |after.accepted|) then after.released == after.accepted
    else |after.released| == Larger(|before.released|, |after.accepted| - REDOWNLOAD_BUFFER_SIZE)
  }

  function Larger(a: int, b: int): int {
    if a > b then a else b
  }

  class HeadersSyncState {
    const p: Params
    var state: DownloadState
    var currentChainWork: nat
    var commitments: seq<bool>
    var lastHeaderReceived: Header
    var currentHeight: nat
    var redownloaded: seq<CompressedHeader>
    var bufferLastHeight: nat
    var bufferLastHash: nat
    var bufferFirstPrevHash: nat
    var redownloadChainWork: nat
    var processAll: bool
    ghost var history: History

    ghost predicate PresyncOk()
      reads this
    {
      && history.accepted == [] && history.released == []
      && currentHeight == p.startHeight + |history.presynced| && lastHeaderReceived == LastHeader(p, history.presynced)
      && currentChainWork == Work(p, history.presynced) && commitments == Commitments(p, history.presynced)
      && |commitments| <= p.maxCommitments && !processAll
    }

    /** The buffer holds what was accepted and not yet released. */
    ghost predicate BufferOk()
      reads this
    {
      && Buffered(p, history, redownloaded, bufferLastHeight, bufferLastHash, bufferFirstPrevHash)
      && redownloadChainWork == Work(p, history.accepted)
    }

    ghost predicate CommitmentsOk()
      reads this
    {
      CommitmentsLeft(p, history.presynced, history.accepted, processAll, commitments)
    }

    /** Before the work is reached, headers are released only with 741 accepted ones after them. */
    ghost predicate ReleaseOk()
      reads this
    {
      !processAll && history.released != [] ==> |history.accepted| >= |history.released| + REDOWNLOAD_BUFFER_SIZE
    }

    ghost predicate RedownloadOk()
      reads this
    {
      && BufferOk() && CommitmentsOk() && ReleaseOk() && (redownloaded == [] ==> history.accepted == [])
      && Work(p, history.presynced) >= p.minimumWork
    }

    ghost predicate Valid()
      reads this
    {
      && HistoryOk(p, history)
      && (state == PRESYNC ==> PresyncOk())
      && (state == REDOWNLOAD ==> RedownloadOk() && !processAll && |redownloaded| <= REDOWNLOAD_BUFFER_SIZE)
    }

    constructor (p: Params)
      requires p.commitOffset < HEADER_COMMITMENT_PERIOD
      ensures Valid() && this.p == p && state == PRESYNC && history == History([], [], [])
    {
      this.p := p;
      state, currentChainWork, commitments, lastHeaderReceived, currentHeight := PRESYNC, p.startWork, [], p.start,
          p.startHeight;
      redownloaded, bufferLastHeight, bufferLastHash, bufferFirstPrevHash, redownloadChainWork, processAll := [], 0, 0,
          0, 0, false;
      history := History([], [], []);
    }

    /** Free the memory in use; the object accepts nothing any more. */
    method Finalize()
      requires HistoryOk(p, history)
      modifies this
      ensures Valid() && state == FINAL && history == old(history)
    {
      commitments, lastHeaderReceived, redownloaded := [], NULL_HEADER, [];
      bufferLastHash, bufferFirstPrevHash, processAll, currentHeight := 0, 0, false, 0;
      state := FINAL;
    }

    /** Process the next message. What is returned continues what was released before. */
    method ProcessNextHeaders(received: seq<Header>, fullMessage: bool) returns (ret: ProcessingResult)
      requires Valid()
      modifies this
      ensures Valid() && history.released == old(history.released) + ret.powValidatedHeaders
      ensures old(history.accepted) <= history.accepted && history.accepted <= old(history.accepted) + received
      ensures received == [] || old(state) == FINAL ==> unchanged(this) && ret == ProcessingResult([], false, false)
      ensures received != [] ==> (state != FINAL <==> ret.success && ret.requestMore)
      ensures ret.powValidatedHeaders != [] ==>
                || |history.accepted| == |history.released| + REDOWNLOAD_BUFFER_SIZE
                || (Reached(p, history.accepted, |history.accepted|) && history.released == history.accepted)
      ensures ret.powValidatedHeaders != [] ==> old(state) == REDOWNLOAD && Work(p, history.presynced) >= p.minimumWork
      ensures received != [] && old(state) == PRESYNC ==>
              (ret.success <==> CountableAll(p, old(history.presynced), received))
      ensures old(state) == PRESYNC && ret.success ==> history.presynced == old(history.presynced) + received
      ensures old(state) != PRESYNC ==> history.presynced == old(history.presynced)
      ensures received != [] && old(state) == REDOWNLOAD ==> Stored(p, old(history), received, history, ret.success)
      ensures old(state) == REDOWNLOAD && ret.success ==> ReleasedExactly(p, old(history), history)
      ensures !ret.success ==> ret.powValidatedHeaders == [] && !ret.requestMore
      ensures old(state) == PRESYNC && ret.success ==>
                (ret.requestMore <==> fullMessage || Work(p, history.presynced) >= p.minimumWork)
      ensures old(state) == PRESYNC && ret.requestMore ==>
                state == if Work(p, history.presynced) >= p.minimumWork then REDOWNLOAD else PRESYNC
      ensures old(state) == REDOWNLOAD && ret.success ==>
                (ret.requestMore <==> fullMessage && !Reached(p, history.accepted, |history.accepted|))
      ensures old(state) == REDOWNLOAD && ret.requestMore ==> state == REDOWNLOAD
    {
      hide Work, Reached, CountableAll, ReleasedExactly;
      ret := ProcessingResult([], false, false);
      if received == [] || state == FINAL { return; }
      if state == PRESYNC {
        var ok := ValidateAndStoreHeadersCommitments(received);
        ret := ret.(success := ok, requestMore := ok && (fullMessage || state == REDOWNLOAD));
      } else {
        ret := ProcessRedownloaded(received, fullMessage);
      }
      if !(ret.success && ret.requestMore) { Finalize(); }
    }

    /** First phase. */
    method ValidateAndStoreHeadersCommitments(headers: seq<Header>) returns (ok: bool)
      requires Valid() && state == PRESYNC && headers != []
      modifies this
      ensures HistoryOk(p, history) && history.accepted == [] && history.released == []
      ensures ok ==> Valid() && state != FINAL && history.presynced == old(history.presynced) + headers
      ensures ok <==> CountableAll(p, old(history.presynced), headers)
      ensures ok ==> (state == REDOWNLOAD <==> Work(p, history.presynced) >= p.minimumWork)
    {
      hide Work, Commitments, LastHeader, Linked, Permitted, Reached, CommitCount;
      if headers[0].prev != p.hash(lastHeaderReceived)
         || (headers[0].prevoutStake != NoStake && headers[0].time <= lastHeaderReceived.time) {
        return false;
      }
      for i := 0 to |headers|
        invariant state == PRESYNC && PresyncOk() && history.presynced == old(history.presynced) + headers[..i]
        invariant forall j {:trigger headers[j]} :: 0 <= j < i ==>
                Countable(p, old(history.presynced) + headers[..j], headers[j])
      {
        var good := ValidateAndProcessSingleHeader(headers[i]);
        if !good {
          NoneAccepted(p, history);
          return false;
        }
        assert headers[..i + 1] == headers[..i] + [headers[i]];
      }
      assert headers[..|headers|] == headers;
      NoneAccepted(p, history);
      if currentChainWork >= p.minimumWork {
        redownloaded := [];
        bufferLastHeight := p.startHeight;
        bufferFirstPrevHash := p.hash(p.start);
        bufferLastHash := p.hash(p.start);
        redownloadChainWork := p.startWork;
        state := REDOWNLOAD;
      }
      ok := true;
    }

    method ValidateAndProcessSingleHeader(current: Header) returns (ok: bool)
      requires state == PRESYNC && PresyncOk()
      modifies this`commitments, this`currentChainWork, this`lastHeaderReceived, this`currentHeight, this`history
      ensures history.accepted == [] && history.released == []
      ensures ok ==> PresyncOk() && history.presynced == old(history.presynced) + [current]
      ensures ok <==> Countable(p, old(history.presynced), current)
    {
      hide Work, Commitments, LastHeader, Linked, Permitted;
      var nextHeight := currentHeight + 1;
      SnocChain(p, history.presynced, current);
      if !p.permitted(nextHeight, lastHeaderReceived.bits, current.bits) { return false; }
      if nextHeight % HEADER_COMMITMENT_PERIOD == p.commitOffset {
        commitments := commitments + [p.saltedBit(p.hash(current))];
        if |commitments| > p.maxCommitments { return false; }
      }
      currentChainWork := (currentChainWork + p.proof(current.bits)) % WORK_MODULUS;
      lastHeaderReceived := current;
      currentHeight := nextHeight;
      history := history.(presynced := history.presynced + [current]);
      ok := true;
    }

    /** Second phase. */
    method ProcessRedownloaded(received: seq<Header>, fullMessage: bool) returns (ret: ProcessingResult)
      requires Valid() && state == REDOWNLOAD && received != []
      modifies this
      ensures HistoryOk(p, history) && history.released == old(history.released) + ret.powValidatedHeaders
      ensures state == REDOWNLOAD
      ensures old(history.accepted) <= history.accepted && history.accepted <= old(history.accepted) + received
      ensures ret.success && ret.requestMore ==> Valid()
      ensures Stored(p, old(history), received, history, ret.success)
      ensures ret.powValidatedHeaders != [] ==>
                || |history.accepted| == |history.released| + REDOWNLOAD_BUFFER_SIZE
                || (Reached(p, history.accepted, |history.accepted|) && history.released == history.accepted)
      ensures ret.success ==> ReleasedExactly(p, old(history), history)
      ensures ret.success ==> (ret.requestMore <==> fullMessage && !Reached(p, history.accepted, |history.accepted|))
      ensures !ret.success ==> ret.powValidatedHeaders == [] && !ret.requestMore
    {
      hide Work, Commitments, LastHeader, Linked, Permitted, Reached, CommitCount, Matches;
      ret := ProcessingResult([], true, false);
      for i := 0 to |received|
        invariant RedownloadOk() && HistoryOk(p, history) && state == REDOWNLOAD
        invariant history == old(history).(accepted := old(history.accepted) + received[..i])
      {
        var good := ValidateAndStoreRedownloadedHeader(received[i]);
        if !good { return ret.(success := false); }
        assert received[..i + 1] == received[..i] + [received[i]];
      }
      var headers := PopHeadersReadyForAcceptance();
      BufferLength(p, history, redownloaded, bufferLastHeight, bufferLastHash, bufferFirstPrevHash);
      ret := ret.(powValidatedHeaders := headers);
      if redownloaded == [] && processAll {
        return;
      } else if fullMessage {
        ret := ret.(requestMore := true);
      }
    }

    method ValidateAndStoreRedownloadedHeader(header: Header) returns (ok: bool)
      requires RedownloadOk() && HistoryOk(p, history) && state == REDOWNLOAD
      modifies this
      ensures state == REDOWNLOAD
      ensures !ok ==> history == old(history)
      ensures ok ==> RedownloadOk() && HistoryOk(p, history)
      ensures ok ==> history == old(history).(accepted := old(history.accepted) + [header])
      ensures ok <==> Storable(p, old(history.presynced), old(history.accepted), header)
    {
      hide Work, Commitments, LastHeader, Linked, Permitted, Reached, CommitCount, Matches, MatchesAt, CommitmentsLeft;
      var nextHeight := bufferLastHeight + 1;
      if header.prev != bufferLastHash { return false; }
      var previousBits := if redownloaded != [] then redownloaded[|redownloaded| - 1].bits else p.start.bits;
      BackBits();
      if !p.permitted(nextHeight, previousBits, header.bits) { return false; }
      AppendBuffer(header);
      SnocChain(p, history.accepted, header);
      redownloadChainWork := (redownloadChainWork + p.proof(header.bits)) % WORK_MODULUS;
      var good := CheckCommitment(header, nextHeight);
      if !good { return false; }
      redownloaded := redownloaded + [Compress(header)];
      bufferLastHeight := nextHeight;
      bufferLastHash := p.hash(header);
      history := history.(accepted := history.accepted + [header]);
      ok := true;
    }

    lemma {:induction false} BackBits()
      requires BufferOk() && (redownloaded == [] ==> history.accepted == [])
      ensures (if redownloaded != [] then redownloaded[|redownloaded| - 1].bits else p.start.bits)
              == LastHeader(p, history.accepted).bits
    {
    }

    lemma {:induction false} AppendBuffer(header: Header)
      requires BufferOk()
      ensures redownloaded + [Compress(header)] == CompressAll((history.accepted + [header])[|history.released|..])
      ensures history.released <= history.accepted + [header]
    {
      var r := |history.released|;
      assert (history.accepted + [header])[r..] == history.accepted[r..] + [header];
    }

    /** Note whether the work is reached, and if not yet, compare the bit of a committed height. */
    method CheckCommitment(header: Header, nextHeight: nat) returns (ok: bool)
      requires CommitmentsOk() && Matches(p, history.presynced, history.accepted)
      requires nextHeight == p.startHeight + |history.accepted| + 1
      requires redownloadChainWork == Work(p, history.accepted + [header])
      modifies this`processAll, this`commitments
      ensures old(processAll) ==> processAll
      ensures ok <==> MatchesAt(p, history.presynced, history.accepted + [header], |history.accepted|)
      ensures ok ==> Matches(p, history.presynced, history.accepted + [header])
      ensures ok ==> CommitmentsLeft(p, history.presynced, history.accepted + [header], processAll, commitments)
    {
      hide Work, Commitments, Reached, Matches;
      ghost var i, first, second := |history.accepted|, history.presynced, history.accepted;
      ReachedSnoc(p, second, header);
      if redownloadChainWork >= p.minimumWork { processAll := true; }
      if !processAll && nextHeight % HEADER_COMMITMENT_PERIOD == p.commitOffset {
        CommitmentsCount(p, first);
        if i < |first| { CountMonotone(p, i, |first|); }
        if commitments == [] { return false; }
        CommitmentAt(p, first, i);
        var commitment := p.saltedBit(p.hash(header));
        var expected := commitments[0];
        commitments := commitments[1..];
        if commitment != expected { return false; }
      }
      MatchesSnoc(p, first, second, header);
      ok := true;
    }

    /** Return what has enough accepted headers after it, or everything once the work is reached. */
    method PopHeadersReadyForAcceptance() returns (ret: seq<Header>)
      requires RedownloadOk() && HistoryOk(p, history) && state == REDOWNLOAD
      modifies this`redownloaded, this`bufferFirstPrevHash, this`history
      ensures BufferOk() && CommitmentsOk() && ReleaseOk() && HistoryOk(p, history)
      ensures history == old(history).(released := old(history.released) + ret)
      ensures |redownloaded| <= REDOWNLOAD_BUFFER_SIZE && (processAll ==> redownloaded == [])
      ensures !processAll && ret != [] ==> |redownloaded| == REDOWNLOAD_BUFFER_SIZE
    {
      hide Work, Commitments, Permitted, Reached, CommitCount, Matches, Linked, LastHeader, Buffered;
      ret := [];
      while |redownloaded| > REDOWNLOAD_BUFFER_SIZE || (|redownloaded| > 0 && processAll)
        invariant BufferOk() && HistoryOk(p, history)
        invariant history == old(history).(released := old(history.released) + ret)
        invariant !processAll && ret != [] ==> |redownloaded| >= REDOWNLOAD_BUFFER_SIZE
        decreases |redownloaded|
      {
        var full := PopFront();
        ret := ret + [full];
      }
      BufferLength(p, history, redownloaded, bufferLastHeight, bufferLastHash, bufferFirstPrevHash);
    }

    /** Decompress the first header of the buffer and release it. */
    method PopFront() returns (full: Header)
      requires BufferOk() && HistoryOk(p, history) && redownloaded != []
      modifies this`redownloaded, this`bufferFirstPrevHash, this`history
      ensures BufferOk() && HistoryOk(p, history) && |redownloaded| == old(|redownloaded|) - 1
      ensures history == old(history).(released := old(history.released) + [full])
    {
      hide Work, Commitments, Permitted, Reached, CommitCount, Matches, Linked, LastHeader;
      FrontHeader(p, history, redownloaded, bufferLastHeight, bufferLastHash, bufferFirstPrevHash);
      full := GetFullHeader(redownloaded[0], bufferFirstPrevHash);
      redownloaded := redownloaded[1..];
      bufferFirstPrevHash := p.hash(full);
      SnocChain(p, history.released, full);
      history := history.(released := history.released + [full]);
    }
  }

  lemma {:induction false} BufferLength(p: Params, h: History, buffer: seq<CompressedHeader>, lastHeight: nat,
      lastHash: nat, firstPrevHash: nat)
    requires Buffered(p, h, buffer, lastHeight, lastHash, firstPrevHash)
    ensures |h.accepted| == |h.released| + |buffer|
  {
  }

  /** The front of the buffer decompresses to the next header to release. */
  lemma {:induction false} FrontHeader(p: Params, h: History, buffer: seq<CompressedHeader>, lastHeight: nat,
      lastHash: nat, firstPrevHash: nat)
    requires Buffered(p, h, buffer, lastHeight, lastHash, firstPrevHash) && Linked(p, h.accepted) && buffer != []
    ensures |h.released| < |h.accepted|
    ensures GetFullHeader(buffer[0], firstPrevHash) == h.accepted[|h.released|]
    ensures buffer[1..] == CompressAll(h.accepted[|h.released| + 1..])
    ensures h.released + [h.accepted[|h.released|]] <= h.accepted
  {
    var r := |h.released|;
    assert h.accepted[..r] == h.released;
    CompressRoundTrip(h.accepted[r], firstPrevHash);
  }

  lemma {:induction false} NoneAccepted(p: Params, h: History)
    requires h.accepted == [] && h.released == []
    ensures HistoryOk(p, h) && !Reached(p, h.accepted, 0) && CommitCount(p, 0) == 0
    ensures Work(p, []) == p.startWork && LastHeader(p, []) == p.start
  {
  }
}
