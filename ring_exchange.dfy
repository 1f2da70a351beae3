/**
 * The MPI ring exchange: every rank fills a message with its own rank and a
 * receive buffer with -1, then in one MPI_Sendrecv sends msgsize integers to
 * the next rank around the ring and receives as many from the previous one.
 * The program runs in two forms, a plain loop over std::vector and a Kokkos
 * parallel_for over Views; both initialise the same contents.
 */
module RingExchange {

  /** The buffer length and the message length, both 100000 in the program. */
  const ArraySize: nat := 100000
  const MsgSize: nat := 100000

  /**
   * The rank a message goes to.  C's % truncates, but both operands are
   * non-negative here, where it agrees with Dafny's.
   */
  function Dst(rank: nat, ntasks: nat): (d: nat)
    requires rank < ntasks
    ensures d < ntasks
    ensures d == if rank == ntasks - 1 then 0 else rank + 1
  {
    (rank + 1) % ntasks
  }

  /** The rank a message comes from. */
  function Src(rank: nat, ntasks: nat): (s: nat)
    requires rank < ntasks
    ensures s < ntasks
    ensures s == if rank == 0 then ntasks - 1 else rank - 1
  {
    (rank - 1 + ntasks) % ntasks
  }

  /** Src undoes Dst and Dst undoes Src: the ring is a permutation of the ranks. */
  lemma RingInverse(rank: nat, ntasks: nat)
    requires rank < ntasks
    ensures Src(Dst(rank, ntasks), ntasks) == rank
    ensures Dst(Src(rank, ntasks), ntasks) == rank
  {
  }

  /** No two ranks send to the same rank. */
  lemma DstInjective(r1: nat, r2: nat, ntasks: nat)
    requires r1 < ntasks && r2 < ntasks
    requires Dst(r1, ntasks) == Dst(r2, ntasks)
    ensures r1 == r2
  {
    RingInverse(r1, ntasks);
    RingInverse(r2, ntasks);
  }

  /** With the guard ntasks >= 2 passed, no rank talks to itself. */
  lemma NoSelfMessages(rank: nat, ntasks: nat)
    requires 2 <= ntasks && rank < ntasks
    ensures Dst(rank, ntasks) != rank && Src(rank, ntasks) != rank
  {
  }

  /** The abort: fewer than two processes stop the program before any exchange. */
  function Admitted(ntasks: nat): (ok: bool)
    requires ntasks >= 1
    ensures ok <==> forall rank: nat :: rank < ntasks ==> Dst(rank, ntasks) != rank
  {
    if ntasks < 2 then assert Dst(0, ntasks) == 0; false else true
  }

  function Filled(n: nat, v: int): (s: seq<int>)
    ensures |s| == n && forall i :: 0 <= i < n ==> s[i] == v
  {
    seq(n, _ => v)
  }

  /** The plain loop over both vectors. */
  method InitBuffers(message: array<int>, receiveBuffer: array<int>, rank: int)
    requires message.Length == receiveBuffer.Length && message != receiveBuffer
    modifies message, receiveBuffer
    ensures message[..] == Filled(message.Length, rank)
    ensures receiveBuffer[..] == Filled(receiveBuffer.Length, -1)
  {
    var i := 0;
    while i < message.Length
      invariant 0 <= i <= message.Length
      invariant forall k :: 0 <= k < i ==> message[k] == rank && receiveBuffer[k] == -1
    {
      message[i] := rank;
      receiveBuffer[i] := -1;
      i := i + 1;
    }
  }

  /** The Kokkos parallel_for over both Views. */
  method InitViews(message: array<int>, receiveBuffer: array<int>, rank: int)
    requires message.Length == receiveBuffer.Length && message != receiveBuffer
    modifies message, receiveBuffer
    ensures message[..] == Filled(message.Length, rank)
    ensures receiveBuffer[..] == Filled(receiveBuffer.Length, -1)
  {
    forall i | 0 <= i < message.Length {
      message[i] := rank;
    }
    forall i | 0 <= i < receiveBuffer.Length {
      receiveBuffer[i] := -1;
    }
  }

  /** The receive buffers of all ranks after the exchange, given their messages and buffers before it. */
  function Exchange(messages: seq<seq<int>>, buffers: seq<seq<int>>, count: nat): (after: seq<seq<int>>)
    requires |messages| == |buffers|
    requires forall r :: 0 <= r < |messages| ==> count <= |messages[r]| && count <= |buffers[r]|
    ensures |after| == |buffers|
  {
    seq(|buffers|, r requires 0 <= r < |buffers| => messages[Src(r, |buffers|)][..count] + buffers[r][count..])
  }

  /** Each rank's message arrives, whole, at Dst of that rank, and the rest of every buffer is untouched. */
  lemma ExchangeDelivers(messages: seq<seq<int>>, buffers: seq<seq<int>>, count: nat, rank: nat)
    requires |messages| == |buffers| && rank < |buffers|
    requires forall r :: 0 <= r < |messages| ==> count <= |messages[r]| && count <= |buffers[r]|
    ensures Exchange(messages, buffers, count)[Dst(rank, |buffers|)][..count] == messages[rank][..count]
    ensures Exchange(messages, buffers, count)[rank][count..] == buffers[rank][count..]
  {
    RingInverse(rank, |buffers|);
  }

  /**
   * The whole ring: every rank initialises its message and buffer (by the
   * loop, or through the Views), then MPI_Sendrecv moves msgsize elements
   * around the ring.  first[r] is the element rank r prints.
   */
  method RunRing(ntasks: nat, views: bool) returns (first: seq<int>)
    requires 2 <= ntasks
    ensures |first| == ntasks
    ensures forall r :: 0 <= r < ntasks ==> first[r] == Src(r, ntasks) && first[r] != r
  {
    var messages: seq<seq<int>> := [];
    var buffers: seq<seq<int>> := [];
    var r := 0;
    while r < ntasks
      invariant 0 <= r <= ntasks && |messages| == r && |buffers| == r
      invariant forall q :: 0 <= q < r ==> messages[q] == Filled(ArraySize, q) && buffers[q] == Filled(ArraySize, -1)
    {
      var message := new int[ArraySize];
      var receiveBuffer := new int[ArraySize];
      if views {
        InitViews(message, receiveBuffer, r);
      } else {
        InitBuffers(message, receiveBuffer, r);
      }
      messages := messages + [message[..]];
      buffers := buffers + [receiveBuffer[..]];
      r := r + 1;
    }
    var after := Exchange(messages, buffers, MsgSize);
    first := seq(ntasks, q requires 0 <= q < ntasks => after[q][0]);
    forall q | 0 <= q < ntasks
      ensures first[q] == Src(q, ntasks) && first[q] != q
    {
      NoSelfMessages(q, ntasks);
      assert after[q][..MsgSize] == messages[Src(q, ntasks)][..MsgSize];
      assert after[q][0] == after[q][..MsgSize][0];
    }
  }
}
