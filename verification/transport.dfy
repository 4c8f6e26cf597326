/**
 * The serial link as the driver sees it: a byte source answering the k-th
 * read with a byte or a transport error, and a byte sink answering the k-th
 * write (or flush) with success or a transport error. Blocking and
 * would-block retries belong to the transport and are not modelled.
 */
module Transport {
  import opened Bytes
  import opened Wrappers
  import opened Errors

  datatype RxEvent = RxByte(b: byte) | RxFault(e: TransportError)

  datatype TxEvent = TxDone | TxFault(e: TransportError)

  /** The outcome of writing bytes one by one until all `n` went out or a write failed. */
  datatype Push = Push(accepted: nat, fault: Option<TransportError>)

  /** Writes `n` bytes starting at sink operation number `pos`, stopping at the first failure. */
  function PushBytes(tx: nat -> TxEvent, pos: nat, n: nat): (p: Push)
    ensures p.fault.None? ==> p.accepted == n
    ensures p.fault.Some? ==> p.accepted < n && tx(pos + p.accepted) == TxFault(p.fault.value)
    decreases n
  {
    if n == 0 then Push(0, None)
    else
      var p := PushBytes(tx, pos, n - 1);
      if p.fault.Some? then p
      else match tx(pos + n - 1)
        case TxDone => Push(n, None)
        case TxFault(e) => Push(n - 1, Some(e))
  }

  /** Every write before the first failure succeeded. */
  lemma {:induction false} PushBytesAccepted(tx: nat -> TxEvent, pos: nat, n: nat, i: nat)
    requires pos <= i < pos + PushBytes(tx, pos, n).accepted
    ensures tx(i) == TxDone
    decreases n
  {
    if i < pos + PushBytes(tx, pos, n - 1).accepted {
      PushBytesAccepted(tx, pos, n - 1, i);
    }
  }

  /** A clean run of writes extends by one when the next write succeeds. */
  lemma PushDone(tx: nat -> TxEvent, pos: nat, i: nat)
    requires PushBytes(tx, pos, i) == Push(i, None) && tx(pos + i) == TxDone
    ensures PushBytes(tx, pos, i + 1) == Push(i + 1, None)
  {
  }

  /** Once a write has failed, writing more changes nothing. */
  lemma {:induction false} PushFaultSticky(tx: nat -> TxEvent, pos: nat, i: nat, n: nat)
    requires i <= n && PushBytes(tx, pos, i).fault.Some?
    ensures PushBytes(tx, pos, n) == PushBytes(tx, pos, i)
    decreases n
  {
    if n > i {
      PushFaultSticky(tx, pos, i, n - 1);
    }
  }
}
