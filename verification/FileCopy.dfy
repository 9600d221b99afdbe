/**
  The sendfile loop that copies a font, against a kernel that may transfer less than
  it was asked for, be interrupted, or fail.
 */
module FileCopy {

  type Bytes = seq<bv8>

  /** What one sendfile call reports. Sent(0) is an end of file met too early. */
  datatype Reply = Sent(n: nat) | Interrupted | Failed

  const MAX_FONT_FILE_SIZE := 1024 * 1024 * 1024

  /** Bytes that arrive when `remaining` are still wanted; a run cut off counts as failed. */
  function Delivered(replies: seq<Reply>, remaining: nat): (d: nat)
    ensures d <= remaining
    decreases |replies|
  {
    if remaining == 0 || replies == [] then 0
    else match replies[0]
      case Interrupted => Delivered(replies[1..], remaining)
      case Failed => 0
      case Sent(n) =>
        if n == 0 then 0
        else if n < remaining then n + Delivered(replies[1..], remaining - n)
        else remaining
  }

  /** What the target holds after the copy. */
  function CopyContent(source: Bytes, replies: seq<Reply>): (target: Bytes)
    ensures target <= source
  {
    if |source| > MAX_FONT_FILE_SIZE then [] else source[..Delivered(replies, |source|)]
  }

  predicate CopySucceeds(source: Bytes, replies: seq<Reply>)
  {
    |source| <= MAX_FONT_FILE_SIZE && Delivered(replies, |source|) == |source|
  }

  method CopyFileByFd(source: Bytes, replies: seq<Reply>) returns (ok: bool, target: Bytes)
    ensures ok <==> CopySucceeds(source, replies)
    ensures target == CopyContent(source, replies)
    ensures ok ==> target == source
    ensures !ok ==> target <= source && (|source| <= MAX_FONT_FILE_SIZE ==> target < source)
  {
    target := [];
    if |source| > MAX_FONT_FILE_SIZE {
      return false, target;
    }
    var offset, bytesSent, calls := 0, 0, 0;
    while bytesSent < |source|
      invariant 0 <= calls <= |replies|
      invariant 0 <= offset == bytesSent <= |source|
      invariant target == source[..bytesSent]
      invariant Delivered(replies, |source|) == bytesSent + Delivered(replies[calls..], |source| - bytesSent)
      decreases |replies| - calls
    {
      if calls == |replies| {
        return false, target;
      }
      var reply := replies[calls];
      calls := calls + 1;
      assert replies[calls..] == replies[calls - 1..][1..];
      match reply {
        case Interrupted =>
          continue;
        case Failed =>
          return false, target;
        case Sent(n) =>
          var ret := if n < |source| - bytesSent then n else |source| - bytesSent;
          if ret == 0 {
            return false, target;
          }
          target := target + source[offset..offset + ret];
          offset := offset + ret;
          bytesSent := bytesSent + ret;
      }
    }
    return true, target;
  }

  function WithoutInterrupts(replies: seq<Reply>): seq<Reply>
  {
    if replies == [] then []
    else (if replies[0].Interrupted? then [] else [replies[0]]) + WithoutInterrupts(replies[1..])
  }

  /** Interruptions never change what is copied. */
  lemma {:induction false} InterruptsAreInvisible(replies: seq<Reply>, remaining: nat)
    ensures Delivered(replies, remaining) == Delivered(WithoutInterrupts(replies), remaining)
    decreases |replies|
  {
    if replies != [] && remaining > 0 {
      var rest := WithoutInterrupts(replies[1..]);
      match replies[0] {
        case Interrupted =>
          assert WithoutInterrupts(replies) == rest;
          InterruptsAreInvisible(replies[1..], remaining);
        case Failed =>
        case Sent(n) =>
          assert WithoutInterrupts(replies)[1..] == rest;
          if 0 < n < remaining {
            InterruptsAreInvisible(replies[1..], remaining - n);
          }
      }
    }
  }

  /** A copy fails only through a failed call, an early end of file, or too few calls. */
  lemma {:induction false} PatientCopySucceeds(source: Bytes, replies: seq<Reply>)
    requires |source| <= MAX_FONT_FILE_SIZE
    requires forall r :: r in replies ==> r.Sent? && r.n > 0
    requires |replies| >= |source|
    ensures CopySucceeds(source, replies)
  {
    if source != [] && replies[0].n < |source| {
      PatientCopySucceeds(source[replies[0].n..], replies[1..]);
    }
  }

  /** The bytes the kernel is ready to take before it fails or meets an end of file. */
  function Taken(replies: seq<Reply>): nat
  {
    if replies == [] then 0
    else match replies[0]
      case Failed => 0
      case Interrupted => Taken(replies[1..])
      case Sent(n) => if n == 0 then 0 else n + Taken(replies[1..])
  }

  /** A copy succeeds exactly when that reaches the size of the font; else just those bytes have arrived. */
  lemma CopySucceedsExactly(source: Bytes, replies: seq<Reply>)
    requires |source| <= MAX_FONT_FILE_SIZE
    ensures CopySucceeds(source, replies) <==> Taken(replies) >= |source|
    ensures !CopySucceeds(source, replies) ==> CopyContent(source, replies) == source[..Taken(replies)]
  {
    DeliveredExact(replies, |source|);
  }

  lemma {:induction false} DeliveredExact(replies: seq<Reply>, remaining: nat)
    ensures Delivered(replies, remaining) == if Taken(replies) < remaining then Taken(replies) else remaining
    decreases |replies|
  {
    if remaining > 0 && replies != [] {
      match replies[0] {
        case Interrupted => DeliveredExact(replies[1..], remaining);
        case Failed =>
        case Sent(n) =>
          if 0 < n < remaining {
            DeliveredExact(replies[1..], remaining - n);
          }
      }
    }
  }
}
