/** The partial-send accounting loop `sendall`, which the relay and the client define
    identically. The kernel's `send` is an oracle: `replies` lists, in order, what the
    successive `send` calls return. */
module SendLoop {

  /** The reply script ends the loop when `left` bytes remain: each reply is either -1
      (failure, the loop stops) or a byte count between 0 and what is still left, and the
      script does not run out before the loop stops. */
  ghost predicate Drains(left: nat, replies: seq<int>)
    decreases |replies|
  {
    left > 0 ==>
      |replies| > 0 &&
      (replies[0] == -1 ||
       (0 <= replies[0] <= left && Drains(left - replies[0], replies[1..])))
  }

  /** The total of the first `j` byte counts of `xs`. */
  function SumTo(xs: seq<int>, j: nat): int
    requires j <= |xs|
  {
    if j == 0 then 0 else SumTo(xs, j - 1) + xs[j - 1]
  }

  /** The number of `send` calls that succeeded: all calls, or all but the last failed one. */
  function Succeeded(o: Outcome): nat
  {
    if o.ok || o.calls == 0 then o.calls else o.calls - 1
  }

  lemma {:induction false} SumToShift(xs: seq<int>, j: nat)
    requires 0 < |xs| && j < |xs|
    ensures SumTo(xs, j + 1) == xs[0] + SumTo(xs[1..], j)
  {
    if j > 0 {
      SumToShift(xs, j - 1);
    }
  }

  /** What the loop reports when `left` bytes remain and `replies` answer the next calls. */
  datatype Outcome = Outcome(ok: bool, sent: nat, calls: nat)

  /** The specification of the loop: how many bytes went out, whether it ended without a
      failed call, and how many replies it consumed. */
  function Transfer(left: nat, replies: seq<int>): (o: Outcome)
    requires Drains(left, replies)
    ensures o.sent <= left
    ensures o.ok <==> o.sent == left
    ensures o.calls <= |replies|
    ensures !o.ok ==> 0 < o.calls && replies[o.calls - 1] == -1
    ensures left > 0 ==> 0 < o.calls
    decreases |replies|
  {
    if left == 0 then Outcome(true, 0, 0)
    else if replies[0] == -1 then Outcome(false, 0, 1)
    else
      var rest := Transfer(left - replies[0], replies[1..]);
      Outcome(rest.ok, replies[0] + rest.sent, rest.calls + 1)
  }

  /** The loop stops at the first -1: every reply before it is a byte count, and the bytes
      reported are the sum of those counts. On success it stops as soon as everything is
      sent: before each call it made, fewer than `left` bytes had gone out. */
  lemma {:induction false} TransferAccounts(left: nat, replies: seq<int>)
    requires Drains(left, replies)
    ensures forall i :: 0 <= i < Succeeded(Transfer(left, replies)) ==> 0 <= replies[i] <= left
    ensures Transfer(left, replies).sent == SumTo(replies, Succeeded(Transfer(left, replies)))
    ensures Transfer(left, replies).ok ==>
              forall j :: 0 <= j < Transfer(left, replies).calls ==> SumTo(replies, j) < left
    decreases |replies|
  {
    if left > 0 && replies[0] != -1 {
      var rest := Transfer(left - replies[0], replies[1..]);
      TransferAccounts(left - replies[0], replies[1..]);
      SumToShift(replies, Succeeded(rest));
      assert Succeeded(Transfer(left, replies)) == Succeeded(rest) + 1;
      forall i | 1 <= i < Succeeded(rest) + 1 ensures 0 <= replies[i] <= left {
        assert replies[i] == replies[1..][i - 1];
      }
      if rest.ok {
        forall j | 0 < j < rest.calls + 1 ensures SumTo(replies, j) < left {
          SumToShift(replies, j - 1);
        }
      }
    }
  }

  /** `sendall(s, buf, &len)`: returns the status (0 or -1) and the new value of `*len`.
      `len` must be positive: with `len == 0` the loop never runs and the source returns
      an uninitialised `n`. */
  method SendAll(len: nat, replies: seq<int>) returns (status: int, sent: nat, calls: nat)
    requires 0 < len
    requires Drains(len, replies)
    ensures status == 0 || status == -1
    ensures status == 0 <==> sent == len
    ensures sent <= len
    ensures Outcome(status == 0, sent, calls) == Transfer(len, replies)
    ensures forall i :: 0 <= i < Succeeded(Outcome(status == 0, sent, calls)) ==> 0 <= replies[i]
    ensures status == -1 ==> replies[calls - 1] == -1
    ensures sent == SumTo(replies, Succeeded(Outcome(status == 0, sent, calls)))
    ensures status == 0 ==> forall j :: 0 <= j < calls ==> SumTo(replies, j) < len
  {
    var total: nat := 0;
    var bytesleft: nat := len;
    var n: int := 0;  // always assigned by the first iteration, since len > 0
    var k: nat := 0;
    while total < len
      invariant k <= |replies|
      invariant total + bytesleft == len
      invariant Drains(bytesleft, replies[k..])
      invariant n != -1
      invariant var t := Transfer(bytesleft, replies[k..]);
                Transfer(len, replies) == Outcome(t.ok, total + t.sent, k + t.calls)
      decreases |replies| - k
    {
      n := replies[k];
      k := k + 1;
      if n == -1 {
        assert Transfer(bytesleft, replies[k - 1..]) == Outcome(false, 0, 1);
        break;
      }
      assert replies[k - 1..][1..] == replies[k..];
      total := total + n;
      bytesleft := bytesleft - n;
    }
    sent := total;
    calls := k;
    status := if n == -1 then -1 else 0;
    TransferAccounts(len, replies);
  }
}
