/** What one broadcast loop hands to `sendall`, recipient after recipient. Every loop of
    the relay that sends one message to several clients passes the same `&len` to each
    `sendall`, and `sendall` overwrites `*len` with the bytes it managed to send. After a
    failed send, later recipients are therefore offered only a prefix of the message (none
    of it when nothing got through, and then `sendall` returns an uninitialised status). */
module BroadcastLength {
  import opened SendLoop

  /** Each recipient's reply script ends its `sendall` for the length the as-written loop
      hands it. */
  ghost predicate ScriptsEnd(len: nat, scripts: seq<seq<int>>)
    decreases |scripts|
  {
    scripts != [] ==>
      && (len > 0 ==> Drains(len, scripts[0]))
      && ScriptsEnd(if len > 0 then Transfer(len, scripts[0]).sent else 0, scripts[1..])
  }

  /** As written: the length handed to each recipient's `sendall`, in order. */
  function HandedAsWritten(len: nat, scripts: seq<seq<int>>): (r: seq<nat>)
    requires ScriptsEnd(len, scripts)
    ensures |r| == |scripts|
    ensures forall k :: 0 <= k < |r| ==> r[k] <= len
    ensures |r| > 0 ==> r[0] == len
    decreases |scripts|
  {
    if scripts == [] then []
    else if len == 0 then [0] + HandedAsWritten(0, scripts[1..])
    else [len] + HandedAsWritten(Transfer(len, scripts[0]).sent, scripts[1..])
  }

  /** As written, once one recipient's send fails, every later recipient is offered less
      than the whole message. */
  lemma {:induction false} FailureShortensLaterSends(len: nat, scripts: seq<seq<int>>)
    requires 0 < len && ScriptsEnd(len, scripts) && scripts != []
    requires !Transfer(len, scripts[0]).ok
    ensures forall k :: 1 <= k < |scripts| ==> HandedAsWritten(len, scripts)[k] < len
  {
    var rest := HandedAsWritten(Transfer(len, scripts[0]).sent, scripts[1..]);
    assert HandedAsWritten(len, scripts) == [len] + rest;
  }

  /** The input that shows it: two recipients, a 5-byte message, the first send fails at
      once. The second recipient is offered 0 bytes and receives nothing. */
  lemma SecondRecipientOfferedNothing()
    ensures ScriptsEnd(5, [[-1], [5]])
    ensures HandedAsWritten(5, [[-1], [5]]) == [5, 0]
  {
    assert Transfer(5, [-1]).sent == 0;
    assert HandedAsWritten(0, [[5]]) == [0];
  }

  /** As written and corrected agree when no send fails: everyone is offered the message. */
  lemma {:induction false} NoFailureEveryoneOfferedAll(len: nat, scripts: seq<seq<int>>)
    requires 0 < len
    requires forall k :: 0 <= k < |scripts| ==> Drains(len, scripts[k]) && Transfer(len, scripts[k]).ok
    ensures ScriptsEnd(len, scripts)
    ensures forall k :: 0 <= k < |scripts| ==> HandedAsWritten(len, scripts)[k] == len
    decreases |scripts|
  {
    if scripts != [] {
      assert Transfer(len, scripts[0]).sent == len;
      NoFailureEveryoneOfferedAll(len, scripts[1..]);
      assert HandedAsWritten(len, scripts) == [len] + HandedAsWritten(len, scripts[1..]);
    }
  }

  /** Corrected: each recipient's `sendall` is handed the whole message length, so a
      failure towards one recipient does not change what is offered to the others. */
  method FanOutSends(len: nat, scripts: seq<seq<int>>) returns (results: seq<Outcome>)
    requires 0 < len
    requires forall k :: 0 <= k < |scripts| ==> Drains(len, scripts[k])
    ensures |results| == |scripts|
    ensures forall k :: 0 <= k < |scripts| ==> results[k] == Transfer(len, scripts[k])
    ensures forall k :: 0 <= k < |scripts| ==> (results[k].ok <==> results[k].sent == len)
  {
    results := [];
    var j := 0;
    while j < |scripts|
      invariant j <= |scripts|
      invariant |results| == j
      invariant forall k :: 0 <= k < j ==> results[k] == Transfer(len, scripts[k])
    {
      var mylen := len;
      var status, sent, calls := SendAll(mylen, scripts[j]);
      results := results + [Outcome(status == 0, sent, calls)];
      j := j + 1;
    }
  }
}
