/** The relay's roster code: `accept_new_connection`, `send_to_all_other_clients`,
    `handle_client_activity` and the zeroing loop of `main`, over the array
    `client_socket`. Calls into the socket layer are parameters: `accept`'s result, and
    `recv`'s length and bytes. Every `sendall` of one message to several clients is
    reported as one Batch listing its recipients in the order the sends are issued;
    every `close` is reported by handle. */
module Server {
  import opened Text
  import opened Roster

  const BUFFER_SIZE: nat := 1024

  /** The messages the relay sends, without the peer address that some of them carry. */
  datatype Notice =
    | Joined(handle: int)    // a new client was admitted on socket `handle`
    | TurnedAway             // a new client attempted to join, but the server was full
    | Refused                // "Connection refused: server full."
    | Left(handle: int)      // socket `handle` closed its connection
    | Chat(text: seq<char>)  // a client's message, relayed

  /** One message, sent once to each recipient in turn. */
  datatype Batch = Batch(notice: Notice, to: seq<int>)

  /** The zeroing loop of `main`. */
  method ZeroRoster(a: array<int>)
    modifies a
    ensures a[..] == Zeroed(a.Length)
    ensures RosterOk(a[..]) && Occupied(a[..]) == 0
  {
    var i := 0;
    while i < a.Length
      invariant 0 <= i <= a.Length
      invariant forall k :: 0 <= k < i ==> a[k] == 0
    {
      a[i] := 0;
      i := i + 1;
    }
    assert a[..] == Zeroed(a.Length);
    FirstZeroAt(a[..], 0);
  }

  /** The `maxclient` loop: the length of the occupied prefix. */
  method PrefixLength(a: array<int>) returns (maxclient: nat)
    ensures maxclient == FirstZero(a[..])
    ensures maxclient <= a.Length
    ensures forall i :: 0 <= i < maxclient ==> a[i] != 0
    ensures maxclient < a.Length ==> a[maxclient] == 0
  {
    maxclient := 0;
    while maxclient < a.Length
      invariant maxclient <= a.Length
      invariant forall i :: 0 <= i < maxclient ==> a[i] != 0
    {
      if a[maxclient] != 0 {
        maxclient := maxclient + 1;
      } else {
        break;
      }
    }
    FirstZeroAt(a[..], maxclient);
  }

  /** The send loops: one send to each slot below `bound` that is occupied and whose
      handle is not `excluded`, in slot order. */
  method FanOut(a: array<int>, bound: nat, excluded: int) returns (to: seq<int>)
    requires bound <= a.Length
    ensures to == Recipients(a[..bound], excluded)
    ensures forall h :: h in to <==> h in a[..bound] && h != 0 && h != excluded
  {
    to := [];
    var j := 0;
    while j < bound
      invariant j <= bound
      invariant to == Recipients(a[..j], excluded)
    {
      assert a[..j + 1][..j] == a[..j];
      if a[j] != 0 && a[j] != excluded {
        to := to + [a[j]];
      }
      j := j + 1;
    }
    assert a[..bound] == a[..j];
  }

  /** `accept_new_connection`, with `accepted` what `accept` returned: a fresh positive
      handle, or -1. A full roster (last slot occupied) is left alone: the members hear
      that someone was turned away (only when `accept` succeeded), and the refusal goes to
      the accepted socket, which is closed. Otherwise `accepted`, even -1, is stored in
      the first empty slot and, on success, the members already present are told. */
  method AcceptNewConnection(a: array<int>, accepted: int) returns (sent: seq<Batch>, closed: seq<int>)
    requires a.Length > 0
    requires accepted == -1 || accepted > 0
    modifies a
    ensures a[..] == Admitted(old(a[..]), accepted)
    ensures Full(old(a[..])) ==>
      && closed == [accepted]
      && sent == (if accepted == -1 then [] else [Batch(TurnedAway, Recipients(old(a[..]), 0))])
                 + [Batch(Refused, [accepted])]
    ensures !Full(old(a[..])) ==>
      && closed == []
      && sent == (if accepted == -1 then [] else [Batch(Joined(accepted), Members(old(a[..])))])
  {
    if a[a.Length - 1] != 0 {
      var tempsock := accepted;
      sent := [];
      if tempsock != -1 {
        var to := FanOut(a, a.Length, 0);
        assert a[..a.Length] == a[..];
        sent := [Batch(TurnedAway, to)];
      }
      sent := sent + [Batch(Refused, [tempsock])];
      closed := [tempsock];
      return;
    }
    var maxclient := PrefixLength(a);
    a[maxclient] := accepted;
    sent, closed := [], [];
    if accepted != -1 {
      var to := FanOut(a, maxclient, 0);
      assert a[..maxclient] == Members(old(a[..]));
      RecipientsAll(a[..maxclient], 0);
      sent := [Batch(Joined(accepted), to)];
    }
  }

  /** `send_to_all_other_clients`: the part of `msg` before its first NUL (what `strlen`
      measures) goes to every slot of the occupied prefix that is not `sender`. */
  method SendToAllOtherClients(sender: int, a: array<int>, msg: seq<char>) returns (sent: Batch)
    ensures sent == Batch(Chat(CutAt(msg, NUL)), Recipients(Members(a[..]), sender))
    ensures forall h :: h in sent.to <==> h in Members(a[..]) && h != sender
  {
    var maxclient := PrefixLength(a);
    var to := FanOut(a, maxclient, sender);
    sent := Batch(Chat(CutAt(msg, NUL)), to);
  }

  /** The target-selection loop of `handle_client_activity`. */
  method SelectTarget(a: array<int>, ready: set<int>) returns (target: nat)
    requires a.Length > 0
    ensures target == Target(a[..], ready)
    ensures target < a.Length
    ensures forall i :: 0 <= i < target ==> a[i] !in ready
    ensures (exists i :: 0 <= i < a.Length && a[i] in ready) ==> a[target] in ready
    ensures (forall i :: 0 <= i < a.Length ==> a[i] !in ready) ==> target == 0
  {
    var i := 0;
    target := 0;
    while i < a.Length
      invariant i <= a.Length
      invariant target == 0
      invariant forall k :: 0 <= k < i ==> a[k] !in ready
    {
      if a[i] in ready {
        target := i;
        break;
      }
      i := i + 1;
    }
    assert a[..] == a[..a.Length];
  }

  /** The shifting loop of `handle_client_activity`, which removes slot `target`. */
  method Compact(a: array<int>, target: nat)
    requires target < a.Length
    modifies a
    ensures a[..] == Compacted(old(a[..]), target)
  {
    ghost var s := a[..];
    ghost var z := NextZero(s, target);
    var i := target;
    while i < a.Length
      invariant target <= i < z
      invariant forall k :: 0 <= k < i ==> a[k] == Compacted(s, target)[k]
      invariant forall k :: i <= k < a.Length ==> a[k] == s[k]
    {
      if i < a.Length - 1 {
        a[i] := a[i + 1];
      } else {
        a[i] := 0;
      }
      if a[i] == 0 {
        break;
      }
      i := i + 1;
    }
    assert i == z - 1;
    assert a[..] == Compacted(s, target);
  }

  /** `handle_client_activity` for one call, given the ready set and the result of `recv`
      on the target's socket (`nbytes` in -1..BUFFER_SIZE - 1, with `data` the bytes read).
      A positive read is relayed to the other members; a zero read sends a leave notice to
      every other occupied slot; either zero or negative closes the target and removes its
      slot. Clearing the target in the ready set is left out: the set is the caller's copy
      passed by value, so the change is not seen by anyone. */
  method HandleClientActivity(a: array<int>, ready: set<int>, nbytes: int, data: seq<char>)
      returns (target: nat, sent: seq<Batch>, closed: seq<int>)
    requires a.Length > 0
    requires -1 <= nbytes < BUFFER_SIZE
    requires nbytes >= 0 ==> |data| == nbytes
    modifies a
    ensures target == Target(old(a[..]), ready) && target < a.Length
    ensures nbytes > 0 ==>
      && a[..] == old(a[..])
      && closed == []
      && sent == [Batch(Chat(CutAt(data, NUL)), Recipients(Members(old(a[..])), old(a[target])))]
    ensures nbytes <= 0 ==>
      && a[..] == Compacted(old(a[..]), target)
      && closed == [old(a[target])]
    ensures nbytes == 0 ==> sent == [Batch(Left(old(a[target])), Recipients(old(a[..]), old(a[target])))]
    ensures nbytes < 0 ==> sent == []
  {
    target := SelectTarget(a, ready);
    var handle := a[target];
    if nbytes <= 0 {
      sent := [];
      if nbytes == 0 {
        var to := FanOut(a, a.Length, handle);
        assert a[..a.Length] == a[..];
        sent := [Batch(Left(handle), to)];
      }
      closed := [handle];
      Compact(a, target);
    } else {
      var b := SendToAllOtherClients(handle, a, data);
      sent, closed := [b], [];
    }
  }
}
