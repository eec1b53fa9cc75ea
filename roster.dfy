/** The relay's roster, `int client_socket[MAX_CLIENTS]`, seen as a sequence of handles.
    A slot holding 0 is empty; every other value is treated as an occupied slot. The
    functions here specify what the array code in module Server does to it, and the
    lemmas state the roster's invariants. */
module Roster {

  const MAX_CLIENTS: nat := 30

  /** Index of the first slot whose handle is in `xs`, or |s| when there is none. */
  function FirstIn(s: seq<int>, xs: set<int>): (k: nat)
    ensures k <= |s|
    ensures forall i :: 0 <= i < k ==> s[i] !in xs
    ensures k < |s| ==> s[k] in xs
  {
    if s == [] || s[0] in xs then 0 else 1 + FirstIn(s[1..], xs)
  }

  /** Index of the first empty slot, or |s| when every slot is occupied. */
  function FirstZero(s: seq<int>): (k: nat)
    ensures k <= |s|
    ensures forall i :: 0 <= i < k ==> s[i] != 0
    ensures k < |s| ==> s[k] == 0
  {
    FirstIn(s, {0})
  }

  /** The two properties of FirstZero determine it. */
  lemma FirstZeroAt(s: seq<int>, k: nat)
    requires k <= |s|
    requires forall i :: 0 <= i < k ==> s[i] != 0
    requires k < |s| ==> s[k] == 0
    ensures FirstZero(s) == k
  {
  }

  /** The occupied prefix: every slot before the first empty one. */
  function Members(s: seq<int>): (m: seq<int>)
    ensures m <= s
    ensures forall i :: 0 <= i < |m| ==> m[i] != 0
    ensures |m| < |s| ==> s[|m|] == 0
  {
    s[..FirstZero(s)]
  }

  /** Number of occupied (nonzero) slots anywhere in the roster. */
  function Occupied(s: seq<int>): (n: nat)
    ensures n <= |s|
    ensures n == 0 <==> forall i :: 0 <= i < |s| ==> s[i] == 0
  {
    if s == [] then 0
    else Occupied(s[..|s| - 1]) + (if s[|s| - 1] != 0 then 1 else 0)
  }

  /** Occupied slots form a contiguous prefix: nothing after the first empty slot is occupied. */
  ghost predicate Contiguous(s: seq<int>)
  {
    forall i :: FirstZero(s) <= i < |s| ==> s[i] == 0
  }

  ghost predicate Distinct(s: seq<int>)
  {
    forall i, j :: 0 <= i < j < |s| ==> s[i] != s[j]
  }

  /** The roster invariant when every accept succeeds: a contiguous prefix of distinct
      positive handles. */
  ghost predicate RosterOk(s: seq<int>)
  {
    && Contiguous(s)
    && Distinct(Members(s))
    && forall i :: 0 <= i < FirstZero(s) ==> s[i] > 0
  }

  /** `accept_new_connection` calls the roster full when its last slot is occupied. */
  predicate Full(s: seq<int>): (b: bool)
    ensures b ==> 0 < Occupied(s)
    ensures 0 < |s| == Occupied(s) ==> b
  {
    |s| > 0 && s[|s| - 1] != 0
  }

  lemma {:induction false} OccupiedAppend(a: seq<int>, b: seq<int>)
    ensures Occupied(a + b) == Occupied(a) + Occupied(b)
    decreases |b|
  {
    if b == [] {
      assert a + b == a;
    } else {
      assert (a + b)[..|a + b| - 1] == a + b[..|b| - 1];
      OccupiedAppend(a, b[..|b| - 1]);
    }
  }

  lemma {:induction false} OccupiedAllNonzero(s: seq<int>)
    requires forall i :: 0 <= i < |s| ==> s[i] != 0
    ensures Occupied(s) == |s|
    decreases |s|
  {
    if s != [] {
      OccupiedAllNonzero(s[..|s| - 1]);
    }
  }

  /** On a contiguous roster the first empty index is the number of occupied slots, so
      "append at the first zero" is "append at the member count". */
  lemma OccupiedIsPrefixLength(s: seq<int>)
    requires Contiguous(s)
    ensures Occupied(s) == FirstZero(s) == |Members(s)|
  {
    var n := FirstZero(s);
    assert s == s[..n] + s[n..];
    OccupiedAppend(s[..n], s[n..]);
    OccupiedAllNonzero(s[..n]);
  }

  /** On a contiguous roster, "last slot occupied" means "every slot occupied". */
  lemma FullIffEveryoneIn(s: seq<int>)
    requires Contiguous(s) && |s| > 0
    ensures Full(s) <==> Occupied(s) == |s|
    ensures Full(s) <==> FirstZero(s) == |s|
  {
    OccupiedIsPrefixLength(s);
  }

  // ---------------------------------------------------------------------------
  // Recipients of a fan-out

  /** The handles a send is issued to by a loop over the slots of `s` that skips empty
      slots and the handle `excluded`, in slot order. */
  function Recipients(s: seq<int>, excluded: int): (r: seq<int>)
    ensures |r| <= |s|
    ensures forall h :: h in r <==> h in s && h != 0 && h != excluded
  {
    if s == [] then []
    else
      var rest := Recipients(s[..|s| - 1], excluded);
      var last := s[|s| - 1];
      assert s == s[..|s| - 1] + [last];
      if last != 0 && last != excluded then rest + [last] else rest
  }

  /** Recipients are taken in slot order: the fan-out of a concatenation is the
      concatenation of the fan-outs. */
  lemma {:induction false} RecipientsAppend(a: seq<int>, b: seq<int>, x: int)
    ensures Recipients(a + b, x) == Recipients(a, x) + Recipients(b, x)
    decreases |b|
  {
    if b == [] {
      assert a + b == a;
    } else {
      assert (a + b)[..|a + b| - 1] == a + b[..|b| - 1];
      RecipientsAppend(a, b[..|b| - 1], x);
    }
  }

  /** A fan-out over slots that are all occupied and never the excluded handle reaches
      every one of them, in order. */
  lemma {:induction false} RecipientsAll(u: seq<int>, x: int)
    requires forall i :: 0 <= i < |u| ==> u[i] != 0 && u[i] != x
    ensures Recipients(u, x) == u
    decreases |u|
  {
    if u != [] {
      RecipientsAll(u[..|u| - 1], x);
      assert u == u[..|u| - 1] + [u[|u| - 1]];
    }
  }

  lemma {:induction false} RecipientsOfEmpty(z: seq<int>, x: int)
    requires forall i :: 0 <= i < |z| ==> z[i] == 0
    ensures Recipients(z, x) == []
    decreases |z|
  {
    if z != [] {
      RecipientsOfEmpty(z[..|z| - 1], x);
    }
  }

  /** On a contiguous roster a scan of every slot and a scan of the occupied prefix
      issue the same sends. */
  lemma RecipientsOfPrefix(s: seq<int>, x: int)
    requires Contiguous(s)
    ensures Recipients(s, x) == Recipients(Members(s), x)
  {
    var n := FirstZero(s);
    assert s == s[..n] + s[n..];
    RecipientsAppend(s[..n], s[n..], x);
    RecipientsOfEmpty(s[n..], x);
  }

  lemma {:induction false} RecipientsDistinct(s: seq<int>, x: int)
    requires Distinct(s)
    ensures Distinct(Recipients(s, x))
    decreases |s|
  {
    if s != [] {
      var init := s[..|s| - 1];
      RecipientsDistinct(init, x);
      assert s[|s| - 1] !in init;
    }
  }

  /** Fan-out from a member of a roster of distinct handles: every other member receives
      exactly once, in slot order, and the sender does not. */
  lemma FanOutFromMember(m: seq<int>, t: nat)
    requires Distinct(m) && t < |m|
    requires forall i :: 0 <= i < |m| ==> m[i] != 0
    ensures Recipients(m, m[t]) == m[..t] + m[t + 1..]
    ensures |Recipients(m, m[t])| == |m| - 1
    ensures m[t] !in Recipients(m, m[t])
    ensures Distinct(Recipients(m, m[t]))
  {
    var x := m[t];
    assert m == m[..t] + [x] + m[t + 1..];
    RecipientsAppend(m[..t] + [x], m[t + 1..], x);
    RecipientsAppend(m[..t], [x], x);
    RecipientsAll(m[..t], x);
    RecipientsAll(m[t + 1..], x);
    assert Recipients([x], x) == [] by {
      assert [x][..0] == [];
    }
    RecipientsDistinct(m, x);
  }

  // ---------------------------------------------------------------------------
  // Target selection

  /** The slot `handle_client_activity` serves: the first one whose handle is ready, or
      slot 0 when none is. An empty slot holds 0, so it counts as ready whenever
      descriptor 0 is. */
  function Target(s: seq<int>, ready: set<int>): (t: nat)
    ensures t <= |s| && (|s| > 0 ==> t < |s|)
    ensures forall i :: 0 <= i < t ==> s[i] !in ready
    ensures (exists i :: 0 <= i < |s| && s[i] in ready) ==> s[t] in ready
    ensures (forall i :: 0 <= i < |s| ==> s[i] !in ready) ==> t == 0
  {
    var k := FirstIn(s, ready);
    if k < |s| then k else 0
  }

  // ---------------------------------------------------------------------------
  // Admission

  /** The roster after `accept_new_connection` with `accepted` the value `accept` returned
      (a fresh positive handle, or -1 on failure, which is stored all the same). */
  function Admitted(s: seq<int>, accepted: int): (r: seq<int>)
    requires |s| > 0
    ensures |r| == |s|
    ensures Full(s) ==> r == s
    ensures !Full(s) ==> FirstZero(s) < |s| && r[FirstZero(s)] == accepted
    ensures !Full(s) ==> forall i :: 0 <= i < |s| && i != FirstZero(s) ==> r[i] == s[i]
  {
    if Full(s) then s else s[FirstZero(s) := accepted]
  }

  // Helpers for AdmitAppends, which states their facts together.

  lemma AdmitWritesAtCount(s: seq<int>, accepted: int)
    requires Contiguous(s) && |s| > 0 && !Full(s)
    ensures FirstZero(s) == Occupied(s) < |s|
    ensures Admitted(s, accepted)[Occupied(s)] == accepted
    ensures forall i :: 0 <= i < |s| && i != Occupied(s) ==> Admitted(s, accepted)[i] == s[i]
  {
    OccupiedIsPrefixLength(s);
  }

  lemma AdmitExtendsPrefix(s: seq<int>, accepted: int)
    requires Contiguous(s) && |s| > 0 && !Full(s)
    requires accepted != 0
    ensures FirstZero(Admitted(s, accepted)) == FirstZero(s) + 1
    ensures Members(Admitted(s, accepted)) == Members(s) + [accepted]
    ensures Contiguous(Admitted(s, accepted))
  {
    var n := FirstZero(s);
    var r := s[n := accepted];
    assert n + 1 < |r| ==> r[n + 1] == 0;
    FirstZeroAt(r, n + 1);
    assert r[..n + 1] == s[..n] + [accepted];
  }

  /** Admission to a contiguous roster that is not full writes at the member count,
      changes no other slot, and appends the new value to the members. */
  lemma AdmitAppends(s: seq<int>, accepted: int)
    requires Contiguous(s) && |s| > 0 && !Full(s)
    requires accepted != 0
    ensures FirstZero(s) == Occupied(s) < |s|
    ensures Admitted(s, accepted)[Occupied(s)] == accepted
    ensures forall i :: 0 <= i < |s| && i != Occupied(s) ==> Admitted(s, accepted)[i] == s[i]
    ensures Members(Admitted(s, accepted)) == Members(s) + [accepted]
    ensures Contiguous(Admitted(s, accepted))
    ensures Occupied(Admitted(s, accepted)) == Occupied(s) + 1
  {
    AdmitWritesAtCount(s, accepted);
    AdmitExtendsPrefix(s, accepted);
    OccupiedIsPrefixLength(Admitted(s, accepted));
  }

  /** A full roster refuses: every slot is left as it was. */
  lemma AdmitFullUnchanged(s: seq<int>, accepted: int)
    requires Contiguous(s) && |s| > 0 && Occupied(s) == |s|
    ensures Full(s) && Admitted(s, accepted) == s
  {
    FullIffEveryoneIn(s);
  }

  /** Admitting a fresh positive handle keeps the roster invariant. */
  lemma AdmitKeepsRoster(s: seq<int>, h: int)
    requires RosterOk(s) && |s| > 0
    requires h > 0 && h !in Members(s)
    ensures RosterOk(Admitted(s, h))
  {
    if !Full(s) {
      AdmitAppends(s, h);
      var m := Members(Admitted(s, h));
      assert m == Members(s) + [h];
      assert forall i :: 0 <= i < |m| - 1 ==> m[i] == Members(s)[i];
    }
  }

  /** A failed `accept` still takes the first empty slot, storing -1 there: the slot
      counts as occupied from then on and the roster invariant no longer holds. */
  lemma FailedAcceptTakesSlot(s: seq<int>)
    requires RosterOk(s) && |s| > 0 && !Full(s)
    ensures Members(Admitted(s, -1)) == Members(s) + [-1]
    ensures !RosterOk(Admitted(s, -1))
  {
    AdmitAppends(s, -1);
    var r := Admitted(s, -1);
    assert r[FirstZero(s)] == -1;
    assert FirstZero(s) < FirstZero(r);
  }

  // ---------------------------------------------------------------------------
  // Removal

  /** The first empty slot strictly after `t`, or |s|. */
  function NextZero(s: seq<int>, t: nat): (z: nat)
    requires t < |s|
    ensures t < z <= |s|
    ensures forall k :: t < k < z ==> s[k] != 0
    ensures z < |s| ==> s[z] == 0
  {
    t + 1 + FirstZero(s[t + 1..])
  }

  /** The roster after the shifting loop of `handle_client_activity` removes slot `t`: each
      slot from `t` on takes its right neighbour's value until a 0 has been copied (the
      last slot takes 0), and the slots after that stop are untouched. */
  function Compacted(s: seq<int>, t: nat): (r: seq<int>)
    requires t < |s|
    ensures |r| == |s|
    ensures forall k :: 0 <= k < t ==> r[k] == s[k]
    ensures forall k :: t <= k < NextZero(s, t) - 1 ==> r[k] == s[k + 1]
    ensures r[NextZero(s, t) - 1] == 0
    ensures forall k :: NextZero(s, t) <= k < |s| ==> r[k] == s[k]
  {
    var z := NextZero(s, t);
    s[..t] + s[t + 1..z] + [0] + s[z..]
  }

  /** On a contiguous roster the shifting loop started at a member stops at the member count. */
  lemma CompactStopsAtCount(s: seq<int>, t: nat)
    requires Contiguous(s) && t < FirstZero(s)
    ensures NextZero(s, t) == FirstZero(s)
  {
  }

  // Helpers for CompactRemoves, which states their facts together.

  lemma CompactClearsTail(s: seq<int>, t: nat)
    requires Contiguous(s) && t < FirstZero(s)
    ensures forall k :: FirstZero(s) - 1 <= k < |s| ==> Compacted(s, t)[k] == 0
    ensures FirstZero(Compacted(s, t)) == FirstZero(s) - 1
    ensures Contiguous(Compacted(s, t))
  {
    CompactStopsAtCount(s, t);
    var r := Compacted(s, t);
    forall k | FirstZero(s) - 1 <= k < |s| ensures r[k] == 0 {
    }
    FirstZeroAt(r, FirstZero(s) - 1);
  }

  lemma CompactDeletesMember(s: seq<int>, t: nat)
    requires Contiguous(s) && t < FirstZero(s)
    ensures Compacted(s, t)[..t] == s[..t]
    ensures Members(Compacted(s, t)) == Members(s)[..t] + Members(s)[t + 1..]
  {
    CompactStopsAtCount(s, t);
    CompactClearsTail(s, t);
    var n, r := FirstZero(s), Compacted(s, t);
    assert r == s[..t] + s[t + 1..n] + [0] + s[n..];
    assert Members(r) == r[..n - 1];
  }

  /** Removing member `t` of a contiguous roster deletes it from the members, keeps the
      others in order, leaves the slots before it alone and clears the rest. */
  lemma CompactRemoves(s: seq<int>, t: nat)
    requires Contiguous(s) && t < FirstZero(s)
    ensures Compacted(s, t)[..t] == s[..t]
    ensures Members(Compacted(s, t)) == Members(s)[..t] + Members(s)[t + 1..]
    ensures Contiguous(Compacted(s, t))
    ensures FirstZero(Compacted(s, t)) == FirstZero(s) - 1
    ensures Occupied(Compacted(s, t)) == Occupied(s) - 1
    ensures forall k :: FirstZero(s) - 1 <= k < |s| ==> Compacted(s, t)[k] == 0
    ensures Compacted(s, t)[|s| - 1] == 0
  {
    CompactClearsTail(s, t);
    CompactDeletesMember(s, t);
    OccupiedIsPrefixLength(s);
    OccupiedIsPrefixLength(Compacted(s, t));
  }

  /** Removing an empty slot of a contiguous roster changes nothing. */
  lemma CompactEmptySlot(s: seq<int>, t: nat)
    requires Contiguous(s) && FirstZero(s) <= t < |s|
    ensures Compacted(s, t) == s
  {
    var z := NextZero(s, t);
    assert z == t + 1 by {
      if t + 1 < |s| { assert s[t + 1] == 0; }
    }
  }

  /** After removing member `t` of a roster of distinct handles its handle is gone. */
  lemma RemovedOnce(s: seq<int>, t: nat)
    requires RosterOk(s) && t < FirstZero(s)
    ensures s[t] !in Members(Compacted(s, t))
  {
    CompactRemoves(s, t);
    var m := Members(s);
    var m' := Members(Compacted(s, t));
    assert m' == m[..t] + m[t + 1..];
    forall i | 0 <= i < |m'| ensures m'[i] != m[t] {
      if i < t { assert m'[i] == m[i]; } else { assert m'[i] == m[i + 1]; }
    }
  }

  /** The leave notice of `handle_client_activity` reaches exactly the members that remain
      after the removal, each once and in slot order. */
  lemma LeaveNoticeReachesRemaining(s: seq<int>, t: nat)
    requires RosterOk(s) && t < FirstZero(s)
    ensures Recipients(s, s[t]) == Members(Compacted(s, t))
  {
    RecipientsOfPrefix(s, s[t]);
    FanOutFromMember(Members(s), t);
    CompactRemoves(s, t);
  }

  // Helper for CompactKeepsRoster.
  lemma DeleteKeepsDistinct(m: seq<int>, t: nat)
    requires Distinct(m) && t < |m|
    ensures Distinct(m[..t] + m[t + 1..])
  {
    var m' := m[..t] + m[t + 1..];
    assert forall i :: 0 <= i < |m'| ==> m'[i] == if i < t then m[i] else m[i + 1];
  }

  /** Removing any slot keeps the roster invariant. */
  lemma CompactKeepsRoster(s: seq<int>, t: nat)
    requires RosterOk(s) && t < |s|
    ensures RosterOk(Compacted(s, t))
  {
    if t < FirstZero(s) {
      CompactRemoves(s, t);
      var m := Members(s);
      var m' := Members(Compacted(s, t));
      assert m' == m[..t] + m[t + 1..];
      DeleteKeepsDistinct(m, t);
    } else {
      CompactEmptySlot(s, t);
    }
  }

  // ---------------------------------------------------------------------------
  // Any run of admissions and removals from the zeroed roster

  datatype Event =
    | Connect(accepted: int)  // the listening socket was ready and `accept` returned `accepted`
    | Drop(slot: nat)         // the client in `slot` was removed after a read of length <= 0

  function Replay(s: seq<int>, events: seq<Event>): (r: seq<int>)
    requires |s| > 0
    ensures |r| == |s|
    decreases |events|
  {
    if events == [] then s
    else match events[0]
      case Connect(h) => Replay(Admitted(s, h), events[1..])
      case Drop(t) => Replay(if t < |s| then Compacted(s, t) else s, events[1..])
  }

  /** Every accept in the run succeeded with a handle not already in use. */
  ghost predicate FreshAccepts(s: seq<int>, events: seq<Event>)
    requires |s| > 0
    decreases |events|
  {
    events != [] ==>
      match events[0]
      case Connect(h) => h > 0 && h !in Members(s) && FreshAccepts(Admitted(s, h), events[1..])
      case Drop(t) => FreshAccepts(if t < |s| then Compacted(s, t) else s, events[1..])
  }

  lemma {:induction false} ReplayKeepsRoster(s: seq<int>, events: seq<Event>)
    requires |s| > 0 && RosterOk(s) && FreshAccepts(s, events)
    ensures RosterOk(Replay(s, events))
    decreases |events|
  {
    if events != [] {
      match events[0]
      case Connect(h) =>
        AdmitKeepsRoster(s, h);
        ReplayKeepsRoster(Admitted(s, h), events[1..]);
      case Drop(t) =>
        if t < |s| { CompactKeepsRoster(s, t); }
        ReplayKeepsRoster(if t < |s| then Compacted(s, t) else s, events[1..]);
    }
  }

  /** The roster `main` starts from. */
  function Zeroed(n: nat): (s: seq<int>)
    ensures |s| == n && Occupied(s) == 0
  {
    seq(n, i => 0)
  }

  /** From the zeroed roster, any run of fresh admissions and removals leaves a contiguous
      prefix of distinct positive handles, and the number of occupied slots is the
      member count. */
  lemma RosterInvariant(events: seq<Event>)
    requires FreshAccepts(Zeroed(MAX_CLIENTS), events)
    ensures RosterOk(Replay(Zeroed(MAX_CLIENTS), events))
    ensures Occupied(Replay(Zeroed(MAX_CLIENTS), events)) <= MAX_CLIENTS
    ensures Occupied(Replay(Zeroed(MAX_CLIENTS), events))
            == |Members(Replay(Zeroed(MAX_CLIENTS), events))|
  {
    var z := Zeroed(MAX_CLIENTS);
    FirstZeroAt(z, 0);
    ReplayKeepsRoster(z, events);
    OccupiedIsPrefixLength(Replay(z, events));
  }

  /** Capacity 2: after A and B are admitted the roster is full and C is refused. The
      join notice for A goes to nobody and the one for B goes to A only, so B never hears
      about A. */
  lemma CapacityTwo(a: int, b: int, c: int)
    requires a > 0 && b > 0 && a != b
    ensures Members(Zeroed(2)) == []
    ensures Admitted(Zeroed(2), a) == [a, 0] && Members([a, 0]) == [a]
    ensures Admitted([a, 0], b) == [a, b] && Full([a, b])
    ensures Admitted([a, b], c) == [a, b]
  {
    FirstZeroAt(Zeroed(2), 0);
    FirstZeroAt([a, 0], 1);
  }
}
