# Chat relay roster, fan-out and client message handling

A Dafny model of the roster and fan-out logic of a small TCP chat relay written in C,
and of the client's message handling. The relay keeps its clients in
`int client_socket[MAX_CLIENTS]` (30 slots). A slot holding 0 is empty. Occupied slots
are meant to form a contiguous prefix. The model covers four things:

- admission of a new connection (`accept_new_connection`), which refuses when the last
  slot is occupied;
- the broadcast of a message to every other member (`send_to_all_other_clients`);
- the handling of one ready client (`handle_client_activity`): target selection, relay
  or leave notice, and the compaction that removes the departed slot;
- the zeroing of the roster in `main`.

On the client side it covers the partial-send loop `sendall`, the composition of an
outgoing message (`username: line`), and the classification of a `recv` result.

Files and modules:

- `text.dfy` (`Text`): `CutAt`, the C-string cut used for `strcspn`, `strlen` and `%s`.
- `send_loop.dfy` (`SendLoop`): `sendall`. The relay and the client define it
  identically, so it is modelled once. The kernel's `send` is an oracle: a script of
  replies, each -1 or a byte count between 0 and what is left.
- `roster.dfy` (`Roster`): the roster as `seq<int>`. It holds the specification
  functions (first empty slot, members, recipients of a fan-out, admission, compaction,
  target selection) and the lemmas about them. It ends with the invariant over any run
  of admissions and removals that starts from the zeroed roster.
- `server.dfy` (`Server`): the relay's code over `array<int>`. Each method is proved
  against the `Roster` functions: its `ensures` gives the new array contents and the
  sends it issues. A send of one message to several clients is a `Batch`: the notice
  and the recipients in the order `sendall` is called for them. Every `close` is
  reported by handle.
- `broadcast_length.dfy` (`BroadcastLength`): the byte counts the broadcast loops hand
  to `sendall`, as written and corrected (see "## Findings").
- `client.dfy` (`Client`): `handle_server_message` and `handle_user_input`.

The socket layer is replaced by parameters:

- `accept` returns a fresh positive handle or -1;
- `recv` returns a length in -1..1023, with the bytes read;
- `send` answers from a reply script;
- `select`'s result is a set of descriptors.

A reader might expect a chat relay to behave differently from this code in four places.
The model follows the code:

- One might expect every pair of members to hear about each other joining. The code
  sends a join notice only to members already present. In a capacity-2 run, A, then B,
  B never hears about A (`Roster.CapacityTwo`).
- One might expect a refused connection to concern only the refused socket. When the
  roster is full and `accept` succeeds, the code also tells the members that someone was
  turned away. The refusal goes to the new socket, even when `accept` returned -1.
- One might expect every departure to be announced. The code sends a leave notice only
  after a zero-length read. After a read error the slot is removed silently.
- One might expect a failed send to one recipient to leave the others unaffected. In the
  code, after one failed send the remaining recipients are offered only part of the
  message (see "## Findings").

## Model

| member | source | states |
|---|---|---|
| Text.CutAt | client.c:125 | the result is the longest prefix of the input without the cut character, and the next input character, if any, is that character; without it the input is returned whole |
| SendLoop.Transfer | server.c:16-29 | for a reply script that ends the loop: bytes sent never exceed the length, the loop succeeds exactly when everything was sent, and a failure is the last reply consumed, which is -1 |
| SendLoop.TransferAccounts | server.c:19-26 | the loop stops at the first -1: every reply consumed before it is a byte count between 0 and the length, and the bytes reported are the sum of those counts; on success it stops as soon as the total reaches the length, since before each call it made fewer than that many bytes had gone out |
| SendLoop.SendAll | client.c:18-32 | the `sendall` loop (invariant `total + bytesleft == len`) returns 0 or -1, returns 0 exactly when `*len` ends equal to the original length, never reports more than the original, and agrees with `Transfer` on status, bytes and calls; it returns -1 at the first -1 reply, with `*len` the sum of the counts sent before it; on success it made no call after the total reached the length |
| Roster.FirstIn | server.c:237-243 | the index returned is the first slot whose handle is in the set, or the slot count when there is none |
| Roster.FirstZero | server.c:135-142 | the `maxclient` scan stops at the first empty slot: every slot before it is occupied and it is empty or past the end |
| Roster.FirstZeroAt | server.c:135-142 | those two properties determine the first empty index uniquely |
| Roster.Members | server.c:135-142 | the members are a prefix of the slots, none of them 0, and the slot right after them, if any, is empty |
| Roster.Full | server.c:88-91 | a roster counted full has at least one occupied slot, and a non-empty roster whose every slot is occupied is counted full |
| Roster.OccupiedIsPrefixLength | server.c:135-144 | on a contiguous roster the first zero index equals the number of occupied slots and the member count |
| Roster.FullIffEveryoneIn | server.c:88-91 | on a contiguous roster the last-slot test says "full" exactly when every slot is occupied |
| Roster.Recipients | server.c:207-213 | a handle receives exactly when it is in a scanned slot, is nonzero and differs from the excluded handle |
| Roster.RecipientsAppend | server.c:207-213 | recipients are taken in ascending slot order: the fan-out of a concatenation is the concatenation of the fan-outs |
| Roster.RecipientsAll | server.c:164-170 | a scan of slots that are all occupied and none of them the excluded handle sends to each of them, in order |
| Roster.RecipientsOfPrefix | server.c:255-261 | on a contiguous roster the scan of all slots in the leave notice sends exactly what a scan of the occupied prefix sends |
| Roster.RecipientsDistinct | server.c:207-213 | over distinct handles no recipient is sent to twice |
| Roster.FanOutFromMember | server.c:207-213 | a fan-out from member t of distinct nonzero handles reaches every other member exactly once in slot order (count n-1) and never the sender |
| Roster.Target | server.c:233-243 | the target is the least slot whose handle is ready; when no slot is ready it is slot 0 |
| Roster.Admitted | server.c:88-150 | admission keeps the slot count; a full roster comes back unchanged; otherwise the value `accept` returned, -1 included, is written at the first empty slot, which exists, and every other slot is unchanged |
| Roster.AdmitAppends | server.c:135-150 | admission appends the new handle to the members, writes at the first zero index (= member count), leaves every other slot alone and grows the count by one |
| Roster.AdmitFullUnchanged | server.c:88-133 | a roster with every slot occupied counts as full and admission changes no slot |
| Roster.AdmitKeepsRoster | server.c:135-150 | admitting a fresh positive handle keeps the occupied slots a contiguous prefix of distinct positive handles |
| Roster.FailedAcceptTakesSlot | server.c:150-152 | a failed `accept` stores -1 at the first empty slot, which then counts as a member, and the roster invariant is lost |
| Roster.NextZero | server.c:270-279 | the shifting loop's stop: the first empty slot after the target, or the end |
| Roster.Compacted | server.c:270-279 | the slots before the target are unchanged; from the target each slot takes its right neighbour's value up to the stop; the slot before the stop becomes 0; later slots are untouched |
| Roster.CompactStopsAtCount | server.c:270-279 | on a contiguous roster, removing a member stops the shift at the member count |
| Roster.CompactRemoves | server.c:270-279 | removal of member t: members become the old members without t, in order; the slots before t are kept; the count drops by one; the trailing slots and the last slot are 0 |
| Roster.CompactEmptySlot | server.c:270-279 | compacting at an empty slot of a contiguous roster changes nothing |
| Roster.RemovedOnce | server.c:267-279 | after removal the departed handle is no longer a member |
| Roster.LeaveNoticeReachesRemaining | server.c:254-279 | the leave notice reaches exactly the members that remain after the removal, each once, in slot order |
| Roster.CompactKeepsRoster | server.c:270-279 | removing any slot keeps the roster invariant |
| Roster.Replay | server.c:319-358 | a run of admissions and removals keeps the roster's size |
| Roster.ReplayKeepsRoster | server.c:319-358 | any run of fresh admissions and removals from a valid roster leaves a valid roster |
| Roster.Zeroed | server.c:310-314 | the zeroed roster has no occupied slot |
| Roster.RosterInvariant | server.c:310-314 | from the zeroed roster, any run of fresh positive admissions and removals leaves a contiguous prefix of distinct positive handles, and the number of occupied slots equals the member count |
| Roster.CapacityTwo | server.c:88-150 | with two slots, A and B are admitted in order and C is refused with nothing changed; the members present when A joins are none, and when B joins they are [a] |
| Server.ZeroRoster | server.c:310-314 | every slot becomes 0, which is a valid roster with no members |
| Server.PrefixLength | server.c:135-142 | the `maxclient` loop returns the first empty index |
| Server.FanOut | server.c:207-213 | the send loops issue sends exactly to `Recipients` of the scanned slots, in slot order |
| Server.AcceptNewConnection | server.c:87-175 | the new roster is `Admitted`. When full: members are told of the attempt (only if accept succeeded), the refusal goes to the accepted socket, which is closed. Otherwise: the join notice goes to the members present before admission, and only on success |
| Server.SendToAllOtherClients | server.c:193-215 | the message up to its first NUL goes to exactly the members of the occupied prefix whose handle differs from the sender, in slot order |
| Server.SelectTarget | server.c:237-243 | the target is the least ready slot; if no slot is ready it is 0 |
| Server.Compact | server.c:270-279 | the array afterwards is `Compacted` of the array before |
| Server.HandleClientActivity | server.c:231-288 | a positive read relays the message to the other prefix members and changes nothing else; a zero read sends a leave notice to every other occupied slot; a zero or negative read closes the target and compacts at it; a negative read sends nothing |
| BroadcastLength.HandedAsWritten | server.c:207-213 | as written, the first recipient is handed the message length and no recipient is handed more |
| BroadcastLength.FailureShortensLaterSends | server.c:207-213 | as written, after the first recipient's send fails, every later recipient is handed less than the whole message |
| BroadcastLength.SecondRecipientOfferedNothing | server.c:16-29 | a 5-byte message to two recipients whose first send fails at once: the second is handed 0 bytes |
| BroadcastLength.NoFailureEveryoneOfferedAll | server.c:207-213 | when no send fails, the as-written loop hands every recipient the whole message |
| BroadcastLength.FanOutSends | server.c:207-213 | corrected: each recipient's result is exactly what its own replies give `sendall` for the whole length, independent of the other recipients |
| Client.HandleServerMessage | client.c:87-105 | recv -1 exits with status 1, 0 exits with status 0, a positive count prints the data up to its first NUL, and the printed text fits the buffer with its terminator |
| Client.Compose | client.c:124-131 | the message is the username, then ": ", then the longest newline-free prefix of the line; a line without a newline is kept whole |
| Client.HandleUserInput | client.c:120-141 | the message handed to `sendall` is `Compose(username, line)` with its full length; the status is 0 exactly when every byte went out, and the bytes reported never exceed the length |

## Left out

- Socket setup (`initialize_server`, `initialize_connection`, `getaddrinfo`): operating-system plumbing.
- The readiness wait: `select`, `FD_ZERO`/`FD_SET` and the `max_sd` computation are left out, and the ready set is a parameter. Empty slots put descriptor 0 into the watched set. The model keeps the effect: `Roster.Target` treats an empty slot as ready whenever 0 is in the set.
- `FD_CLR` at server.c:268 is not modelled. It clears a by-value copy of the caller's set, so nothing observes it.
- The step-5 loop of the relay's `main` (server.c:352-358) is not modelled. It calls `handle_client_activity` once per ready slot, but the callee ignores which slot and re-picks the first ready one from an unchanged copy of the set.
- The shutdown code after `while (1)` (server.c:366-371) is not modelled: nothing can reach it.
- Text and output: `printf`/`perror` logging, `inet_ntoa`/`snprintf` text building and `exit`. Notices keep only their kind and the socket number; `exit` becomes `Client.Exit(status)`.
- Server.AcceptNewConnection: the join and "turned away" notices do not carry the peer address; the transient store of the listening socket into the slot (server.c:144) is not modelled, because `accept`'s result overwrites it at once.
- Server.HandleClientActivity: requires `nbytes < BUFFER_SIZE`. A 1024-byte read makes `buf[nbytes]` at server.c:282 write past the buffer, which is undefined behaviour, not behaviour to model.
- Client.HandleUserInput: requires the composed message and its terminator to fit `finalmsg`. The `strcat` overflow at client.c:127-129 is not modelled. The relay's announcement buffers (server.c:106-108, 155-160) are not modelled either, since their text is left out.
- SendLoop.SendAll: requires `len > 0`. With `*len == 0` the loop never runs and the C code returns an uninitialised `n`.
- SendLoop.SendAll: the reply script must end the loop. A `send` that returns 0 forever would make the C loop spin, and that case is not modelled.
- The relay's per-recipient `sendall` results are only logged. A `Batch` lists the recipients a send is issued to; the bytes each recipient is offered are modelled separately in `BroadcastLength`.
- Messages are NUL-free after the cut: `strlen` and `%s` stop at the first NUL, modelled by `CutAt(…, NUL)`. `fgets` at end of input is not modelled.
- The client's main loop (`select` over stdin and the socket) and argument checking.

## Findings

| source | as written | input that shows it | evidently intended | confidence | as-written member | corrected member |
|---|---|---|---|---|---|---|
| server.c:207-213 | every loop that sends one message to several clients passes the same `&len` to each `sendall`, which overwrites it with the bytes actually sent; the same holds at server.c:111-117, 164-170 and 255-261 | a 5-byte message to two recipients whose first `send` returns -1: the second recipient is handed length 0, is sent nothing, and `sendall` returns an uninitialised status | a failed send to one recipient does not change what the others are sent: each `sendall` gets the full message length | high (not executed) | BroadcastLength.SecondRecipientOfferedNothing | BroadcastLength.FanOutSends |
