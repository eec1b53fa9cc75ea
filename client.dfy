/** The chat client's message handling: what it makes of a `recv` result from the relay,
    and how it composes and sends a line the user typed. */
module Client {
  import opened Text
  import opened SendLoop

  const BUFFER_SIZE: nat := 1024

  /** What `handle_server_message` does with one `recv` result. */
  datatype Step =
    | Exit(status: int)       // the socket is closed and the process exits with `status`
    | Show(text: seq<char>)   // `text` is printed and the client carries on

  /** `handle_server_message`, with `numbytes` and `data` the result of
      `recv(sock, msg, BUFFER_SIZE - 1, 0)`. Failure (-1) exits with status 1 before
      anything is written into the buffer; a closed connection (0) exits with status 0; a
      message is printed up to its first NUL. Since `recv` is asked for one byte less than
      the buffer holds, the terminator written at `msg[numbytes]` is inside it. */
  function HandleServerMessage(numbytes: int, data: seq<char>): (step: Step)
    requires -1 <= numbytes <= BUFFER_SIZE - 1
    requires numbytes >= 0 ==> |data| == numbytes
    ensures step == Exit(1) <==> numbytes == -1
    ensures step == Exit(0) <==> numbytes == 0
    ensures step.Show? <==> numbytes > 0
    ensures step.Show? ==> step.text == CutAt(data, NUL) && |step.text| < BUFFER_SIZE
  {
    if numbytes == -1 then Exit(1)
    else if numbytes == 0 then Exit(0)
    else Show(CutAt(data, NUL))
  }

  /** The outgoing message for a typed line: `username`, then ": ", then the line up to its
      first newline. */
  function Compose(username: seq<char>, line: seq<char>): (m: seq<char>)
    ensures |username| + 2 <= |m| <= |username| + 2 + |line|
    ensures m[..|username| + 2] == username + ": "
    ensures m[|username| + 2..] == line[..|m| - |username| - 2]
    ensures NEWLINE !in m[|username| + 2..]
    ensures |m| < |username| + 2 + |line| ==> line[|m| - |username| - 2] == NEWLINE
    ensures NEWLINE !in line ==> m == username + ": " + line
  {
    username + ": " + CutAt(line, NEWLINE)
  }

  /** `handle_user_input`, with `line` what `fgets` stored (NUL-free, shorter than the
      buffer) and `replies` the results of the `send` calls. The message is built in
      `finalmsg` by a copy and two appends, and its full length is handed to `sendall`.
      The message and its terminator must fit `finalmsg`: the source does not check this. */
  method HandleUserInput(username: seq<char>, line: seq<char>, replies: seq<int>)
      returns (finalmsg: seq<char>, status: int, sent: nat)
    requires NUL !in username && NUL !in line
    requires |line| < BUFFER_SIZE
    requires |username| + 2 + |CutAt(line, NEWLINE)| < BUFFER_SIZE
    requires Drains(|username| + 2 + |CutAt(line, NEWLINE)|, replies)
    ensures finalmsg == Compose(username, line)
    ensures NUL !in finalmsg && |finalmsg| < BUFFER_SIZE
    ensures status == 0 || status == -1
    ensures status == 0 <==> sent == |finalmsg|
    ensures sent <= |finalmsg|
    ensures sent == Transfer(|finalmsg|, replies).sent
  {
    var cut := CutAt(line, NEWLINE);
    finalmsg := username;
    finalmsg := finalmsg + ": ";
    finalmsg := finalmsg + cut;
    var len := |finalmsg|;
    var calls;
    status, sent, calls := SendAll(len, replies);
  }
}
