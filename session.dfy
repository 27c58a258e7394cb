/**
 * A client session over the control connection: the 220 greeting check in
 * `main`, `authenticate`, `get` and `quit`, in the two variants of the
 * client. The server is a script of `recv` results on the control socket,
 * the keyboard a list of `read_input` results (None where it returns NULL),
 * the local directory a map from names to contents, and everything the
 * client does on the wire or the disk is appended to a trace.
 */
module Session {
  import opened Wrappers
  import opened Scan
  import opened Replies
  import opened Commands
  import opened PortArgs
  import opened SizeReply
  import opened Transfer

  /** Before the greeting, logging in, taking operations, after `quit`, or gone through `errx`. */
  datatype Phase = Connected | Authenticating | Ready | Terminated | Exited

  /**
   * What the client visibly does: a `send_msg(sd, op, param)` call, whose
   * buffer on the wire is `Frame(op, param)`; a file opened for writing; a
   * data connection accepted.
   */
  datatype Event = Sent(op: string, param: Option<string>) | Opened(name: string) | Accepted

  /** How a `get` ends: refused by the server, the program exited on a closed connection, or the transfer ran and the 226 check gave `confirmed`. */
  datatype GetResult = Rejected | Lost | Done(confirmed: bool)

  /** The element at `i`, or `absent` past the end. */
  function At<T>(s: seq<T>, i: nat, absent: T): T {
    if i < |s| then s[i] else absent
  }

  /** All but the first `n` elements. */
  function Drop<T>(s: seq<T>, n: nat): seq<T> {
    if n <= |s| then s[n..] else []
  }

  lemma DropDrop<T>(s: seq<T>, m: nat, n: nat)
    ensures Drop(Drop(s, m), n) == Drop(s, m + n)
  {
  }

  lemma AtDrop<T>(s: seq<T>, n: nat, i: nat, absent: T)
    ensures At(Drop(s, n), i, absent) == At(s, n + i, absent)
  {
  }

  /** The `i`-th control read; once the script is over the peer has closed the connection. */
  function ReadAt(rs: seq<Read>, i: nat): Read {
    At(rs, i, Closed)
  }

  /** The `i`-th keyboard line; once the input is over `read_input` returns NULL. */
  function LineAt(lines: seq<Option<string>>, i: nat): Option<string> {
    At(lines, i, None)
  }

  /** A four-letter command name, as `send_msg` expects. */
  predicate Command(op: string) {
    |op| == 4 && CStr(op)
  }

  /**
   * What `read_input` can return as written: NULL, or the first token of a
   * `fgets` line read into a BUFSIZE buffer, so at most BUFSIZE - 1
   * characters, none a newline or a NUL.
   */
  predicate FgetsLine(line: Option<string>) {
    line.Some? ==> line.value != [] && |line.value| <= BUFSIZE - 1 && '\n' !in line.value && CStr(line.value)
  }

  /**
   * What `read_input` would return once limited so that a command built from
   * the line fits `send_msg`'s buffer: the same, at most BUFSIZE - 8 long.
   */
  predicate InputLine(line: Option<string>) {
    line.Some? ==> line.value != [] && |line.value| <= BUFSIZE - 8 && '\n' !in line.value && CStr(line.value)
  }

  /** Every keyboard line is one `read_input` can return. */
  predicate AllInput(lines: seq<Option<string>>) {
    forall i :: 0 <= i < |lines| ==> InputLine(lines[i])
  }

  /** A line of 505 letters. */
  function LongLine(): string {
    seq(505, _ => 'a')
  }

  /**
   * As written, `read_input` hands out lines whose USER command does not fit
   * the 512-byte buffer `sprintf` writes into.
   */
  lemma FgetsLineOverflows()
    ensures FgetsLine(Some(LongLine())) && !Fits("USER", Some(LongLine()))
  {
    assert forall i :: 0 <= i < |LongLine()| ==> LongLine()[i] == 'a';
  }

  /** With the limited read, every command built from a line fits, and only such lines are lines at all. */
  lemma InputLineFits(op: string, line: Option<string>)
    requires Command(op) && InputLine(line)
    ensures Fits(op, line) && FgetsLine(line)
  {
  }

  /** The first `k` keyboard lines, NULL past the end of the input. */
  function Inputs(lines: seq<Option<string>>, k: nat): (p: seq<Option<string>>)
    ensures |p| == k && forall i :: 0 <= i < k ==> p[i] == LineAt(lines, i)
  {
    seq(k, i requires 0 <= i < k => LineAt(lines, i))
  }

  /** One `send_msg(sd, op, param)` for each parameter, in order. */
  function Sends(op: string, params: seq<Option<string>>): (e: seq<Event>)
    ensures |e| == |params| && forall i :: 0 <= i < |params| ==> e[i] == Sent(op, params[i])
  {
    seq(|params|, i requires 0 <= i < |params| => Sent(op, params[i]))
  }

  /** A solver aid: one more round appends one more send. */
  lemma SendsNext(op: string, lines: seq<Option<string>>, k: nat)
    ensures Sends(op, Inputs(lines, k + 1)) == Sends(op, Inputs(lines, k)) + [Sent(op, LineAt(lines, k))]
  {
    assert Sends(op, Inputs(lines, k + 1)) == Sends(op, Inputs(lines, k)) + [Sent(op, LineAt(lines, k))];
  }

  /**
   * What `recv_msg(sd, code, text)` makes of each of the reads `rs`, in
   * order; past the end of the script the peer has closed, which is fatal.
   */
  function Verdicts(rs: seq<Read>, code: int): (vs: seq<Received>)
    ensures |vs| == |rs|
  {
    if rs == [] then [] else [Receive(rs[0], code, true)] + Verdicts(rs[1..], code)
  }

  /** The verdict on round `i`; past the verdicts the connection is closed. */
  function VerdictAt(vs: seq<Received>, i: nat): Received {
    At(vs, i, Fatal)
  }

  lemma {:induction false} VerdictsAt(rs: seq<Read>, code: int, i: nat)
    ensures VerdictAt(Verdicts(rs, code), i) == Receive(ReadAt(rs, i), code, true)
  {
    if i < |rs| {
      var vs := Verdicts(rs, code);
      assert vs == [Receive(rs[0], code, true)] + Verdicts(rs[1..], code);
      if i > 0 {
        VerdictsAt(rs[1..], code, i - 1);
        assert ReadAt(rs[1..], i - 1) == ReadAt(rs, i);
        assert vs[i] == Verdicts(rs[1..], code)[i - 1];
      }
    }
  }

  /** A reply arrived and did not carry the code, so a retry loop goes round again. */
  predicate Refused(v: Received) {
    v.Got? && !v.matched
  }

  /**
   * A `do … while (!authenticated)` loop of the retrying `authenticate`
   * over the verdicts `vs` runs exactly `count` rounds: every reply before
   * the last was refused, and the last one matched or was fatal.
   */
  predicate Retried(vs: seq<Received>, count: nat) {
    && 1 <= count
    && (forall i :: 0 <= i < count - 1 ==> Refused(VerdictAt(vs, i)))
    && !Refused(VerdictAt(vs, count - 1))
  }

  /** The replies decide the number of rounds: it is the first reply that is not refused. */
  lemma RetriedUnique(vs: seq<Received>, a: nat, b: nat)
    requires Retried(vs, a) && Retried(vs, b)
    ensures a == b
  {
    assert !Refused(VerdictAt(vs, a - 1)) && !Refused(VerdictAt(vs, b - 1));
  }

  /** A loop never runs past the end of the script: the read after it is fatal. */
  lemma RetriedInScript(vs: seq<Received>, count: nat)
    requires Retried(vs, count)
    ensures count <= |vs| + 1
  {
    assert !Refused(VerdictAt(vs, |vs|));
  }

  /**
   * The `f_size` that `get` passes on: the size read from the 299 message
   * when `sscanf` matches it, otherwise whatever the variable happened to
   * hold, `unset`.
   */
  function SizeUsed(r: Received, unset: int): (n: int)
    ensures n == unset || (r.Got? && r.text.Some? && ParseSize(r.text.value) == Some(n))
  {
    if r.Got? && r.text.Some? && ParseSize(r.text.value).Some? then ParseSize(r.text.value).value else unset
  }

  /**
   * On a `299 File <name> size <N> bytes` reply, `get` passes on N, whatever
   * `f_size` held before.
   */
  lemma SizeUsedOfAnnouncement(name: string, size: nat, unset: int)
    requires Word(name)
    ensures SizeUsed(Receive(Data(ReplyFrame(FILEXISTS, SizeText(name, size))), FILEXISTS, true), unset) == size
  {
    SizeReplyRoundTrip(name, size);
  }

  class Client {
    var phase: Phase
    /** The control reads still to come. */
    var replies: seq<Read>
    /** The keyboard lines still to come. */
    var keyboard: seq<Option<string>>
    /** Everything done so far, oldest first. */
    var trace: seq<Event>
    /** The local directory. */
    var files: map<string, seq<byte>>

    ghost predicate Valid()
      reads this
    {
      AllInput(keyboard)
    }

    constructor (script: seq<Read>, lines: seq<Option<string>>, disk: map<string, seq<byte>>)
      requires AllInput(lines)
      ensures Valid()
      ensures phase == Connected && replies == script && keyboard == lines && trace == [] && files == disk
    {
      phase := Connected;
      replies := script;
      keyboard := lines;
      trace := [];
      files := disk;
    }

    /** `recv_msg(sd, code, …)`: one control read, interpreted. */
    method RecvMsg(code: int, copyText: bool) returns (r: Received)
      modifies this`replies
      ensures r == Receive(ReadAt(old(replies), 0), code, copyText)
      ensures replies == Drop(old(replies), 1)
    {
      var rd := if replies == [] then Closed else replies[0];
      replies := if replies == [] then [] else replies[1..];
      r := Receive(rd, code, copyText);
    }

    /** `send_msg(sd, op, param)`: the whole zero-padded buffer goes out. */
    method SendMsg(op: string, param: Option<string>)
      requires Fits(op, param)
      modifies this`trace
      ensures trace == old(trace) + [Sent(op, param)]
    {
      trace := trace + [Sent(op, param)];
    }

    /** `read_input()`: the next keyboard line, NULL once there is none. */
    method ReadInput() returns (line: Option<string>)
      requires Valid()
      modifies this`keyboard
      ensures Valid()
      ensures line == LineAt(old(keyboard), 0) && keyboard == Drop(old(keyboard), 1)
      ensures InputLine(line)
    {
      line := if keyboard == [] then None else keyboard[0];
      keyboard := if keyboard == [] then [] else keyboard[1..];
    }

    /** The check in `main`: the session goes on only after a 220 welcome. */
    method Greet() returns (welcomed: bool)
      requires phase == Connected
      modifies this`replies, this`phase
      ensures welcomed == Matched(Receive(ReadAt(old(replies), 0), HELLOMSG, true))
      ensures replies == Drop(old(replies), 1)
      ensures phase == if welcomed then Authenticating else Exited
    {
      var r := RecvMsg(HELLOMSG, true);
      welcomed := r.Got? && r.matched;
      phase := if welcomed then Authenticating else Exited;
    }

    /**
     * The single-attempt `authenticate`: USER with the first line; PASS with
     * the second only after a 331; logged in only after a 230, and any other
     * outcome ends the program.
     */
    method AuthenticateOnce()
      requires Valid() && phase == Authenticating
      modifies this`replies, this`keyboard, this`trace, this`phase
      ensures Valid()
      ensures var user := Sent("USER", LineAt(old(keyboard), 0));
        var r1 := Receive(ReadAt(old(replies), 0), USREXISTS, true);
        if !Matched(r1) then
          && trace == old(trace) + [user]
          && replies == Drop(old(replies), 1) && keyboard == Drop(old(keyboard), 1)
          && phase == Exited
        else
          var pass := Sent("PASS", LineAt(old(keyboard), 1));
          var r2 := Receive(ReadAt(old(replies), 1), PASSOK, true);
          && trace == old(trace) + [user, pass]
          && replies == Drop(old(replies), 2) && keyboard == Drop(old(keyboard), 2)
          && phase == (if Matched(r2) then Ready else Exited)
    {
      ghost var rs, ks := replies, keyboard;
      var r := Round("USER", USREXISTS);
      if r.Got? && r.matched {
        r := Round("PASS", PASSOK);
        AtDrop(rs, 1, 0, Closed);
        AtDrop(ks, 1, 0, None);
        DropDrop(rs, 1, 1);
        DropDrop(ks, 1, 1);
      }
      phase := if r.Got? && r.matched then Ready else Exited;
    }

    /** One exchange of `authenticate`: read a line, send `op` with it, read the reply. */
    method Round(op: string, code: int) returns (r: Received)
      requires Valid() && Command(op)
      modifies this`replies, this`keyboard, this`trace
      ensures Valid()
      ensures r == Receive(ReadAt(old(replies), 0), code, true)
      ensures trace == old(trace) + [Sent(op, LineAt(old(keyboard), 0))]
      ensures replies == Drop(old(replies), 1) && keyboard == Drop(old(keyboard), 1)
    {
      var input := ReadInput();
      InputLineFits(op, input);
      SendMsg(op, input);
      r := RecvMsg(code, true);
    }

    /** Round number `count` of a retry loop, seen from where the loop started. */
    method Attempt(op: string, code: int, ghost rs0: seq<Read>, ghost ks0: seq<Option<string>>, ghost tr0: seq<Event>, ghost count: nat)
        returns (r: Received)
      requires Valid() && Command(op)
      requires replies == Drop(rs0, count) && keyboard == Drop(ks0, count)
      requires trace == tr0 + Sends(op, Inputs(ks0, count))
      modifies this`replies, this`keyboard, this`trace
      ensures Valid()
      ensures r == VerdictAt(Verdicts(rs0, code), count)
      ensures replies == Drop(rs0, count + 1) && keyboard == Drop(ks0, count + 1)
      ensures trace == tr0 + Sends(op, Inputs(ks0, count + 1))
    {
      r := Round(op, code);
      AtDrop(rs0, count, 0, Closed);
      AtDrop(ks0, count, 0, None);
      SendsNext(op, ks0, count);
      DropDrop(rs0, count, 1);
      DropDrop(ks0, count, 1);
      VerdictsAt(rs0, code, count);
    }

    /**
     * One retry loop of the retrying `authenticate`: `count` rounds as
     * `Retried` fixes them, one keyboard line and one reply each, accepted
     * exactly when the last reply matched.
     */
    method RetryUntil(op: string, code: int) returns (accepted: bool, ghost count: nat)
      requires Valid() && Command(op)
      modifies this`replies, this`keyboard, this`trace
      ensures Valid()
      ensures Retried(Verdicts(old(replies), code), count)
      ensures accepted == Matched(VerdictAt(Verdicts(old(replies), code), count - 1))
      ensures trace == old(trace) + Sends(op, Inputs(old(keyboard), count))
      ensures replies == Drop(old(replies), count) && keyboard == Drop(old(keyboard), count)
    {
      ghost var rs0, ks0, tr0 := replies, keyboard, trace;
      ghost var vs := Verdicts(rs0, code);
      count := 0;
      var authenticated, lost := false, false;
      while !authenticated && !lost
        invariant Valid()
        invariant replies == Drop(rs0, count) && keyboard == Drop(ks0, count)
        invariant trace == tr0 + Sends(op, Inputs(ks0, count))
        invariant forall i :: 0 <= i < count - 1 ==> Refused(VerdictAt(vs, i))
        invariant !(authenticated || lost) ==> count <= |vs| && (count > 0 ==> Refused(VerdictAt(vs, count - 1)))
        invariant authenticated || lost ==> Retried(vs, count)
        invariant authenticated || lost ==> authenticated == Matched(VerdictAt(vs, count - 1))
        decreases |vs| - count, !authenticated && !lost
      {
        var r := Attempt(op, code, rs0, ks0, tr0, count);
        count := count + 1;
        lost := r.Fatal?;
        authenticated := r.Got? && r.matched;
      }
      accepted := authenticated;
    }

    /**
     * The retrying `authenticate`: USER until a 331 arrives (`k` rounds),
     * then PASS until a 230 arrives (`m` rounds); only a closed connection
     * stops a loop early, and it ends the program.
     */
    method AuthenticateRetry() returns (ghost k: nat, ghost m: nat)
      requires Valid() && phase == Authenticating
      modifies this`replies, this`keyboard, this`trace, this`phase
      ensures Valid()
      ensures Retried(Verdicts(old(replies), USREXISTS), k)
      ensures var rs1, ks1 := Drop(old(replies), k), Drop(old(keyboard), k);
        if !Matched(VerdictAt(Verdicts(old(replies), USREXISTS), k - 1)) then
          && m == 0
          && trace == old(trace) + Sends("USER", Inputs(old(keyboard), k))
          && replies == rs1 && keyboard == ks1
          && phase == Exited
        else
          && Retried(Verdicts(rs1, PASSOK), m)
          && trace == old(trace) + Sends("USER", Inputs(old(keyboard), k)) + Sends("PASS", Inputs(ks1, m))
          && replies == Drop(rs1, m) && keyboard == Drop(ks1, m)
          && phase == (if Matched(VerdictAt(Verdicts(rs1, PASSOK), m - 1)) then Ready else Exited)
    {
      var ok;
      ok, k := RetryUntil("USER", USREXISTS);
      m := 0;
      if ok {
        ok, m := RetryUntil("PASS", PASSOK);
      }
      phase := if ok then Ready else Exited;
    }

    /**
     * The active-mode `get`: PORT with the listening endpoint, then RETR; on
     * anything but 299 it stops before opening a file or accepting; otherwise
     * it opens the file, accepts, copies the data connection into it with the
     * announced size as bound, and checks for 226.
     */
    method GetActive(name: string, local: Endpoint, conn: seq<Chunk>, unsetSize: int) returns (res: GetResult)
      requires phase == Ready && Fits("RETR", Some(name)) && WellFormed(conn)
      modifies this`replies, this`trace, this`files, this`phase
      ensures var sent := old(trace) + [Sent("PORT", Some(PortArgument(local))), Sent("RETR", Some(name))];
        var r1 := Receive(ReadAt(old(replies), 0), FILEXISTS, true);
        if !Matched(r1) then
          && trace == sent && files == old(files) && replies == Drop(old(replies), 1)
          && phase == (if r1.Fatal? then Exited else Ready)
          && res == (if r1.Fatal? then Lost else Rejected)
        else
          var r2 := Receive(ReadAt(old(replies), 1), TRNSFRCMPL, true);
          && trace == sent + [Opened(name), Accepted]
          && files == old(files)[name := Copy(conn, 0, SizeUsed(r1, unsetSize)).0]
          && replies == Drop(old(replies), 2)
          && phase == (if r2.Fatal? then Exited else Ready)
          && res == (if r2.Fatal? then Lost else Done(Matched(r2)))
    {
      ghost var rs := replies;
      ghost var sent := trace + [Sent("PORT", Some(PortArgument(local))), Sent("RETR", Some(name))];
      SendMsg("PORT", Some(PortArgument(local)));
      SendMsg("RETR", Some(name));
      assert trace == sent;
      var reply := RecvMsg(FILEXISTS, true);
      if reply.Fatal? {
        phase := Exited;
        return Lost;
      }
      if !reply.matched {
        return Rejected;
      }
      var size := SizeUsed(reply, unsetSize);
      trace := trace + [Opened(name), Accepted];
      var data, stop, written := RecvFile(conn, size);
      files := files[name := data];
      var done := RecvMsg(TRNSFRCMPL, true);
      AtDrop(rs, 1, 0, Closed);
      DropDrop(rs, 1, 1);
      assert done == Receive(ReadAt(rs, 1), TRNSFRCMPL, true);
      if done.Fatal? {
        phase := Exited;
        return Lost;
      }
      res := Done(done.matched);
    }

    /**
     * The `get` without a data connection: RETR; on anything but 299 it
     * stops before opening a file; otherwise the file is created, the stub
     * transfer writes nothing into it, and it checks for 226.
     */
    method GetStub(name: string) returns (res: GetResult)
      requires phase == Ready && Fits("RETR", Some(name))
      modifies this`replies, this`trace, this`files, this`phase
      ensures var sent := old(trace) + [Sent("RETR", Some(name))];
        var r1 := Receive(ReadAt(old(replies), 0), FILEXISTS, true);
        if !Matched(r1) then
          && trace == sent && files == old(files) && replies == Drop(old(replies), 1)
          && phase == (if r1.Fatal? then Exited else Ready)
          && res == (if r1.Fatal? then Lost else Rejected)
        else
          var r2 := Receive(ReadAt(old(replies), 1), TRNSFRCMPL, true);
          && trace == sent + [Opened(name)]
          && files == old(files)[name := []]
          && replies == Drop(old(replies), 2)
          && phase == (if r2.Fatal? then Exited else Ready)
          && res == (if r2.Fatal? then Lost else Done(Matched(r2)))
    {
      ghost var rs := replies;
      SendMsg("RETR", Some(name));
      var reply := RecvMsg(FILEXISTS, true);
      if reply.Fatal? {
        phase := Exited;
        return Lost;
      }
      if !reply.matched {
        return Rejected;
      }
      trace := trace + [Opened(name)];
      files := files[name := []];
      var done := RecvMsg(TRNSFRCMPL, true);
      AtDrop(rs, 1, 0, Closed);
      DropDrop(rs, 1, 1);
      assert done == Receive(ReadAt(rs, 1), TRNSFRCMPL, true);
      if done.Fatal? {
        phase := Exited;
        return Lost;
      }
      res := Done(done.matched);
    }

    /**
     * `quit`: QUIT without a parameter, then one reply checked against 221;
     * the outcome of the check changes only what is printed.
     */
    method Quit() returns (goodbye: bool)
      requires phase == Ready
      modifies this`replies, this`trace, this`phase
      ensures var r := Receive(ReadAt(old(replies), 0), GDBY, true);
        && trace == old(trace) + [Sent("QUIT", None)]
        && replies == Drop(old(replies), 1)
        && goodbye == Matched(r)
        && phase == (if r.Fatal? then Exited else Terminated)
    {
      SendMsg("QUIT", None);
      var r := RecvMsg(GDBY, true);
      goodbye := r.Got? && r.matched;
      phase := if r.Fatal? then Exited else Terminated;
    }
  }
}
