/**
 * Whole sessions against a scripted server: what the client sends, what it
 * writes to disk and how it ends, for a download, a refused login with the
 * single-attempt client, and a login that takes retries. The sessions are
 * stated for any replies the client decodes as the named outcomes; the
 * sample lemmas show which concrete reply lines are such replies.
 */
module Scenarios {
  import opened Wrappers
  import opened Scan
  import opened Replies
  import opened Commands
  import opened PortArgs
  import opened SizeReply
  import opened Transfer
  import opened Session

  /** A reply as the server writes it on the control connection. */
  function Line(code: nat, text: string): Read {
    Data(ReplyFrame(code, text))
  }

  /** A reply `rd` accepted by a `recv_msg` expecting `code`. */
  predicate Accepts(rd: Read, code: int) {
    Matched(Receive(rd, code, true))
  }

  lemma WelcomeLine()
    ensures Accepts(Line(220, "Welcome"), HELLOMSG)
  {
    ReceiveFrame(220, "Welcome", HELLOMSG, true);
  }

  lemma PasswordLine()
    ensures Accepts(Line(331, "Password required"), USREXISTS)
  {
    ReceiveFrame(331, "Password required", USREXISTS, true);
  }

  lemma LoggedInLine()
    ensures Accepts(Line(230, "Logged in"), PASSOK)
  {
    ReceiveFrame(230, "Logged in", PASSOK, true);
  }

  /** A 530 reply is refused by both loops of the retrying login. */
  lemma NotLoggedInLine()
    ensures Refused(Receive(Line(530, "Not logged in"), USREXISTS, true))
    ensures Refused(Receive(Line(530, "Not logged in"), PASSOK, true))
  {
    ReceiveFrame(530, "Not logged in", USREXISTS, true);
    ReceiveFrame(530, "Not logged in", PASSOK, true);
  }

  /** The 299 reply for `report.txt` is accepted and announces 5 bytes. */
  lemma SizeLine()
    ensures Accepts(Line(FILEXISTS, SizeText("report.txt", 5)), FILEXISTS)
    ensures SizeUsed(Receive(Line(FILEXISTS, SizeText("report.txt", 5)), FILEXISTS, true), -1) == 5
  {
    assert Word("report.txt") by {
      forall i | 0 <= i < |"report.txt"| ensures !IsSpace("report.txt"[i]) {
      }
    }
    SizeReplyRoundTrip("report.txt", 5);
  }

  /** A file that arrives in one chunk, no longer than announced, is written exactly. */
  lemma OneChunk(data: seq<byte>)
    requires 0 < |data| <= BUFSIZE
    ensures WellFormed([Bytes(data)])
    ensures Copy([Bytes(data)], 0, |data|) == (data, PeerClosed, 1)
  {
    var conn := [Bytes(data)];
    assert conn[0..] == conn && conn[1..] == [];
    CopyStep(conn, 0, 0, |data|);
    assert Copy([], |data|, |data|) == ([], PeerClosed, 0);
    assert data + [] == data;
  }

  /** A solver aid: the events of a download session, in the order the calls append them, as one sequence. */
  lemma Seven(a: Event, b: Event, c: Event, d: Event, e: Event, f: Event, g: Event)
    ensures [a, b] + [c, d] + [e, f] + [g] == [a, b, c, d, e, f, g]
  {
  }

  /** A solver aid: what is left of a script after its first two elements. */
  lemma DropTwo<T>(a: T, b: T, rest: seq<T>)
    ensures Drop([a, b] + rest, 2) == rest
  {
    assert ([a, b] + rest)[2..] == rest;
  }

  /** A client connected to a server whose greeting is accepted, ready to authenticate. */
  method Welcomed(welcome: Read, rest: seq<Read>, lines: seq<Option<string>>, disk: map<string, seq<byte>>)
      returns (c: Client)
    requires Accepts(welcome, HELLOMSG) && AllInput(lines)
    ensures fresh(c) && c.Valid() && c.phase == Authenticating
    ensures c.replies == rest && c.keyboard == lines && c.trace == [] && c.files == disk
  {
    c := new Client([welcome] + rest, lines, disk);
    var welcomed := c.Greet();
    assert Drop([welcome] + rest, 1) == rest;
  }

  /** The single-attempt client sends USER and PASS and is logged in when both are accepted. */
  method SignIn(welcome: Read, okUser: Read, okPass: Read, rest: seq<Read>,
                user: string, password: string, disk: map<string, seq<byte>>)
      returns (c: Client)
    requires Accepts(welcome, HELLOMSG) && Accepts(okUser, USREXISTS) && Accepts(okPass, PASSOK)
    requires AllInput([Some(user), Some(password)])
    ensures fresh(c) && c.phase == Ready && c.replies == rest && c.files == disk
    ensures c.trace == [Sent("USER", Some(user)), Sent("PASS", Some(password))]
  {
    c := Welcomed(welcome, [okUser, okPass] + rest, [Some(user), Some(password)], disk);
    c.AuthenticateOnce();
    DropTwo(okUser, okPass, rest);
  }

  /**
   * A logged-in active client fetches `name`, announced with the size of
   * `data` and arriving in one chunk, and the transfer is confirmed.
   */
  method Fetch(c: Client, announce: Read, complete: Read, rest: seq<Read>,
               name: string, here: Endpoint, data: seq<byte>)
      returns (fetched: GetResult)
    requires c.phase == Ready && c.replies == [announce, complete] + rest
    requires Accepts(announce, FILEXISTS) && SizeUsed(Receive(announce, FILEXISTS, true), -1) == |data|
    requires Accepts(complete, TRNSFRCMPL) && Fits("RETR", Some(name)) && 0 < |data| <= BUFSIZE
    modifies c
    ensures c.phase == Ready && c.replies == rest && c.files == old(c.files)[name := data]
    ensures c.trace == old(c.trace) + [Sent("PORT", Some(PortArgument(here))), Sent("RETR", Some(name))]
                                    + [Opened(name), Accepted]
    ensures c.keyboard == old(c.keyboard)
    ensures fetched == Done(true)
  {
    OneChunk(data);
    fetched := c.GetActive(name, here, [Bytes(data)], -1);
    DropTwo(announce, complete, rest);
  }

  /**
   * The active client logs in, fetches `name` over a data connection on
   * which the file arrives in one chunk, replacing any old copy on disk, and
   * quits.
   */
  method Download(welcome: Read, okUser: Read, okPass: Read, announce: Read, complete: Read, bye: Read,
                  user: string, password: string, name: string, here: Endpoint, data: seq<byte>,
                  disk: map<string, seq<byte>>)
      returns (files: map<string, seq<byte>>, log: seq<Event>, phase: Phase, fetched: GetResult)
    requires Accepts(welcome, HELLOMSG) && Accepts(okUser, USREXISTS) && Accepts(okPass, PASSOK)
    requires Accepts(announce, FILEXISTS) && SizeUsed(Receive(announce, FILEXISTS, true), -1) == |data|
    requires Accepts(complete, TRNSFRCMPL) && Accepts(bye, GDBY)
    requires AllInput([Some(user), Some(password)]) && Fits("RETR", Some(name))
    requires 0 < |data| <= BUFSIZE
    ensures files == disk[name := data]
    ensures log == [Sent("USER", Some(user)), Sent("PASS", Some(password)),
                    Sent("PORT", Some(PortArgument(here))), Sent("RETR", Some(name)),
                    Opened(name), Accepted, Sent("QUIT", None)]
    ensures phase == Terminated && fetched == Done(true)
  {
    var c := SignIn(welcome, okUser, okPass, [announce, complete] + [bye], user, password, disk);
    fetched := Fetch(c, announce, complete, [bye], name, here, data);
    var goodbye := c.Quit();
    Seven(Sent("USER", Some(user)), Sent("PASS", Some(password)),
          Sent("PORT", Some(PortArgument(here))), Sent("RETR", Some(name)), Opened(name), Accepted, Sent("QUIT", None));
    files, log, phase := c.files, c.trace, c.phase;
  }

  /**
   * The single-attempt client gives up on the first refused USER: no PASS
   * is sent and the program ends.
   */
  method UnknownUser(welcome: Read, refusal: Read, user: string, password: string)
      returns (log: seq<Event>, phase: Phase)
    requires Accepts(welcome, HELLOMSG) && Refused(Receive(refusal, USREXISTS, true))
    requires AllInput([Some(user), Some(password)])
    ensures log == [Sent("USER", Some(user))] && phase == Exited
  {
    var c := Welcomed(welcome, [refusal], [Some(user), Some(password)], map[]);
    c.AuthenticateOnce();
    log, phase := c.trace, c.phase;
  }

  /** A solver aid: the first two replies of a script that starts with `no` and `yes`. */
  lemma FirstTwo(no: Read, yes: Read, rest: seq<Read>)
    ensures ReadAt([no, yes] + rest, 0) == no && ReadAt([no, yes] + rest, 1) == yes
  {
  }

  /** A retry loop whose first verdict is a refusal and whose second is not took two rounds. */
  lemma SecondRound(vs: seq<Received>, count: nat)
    requires Refused(VerdictAt(vs, 0)) && !Refused(VerdictAt(vs, 1)) && Retried(vs, count)
    ensures count == 2
  {
    RetriedUnique(vs, count, 2);
  }

  /** A retry loop over replies that refuse once and then accept takes two rounds. */
  lemma TwoRounds(no: Read, yes: Read, rest: seq<Read>, code: int, count: nat)
    requires Refused(Receive(no, code, true)) && Accepts(yes, code)
    requires Retried(Verdicts([no, yes] + rest, code), count)
    ensures count == 2 && Matched(VerdictAt(Verdicts([no, yes] + rest, code), 1))
  {
    FirstTwo(no, yes, rest);
    VerdictsAt([no, yes] + rest, code, 0);
    VerdictsAt([no, yes] + rest, code, 1);
    SecondRound(Verdicts([no, yes] + rest, code), count);
  }

  /** A solver aid: two rounds of each retry loop send the four lines in turn. */
  lemma RetryLog(a: Option<string>, b: Option<string>, c: Option<string>, d: Option<string>)
    ensures [] + Sends("USER", Inputs([a, b, c, d], 2)) + Sends("PASS", Inputs(Drop([a, b, c, d], 2), 2))
         == [Sent("USER", a), Sent("USER", b), Sent("PASS", c), Sent("PASS", d)]
  {
    assert Drop([a, b, c, d], 2) == [c, d];
  }

  /**
   * The retrying client sends each of USER and PASS again after a refusal,
   * with the next keyboard line, and is logged in after the second PASS.
   */
  method PersistentLogin(welcome: Read, noUser: Read, okUser: Read, noPass: Read, okPass: Read,
                         user1: string, user2: string, pass1: string, pass2: string)
      returns (log: seq<Event>, phase: Phase)
    requires Accepts(welcome, HELLOMSG)
    requires Refused(Receive(noUser, USREXISTS, true)) && Accepts(okUser, USREXISTS)
    requires Refused(Receive(noPass, PASSOK, true)) && Accepts(okPass, PASSOK)
    requires AllInput([Some(user1), Some(user2), Some(pass1), Some(pass2)])
    ensures log == [Sent("USER", Some(user1)), Sent("USER", Some(user2)),
                    Sent("PASS", Some(pass1)), Sent("PASS", Some(pass2))]
    ensures phase == Ready
  {
    var c := Welcomed(welcome, [noUser, okUser] + ([noPass, okPass] + []),
                      [Some(user1), Some(user2), Some(pass1), Some(pass2)], map[]);
    var k, m := c.AuthenticateRetry();
    TwoRounds(noUser, okUser, [noPass, okPass] + [], USREXISTS, k);
    DropTwo(noUser, okUser, [noPass, okPass] + []);
    TwoRounds(noPass, okPass, [], PASSOK, m);
    RetryLog(Some(user1), Some(user2), Some(pass1), Some(pass2));
    log, phase := c.trace, c.phase;
  }
}
