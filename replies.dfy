/**
 * The client's side of a reply on the control connection (section 4.2 of
 * RFC 959): one `recv` into a BUFSIZE buffer, the parse
 * `sscanf(buffer, "%d %[^\r\n]\r\n", &code, message)` and the comparison of
 * the code with the one the caller expects.
 */
module Replies {
  import opened Wrappers
  import opened Scan

  /** Size of every buffer the client exchanges with the server. */
  const BUFSIZE: nat := 512

  // Reply codes the client expects.
  const HELLOMSG := 220
  const USREXISTS := 331
  const PASSOK := 230
  const FILEXISTS := 299
  const TRNSFRCMPL := 226
  const GDBY := 221

  /** A decoded reply: its code and, when the `%[^\r\n]` conversion matched, its message. */
  datatype Reply = Reply(code: int, message: Option<string>)

  predicate NotEol(c: char) {
    c != '\r' && c != '\n'
  }

  /** Text a reply line can carry: no NUL, no line terminator. */
  predicate PlainText(text: string) {
    '\0' !in text && '\r' !in text && '\n' !in text
  }

  /**
   * The parse of a reply frame. None when `%d` finds no number (the C then
   * leaves its code variable unassigned); otherwise the code and the message
   * that follows it.
   */
  function ParseReply(frame: seq<char>): (r: Option<Reply>)
    ensures r.Some? && r.value.message.Some? ==>
      var m := r.value.message.value;
      m != [] && PlainText(m) && !IsSpace(m[0])
  {
    var s := CString(frame);
    match ScanInt(s)
    case None => None
    case Some((code, rest)) =>
      assert forall i :: 0 <= i < |rest| ==> rest[i] == s[|s| - |rest| + i];
      Some(Reply(code, MessageText(rest)))
  }

  /**
   * What `" %[^\r\n]"` stores from the input left after the code: the
   * message starts after the white space and runs up to the first CR or LF;
   * None when nothing is left there (the C then leaves its buffer unassigned).
   */
  function MessageText(rest: seq<char>): (m: Option<string>)
    requires '\0' !in rest
    ensures m.Some? ==> m.value != [] && PlainText(m.value) && !IsSpace(m.value[0])
    ensures m.None? <==> SkipSpace(rest) == []
    ensures m.Some? ==> (m.value <= SkipSpace(rest)
      && (|m.value| < |SkipSpace(rest)| ==> !NotEol(SkipSpace(rest)[|m.value|])))
  {
    var t := SkipSpace(rest);
    var n := Span(t, NotEol);
    assert forall i :: 0 <= i < |t| ==> t[i] == rest[|rest| - |t| + i];
    if n == 0 then None else Some(t[..n])
  }

  /** A reply line as a server writes it: the code, a space, the text, CR LF. */
  function ReplyFrame(code: nat, text: string): string {
    Decimal(code) + " " + text + "\r\n"
  }

  /**
   * A well-formed reply parses back to its code and its text, without the
   * terminator; an empty text leaves the message absent.
   */
  lemma ParseReplyFrame(code: nat, text: string)
    requires PlainText(text)
    requires text == [] || !IsSpace(text[0])
    ensures ParseReply(ReplyFrame(code, text)) == Some(Reply(code, if text == [] then None else Some(text)))
  {
    var tail := " " + text + "\r\n";
    var frame := ReplyFrame(code, text);
    assert frame == Decimal(code) + tail;
    assert CString(frame) == frame by {
      NoNulInFrame(code, text);
      CStringOfTerminated(frame, []);
      assert frame + [] == frame;
    }
    assert ScanInt(frame) == Some((code as int, tail)) by {
      assert frame == [] + Decimal(code) + tail;
      ScanIntOfDecimal([], code, tail);
    }
    MessageTextAfterSpace(text);
  }

  /** The text after the code's separating space, up to the terminator, is the message. */
  lemma MessageTextAfterSpace(text: string)
    requires PlainText(text)
    requires text == [] || !IsSpace(text[0])
    ensures MessageText(" " + text + "\r\n") == if text == [] then None else Some(text)
  {
    var tail := " " + text + "\r\n";
    if text == [] {
      assert SkipSpace(tail) == [] by {
        assert tail == " \r\n" + [];
        SkipSpaceOfPrefix(" \r\n", []);
      }
    } else {
      var rest := text + "\r\n";
      assert SkipSpace(tail) == rest by {
        assert tail == " " + rest;
        SkipSpaceOfPrefix(" ", rest);
      }
      assert Span(rest, NotEol) == |text| by {
        SpanOfPrefix(text, "\r\n", NotEol);
      }
      assert rest[..|text|] == text;
    }
  }

  lemma NoNulInFrame(code: nat, text: string)
    requires PlainText(text)
    ensures '\0' !in ReplyFrame(code, text)
  {
    var d := Decimal(code);
    assert ReplyFrame(code, text) == d + (" " + text + "\r\n");
    assert '\0' !in d by {
      forall i | 0 <= i < |d| ensures d[i] != '\0' {
        assert IsDigit(d[i]);
      }
    }
  }

  /**
   * What one `recv` on the control connection gave: the peer closed it (0),
   * an error (-1; the buffer still holds whatever `stale` bytes it held), or
   * the bytes of one frame.
   */
  datatype Read = Closed | Failed(stale: seq<char>) | Data(frame: seq<char>)

  /** The value `recv` returned. */
  function RecvSize(rd: Read): int {
    match rd
    case Closed => 0
    case Failed(_) => -1
    case Data(frame) => |frame|
  }

  /**
   * The outcome of `recv_msg`: Fatal when the connection was closed (the C
   * exits), otherwise whether a warning was issued, the parsed code (None
   * when there was none), whether it matched, and the message copied to the
   * caller (None when no copy was asked for or there was no message).
   */
  datatype Received = Fatal | Got(warned: bool, code: Option<int>, matched: bool, text: Option<string>)

  /** True when a reply arrived and carried the expected code. */
  predicate Matched(r: Received) {
    r.Got? && r.matched
  }

  /** `recv_msg(sd, expected, copyText ? text : NULL)` given what the `recv` call returned. */
  function Receive(rd: Read, expected: int, copyText: bool): (r: Received)
    ensures r.Fatal? <==> RecvSize(rd) == 0
    ensures r.Got? ==> (r.warned <==> RecvSize(rd) < 0)
    ensures r.Got? ==> (r.matched <==> r.code == Some(expected))
    ensures r.Got? && r.text.Some? ==> copyText && PlainText(r.text.value)
  {
    match rd
    case Closed => Fatal
    case Data(frame) =>
      if frame == [] then Fatal else Decode(false, frame, expected, copyText)
    case Failed(stale) => Decode(true, stale, expected, copyText)
  }

  /**
   * The parse-and-compare half of `recv_msg`, on the bytes in its buffer:
   * never fatal, it carries the warning it is given, matches exactly when
   * the code found is the expected one, finds no code exactly when `%d`
   * fails, and copies a single-line text out only when asked to.
   */
  function Decode(warned: bool, buf: seq<char>, expected: int, copyText: bool): (r: Received)
    ensures r.Got? && r.warned == warned
    ensures r.matched <==> r.code == Some(expected)
    ensures r.code.None? <==> ParseReply(buf).None?
    ensures r.text.Some? ==> copyText && PlainText(r.text.value) && r.text.value != []
  {
    match ParseReply(buf)
    case None => Got(warned, None, false, None)
    case Some(reply) =>
      Got(warned, Some(reply.code), reply.code == expected, if copyText then reply.message else None)
  }

  /**
   * On a well-formed reply frame `recv_msg` reports a match exactly when the
   * code is the expected one, and hands out exactly the text, only when asked.
   */
  lemma ReceiveFrame(code: nat, text: string, expected: int, copyText: bool)
    requires PlainText(text)
    requires text == [] || !IsSpace(text[0])
    ensures Receive(Data(ReplyFrame(code, text)), expected, copyText)
         == Got(false, Some(code), code == expected, if copyText && text != [] then Some(text) else None)
  {
    ParseReplyFrame(code, text);
  }

  /**
   * A failed read only warns: parsing goes on over the buffer's old contents
   * exactly as it would over freshly received bytes.
   */
  lemma FailedReadOnlyWarns(stale: seq<char>, expected: int, copyText: bool)
    requires stale != []
    ensures var failed, read := Receive(Failed(stale), expected, copyText), Receive(Data(stale), expected, copyText);
      && failed.Got? && read.Got? && failed.warned && !read.warned
      && failed.code == read.code && failed.matched == read.matched && failed.text == read.text
  {
  }
}
