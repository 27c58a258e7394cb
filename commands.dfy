/**
 * `send_msg`: a command line `"OP PARAM\r\n"` (or `"OP\r\n"` without a
 * parameter) formatted into a zeroed BUFSIZE buffer, all of which is sent.
 * Also the peer's reader of such a buffer, which inverts the formatter.
 */
module Commands {
  import opened Wrappers
  import opened Scan
  import opened Replies

  /** A C string: it can hold no NUL. */
  predicate CStr(s: string) {
    '\0' !in s
  }

  /**
   * The text `sprintf` writes for an operation and its optional parameter:
   * it starts with the operation, ends in CR LF, and is longer than the two
   * exactly when a parameter is given.
   */
  function FormatCommand(op: string, param: Option<string>): (c: string)
    ensures |c| >= |op| + 2 && c[..|op|] == op && c[|c| - 2..] == "\r\n"
    ensures param.Some? <==> |c| > |op| + 2
  {
    match param
    case Some(p) => op + " " + p + "\r\n"
    case None => op + "\r\n"
  }

  /** The operation and parameter are C strings and the command fits the buffer with its NUL. */
  predicate Fits(op: string, param: Option<string>) {
    && CStr(op)
    && (param.Some? ==> CStr(param.value))
    && |FormatCommand(op, param)| < BUFSIZE
  }

  /** `n` zero bytes. */
  function Zeros(n: nat): seq<char> {
    seq(n, _ => '\0')
  }

  /**
   * The BUFSIZE bytes `send_msg` hands to `send`: the formatted command in a
   * buffer that was zeroed first.
   */
  function Frame(op: string, param: Option<string>): (f: seq<char>)
    requires Fits(op, param)
    ensures |f| == BUFSIZE
  {
    var c := FormatCommand(op, param);
    c + Zeros(BUFSIZE - |c|)
  }

  /**
   * The buffer is exactly BUFSIZE long, starts with the command and is
   * zero after it, so as a C string it is the command.
   */
  lemma FrameShape(op: string, param: Option<string>)
    requires Fits(op, param)
    ensures |Frame(op, param)| == BUFSIZE
    ensures Frame(op, param)[..|FormatCommand(op, param)|] == FormatCommand(op, param)
    ensures forall i :: |FormatCommand(op, param)| <= i < BUFSIZE ==> Frame(op, param)[i] == '\0'
    ensures CString(Frame(op, param)) == FormatCommand(op, param)
  {
    var c := FormatCommand(op, param);
    CStringOfTerminated(c, Zeros(BUFSIZE - |c|));
  }

  predicate NotBlank(c: char) {
    c != ' '
  }

  /**
   * How a peer reads a command buffer: the C string in it must end in CR LF;
   * the operation runs up to the first space, and the parameter, if there
   * is a space, is everything after it.
   */
  function Unframe(f: seq<char>): Option<(string, Option<string>)> {
    var line := CString(f);
    if |line| < 2 || line[|line| - 2..] != "\r\n" then None
    else
      var body := line[..|line| - 2];
      var k := Span(body, NotBlank);
      if k == |body| then Some((body, None)) else Some((body[..k], Some(body[k + 1..])))
  }

  /**
   * The peer recovers exactly the operation and the parameter (or its
   * absence) from what `send_msg` sends, when the operation has no space.
   */
  lemma UnframeFrame(op: string, param: Option<string>)
    requires Fits(op, param)
    requires ' ' !in op
    ensures Unframe(Frame(op, param)) == Some((op, param))
  {
    var c := FormatCommand(op, param);
    FrameShape(op, param);
    assert c[|c| - 2..] == "\r\n";
    var body := c[..|c| - 2];
    match param
    case None =>
      assert body == op;
      SpanOfPrefix(op, [], NotBlank);
      assert op + [] == op;
    case Some(p) =>
      assert body == op + (" " + p);
      SpanOfPrefix(op, " " + p, NotBlank);
      assert body[..|op|] == op;
      assert body[|op| + 1..] == p;
  }
}
