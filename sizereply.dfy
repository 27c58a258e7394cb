/**
 * The size carried by the non-standard reply `299 File <name> size <N> bytes`:
 * `sscanf(message, "File %*s size %ld bytes", &size)` as a tokenizer that
 * says when the pattern is absent instead of leaving the size unassigned.
 */
module SizeReply {
  import opened Wrappers
  import opened Scan
  import opened Replies

  predicate NotSpace(c: char) {
    !IsSpace(c)
  }

  /**
   * The number after `File`, one word and `size`, each separated by any
   * white space; None when any part of the pattern up to the number is absent.
   * Whatever follows the number does not affect the result.
   */
  function ParseSize(message: string): (r: Option<int>)
    ensures r.Some? ==> |message| >= 4 && message[..4] == "File"
  {
    var s := CString(message);
    if |s| < 4 || s[..4] != "File" then None else AfterFile(s[4..])
  }

  /** `" %*s size %ld"`: white space, a word that is discarded, then the rest. */
  function AfterFile(s: seq<char>): Option<int> {
    var t := SkipSpace(s);
    var w := Span(t, NotSpace);
    if w == 0 then None else AfterName(t[w..])
  }

  /** `" size %ld"`: white space, the literal `size`, then the number. */
  function AfterName(s: seq<char>): Option<int> {
    SizeField(SkipSpace(s))
  }

  /** `"size %ld"` once the white space before it is skipped. */
  function SizeField(u: seq<char>): Option<int> {
    if |u| < 4 || u[..4] != "size" then None
    else
      match ScanInt(u[4..])
      case None => None
      case Some((n, _)) => Some(n)
  }

  /** The message of the 299 reply as the server writes it. */
  function SizeText(name: string, size: nat): string {
    "File " + name + " size " + Decimal(size) + " bytes"
  }

  /** A file name the message can carry: one word of a C string. */
  predicate Word(name: string) {
    name != [] && '\0' !in name && forall i :: 0 <= i < |name| ==> !IsSpace(name[i])
  }

  /** The size is read back exactly from the message, whatever the file's name. */
  lemma ParseSizeText(name: string, size: nat)
    requires Word(name)
    ensures ParseSize(SizeText(name, size)) == Some(size as int)
  {
    var m := SizeText(name, size);
    var afterName := " size " + Decimal(size) + " bytes";
    assert CString(m) == m by {
      NoNulInSizeText(name, size);
      CStringOfTerminated(m, []);
      assert m + [] == m;
    }
    assert m[..4] == "File" && m[4..] == " " + name + afterName;
    SkipWord(name, afterName);
    ReadSizeLiteral(size);
  }

  /** After `File`, the white space and the discarded word leave the rest of the pattern. */
  lemma SkipWord(name: string, rest: seq<char>)
    requires Word(name)
    requires rest == [] || IsSpace(rest[0])
    ensures AfterFile(" " + name + rest) == AfterName(rest)
  {
    assert " " + name + rest == " " + (name + rest);
    SkipSpaceOfPrefix(" ", name + rest);
    SpanOfPrefix(name, rest, NotSpace);
    assert (name + rest)[|name|..] == rest;
  }

  /** `" size %ld"` reads the printed number. */
  lemma ReadSizeLiteral(size: nat)
    ensures AfterName(" size " + Decimal(size) + " bytes") == Some(size as int)
  {
    SkipToSize(size);
    ReadSizeField(size);
  }

  lemma SkipToSize(size: nat)
    ensures SkipSpace(" size " + Decimal(size) + " bytes") == "size" + (" " + Decimal(size) + " bytes")
  {
    var u := "size" + (" " + Decimal(size) + " bytes");
    assert " size " + Decimal(size) + " bytes" == " " + u;
    SkipSpaceOfPrefix(" ", u);
  }

  lemma ReadSizeField(size: nat)
    ensures SizeField("size" + (" " + Decimal(size) + " bytes")) == Some(size as int)
  {
    var u := "size" + (" " + Decimal(size) + " bytes");
    assert |u| >= 4 && u[..4] == "size" && u[4..] == " " + Decimal(size) + " bytes";
    ScanIntOfDecimal(" ", size, " bytes");
  }

  lemma NoNulInSizeText(name: string, size: nat)
    requires '\0' !in name
    ensures '\0' !in SizeText(name, size)
  {
    var d := Decimal(size);
    assert SizeText(name, size) == "File " + name + " size " + d + " bytes";
    assert '\0' !in d by {
      forall i | 0 <= i < |d| ensures d[i] != '\0' {
        assert IsDigit(d[i]);
      }
    }
  }

  /**
   * End to end: a `299 File <name> size <N> bytes` reply matches the 299
   * the client expects, hands out the message, and the size read from that
   * message is N.
   */
  lemma SizeReplyRoundTrip(name: string, size: nat)
    requires Word(name)
    ensures Receive(Data(ReplyFrame(FILEXISTS, SizeText(name, size))), FILEXISTS, true)
         == Got(false, Some(FILEXISTS), true, Some(SizeText(name, size)))
    ensures ParseSize(SizeText(name, size)) == Some(size as int)
  {
    var m := SizeText(name, size);
    NoNulInSizeText(name, size);
    assert PlainText(m) by {
      assert m == "File " + name + (" size " + Decimal(size) + " bytes");
      assert forall i :: 0 <= i < |name| ==> name[i] == m[5 + i];
      assert forall i :: 0 <= i < |Decimal(size)| ==> IsDigit(Decimal(size)[i]);
    }
    ReceiveFrame(FILEXISTS, m, FILEXISTS, true);
    ParseSizeText(name, size);
  }
}
