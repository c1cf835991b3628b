/**
 * How both upload actions turn what the server answered into the message
 * shown to the user: the status line with the file name and status code,
 * then the `message` field of the JSON reply, or the raw reply text.
 */
module Response {
  import opened Base
  import opened Text

  /** What the connection produced: an exception, whose message may be null, or a status with the readable bodies. */
  datatype HttpReply =
    | Failed(exceptionMessage: Option<string>)
    | Replied(code: int32, input: string, error: Option<string>)

  /**
   * What `org.json` makes of a text, as far as the rendering can observe:
   * not an object (the constructor throws), or an object whose `optString("message")`
   * is present or not.
   */
  datatype JsonView = NotAnObject | Object(message: Option<string>)

  predicate IsSuccess(code: int)
  {
    200 <= code <= 299
  }

  /** The text read back: the body on a 2xx status, else the error body, else a fixed message. */
  function ResponseText(code: int, input: string, error: Option<string>): string
  {
    if IsSuccess(code) then input else error.GetOr("Erro desconhecido")
  }

  /** `JSONObject(text).optString("message", text)`, falling back to `text` when parsing throws. */
  function MessageOf(text: string, parse: string -> JsonView): string
  {
    match parse(text)
    case Object(Some(m)) => m
    case _ => text
  }

  /** The result an upload reports. */
  datatype Outcome =
    | Sent(filename: string, code: int32, message: string)
    | NotSent(filename: string, reason: string)

  /** Where the reply leads: a status with its message, or the exception's message (`null` when it has none). */
  function OutcomeOf(filename: string, reply: HttpReply, parse: string -> JsonView): (o: Outcome)
    ensures o.filename == filename
    ensures o.NotSent? <==> reply.Failed?
  {
    match reply
    case Failed(m) => NotSent(filename, m.GetOr("null"))
    case Replied(code, input, error) => Sent(filename, code, MessageOf(ResponseText(code, input, error), parse))
  }

  const SentPrefix := "Enviado "
  const Arrow := " \U{2192} Status: "
  const FailPrefix := "Erro ao enviar "

  /** The text shown for an outcome. */
  function Render(o: Outcome): string
  {
    match o
    case Sent(fn, code, msg) => SentPrefix + fn + Arrow + IntToString(code) + "\n" + msg
    case NotSent(fn, reason) => FailPrefix + fn + ": " + reason
  }

  /** The string `uploadBytesToUploadEndpoint` and `commitToDiscloud` return. */
  function Rendered(filename: string, reply: HttpReply, parse: string -> JsonView): string
  {
    Render(OutcomeOf(filename, reply, parse))
  }

  /**
   * Reads a rendered result back: the file name, code and message of a sent
   * upload (up to the first line break and the last arrow), or the file
   * name and reason of a failed one (split at the first `": "`).
   */
  function ReadBack(r: string): Option<Outcome>
  {
    if StartsWith(r, SentPrefix) then
      match IndexOf(r, "\n")
      case None => None
      case Some(nl) =>
        var status := r[..nl];
        match LastIndexOf(status, Arrow)
        case None => None
        case Some(a) =>
          if a < |SentPrefix| then None
          else
            match ToIntOrNull(status[a + |Arrow|..])
            case None => None
            case Some(code) => Some(Sent(status[|SentPrefix|..a], code, r[nl + 1..]))
    else if StartsWith(r, FailPrefix) then
      var rest := r[|FailPrefix|..];
      match IndexOf(rest, ": ")
      case None => None
      case Some(c) => Some(NotSent(rest[..c], rest[c + 2..]))
    else None
  }

  /** The status line of a sent upload holds no line break when the file name holds none. */
  lemma StatusLineSingle(fn: string, code: int32)
    requires '\n' !in fn
    ensures '\n' !in SentPrefix + fn + Arrow + IntToString(code)
  {
    IntToStringChars(code);
    var s := SentPrefix + fn + Arrow + IntToString(code);
    forall i | 0 <= i < |s|
      ensures s[i] != '\n'
    {
      if i < |SentPrefix| {
        assert s[i] == SentPrefix[i];
      } else if i < |SentPrefix| + |fn| {
        assert s[i] == fn[i - |SentPrefix|];
      } else if i < |SentPrefix| + |fn| + |Arrow| {
        assert s[i] == Arrow[i - |SentPrefix| - |fn|];
      } else {
        assert s[i] == IntToString(code)[i - |SentPrefix| - |fn| - |Arrow|];
      }
    }
  }

  /** The arrow occurs only once in `Arrow + digits`, so the last arrow of a status line is the one before the code. */
  lemma ArrowOnceBeforeCode(code: int32)
    ensures !Contains((Arrow + IntToString(code))[1..], Arrow)
  {
    IntToStringChars(code);
    var t := (Arrow + IntToString(code))[1..];
    forall k | 0 <= k <= |t| - |Arrow|
      ensures !OccursAt(t, Arrow, k)
    {
      assert t[k..k + |Arrow|][1] == t[k + 1];
      if k + 2 < |Arrow| {
        assert t[k + 1] == Arrow[k + 2];
      } else {
        assert t[k + 1] == IntToString(code)[k + 2 - |Arrow|];
      }
    }
    ContainsIff(t, Arrow);
  }

  /** The first line break of a sent result ends its status line. */
  lemma SentLineBreak(fn: string, code: int32, msg: string)
    requires '\n' !in fn
    ensures IndexOf(Render(Sent(fn, code, msg)), "\n") == Some(|SentPrefix + fn + Arrow + IntToString(code)|)
  {
    var status := SentPrefix + fn + Arrow + IntToString(code);
    assert Render(Sent(fn, code, msg)) == status + "\n" + msg;
    StatusLineSingle(fn, code);
    ContainsSingle(status, '\n');
    assert (status + "\n")[..|status| + 1 - 1] == status;
    FirstAtJunction(status, "\n", msg);
  }

  /** The last arrow of a status line is the one before the code. */
  lemma StatusArrow(fn: string, code: int32)
    ensures LastIndexOf(SentPrefix + fn + Arrow + IntToString(code), Arrow) == Some(|SentPrefix + fn|)
  {
    ArrowOnceBeforeCode(code);
    LastAtJunction(SentPrefix + fn, Arrow, IntToString(code));
  }

  /** How `ReadBack` takes a sent result apart, once its line break and arrow are located. */
  lemma ReadBackSentSteps(r: string, nl: nat, a: nat, code: int32)
    requires StartsWith(r, SentPrefix)
    requires IndexOf(r, "\n") == Some(nl)
    requires LastIndexOf(r[..nl], Arrow) == Some(a) && a >= |SentPrefix|
    requires ToIntOrNull(r[..nl][a + |Arrow|..]) == Some(code as int)
    ensures ReadBack(r) == Some(Sent(r[..nl][|SentPrefix|..a], code, r[nl + 1..]))
  {
  }

  /** Where the parts of a sent result sit in its text. */
  lemma SentSlices(fn: string, code: int32, msg: string)
    ensures var x := SentPrefix + fn;
      var status := x + Arrow + IntToString(code);
      var r := Render(Sent(fn, code, msg));
      && StartsWith(r, SentPrefix) && |status| < |r|
      && r[..|status|] == status && r[|status| + 1..] == msg
      && status[|x| + |Arrow|..] == IntToString(code) && status[|SentPrefix|..|x|] == fn
  {
    var x := SentPrefix + fn;
    var status := x + Arrow + IntToString(code);
    var r := Render(Sent(fn, code, msg));
    assert r == status + "\n" + msg;
    assert r[..|SentPrefix|] == SentPrefix;
    assert r[..|status|] == status;
    assert r[|status| + 1..] == msg;
    assert status[|x| + |Arrow|..] == IntToString(code);
    assert status[|SentPrefix|..|x|] == fn;
  }

  lemma {:induction false} ReadBackSent(fn: string, code: int32, msg: string)
    requires '\n' !in fn
    ensures ReadBack(Render(Sent(fn, code, msg))) == Some(Sent(fn, code, msg))
  {
    var x := SentPrefix + fn;
    var status := x + Arrow + IntToString(code);
    var r := Render(Sent(fn, code, msg));
    SentSlices(fn, code, msg);
    SentLineBreak(fn, code, msg);
    StatusArrow(fn, code);
    IntToStringRoundTrip(code);
    ReadBackSentSteps(r, |status|, |x|, code);
  }

  lemma {:induction false} ReadBackNotSent(fn: string, reason: string)
    requires !Contains(fn + ":", ": ")
    ensures ReadBack(Render(NotSent(fn, reason))) == Some(NotSent(fn, reason))
  {
    var r := Render(NotSent(fn, reason));
    assert r[1] == 'r' != SentPrefix[1];
    assert !StartsWith(r, SentPrefix);
    assert r[..|FailPrefix|] == FailPrefix;
    var rest := fn + ": " + reason;
    assert r[|FailPrefix|..] == rest;
    assert (fn + ": ")[..|fn| + 2 - 1] == fn + ":";
    FirstAtJunction(fn, ": ", reason);
    assert rest[..|fn|] == fn;
  }

  /**
   * The shown result determines the outcome: a sent upload's file name,
   * status code and message, or a failed upload's file name and reason,
   * provided a sent file name holds no line break and a failed one holds
   * no `": "` (and does not end in a colon).
   */
  lemma ReadBackRender(o: Outcome)
    requires o.Sent? ==> '\n' !in o.filename
    requires o.NotSent? ==> !Contains(o.filename + ":", ": ")
    ensures ReadBack(Render(o)) == Some(o)
  {
    match o
    case Sent(fn, code, msg) => ReadBackSent(fn, code, msg);
    case NotSent(fn, reason) => ReadBackNotSent(fn, reason);
  }

  /**
   * What the shown result says about the reply: an exception shows its
   * message (`null` when it has none); a reply shows its status code and the
   * message of the text read, which is the body on a 2xx status, the error
   * body otherwise, and `Erro desconhecido` when there is no error body.
   */
  lemma RenderedReports(filename: string, reply: HttpReply, parse: string -> JsonView)
    requires '\n' !in filename && !Contains(filename + ":", ": ")
    ensures var r := ReadBack(Rendered(filename, reply, parse));
      && r.Some? && r.value.filename == filename
      && (reply.Failed? ==> r.value == NotSent(filename, reply.exceptionMessage.GetOr("null")))
      && (reply.Replied? && IsSuccess(reply.code) ==>
            r.value == Sent(filename, reply.code, MessageOf(reply.input, parse)))
      && (reply.Replied? && !IsSuccess(reply.code) && reply.error.Some? ==>
            r.value == Sent(filename, reply.code, MessageOf(reply.error.value, parse)))
      && (reply.Replied? && !IsSuccess(reply.code) && reply.error.None? ==>
            r.value == Sent(filename, reply.code, MessageOf("Erro desconhecido", parse)))
  {
    ReadBackRender(OutcomeOf(filename, reply, parse));
  }

  /** A name without a colon cannot hold `": "`, even with a colon appended. */
  lemma ColonFreeName(fn: string)
    requires ':' !in fn
    ensures !Contains(fn + ":", ": ")
  {
    var x := fn + ":";
    forall k | 0 <= k <= |x| - 2
      ensures !OccursAt(x, ": ", k)
    {
      assert x[k..k + 2][0] == x[k] == fn[k];
    }
    ContainsIff(x, ": ");
  }
}
