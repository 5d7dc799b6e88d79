/** The compressing response writer. Compression is abstract: the wire carries either raw bytes or
    one compressed stream, of which we keep the bytes that went in. */
module GzipWriter {
  import opened Common
  import opened Text

  datatype Headers = Headers(contentType: string, contentEncoding: string, contentLength: bool, vary: bool)

  /** What the client gets: the headers as they stood when sent, and the body. */
  datatype Wire = Wire(status: Option<int>, sent: Headers, headerCalls: nat, raw: string, zipped: Option<string>)

  datatype Op = SetType(ct: string) | SetEncoding(enc: string) | WriteHeader(code: int) | Write(b: string) | Flush

  const NO_HEADERS := Headers("", "", false, false)

  const OTHER_TYPES: set<string> := {
    "application/javascript", "application/json", "application/xml", "application/rss+xml",
    "application/atom+xml", "application/feed+json"
  }

  /** The media type before the first semicolon decides. */
  predicate Compressible(ct: string) {
    var base := TrimSpace(Split(ct, ";")[0]);
    base in OTHER_TYPES || "text/" <= base
  }

  predicate Starts(head: bool, code: int, h: Headers) {
    !head && code == 200 && h.contentEncoding == "" && Compressible(h.contentType)
  }

  // ---- What a handler's calls ask for, read off the calls alone ----

  predicate Commits(op: Op) { op.WriteHeader? || op.Write? }

  function Code(op: Op): int { if op.WriteHeader? then op.code else 200 }

  /** How many calls come before the first header or write. */
  function FirstCommit(ops: seq<Op>): (n: nat)
    ensures n <= |ops|
    ensures forall i :: 0 <= i < n ==> !Commits(ops[i])
    ensures n < |ops| ==> Commits(ops[n])
  {
    if ops == [] || Commits(ops[0]) then 0 else 1 + FirstCommit(ops[1..])
  }

  function AfterSet(h: Headers, op: Op): Headers {
    match op
    case SetType(ct) => h.(contentType := ct)
    case SetEncoding(enc) => h.(contentEncoding := enc)
    case _ => h
  }

  /** The headers a run of calls has set up. */
  function Asked(ops: seq<Op>): Headers {
    if ops == [] then NO_HEADERS else AfterSet(Asked(ops[..|ops| - 1]), ops[|ops| - 1])
  }

  /** The headers set up at the first flush, if there is one. */
  function AtFlush(ops: seq<Op>): Option<Headers> {
    if ops == [] then None
    else
      var before := ops[..|ops| - 1];
      if AtFlush(before).None? && ops[|ops| - 1].Flush? then Some(Asked(before)) else AtFlush(before)
  }

  /** Everything the handler wrote, in order. */
  function Written(ops: seq<Op>): string {
    if ops == [] then "" else Written(ops[..|ops| - 1]) + (if ops[|ops| - 1].Write? then ops[|ops| - 1].b else "")
  }

  predicate Compresses(head: bool, ops: seq<Op>) {
    var n := FirstCommit(ops);
    n < |ops| && Starts(head, Code(ops[n]), Asked(ops[..n]))
  }

  /** The response is compressed, but a flush had already sent headers that did not announce gzip. */
  predicate LosesEncoding(head: bool, ops: seq<Op>) {
    var early := AtFlush(ops[..FirstCommit(ops)]);
    Compresses(head, ops) && early.Some? && early.value.contentEncoding != "gzip"
  }

  lemma {:induction false} NothingWritten(ops: seq<Op>)
    requires forall i :: 0 <= i < |ops| ==> !Commits(ops[i])
    ensures Written(ops) == ""
  {
    if ops != [] {
      NothingWritten(ops[..|ops| - 1]);
      assert !Commits(ops[|ops| - 1]);
    }
  }

  lemma {:induction false} NoFlush(ops: seq<Op>)
    requires forall i :: 0 <= i < |ops| ==> !ops[i].Flush?
    ensures AtFlush(ops) == None
  {
    if ops != [] { NoFlush(ops[..|ops| - 1]); }
  }

  /** Without a flush before the first header or write, the announcement is never lost. */
  lemma LateFlushIsSafe(head: bool, ops: seq<Op>)
    requires forall i :: 0 <= i < FirstCommit(ops) ==> !ops[i].Flush?
    ensures !LosesEncoding(head, ops)
  {
    NoFlush(ops[..FirstCommit(ops)]);
  }

  /** How far a response has got: nothing written, with the headers an early flush has sent, or the
      header out and a body accepted, through one of the two ways only. */
  datatype Phase =
    | Open(asked: Headers, early: Option<Headers>)
    | Committed(zip: bool, sent: Headers, code: int, body: string)

  /** The headers the client sees: those of an early flush, else those of the commit. */
  function Outgoing(head: bool, code: int, asked: Headers, early: Option<Headers>): Headers {
    if early.Some? then early.value
    else if Starts(head, code, asked) then asked.(contentEncoding := "gzip", vary := true, contentLength := false)
    else asked
  }

  function Commit(head: bool, p: Phase, code: int, body: string): Phase
    requires p.Open?
  {
    Committed(Starts(head, code, p.asked), Outgoing(head, code, p.asked, p.early),
              if p.early.Some? then 200 else code, body)
  }

  function Next(head: bool, p: Phase, op: Op): Phase {
    match p
    case Open(asked, early) =>
      (match op
       case WriteHeader(code) => Commit(head, p, code, "")
       case Write(b) => Commit(head, p, 200, b)
       case Flush => Open(asked, if early.None? then Some(asked) else early)
       case _ => Open(AfterSet(asked, op), early))
    case Committed(_, _, _, body) =>
      if op.Write? then p.(body := body + op.b) else p
  }

  class Writer {
    var headers: Headers
    var wire: Wire
    var headerWritten: bool
    var status: int
    var zipping: bool
    const head: bool

    constructor (head: bool)
      ensures this.head == head
      ensures At(Open(NO_HEADERS, None))
    {
      headers := NO_HEADERS;
      wire := Wire(None, NO_HEADERS, 0, "", None);
      headerWritten, status, zipping := false, 0, false;
      this.head := head;
    }

    /** The fields realise this phase. */
    ghost predicate At(p: Phase)
      reads this
    {
      match p
      case Open(asked, early) =>
        && !headerWritten && !zipping && status == 0 && headers == asked
        && wire.headerCalls == 0 && wire.raw == "" && wire.zipped == None
        && wire.status == (if early.Some? then Some(200) else None)
        && (early.Some? ==> wire.sent == early.value)
      case Committed(zip, sent, code, body) =>
        && headerWritten && zipping == zip
        && wire == Wire(Some(code), sent, 1, if zip then "" else body, if zip then Some(body) else None)
    }

    /** The inner writer commits the headers once; later calls are superfluous. */
    method InnerWriteHeader(code: int)
      modifies this`wire
      ensures wire == old(wire).(headerCalls := old(wire).headerCalls + 1,
                                 status := if old(wire).status.None? then Some(code) else old(wire).status,
                                 sent := if old(wire).status.None? then headers else old(wire).sent)
    {
      wire := wire.(headerCalls := wire.headerCalls + 1,
                    status := if wire.status.None? then Some(code) else wire.status,
                    sent := if wire.status.None? then headers else wire.sent);
    }

    method MaybeStartGzip(code: int)
      modifies this
      ensures status == old(status)
      ensures if !old(headerWritten) && Starts(head, code, old(headers)) then
                && headerWritten && zipping
                && headers == old(headers).(contentEncoding := "gzip", vary := true, contentLength := false)
                && wire == old(wire).(headerCalls := old(wire).headerCalls + 1, zipped := Some(""),
                                      status := if old(wire).status.None? then Some(code) else old(wire).status,
                                      sent := if old(wire).status.None? then headers else old(wire).sent)
              else headerWritten == old(headerWritten) && zipping == old(zipping) && headers == old(headers) && wire == old(wire)
    {
      if headerWritten || head || code != 200 || headers.contentEncoding != "" || !Compressible(headers.contentType) {
        return;
      }
      headers := headers.(contentEncoding := "gzip", vary := true, contentLength := false);
      zipping := true;
      wire := wire.(zipped := Some(""));
      InnerWriteHeader(code);
      headerWritten := true;
    }

    method DoWriteHeader(code: int, ghost p: Phase)
      requires At(p)
      modifies this
      ensures At(Next(head, p, WriteHeader(code)))
    {
      if headerWritten {
        return;
      }
      status := code;
      MaybeStartGzip(code);
      if !headerWritten {
        InnerWriteHeader(code);
        headerWritten := true;
      }
    }

    method DoWrite(b: string, ghost p: Phase)
      requires At(p)
      modifies this
      ensures At(Next(head, p, Write(b)))
    {
      ghost var q := p;
      if !headerWritten {
        if status == 0 {
          status := 200;
        }
        MaybeStartGzip(status);
        if !headerWritten {
          InnerWriteHeader(status);
          headerWritten := true;
        }
        q := Commit(head, p, 200, "");
        assert "" + b == b;
      }
      assert At(q);
      if zipping {
        wire := wire.(zipped := Some(wire.zipped.value + b));
      } else {
        wire := wire.(raw := wire.raw + b);
      }
    }

    /** Flushing an uncommitted response makes the inner writer commit a 200 with the headers so far. */
    method DoFlush(ghost p: Phase)
      requires At(p)
      modifies this`wire
      ensures At(Next(head, p, Flush))
    {
      if wire.status.None? {
        wire := wire.(status := Some(200), sent := headers);
      }
    }

    method Apply(op: Op, ghost p: Phase)
      requires At(p)
      modifies this
      ensures At(Next(head, p, op))
    {
      match op
      case SetType(ct) => headers := headers.(contentType := ct);
      case SetEncoding(enc) => headers := headers.(contentEncoding := enc);
      case WriteHeader(code) => DoWriteHeader(code, p);
      case Write(b) => DoWrite(b, p);
      case Flush => DoFlush(p);
    }
  }

  /** The decoded body: what a client that honours Content-Encoding reads. */
  function Decoded(w: Wire): string {
    if w.zipped.Some? then w.zipped.value else w.raw
  }

  lemma Snoc(ops: seq<Op>, i: nat)
    requires i < |ops|
    ensures Asked(ops[..i + 1]) == AfterSet(Asked(ops[..i]), ops[i])
    ensures AtFlush(ops[..i + 1]) == if ops[i].Flush? && AtFlush(ops[..i]).None? then Some(Asked(ops[..i])) else AtFlush(ops[..i])
    ensures Written(ops[..i + 1]) == if ops[i].Write? then Written(ops[..i]) + ops[i].b else Written(ops[..i])
  {
    assert ops[..i + 1][..i] == ops[..i];
  }

  /** The phase after the first `i` calls, read off the calls. */
  ghost function PhaseAfter(head: bool, ops: seq<Op>, i: nat): Phase
    requires i <= |ops|
  {
    var n := FirstCommit(ops);
    if i <= n then Open(Asked(ops[..i]), AtFlush(ops[..i]))
    else Commit(head, Open(Asked(ops[..n]), AtFlush(ops[..n])), Code(ops[n]), Written(ops[..i]))
  }

  lemma OpenStep(head: bool, ops: seq<Op>, i: nat)
    requires i < FirstCommit(ops)
    ensures PhaseAfter(head, ops, i + 1) == Next(head, PhaseAfter(head, ops, i), ops[i])
  {
    Snoc(ops, i);
  }

  lemma CommitStep(head: bool, ops: seq<Op>, i: nat)
    requires i == FirstCommit(ops) < |ops|
    ensures PhaseAfter(head, ops, i + 1) == Next(head, PhaseAfter(head, ops, i), ops[i])
  {
    Snoc(ops, i);
    NothingWritten(ops[..i]);
    if ops[i].Write? { assert "" + ops[i].b == ops[i].b; }
  }

  lemma CommittedStep(head: bool, ops: seq<Op>, i: nat)
    requires FirstCommit(ops) < i < |ops|
    ensures PhaseAfter(head, ops, i + 1) == Next(head, PhaseAfter(head, ops, i), ops[i])
  {
    Snoc(ops, i);
  }

  lemma PhaseStep(head: bool, ops: seq<Op>, i: nat)
    requires i < |ops|
    ensures PhaseAfter(head, ops, i + 1) == Next(head, PhaseAfter(head, ops, i), ops[i])
  {
    if i < FirstCommit(ops) {
      OpenStep(head, ops, i);
    } else if i == FirstCommit(ops) {
      CommitStep(head, ops, i);
    } else {
      CommittedStep(head, ops, i);
    }
  }

  /** One whole handler run, whatever it does. The header goes out at most once, the body goes out one
      way only and decodes to everything written, and it is compressed exactly when the first header or
      write asks for it. A compressed body was announced exactly when no early flush lost the header. */
  method Serve(head: bool, ops: seq<Op>) returns (w: Wire)
    ensures w.headerCalls == if FirstCommit(ops) < |ops| then 1 else 0
    ensures Decoded(w) == Written(ops)
    ensures w.zipped.Some? <==> Compresses(head, ops)
    ensures w.zipped.Some? ==> w.raw == "" && w.status == Some(200)
    ensures w.zipped.Some? && w.sent.contentEncoding != "gzip" <==> LosesEncoding(head, ops)
    ensures var n := FirstCommit(ops);
            var early := AtFlush(ops[..n]);
            if early.Some? then w.status == Some(200) && w.sent == early.value
            else if n == |ops| then w.status == None
            else
              && w.status == Some(if ops[n].WriteHeader? then ops[n].code else 200)
              && w.sent.contentType == Asked(ops[..n]).contentType
              && (w.zipped.None? ==> w.sent == Asked(ops[..n]))
              && (w.zipped.Some? ==> w.sent.contentEncoding == "gzip" && w.sent.vary && !w.sent.contentLength)
  {
    var writer := new Writer(head);
    for i := 0 to |ops|
      invariant fresh(writer) && writer.head == head
      invariant writer.At(PhaseAfter(head, ops, i))
    {
      PhaseStep(head, ops, i);
      writer.Apply(ops[i], PhaseAfter(head, ops, i));
    }
    assert ops[..|ops|] == ops;
    if FirstCommit(ops) == |ops| { NothingWritten(ops); }
    w := writer.wire;
  }

  /** The last type set is the one asked for. */
  lemma {:induction false} LastTypeWins(ops: seq<Op>, i: nat)
    requires i < |ops| && ops[i].SetType? && forall j :: i < j < |ops| ==> !ops[j].SetType?
    ensures Asked(ops).contentType == ops[i].ct
  {
    if i < |ops| - 1 {
      LastTypeWins(ops[..|ops| - 1], i);
    }
  }

  /** A bare media type is compressed if it is textual or one of the listed application types. */
  lemma CompressibleIff(ct: string)
    requires ';' !in ct && (ct != "" ==> ct[0] !in SPACES && ct[|ct| - 1] !in SPACES)
    ensures Compressible(ct) <==>
            || "text/" <= ct || ct == "application/javascript" || ct == "application/json" || ct == "application/xml"
            || ct == "application/rss+xml" || ct == "application/atom+xml" || ct == "application/feed+json"
  {
    var sep := ";";
    assert sep[0] !in ct;
    WholeWithout(ct, sep, 0);
    assert TrimSpace(ct) == ct;
  }

  /** Parameters such as the charset do not matter. */
  lemma ParametersDoNotMatter(ct: string, p: string)
    requires ';' !in ct
    ensures Compressible(ct + ";" + p) == Compressible(ct)
  {
    var sep := ";";
    assert sep[0] !in ct;
    WholeWithout(ct, sep, 0);
    SplitAppend(ct, sep, p);
  }

  lemma HtmlIsCompressible()
    ensures Compressible("text/html")
  {
    var ct := "text/html";
    assert ct[..5] == "text/";
    CompressibleIff(ct);
  }

  /** A flush before the first write sends the headers without Content-Encoding, and the compressed body
      that follows goes out unannounced: for every compressible type, `text/html` among them. */
  lemma EarlyFlushLosesEncoding(ct: string, b: string)
    requires Compressible(ct)
    ensures LosesEncoding(false, [SetType(ct), Flush, Write(b)])
  {
    var ops := [SetType(ct), Flush, Write(b)];
    FlushedFirst(ops, ct);
    assert !Commits(ops[0]) && !Commits(ops[1]) && Commits(ops[2]);
    assert FirstCommit(ops) == 2;
  }

  lemma FlushedFirst(ops: seq<Op>, ct: string)
    requires |ops| >= 2 && ops[0] == SetType(ct) && ops[1] == Flush
    ensures Asked(ops[..2]) == NO_HEADERS.(contentType := ct)
    ensures AtFlush(ops[..2]) == Some(NO_HEADERS.(contentType := ct))
  {
    Snoc(ops, 0);
    Snoc(ops, 1);
  }

  /** An HTML page flushed before its first byte goes out compressed and unannounced. */
  lemma HtmlFlushLosesEncoding(b: string)
    ensures LosesEncoding(false, [SetType("text/html"), Flush, Write(b)])
  {
    HtmlIsCompressible();
    EarlyFlushLosesEncoding("text/html", b);
  }
}
