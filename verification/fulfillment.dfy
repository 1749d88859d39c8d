/**
  "Generate PDF and post adjustment": the finalized lines are, when stock
  adjustment is switched on, sent one by one to the ERP's stock-adjustment
  call, each reply is classified on its own, and the receipt is rendered
  whatever the replies were. The HTTP client is a parameter: a function from
  the call's position and its request to the reply it got.
 */
module Fulfillment {

  import opened Results
  import opened Text
  import opened Replace
  import opened LineItems
  import opened Receipt

  /** The ERP call that records a stock adjustment. */
  const AdjustCall: string := "IncluirAjusteEstoque"
  const StockLocation: int := 0
  const Origin: string := "AJU"
  const Kind: string := "SAI"
  const Reason: string := "INV"
  const OkStatus: int := 200

  datatype Credentials = Credentials(appKey: string, appSecret: string)

  /** The single entry of a request's `param` list. */
  datatype Adjustment = Adjustment(
    stockLocation: int,
    code: int,
    date: string,
    quantity: string,
    note: string,
    origin: string,
    kind: string,
    reason: string)

  datatype Request = Request(call: string, appKey: string, appSecret: string, param: seq<Adjustment>)

  /** The body of an HTTP reply: a JSON object with the two optional fault
      fields, or a body that cannot be read as one. A body that is not JSON,
      and JSON that is not an object (whose `.get` raises), are both
      `Unreadable`, with the text of the exception raised. */
  datatype Body =
    | Json(faultcode: Option<string>, faultstring: Option<string>)
    | Unreadable(error: string)

  /** What the client produced: an HTTP reply, or an exception (no connection,
      timeout, ...). */
  datatype Reply =
    | Answered(status: int, body: Body)
    | Raised(error: string)

  /** What the program reports for one line. */
  datatype Outcome =
    | Adjusted(code: int)
    | Fault(code: int, faultstring: Option<string>)
    | HttpStatus(code: int, status: int)
    | Transport(code: int, error: string)

  /** Everything one press of the button produced: the requests sent, the
      outcome of each, and the receipt markup (`None` when the template file
      is missing). */
  datatype Submission = Submission(requests: seq<Request>, outcomes: seq<Outcome>, document: Option<string>)

  /** The audit note of the adjustment, naming the employee in capitals and the
      receipt's date. */
  function Note(upper: string -> string, name: string, receiptDate: string): string {
    "FOI ENTREGUE AO COLABORADOR " + upper(name)
    + " O(S) EPI(S) RELACIONADOS NO COMPROVANTE GERADO EM " + receiptDate + "."
  }

  /** The audit note names the employee, in capitals, and the receipt's date. */
  lemma NoteNamesEmployeeAndDate(upper: string -> string, name: string, receiptDate: string)
    ensures Occurs(Note(upper, name, receiptDate), upper(name))
    ensures Occurs(Note(upper, name, receiptDate), receiptDate)
  {
    var a := "FOI ENTREGUE AO COLABORADOR ";
    var b := " O(S) EPI(S) RELACIONADOS NO COMPROVANTE GERADO EM ";
    var u := upper(name);
    assert Note(upper, name, receiptDate) == a + u + b + receiptDate + ".";
    OccursAtEnd(a, u);
    OccursExtend(a + u, b, u);
    OccursExtend(a + u + b, receiptDate, u);
    OccursExtend(a + u + b + receiptDate, ".", u);
    OccursAtEnd(a + u + b, receiptDate);
    OccursExtend(a + u + b + receiptDate, ".", receiptDate);
  }

  /** The request that takes one committed line out of stock. */
  function AdjustmentRequest(creds: Credentials, upper: string -> string, name: string,
                             receiptDate: string, stockDate: string, l: Line): (r: Request)
    ensures r.call == AdjustCall && r.appKey == creds.appKey && r.appSecret == creds.appSecret
    ensures |r.param| == 1
    ensures r.param[0].code == l.code && r.param[0].date == stockDate
    ensures r.param[0].quantity == IntToString(l.qty) && ParseInt(r.param[0].quantity) == Some(l.qty as int)
    ensures r.param[0].note == Note(upper, name, receiptDate)
    ensures r.param[0].stockLocation == StockLocation
    ensures r.param[0].origin == Origin && r.param[0].kind == Kind && r.param[0].reason == Reason
  {
    IntToStringRoundTrip(l.qty);
    Request(AdjustCall, creds.appKey, creds.appSecret,
      [Adjustment(StockLocation, l.code, stockDate, IntToString(l.qty), Note(upper, name, receiptDate), Origin, Kind, Reason)])
  }

  /** A JSON value is truthy in Python unless it is missing or empty. */
  predicate Truthy(v: Option<string>) {
    v.Some? && v.value != []
  }

  /** The ERP took the adjustment: status 200 and a readable body without a fault code. */
  predicate Accepted(reply: Reply) {
    reply.Answered? && reply.status == OkStatus && reply.body.Json? && !Truthy(reply.body.faultcode)
  }

  /** Classifies the reply to the request for item `code`. A body that cannot
      be read is reported like a transport error, because the exception it
      raises is caught by the same handler. */
  function Classify(code: int, reply: Reply): (o: Outcome)
    ensures o.code == code
    ensures o.Adjusted? <==> Accepted(reply)
    ensures o.Fault? <==> reply.Answered? && reply.status == OkStatus && reply.body.Json? && Truthy(reply.body.faultcode)
    ensures o.Fault? ==> o.faultstring == reply.body.faultstring
    ensures o.HttpStatus? <==> reply.Answered? && reply.status != OkStatus
    ensures o.HttpStatus? ==> o.status == reply.status
    ensures o.Transport? <==> reply.Raised? || (reply.Answered? && reply.status == OkStatus && reply.body.Unreadable?)
    ensures o.Transport? ==> o.error == (if reply.Raised? then reply.error else reply.body.error)
  {
    match reply
    case Raised(e) => Transport(code, e)
    case Answered(status, body) =>
      if status == OkStatus then
        match body
        case Unreadable(e) => Transport(code, e)
        case Json(faultcode, faultstring) =>
          if Truthy(faultcode) then Fault(code, faultstring) else Adjusted(code)
      else HttpStatus(code, status)
  }

  /** One request per committed line, in order. */
  function Requests(creds: Credentials, upper: string -> string, name: string,
                    receiptDate: string, stockDate: string, lines: seq<Line>): (r: seq<Request>)
    ensures |r| == |lines|
    ensures forall k :: 0 <= k < |lines| ==> r[k] == AdjustmentRequest(creds, upper, name, receiptDate, stockDate, lines[k])
  {
    seq(|lines|, k requires 0 <= k < |lines| => AdjustmentRequest(creds, upper, name, receiptDate, stockDate, lines[k]))
  }

  /** The outcome of every request, each classified from the reply to that
      request alone. */
  function Outcomes(requests: seq<Request>, client: (nat, Request) -> Reply): (o: seq<Outcome>)
    requires forall k :: 0 <= k < |requests| ==> |requests[k].param| == 1
    ensures |o| == |requests|
    ensures forall k :: 0 <= k < |o| ==> o[k] == Classify(requests[k].param[0].code, client(k, requests[k]))
  {
    seq(|requests|, k requires 0 <= k < |requests| => Classify(requests[k].param[0].code, client(k, requests[k])))
  }

  lemma RequestsExtend(creds: Credentials, upper: string -> string, name: string,
                       receiptDate: string, stockDate: string, lines: seq<Line>, k: nat)
    requires k < |lines|
    ensures Requests(creds, upper, name, receiptDate, stockDate, lines[..k + 1])
      == Requests(creds, upper, name, receiptDate, stockDate, lines[..k])
         + [AdjustmentRequest(creds, upper, name, receiptDate, stockDate, lines[k])]
  {
    assert lines[..k + 1][k] == lines[k];
  }

  lemma OutcomesExtend(requests: seq<Request>, request: Request, client: (nat, Request) -> Reply)
    requires forall k :: 0 <= k < |requests| ==> |requests[k].param| == 1
    requires |request.param| == 1
    ensures Outcomes(requests + [request], client)
      == Outcomes(requests, client) + [Classify(request.param[0].code, client(|requests|, request))]
  {
  }

  /** The adjustment loop: every committed line is sent in turn, and a failure
      of one line neither stops nor changes the lines after it. */
  method Commit(creds: Credentials, upper: string -> string, name: string,
                receiptDate: string, stockDate: string, lines: seq<Line>, client: (nat, Request) -> Reply)
    returns (requests: seq<Request>, outcomes: seq<Outcome>)
    ensures requests == Requests(creds, upper, name, receiptDate, stockDate, lines)
    ensures outcomes == Outcomes(requests, client)
    ensures forall k :: 0 <= k < |lines| ==> outcomes[k].code == lines[k].code
  {
    requests := [];
    outcomes := [];
    var k := 0;
    while k < |lines|
      invariant 0 <= k <= |lines|
      invariant requests == Requests(creds, upper, name, receiptDate, stockDate, lines[..k])
      invariant outcomes == Outcomes(requests, client)
    {
      var request := AdjustmentRequest(creds, upper, name, receiptDate, stockDate, lines[k]);
      var reply := client(k, request);
      RequestsExtend(creds, upper, name, receiptDate, stockDate, lines, k);
      OutcomesExtend(requests, request, client);
      requests := requests + [request];
      outcomes := outcomes + [Classify(lines[k].code, reply)];
      k := k + 1;
    }
    assert lines[..k] == lines;
  }

  /** Pressing "generate PDF and post adjustment" on a draft: the draft is
      finalized, the adjustments are sent when `adjust` is on, and the
      receipt is rendered from the template (`None` when the template file is
      missing) with the employee's name and company, the receipt date and the
      committed lines. */
  function Submit(d: Draft, adjust: bool, creds: Credentials, upper: string -> string,
                  receiptDate: string, stockDate: string, template: Option<string>,
                  client: (nat, Request) -> Reply): (r: Result<Submission, DraftError>)
    ensures r.Err? <==> forall i :: 0 <= i < |d.lines| ==> d.lines[i].qty == 0
    ensures r.Err? ==> r.error == NothingToDeliver
    ensures r.Ok? && !adjust ==> r.value.requests == [] && r.value.outcomes == []
    ensures r.Ok? && adjust ==>
      var committed := Positive(d.lines);
      && |r.value.requests| == |r.value.outcomes| == |committed|
      && (forall k :: 0 <= k < |committed| ==>
            r.value.requests[k] == AdjustmentRequest(creds, upper, d.employee.name, receiptDate, stockDate, committed[k]))
      && (forall k :: 0 <= k < |committed| ==> r.value.outcomes[k] == Classify(committed[k].code, client(k, r.value.requests[k])))
    ensures r.Ok? ==> (r.value.document.Some? <==> template.Some?)
    ensures r.Ok? && template.Some? ==>
      r.value.document.value == Render(template.value, d.employee.name, d.employee.company, receiptDate, Positive(d.lines))
  {
    match Finalize(d.lines)
    case Err(e) => Err(e)
    case Ok(committed) =>
      var requests := if adjust then Requests(creds, upper, d.employee.name, receiptDate, stockDate, committed) else [];
      var outcomes := Outcomes(requests, client);
      var document :=
        if template.Some? then Some(Render(template.value, d.employee.name, d.employee.company, receiptDate, committed))
        else None;
      Ok(Submission(requests, outcomes, document))
  }

  /** The receipt does not depend on the ERP: whatever two clients reply, the
      same draft gives the same document. */
  lemma DocumentIgnoresReplies(d: Draft, adjust: bool, creds: Credentials, upper: string -> string,
                               receiptDate: string, stockDate: string, template: Option<string>,
                               client1: (nat, Request) -> Reply, client2: (nat, Request) -> Reply)
    ensures var r1 := Submit(d, adjust, creds, upper, receiptDate, stockDate, template, client1);
            var r2 := Submit(d, adjust, creds, upper, receiptDate, stockDate, template, client2);
            r1.Ok? == r2.Ok? && (r1.Ok? ==> r1.value.document == r2.value.document && r1.value.requests == r2.value.requests)
  {
  }

  /** Lines are independent: the outcome of a line depends only on the reply
      to its own request, so two clients that answer line `k` alike give line
      `k` the same outcome, whatever they did to the other lines. */
  lemma OutcomeIsPerLine(d: Draft, creds: Credentials, upper: string -> string,
                         receiptDate: string, stockDate: string, template: Option<string>,
                         client1: (nat, Request) -> Reply, client2: (nat, Request) -> Reply, k: nat)
    requires var r := Submit(d, true, creds, upper, receiptDate, stockDate, template, client1);
             r.Ok? && k < |r.value.requests| && client1(k, r.value.requests[k]) == client2(k, r.value.requests[k])
    ensures var r1 := Submit(d, true, creds, upper, receiptDate, stockDate, template, client1);
            var r2 := Submit(d, true, creds, upper, receiptDate, stockDate, template, client2);
            r2.Ok? && r1.value.outcomes[k] == r2.value.outcomes[k]
  {
  }

  /** Two checked items, 101 and 102, with the request for 101 failing and the
      one for 102 accepted: both are reported on, 101 as failed, and the
      receipt still lists both. */
  lemma OneFailureDoesNotStopTheRest(e: Employee, creds: Credentials, upper: string -> string,
                                     receiptDate: string, stockDate: string, template: string,
                                     client: (nat, Request) -> Reply)
    requires client(0, AdjustmentRequest(creds, upper, e.name, receiptDate, stockDate, Line(101, "Luva", 2))) == Raised("timeout")
    requires client(1, AdjustmentRequest(creds, upper, e.name, receiptDate, stockDate, Line(102, "Bota", 1))) == Answered(200, Json(None, None))
    ensures var r := Submit(Draft(e, [Line(101, "Luva", 2), Line(102, "Bota", 1)], [2, 1]), true, creds, upper,
                            receiptDate, stockDate, Some(template), client);
            && r.Ok?
            && r.value.outcomes == [Transport(101, "timeout"), Adjusted(102)]
            && r.value.document == Some(Render(template, e.name, e.company, receiptDate,
                                               [Line(101, "Luva", 2), Line(102, "Bota", 1)]))
  {
    var lines := [Line(101, "Luva", 2), Line(102, "Bota", 1)];
    assert Positive(lines) == lines by {
      assert lines[1..] == [Line(102, "Bota", 1)] && lines[1..][1..] == [];
    }
    var r := Submit(Draft(e, lines, [2, 1]), true, creds, upper, receiptDate, stockDate, Some(template), client);
    assert lines[0].qty != 0;
    assert r.Ok?;
    var o := r.value.outcomes;
    assert |o| == 2;
    assert o[0] == Transport(101, "timeout");
    assert o[1] == Adjusted(102);
  }
}
