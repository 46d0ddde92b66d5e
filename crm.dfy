/** The lead endpoints over an in-memory `leads` table: submit (validate,
    reject a duplicate phone, insert, then the two outbound calls), delete
    by id and the dashboard listing. */
module Crm {
  import opened Wrappers
  import opened Text
  import opened Validation
  import opened Leads

  const PhoneAlreadyExists := "Phone already exists"
  const LeadSaved := "Lead saved successfully"

  /** The JSON reply `{success, message}`; `message` is absent from the
      reply of a successful delete. */
  datatype Reply = Reply(success: bool, message: Option<string>)

  /** How an outbound call ended: normally, or by raising an exception
      whose text is `error`. */
  datatype StepOutcome = Completed | Raised(error: string)

  /** An outbound call the endpoint attempts, with its arguments. */
  datatype ExternalCall =
    | AppendSheetRow(cells: seq<string>)
    | SendWhatsApp(name: string, phone: string)

  /** Everything a submission decides: the reply, the table afterwards and
      the outbound calls attempted, in order. */
  datatype Submission = Submission(reply: Reply, rows: seq<Lead>, nextId: nat, calls: seq<ExternalCall>)

  /** What `POST /submit_lead` does to a table `rows` whose AUTOINCREMENT
      counter is `nextId`. The spreadsheet step's outcome `sheets` is caught
      and only logged; a `whatsapp` exception reaches the endpoint's outer
      handler after the row was committed. */
  function Submit(rows: seq<Lead>, nextId: nat, body: map<string, string>, createdAt: string,
                  sheets: StepOutcome, whatsapp: StepOutcome): Submission
  {
    match Validate(Field(body, "name"), Field(body, "phone"), Field(body, "source"))
    case Failure(msg) =>
      Submission(Reply(false, Some(msg)), rows, nextId, [])
    case Success(f) =>
      if HasPhone(rows, f.phone) then
        Submission(Reply(false, Some(PhoneAlreadyExists)), rows, nextId, [])
      else
        var reply := match whatsapp
          case Raised(e) => Reply(false, Some(e))
          case Completed => Reply(true, Some(LeadSaved));
        Submission(reply, rows + [Lead(nextId, f.name, f.phone, f.source, createdAt)], nextId + 1,
                   [AppendSheetRow([f.name, f.phone, f.source, createdAt]), SendWhatsApp(f.name, f.phone)])
  }

  /** A field that is missing or whitespace only rejects the submission with
      "All fields are required", whatever the phone looks like; nothing is
      stored and nothing is sent. */
  lemma MissingFieldRejected(rows: seq<Lead>, nextId: nat, body: map<string, string>, createdAt: string,
                             sheets: StepOutcome, whatsapp: StepOutcome)
    requires Blank(Field(body, "name")) || Blank(Field(body, "phone")) || Blank(Field(body, "source"))
    ensures Submit(rows, nextId, body, createdAt, sheets, whatsapp)
            == Submission(Reply(false, Some(AllFieldsRequired)), rows, nextId, [])
  {
  }

  /** With all three fields present, a phone whose stripped form is not ten
      digits rejects the submission with "Phone must be 10 digits". */
  lemma MalformedPhoneRejected(rows: seq<Lead>, nextId: nat, body: map<string, string>, createdAt: string,
                               sheets: StepOutcome, whatsapp: StepOutcome)
    requires !Blank(Field(body, "name")) && !Blank(Field(body, "phone")) && !Blank(Field(body, "source"))
    requires !IsTenDigitPhone(Strip(Field(body, "phone")))
    ensures Submit(rows, nextId, body, createdAt, sheets, whatsapp)
            == Submission(Reply(false, Some(PhoneMustBe10Digits)), rows, nextId, [])
  {
  }

  /** A valid submission whose phone is already stored is refused with
      "Phone already exists"; nothing is stored and nothing is sent. */
  lemma DuplicatePhoneRejected(rows: seq<Lead>, nextId: nat, body: map<string, string>, createdAt: string,
                               sheets: StepOutcome, whatsapp: StepOutcome)
    requires Validate(Field(body, "name"), Field(body, "phone"), Field(body, "source")).Success?
    requires HasPhone(rows, Strip(Field(body, "phone")))
    ensures Submit(rows, nextId, body, createdAt, sheets, whatsapp)
            == Submission(Reply(false, Some(PhoneAlreadyExists)), rows, nextId, [])
  {
  }

  /** A valid submission with a new phone appends exactly one row: the
      stripped fields and `createdAt`, under an id above every stored id.
      The rows before it are untouched, and the sheet row and the WhatsApp
      message go out in that order with the stripped values. */
  lemma NewLeadAppended(rows: seq<Lead>, nextId: nat, body: map<string, string>, createdAt: string,
                        sheets: StepOutcome, whatsapp: StepOutcome)
    requires TableInvariant(rows, nextId)
    requires Validate(Field(body, "name"), Field(body, "phone"), Field(body, "source")).Success?
    requires !HasPhone(rows, Strip(Field(body, "phone")))
    ensures var o := Submit(rows, nextId, body, createdAt, sheets, whatsapp);
            var name, phone, source := Strip(Field(body, "name")), Strip(Field(body, "phone")), Strip(Field(body, "source"));
            && |o.rows| == |rows| + 1
            && o.rows[..|rows|] == rows
            && o.rows[|rows|] == Lead(nextId, name, phone, source, createdAt)
            && (forall i :: 0 <= i < |rows| ==> rows[i].id < o.rows[|rows|].id)
            && o.nextId == nextId + 1
            && o.calls == [AppendSheetRow([name, phone, source, createdAt]), SendWhatsApp(name, phone)]
  {
    var o := Submit(rows, nextId, body, createdAt, sheets, whatsapp);
    assert o.rows == rows + [o.rows[|rows|]];
  }

  /** Once the row is committed, a failing spreadsheet append still yields
      success, while a failing WhatsApp send yields a failure reply carrying
      the exception's text although the row stays stored. */
  lemma OutboundFailures(rows: seq<Lead>, nextId: nat, body: map<string, string>, createdAt: string,
                         sheets: StepOutcome, error: string)
    requires Validate(Field(body, "name"), Field(body, "phone"), Field(body, "source")).Success?
    requires !HasPhone(rows, Strip(Field(body, "phone")))
    ensures Submit(rows, nextId, body, createdAt, sheets, Completed).reply == Reply(true, Some(LeadSaved))
    ensures var o := Submit(rows, nextId, body, createdAt, sheets, Raised(error));
            && o.reply == Reply(false, Some(error))
            && o.rows == Submit(rows, nextId, body, createdAt, sheets, Completed).rows
            && HasPhone(o.rows, Strip(Field(body, "phone")))
  {
    var o := Submit(rows, nextId, body, createdAt, sheets, Raised(error));
    assert o.rows[|rows|].phone == Strip(Field(body, "phone"));
  }

  /** After a WhatsApp failure the client is told the submission failed,
      yet sending the same body again is refused as a duplicate. */
  lemma RetryAfterSendFailureIsDuplicate(rows: seq<Lead>, nextId: nat, body: map<string, string>,
                                         t1: string, t2: string, sheets: StepOutcome, error: string,
                                         whatsapp: StepOutcome)
    requires Validate(Field(body, "name"), Field(body, "phone"), Field(body, "source")).Success?
    requires !HasPhone(rows, Strip(Field(body, "phone")))
    ensures var first := Submit(rows, nextId, body, t1, sheets, Raised(error));
            var second := Submit(first.rows, first.nextId, body, t2, sheets, whatsapp);
            && !first.reply.success
            && second == Submission(Reply(false, Some(PhoneAlreadyExists)), first.rows, first.nextId, [])
  {
    OutboundFailures(rows, nextId, body, t1, sheets, error);
  }

  /** Every submission keeps the table invariant: ids unique and increasing
      and below the counter, phones unique, every row validated. */
  lemma SubmitKeepsInvariant(rows: seq<Lead>, nextId: nat, body: map<string, string>, createdAt: string,
                             sheets: StepOutcome, whatsapp: StepOutcome)
    requires TableInvariant(rows, nextId)
    ensures var o := Submit(rows, nextId, body, createdAt, sheets, whatsapp);
            TableInvariant(o.rows, o.nextId) && o.nextId >= nextId
  {
    var v := Validate(Field(body, "name"), Field(body, "phone"), Field(body, "source"));
    if v.Success? && !HasPhone(rows, v.value.phone) {
      var f := v.value;
      AppendKeepsInvariant(rows, nextId, Lead(nextId, f.name, f.phone, f.source, createdAt));
    }
  }

  /** The SQLite database file with its one table. `rows` are the rows in
      rowid order; `nextId` is one more than the largest id AUTOINCREMENT has
      ever handed out, so a deleted id is never reused. */
  class LeadDb {
    var rows: seq<Lead>
    var nextId: nat

    ghost predicate Valid()
      reads this
    {
      TableInvariant(rows, nextId)
    }

    /** `init_db` on a database file that does not exist yet. */
    constructor ()
      ensures Valid()
      ensures rows == [] && nextId == 1
    {
      rows := [];
      nextId := 1;
    }

    /** The SQLite part of the submission: look the phone up and, when no
        row has it, insert the validated fields under the next id. */
    method Insert(f: Fields, createdAt: string) returns (inserted: bool)
      requires Valid()
      requires f.name != [] && f.source != [] && IsTenDigitPhone(f.phone)
      modifies this
      ensures Valid()
      ensures inserted <==> !HasPhone(old(rows), f.phone)
      ensures inserted ==> && rows == old(rows) + [Lead(old(nextId), f.name, f.phone, f.source, createdAt)]
                           && nextId == old(nextId) + 1
      ensures !inserted ==> rows == old(rows) && nextId == old(nextId)
      ensures inserted ==> forall i :: 0 <= i < |old(rows)| ==> old(rows)[i].id < rows[|rows| - 1].id
    {
      if HasPhone(rows, f.phone) {
        return false;
      }
      var lead := Lead(nextId, f.name, f.phone, f.source, createdAt);
      AppendKeepsInvariant(rows, nextId, lead);
      rows := rows + [lead];
      nextId := nextId + 1;
      inserted := true;
    }

    /** `POST /submit_lead` with JSON body `body`; `createdAt` is the
        timestamp the clock supplies, `sheets` and `whatsapp` how the two
        outbound calls end if they are attempted. */
    method SubmitLead(body: map<string, string>, createdAt: string, sheets: StepOutcome, whatsapp: StepOutcome)
      returns (reply: Reply, calls: seq<ExternalCall>)
      requires Valid()
      modifies this
      ensures Valid()
      ensures Submission(reply, rows, nextId, calls) == Submit(old(rows), old(nextId), body, createdAt, sheets, whatsapp)
    {
      var checked := Validate(Field(body, "name"), Field(body, "phone"), Field(body, "source"));
      if checked.Failure? {
        return Reply(false, Some(checked.error)), [];
      }
      var f := checked.value;
      var inserted := Insert(f, createdAt);
      if !inserted {
        return Reply(false, Some(PhoneAlreadyExists)), [];
      }

      // The spreadsheet mirror: any exception it raises is caught and only logged.
      calls := [AppendSheetRow([f.name, f.phone, f.source, createdAt])];

      // The WhatsApp send: an exception is not caught here but by the
      // endpoint's outer handler, after the row has been committed.
      calls := calls + [SendWhatsApp(f.name, f.phone)];
      if whatsapp.Raised? {
        return Reply(false, Some(whatsapp.error)), calls;
      }
      reply := Reply(true, Some(LeadSaved));
    }

    /** `DELETE /delete_lead/<id>`. */
    method DeleteLead(leadId: nat) returns (reply: Reply)
      requires Valid()
      modifies this
      ensures Valid()
      ensures rows == DeleteById(old(rows), leadId) && nextId == old(nextId)
      ensures forall x :: x in rows <==> x in old(rows) && x.id != leadId
      ensures (forall i :: 0 <= i < |old(rows)| ==> old(rows)[i].id != leadId) ==> rows == old(rows)
      ensures reply == Reply(true, None)
    {
      DeleteKeepsInvariant(rows, nextId, leadId);
      if forall i :: 0 <= i < |rows| ==> rows[i].id != leadId {
        DeleteAbsentIsNoop(rows, leadId);
      }
      rows := DeleteById(rows, leadId);
      reply := Reply(true, None);
    }

    /** The dashboard query `SELECT * FROM leads ORDER BY id DESC`. */
    function ListLeads(): (r: seq<Lead>)
      reads this
      ensures forall x :: x in r <==> x in rows
      ensures |r| == |rows| && multiset(r) == multiset(rows)
      ensures DescendingIds(r)
      ensures Valid() ==> StrictlyDescendingIds(r)
      ensures Valid() ==> r == Reversed(rows)
    {
      SortSpec(rows);
      SortPermutes(rows);
      ListingIfAscending(rows);
      assert |multiset(SortByIdDesc(rows))| == |multiset(rows)|;
      SortByIdDesc(rows)
    }
  }
}
