/** Client code of the endpoints that replays sample submissions, using
    nothing but the contracts of the model. */
module Scenarios {
  import opened Wrappers
  import opened Text
  import opened Validation
  import opened Leads
  import opened Crm

  /** A phone without whitespace at its ends but of the wrong shape is
      rejected once name and source are present. */
  lemma BadShapeRejected(name: string, phone: string, source: string)
    requires !Blank(name) && !Blank(source)
    requires phone != [] && !IsSpace(phone[0]) && !IsSpace(phone[|phone| - 1]) && !IsTenDigitPhone(phone)
    ensures Validate(name, phone, source) == Failure(PhoneMustBe10Digits)
  {
    StripUntouched(phone);
    assert !Blank(phone);
  }

  /** The five-digit phone "12345" is rejected. */
  lemma FiveDigitPhoneRejected(name: string, source: string)
    requires !Blank(name) && !Blank(source)
    ensures Validate(name, "12345", source) == Failure(PhoneMustBe10Digits)
  {
    BadShapeRejected(name, "12345", source);
  }

  /** The ten-character phone "12345abcde" is rejected. */
  lemma LettersInPhoneRejected(name: string, source: string)
    requires !Blank(name) && !Blank(source)
    ensures Validate(name, "12345abcde", source) == Failure(PhoneMustBe10Digits)
  {
    var p := "12345abcde";
    assert !IsAsciiDigit(p[5]);
    BadShapeRejected(name, p, source);
  }

  /** An empty name is rejected as a missing field, whatever the phone. */
  lemma EmptyNameRejected(phone: string, source: string)
    ensures Validate("", phone, source) == Failure(AllFieldsRequired)
  {
  }

  /** The same valid body submitted twice to a fresh database: the first
      call saves the lead, the second is refused and the table keeps one row. */
  method SubmitTwice(body: map<string, string>, t1: string, t2: string)
    returns (db: LeadDb, first: Reply, second: Reply)
    requires Validate(Field(body, "name"), Field(body, "phone"), Field(body, "source")).Success?
    ensures db.Valid()
    ensures first == Reply(true, Some(LeadSaved))
    ensures second == Reply(false, Some(PhoneAlreadyExists))
    ensures var f := Validate(Field(body, "name"), Field(body, "phone"), Field(body, "source")).value;
            db.rows == [Lead(1, f.name, f.phone, f.source, t1)]
  {
    db := new LeadDb();
    var calls;
    first, calls := db.SubmitLead(body, t1, Raised("sheet unavailable"), Completed);
    assert HasPhone(db.rows, db.rows[0].phone);
    second, calls := db.SubmitLead(body, t2, Completed, Completed);
  }
}
