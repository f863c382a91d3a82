/** The form that creates a notice: the required-field check, the starting
    values, and the insert of the filled form as a new pending row. */
module NotificationForm {
  import opened Text
  import opened Notices
  import opened NoticeStore
  import opened NotificationUtils

  /** The eight inputs of one party. Every text input reads as a string; an
      input never touched reads as the empty string. */
  datatype PartyFields = PartyFields(
    name: string,
    document: string,
    address: string,
    city: string,
    state: string,
    zip: string,
    email: string,
    phone: string)

  /** The form values. The two number inputs read None while their box is
      empty; the amount is in cents. */
  datatype FormData = FormData(
    creditor: PartyFields,
    debtor: PartyFields,
    debtAmount: Option<int>,
    debtDescription: string,
    dueDate: string,
    propertyAddress: string,
    paymentDeadlineDays: Option<int>,
    termsAndClauses: string)

  // ---------------------------------------------------------------------------
  // Required fields

  datatype PartyField = Name | Document | Email | Address | City | State | Zip | Phone

  /** The registered inputs. */
  datatype Field =
    | CreditorField(field: PartyField)
    | DebtorField(field: PartyField)
    | DebtAmount
    | DueDate
    | DebtDescription
    | PropertyAddress
    | PaymentDeadlineDays
    | TermsAndClauses

  /** The inputs in the order the form registers them. */
  const FieldOrder: seq<Field> := [
    CreditorField(Name), CreditorField(Document), CreditorField(Email), CreditorField(Address),
    CreditorField(City), CreditorField(State), CreditorField(Zip), CreditorField(Phone),
    DebtorField(Name), DebtorField(Document), DebtorField(Email), DebtorField(Address),
    DebtorField(City), DebtorField(State), DebtorField(Zip), DebtorField(Phone),
    DebtAmount, DueDate, DebtDescription, PropertyAddress, PaymentDeadlineDays, TermsAndClauses]

  /** The position at which the form registers an input. */
  function FieldIndex(f: Field): (k: nat)
    ensures k < |FieldOrder| && FieldOrder[k] == f
  {
    match f
    case CreditorField(p) => PartyIndex(p)
    case DebtorField(p) => 8 + PartyIndex(p)
    case DebtAmount => 16
    case DueDate => 17
    case DebtDescription => 18
    case PropertyAddress => 19
    case PaymentDeadlineDays => 20
    case TermsAndClauses => 21
  }

  function PartyIndex(p: PartyField): (k: nat)
    ensures k < 8 && FieldOrder[k] == CreditorField(p) && FieldOrder[8 + k] == DebtorField(p)
  {
    match p
    case Name => 0
    case Document => 1
    case Email => 2
    case Address => 3
    case City => 4
    case State => 5
    case Zip => 6
    case Phone => 7
  }

  /** Every input of the form is registered. */
  lemma FieldOrderComplete()
    ensures forall f: Field :: f in FieldOrder
  {
    forall f: Field ensures f in FieldOrder {
      assert FieldOrder[FieldIndex(f)] == f;
    }
  }

  /** Every input is registered with `required: true` except the e-mail and
      the phone of each party. */
  predicate IsRequired(f: Field) {
    match f
    case CreditorField(p) => p != Email && p != Phone
    case DebtorField(p) => p != Email && p != Phone
    case _ => true
  }

  function PartyValue(p: PartyFields, f: PartyField): string {
    match f
    case Name => p.name
    case Document => p.document
    case Email => p.email
    case Address => p.address
    case City => p.city
    case State => p.state
    case Zip => p.zip
    case Phone => p.phone
  }

  /** An input fails `required` when its box is empty. A box holding only
      spaces is not empty. */
  predicate IsBlank(form: FormData, f: Field) {
    match f
    case CreditorField(p) => PartyValue(form.creditor, p) == ""
    case DebtorField(p) => PartyValue(form.debtor, p) == ""
    case DebtAmount => form.debtAmount.None?
    case DueDate => form.dueDate == ""
    case DebtDescription => form.debtDescription == ""
    case PropertyAddress => form.propertyAddress == ""
    case PaymentDeadlineDays => form.paymentDeadlineDays.None?
    case TermsAndClauses => form.termsAndClauses == ""
  }

  /** The required inputs of `fields` that are blank, in their order. */
  function MissingIn(fields: seq<Field>, form: FormData): (r: seq<Field>)
    ensures |r| <= |fields|
    ensures forall f :: f in r <==> f in fields && IsRequired(f) && IsBlank(form, f)
  {
    if fields == [] then []
    else (if IsRequired(fields[0]) && IsBlank(form, fields[0]) then [fields[0]] else []) + MissingIn(fields[1..], form)
  }

  /** The field errors the form reports on submit: exactly the required
      inputs left blank. */
  function Errors(form: FormData): (r: seq<Field>)
    ensures forall f :: f in r <==> IsRequired(f) && IsBlank(form, f)
  {
    FieldOrderComplete();
    MissingIn(FieldOrder, form)
  }

  /** The form submits (calls `onSubmit`) exactly when it reports no error. */
  predicate Valid(form: FormData) { Errors(form) == [] }

  /** A form is valid exactly when no required input is blank; then both
      number inputs hold a value. */
  lemma ValidIff(form: FormData)
    ensures Valid(form) <==> forall f :: IsRequired(f) ==> !IsBlank(form, f)
    ensures Valid(form) ==> form.debtAmount.Some? && form.paymentDeadlineDays.Some?
  {
    if !Valid(form) {
      assert Errors(form)[0] in Errors(form);
    }
    if Valid(form) {
      assert DebtAmount !in Errors(form);
      assert PaymentDeadlineDays !in Errors(form);
    }
  }

  lemma {:induction false} MissingInAgree(fields: seq<Field>, a: FormData, b: FormData)
    requires forall f :: IsRequired(f) ==> IsBlank(a, f) == IsBlank(b, f)
    ensures MissingIn(fields, a) == MissingIn(fields, b)
  {
    if fields != [] {
      MissingInAgree(fields[1..], a, b);
    }
  }

  /** The optional e-mail and phone inputs never change the errors the form
      reports, whatever they hold. */
  lemma OptionalFieldsNeverBlock(form: FormData, creditorEmail: string, creditorPhone: string,
                                 debtorEmail: string, debtorPhone: string)
    ensures var other := form.(creditor := form.creditor.(email := creditorEmail, phone := creditorPhone),
                               debtor := form.debtor.(email := debtorEmail, phone := debtorPhone));
            Errors(other) == Errors(form)
  {
    var other := form.(creditor := form.creditor.(email := creditorEmail, phone := creditorPhone),
                       debtor := form.debtor.(email := debtorEmail, phone := debtorPhone));
    forall f | IsRequired(f) ensures IsBlank(other, f) == IsBlank(form, f) {
      match f
      case CreditorField(p) => assert PartyValue(other.creditor, p) == PartyValue(form.creditor, p);
      case DebtorField(p) => assert PartyValue(other.debtor, p) == PartyValue(form.debtor, p);
      case _ =>
    }
    MissingInAgree(FieldOrder, other, form);
  }

  // ---------------------------------------------------------------------------
  // Starting values

  const EmptyParty: PartyFields := PartyFields("", "", "", "", "", "", "", "")

  /** The values of a fresh form: a payment deadline of 10 days and the
      default terms text `terms` (the form passes `DefaultTerms()`), every
      other input empty. */
  function DefaultForm(terms: string): FormData {
    FormData(EmptyParty, EmptyParty, None, "", "", "", Some(10), terms)
  }

  /** Submitting a fresh form reports every required input except the two
      that start filled in: the deadline, and the terms whenever their
      default text is not empty (the text of `DefaultTerms` has at least 25
      characters). */
  lemma DefaultFormErrors(terms: string)
    requires terms != ""
    ensures DefaultForm(terms).paymentDeadlineDays == Some(10) && DefaultForm(terms).termsAndClauses == terms
    ensures forall f :: f in Errors(DefaultForm(terms)) <==> IsRequired(f) && f != PaymentDeadlineDays && f != TermsAndClauses
  {
    var form := DefaultForm(terms);
    forall f ensures IsBlank(form, f) <==> f != PaymentDeadlineDays && f != TermsAndClauses {
      FreshFormBlank(form, f);
    }
  }

  lemma FreshFormBlank(form: FormData, f: Field)
    requires form.creditor == EmptyParty && form.debtor == EmptyParty && form.debtAmount.None?
    requires form.debtDescription == "" && form.dueDate == "" && form.propertyAddress == ""
    requires form.paymentDeadlineDays.Some? && form.termsAndClauses != ""
    ensures IsBlank(form, f) <==> f != PaymentDeadlineDays && f != TermsAndClauses
  {
    match f
    case CreditorField(p) => assert PartyValue(EmptyParty, p) == "";
    case DebtorField(p) => assert PartyValue(EmptyParty, p) == "";
    case _ =>
  }

  // ---------------------------------------------------------------------------
  // The inserted row

  /** The columns the store fills in itself: the id, the two timestamps (and
      the month of creation) and the default of `accepted`, which the
      insert leaves out. */
  datatype StoreAssigned = StoreAssigned(
    id: string,
    createdAt: string,
    createdMonth: YearMonth,
    updatedAt: string,
    accepted: Option<bool>)

  /** The columns of one party: the e-mail and phone are sent as typed, so an
      untouched one is stored as the empty string, not null; the complement
      is not sent. */
  function PartyColumns(p: PartyFields): Party {
    Party(p.name, p.document, p.address, p.city, p.state, p.zip, None, Some(p.email), Some(p.phone))
  }

  /** The form values a party's columns hold. */
  function PartyFieldsOf(p: Party): PartyFields {
    PartyFields(p.name, p.document, p.address, p.city, p.state, p.zip,
                match p.email case Some(e) => e case None => "",
                match p.phone case Some(ph) => ph case None => "")
  }

  /** The form values a row holds. */
  function FormOf(n: Notice): FormData {
    FormData(PartyFieldsOf(n.creditor), PartyFieldsOf(n.debtor), Some(n.debtAmount), n.debtDescription,
             n.dueDate, n.propertyAddress, Some(n.paymentDeadlineDays), n.termsAndClauses)
  }

  /** The row `onSubmit` inserts, as the store keeps it: the fresh token,
      status 'pending', every form value in its own column, and no
      acceptance, creator or PDF data. */
  function InsertedNotice(form: FormData, token: string, a: StoreAssigned): (n: Notice)
    requires form.debtAmount.Some? && form.paymentDeadlineDays.Some?
    ensures n.id == a.id && n.token == token && n.status == "pending" && n.accepted == a.accepted
    ensures n.acceptedAt.None? && n.acceptanceHash.None? && n.acceptanceIp.None?
    ensures n.creatorHash.None? && n.creatorIp.None? && n.pdfUrl.None?
    ensures n.creditor.complement.None? && n.debtor.complement.None?
    ensures FormOf(n) == form
  {
    Notice(a.id, token, "pending", a.accepted, None, None, None, a.createdAt, a.createdMonth, None, None,
           PartyColumns(form.creditor), PartyColumns(form.debtor), form.debtAmount.value, form.debtDescription,
           form.dueDate, form.propertyAddress, form.paymentDeadlineDays.value, None, form.termsAndClauses, a.updatedAt)
  }

  /** Two forms that insert the same row (with the same token and store
      values) are the same form: no input is dropped or merged, and the
      creditor's inputs land only in the creditor's columns and the debtor's
      only in the debtor's. */
  lemma InsertInjective(f1: FormData, f2: FormData, token: string, a: StoreAssigned)
    requires f1.debtAmount.Some? && f1.paymentDeadlineDays.Some?
    requires f2.debtAmount.Some? && f2.paymentDeadlineDays.Some?
    requires InsertedNotice(f1, token, a) == InsertedNotice(f2, token, a)
    ensures f1 == f2
  {
    assert FormOf(InsertedNotice(f1, token, a)) == f1;
  }

  /** Unless the store's default for `accepted` is true, a new notice is
      neither accepted nor ignored: the monthly series and the reports count
      it as pending, and so does the dashboard when the default is false. */
  lemma NewNoticeIsPending(form: FormData, token: string, a: StoreAssigned)
    requires form.debtAmount.Some? && form.paymentDeadlineDays.Some?
    requires a.accepted != Some(true)
    ensures var n := InsertedNotice(form, token, a);
            !IsAccepted(n) && !IsIgnored(n) && IsLoosePending(n)
            && (a.accepted == Some(false) ==> IsStrictlyPending(n))
  {
  }

  // ---------------------------------------------------------------------------
  // The form component

  class FormPanel {
    var isSubmitting: bool
    /** The field errors on display. */
    var errors: seq<Field>
    /** The ids handed to `onSuccess`, oldest first. */
    var createdIds: seq<string>

    constructor ()
      ensures !isSubmitting && errors == [] && createdIds == []
    {
      isSubmitting := false;
      errors := [];
      createdIds := [];
    }

    /** Submitting the form. The check runs first; with an error nothing is
        inserted and `onSubmit` does not run. Otherwise a token is generated
        from the clock's `year` and the draw `u` of `Math.random()`, the row
        is inserted, and `onSuccess` receives the new id only when the insert
        succeeded. The submitting flag ends false on every path through
        `onSubmit`. */
    method Submit(form: FormData, table: NoticeTable, year: int, u: real, a: StoreAssigned, insertFails: bool)
      returns (created: Option<string>)
      requires 0.0 <= u < 1.0
      modifies this, table
      ensures errors == Errors(form)
      ensures !Valid(form) ==>
                created == None && isSubmitting == old(isSubmitting)
                && table.rows == old(table.rows) && createdIds == old(createdIds)
      ensures Valid(form) ==> !isSubmitting && (created.Some? <==> !insertFails)
      ensures Valid(form) && insertFails ==> table.rows == old(table.rows) && createdIds == old(createdIds)
      ensures Valid(form) && !insertFails ==>
                form.debtAmount.Some? && form.paymentDeadlineDays.Some?
                && var n := InsertedNotice(form, GenerateToken(year, u), a);
                   table.rows == old(table.rows) + [n] && created == Some(a.id) && createdIds == old(createdIds) + [a.id]
    {
      errors := Errors(form);
      created := None;
      if errors != [] {
        return;
      }
      ValidIff(form);
      isSubmitting := true;
      var token := GenerateToken(year, u);
      var n := InsertedNotice(form, token, a);
      var ok := table.Insert(n, insertFails);
      if ok {
        createdIds := createdIds + [n.id];
        created := Some(n.id);
      }
      isSubmitting := false;
    }
  }
}
