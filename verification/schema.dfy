/**
 * The row schema of the upload route (a zod object): six fields checked
 * independently, every failing field reported as one issue, in declaration order.
 */
module TransactionSchema {
  import opened Wrappers
  import opened Text

  /** The schema's fields, in declaration order. */
  datatype Field = TransactionNo | Date | FullName | Age | Gender | Amount {

    /** The column name a row is keyed by, and the issue path zod reports. */
    function Name(): string
    {
      match this
      case TransactionNo => "transaction_no"
      case Date => "date"
      case FullName => "full_name"
      case Age => "age"
      case Gender => "gender"
      case Amount => "amount"
    }

    /** Position in the schema declaration. */
    function Rank(): nat
    {
      match this
      case TransactionNo => 0
      case Date => 1
      case FullName => 2
      case Age => 3
      case Gender => 4
      case Amount => 5
    }
  }

  const Fields: seq<Field> := [TransactionNo, Date, FullName, Age, Gender, Amount]

  lemma FieldsByRank(f: Field)
    ensures f.Rank() < |Fields| && Fields[f.Rank()] == f
  {
  }

  /** The outcome of JavaScript's Number(...) on a value. */
  datatype Num = NaN | Finite(value: real) | Infinite(negative: bool)

  datatype GenderValue = Male | Female | Other

  function GenderName(g: GenderValue): string
  {
    match g
    case Male => "Male"
    case Female => "Female"
    case Other => "Other"
  }

  /** A row as the schema outputs it: strings kept, numbers coerced, gender as the enum. */
  datatype Transaction = Transaction(
    transactionNo: string,
    date: string,
    fullName: string,
    age: real,
    gender: GenderValue,
    amount: Num)

  /**
   * The runtime services the schema calls and the model does not see:
   * Date.parse (whether it yields a number rather than NaN) and Number() on a string.
   */
  datatype Env = Env(dateParses: string -> bool, toNumber: string -> Num)

  /** One parsed CSV record: normalised header name to cell text. */
  type Row = map<string, string>

  /** The property access row.<field>; None stands for undefined. */
  function Lookup(row: Row, f: Field): Option<string>
  {
    if f.Name() in row then Some(row[f.Name()]) else None
  }

  /** z.coerce.number: Number(undefined) is NaN, any string goes through Number(). */
  function Coerce(env: Env, v: Option<string>): (n: Num)
    ensures v.None? ==> n.NaN?
    ensures v.Some? ==> n == env.toNumber(v.value)
  {
    match v
    case None => NaN
    case Some(s) => env.toNumber(s)
  }

  const RequiredMessage := "Required"
  const TransactionNoMessage := "Transaction number is required"
  const DateMessage := "Invalid date format"
  const FullNameMessage := "Full name is required"
  const AgeRangeMessage := "Age must be between 18 and 90"
  const AgeNaNMessage := "Expected number, received nan"
  const GenderMessage := "Gender must be Male, Female, or Other"
  const AmountMessage := "Amount must be a number"

  /** z.string().min(1, message): absent gives zod's "Required", empty gives the custom message. */
  function NonEmptyIssue(v: Option<string>, message: string): (m: Option<string>)
    ensures m.None? <==> v.Some? && |v.value| >= 1
    ensures v.None? ==> m == Some(RequiredMessage)
    ensures v == Some("") ==> m == Some(message)
  {
    match v
    case None => Some(RequiredMessage)
    case Some(s) => if |s| < 1 then Some(message) else None
  }

  /** z.string().refine(val => !isNaN(Date.parse(val))): the refinement runs only on strings. */
  function DateIssue(env: Env, v: Option<string>): (m: Option<string>)
    ensures m.None? <==> v.Some? && env.dateParses(v.value)
    ensures v.Some? && m.Some? ==> m == Some(DateMessage)
  {
    match v
    case None => Some(RequiredMessage)
    case Some(s) => if env.dateParses(s) then None else Some(DateMessage)
  }

  /**
   * z.coerce.number().min(18).max(90): NaN is a type error with zod's default message;
   * any other number outside [18, 90] (Infinity included) gets the shared range message.
   */
  function AgeIssue(n: Num): (m: Option<string>)
    ensures m.None? <==> n.Finite? && 18.0 <= n.value <= 90.0
    ensures n.NaN? ==> m == Some(AgeNaNMessage)
    ensures !n.NaN? && m.Some? ==> m == Some(AgeRangeMessage)
  {
    match n
    case NaN => Some(AgeNaNMessage)
    case Finite(x) => if x < 18.0 || x > 90.0 then Some(AgeRangeMessage) else None
    case Infinite(_) => Some(AgeRangeMessage)
  }

  /** z.enum(["Male", "Female", "Other"]): exact, case-sensitive match. */
  function ParseGender(v: Option<string>): (g: Option<GenderValue>)
    ensures g.Some? <==> v.Some? && v.value in {"Male", "Female", "Other"}
    ensures g.Some? ==> GenderName(g.value) == v.value
  {
    match v
    case Some("Male") => Some(Male)
    case Some("Female") => Some(Female)
    case Some("Other") => Some(Other)
    case _ => None
  }

  /** The enum is closed under its own names: each value reads back as itself. */
  lemma GenderRoundTrip(g: GenderValue)
    ensures ParseGender(Some(GenderName(g))) == Some(g)
  {
  }

  /** z.coerce.number({ message }): only NaN is rejected, with the custom message. */
  function AmountIssue(n: Num): (m: Option<string>)
    ensures m.None? <==> !n.NaN?
    ensures m.Some? ==> m == Some(AmountMessage)
  {
    if n.NaN? then Some(AmountMessage) else None
  }

  /** The message the schema reports for field f of row, or None when f passes. */
  function FieldIssue(env: Env, row: Row, f: Field): (m: Option<string>)
    ensures (f == TransactionNo || f == FullName) ==> (m.None? <==> Lookup(row, f).Some? && Lookup(row, f).value != "")
    ensures f == Date ==> (m.None? <==> Lookup(row, f).Some? && env.dateParses(Lookup(row, f).value))
    ensures f == Age ==>
      (m.None? <==> Coerce(env, Lookup(row, f)).Finite? && 18.0 <= Coerce(env, Lookup(row, f)).value <= 90.0)
    ensures f == Gender ==> (m.None? <==> Lookup(row, f).Some? && Lookup(row, f).value in {"Male", "Female", "Other"})
    ensures f == Gender && m.Some? ==> m == Some(GenderMessage)
    ensures f == Amount ==> (m.None? <==> !Coerce(env, Lookup(row, f)).NaN?)
  {
    match f
    case TransactionNo => NonEmptyIssue(Lookup(row, f), TransactionNoMessage)
    case Date => DateIssue(env, Lookup(row, f))
    case FullName => NonEmptyIssue(Lookup(row, f), FullNameMessage)
    case Age => AgeIssue(Coerce(env, Lookup(row, f)))
    case Gender => if ParseGender(Lookup(row, f)).Some? then None else Some(GenderMessage)
    case Amount => AmountIssue(Coerce(env, Lookup(row, f)))
  }

  /** Issues listed in strictly increasing schema order. */
  predicate InSchemaOrder(issues: seq<Issue>)
  {
    forall a, b :: 0 <= a < b < |issues| ==> issues[a].field.Rank() < issues[b].field.Rank()
  }

  datatype Issue = Issue(field: Field, message: string)

  /**
   * The issues of the first n fields, given each field's report: reports[i] is the
   * message for field Fields[i], or None when it passes.
   */
  function CollectIssues(reports: seq<Option<string>>, n: nat): (issues: seq<Issue>)
    requires |reports| == |Fields| && n <= |Fields|
    ensures |issues| <= n
  {
    if n == 0 then []
    else
      var prev := CollectIssues(reports, n - 1);
      match reports[n - 1]
      case None => prev
      case Some(m) => prev + [Issue(Fields[n - 1], m)]
  }

  /** The collected issues follow the schema order and come from the first n fields. */
  lemma {:induction false} CollectedInOrder(reports: seq<Option<string>>, n: nat)
    requires |reports| == |Fields| && n <= |Fields|
    ensures InSchemaOrder(CollectIssues(reports, n))
    ensures forall k :: 0 <= k < |CollectIssues(reports, n)| ==> CollectIssues(reports, n)[k].field.Rank() < n
  {
    if n > 0 {
      CollectedInOrder(reports, n - 1);
      assert Fields[n - 1].Rank() == n - 1;
    }
  }

  /** Each collected issue carries its own field's report. */
  lemma {:induction false} CollectedMessages(reports: seq<Option<string>>, n: nat)
    requires |reports| == |Fields| && n <= |Fields|
    ensures forall k :: 0 <= k < |CollectIssues(reports, n)| ==>
      reports[CollectIssues(reports, n)[k].field.Rank()] == Some(CollectIssues(reports, n)[k].message)
  {
    if n > 0 {
      CollectedMessages(reports, n - 1);
      assert Fields[n - 1].Rank() == n - 1;
    }
  }

  /** Every failing field among the first n is collected. */
  lemma {:induction false} CollectedComplete(reports: seq<Option<string>>, n: nat, i: nat)
    requires |reports| == |Fields| && i < n <= |Fields|
    requires reports[i].Some?
    ensures exists k :: 0 <= k < |CollectIssues(reports, n)| && CollectIssues(reports, n)[k].field == Fields[i]
  {
    var issues := CollectIssues(reports, n);
    var prev := CollectIssues(reports, n - 1);
    if i == n - 1 {
      assert issues[|prev|].field == Fields[i];
    } else {
      CollectedComplete(reports, n - 1, i);
      var k :| 0 <= k < |prev| && prev[k].field == Fields[i];
      assert issues[k].field == Fields[i];
    }
  }

  /** Every field is accepted by the schema. */
  predicate AllFieldsPass(env: Env, row: Row)
  {
    forall f: Field :: FieldIssue(env, row, f).None?
  }

  /** t is the schema's output for row: strings copied, numbers coerced, gender parsed. */
  predicate Produces(env: Env, row: Row, t: Transaction)
  {
    && Lookup(row, TransactionNo) == Some(t.transactionNo)
    && Lookup(row, Date) == Some(t.date)
    && Lookup(row, FullName) == Some(t.fullName)
    && Coerce(env, Lookup(row, Age)) == Finite(t.age)
    && ParseGender(Lookup(row, Gender)) == Some(t.gender)
    && Coerce(env, Lookup(row, Amount)) == t.amount
  }

  /** The invariant every accepted transaction satisfies. */
  predicate IsValid(env: Env, t: Transaction)
  {
    && |t.transactionNo| >= 1
    && env.dateParses(t.date)
    && |t.fullName| >= 1
    && 18.0 <= t.age <= 90.0
    && !t.amount.NaN?
  }

  /** Each field's report, in schema order. */
  function Reports(env: Env, row: Row): (reports: seq<Option<string>>)
    ensures |reports| == |Fields|
    ensures forall f: Field :: reports[f.Rank()] == FieldIssue(env, row, f)
  {
    var reports := seq(|Fields|, i requires 0 <= i < |Fields| => FieldIssue(env, row, Fields[i]));
    assert forall f: Field :: reports[f.Rank()] == FieldIssue(env, row, f) by {
      forall f: Field ensures reports[f.Rank()] == FieldIssue(env, row, f) {
        FieldsByRank(f);
      }
    }
    reports
  }

  /** The issues of a row: one per failing field, with its message, in schema order. */
  lemma RowIssues(env: Env, row: Row)
    ensures InSchemaOrder(CollectIssues(Reports(env, row), |Fields|))
    ensures forall k :: 0 <= k < |CollectIssues(Reports(env, row), |Fields|)| ==>
      FieldIssue(env, row, CollectIssues(Reports(env, row), |Fields|)[k].field)
        == Some(CollectIssues(Reports(env, row), |Fields|)[k].message)
    ensures forall f: Field ::
      (exists k :: 0 <= k < |CollectIssues(Reports(env, row), |Fields|)|
         && CollectIssues(Reports(env, row), |Fields|)[k].field == f)
      <==> FieldIssue(env, row, f).Some?
  {
    var reports := Reports(env, row);
    var issues := CollectIssues(reports, |Fields|);
    CollectedInOrder(reports, |Fields|);
    CollectedMessages(reports, |Fields|);
    forall f: Field | FieldIssue(env, row, f).Some?
      ensures exists k :: 0 <= k < |issues| && issues[k].field == f
    {
      FieldsByRank(f);
      CollectedComplete(reports, |Fields|, f.Rank());
    }
  }

  /** The schema's output for a row whose fields all pass. */
  function Output(env: Env, row: Row): (t: Transaction)
    requires AllFieldsPass(env, row)
    ensures Produces(env, row, t) && IsValid(env, t)
  {
    assert FieldIssue(env, row, TransactionNo).None?;
    assert FieldIssue(env, row, Date).None?;
    assert FieldIssue(env, row, FullName).None?;
    assert FieldIssue(env, row, Age).None?;
    assert FieldIssue(env, row, Gender).None?;
    assert FieldIssue(env, row, Amount).None?;
    Transaction(
      Lookup(row, TransactionNo).value,
      Lookup(row, Date).value,
      Lookup(row, FullName).value,
      Coerce(env, Lookup(row, Age)).value,
      ParseGender(Lookup(row, Gender)).value,
      Coerce(env, Lookup(row, Amount)))
  }

  /**
   * transactionSchema.safeParse: success exactly when every field passes; otherwise one
   * issue per failing field (and none for a passing one), in schema order.
   */
  function CheckRow(env: Env, row: Row): (r: Result<Transaction, seq<Issue>>)
    ensures r.Ok? <==> AllFieldsPass(env, row)
    ensures r.Ok? ==> Produces(env, row, r.value) && IsValid(env, r.value)
    ensures r.Err? ==> |r.error| > 0 && InSchemaOrder(r.error)
    ensures r.Err? ==> forall f: Field ::
      (exists k :: 0 <= k < |r.error| && r.error[k].field == f) <==> FieldIssue(env, row, f).Some?
    ensures r.Err? ==> forall k :: 0 <= k < |r.error| ==>
      FieldIssue(env, row, r.error[k].field) == Some(r.error[k].message)
  {
    var issues := CollectIssues(Reports(env, row), |Fields|);
    RowIssues(env, row);
    if |issues| == 0 then
      Ok(Output(env, row))
    else
      assert FieldIssue(env, row, issues[0].field).Some?;
      Err(issues)
  }

  /** The age bounds are inclusive and both sides share one message. */
  lemma AgeBoundaries()
    ensures AgeIssue(Finite(18.0)).None? && AgeIssue(Finite(90.0)).None?
    ensures AgeIssue(Finite(17.0)) == AgeIssue(Finite(91.0)) == Some(AgeRangeMessage)
  {
  }
}
