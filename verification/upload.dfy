/**
 * The POST handler of the upload route: parse output in, one response out. Rows are
 * validated in file order against a set of transaction numbers seen so far; any
 * failure rejects the whole file, otherwise all rows go to storage in one
 * all-or-nothing insert.
 */
module Upload {
  import opened Wrappers
  import opened Text
  import opened CsvHeader
  import opened TransactionSchema

  /** One rejected row, reported against its row number (data index + 2, counting the header). */
  datatype RowFailure =
    | Duplicate(line: nat, transactionNo: string)
    | Invalid(line: nat, issues: seq<Issue>)

  /** `${path}: ${message}` for one schema issue. */
  function RenderIssue(issue: Issue): string
  {
    issue.field.Name() + ": " + issue.message
  }

  function RenderIssues(issues: seq<Issue>): (r: seq<string>)
    ensures |r| == |issues|
    ensures forall k :: 0 <= k < |issues| ==> r[k] == RenderIssue(issues[k])
  {
    seq(|issues|, k requires 0 <= k < |issues| => RenderIssue(issues[k]))
  }

  /**
   * What the route says about a rejected row, after its row number: the duplicate
   * message names the repeated number, the schema message holds every issue.
   */
  function Reason(f: RowFailure): (r: string)
    ensures f.Duplicate? ==> Contains(r, f.transactionNo)
    ensures f.Invalid? ==> forall k :: 0 <= k < |f.issues| ==> Contains(r, RenderIssue(f.issues[k]))
  {
    match f
    case Duplicate(_, no) =>
      var lead := "Duplicate transaction_no '";
      var r := lead + no + "' in file";
      assert r[|lead|..|lead| + |no|] == no;
      assert OccursAt(r, no, |lead|);
      r
    case Invalid(_, issues) => Join(RenderIssues(issues), ", ")
  }

  /** The error string the route pushes for a rejected row: `Row <n>: ` and then the reason. */
  function Render(f: RowFailure): (r: string)
    ensures LineOf(r) == Some(f.line)
    ensures |r| >= |Reason(f)| && r[|r| - |Reason(f)|..] == Reason(f)
  {
    var d := NatToString(f.line);
    LineOfShape(d, Reason(f));
    NatToStringRoundTrip(f.line);
    "Row " + d + ": " + Reason(f)
  }

  /** The longest prefix of s made of decimal digits. */
  function DigitPrefix(s: string): (d: string)
    ensures d <= s
    ensures forall i :: 0 <= i < |d| ==> IsDigit(d[i])
    ensures |d| < |s| ==> !IsDigit(s[|d|])
  {
    if |s| > 0 && IsDigit(s[0]) then [s[0]] + DigitPrefix(s[1..]) else []
  }

  lemma {:induction false} DigitPrefixOfDigits(d: string, rest: string)
    requires forall i :: 0 <= i < |d| ==> IsDigit(d[i])
    requires |rest| > 0 && !IsDigit(rest[0])
    ensures DigitPrefix(d + rest) == d
  {
    if |d| > 0 {
      assert (d + rest)[1..] == d[1..] + rest;
      DigitPrefixOfDigits(d[1..], rest);
    }
  }

  /** Reads the row number back out of a "Row <n>: ..." message. */
  function LineOf(message: string): Option<nat>
  {
    if |message| >= 4 && message[..4] == "Row " then NumberBeforeColon(message[4..]) else None
  }

  /** The leading digits of s as a number, when a colon follows them. */
  function NumberBeforeColon(s: string): Option<nat>
  {
    var d := DigitPrefix(s);
    if 0 < |d| < |s| && s[|d|] == ':' then Some(DigitsValue(d)) else None
  }

  lemma NumberBeforeColonShape(d: string, reason: string)
    requires 0 < |d| && forall i :: 0 <= i < |d| ==> IsDigit(d[i])
    ensures NumberBeforeColon(d + (": " + reason)) == Some(DigitsValue(d))
  {
    DigitPrefixOfDigits(d, ": " + reason);
  }

  lemma LineOfShape(d: string, reason: string)
    requires 0 < |d| && forall i :: 0 <= i < |d| ==> IsDigit(d[i])
    ensures LineOf("Row " + d + ": " + reason) == Some(DigitsValue(d))
  {
    var tail := d + (": " + reason);
    assert "Row " + d + ": " + reason == "Row " + tail;
    assert ("Row " + tail)[4..] == tail;
    NumberBeforeColonShape(d, reason);
  }

  /** The route's `row.transaction_no` truthiness test: present and non-empty. */
  function KeyOf(row: Row): (k: Option<string>)
    ensures k.Some? <==> TransactionNo.Name() in row && row[TransactionNo.Name()] != ""
    ensures k.Some? ==> k.value == row[TransactionNo.Name()]
  {
    match Lookup(row, TransactionNo)
    case Some(no) => if no != "" then Some(no) else None
    case None => None
  }

  /** The seen-set before row i: the non-empty transaction numbers of every earlier row, valid or not. */
  function SeenBefore(rows: seq<Row>, i: nat): set<string>
    requires i <= |rows|
  {
    set j | 0 <= j < i && KeyOf(rows[j]).Some? :: KeyOf(rows[j]).value
  }

  lemma SeenStep(rows: seq<Row>, i: nat)
    requires i < |rows|
    ensures SeenBefore(rows, i + 1) ==
      SeenBefore(rows, i) + (if KeyOf(rows[i]).Some? then {KeyOf(rows[i]).value} else {})
  {
    var next := SeenBefore(rows, i + 1);
    forall k | k in SeenBefore(rows, i) ensures k in next {
      var j :| 0 <= j < i && KeyOf(rows[j]).Some? && KeyOf(rows[j]).value == k;
      assert 0 <= j < i + 1;
    }
  }

  /** Row i repeats a non-empty transaction number of an earlier row. */
  predicate IsDuplicateAt(rows: seq<Row>, i: nat)
    requires i < |rows|
  {
    KeyOf(rows[i]).Some? && KeyOf(rows[i]).value in SeenBefore(rows, i)
  }

  datatype RowOutcome = Accepted(transaction: Transaction) | Rejected(failure: RowFailure)

  /**
   * What happens to row i, defined row by row: a duplicate is rejected with that single
   * failure and never reaches the schema; any other row is accepted or rejected by the schema.
   */
  function OutcomeAt(env: Env, rows: seq<Row>, i: nat): (o: RowOutcome)
    requires i < |rows|
    ensures o.Rejected? ==> o.failure.line == i + 2
  {
    if IsDuplicateAt(rows, i) then Rejected(Duplicate(i + 2, KeyOf(rows[i]).value))
    else
      match CheckRow(env, rows[i])
      case Ok(t) => Accepted(t)
      case Err(issues) => Rejected(Invalid(i + 2, issues))
  }

  /** The outcome of every row, in file order. */
  function Outcomes(env: Env, rows: seq<Row>): (outs: seq<RowOutcome>)
    ensures |outs| == |rows|
    ensures forall i :: 0 <= i < |rows| ==> outs[i] == OutcomeAt(env, rows, i)
  {
    seq(|rows|, i requires 0 <= i < |rows| => OutcomeAt(env, rows, i))
  }

  /** Each rejected outcome carries its position + 2 as row number. */
  predicate Numbered(outs: seq<RowOutcome>)
  {
    forall i :: 0 <= i < |outs| && outs[i].Rejected? ==> outs[i].failure.line == i + 2
  }

  /** The transactions of the accepted outcomes, in order. */
  function AcceptedOf(outs: seq<RowOutcome>): seq<Transaction>
  {
    if |outs| == 0 then []
    else
      var prev := AcceptedOf(outs[..|outs| - 1]);
      match outs[|outs| - 1]
      case Accepted(t) => prev + [t]
      case Rejected(_) => prev
  }

  /** The failures of the rejected outcomes, in order. */
  function FailuresOf(outs: seq<RowOutcome>): seq<RowFailure>
  {
    if |outs| == 0 then []
    else
      var prev := FailuresOf(outs[..|outs| - 1]);
      match outs[|outs| - 1]
      case Accepted(_) => prev
      case Rejected(f) => prev + [f]
  }

  /** Every outcome lands on exactly one side. */
  lemma {:induction false} OutcomesPartition(outs: seq<RowOutcome>)
    ensures |AcceptedOf(outs)| + |FailuresOf(outs)| == |outs|
  {
    if |outs| > 0 {
      OutcomesPartition(outs[..|outs| - 1]);
    }
  }

  /** Failures carry row numbers 2..n+1, strictly increasing: file order, at most one per row. */
  lemma {:induction false} FailuresInFileOrder(outs: seq<RowOutcome>)
    requires Numbered(outs)
    ensures forall k :: 0 <= k < |FailuresOf(outs)| ==> 2 <= FailuresOf(outs)[k].line <= |outs| + 1
    ensures forall a, b :: 0 <= a < b < |FailuresOf(outs)| ==> FailuresOf(outs)[a].line < FailuresOf(outs)[b].line
  {
    if |outs| > 0 {
      var init := outs[..|outs| - 1];
      assert Numbered(init) by {
        forall i | 0 <= i < |init| ensures init[i] == outs[i] { }
      }
      FailuresInFileOrder(init);
    }
  }

  /** An outcome is among the failures exactly when it is a rejection, under its own row number. */
  lemma {:induction false} FailureReported(outs: seq<RowOutcome>, i: nat)
    requires Numbered(outs) && i < |outs|
    ensures outs[i].Rejected? ==> outs[i].failure in FailuresOf(outs)
    ensures outs[i].Accepted? ==> forall f :: f in FailuresOf(outs) ==> f.line != i + 2
  {
    var init := outs[..|outs| - 1];
    assert Numbered(init) by {
      forall j | 0 <= j < |init| ensures init[j] == outs[j] { }
    }
    FailuresInFileOrder(init);
    if i < |outs| - 1 {
      assert init[i] == outs[i];
      FailureReported(init, i);
    }
  }

  /** No failures exactly when every outcome is an acceptance; then the i-th transaction is outcome i's. */
  lemma {:induction false} AllAcceptedInOrder(outs: seq<RowOutcome>)
    ensures |FailuresOf(outs)| == 0 <==> forall i :: 0 <= i < |outs| ==> outs[i].Accepted?
    ensures |FailuresOf(outs)| == 0 ==>
      (|AcceptedOf(outs)| == |outs| && forall i :: 0 <= i < |outs| ==> outs[i] == Accepted(AcceptedOf(outs)[i]))
  {
    if |outs| > 0 {
      var init := outs[..|outs| - 1];
      AllAcceptedInOrder(init);
      assert forall i :: 0 <= i < |init| ==> init[i] == outs[i];
      if outs[|outs| - 1].Rejected? {
        assert |FailuresOf(outs)| > 0;
      }
    }
  }

  /** Folding one more outcome extends exactly one of the two sides. */
  lemma FoldStep(outs: seq<RowOutcome>, i: nat)
    requires i < |outs|
    ensures AcceptedOf(outs[..i + 1])
      == if outs[i].Accepted? then AcceptedOf(outs[..i]) + [outs[i].transaction] else AcceptedOf(outs[..i])
    ensures FailuresOf(outs[..i + 1])
      == if outs[i].Rejected? then FailuresOf(outs[..i]) + [outs[i].failure] else FailuresOf(outs[..i])
  {
    assert outs[..i + 1][..i] == outs[..i];
  }

  lemma OutcomesNumbered(env: Env, rows: seq<Row>)
    ensures Numbered(Outcomes(env, rows))
  {
  }

  /** An accepted transaction's number is the row's non-empty key, which is not in the earlier seen-set. */
  lemma AcceptedKey(env: Env, rows: seq<Row>, i: nat)
    requires i < |rows| && OutcomeAt(env, rows, i).Accepted?
    ensures KeyOf(rows[i]) == Some(OutcomeAt(env, rows, i).transaction.transactionNo)
    ensures OutcomeAt(env, rows, i).transaction.transactionNo !in SeenBefore(rows, i)
  {
  }

  predicate DistinctKeys(ts: seq<Transaction>)
  {
    forall a, b :: 0 <= a < b < |ts| ==> ts[a].transactionNo != ts[b].transactionNo
  }

  /** The seen-set makes the accepted transactions of the first n rows pairwise distinct by number. */
  lemma {:induction false} AcceptedDistinct(env: Env, rows: seq<Row>, n: nat)
    requires n <= |rows|
    ensures DistinctKeys(AcceptedOf(Outcomes(env, rows)[..n]))
    ensures forall t :: t in AcceptedOf(Outcomes(env, rows)[..n]) ==> t.transactionNo in SeenBefore(rows, n)
  {
    if n > 0 {
      var outs := Outcomes(env, rows);
      assert outs[..n][..n - 1] == outs[..n - 1];
      AcceptedDistinct(env, rows, n - 1);
      SeenStep(rows, n - 1);
      if outs[n - 1].Accepted? {
        AcceptedKey(env, rows, n - 1);
      }
    }
  }

  /**
   * A non-empty transaction number repeated from ANY earlier row, even one the schema
   * rejected, makes the later row a single duplicate failure with no schema issues.
   */
  lemma DuplicateShortCircuit(env: Env, rows: seq<Row>, j: nat, i: nat, no: string)
    requires j < i < |rows|
    requires KeyOf(rows[j]) == Some(no) && KeyOf(rows[i]) == Some(no)
    ensures OutcomeAt(env, rows, i) == Rejected(Duplicate(i + 2, no))
  {
    assert no in SeenBefore(rows, i);
  }

  /** The folded outcomes split the rows, accept distinct numbers and report failures in file order. */
  lemma ValidationSummary(env: Env, rows: seq<Row>)
    ensures |AcceptedOf(Outcomes(env, rows))| + |FailuresOf(Outcomes(env, rows))| == |rows|
    ensures DistinctKeys(AcceptedOf(Outcomes(env, rows)))
    ensures forall a, b :: 0 <= a < b < |FailuresOf(Outcomes(env, rows))| ==>
      FailuresOf(Outcomes(env, rows))[a].line < FailuresOf(Outcomes(env, rows))[b].line
  {
    var outs := Outcomes(env, rows);
    assert outs[..|rows|] == outs;
    OutcomesPartition(outs);
    AcceptedDistinct(env, rows, |rows|);
    OutcomesNumbered(env, rows);
    FailuresInFileOrder(outs);
  }

  /** The validation loop of the route, with the seen-set updated before the schema check. */
  method ValidateRows(env: Env, rows: seq<Row>) returns (valid: seq<Transaction>, failures: seq<RowFailure>)
    ensures valid == AcceptedOf(Outcomes(env, rows))
    ensures failures == FailuresOf(Outcomes(env, rows))
    ensures |valid| + |failures| == |rows|
    ensures DistinctKeys(valid)
    ensures forall a, b :: 0 <= a < b < |failures| ==> failures[a].line < failures[b].line
  {
    ghost var outs := Outcomes(env, rows);
    valid := [];
    failures := [];
    var seen: set<string> := {};
    for i := 0 to |rows|
      invariant seen == SeenBefore(rows, i)
      invariant valid == AcceptedOf(outs[..i])
      invariant failures == FailuresOf(outs[..i])
    {
      seen, valid, failures := ValidateRow(env, rows, i, seen, valid, failures);
    }
    assert outs[..|rows|] == outs;
    ValidationSummary(env, rows);
  }

  /** One pass of the loop body: the duplicate check, the seen-set update, then the schema. */
  method ValidateRow(env: Env, rows: seq<Row>, i: nat, seen: set<string>, valid: seq<Transaction>, failures: seq<RowFailure>)
    returns (seen': set<string>, valid': seq<Transaction>, failures': seq<RowFailure>)
    requires i < |rows| && seen == SeenBefore(rows, i)
    requires valid == AcceptedOf(Outcomes(env, rows)[..i]) && failures == FailuresOf(Outcomes(env, rows)[..i])
    ensures seen' == SeenBefore(rows, i + 1)
    ensures valid' == AcceptedOf(Outcomes(env, rows)[..i + 1]) && failures' == FailuresOf(Outcomes(env, rows)[..i + 1])
  {
    ghost var outs := Outcomes(env, rows);
    FoldStep(outs, i);
    SeenStep(rows, i);
    seen', valid', failures' := seen, valid, failures;
    var row := rows[i];
    var rowNum := i + 2;
    var key := KeyOf(row);
    if key.Some? && key.value in seen {
      assert outs[i] == Rejected(Duplicate(rowNum, key.value));
      failures' := failures + [Duplicate(rowNum, key.value)];
      return;
    }
    if key.Some? {
      seen' := seen + {key.value};
    }
    match CheckRow(env, row)
    case Err(issues) =>
      assert outs[i] == Rejected(Invalid(rowNum, issues));
      failures' := failures + [Invalid(rowNum, issues)];
    case Ok(t) =>
      assert outs[i] == Accepted(t);
      valid' := valid + [t];
  }

  /** An error Papa reports; the row number is undefined for file-level errors. */
  datatype ParseError = ParseError(row: Option<nat>, message: string)

  /** What the CSV parse hands back: its errors, the raw header cells and the data records. */
  datatype ParseOutput = ParseOutput(errors: seq<ParseError>, headers: seq<string>, records: seq<seq<string>>)

  /** `Line ${e.row}: ${e.message}`. */
  function RenderParseError(e: ParseError): (r: string)
    ensures |r| >= 5 && r[..5] == "Line "
    ensures e.row.Some? ==> NumberBeforeColon(r[5..]) == Some(e.row.value)
    ensures e.row.None? ==> r[5..] == "undefined: " + e.message
    ensures |r| >= |e.message| && r[|r| - |e.message|..] == e.message
  {
    var at := match e.row case Some(n) => NatToString(n) case None => "undefined";
    var r := "Line " + (at + (": " + e.message));
    assert r[5..] == at + (": " + e.message);
    match e.row
    case Some(n) =>
      NumberBeforeColonShape(at, e.message);
      NatToStringRoundTrip(n);
      r
    case None => r
  }

  function RowsOf(p: ParseOutput): (rows: seq<Row>)
    ensures |rows| == |p.records|
  {
    BuildRows(p.headers, p.records)
  }

  /** The transaction table, in insertion order. */
  datatype Store = Store(rows: seq<Transaction>)

  function StoredKeys(store: Store): set<string>
  {
    set t | t in store.rows :: t.transactionNo
  }

  /** The unique index on transaction_no admits the batch: no repeat inside it, none already stored. */
  predicate KeysFresh(store: Store, batch: seq<Transaction>)
  {
    DistinctKeys(batch) && forall t :: t in batch ==> t.transactionNo !in StoredKeys(store)
  }

  datatype Commit = Inserted(count: nat, after: Store) | UniqueViolation | StoreFault

  /**
   * createMany inside $transaction: all rows appended, or on any failure nothing.
   * A fault unrelated to uniqueness (fault = true) stands for every other database error.
   */
  function CreateMany(store: Store, batch: seq<Transaction>, fault: bool): (c: Commit)
    ensures c.Inserted? <==> !fault && KeysFresh(store, batch)
    ensures c.UniqueViolation? <==> !fault && !KeysFresh(store, batch)
    ensures c.Inserted? ==> c.count == |batch| && |c.after.rows| == |store.rows| + |batch|
    ensures c.Inserted? ==> c.after.rows[..|store.rows|] == store.rows
    ensures c.Inserted? ==> forall i :: 0 <= i < |batch| ==> c.after.rows[|store.rows| + i] == batch[i]
    ensures c.Inserted? && DistinctKeys(store.rows) ==> DistinctKeys(c.after.rows)
  {
    if fault then StoreFault
    else if !KeysFresh(store, batch) then UniqueViolation
    else
      var after := store.rows + batch;
      assert forall i :: 0 <= i < |store.rows| ==> after[i] in store.rows;
      assert forall i :: |store.rows| <= i < |after| ==> after[i] == batch[i - |store.rows|];
      Inserted(|batch|, Store(after))
  }

  const ConflictDetail := "A transaction number in this file already exists in the database."

  /** The JSON the route answers with; the error label is Error(). */
  datatype Response =
    | NoFile
    | ParseFailed(details: seq<string>)
    | EmptyFile
    | ValidationFailed(details: seq<string>)
    | Processed(count: nat)
    | Conflict(details: seq<string>)
    | InternalError
  {
    function Error(): string
    {
      match this
      case NoFile => "No file uploaded"
      case ParseFailed(_) => "CSV Parsing Error"
      case EmptyFile => "CSV is empty"
      case ValidationFailed(_) => "Validation Failed"
      case Processed(_) => ""
      case Conflict(_) => "Database Conflict"
      case InternalError => "Internal Server Error"
    }
  }

  /** Every row of the file passes both the duplicate check and the schema. */
  predicate AllRowsAccepted(env: Env, rows: seq<Row>)
  {
    forall i :: 0 <= i < |rows| ==> OutcomeAt(env, rows, i).Accepted?
  }

  /** Some accepted row carries a transaction number that storage already holds. */
  predicate AnyKeyStored(env: Env, rows: seq<Row>, store: Store)
  {
    exists i :: 0 <= i < |rows| && OutcomeAt(env, rows, i).Accepted?
      && OutcomeAt(env, rows, i).transaction.transactionNo in StoredKeys(store)
  }

  /** Every rejected row's message is among the details. */
  predicate ReportsEveryRejection(env: Env, rows: seq<Row>, details: seq<string>)
  {
    forall i :: 0 <= i < |rows| && OutcomeAt(env, rows, i).Rejected? ==>
      Render(OutcomeAt(env, rows, i).failure) in details
  }

  /** after is store followed by the schema output of every row, in file order. */
  predicate AppendedInOrder(env: Env, rows: seq<Row>, store: Store, after: Store)
  {
    && |after.rows| == |store.rows| + |rows|
    && after.rows[..|store.rows|] == store.rows
    && forall i :: 0 <= i < |rows| ==> CheckRow(env, rows[i]) == Ok(after.rows[|store.rows| + i])
  }

  /** Appending the accepted transactions of a fully accepted file puts row i's schema output at position i. */
  lemma AcceptedAppended(env: Env, rows: seq<Row>, store: Store, after: Store)
    requires AllRowsAccepted(env, rows)
    requires |after.rows| == |store.rows| + |AcceptedOf(Outcomes(env, rows))|
    requires after.rows[..|store.rows|] == store.rows
    requires forall i :: 0 <= i < |AcceptedOf(Outcomes(env, rows))| ==>
      after.rows[|store.rows| + i] == AcceptedOf(Outcomes(env, rows))[i]
    ensures AppendedInOrder(env, rows, store, after)
  {
    var outs := Outcomes(env, rows);
    var valid := AcceptedOf(outs);
    AllAcceptedInOrder(outs);
    forall i | 0 <= i < |rows| ensures CheckRow(env, rows[i]) == Ok(after.rows[|store.rows| + i]) {
      assert after.rows[|store.rows| + i] == valid[i];
      assert OutcomeAt(env, rows, i) == Accepted(valid[i]);
    }
  }

  /** The report of a rejected file: one rendered message per rejected row, none missing. */
  lemma ReportComplete(env: Env, rows: seq<Row>, failures: seq<RowFailure>, details: seq<string>)
    requires failures == FailuresOf(Outcomes(env, rows))
    requires |details| == |failures| && forall k :: 0 <= k < |failures| ==> details[k] == Render(failures[k])
    ensures ReportsEveryRejection(env, rows, details)
    ensures |failures| > 0 <==> !AllRowsAccepted(env, rows)
  {
    var outs := Outcomes(env, rows);
    OutcomesNumbered(env, rows);
    forall i | 0 <= i < |rows| && OutcomeAt(env, rows, i).Rejected?
      ensures Render(OutcomeAt(env, rows, i).failure) in details
    {
      FailureReported(outs, i);
      var k :| 0 <= k < |failures| && failures[k] == OutcomeAt(env, rows, i).failure;
      assert details[k] == Render(failures[k]);
    }
    AllAcceptedInOrder(outs);
  }

  /** For a fully accepted file, the unique index admits the batch unless storage holds one of its keys. */
  lemma FreshUnlessStored(env: Env, rows: seq<Row>, store: Store)
    requires AllRowsAccepted(env, rows)
    ensures |AcceptedOf(Outcomes(env, rows))| == |rows|
    ensures KeysFresh(store, AcceptedOf(Outcomes(env, rows))) <==> !AnyKeyStored(env, rows, store)
  {
    var outs := Outcomes(env, rows);
    AllAcceptedInOrder(outs);
    AcceptedDistinct(env, rows, |rows|);
    assert outs[..|rows|] == outs;
    if AnyKeyStored(env, rows, store) {
      StoredKeyBlocks(env, rows, store);
    } else {
      NoStoredKey(env, rows, store);
    }
  }

  lemma StoredKeyBlocks(env: Env, rows: seq<Row>, store: Store)
    requires AllRowsAccepted(env, rows) && AnyKeyStored(env, rows, store)
    ensures exists t :: t in AcceptedOf(Outcomes(env, rows)) && t.transactionNo in StoredKeys(store)
  {
    var outs := Outcomes(env, rows);
    var valid := AcceptedOf(outs);
    AllAcceptedInOrder(outs);
    var i :| 0 <= i < |rows| && OutcomeAt(env, rows, i).Accepted?
      && OutcomeAt(env, rows, i).transaction.transactionNo in StoredKeys(store);
    assert outs[i] == Accepted(valid[i]);
    assert valid[i] in valid;
  }

  lemma NoStoredKey(env: Env, rows: seq<Row>, store: Store)
    requires AllRowsAccepted(env, rows) && !AnyKeyStored(env, rows, store)
    ensures forall t :: t in AcceptedOf(Outcomes(env, rows)) ==> t.transactionNo !in StoredKeys(store)
  {
    var outs := Outcomes(env, rows);
    var valid := AcceptedOf(outs);
    AllAcceptedInOrder(outs);
    forall t | t in valid ensures t.transactionNo !in StoredKeys(store) {
      var i :| 0 <= i < |valid| && valid[i] == t;
      assert outs[i] == Accepted(t);
    }
  }

  /**
   * The atomic insert of a fully accepted file and its translation into a response:
   * P2002 becomes the single conflict message, any other database error an internal error.
   */
  method CommitBatch(env: Env, rows: seq<Row>, valid: seq<Transaction>, store: Store, fault: bool)
    returns (response: Response, after: Store)
    requires AllRowsAccepted(env, rows) && valid == AcceptedOf(Outcomes(env, rows))
    ensures response.Processed? || response.Conflict? || response.InternalError?
    ensures response.Processed? <==> !fault && !AnyKeyStored(env, rows, store)
    ensures response.Conflict? <==> !fault && AnyKeyStored(env, rows, store)
    ensures response.Processed? ==> response.count == |rows| && AppendedInOrder(env, rows, store, after)
    ensures response.Conflict? ==> response.details == [ConflictDetail]
    ensures !response.Processed? ==> after == store
  {
    FreshUnlessStored(env, rows, store);
    after := store;
    var commit := CreateMany(store, valid, fault);
    match commit
    case Inserted(count, stored) =>
      after := stored;
      response := Processed(count);
      AcceptedAppended(env, rows, store, after);
    case UniqueViolation =>
      response := Conflict([ConflictDetail]);
    case StoreFault =>
      response := InternalError;
  }

  /** The file arrived, parsed cleanly and has at least one data row. */
  predicate HasData(file: Option<ParseOutput>)
  {
    file.Some? && |file.value.errors| == 0 && |file.value.records| > 0
  }

  /** The file has data and every row of it is accepted. */
  predicate AllAccepted(env: Env, file: Option<ParseOutput>)
  {
    HasData(file) && AllRowsAccepted(env, RowsOf(file.value))
  }

  /**
   * The POST handler. `file` is None when the form has no file; `fault` says whether the
   * database fails for a reason other than the unique index.
   */
  method Post(env: Env, file: Option<ParseOutput>, store: Store, fault: bool) returns (response: Response, after: Store)
    ensures !response.Processed? ==> after == store
    ensures response.NoFile? <==> file.None?
    ensures response.ParseFailed? <==> file.Some? && |file.value.errors| > 0
    ensures response.ParseFailed? ==>
      && |response.details| == |file.value.errors|
      && forall k :: 0 <= k < |file.value.errors| ==> response.details[k] == RenderParseError(file.value.errors[k])
    ensures response.EmptyFile? <==> file.Some? && |file.value.errors| == 0 && |file.value.records| == 0
    ensures response.ValidationFailed? <==> HasData(file) && !AllRowsAccepted(env, RowsOf(file.value))
    ensures response.ValidationFailed? ==>
      && |response.details| == |file.value.records| - |AcceptedOf(Outcomes(env, RowsOf(file.value)))|
      && ReportsEveryRejection(env, RowsOf(file.value), response.details)
    ensures response.ValidationFailed? ==>
      && |response.details| == |FailuresOf(Outcomes(env, RowsOf(file.value)))|
      && forall k :: 0 <= k < |response.details| ==>
        response.details[k] == Render(FailuresOf(Outcomes(env, RowsOf(file.value)))[k])
    ensures response.Processed? <==> AllAccepted(env, file) && !fault && !AnyKeyStored(env, RowsOf(file.value), store)
    ensures response.Processed? ==>
      response.count == |file.value.records| && AppendedInOrder(env, RowsOf(file.value), store, after)
    ensures response.Conflict? <==> AllAccepted(env, file) && !fault && AnyKeyStored(env, RowsOf(file.value), store)
    ensures response.Conflict? ==> response.details == [ConflictDetail]
    ensures response.InternalError? <==> AllAccepted(env, file) && fault
  {
    after := store;
    if file.None? {
      return NoFile, after;
    }
    var parsed := file.value;
    if |parsed.errors| > 0 {
      var details := seq(|parsed.errors|, k requires 0 <= k < |parsed.errors| => RenderParseError(parsed.errors[k]));
      return ParseFailed(details), after;
    }
    var rows := RowsOf(parsed);
    if |rows| == 0 {
      return EmptyFile, after;
    }
    var valid, failures := ValidateRows(env, rows);
    var details := seq(|failures|, k requires 0 <= k < |failures| => Render(failures[k]));
    ReportComplete(env, rows, failures, details);
    if |failures| > 0 {
      return ValidationFailed(details), after;
    }
    response, after := CommitBatch(env, rows, valid, store, fault);
  }
}
