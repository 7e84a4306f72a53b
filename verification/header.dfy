/**
 * The header handling of the CSV parse in the upload route: every header cell goes
 * through transformHeader, and each data record becomes a map from the normalised
 * header names to the record's cells.
 */
module CsvHeader {
  import opened Text

  /** Replaces every space (only U+0020, as the regular expression / /g does) with '_'. */
  function ReplaceSpaces(s: string): (r: string)
    ensures |r| == |s|
    ensures forall i :: 0 <= i < |r| ==> r[i] != ' '
    ensures forall i :: 0 <= i < |s| ==> r[i] == (if s[i] == ' ' then '_' else s[i])
  {
    seq(|s|, i requires 0 <= i < |s| => if s[i] == ' ' then '_' else s[i])
  }

  /** The shape of a normalised header: trimmed, no ASCII capitals, no spaces. */
  predicate IsNormalHeader(h: string)
  {
    && IsTrimmed(h)
    && forall i :: 0 <= i < |h| ==> !IsUpper(h[i]) && h[i] != ' '
  }

  /** transformHeader: trim, lower-case, then every space becomes an underscore. */
  function NormalizeHeader(h: string): (r: string)
    ensures IsNormalHeader(r)
    ensures |r| <= |h|
    ensures exists t, k ::
      && IsTrimmed(t) && IsCoreOf(h, t, k) && |r| == |t|
      && forall i :: 0 <= i < |t| ==> r[i] == (if t[i] == ' ' then '_' else LowerChar(t[i]))
  {
    var t := Trim(h);
    NormalShape(t);
    ReplaceSpaces(Lower(t))
  }

  /** Lower-casing and replacing spaces keep a trimmed string trimmed. */
  lemma NormalShape(t: string)
    requires IsTrimmed(t)
    ensures IsNormalHeader(ReplaceSpaces(Lower(t)))
  {
    var l := Lower(t);
    var r := ReplaceSpaces(l);
    if |t| > 0 {
      assert !IsWhitespace(l[0]) && !IsWhitespace(l[|l| - 1]);
      assert r[0] == l[0] && r[|r| - 1] == l[|l| - 1];
    }
  }

  /** A normalised header is a fixed point of the normalisation. */
  lemma {:induction false} NormalizeFixesNormal(h: string)
    requires IsNormalHeader(h)
    ensures NormalizeHeader(h) == h
  {
    TrimIdempotent(h);
    assert Lower(h) == h;
    assert ReplaceSpaces(h) == h;
  }

  /** Normalising twice is normalising once. */
  lemma NormalizeIdempotent(h: string)
    ensures NormalizeHeader(NormalizeHeader(h)) == NormalizeHeader(h)
  {
    NormalizeFixesNormal(NormalizeHeader(h));
  }

  lemma TrimSpreadsheetHeader()
    ensures Trim("Transaction No") == "Transaction No"
  {
    var h := "Transaction No";
    assert !IsWhitespace(h[0]) && !IsWhitespace(h[|h| - 1]);
    TrimIdempotent(h);
  }

  lemma LowerSpreadsheetHeader()
    ensures Lower("Transaction No") == "transaction no"
  {
    assert LowerChar('T') == 't' && LowerChar('N') == 'n';
  }

  /** The header spelled as in a spreadsheet resolves to the schema's field name. */
  lemma HeaderVariant()
    ensures NormalizeHeader("Transaction No") == "transaction_no"
  {
    TrimSpreadsheetHeader();
    LowerSpreadsheetHeader();
    assert ReplaceSpaces("transaction no") == "transaction_no";
  }

  function NormalizeAll(headers: seq<string>): (r: seq<string>)
    ensures |r| == |headers|
    ensures forall j :: 0 <= j < |headers| ==> r[j] == NormalizeHeader(headers[j])
  {
    seq(|headers|, j requires 0 <= j < |headers| => NormalizeHeader(headers[j]))
  }

  function Min(a: int, b: int): int
  {
    if a <= b then a else b
  }

  /**
   * One parsed record as an object keyed by header name: cell j is stored under
   * header j, a later column overwrites an earlier one with the same name, and
   * cells or headers without a partner are not stored.
   */
  function BuildRow(keys: seq<string>, cells: seq<string>): (row: map<string, string>)
    ensures row.Keys == set j | 0 <= j < Min(|keys|, |cells|) :: keys[j]
    decreases |keys|
  {
    var n := Min(|keys|, |cells|);
    if n == 0 then map[]
    else
      var prev := BuildRow(keys[..n - 1], cells[..n - 1]);
      assert forall j :: 0 <= j < n - 1 ==> keys[..n - 1][j] == keys[j];
      prev[keys[n - 1] := cells[n - 1]]
  }

  /** The cell stored under a header is the one of that header's last column. */
  lemma {:induction false} BuildRowValue(keys: seq<string>, cells: seq<string>, j: nat)
    requires j < Min(|keys|, |cells|)
    requires forall j' :: j < j' < Min(|keys|, |cells|) ==> keys[j'] != keys[j]
    ensures keys[j] in BuildRow(keys, cells)
    ensures BuildRow(keys, cells)[keys[j]] == cells[j]
    decreases |keys|
  {
    var n := Min(|keys|, |cells|);
    if j < n - 1 {
      BuildRowValue(keys[..n - 1], cells[..n - 1], j);
    }
  }

  /** The rows the parser hands on: each record keyed by the normalised headers. */
  function BuildRows(headers: seq<string>, records: seq<seq<string>>): (rows: seq<map<string, string>>)
    ensures |rows| == |records|
    ensures forall i :: 0 <= i < |records| ==> rows[i] == BuildRow(NormalizeAll(headers), records[i])
  {
    var keys := NormalizeAll(headers);
    seq(|records|, i requires 0 <= i < |records| => BuildRow(keys, records[i]))
  }

  /** Header lists that agree after normalisation give identical rows for any records. */
  lemma EquivalentHeadersSameRows(h1: seq<string>, h2: seq<string>, records: seq<seq<string>>)
    requires |h1| == |h2|
    requires forall j :: 0 <= j < |h1| ==> NormalizeHeader(h1[j]) == NormalizeHeader(h2[j])
    ensures BuildRows(h1, records) == BuildRows(h2, records)
  {
    assert NormalizeAll(h1) == NormalizeAll(h2);
  }

  /** Whitespace around a header cell does not change its name. */
  lemma NormalizeIgnoresSurroundingWhitespace(w1: string, h: string, w2: string)
    requires forall i :: 0 <= i < |w1| ==> IsWhitespace(w1[i])
    requires forall i :: 0 <= i < |w2| ==> IsWhitespace(w2[i])
    ensures NormalizeHeader(w1 + h + w2) == NormalizeHeader(h)
  {
    TrimSurrounded(w1, h, w2);
  }

  /** A header and its lower-cased spelling have the same name. */
  lemma NormalizeOfLower(h: string)
    ensures NormalizeHeader(Lower(h)) == NormalizeHeader(h)
  {
    LowerTrimCommute(h);
    LowerIdempotent(Trim(h));
  }

  /** Headers differing only in the case of ASCII letters have the same name. */
  lemma NormalizeIgnoresCase(h1: string, h2: string)
    requires Lower(h1) == Lower(h2)
    ensures NormalizeHeader(h1) == NormalizeHeader(h2)
  {
    NormalizeOfLower(h1);
    NormalizeOfLower(h2);
  }

  /** Inside a header, a space and an underscore give the same name. */
  lemma NormalizeSpaceAsUnderscore(a: string, b: string)
    requires IsTrimmed(a + " " + b)
    ensures NormalizeHeader(a + " " + b) == NormalizeHeader(a + "_" + b)
  {
    var h1 := a + " " + b;
    var h2 := a + "_" + b;
    assert |h1| > 0 && h1[0] != ' ' && h1[|h1| - 1] != ' ';
    assert |a| > 0 && |b| > 0;
    assert h2[0] == h1[0] && h2[|h2| - 1] == h1[|h1| - 1];
    TrimIdempotent(h1);
    TrimIdempotent(h2);
    assert forall i :: 0 <= i < |h1| && i != |a| ==> h1[i] == h2[i];
  }
}
