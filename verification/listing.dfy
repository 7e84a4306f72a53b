/**
 * The transactions listing route: a search and an income/expense filter over the
 * stored transactions, one page of the result, and the page count.
 */
module Listing {
  import opened Wrappers
  import opened Text

  /** The fields of a stored transaction the listing looks at. */
  datatype Record = Record(transactionNo: string, fullName: string, amount: real)

  /** Math.ceil(total / limit): a number, or Infinity/NaN (sent as null) when limit is 0. */
  datatype PageCount = Pages(n: int) | NotFinite

  /** The meta block and data of a response. */
  datatype ListPage = ListPage(data: seq<Record>, total: nat, page: int, limit: int, totalPages: PageCount)

  /** The offset of a page: pages are numbered from 1 and hold limit records each. */
  function Skip(page: int, limit: int): (skip: int)
    ensures page == 1 ==> skip == 0
  {
    (page - 1) * limit
  }

  /** Math.ceil(total / limit), written out for integers of either sign. */
  function TotalPages(total: nat, limit: int): (p: PageCount)
    ensures p.NotFinite? <==> limit == 0
    ensures limit > 0 ==> (p.n - 1) * limit < total <= p.n * limit
    ensures limit < 0 ==> p.n * limit <= total < (p.n - 1) * limit
  {
    if limit == 0 then NotFinite
    else if limit > 0 then Pages((total + limit - 1) / limit)
    else Pages(-(total / -limit))
  }

  /** The search clause: none for an empty search, else name OR number contains it, ignoring case. */
  predicate MatchesSearch(search: string, r: Record)
  {
    search == "" || ContainsInsensitive(r.fullName, search) || ContainsInsensitive(r.transactionNo, search)
  }

  /** A non-empty search matches exactly when the name or the number holds it somewhere, ignoring case. */
  lemma SearchMeaning(search: string, r: Record)
    ensures search != "" ==> (MatchesSearch(search, r) <==>
      || (exists i :: 0 <= i <= |r.fullName| && OccursAt(Lower(r.fullName), Lower(search), i))
      || (exists i :: 0 <= i <= |r.transactionNo| && OccursAt(Lower(r.transactionNo), Lower(search), i)))
  {
  }

  /** The amount clause: INCOME is amount > 0, EXPENSE is amount < 0, anything else none. */
  function MatchesType(kind: string, r: Record): (b: bool)
    ensures b <==> (kind == "INCOME" ==> r.amount > 0.0) && (kind == "EXPENSE" ==> r.amount < 0.0)
  {
    if kind == "INCOME" then r.amount > 0.0
    else if kind == "EXPENSE" then r.amount < 0.0
    else true
  }

  predicate Keep(search: string, kind: string, r: Record)
  {
    MatchesSearch(search, r) && MatchesType(kind, r)
  }

  /** The records a predicate admits, in list order. */
  function FilterBy(records: seq<Record>, keep: Record -> bool): (r: seq<Record>)
    ensures |r| <= |records|
    ensures forall k :: 0 <= k < |r| ==> keep(r[k])
  {
    if |records| == 0 then []
    else
      var rest := FilterBy(records[1..], keep);
      if keep(records[0]) then [records[0]] + rest else rest
  }

  lemma {:induction false} FilterByMembers(records: seq<Record>, keep: Record -> bool)
    ensures forall x :: x in FilterBy(records, keep) <==> x in records && keep(x)
  {
    if |records| > 0 {
      FilterByMembers(records[1..], keep);
      assert forall x :: x in records <==> x == records[0] || x in records[1..];
    }
  }

  lemma {:induction false} FilterByAppend(a: seq<Record>, b: seq<Record>, keep: Record -> bool)
    ensures FilterBy(a + b, keep) == FilterBy(a, keep) + FilterBy(b, keep)
  {
    if |a| == 0 {
      assert a + b == b;
    } else {
      assert (a + b)[0] == a[0];
      assert (a + b)[1..] == a[1..] + b;
      FilterByAppend(a[1..], b, keep);
    }
  }

  /** The where clause of the route as a predicate on records. */
  function Where(search: string, kind: string): Record -> bool
  {
    r => Keep(search, kind, r)
  }

  /** The records the where clause admits, in storage order. */
  function Filter(records: seq<Record>, search: string, kind: string): (r: seq<Record>)
    ensures |r| <= |records|
    ensures forall k :: 0 <= k < |r| ==> Keep(search, kind, r[k])
  {
    FilterBy(records, Where(search, kind))
  }

  /** A record is in the filtered list exactly when it is stored and the where clause admits it. */
  lemma FilterMembers(records: seq<Record>, search: string, kind: string)
    ensures forall x :: x in Filter(records, search, kind) <==> x in records && Keep(search, kind, x)
  {
    FilterByMembers(records, Where(search, kind));
  }

  /** Filtering a concatenation filters each part. */
  lemma FilterAppend(a: seq<Record>, b: seq<Record>, search: string, kind: string)
    ensures Filter(a + b, search, kind) == Filter(a, search, kind) + Filter(b, search, kind)
  {
    FilterByAppend(a, b, Where(search, kind));
  }

  /** A single record is kept exactly when the where clause admits it. */
  lemma FilterSingle(x: Record, search: string, kind: string)
    ensures Filter([x], search, kind) == if Keep(search, kind, x) then [x] else []
  {
    assert [x][1..] == [];
  }

  /** Filtering keeps storage order: the result is the records the clause admits, one by one. */
  lemma {:induction false} FilterInOrder(records: seq<Record>, search: string, kind: string)
    ensures |records| > 0 ==>
      (Filter(records, search, kind)
       == Filter(records[..|records| - 1], search, kind) + Filter([records[|records| - 1]], search, kind))
  {
    if |records| > 0 {
      assert records == records[..|records| - 1] + [records[|records| - 1]];
      FilterAppend(records[..|records| - 1], [records[|records| - 1]], search, kind);
    }
  }

  /** take/skip over a list: at most limit records starting at offset skip. */
  function Slice(filtered: seq<Record>, skip: nat, limit: nat): (data: seq<Record>)
    ensures |data| <= limit
    ensures forall k :: 0 <= k < |data| ==> skip + k < |filtered| && data[k] == filtered[skip + k]
    ensures |data| == limit || skip + |data| >= |filtered|
  {
    var start := if skip <= |filtered| then skip else |filtered|;
    var end := if skip + limit <= |filtered| then skip + limit else |filtered|;
    filtered[start..end]
  }

  /**
   * A negative take: the count records that end skip records before the end of the
   * list, kept in list order.
   */
  function SliceFromEnd(filtered: seq<Record>, skip: nat, count: nat): (data: seq<Record>)
    ensures |data| <= count
    ensures |data| == count || |data| + skip >= |filtered|
    ensures forall k :: 0 <= k < |data| ==>
      0 <= |filtered| - skip - |data| + k < |filtered| && data[k] == filtered[|filtered| - skip - |data| + k]
  {
    var end := if skip <= |filtered| then |filtered| - skip else 0;
    var start := if count <= end then end - count else 0;
    filtered[start..end]
  }

  function Reverse(s: seq<Record>): (r: seq<Record>)
    ensures |r| == |s|
    ensures forall k :: 0 <= k < |s| ==> r[k] == s[|s| - 1 - k]
  {
    seq(|s|, k requires 0 <= k < |s| => s[|s| - 1 - k])
  }

  /** A negative take is a positive take over the reversed order, reversed back. */
  lemma SliceFromEndIsReversedSlice(filtered: seq<Record>, skip: nat, count: nat)
    ensures SliceFromEnd(filtered, skip, count) == Reverse(Slice(Reverse(filtered), skip, count))
  {
    var n := |filtered|;
    var a := SliceFromEnd(filtered, skip, count);
    var rev := Reverse(filtered);
    var sl := Slice(rev, skip, count);
    var b := Reverse(sl);
    assert |a| == |sl| by {
      assert |a| == count || |a| + skip >= n;
      assert |sl| == count || skip + |sl| >= n;
      if |sl| > 0 {
        assert skip + |sl| - 1 < n;
      }
      if |a| > 0 {
        assert 0 <= n - skip - |a|;
      }
    }
    forall k | 0 <= k < |a| ensures a[k] == b[k] {
      assert b[k] == sl[|sl| - 1 - k];
      assert sl[|sl| - 1 - k] == rev[skip + |sl| - 1 - k];
      assert rev[skip + |sl| - 1 - k] == filtered[n - skip - |sl| + k];
    }
  }

  /**
   * GET: filter, then skip/take over the filtered records, and report the total
   * and the page count. The database refuses a negative skip; a negative take
   * counts back from the end of the list.
   */
  function List(records: seq<Record>, page: int, limit: int, search: string, kind: string): (r: Result<ListPage, string>)
    ensures r.Ok? <==> Skip(page, limit) >= 0
    ensures r.Ok? ==> r.value.total == |Filter(records, search, kind)|
    ensures r.Ok? ==> r.value.totalPages == TotalPages(r.value.total, limit)
    ensures r.Ok? && limit >= 0 ==> r.value.data == Slice(Filter(records, search, kind), Skip(page, limit), limit)
    ensures r.Ok? && limit < 0 ==> r.value.data == SliceFromEnd(Filter(records, search, kind), Skip(page, limit), -limit)
  {
    var skip := Skip(page, limit);
    if skip < 0 then Err("negative skip")
    else
      var filtered := Filter(records, search, kind);
      var data := if limit >= 0 then Slice(filtered, skip, limit) else SliceFromEnd(filtered, skip, -limit);
      Ok(ListPage(data, |filtered|, page, limit, TotalPages(|filtered|, limit)))
  }

  /** An empty search keeps every record: it is the same as a search that everything contains. */
  lemma EmptySearchKeepsAll(r: Record)
    ensures MatchesSearch("", r)
    ensures ContainsInsensitive(r.fullName, "")
  {
    assert OccursAt(Lower(r.fullName), Lower(""), 0);
  }

  /** Zero is neither income nor expense, and any other type string filters nothing. */
  lemma AmountFilter(r: Record, kind: string)
    ensures r.amount == 0.0 ==> !MatchesType("INCOME", r) && !MatchesType("EXPENSE", r)
    ensures kind != "INCOME" && kind != "EXPENSE" ==> MatchesType(kind, r)
    ensures MatchesType("INCOME", r) <==> r.amount > 0.0
    ensures MatchesType("EXPENSE", r) <==> r.amount < 0.0
  {
  }

  lemma MulMonotone(a: int, b: int, c: int)
    requires a <= b && c > 0
    ensures a * c <= b * c
  {
  }

  /** With a positive limit, index i lies on page i / limit + 1, and that page is at most the page count. */
  lemma PageOfIndex(total: nat, limit: int, i: nat)
    requires limit > 0 && i < total
    ensures Skip(i / limit + 1, limit) <= i < Skip(i / limit + 1, limit) + limit
    ensures 1 <= i / limit + 1 <= TotalPages(total, limit).n
  {
    var q := i / limit;
    assert Skip(q + 1, limit) == q * limit;
    var n := TotalPages(total, limit).n;
    if q >= n {
      MulMonotone(n, q, limit);
    }
  }

  /** With a positive limit, record i of the filtered list appears on page i / limit + 1, one of pages 1..totalPages. */
  lemma RecordOnItsPage(records: seq<Record>, search: string, kind: string, limit: int, i: nat)
    requires limit > 0 && i < |Filter(records, search, kind)|
    ensures var page := i / limit + 1;
      && 1 <= page <= TotalPages(|Filter(records, search, kind)|, limit).n
      && List(records, page, limit, search, kind).Ok?
      && Skip(page, limit) <= i
      && i - Skip(page, limit) < |List(records, page, limit, search, kind).value.data|
      && List(records, page, limit, search, kind).value.data[i - Skip(page, limit)] == Filter(records, search, kind)[i]
  {
    var filtered := Filter(records, search, kind);
    var page := i / limit + 1;
    PageOfIndex(|filtered|, limit, i);
    var skip := Skip(page, limit);
    var res := List(records, page, limit, search, kind);
    assert res.Ok? && res.value.data == Slice(filtered, skip, limit);
    SliceAt(filtered, skip, limit, i);
  }

  /** A record whose index lies in [skip, skip + limit) is on that slice, at offset index - skip. */
  lemma SliceAt(filtered: seq<Record>, skip: nat, limit: nat, i: nat)
    requires skip <= i < skip + limit && i < |filtered|
    ensures i - skip < |Slice(filtered, skip, limit)| && Slice(filtered, skip, limit)[i - skip] == filtered[i]
  {
  }
}
