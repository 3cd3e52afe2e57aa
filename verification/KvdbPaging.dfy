/** kvdb/src/kvdbHandler.cpp: one page of the entries of a column family, in key order. */
module KvdbPaging {
  import opened Wrappers

  type Word = x: nat | x < U32

  datatype Pair = Pair(key: string, value: string)

  // The filter of search: the empty prefix accepts every key.
  predicate Accepts(prefix: string, key: string) {
    prefix == "" || prefix <= key
  }

  // The entries a search is about, in the order of the iterator.
  function Matching(entries: seq<Pair>, prefix: string): seq<Pair> {
    if entries == [] then []
    else (if Accepts(prefix, entries[0].key) then [entries[0]] else []) + Matching(entries[1..], prefix)
  }

  // A search is about the entries whose keys begin with the prefix.
  lemma {:induction false} MatchingLaw(entries: seq<Pair>, prefix: string)
    ensures forall e :: e in Matching(entries, prefix) <==> e in entries && exists rest :: e.key == prefix + rest
    ensures prefix == "" ==> Matching(entries, prefix) == entries
  {
    if entries != [] {
      MatchingLaw(entries[1..], prefix);
      Begins(prefix, entries[0].key);
      assert entries == [entries[0]] + entries[1..];
    }
  }

  lemma Begins(prefix: string, key: string)
    ensures prefix <= key <==> exists rest :: key == prefix + rest
  {
    if prefix <= key { assert key == prefix + key[|prefix|..]; }
  }

  // In their order, and as often as they come.
  lemma {:induction false} MatchingConcat(a: seq<Pair>, b: seq<Pair>, prefix: string)
    ensures Matching(a + b, prefix) == Matching(a, prefix) + Matching(b, prefix)
    decreases |b|
  {
    if b == [] {
      assert a + b == a;
    } else {
      var n := |b| - 1;
      assert a + b == a + b[..n] + [b[n]] && b == b[..n] + [b[n]];
      MatchingConcat(a, b[..n], prefix);
      MatchingAppend(a + b[..n], b[n], prefix);
      MatchingAppend(b[..n], b[n], prefix);
    }
  }

  lemma MatchingOne(e: Pair, prefix: string)
    ensures Matching([e], prefix) == if exists rest :: e.key == prefix + rest then [e] else []
  {
    var none: seq<Pair> := [];
    Begins(prefix, e.key);
    assert [e] == none + [e];
    MatchingAppend(none, e, prefix);
  }

  // The number of records that many pages hold.
  function RecordsOn(pages: nat, records: nat): nat {
    if pages == 0 then 0 else RecordsOn(pages - 1, records) + records
  }

  lemma {:induction false} RecordsProduct(pages: nat, records: nat)
    ensures RecordsOn(pages, records) == pages * records
  {
    if pages > 0 { RecordsProduct(pages - 1, records); }
  }

  lemma {:induction false} RecordsSum(a: nat, b: nat, records: nat)
    ensures RecordsOn(a + b, records) == RecordsOn(a, records) + RecordsOn(b, records)
    decreases b
  {
    if b > 0 { RecordsSum(a, b - 1, records); }
  }

  // page - 1, in unsigned arithmetic.
  function PagesBefore(page: Word): Word { (page + U32 - 1) % U32 }

  lemma PagesBeforeIs(page: Word)
    ensures PagesBefore(page) == if page == 0 then U32 - 1 else page - 1
  {
  }

  // (page - 1) * records, in unsigned arithmetic.
  function From(page: Word, records: Word): Word {
    RecordsOn(PagesBefore(page), records) % U32
  }

  function Min(a: nat, b: nat): nat { if a < b then a else b }

  // Entries from..to of a listing that may be shorter.
  function Slice(s: seq<Pair>, from: nat, to: nat): seq<Pair> {
    if from >= to then [] else s[Min(from, |s|)..Min(to, |s|)]
  }

  lemma {:induction false} MatchingAppend(a: seq<Pair>, e: Pair, prefix: string)
    ensures Matching(a + [e], prefix) == Matching(a, prefix) + if Accepts(prefix, e.key) then [e] else []
  {
    if a == [] {
      var none: seq<Pair> := [];
      assert a + [e] == [e] && [e][1..] == none;
    } else {
      assert (a + [e])[0] == a[0] && (a + [e])[1..] == a[1..] + [e];
      MatchingAppend(a[1..], e, prefix);
      var tail := Matching(a[1..], prefix);
      Regroup(if Accepts(prefix, a[0].key) then [a[0]] else [], tail, if Accepts(prefix, e.key) then [e] else []);
    }
  }

  lemma Regroup(x: seq<Pair>, y: seq<Pair>, z: seq<Pair>)
    ensures x + (y + z) == x + y + z
  {
  }

  lemma {:induction false} MatchingPrefix(entries: seq<Pair>, n: nat, prefix: string)
    requires n <= |entries|
    ensures Matching(entries[..n], prefix) <= Matching(entries, prefix)
    decreases |entries| - n
  {
    if n == |entries| {
      assert entries[..n] == entries;
    } else {
      MatchingPrefix(entries, n + 1, prefix);
      assert entries[..n + 1] == entries[..n] + [entries[n]];
      MatchingAppend(entries[..n], entries[n], prefix);
    }
  }

  lemma SlicePrefix(p: seq<Pair>, s: seq<Pair>, from: nat, to: nat)
    requires p <= s && (p == s || |p| >= to)
    ensures Slice(p, from, to) == Slice(s, from, to)
  {
    if p != s && from < to { assert p[from..to] == s[from..to]; }
  }

  lemma SliceStep(m: seq<Pair>, e: Pair, from: nat, to: nat)
    requires |m| < to
    ensures Slice(m + [e], from, to) == Slice(m, from, to) + if |m| >= from then [e] else []
  {
  }

  lemma SliceJoin(m: seq<Pair>, from: nat, size: nat)
    ensures m[..Min(from, |m|)] + Slice(m, from, from + size) == m[..Min(from + size, |m|)]
  {
  }

  datatype PageError = DatabaseGone | ColumnFamilyGone | IterationFailed

  // What the handler finds behind its weak pointers: the entries the iterator yields, and its status at their end.
  datatype Source = Source(database: bool, columnFamily: bool, entries: seq<Pair>, statusOk: bool)

  // dump is the search for the empty prefix.
  method PageContent(source: Source, page: Word, records: Word, prefix: string)
    returns (r: Result<seq<Pair>, PageError>)
    ensures r.Success? <==> source.database && source.columnFamily && source.statusOk
    ensures r.Failure? ==> r.error == if !source.database then DatabaseGone
                                      else if !source.columnFamily then ColumnFamilyGone else IterationFailed
    ensures r.Success? ==> r.value == Page(Matching(source.entries, prefix), page, records)
    ensures r.Success? ==> forall e :: e in r.value ==> e in source.entries && prefix <= e.key
  {
    PageLaw(source.entries, prefix, page, records);
    if !source.database {
      return Failure(DatabaseGone);
    }
    if !source.columnFamily {
      return Failure(ColumnFamilyGone);
    }
    var fromRecords: Word := ((page + U32 - 1) % U32 * records) % U32;
    RecordsProduct(PagesBefore(page), records);
    var list := Collect(source.entries, fromRecords, (fromRecords + records) % U32, prefix);
    if !source.statusOk {
      return Failure(IterationFailed);
    }
    return Success(list);
  }

  // The loop over the iterator.
  method Collect(entries: seq<Pair>, fromRecords: Word, toRecords: Word, prefix: string) returns (list: seq<Pair>)
    ensures list == Slice(Matching(entries, prefix), fromRecords, toRecords)
  {
    list := [];
    var i: Word := 0;
    var iter := 0;
    while iter < |entries| && i < toRecords
      invariant 0 <= iter <= |entries| && i <= toRecords
      invariant i as nat == |Matching(entries[..iter], prefix)|
      invariant list == Slice(Matching(entries[..iter], prefix), fromRecords, toRecords)
    {
      assert entries[..iter + 1] == entries[..iter] + [entries[iter]];
      MatchingAppend(entries[..iter], entries[iter], prefix);
      SliceStep(Matching(entries[..iter], prefix), entries[iter], fromRecords, toRecords);
      if Accepts(prefix, entries[iter].key) {
        if i >= fromRecords {
          list := list + [entries[iter]];
        }
        i := i + 1;
      }
      iter := iter + 1;
    }
    MatchingPrefix(entries, iter, prefix);
    assert iter == |entries| ==> entries[..iter] == entries;
    SlicePrefix(Matching(entries[..iter], prefix), Matching(entries, prefix), fromRecords, toRecords);
  }

  // What a page is: its slice, unless its end does not fit in a word; then, and for page 0, it is empty.
  function Page(matching: seq<Pair>, page: Word, records: Word): seq<Pair> {
    Slice(matching, From(page, records), (From(page, records) + records) % U32)
  }

  // Nothing but such entries is on a page.
  lemma PageLaw(entries: seq<Pair>, prefix: string, page: Word, records: Word)
    ensures forall e :: e in Page(Matching(entries, prefix), page, records) ==> e in entries && prefix <= e.key
  {
    MatchingLaw(entries, prefix);
    forall e | e in Page(Matching(entries, prefix), page, records) ensures e in entries && prefix <= e.key {
      assert e in Matching(entries, prefix);
      Begins(prefix, e.key);
    }
  }

  lemma PageSlice(matching: seq<Pair>, page: Word, records: Word)
    ensures From(page, records) + records < U32 ==>
              Page(matching, page, records) == Slice(matching, From(page, records), From(page, records) + records)
    ensures From(page, records) + records >= U32 ==> Page(matching, page, records) == []
  {
    WrapSum(From(page, records), records);
  }

  lemma WrapSum(a: Word, b: Word)
    ensures (a + b) % U32 == if a + b < U32 then a + b else a + b - U32
  {
  }

  lemma PageZero(matching: seq<Pair>, records: Word)
    ensures Page(matching, 0, records) == []
  {
    PagesBeforeIs(0);
    AllPages(PagesBefore(0), records);
    PageEnd(0, records);
  }

  // All the pages but one: their records and one page more come to zero.
  lemma AllPages(pages: nat, records: Word)
    requires pages == U32 - 1
    ensures RecordsOn(pages, records) % U32 == if records == 0 then 0 else U32 - records
  {
    RecordsProduct(pages, records);
    assert pages * records == U32 * records - records;
    if records > 0 { Remainder(pages * records, records - 1, U32 - records); }
  }

  lemma PageEnd(page: Word, records: Word)
    requires From(page, records) == if records == 0 then 0 else U32 - records
    ensures (From(page, records) + records) % U32 == 0
  {
  }

  lemma Remainder(n: nat, q: nat, r: nat)
    requires n == U32 * q + r && r < U32
    ensures n % U32 == r
  {
  }

  // Pages 1 to n, one after the other.
  function Pages(matching: seq<Pair>, n: nat, records: Word): seq<Pair>
    requires n < U32
  {
    if n == 0 then [] else Pages(matching, n - 1, records) + Page(matching, n, records)
  }

  // As long as their end fits in a word, the pages make up the listing without gap or repeat.
  lemma {:induction false} PagesConcatenate(matching: seq<Pair>, n: nat, records: Word)
    requires n < U32 && RecordsOn(n, records) < U32
    ensures Pages(matching, n, records) == matching[..Min(RecordsOn(n, records), |matching|)]
  {
    if n > 0 {
      PagesConcatenate(matching, n - 1, records);
      FirstOf(n, records);
      SliceJoin(matching, RecordsOn(n - 1, records), records);
      PageSlice(matching, n, records);
    }
  }

  lemma FirstOf(page: nat, records: Word)
    requires 0 < page < U32 && RecordsOn(page, records) < U32
    ensures From(page, records) == RecordsOn(page - 1, records)
  {
    FromValue(page, records);
  }

  // ----- beyond the word -----

  predicate Distinct(m: seq<Pair>) {
    forall i, j :: 0 <= i < j < |m| ==> m[i] != m[j]
  }

  // The keys of a column family are distinct, so what a search is about is.
  lemma {:induction false} MatchingDistinct(entries: seq<Pair>, prefix: string)
    requires forall i, j :: 0 <= i < j < |entries| ==> entries[i].key != entries[j].key
    ensures Distinct(Matching(entries, prefix))
    ensures forall e :: e in Matching(entries, prefix) ==> e in entries
  {
    if entries != [] {
      MatchingDistinct(entries[1..], prefix);
      var rest := Matching(entries[1..], prefix);
      forall i | 0 <= i < |rest| ensures rest[i] != entries[0] {
        assert rest[i] in entries[1..];
      }
    }
  }

  // The page is the slice it should be: its end fits in a word, or there is nothing to show either way.
  predicate PageFits(size: nat, page: Word, records: Word)
    requires page > 0
  {
    || RecordsOn(page, records) < U32
    || (size <= RecordsOn(page - 1, records) && (From(page, records) + records >= U32 || size <= From(page, records)))
  }

  // A slice of that many records from there on is empty.
  predicate Nothing(size: nat, from: nat, records: nat) { records == 0 || size <= from }

  lemma SliceEmpty(m: seq<Pair>, from: nat, records: nat)
    ensures Slice(m, from, from + records) == [] <==> Nothing(|m|, from, records)
    ensures !Nothing(|m|, from, records) ==> Slice(m, from, from + records)[0] == m[from]
  {
  }

  lemma PageEmpty(m: seq<Pair>, page: Word, records: Word)
    ensures var from := From(page, records);
            && (Page(m, page, records) == [] <==> from + records >= U32 || Nothing(|m|, from, records))
            && (Page(m, page, records) != [] ==> from < |m| && Page(m, page, records)[0] == m[from])
  {
    PageSlice(m, page, records);
    SliceEmpty(m, From(page, records), records);
  }

  // A page is the slice it should be exactly when it fits.
  lemma PageExactly(m: seq<Pair>, page: Word, records: Word)
    requires page > 0 && Distinct(m)
    ensures Page(m, page, records) == Slice(m, RecordsOn(page - 1, records), RecordsOn(page, records)) <==>
            PageFits(|m|, page, records)
  {
    var first, from := RecordsOn(page - 1, records), From(page, records);
    assert RecordsOn(page, records) == first + records;
    if records == 0 { RecordsProduct(page, 0); }
    if RecordsOn(page, records) < U32 {
      FirstOf(page, records);
      PageSlice(m, page, records);
    } else {
      FromValue(page, records);
      Wrapped(first, records);
      PageEmpty(m, page, records);
      SliceEmpty(m, first, records);
    }
  }

  // A place that does not fit is not reached: the word is smaller, or its end does not fit either.
  lemma Wrapped(first: nat, records: Word)
    requires first + records >= U32
    ensures first % U32 < first || first % U32 + records >= U32
  {
  }

  // The pages make up the listing exactly when each of them fits.
  lemma PagesExactly(m: seq<Pair>, n: nat, records: Word)
    requires n < U32 && Distinct(m)
    ensures Pages(m, n, records) == m[..Min(RecordsOn(n, records), |m|)] <==>
            forall page: Word :: 0 < page <= n ==> PageFits(|m|, page, records)
  {
    if forall page: Word :: 0 < page <= n ==> PageFits(|m|, page, records) { FittingPages(m, n, records); }
    if Pages(m, n, records) == m[..Min(RecordsOn(n, records), |m|)] {
      forall page: Word | 0 < page <= n ensures PageFits(|m|, page, records) { PagesFit(m, page, n, records); }
    }
  }

  lemma {:induction false} FittingPages(m: seq<Pair>, n: nat, records: Word)
    requires n < U32 && Distinct(m) && forall page: Word :: 0 < page <= n ==> PageFits(|m|, page, records)
    ensures Pages(m, n, records) == m[..Min(RecordsOn(n, records), |m|)]
  {
    if n > 0 {
      FittingPages(m, n - 1, records);
      PageExactly(m, n, records);
      Join(m, RecordsOn(n - 1, records), RecordsOn(n, records), records);
    }
  }

  lemma Join(m: seq<Pair>, before: nat, after: nat, records: nat)
    requires after == before + records
    ensures m[..Min(before, |m|)] + Slice(m, before, after) == m[..Min(after, |m|)]
  {
    SliceJoin(m, before, records);
  }

  lemma PagesFit(m: seq<Pair>, page: Word, n: nat, records: Word)
    requires 0 < page <= n < U32 && Distinct(m) && Pages(m, n, records) == m[..Min(RecordsOn(n, records), |m|)]
    ensures PageFits(|m|, page, records)
  {
    if RecordsOn(page, records) >= U32 {
      var first := FirstBeyond(page, records);
      PagesBeyond(m, first, n, records);
      BeyondOrder(first, page, n, records);
      PageEmpty(m, page, records);
      assert |m[..Min(RecordsOn(n, records), |m|)]| == |m[..Min(RecordsOn(first - 1, records), |m|)]|;
    }
  }

  lemma BeyondOrder(first: nat, page: nat, n: nat, records: Word)
    requires 0 < first <= page <= n && records > 0
    ensures RecordsOn(first - 1, records) <= RecordsOn(page - 1, records) &&
            RecordsOn(first - 1, records) < RecordsOn(n, records)
  {
    RecordsSum(first - 1, page - first, records);
    RecordsSum(first, n - first, records);
  }

  // The first page whose end does not fit in a word.
  lemma {:induction false} FirstBeyond(page: nat, records: Word) returns (first: nat)
    requires RecordsOn(page, records) >= U32
    ensures 0 < first <= page && records > 0 && RecordsOn(first - 1, records) < U32 <= RecordsOn(first, records)
  {
    if RecordsOn(page - 1, records) >= U32 { first := FirstBeyond(page - 1, records); } else { first := page; }
  }

  // From there on, pages that still make up a beginning of the listing are empty.
  lemma {:induction false} PagesBeyond(m: seq<Pair>, first: nat, n: nat, records: Word)
    requires 0 < first <= n + 1 && n < U32 && Distinct(m) &&
             RecordsOn(first - 1, records) < U32 <= RecordsOn(first, records)
    requires Pages(m, n, records) <= m
    ensures Pages(m, n, records) == m[..Min(RecordsOn(first - 1, records), |m|)]
    ensures forall page: Word :: first <= page <= n ==> Page(m, page, records) == []
  {
    if n + 1 == first {
      PagesConcatenate(m, n, records);
    } else {
      PagesBeyond(m, first, n - 1, records);
      NextIsEmpty(m, Pages(m, n - 1, records), n, RecordsOn(first - 1, records), records);
    }
  }

  lemma NextIsEmpty(m: seq<Pair>, before: seq<Pair>, page: Word, end: nat, records: Word)
    requires Distinct(m) && end + records >= U32 && before == m[..Min(end, |m|)]
    requires before + Page(m, page, records) <= m
    ensures Page(m, page, records) == []
  {
    var p := Page(m, page, records);
    PageEmpty(m, page, records);
    if p != [] { NextAt(before, p, m); }
  }

  lemma NextAt(before: seq<Pair>, p: seq<Pair>, m: seq<Pair>)
    requires before + p <= m && p != []
    ensures |before| < |m| && m[|before|] == p[0]
  {
    assert (before + p)[|before|] == p[0];
  }

  // The first page past the bound is empty, whatever is left to show.
  lemma FirstPastBound(m: seq<Pair>, page: Word, records: Word)
    requires page > 0 && RecordsOn(page - 1, records) < U32 <= RecordsOn(page, records)
    ensures Page(m, page, records) == []
  {
    FromValue(page, records);
    PageSlice(m, page, records);
  }

  lemma FromAgain(page: Word, k: nat, records: Word)
    requires 0 < page && page + k < U32
    ensures From(page + k, records) == From(page, records) <==> RecordsOn(k, records) % U32 == 0
  {
    FromValue(page, records);
    FromValue(page + k, records);
    RecordsSum(page - 1, k, records);
    SameRemainder(RecordsOn(page - 1, records), RecordsOn(k, records));
  }

  // Pages of distinct entries that show something are the same exactly when they begin at the same place.
  lemma SamePage(m: seq<Pair>, page: Word, other: Word, records: Word)
    requires Distinct(m) && Page(m, page, records) != []
    ensures Page(m, other, records) == Page(m, page, records) <==> From(other, records) == From(page, records)
  {
    PageEmpty(m, page, records);
    PageEmpty(m, other, records);
  }

  // A page that shows something comes again exactly as many pages later as make a multiple of 2^32 records.
  lemma PageComesAgain(m: seq<Pair>, page: Word, k: nat, records: Word)
    requires 0 < page && page + k < U32 && Distinct(m) && Page(m, page, records) != []
    ensures Page(m, page + k, records) == Page(m, page, records) <==> RecordsOn(k, records) % U32 == 0
  {
    FromAgain(page, k, records);
    SamePage(m, page, page + k, records);
  }

  lemma SameRemainder(a: nat, b: nat)
    ensures (a + b) % U32 == a % U32 <==> b % U32 == 0
  {
    assert (a + b) % U32 == (a % U32 + b % U32) % U32 by { SumRemainder(a, b); }
  }

  lemma SumRemainder(a: nat, b: nat)
    ensures (a + b) % U32 == (a % U32 + b % U32) % U32
  {
    var q, r := a / U32 + b / U32, a % U32 + b % U32;
    assert a + b == U32 * q + r;
    if r < U32 { Remainder(a + b, q, r); } else { Remainder(a + b, q + 1, r - U32); }
  }

  lemma FromValue(page: Word, records: Word)
    requires page > 0
    ensures From(page, records) == RecordsOn(page - 1, records) % U32
  {
    PagesBeforeIs(page);
  }
}
