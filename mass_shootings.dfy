/** The date-window scan of gva/mass-shootings.go: walk the newest-first,
    paginated table of mass shootings and keep the records of one date. */
module MassShootings {
  import opened Errors
  import opened Gva

  /** A row of the mass shootings table. The scan reads only its date; the
      incident ID stands for the other columns, which it carries unread. */
  datatype MassShootingRecord = MassShootingRecord(incidentID: int, incidentDate: Date)

  type Page = seq<MassShootingRecord>

  /** What the MassShootingsScraper answers: page i of `pages`, an empty page
      past the end, or the error `failures` holds for that page index. The
      source has finitely many pages. */
  datatype Scraper = Scraper(pages: seq<Page>, failures: map<nat, Error>)

  /** The caller's context as the inter-page sleep sees it: the sleep after
      page i is cut short with `interrupted[i]` (ctx.Err()), otherwise the
      500 ms timer fires. */
  datatype Context = Context(interrupted: map<nat, Error>)

  /** MassShootingsScraper.MassShootings(ctx, i): page i, or why it could not be fetched. */
  function FetchPage(s: Scraper, i: nat): Result<Page> {
    if i in s.failures then Fail(s.failures[i])
    else if i < |s.pages| then Ok(s.pages[i])
    else Ok([])
  }

  /** sleep(ctx, 500*time.Millisecond) after page i: None when the timer fired. */
  function Sleep(ctx: Context, afterPage: nat): Option<Error> {
    if afterPage in ctx.interrupted then Some(ctx.interrupted[afterPage]) else None
  }

  /** The records of `page` dated `date`, in page order. */
  function OnDate(page: Page, date: Date): Page {
    if page == [] then []
    else
      var last := page[|page| - 1];
      OnDate(page[..|page| - 1], date) + (if last.incidentDate.Eq(date) then [last] else [])
  }

  /** OnDate keeps exactly the records of the page dated `date`. */
  lemma {:induction false} OnDateMembers(page: Page, date: Date)
    ensures |OnDate(page, date)| <= |page|
    ensures forall x :: x in OnDate(page, date) <==> x in page && x.incidentDate.Eq(date)
    decreases |page|
  {
    if page != [] {
      var init := page[..|page| - 1];
      OnDateMembers(init, date);
      assert page == init + [page[|page| - 1]];
    }
  }

  lemma {:induction false} OnDateConcat(a: Page, b: Page, date: Date)
    ensures OnDate(a + b, date) == OnDate(a, date) + OnDate(b, date)
    decreases |b|
  {
    if b == [] {
      assert a + b == a;
    } else {
      var init := b[..|b| - 1];
      assert (a + b)[..|a + b| - 1] == a + init;
      OnDateConcat(a, init, date);
    }
  }

  /** Keeping the matches of records that are all older than `date` keeps nothing. */
  lemma {:induction false} OnDateOfOlder(page: Page, date: Date)
    requires forall x :: x in page ==> x.incidentDate.Before(date)
    ensures OnDate(page, date) == []
    decreases |page|
  {
    if page != [] {
      var last := page[|page| - 1];
      DateOrder(last.incidentDate, date, date);
      assert forall x :: x in page[..|page| - 1] ==> x in page;
      OnDateOfOlder(page[..|page| - 1], date);
    }
  }

  /** The outcome of MassShootingsOnDate on reaching page i with nothing
      gathered yet: Ok(records) or Fail(error). */
  function ScanFrom(ctx: Context, s: Scraper, date: Date, i: nat): Result<Page>
    decreases |s.pages| - i
  {
    match FetchPage(s, i)
    case Fail(e) => Fail(PageError(i, e))
    case Ok(page) =>
      if |page| == 0 then Ok([])
      else
        var found := OnDate(page, date);
        if i == 0 && page[0].incidentDate.Before(date) then Ok(found)
        else if page[|page| - 1].incidentDate.Before(date) then Ok(found)
        else if Sleep(ctx, i).Some? then Fail(Sleep(ctx, i).value)
        else Prepend(found, ScanFrom(ctx, s, date, i + 1))
  }

  function Prepend(records: Page, r: Result<Page>): Result<Page> {
    match r
    case Ok(rest) => Ok(records + rest)
    case Fail(e) => Fail(e)
  }

  /** The scan goes on past page i: the page was fetched, is not empty, gives
      no reason to stop, and the sleep after it was not cut short. */
  predicate Continues(ctx: Context, s: Scraper, date: Date, i: nat) {
    match FetchPage(s, i)
    case Fail(_) => false
    case Ok(page) =>
      && |page| > 0
      && !(i == 0 && page[0].incidentDate.Before(date))
      && !page[|page| - 1].incidentDate.Before(date)
      && Sleep(ctx, i).None?
  }

  /** One page of the scan: how ScanFrom at a fetched, non-empty page i
      depends on that page and on the rest of the scan. */
  lemma ScanStep(ctx: Context, s: Scraper, date: Date, i: nat, page: Page)
    requires FetchPage(s, i) == Ok(page) && |page| > 0
    ensures Continues(ctx, s, date, i) ==>
      ScanFrom(ctx, s, date, i) == Prepend(OnDate(page, date), ScanFrom(ctx, s, date, i + 1))
    ensures (i == 0 && page[0].incidentDate.Before(date)) || page[|page| - 1].incidentDate.Before(date) ==>
      ScanFrom(ctx, s, date, i) == Ok(OnDate(page, date)) && !Continues(ctx, s, date, i)
    ensures Sleep(ctx, i).Some? && !(i == 0 && page[0].incidentDate.Before(date))
            && !page[|page| - 1].incidentDate.Before(date) ==>
      ScanFrom(ctx, s, date, i) == Fail(Sleep(ctx, i).value) && !Continues(ctx, s, date, i)
  {
  }

  lemma PrependConcat(a: Page, b: Page, r: Result<Page>)
    ensures Prepend(a, Prepend(b, r)) == Prepend(a + b, r)
  {
    if r.Ok? {
      assert a + (b + r.value) == (a + b) + r.value;
    }
  }

  lemma PrependNothing(r: Result<Page>)
    ensures Prepend([], r) == r
  {
    if r.Ok? {
      assert [] + r.value == r.value;
    }
  }

  /** Page i as the scan sees it when it is fetched without error: the Ok
      branch of FetchPage, whatever `failures` says. */
  function PageAt(s: Scraper, i: nat): Page {
    if i < |s.pages| then s.pages[i] else []
  }

  /** The matches of pages 0 .. n-1, page after page. */
  function Gathered(s: Scraper, date: Date, n: nat): Page {
    if n == 0 then [] else Gathered(s, date, n - 1) + OnDate(PageAt(s, n - 1), date)
  }

  /** The range loop over one page: append the records dated `date`. */
  method AppendOnDate(records: Page, page: Page, date: Date) returns (r: Page)
    ensures r == records + OnDate(page, date)
  {
    r := records;
    var j := 0;
    while j < |page|
      invariant 0 <= j <= |page|
      invariant r == records + OnDate(page[..j], date)
    {
      assert page[..j + 1][..j] == page[..j];
      if page[j].incidentDate.Eq(date) {
        r := r + [page[j]];
      }
      j := j + 1;
    }
    assert page[..|page|] == page;
  }

  /** MassShootingsOnDate: fetch pages 0, 1, 2, ... in turn, keep the records
      dated `date`, and stop at an empty page, at a page whose last record (or,
      on page 0, whose first record) is older than `date`, at a page that
      cannot be fetched or at a cancelled pause. `requested` is the sequence
      of page indices fetched. */
  method MassShootingsOnDate(ctx: Context, scraper: Scraper, date: Date)
    returns (records: Page, err: Option<Error>, ghost requested: seq<nat>)
    ensures err.None? ==> ScanFrom(ctx, scraper, date, 0) == Ok(records)
    ensures err.Some? ==> ScanFrom(ctx, scraper, date, 0) == Fail(err.value) && records == []
    ensures |requested| > 0 && forall k :: 0 <= k < |requested| ==> requested[k] == k
    ensures forall k :: 0 <= k < |requested| - 1 ==> Continues(ctx, scraper, date, k)
    ensures !Continues(ctx, scraper, date, |requested| - 1)
  {
    records, err, requested := [], None, [];
    var i: nat := 0;
    while true
      invariant |requested| == i && forall k :: 0 <= k < i ==> requested[k] == k
      invariant forall k :: 0 <= k < i ==> Continues(ctx, scraper, date, k)
      invariant err.None? && records == Gathered(scraper, date, i)
      decreases |scraper.pages| - i
    {
      ScanPrefix(ctx, scraper, date, i);
      requested := requested + [i];
      var got := FetchPage(scraper, i);
      if got.Fail? {
        return [], Some(PageError(i, got.error)), requested;
      }
      var page := got.value;
      if |page| == 0 {
        // No records in the page: the end of the table.
        assert records + [] == records;
        break;
      }
      assert i < |scraper.pages| && PageAt(scraper, i) == page;
      records := AppendOnDate(records, page, date);
      if i == 0 && page[0].incidentDate.Before(date) {
        // The newest record is older than the date: nothing is on the date.
        break;
      }
      if page[|page| - 1].incidentDate.Before(date) {
        // Every later record is older still.
        break;
      }
      var slept := Sleep(ctx, i);
      if slept.Some? {
        return [], slept, requested;
      }
      i := i + 1;
    }
  }

  // ---------------------------------------------------------------------
  // What the scan returns

  /** Pages the scan passes over contribute their matches, in page order,
      ahead of whatever the rest of the scan returns. */
  lemma {:induction false} ScanPrefix(ctx: Context, s: Scraper, date: Date, k: nat)
    requires forall j :: 0 <= j < k ==> Continues(ctx, s, date, j)
    ensures ScanFrom(ctx, s, date, 0) == Prepend(Gathered(s, date, k), ScanFrom(ctx, s, date, k))
  {
    if k == 0 {
      PrependNothing(ScanFrom(ctx, s, date, 0));
    } else {
      ScanPrefix(ctx, s, date, k - 1);
      ScanPrefixStep(ctx, s, date, k);
    }
  }

  /** One more page passed over: its matches join the prefix. */
  lemma ScanPrefixStep(ctx: Context, s: Scraper, date: Date, k: nat)
    requires k > 0 && Continues(ctx, s, date, k - 1)
    requires ScanFrom(ctx, s, date, 0) == Prepend(Gathered(s, date, k - 1), ScanFrom(ctx, s, date, k - 1))
    ensures ScanFrom(ctx, s, date, 0) == Prepend(Gathered(s, date, k), ScanFrom(ctx, s, date, k))
  {
    ContinuesStep(ctx, s, date, k - 1);
    PrependConcat(Gathered(s, date, k - 1), OnDate(PageAt(s, k - 1), date), ScanFrom(ctx, s, date, k));
  }

  /** A page the scan passes over contributes its matches ahead of the rest. */
  lemma ContinuesStep(ctx: Context, s: Scraper, date: Date, i: nat)
    requires Continues(ctx, s, date, i)
    ensures i < |s.pages|
    ensures ScanFrom(ctx, s, date, i) == Prepend(OnDate(PageAt(s, i), date), ScanFrom(ctx, s, date, i + 1))
  {
  }

  /** A page that cannot be fetched aborts the scan with an error naming the
      page, and the matches gathered so far are dropped. */
  lemma FetchErrorAborts(ctx: Context, s: Scraper, date: Date, k: nat)
    requires forall j :: 0 <= j < k ==> Continues(ctx, s, date, j)
    requires k in s.failures
    ensures ScanFrom(ctx, s, date, 0) == Fail(PageError(k, s.failures[k]))
  {
    ScanPrefix(ctx, s, date, k);
  }

  /** An empty page ends the scan successfully with the matches of the pages
      before it. */
  lemma EmptyPageEnds(ctx: Context, s: Scraper, date: Date, k: nat)
    requires forall j :: 0 <= j < k ==> Continues(ctx, s, date, j)
    requires FetchPage(s, k) == Ok([])
    ensures ScanFrom(ctx, s, date, 0) == Ok(Gathered(s, date, k))
  {
    ScanPrefix(ctx, s, date, k);
    assert Gathered(s, date, k) + [] == Gathered(s, date, k);
  }

  /** A page whose last record is older than the date is the last page
      fetched: the scan ends successfully with the matches up to it. */
  lemma OldLastRecordStops(ctx: Context, s: Scraper, date: Date, k: nat)
    requires forall j :: 0 <= j < k ==> Continues(ctx, s, date, j)
    requires FetchPage(s, k).Ok? && |FetchPage(s, k).value| > 0
    requires var page := FetchPage(s, k).value; page[|page| - 1].incidentDate.Before(date)
    ensures ScanFrom(ctx, s, date, 0) == Ok(Gathered(s, date, k + 1))
    ensures !Continues(ctx, s, date, k)
  {
    ScanPrefix(ctx, s, date, k);
    ScanStep(ctx, s, date, k, FetchPage(s, k).value);
  }

  /** If the newest record of page 0 is older than the date, page 0 is the
      only page fetched and only its own matches are returned. */
  lemma OldFirstPageStops(ctx: Context, s: Scraper, date: Date)
    requires FetchPage(s, 0).Ok? && |FetchPage(s, 0).value| > 0
    requires FetchPage(s, 0).value[0].incidentDate.Before(date)
    ensures ScanFrom(ctx, s, date, 0) == Ok(OnDate(FetchPage(s, 0).value, date))
    ensures !Continues(ctx, s, date, 0)
  {
    ScanStep(ctx, s, date, 0, FetchPage(s, 0).value);
  }

  /** A cancelled pause aborts the scan with the context's error, dropping
      the matches gathered so far. */
  lemma CancelledSleepAborts(ctx: Context, s: Scraper, date: Date, k: nat)
    requires forall j :: 0 <= j < k ==> Continues(ctx, s, date, j)
    requires FetchPage(s, k).Ok? && |FetchPage(s, k).value| > 0
    requires var page := FetchPage(s, k).value;
      && !(k == 0 && page[0].incidentDate.Before(date))
      && !page[|page| - 1].incidentDate.Before(date)
    requires k in ctx.interrupted
    ensures ScanFrom(ctx, s, date, 0) == Fail(ctx.interrupted[k])
    ensures !Continues(ctx, s, date, k)
  {
    ScanPrefix(ctx, s, date, k);
    ScanStep(ctx, s, date, k, FetchPage(s, k).value);
  }

  /** Every record the scan returns is dated `date`. */
  lemma {:induction false} ScanSound(ctx: Context, s: Scraper, date: Date, i: nat)
    requires ScanFrom(ctx, s, date, i).Ok?
    ensures forall x :: x in ScanFrom(ctx, s, date, i).value ==> x.incidentDate.Eq(date)
    decreases |s.pages| - i
  {
    var got := FetchPage(s, i);
    if got.Ok? && |got.value| > 0 {
      var page := got.value;
      OnDateMembers(page, date);
      ScanStep(ctx, s, date, i, page);
      if Continues(ctx, s, date, i) {
        ScanSound(ctx, s, date, i + 1);
      }
    }
  }

  /** Without fetch errors and cancellations the scan succeeds. */
  lemma {:induction false} ScanSucceeds(ctx: Context, s: Scraper, date: Date, i: nat)
    requires s.failures == map[] && ctx.interrupted == map[]
    ensures ScanFrom(ctx, s, date, i).Ok?
    decreases |s.pages| - i
  {
    var got := FetchPage(s, i);
    if |got.value| > 0 {
      ScanStep(ctx, s, date, i, got.value);
      if Continues(ctx, s, date, i) {
        ScanSucceeds(ctx, s, date, i + 1);
      }
    }
  }

  // ---------------------------------------------------------------------
  // Completeness on a newest-first source

  /** The records in the order the pages list them. */
  function Flatten(pages: seq<Page>): Page {
    if pages == [] then [] else pages[0] + Flatten(pages[1..])
  }

  /** Records listed newest first: no record is older than one after it. */
  predicate NewestFirst(records: Page) {
    forall i, j :: 0 <= i < j < |records| ==> !records[i].incidentDate.Before(records[j].incidentDate)
  }

  /** On a newest-first page whose first record is older than the date, so is
      its last record: the page-0 check never stops a scan that the
      last-record check would not stop too. */
  lemma FirstCheckImplied(page: Page, date: Date)
    requires NewestFirst(page) && |page| > 0
    requires page[0].incidentDate.Before(date)
    ensures page[|page| - 1].incidentDate.Before(date)
  {
    if |page| > 1 {
      assert !page[0].incidentDate.Before(page[|page| - 1].incidentDate);
    }
  }

  /** Once a record of a newest-first list is older than the date, none of
      the records from it on is dated `date`. */
  lemma OlderFromHere(records: Page, k: nat, date: Date)
    requires NewestFirst(records) && k < |records|
    requires records[k].incidentDate.Before(date)
    ensures OnDate(records[k..], date) == []
  {
    forall x | x in records[k..] ensures x.incidentDate.Before(date) {
      var j :| k <= j < |records| && records[j] == x;
      if j > k {
        assert !records[k].incidentDate.Before(records[j].incidentDate);
      }
    }
    OnDateOfOlder(records[k..], date);
  }

  /** Page `page` followed by the records `rest`, newest first, with some
      record of the page older than the date: the page's matches are all the
      matches. */
  lemma MatchesEndAtOldRecord(page: Page, rest: Page, date: Date, k: nat)
    requires NewestFirst(page + rest) && k < |page|
    requires page[k].incidentDate.Before(date)
    ensures OnDate(page + rest, date) == OnDate(page, date)
  {
    var flat := page + rest;
    OlderFromHere(flat, k, date);
    assert flat[k..] == page[k..] + rest;
    OnDateConcat(page[k..], rest, date);
    OnDateConcat(page, rest, date);
    assert OnDate(page, date) + [] == OnDate(page, date);
  }

  lemma NewestFirstSuffix(page: Page, rest: Page)
    requires NewestFirst(page + rest)
    ensures NewestFirst(rest)
  {
    var flat := page + rest;
    forall a, b | 0 <= a < b < |rest|
      ensures !rest[a].incidentDate.Before(rest[b].incidentDate)
    {
      assert rest[a] == flat[|page| + a] && rest[b] == flat[|page| + b];
    }
  }

  /** On a source whose pages are non-empty and list the records newest first,
      within and across pages, a successful scan from page i returns every
      record of pages i, i+1, ... dated `date`, in source order. */
  lemma {:induction false} ScanCompleteFrom(ctx: Context, s: Scraper, date: Date, i: nat)
    requires i <= |s.pages|
    requires forall p :: p in s.pages ==> |p| > 0
    requires NewestFirst(Flatten(s.pages[i..]))
    requires ScanFrom(ctx, s, date, i).Ok?
    ensures ScanFrom(ctx, s, date, i).value == OnDate(Flatten(s.pages[i..]), date)
    decreases |s.pages| - i
  {
    if i == |s.pages| {
      assert s.pages[i..] == [];
    } else {
      var page := s.pages[i];
      assert page in s.pages;
      assert s.pages[i..][1..] == s.pages[i + 1..];
      var rest := Flatten(s.pages[i + 1..]);
      assert Flatten(s.pages[i..]) == page + rest;
      ScanStep(ctx, s, date, i, page);
      if i == 0 && page[0].incidentDate.Before(date) {
        MatchesEndAtOldRecord(page, rest, date, 0);
      } else if page[|page| - 1].incidentDate.Before(date) {
        MatchesEndAtOldRecord(page, rest, date, |page| - 1);
      } else {
        NewestFirstSuffix(page, rest);
        ScanCompleteFrom(ctx, s, date, i + 1);
        OnDateConcat(page, rest, date);
      }
    }
  }

  /** The promise of MassShootingsOnDate: on a newest-first source of
      non-empty pages, a scan that succeeds returns every record dated
      `date`, and nothing else. */
  lemma ScanFindsEveryMatch(ctx: Context, s: Scraper, date: Date)
    requires forall p :: p in s.pages ==> |p| > 0
    requires NewestFirst(Flatten(s.pages))
    requires ScanFrom(ctx, s, date, 0).Ok?
    ensures ScanFrom(ctx, s, date, 0).value == OnDate(Flatten(s.pages), date)
    ensures forall x :: x in ScanFrom(ctx, s, date, 0).value <==>
      x in Flatten(s.pages) && x.incidentDate.Eq(date)
  {
    assert s.pages[0..] == s.pages;
    ScanCompleteFrom(ctx, s, date, 0);
    OnDateMembers(Flatten(s.pages), date);
  }
}
