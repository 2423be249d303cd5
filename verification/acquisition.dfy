/** The acquisition pipeline of UN_parse.py around `get_page_info`: listing
    pagination per year (`data_acquisition`), the split of the year range
    between workers and the merge of their lists (`__main__`), and the
    final `dropna` of `save_to_csv`. Fetching is abstracted: the result count
    of a year, the links of a listing page and the detail page of a link are
    functions given to the model. */
module Acquisition {
  import opened Wrappers
  import opened VotePage

  /** Listing page size (`STEP`). */
  const Step := 50
  /** The configured year range and worker count. */
  const StartYear := 1991
  const EndYear := 2022
  const Workers := 8

  // ---------------------------------------------------------------------
  // Pagination

  /** Listing requests issued for a year with `total` results:
      `total // STEP + 1`, one more than needed when `total` is a multiple of
      the step. */
  function PageCount(total: nat): (n: nat)
    ensures n >= 1
    ensures (n - 1) * Step <= total < n * Step
  {
    total / Step + 1
  }

  /** The `jrec` offsets of those requests: `STEP * i + 1`. */
  function PageOffsets(total: nat): (offsets: seq<nat>)
    ensures |offsets| == PageCount(total)
    ensures offsets[0] == 1
    ensures forall i :: 0 < i < |offsets| ==> offsets[i] == offsets[i - 1] + Step
  {
    seq(PageCount(total), i requires 0 <= i => Step * i + 1)
  }

  /** Every record `1..total` lies in the window of some request (of one
      only, since the windows are disjoint). */
  lemma RecordsCovered(total: nat, record: nat)
    requires 1 <= record <= total
    ensures var offsets := PageOffsets(total);
            exists i :: 0 <= i < |offsets| && offsets[i] <= record < offsets[i] + Step
  {
    var offsets := PageOffsets(total);
    var i := (record - 1) / Step;
    assert i * Step <= record - 1 < (i + 1) * Step;
    assert i < |offsets|;
    assert offsets[i] == Step * i + 1;
  }

  /** Windows do not overlap and every request starts at most one past the
      last record. */
  lemma WindowsDisjoint(total: nat)
    ensures var offsets := PageOffsets(total);
            forall i, j :: 0 <= i < j < |offsets| ==> offsets[i] + Step <= offsets[j]
    ensures var offsets := PageOffsets(total);
            forall i :: 0 <= i < |offsets| ==> offsets[i] <= total + 1
  {
  }

  /** Against the ceiling `ceil(total / STEP)` of requests a tight
      enumeration would issue, the source issues one extra request exactly
      when `total` is a multiple of the step (a zero total included). */
  lemma PageCountVersusCeiling(total: nat)
    ensures PageCount(total) == (total + Step - 1) / Step + (if total % Step == 0 then 1 else 0)
  {
  }

  /** Sample counts: no result still requests offset 1; 100 results take
      three requests; 120 results take the offsets 1, 51 and 101. */
  lemma PageExamples()
    ensures PageCount(0) == 1 && PageOffsets(0) == [1]
    ensures PageCount(100) == 3
    ensures PageOffsets(120) == [1, 51, 101]
  {
  }

  // ---------------------------------------------------------------------
  // Partition and merge

  /** `[item for sublist in lists for item in sublist]`. */
  function Flatten<T>(lists: seq<seq<T>>): (r: seq<T>)
    ensures |lists| == 0 ==> r == []
    ensures |lists| == 1 ==> r == lists[0]
  {
    if |lists| == 0 then [] else lists[0] + Flatten(lists[1..])
  }

  /** An item is in the flattened list exactly when it is in one of the lists. */
  lemma {:induction false} FlattenHas<T>(lists: seq<seq<T>>, x: T)
    ensures x in Flatten(lists) <==> exists i :: 0 <= i < |lists| && x in lists[i]
    decreases |lists|
  {
    if |lists| > 0 {
      FlattenHas(lists[1..], x);
      if x in Flatten(lists[1..]) {
        var i :| 0 <= i < |lists[1..]| && x in lists[1..][i];
        assert lists[i + 1] == lists[1..][i];
      }
      if exists i :: 0 <= i < |lists| && x in lists[i] {
        var i :| 0 <= i < |lists| && x in lists[i];
        if i > 0 {
          assert lists[1..][i - 1] == lists[i];
        }
      }
    }
  }

  lemma {:induction false} FlattenAppend<T>(a: seq<seq<T>>, b: seq<seq<T>>)
    ensures Flatten(a + b) == Flatten(a) + Flatten(b)
    decreases |a|
  {
    if |a| == 0 {
      assert a + b == b;
    } else {
      assert (a + b)[1..] == a[1..] + b;
      FlattenAppend(a[1..], b);
    }
  }

  /** `range(start, end + 1)`. */
  function YearList(start: int, end: int): (years: seq<int>)
    ensures |years| == if end < start then 0 else end - start + 1
    ensures forall i :: 0 <= i < |years| ==> years[i] == start + i
  {
    if end < start then [] else seq(end - start + 1, i => start + i)
  }

  /** The chunk size `len(year_list) // NUMBER_OF_PARALLELS`. */
  function ChunkSize(count: nat, workers: nat): (size: nat)
    requires workers > 0
  {
    count / workers
  }

  lemma {:induction false} MulMono(a: nat, b: nat, c: nat)
    requires a <= b
    ensures a * c <= b * c
    decreases b - a
  {
    if a < b {
      MulMono(a + 1, b, c);
      assert (a + 1) * c == a * c + c;
    }
  }

  /** Chunk `i` lies inside the year list and ends where chunk `i + 1` starts. */
  lemma ChunkBounds(count: nat, workers: nat, i: nat)
    requires 0 < workers && i < workers
    ensures var limit := ChunkSize(count, workers);
            i * limit + limit == (i + 1) * limit <= workers * limit <= count
  {
    var limit := ChunkSize(count, workers);
    MulMono(i + 1, workers, limit);
    assert (i + 1) * limit == i * limit + limit;
  }

  /** Worker `i`'s years: `year_list[i*limit:limit*(i+1)]`. */
  function Chunk<T>(years: seq<T>, workers: nat, i: nat): (chunk: seq<T>)
    requires 0 < workers && i < workers
    ensures |chunk| == ChunkSize(|years|, workers)
  {
    ChunkBounds(|years|, workers, i);
    var limit := ChunkSize(|years|, workers);
    years[i * limit..(i + 1) * limit]
  }

  /** The work split: one chunk per worker, in worker order. */
  function Partition<T>(years: seq<T>, workers: nat): (chunks: seq<seq<T>>)
    requires workers > 0
    ensures |chunks| == workers
    ensures forall i :: 0 <= i < workers ==> chunks[i] == Chunk(years, workers, i)
  {
    seq(workers, i requires 0 <= i < workers => Chunk(years, workers, i))
  }

  /** The first `n` chunks concatenate to the first `n * limit` years. */
  lemma {:induction false} PartitionPrefix<T>(years: seq<T>, workers: nat, n: nat)
    requires workers > 0 && n <= workers
    ensures n * ChunkSize(|years|, workers) <= |years|
    ensures Flatten(Partition(years, workers)[..n]) == years[..n * ChunkSize(|years|, workers)]
  {
    var chunks := Partition(years, workers);
    var limit := ChunkSize(|years|, workers);
    if n > 0 {
      PartitionPrefix(years, workers, n - 1);
      ChunkBounds(|years|, workers, n - 1);
      assert chunks[..n] == chunks[..n - 1] + [chunks[n - 1]];
      FlattenAppend(chunks[..n - 1], [chunks[n - 1]]);
      assert Flatten([chunks[n - 1]]) == chunks[n - 1] + Flatten<T>([]);
      assert chunks[n - 1] == years[(n - 1) * limit..n * limit];
      assert years[..n * limit] == years[..(n - 1) * limit] + years[(n - 1) * limit..n * limit];
    } else {
      assert chunks[..0] == [];
    }
  }

  /** How many years the split hands out: `limit` to each worker, which
      leaves out the last `count % workers`. */
  function Covered(count: nat, workers: nat): (kept: nat)
    requires workers > 0
    ensures kept <= count && count - kept == count % workers
  {
    ChunkBounds(count, workers, workers - 1);
    workers * ChunkSize(count, workers)
  }

  /** Merging the chunks gives back the years the split keeps: all but the
      last `len % workers`, which no worker receives. */
  lemma PartitionFlatten<T>(years: seq<T>, workers: nat)
    requires workers > 0
    ensures Flatten(Partition(years, workers)) == years[..Covered(|years|, workers)]
    ensures |years| % workers == 0 ==> Flatten(Partition(years, workers)) == years
  {
    var chunks := Partition(years, workers);
    PartitionPrefix(years, workers, workers);
    assert chunks[..workers] == chunks;
  }

  /** With fewer years than workers every chunk is empty. */
  lemma PartitionTooFew<T>(years: seq<T>, workers: nat)
    requires 0 < workers && |years| < workers
    ensures forall i :: 0 <= i < workers ==> Partition(years, workers)[i] == []
  {
    assert ChunkSize(|years|, workers) == 0;
  }

  /** Chunks take disjoint stretches of the year list: a year held once in
      the list is held by at most one chunk. */
  lemma PartitionDisjoint<T>(years: seq<T>, workers: nat, i: nat, j: nat, k: nat)
    requires workers > 0 && i < j < workers
    requires forall a, b :: 0 <= a < b < |years| ==> years[a] != years[b]
    requires k < |Partition(years, workers)[i]|
    ensures Partition(years, workers)[i][k] !in Partition(years, workers)[j]
  {
    var limit := ChunkSize(|years|, workers);
    var first := Chunk(years, workers, i);
    var second := Chunk(years, workers, j);
    ChunkBounds(|years|, workers, i);
    ChunkBounds(|years|, workers, j);
    MulMono(i + 1, j, limit);
    assert first[k] == years[i * limit + k];
    forall m | 0 <= m < |second|
      ensures second[m] != first[k]
    {
      assert second[m] == years[j * limit + m];
    }
  }

  /** The configured run: 32 years on 8 workers, four years each, none left
      over. */
  lemma ConfiguredSplit()
    ensures |YearList(StartYear, EndYear)| == 32
    ensures ChunkSize(32, Workers) == 4
    ensures Flatten(Partition(YearList(StartYear, EndYear), Workers)) == YearList(StartYear, EndYear)
  {
    PartitionFlatten(YearList(StartYear, EndYear), Workers);
  }

  // ---------------------------------------------------------------------
  // One worker

  /** What the pipeline needs from the network: the result count of a year,
      the links on the listing page at an offset, and the detail page of a
      link. */
  datatype Source = Source(
    total: int -> nat,
    listing: (int, nat) -> seq<string>,
    detail: string -> DetailPage)

  /** The listing pages of a year, one per request, in request order. */
  function ListingPages(src: Source, year: int): (pages: seq<seq<string>>)
    ensures |pages| == |PageOffsets(src.total(year))|
    ensures forall i :: 0 <= i < |pages| ==> pages[i] == src.listing(year, PageOffsets(src.total(year))[i])
  {
    var offsets := PageOffsets(src.total(year));
    seq(|offsets|, i requires 0 <= i < |offsets| => src.listing(year, offsets[i]))
  }

  /** The detail links of a year: every link of every listing page, in
      request order and page order, repeats included. */
  function YearLinks(src: Source, year: int): (links: seq<string>)
    ensures links == Flatten(ListingPages(src, year))
    ensures var offsets := PageOffsets(src.total(year));
            forall link :: link in links <==> exists i :: 0 <= i < |offsets| && link in src.listing(year, offsets[i])
  {
    var pages := ListingPages(src, year);
    var offsets := PageOffsets(src.total(year));
    assert forall link :: link in Flatten(pages) <==> exists i :: 0 <= i < |offsets| && link in src.listing(year, offsets[i]) by {
      forall link
        ensures link in Flatten(pages) <==> exists i :: 0 <= i < |offsets| && link in src.listing(year, offsets[i])
      {
        FlattenHas(pages, link);
      }
    }
    Flatten(pages)
  }

  /** The rows a computation delivers; nothing for one that faults. */
  function Rows(r: Result<seq<VoteRow>, Fault>): (rows: seq<VoteRow>)
  {
    if r.Success? then r.value else []
  }

  lemma FlattenCons<T>(x: seq<T>, rest: seq<seq<T>>)
    ensures Flatten([x] + rest) == x + Flatten(rest)
  {
    assert ([x] + rest)[1..] == rest;
  }

  /** The rows of each detail page of `links`, one list per link. */
  function PageRowLists(src: Source, registry: string -> bool, links: seq<string>): (lists: seq<seq<VoteRow>>)
    ensures |lists| == |links|
    ensures forall k :: 0 <= k < |links| ==> lists[k] == Rows(GetPageInfo(src.detail(links[k]), registry))
    decreases |links|
  {
    if |links| == 0 then []
    else
      var rest := PageRowLists(src, registry, links[1..]);
      assert forall k :: 0 < k < |links| ==>
        links[k] == links[1..][k - 1] && rest[k - 1] == Rows(GetPageInfo(src.detail(links[k]), registry));
      [Rows(GetPageInfo(src.detail(links[0]), registry))] + rest
  }

  /** The rows of a run of detail links (`result_list.extend` per page): the
      pages' rows concatenated in link order; a fault on any page ends the
      worker. */
  function LinkRows(src: Source, registry: string -> bool, links: seq<string>): (r: Result<seq<VoteRow>, Fault>)
    ensures r.Success? <==> forall k :: 0 <= k < |links| ==> GetPageInfo(src.detail(links[k]), registry).Success?
    ensures r.Success? ==> r.value == Flatten(PageRowLists(src, registry, links))
    decreases |links|
  {
    if |links| == 0 then Success([])
    else
      assert forall k :: 0 < k < |links| ==> links[k] == links[1..][k - 1];
      var first := GetPageInfo(src.detail(links[0]), registry);
      FlattenCons(Rows(first), PageRowLists(src, registry, links[1..]));
      Concat(first, LinkRows(src, registry, links[1..]))
  }

  /** The rows of each year of `years`, one list per year. */
  function YearRowLists(src: Source, registry: string -> bool, years: seq<int>): (lists: seq<seq<VoteRow>>)
    ensures |lists| == |years|
    ensures forall i :: 0 <= i < |years| ==> lists[i] == Rows(LinkRows(src, registry, YearLinks(src, years[i])))
    decreases |years|
  {
    if |years| == 0 then []
    else
      [Rows(LinkRows(src, registry, YearLinks(src, years[0])))] + YearRowLists(src, registry, years[1..])
  }

  /** `data_acquisition` over a list of years: every year's rows in year
      order; a fault in any year ends the worker. */
  function WorkerRows(src: Source, registry: string -> bool, years: seq<int>): (r: Result<seq<VoteRow>, Fault>)
    ensures r.Success? <==> forall i :: 0 <= i < |years| ==> LinkRows(src, registry, YearLinks(src, years[i])).Success?
    ensures r.Success? ==> r.value == Flatten(YearRowLists(src, registry, years))
    decreases |years|
  {
    if |years| == 0 then Success([])
    else
      FlattenCons(Rows(LinkRows(src, registry, YearLinks(src, years[0]))), YearRowLists(src, registry, years[1..]));
      Concat(LinkRows(src, registry, YearLinks(src, years[0])), WorkerRows(src, registry, years[1..]))
  }

  /** A worker's years can be handed out in stretches: the rows for a
      concatenation are the rows of each stretch, in order. */
  lemma {:induction false} WorkerRowsAppend(src: Source, registry: string -> bool, a: seq<int>, b: seq<int>)
    ensures WorkerRows(src, registry, a + b) == Concat(WorkerRows(src, registry, a), WorkerRows(src, registry, b))
    decreases |a|
  {
    if |a| == 0 {
      assert a + b == b;
      assert WorkerRows(src, registry, b).Success? ==> [] + WorkerRows(src, registry, b).value == WorkerRows(src, registry, b).value;
    } else {
      assert (a + b)[0] == a[0];
      assert (a + b)[1..] == a[1..] + b;
      WorkerRowsAppend(src, registry, a[1..], b);
      ConcatAssoc(LinkRows(src, registry, YearLinks(src, a[0])), WorkerRows(src, registry, a[1..]), WorkerRows(src, registry, b));
    }
  }

  // ---------------------------------------------------------------------
  // The whole run

  /** What reaches `final_list`: the list of each worker that finishes. A
      worker that meets a fault dies before its single `append`, so its
      whole chunk is lost; the others are unaffected. */
  function Collected(results: seq<Result<seq<VoteRow>, Fault>>): (lists: seq<seq<VoteRow>>)
    ensures |lists| <= |results|
    ensures forall l :: l in lists ==> Success(l) in results
    ensures forall i :: 0 <= i < |results| && results[i].Success? ==> results[i].value in lists
    ensures (forall i :: 0 <= i < |results| ==> results[i].Success?) ==>
              lists == seq(|results|, i requires 0 <= i < |results| => results[i].value)
  {
    if |results| == 0 then []
    else if results[0].Success? then [results[0].value] + Collected(results[1..])
    else Collected(results[1..])
  }

  /** One worker per chunk, in chunk order. */
  function RunWorkers(src: Source, registry: string -> bool, chunks: seq<seq<int>>): (results: seq<Result<seq<VoteRow>, Fault>>)
    ensures |results| == |chunks|
    ensures forall i :: 0 <= i < |chunks| ==> results[i] == WorkerRows(src, registry, chunks[i])
  {
    seq(|chunks|, i requires 0 <= i < |chunks| => WorkerRows(src, registry, chunks[i]))
  }

  /** The `__main__` run: split the years, run a worker per chunk, flatten
      what the workers delivered. Workers are taken in chunk order; the
      source appends them in completion order, which only permutes the
      worker lists (see `MergeOrderIrrelevant`). */
  function Acquire(src: Source, registry: string -> bool, years: seq<int>, workers: nat): (rows: seq<VoteRow>)
    requires workers > 0
    ensures forall row :: row in rows <==> DeliveredBy(src, registry, Partition(years, workers), row)
  {
    AcquireRows(src, registry, years, workers);
    Flatten(Collected(RunWorkers(src, registry, Partition(years, workers))))
  }

  /** Some worker that finished delivered `row`. */
  predicate DeliveredBy(src: Source, registry: string -> bool, chunks: seq<seq<int>>, row: VoteRow)
  {
    exists i :: 0 <= i < |chunks| && WorkerRows(src, registry, chunks[i]).Success?
                && row in WorkerRows(src, registry, chunks[i]).value
  }

  /** Every merged row comes from a worker that finished, and every row of
      such a worker is merged. */
  lemma AcquireRows(src: Source, registry: string -> bool, years: seq<int>, workers: nat)
    requires workers > 0
    ensures var chunks := Partition(years, workers);
            forall row :: row in Flatten(Collected(RunWorkers(src, registry, chunks))) <==> DeliveredBy(src, registry, chunks, row)
  {
    var chunks := Partition(years, workers);
    var results := RunWorkers(src, registry, chunks);
    forall row
      ensures row in Flatten(Collected(results)) <==>
              exists i :: 0 <= i < |results| && results[i].Success? && row in results[i].value
    {
      CollectedHas(results, row);
    }
  }

  /** A row reaches the merged list exactly when some worker that finished
      delivered it. */
  lemma CollectedHas(results: seq<Result<seq<VoteRow>, Fault>>, row: VoteRow)
    ensures row in Flatten(Collected(results)) <==>
            exists i :: 0 <= i < |results| && results[i].Success? && row in results[i].value
  {
    var lists := Collected(results);
    FlattenHas(lists, row);
    if row in Flatten(lists) {
      var j :| 0 <= j < |lists| && row in lists[j];
      assert lists[j] in lists;
      var i :| 0 <= i < |results| && results[i] == Success(lists[j]);
    }
    if exists i :: 0 <= i < |results| && results[i].Success? && row in results[i].value {
      var i :| 0 <= i < |results| && results[i].Success? && row in results[i].value;
      var j :| 0 <= j < |lists| && lists[j] == results[i].value;
    }
  }

  /** When no worker meets a fault the parallel run delivers what one
      sequential worker would over the years the split keeps. */
  lemma AcquireSequential(src: Source, registry: string -> bool, years: seq<int>, workers: nat)
    requires workers > 0
    requires var chunks := Partition(years, workers);
             forall i :: 0 <= i < |chunks| ==> WorkerRows(src, registry, chunks[i]).Success?
    ensures WorkerRows(src, registry, years[..Covered(|years|, workers)]) == Success(Acquire(src, registry, years, workers))
  {
    var chunks := Partition(years, workers);
    FlattenWorkers(src, registry, chunks);
    PartitionFlatten(years, workers);
  }

  /** Workers that all finish: merging their lists is running one worker over
      the concatenated chunks. */
  lemma {:induction false} FlattenWorkers(src: Source, registry: string -> bool, chunks: seq<seq<int>>)
    requires forall i :: 0 <= i < |chunks| ==> WorkerRows(src, registry, chunks[i]).Success?
    ensures WorkerRows(src, registry, Flatten(chunks)) == Success(Flatten(Collected(RunWorkers(src, registry, chunks))))
    decreases |chunks|
  {
    var results := RunWorkers(src, registry, chunks);
    if |chunks| > 0 {
      FlattenWorkers(src, registry, chunks[1..]);
      WorkerRowsAppend(src, registry, chunks[0], Flatten(chunks[1..]));
      assert results[1..] == RunWorkers(src, registry, chunks[1..]);
      assert Collected(results) == [results[0].value] + Collected(results[1..]);
      var tail := Collected(results[1..]);
      assert Flatten([results[0].value] + tail) == results[0].value + Flatten(tail) by {
        assert ([results[0].value] + tail)[1..] == tail;
      }
    } else {
      assert results == [];
    }
  }

  /** A worker that meets a fault contributes nothing: what is collected is
      what the other workers deliver. */
  lemma FailedWorkerLost(results: seq<Result<seq<VoteRow>, Fault>>, i: nat)
    requires i < |results| && results[i].Failure?
    ensures Collected(results) == Collected(results[..i] + results[i + 1..])
  {
    assert results == results[..i] + results[i..];
    CollectedSplit(results[..i], results[i..]);
    assert results[i..][1..] == results[i + 1..];
    CollectedSplit(results[..i], results[i + 1..]);
  }

  lemma {:induction false} CollectedSplit(a: seq<Result<seq<VoteRow>, Fault>>, b: seq<Result<seq<VoteRow>, Fault>>)
    ensures Collected(a + b) == Collected(a) + Collected(b)
    decreases |a|
  {
    if |a| == 0 {
      assert a + b == b;
    } else {
      assert (a + b)[0] == a[0];
      assert (a + b)[1..] == a[1..] + b;
      CollectedSplit(a[1..], b);
    }
  }

  /** Flattening around a pair of adjacent lists. */
  lemma FlattenAround<T>(before: seq<seq<T>>, x: seq<T>, y: seq<T>, after: seq<seq<T>>)
    ensures Flatten(before + [x, y] + after) == Flatten(before) + (x + y) + Flatten(after)
  {
    FlattenAppend(before + [x, y], after);
    FlattenAppend(before, [x, y]);
    assert [x, y][1..] == [y];
    assert Flatten([y]) == y + Flatten<T>([]);
    assert Flatten([x, y]) == x + y;
  }

  /** Workers append to `final_list` in the order they finish; exchanging two
      neighbouring worker lists changes the order of the merged rows, never
      which rows there are. */
  lemma MergeOrderIrrelevant<T>(before: seq<seq<T>>, x: seq<T>, y: seq<T>, after: seq<seq<T>>)
    ensures multiset(Flatten(before + [x, y] + after)) == multiset(Flatten(before + [y, x] + after))
  {
    FlattenAround(before, x, y, after);
    FlattenAround(before, y, x, after);
    assert multiset(x + y) == multiset(y + x);
  }

  // ---------------------------------------------------------------------
  // dropna

  /** A row with no missing column: every column but title and resolution is
      always present, those two come from `find_info` and may be absent. */
  predicate Complete(row: VoteRow)
  {
    row.title.Some? && row.resolution.Some?
  }

  /** `df.dropna()`: the complete rows, in order. */
  function DropIncomplete(rows: seq<VoteRow>): (kept: seq<VoteRow>)
    ensures |kept| <= |rows|
    ensures forall row :: row in kept <==> row in rows && Complete(row)
    ensures forall row :: multiset(kept)[row] == if Complete(row) then multiset(rows)[row] else 0
  {
    if |rows| == 0 then []
    else
      assert rows == [rows[0]] + rows[1..];
      if Complete(rows[0]) then [rows[0]] + DropIncomplete(rows[1..])
      else DropIncomplete(rows[1..])
  }

  /** The filter keeps the order of the rows: dropping from a concatenation
      is dropping from each part. */
  lemma {:induction false} DropIncompleteAppend(a: seq<VoteRow>, b: seq<VoteRow>)
    ensures DropIncomplete(a + b) == DropIncomplete(a) + DropIncomplete(b)
    decreases |a|
  {
    if |a| == 0 {
      assert a + b == b;
    } else {
      assert (a + b)[0] == a[0];
      assert (a + b)[1..] == a[1..] + b;
      DropIncompleteAppend(a[1..], b);
    }
  }

  /** Dropping incomplete rows twice is dropping them once. */
  lemma {:induction false} DropIncompleteIdempotent(rows: seq<VoteRow>)
    ensures DropIncomplete(DropIncomplete(rows)) == DropIncomplete(rows)
  {
    if |rows| > 0 {
      DropIncompleteIdempotent(rows[1..]);
      if Complete(rows[0]) {
        assert ([rows[0]] + DropIncomplete(rows[1..]))[1..] == DropIncomplete(rows[1..]);
      }
    }
  }
}
