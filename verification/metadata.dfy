/** Reading a resolution's detail page: the labelled metadata rows and the
    vote-date filter (UN_parse.py, `find_info` and `date_handler`). */
module Metadata {
  import opened Wrappers
  import opened Strings

  /** One `metadata-row` block of the detail page, reduced to the texts of
      its `<span>` elements in document order: the label first, then the value. */
  datatype MetaRow = MetaRow(spans: seq<string>)

  /** Row `i` is the first row labelled `name`: every earlier row has a label
      and it is a different one. */
  ghost predicate FirstLabelled(rows: seq<MetaRow>, name: string, i: int)
  {
    && 0 <= i < |rows|
    && (forall j :: 0 <= j < i ==> |rows[j].spans| > 0 && rows[j].spans[0] != name)
    && |rows[i].spans| > 0 && rows[i].spans[0] == name
  }

  /** No row is labelled `name`, and every row has a label to compare. */
  ghost predicate NoneLabelled(rows: seq<MetaRow>, name: string)
  {
    forall j :: 0 <= j < |rows| ==> |rows[j].spans| > 0 && rows[j].spans[0] != name
  }

  /** `find_info`: the value of the first row whose label is `name`, or
      `None` when no row carries that label. Reading the label of a row with
      no span, or the value of a matching row with only one, is Python's
      `IndexError`. */
  function FindInfo(rows: seq<MetaRow>, name: string): (r: Result<Option<string>, Fault>)
    ensures r == Success(None) <==> NoneLabelled(rows, name)
    ensures forall i :: FirstLabelled(rows, name, i) && |rows[i].spans| >= 2 ==> r == Success(Some(rows[i].spans[1]))
    ensures r.Success? && r.value.Some? ==>
              exists i :: FirstLabelled(rows, name, i) && |rows[i].spans| >= 2 && r.value.value == rows[i].spans[1]
    ensures r.Failure? ==> r.error == IndexError
  {
    if |rows| == 0 then Success(None)
    else
      var spans := rows[0].spans;
      if |spans| == 0 then Failure(IndexError)
      else if spans[0] == name then
        if |spans| < 2 then Failure(IndexError) else Success(Some(spans[1]))
      else
        var rest := FindInfo(rows[1..], name);
        assert forall i :: FirstLabelled(rows[1..], name, i) ==> FirstLabelled(rows, name, i + 1);
        assert forall i :: FirstLabelled(rows, name, i) ==> i >= 1 && FirstLabelled(rows[1..], name, i - 1);
        rest
  }

  /** The year the resolutions of which are skipped. */
  const SentinelYear := "1981"

  /** `date_handler`: a vote date is usable when it is present and does not
      begin with the sentinel year (`date[0:4] != "1981"`; `None` raises the
      `TypeError` the source catches). */
  function DateAccepted(date: Option<string>): (ok: bool)
    ensures ok <==> date.Some? && !StartsWith(date.value, SentinelYear)
  {
    match date
    case None => false
    case Some(d) => Take(d, 4) != SentinelYear
  }

  /** The year column of a vote row: the first four characters of the date. */
  function VoteYear(date: string): (y: string)
    ensures StartsWith(date, y)
    ensures |y| == if |date| < 4 then |date| else 4
  {
    Take(date, 4)
  }
}
