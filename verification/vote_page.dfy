/** The per-resolution vote extraction of `get_page_info` (UN_parse.py): the
    children of a detail page's vote block become one row per recognised
    country. */
module VotePage {
  import opened Wrappers
  import opened Strings
  import opened CountryNames
  import opened Metadata

  /** A child of the vote block: a `<br/>` or a text chunk such as
      `"Y UNITED STATES"`. */
  datatype Child = LineBreak | Text(text: string)

  /** One output record: the columns `country`, `vote result`, `title`,
      `vote date` and `resolution`. */
  datatype VoteRow = VoteRow(
    country: string,
    voteResult: string,
    title: Option<string>,
    voteDate: string,
    resolution: Option<string>)

  /** A detail page reduced to what the parser reads from it: the metadata
      rows and the children of the vote block, the last value span of the
      second-to-last metadata row. `votes` is `None` when that span does not
      exist (fewer than two rows, or a row without a value span). */
  datatype DetailPage = DetailPage(metadata: seq<MetaRow>, votes: Option<seq<Child>>)

  /** Vote code recorded when the chunk carries none. */
  const NoVote := "NV"

  const TitleLabel := "Title"
  const ResolutionLabel := "Resolution"
  const VoteDateLabel := "Vote date"

  /** Splits one text chunk into its vote code and the rebuilt country name
      (before renaming). A single-character first token is the code and the
      remaining tokens the name; otherwise the code is "NV" and every token
      belongs to the name. A chunk without tokens is Python's `IndexError`. */
  function ParseChunk(text: string): (r: Result<(string, string), Fault>)
    ensures r.Failure? <==> Blank(text)
    ensures r.Failure? ==> r.error == IndexError
    ensures r.Success? ==> r.value.0 == NoVote || (|r.value.0| == 1 && r.value.0 != " ")
  {
    TokensEmptyIffBlank(text);
    var tokens := Tokens(text);
    if |tokens| == 0 then Failure(IndexError)
    else if |tokens[0]| != 1 then Success((NoVote, Join(TransformCountryName(tokens), ' ')))
    else Success((tokens[0], Join(TransformCountryName(tokens[1..]), ' ')))
  }

  /** A chunk whose tokens are a one-character code followed by name words
      parses into that code and the case-folded words, whatever spaces lead,
      trail or separate them. */
  lemma ParseChunkCoded(text: string, code: char, words: seq<string>)
    requires Tokens(text) == [[code]] + words
    ensures ParseChunk(text) == Success(([code], Join(TransformCountryName(words), ' ')))
  {
    assert Tokens(text)[1..] == words;
  }

  /** A chunk whose first token is longer than one character carries no code:
      it parses into "NV" and all its tokens case-folded. */
  lemma ParseChunkUncoded(text: string, words: seq<string>)
    requires Tokens(text) == words && |words| > 0 && |words[0]| != 1
    ensures ParseChunk(text) == Success((NoVote, Join(TransformCountryName(words), ' ')))
  {
  }

  /** The number of text chunks, the upper bound on the rows a page yields. */
  function TextCount(children: seq<Child>): (n: nat)
    ensures n <= |children|
  {
    if |children| == 0 then 0
    else (if children[0].Text? then 1 else 0) + TextCount(children[1..])
  }

  /** Every row is of this resolution, dated by the first four characters of
      its vote date, and names a country that passes the registry and that
      renaming leaves as it is. */
  ghost predicate WellFormedRow(row: VoteRow, title: Option<string>, resolution: Option<string>,
                                date: Option<string>, registry: string -> bool)
  {
    && registry(row.country)
    && RenameCountry(row.country) == row.country
    && row.title == title
    && row.resolution == resolution
    && date.Some?
    && row.voteDate == Take(date.value, 4)
  }

  /** Some text chunk of the block holds no token. */
  ghost predicate HasBlankChunk(children: seq<Child>)
  {
    exists k :: 0 <= k < |children| && children[k].Text? && Blank(children[k].text)
  }

  /** The row one text chunk yields under an accepted vote date: its renamed
      country with its code when the registry knows the name, nothing when it
      does not. */
  function ChunkRow(text: string, title: Option<string>, resolution: Option<string>,
                    date: string, registry: string -> bool): (r: Result<Option<VoteRow>, Fault>)
    ensures r.Failure? <==> Blank(text)
    ensures r.Failure? ==> r.error == IndexError
    ensures r.Success? ==> (r.value.Some? <==> registry(RenameCountry(ParseChunk(text).value.1)))
    ensures r.Success? && r.value.Some? ==>
              && r.value.value.country == RenameCountry(ParseChunk(text).value.1)
              && r.value.value.voteResult == ParseChunk(text).value.0
    ensures r.Success? && r.value.Some? ==> WellFormedRow(r.value.value, title, resolution, Some(date), registry)
  {
    var chunk :- ParseChunk(text);
    var country := RenameCountry(chunk.1);
    RenameIdempotent(chunk.1);
    if registry(country) then Success(Some(VoteRow(country, chunk.0, title, VoteYear(date), resolution)))
    else Success(None)
  }

  /** Splitting off the first child splits the blank-chunk condition. */
  lemma HasBlankChunkCons(children: seq<Child>)
    requires |children| > 0
    ensures HasBlankChunk(children) <==>
            (children[0].Text? && Blank(children[0].text)) || HasBlankChunk(children[1..])
  {
    if HasBlankChunk(children[1..]) {
      var k :| 0 <= k < |children[1..]| && children[1..][k].Text? && Blank(children[1..][k].text);
      assert children[k + 1] == children[1..][k];
    }
    if HasBlankChunk(children) {
      var k :| 0 <= k < |children| && children[k].Text? && Blank(children[k].text);
      if k > 0 {
        assert children[1..][k - 1] == children[k];
      }
    }
  }

  /** The loop over the vote block's children (UN_parse.py, lines 134-161):
      nothing when the vote date is rejected, `<br/>` skipped, each chunk
      parsed, its name renamed, and the row kept only when the registry knows
      the name. */
  function ParseChildren(children: seq<Child>, title: Option<string>, resolution: Option<string>,
                         date: Option<string>, registry: string -> bool): (r: Result<seq<VoteRow>, Fault>)
    ensures !DateAccepted(date) ==> r == Success([])
    ensures r.Failure? <==> DateAccepted(date) && HasBlankChunk(children)
    ensures r.Failure? ==> r.error == IndexError
    ensures r.Success? ==> |r.value| <= TextCount(children)
    decreases |children|
  {
    if |children| == 0 || !DateAccepted(date) then Success([])
    else
      HasBlankChunkCons(children);
      var rest := ParseChildren(children[1..], title, resolution, date, registry);
      match children[0]
      case LineBreak => rest
      case Text(t) =>
        var row := ChunkRow(t, title, resolution, date.value, registry);
        if row.Failure? then Failure(row.error)
        else if rest.Failure? then rest
        else if row.value.Some? then Success([row.value.value] + rest.value)
        else rest
  }

  /** All rows of `rows` are well formed. */
  ghost predicate AllWellFormed(rows: seq<VoteRow>, title: Option<string>, resolution: Option<string>,
                                date: Option<string>, registry: string -> bool)
  {
    forall k :: 0 <= k < |rows| ==> WellFormedRow(rows[k], title, resolution, date, registry)
  }

  /** Every row the block yields passes the registry and carries this
      resolution's title, number and year. */
  lemma {:induction false} ParseChildrenRows(children: seq<Child>, title: Option<string>, resolution: Option<string>,
                                             date: Option<string>, registry: string -> bool)
    ensures var r := ParseChildren(children, title, resolution, date, registry);
            r.Success? ==> AllWellFormed(r.value, title, resolution, date, registry)
    decreases |children|
  {
    if |children| > 0 && DateAccepted(date) {
      ParseChildrenRows(children[1..], title, resolution, date, registry);
      StepRows(children, title, resolution, date, registry);
    }
  }

  /** One step of the loop keeps every row well formed. */
  lemma StepRows(children: seq<Child>, title: Option<string>, resolution: Option<string>,
                 date: Option<string>, registry: string -> bool)
    requires |children| > 0 && DateAccepted(date)
    requires var rest := ParseChildren(children[1..], title, resolution, date, registry);
             rest.Success? ==> AllWellFormed(rest.value, title, resolution, date, registry)
    ensures var r := ParseChildren(children, title, resolution, date, registry);
            r.Success? ==> AllWellFormed(r.value, title, resolution, date, registry)
  {
    var r := ParseChildren(children, title, resolution, date, registry);
    var rest := ParseChildren(children[1..], title, resolution, date, registry);
    if children[0].Text? && r.Success? {
      var row := ChunkRow(children[0].text, title, resolution, date.value, registry);
      assert Some(date.value) == date;
      if row.value.Some? {
        ConsRows(row.value.value, rest.value, title, resolution, date, registry);
        assert r.value == [row.value.value] + rest.value;
      }
    }
  }

  /** Prepending a well-formed row to well-formed rows keeps them well formed. */
  lemma ConsRows(row: VoteRow, rest: seq<VoteRow>, title: Option<string>, resolution: Option<string>,
                 date: Option<string>, registry: string -> bool)
    requires WellFormedRow(row, title, resolution, date, registry)
    requires AllWellFormed(rest, title, resolution, date, registry)
    ensures AllWellFormed([row] + rest, title, resolution, date, registry)
  {
  }

  /** The loop reads the block stretch by stretch: the rows of a
      concatenation are the rows of each part, in order. */
  lemma {:induction false} ParseChildrenAppend(a: seq<Child>, b: seq<Child>, title: Option<string>,
                                               resolution: Option<string>, date: Option<string>, registry: string -> bool)
    ensures ParseChildren(a + b, title, resolution, date, registry)
            == Concat(ParseChildren(a, title, resolution, date, registry), ParseChildren(b, title, resolution, date, registry))
    decreases |a|
  {
    if |a| == 0 {
      assert a + b == b;
      var second := ParseChildren(b, title, resolution, date, registry);
      if second.Success? {
        assert [] + second.value == second.value;
      }
    } else if DateAccepted(date) {
      assert (a + b)[0] == a[0];
      assert (a + b)[1..] == a[1..] + b;
      ParseChildrenAppend(a[1..], b, title, resolution, date, registry);
      var whole := ParseChildren(a + b, title, resolution, date, registry);
      var tail := ParseChildren(a[1..], title, resolution, date, registry);
      var second := ParseChildren(b, title, resolution, date, registry);
      if a[0].Text? {
        var row := ChunkRow(a[0].text, title, resolution, date.value, registry);
        if row.Success? && row.value.Some? && tail.Success? && second.Success? {
          RowsAssoc([row.value.value], tail.value, second.value);
        }
      }
    } else {
      var none: seq<VoteRow> := [];
      assert none + none == none;
    }
  }

  lemma RowsAssoc(x: seq<VoteRow>, y: seq<VoteRow>, z: seq<VoteRow>)
    ensures x + (y + z) == (x + y) + z
  {
  }

  /** A `<br/>` anywhere in the block changes nothing. */
  lemma LineBreakIgnored(a: seq<Child>, b: seq<Child>, title: Option<string>,
                         resolution: Option<string>, date: Option<string>, registry: string -> bool)
    ensures ParseChildren(a + [LineBreak] + b, title, resolution, date, registry)
            == ParseChildren(a + b, title, resolution, date, registry)
  {
    ParseChildrenAppend(a + [LineBreak], b, title, resolution, date, registry);
    ParseChildrenAppend(a, [LineBreak], title, resolution, date, registry);
    ParseChildrenAppend(a, b, title, resolution, date, registry);
    assert ParseChildren([LineBreak], title, resolution, date, registry) == Success([]);
    var x := ParseChildren(a, title, resolution, date, registry);
    if x.Success? {
      assert x.value + [] == x.value;
    }
  }

  /** A chunk whose name the registry does not know yields no row: it is
      dropped silently and the loop goes on. */
  lemma UnregisteredDropped(t: string, rest: seq<Child>, title: Option<string>,
                            resolution: Option<string>, date: Option<string>, registry: string -> bool)
    requires DateAccepted(date)
    requires ParseChunk(t).Success? && !registry(RenameCountry(ParseChunk(t).value.1))
    ensures ParseChildren([Text(t)] + rest, title, resolution, date, registry)
            == ParseChildren(rest, title, resolution, date, registry)
  {
    assert ([Text(t)] + rest)[1..] == rest;
  }

  /** A chunk whose renamed name the registry knows contributes its row,
      ahead of the rows of the chunks after it. */
  lemma RegisteredKept(t: string, rest: seq<Child>, title: Option<string>,
                       resolution: Option<string>, date: Option<string>, registry: string -> bool)
    requires DateAccepted(date)
    requires ParseChunk(t).Success? && registry(RenameCountry(ParseChunk(t).value.1))
    ensures var row := ChunkRow(t, title, resolution, date.value, registry);
            && row.Success? && row.value.Some?
            && ParseChildren([Text(t)] + rest, title, resolution, date, registry)
               == Concat(Success([row.value.value]), ParseChildren(rest, title, resolution, date, registry))
  {
    var row := ChunkRow(t, title, resolution, date.value, registry);
    assert row.Success? && row.value.Some? by {
      assert !Blank(t);
    }
    KeptStep(t, rest, row.value.value, title, resolution, date, registry);
  }

  /** The loop step for a chunk that yields a row. */
  lemma KeptStep(t: string, rest: seq<Child>, row: VoteRow, title: Option<string>,
                 resolution: Option<string>, date: Option<string>, registry: string -> bool)
    requires DateAccepted(date)
    requires ChunkRow(t, title, resolution, date.value, registry) == Success(Some(row))
    ensures ParseChildren([Text(t)] + rest, title, resolution, date, registry)
            == Concat(Success([row]), ParseChildren(rest, title, resolution, date, registry))
  {
    var children := [Text(t)] + rest;
    assert children[1..] == rest;
    var tail := ParseChildren(rest, title, resolution, date, registry);
    if tail.Success? {
      KeptStepRows(children, t, row, title, resolution, date, registry);
    }
  }

  lemma KeptStepRows(children: seq<Child>, t: string, row: VoteRow, title: Option<string>,
                     resolution: Option<string>, date: Option<string>, registry: string -> bool)
    requires |children| > 0 && children[0] == Text(t) && DateAccepted(date)
    requires ChunkRow(t, title, resolution, date.value, registry) == Success(Some(row))
    requires ParseChildren(children[1..], title, resolution, date, registry).Success?
    ensures ParseChildren(children, title, resolution, date, registry)
            == Success([row] + ParseChildren(children[1..], title, resolution, date, registry).value)
  {
  }

  /** Token folding on two sample words. */
  lemma FoldUnited()
    ensures TransformToken("UNITED") == "United"
  {
    var name := "UNITED";
    var r := TransformToken(name);
    assert KeptLength(name) == 1;
    assert r[0] == name[0];
    assert forall i :: 1 <= i < 6 ==> r[i] == LowerChar(name[i]);
    assert forall i :: 0 <= i < 6 ==> r[i] == "United"[i];
  }

  lemma FoldStates()
    ensures TransformToken("STATES") == "States"
  {
    var name := "STATES";
    var r := TransformToken(name);
    assert KeptLength(name) == 1;
    assert r[0] == name[0];
    assert forall i :: 1 <= i < 6 ==> r[i] == LowerChar(name[i]);
    assert forall i :: 0 <= i < 6 ==> r[i] == "States"[i];
  }

  /** "UNITED STATES" is rebuilt as "United States". */
  lemma FoldUnitedStates()
    ensures Join(TransformCountryName(SampleWords), ' ') == SampleName
  {
    FoldUnited();
    FoldStates();
    assert TransformCountryName(SampleWords) == ["United", "States"];
  }

  /** Sample chunks: a coded one and the same name without a code. */
  const SampleWords: seq<string> := ["UNITED", "STATES"]
  const CodedSample := "Y UNITED STATES"
  const UncodedSample := "UNITED STATES"
  const SampleName := "United States"

  /** "Y UNITED STATES" is a "Y" vote of "United States". */
  lemma ParseCodedExample()
    ensures ParseChunk(CodedSample) == Success(("Y", SampleName))
  {
    FoldUnitedStates();
    SampleTokens();
    ParseChunkCoded(CodedSample, 'Y', SampleWords);
  }

  /** The same name with no code in front is recorded as "NV". */
  lemma ParseUncodedExample()
    ensures ParseChunk(UncodedSample) == Success((NoVote, SampleName))
  {
    FoldUnitedStates();
    SampleTokens();
    ParseChunkUncoded(UncodedSample, SampleWords);
  }

  /** The sample chunks are the sample words written out with spaces. */
  lemma SamplesJoined()
    ensures Join([['Y']] + SampleWords, ' ') == CodedSample
    ensures Join(SampleWords, ' ') == UncodedSample
  {
  }

  /** The tokens of the sample chunks are the sample words, after the code. */
  lemma SampleTokens()
    ensures Tokens(UncodedSample) == SampleWords
    ensures Tokens(CodedSample) == [['Y']] + SampleWords
  {
    SamplesJoined();
    var all := [['Y']] + SampleWords;
    assert forall k :: 0 <= k < |all| ==> |all[k]| > 0 && ' ' !in all[k];
    TokensJoin(SampleWords);
    TokensJoin(all);
  }

  /** The coded sample with a space in front, doubled spaces between its
      words and a space behind. */
  const SpacedSample := " Y  UNITED  STATES "

  /** How the spaced sample is put together from the sample words. */
  lemma SpacedShape()
    ensures SpacedSample == " " + ("Y" + "  " + (SampleWords[0] + "  " + SampleWords[1])) + " "
    ensures UncodedSample == SampleWords[0] + " " + SampleWords[1]
  {
  }

  /** Extra spaces around and between the words change nothing: the spaced
      sample reads as the coded one. */
  lemma ParseSpacedExample()
    ensures ParseChunk(SpacedSample) == Success(("Y", SampleName))
  {
    SpacedShape();
    var names := SampleWords[0] + "  " + SampleWords[1];
    var line := "Y" + "  " + names;
    TokensExtraSpaces(SampleWords[0], SampleWords[1]);
    TokensExtraSpaces("Y", names);
    TokensAppend("Y", names);
    TokensWord("Y");
    TokensExtraSpaces(" " + line, "");
    TokensExtraSpaces(line, "");
    SampleTokens();
    assert Tokens(SpacedSample) == [['Y']] + SampleWords;
    FoldUnitedStates();
    ParseChunkCoded(SpacedSample, 'Y', SampleWords);
  }

  /** "United States" matches no arm of the renaming. */
  lemma UnitedStatesKept()
    ensures RenameCountry(SampleName) == SampleName
  {
    FallsThrough(SampleName, {'U', 'n', 'i', 't', 'e', 'd', ' ', 'S', 'a', 's'}, 0, 0, 0);
  }

  const SampleDate := "2003-03-20"
  const SampleYear := "2003"

  /** A 2003 vote date is accepted and gives the year column "2003". */
  lemma SampleDateAccepted()
    ensures DateAccepted(Some(SampleDate)) && VoteYear(SampleDate) == SampleYear
  {
    assert Take(SampleDate, 4) == SampleYear;
  }

  /** The coded sample chunk becomes one row when the registry knows the name. */
  lemma SampleChunkRow(title: Option<string>, resolution: Option<string>, registry: string -> bool)
    requires registry(SampleName)
    ensures ChunkRow(CodedSample, title, resolution, SampleDate, registry)
            == Success(Some(VoteRow(SampleName, "Y", title, SampleYear, resolution)))
  {
    ParseCodedExample();
    UnitedStatesKept();
    SampleDateAccepted();
  }

  /** `get_page_info`: look up the title, the resolution and the vote date,
      then find the vote block and read it. A lookup fault, or a missing
      vote block, ends the page with an `IndexError`. */
  function GetPageInfo(page: DetailPage, registry: string -> bool): (r: Result<seq<VoteRow>, Fault>)
    ensures r.Success? <==>
              && FindInfo(page.metadata, TitleLabel).Success?
              && FindInfo(page.metadata, ResolutionLabel).Success?
              && FindInfo(page.metadata, VoteDateLabel).Success?
              && page.votes.Some?
              && !(DateAccepted(FindInfo(page.metadata, VoteDateLabel).value) && HasBlankChunk(page.votes.value))
    ensures r.Failure? ==> r.error == IndexError
    ensures r.Success? && !DateAccepted(FindInfo(page.metadata, VoteDateLabel).value) ==> r.value == []
    ensures r.Success? ==> |r.value| <= TextCount(page.votes.value)
    ensures r.Success? ==> r == ParseChildren(page.votes.value, FindInfo(page.metadata, TitleLabel).value,
                                              FindInfo(page.metadata, ResolutionLabel).value,
                                              FindInfo(page.metadata, VoteDateLabel).value, registry)
    ensures r.Success? ==> AllWellFormed(r.value, FindInfo(page.metadata, TitleLabel).value,
                                         FindInfo(page.metadata, ResolutionLabel).value,
                                         FindInfo(page.metadata, VoteDateLabel).value, registry)
  {
    var title :- FindInfo(page.metadata, TitleLabel);
    var resolution :- FindInfo(page.metadata, ResolutionLabel);
    var date :- FindInfo(page.metadata, VoteDateLabel);
    if page.votes.None? then Failure(IndexError)
    else
      ParseChildrenRows(page.votes.value, title, resolution, date, registry);
      ParseChildren(page.votes.value, title, resolution, date, registry)
  }
}
