/** The veto-table scraper, UN_veto_parse.py: the topic shortening of
    `topic_cutter` and the row loop of `get_veto_info`, which skips the
    header rows, stops at the first row dated 1991 or earlier and expands
    the joint China/Russian Federation vetoes into one record per country.
    The fetched table is given to the model as its rows of cell texts. */
module Veto {
  import opened Wrappers
  import opened Strings

  // ---------------------------------------------------------------------
  // Topics

  // The keywords `topic_cutter` looks for, in the source's order.
  const LetterKey := "Letter"
  const PalestinianKey := "Palestinian"
  const SyriaKey := "Syria"
  const MiddleEastKey := "Middle East"
  const CentralAmericaKey := "Central America"
  const BosniaKey := "Bosnia and Herzegovina"
  const VenezuelaKey := "Venezuela"
  const PeaceKey := "international peace"
  const OccupiedKey := "occupied Arab territories"
  const MacedoniaKey := "Yugoslav Republic of Macedonia"
  const CyprusKey := "Cyprus"

  // The labels it returns for them.
  const Ukraine := "Ukraine"
  const Palestine := "Palestine"
  const Peace := "International peace"
  const Occupied := "Occupied Arab territories"

  /** The number of arms of the cascade. */
  const TopicArms := 11

  /** The keyword arm `arm` tests for. */
  function TopicKey(arm: nat): (key: string)
    requires arm < TopicArms
  {
    if arm == 0 then LetterKey
    else if arm == 1 then PalestinianKey
    else if arm == 2 then SyriaKey
    else if arm == 3 then MiddleEastKey
    else if arm == 4 then CentralAmericaKey
    else if arm == 5 then BosniaKey
    else if arm == 6 then VenezuelaKey
    else if arm == 7 then PeaceKey
    else if arm == 8 then OccupiedKey
    else if arm == 9 then MacedoniaKey
    else CyprusKey
  }

  /** The label arm `arm` returns: the keyword itself, except that a letter
      to the Council is filed under Ukraine, "Palestinian" under Palestine,
      and the two lower-case keywords are capitalised. */
  function TopicLabel(arm: nat): (name: string)
    requires arm < TopicArms
  {
    if arm == 0 then Ukraine
    else if arm == 1 then Palestine
    else if arm == 7 then Peace
    else if arm == 8 then Occupied
    else TopicKey(arm)
  }

  /** Arm `arm`'s test: its keyword occurs in the topic, case-sensitively. */
  predicate TopicMatches(topic: string, arm: nat)
  {
    arm < TopicArms && Contains(topic, TopicKey(arm))
  }

  /** The cascade from arm `arm` on. */
  function TopicFrom(topic: string, arm: nat): (r: string)
    decreases TopicArms - arm
  {
    if arm >= TopicArms then topic
    else if TopicMatches(topic, arm) then TopicLabel(arm)
    else TopicFrom(topic, arm + 1)
  }

  /** `topic_cutter`: the topic itself or one of the eleven labels. */
  function TopicCutter(topic: string): (r: string)
    ensures r == topic || exists arm | 0 <= arm < TopicArms :: r == TopicLabel(arm)
  {
    TopicFromOutcome(topic, 0);
    TopicFrom(topic, 0)
  }

  /** Arm `arm` is the first arm whose keyword occurs in the topic. */
  predicate FirstTopicArm(topic: string, arm: nat)
  {
    arm < TopicArms && TopicMatches(topic, arm) && forall b | 0 <= b < arm :: !TopicMatches(topic, b)
  }

  /** No keyword occurs in the topic. */
  predicate NoTopicArm(topic: string)
  {
    forall b | 0 <= b < TopicArms :: !TopicMatches(topic, b)
  }

  lemma {:induction false} TopicFromFirst(topic: string, from: nat, arm: nat)
    requires from <= arm < TopicArms && TopicMatches(topic, arm)
    requires forall b | from <= b < arm :: !TopicMatches(topic, b)
    ensures TopicFrom(topic, from) == TopicLabel(arm)
    decreases arm - from
  {
    if from < arm {
      assert !TopicMatches(topic, from);
      TopicFromFirst(topic, from + 1, arm);
      assert TopicFrom(topic, from) == TopicFrom(topic, from + 1);
    } else {
      assert TopicFrom(topic, arm) == TopicLabel(arm);
    }
  }

  lemma {:induction false} TopicFromNone(topic: string, from: nat)
    requires forall b | from <= b < TopicArms :: !TopicMatches(topic, b)
    ensures TopicFrom(topic, from) == topic
    decreases TopicArms - from
  {
    if from < TopicArms {
      TopicFromNone(topic, from + 1);
    }
  }

  /** `topic_cutter` is first-match: the first keyword, in source order,
      that occurs in the topic decides the label, and a topic holding none
      of them is returned as it is. */
  lemma TopicIsFirstMatch(topic: string)
    ensures NoTopicArm(topic) ==> TopicCutter(topic) == topic
    ensures forall arm :: FirstTopicArm(topic, arm) ==> TopicCutter(topic) == TopicLabel(arm)
  {
    if NoTopicArm(topic) {
      TopicFromNone(topic, 0);
    }
    forall arm | FirstTopicArm(topic, arm)
      ensures TopicCutter(topic) == TopicLabel(arm)
    {
      TopicFromFirst(topic, 0, arm);
    }
  }

  /** A topic mentioning a letter is filed under Ukraine, whatever other
      keywords it holds. */
  lemma LetterWins(topic: string)
    requires Contains(topic, LetterKey)
    ensures TopicCutter(topic) == Ukraine
  {
    TopicFromFirst(topic, 0, 0);
  }

  lemma {:induction false} TopicFromOutcome(topic: string, from: nat)
    ensures TopicFrom(topic, from) == topic
            || exists arm | from <= arm < TopicArms :: TopicFrom(topic, from) == TopicLabel(arm)
    decreases TopicArms - from
  {
    if from < TopicArms {
      if TopicMatches(topic, from) {
        assert TopicFrom(topic, from) == TopicLabel(from);
      } else {
        TopicFromOutcome(topic, from + 1);
      }
    }
  }

  /** Matching is case-sensitive: "Letter" is a letter to the Council,
      "letter" is no keyword at all. */
  lemma TopicCaseSensitive()
    ensures TopicCutter(LetterKey) == Ukraine
    ensures TopicCutter("letter") == "letter"
  {
    ContainsWitness(LetterKey, LetterKey, 0);
    LetterWins(LetterKey);
    var lower := "letter";
    assert Within(lower, {'e', 'l', 'r', 't'});
    ArmsExcluded(lower, {'e', 'l', 'r', 't'}, [0, -1, 0, -1, -1, -1, -1, -1, -1, -1, 0]);
    TopicFromNone(lower, 0);
  }

  /** Every character of `s` is in `letters`. */
  predicate Within(s: string, letters: set<char>)
  {
    forall i :: 0 <= i < |s| ==> s[i] in letters
  }

  /** Arm `arm`'s keyword cannot occur in `s`: its character at `k` is not
      among the characters of `s`, or (`k` negative) it is a different
      string no shorter than `s`. */
  predicate KeyExcluded(s: string, letters: set<char>, arm: nat, k: int)
    requires arm < TopicArms
  {
    if k >= 0 then k < |TopicKey(arm)| && TopicKey(arm)[k] !in letters
    else |TopicKey(arm)| >= |s| && TopicKey(arm) != s
  }

  /** The first `|picks|` arms all fail on `s`, each for the reason its pick gives. */
  lemma ArmsExcluded(s: string, letters: set<char>, picks: seq<int>)
    requires Within(s, letters) && |picks| <= TopicArms
    requires forall b | 0 <= b < |picks| :: KeyExcluded(s, letters, b, picks[b])
    ensures forall b | 0 <= b < |picks| :: !TopicMatches(s, b)
  {
    forall b | 0 <= b < |picks|
      ensures !TopicMatches(s, b)
    {
      if picks[b] >= 0 {
        NotContainsByAlphabet(s, letters, TopicKey(b), picks[b]);
      } else {
        NotContainsUnlessEqual(s, TopicKey(b));
      }
    }
  }

  /** "Ukraine" holds no keyword, so it passes through. */
  lemma TopicKeepsUkraine()
    ensures TopicCutter(TopicLabel(0)) == TopicLabel(0)
  {
    var letters := {'U', 'a', 'e', 'i', 'k', 'n', 'r'};
    assert Within(Ukraine, letters);
    ArmsExcluded(Ukraine, letters, [0, 0, 0, 0, 0, 0, 0, 2, 0, 0, 0]);
    TopicFromNone(Ukraine, 0);
  }

  /** "Palestine" holds no keyword, so it passes through. */
  lemma TopicKeepsPalestine()
    ensures TopicCutter(TopicLabel(1)) == TopicLabel(1)
  {
    var letters := {'P', 'a', 'e', 'i', 'l', 'n', 's', 't'};
    assert Within(Palestine, letters);
    ArmsExcluded(Palestine, letters, [0, -1, 0, 0, 0, 0, 0, 4, 0, 0, 0]);
    TopicFromNone(Palestine, 0);
  }

  /** "Syria" holds its own keyword and no earlier one. */
  lemma TopicKeepsSyria()
    ensures TopicCutter(TopicLabel(2)) == TopicLabel(2)
  {
    var letters := {'S', 'a', 'i', 'r', 'y'};
    assert Within(SyriaKey, letters);
    ArmsExcluded(SyriaKey, letters, [0, 0]);
    ContainsWitness(SyriaKey, SyriaKey, 0);
    TopicFromFirst(SyriaKey, 0, 2);
  }

  /** "Middle East" holds its own keyword and no earlier one. */
  lemma TopicKeepsMiddleEast()
    ensures TopicCutter(TopicLabel(3)) == TopicLabel(3)
  {
    var letters := {' ', 'E', 'M', 'a', 'd', 'e', 'i', 'l', 's', 't'};
    assert Within(MiddleEastKey, letters);
    ArmsExcluded(MiddleEastKey, letters, [0, 0, 0]);
    ContainsWitness(MiddleEastKey, MiddleEastKey, 0);
    TopicFromFirst(MiddleEastKey, 0, 3);
  }

  /** "Central America" holds its own keyword and no earlier one. */
  lemma TopicKeepsCentralAmerica()
    ensures TopicCutter(TopicLabel(4)) == TopicLabel(4)
  {
    var letters := {' ', 'A', 'C', 'a', 'c', 'e', 'i', 'l', 'm', 'n', 'r', 't'};
    assert Within(CentralAmericaKey, letters);
    ArmsExcluded(CentralAmericaKey, letters, [0, 0, 0, 0]);
    ContainsWitness(CentralAmericaKey, CentralAmericaKey, 0);
    TopicFromFirst(CentralAmericaKey, 0, 4);
  }

  /** "Bosnia and Herzegovina" holds its own keyword and no earlier one. */
  lemma TopicKeepsBosnia()
    ensures TopicCutter(TopicLabel(5)) == TopicLabel(5)
  {
    var letters := {' ', 'B', 'H', 'a', 'd', 'e', 'g', 'i', 'n', 'o', 'r', 's', 'v', 'z'};
    assert Within(BosniaKey, letters);
    ArmsExcluded(BosniaKey, letters, [0, 0, 0, 0, 0]);
    ContainsWitness(BosniaKey, BosniaKey, 0);
    TopicFromFirst(BosniaKey, 0, 5);
  }

  /** "Venezuela" holds its own keyword and no earlier one. */
  lemma TopicKeepsVenezuela()
    ensures TopicCutter(TopicLabel(6)) == TopicLabel(6)
  {
    var letters := {'V', 'a', 'e', 'l', 'n', 'u', 'z'};
    assert Within(VenezuelaKey, letters);
    ArmsExcluded(VenezuelaKey, letters, [0, 0, 0, 0, 0, 0]);
    ContainsWitness(VenezuelaKey, VenezuelaKey, 0);
    TopicFromFirst(VenezuelaKey, 0, 6);
  }

  /** "International peace" holds no keyword, so it passes through. */
  lemma TopicKeepsPeace()
    ensures TopicCutter(TopicLabel(7)) == TopicLabel(7)
  {
    var letters := {' ', 'I', 'a', 'c', 'e', 'i', 'l', 'n', 'o', 'p', 'r', 't'};
    assert Within(Peace, letters);
    ArmsExcluded(Peace, letters, [0, 0, 0, 0, 0, 0, 0, -1, 3, 0, 0]);
    TopicFromNone(Peace, 0);
  }

  /** "Occupied Arab territories" holds no keyword, so it passes through. */
  lemma TopicKeepsOccupied()
    ensures TopicCutter(TopicLabel(8)) == TopicLabel(8)
  {
    var letters := {' ', 'A', 'O', 'a', 'b', 'c', 'd', 'e', 'i', 'o', 'p', 'r', 's', 't', 'u'};
    assert Within(Occupied, letters);
    ArmsExcluded(Occupied, letters, [0, 0, 0, 0, 0, 0, 0, 1, -1, 0, 0]);
    TopicFromNone(Occupied, 0);
  }

  /** "Yugoslav Republic of Macedonia" holds its own keyword and no earlier one. */
  lemma TopicKeepsMacedonia()
    ensures TopicCutter(TopicLabel(9)) == TopicLabel(9)
  {
    var letters := {' ', 'M', 'R', 'Y', 'a', 'b', 'c', 'd', 'e', 'f', 'g', 'i', 'l', 'n', 'o', 'p', 's', 'u', 'v'};
    assert Within(MacedoniaKey, letters);
    ArmsExcluded(MacedoniaKey, letters, [0, 0, 0, 7, 0, 0, 0, 2, 9]);
    ContainsWitness(MacedoniaKey, MacedoniaKey, 0);
    TopicFromFirst(MacedoniaKey, 0, 9);
  }

  /** "Cyprus" holds its own keyword and no earlier one. */
  lemma TopicKeepsCyprus()
    ensures TopicCutter(TopicLabel(10)) == TopicLabel(10)
  {
    var letters := {'C', 'p', 'r', 's', 'u', 'y'};
    assert Within(CyprusKey, letters);
    ArmsExcluded(CyprusKey, letters, [0, 0, 0, 0, 1, 0, 0, 0, 0, 0]);
    ContainsWitness(CyprusKey, CyprusKey, 0);
    TopicFromFirst(CyprusKey, 0, 10);
  }

  /** Every label is left alone by `topic_cutter`. */
  lemma TopicLabelsFixed(arm: nat)
    requires arm < TopicArms
    ensures TopicCutter(TopicLabel(arm)) == TopicLabel(arm)
  {
    if arm == 0 {
      TopicKeepsUkraine();
    } else if arm == 1 {
      TopicKeepsPalestine();
    } else if arm == 2 {
      TopicKeepsSyria();
    } else if arm == 3 {
      TopicKeepsMiddleEast();
    } else if arm == 4 {
      TopicKeepsCentralAmerica();
    } else if arm == 5 {
      TopicKeepsBosnia();
    } else if arm == 6 {
      TopicKeepsVenezuela();
    } else if arm == 7 {
      TopicKeepsPeace();
    } else if arm == 8 {
      TopicKeepsOccupied();
    } else if arm == 9 {
      TopicKeepsMacedonia();
    } else {
      TopicKeepsCyprus();
    }
  }

  /** Shortening a topic twice is shortening it once. */
  lemma TopicCutterIdempotent(topic: string)
    ensures TopicCutter(TopicCutter(topic)) == TopicCutter(topic)
  {
    if TopicCutter(topic) != topic {
      var arm :| 0 <= arm < TopicArms && TopicCutter(topic) == TopicLabel(arm);
      TopicLabelsFixed(arm);
    }
  }

  // ---------------------------------------------------------------------
  // Years

  /** `START_DATE`: rows dated this year or earlier end the table. */
  const StartDate := 1991
  /** How many characters of the date cell make the year (`[-4:]`). */
  const DateWidth := 4

  predicate IsDigit(c: char)
  {
    '0' <= c <= '9'
  }

  predicate AllDigits(s: string)
  {
    forall i :: 0 <= i < |s| ==> IsDigit(s[i])
  }

  function Pow10(n: nat): (p: nat)
    ensures p >= 1
  {
    if n == 0 then 1 else 10 * Pow10(n - 1)
  }

  /** The decimal value of a digit string, most significant digit first. */
  function DigitsValue(s: string): (v: nat)
    requires AllDigits(s)
    ensures v < Pow10(|s|)
  {
    if |s| == 0 then 0
    else DigitsValue(s[..|s| - 1]) * 10 + (s[|s| - 1] as int - '0' as int)
  }

  /** `int(date)` on the year text: a non-empty digit string has its decimal
      value, anything else raises `ValueError`. */
  function ParseYear(s: string): (r: Result<int, Fault>)
    ensures r.Success? <==> |s| > 0 && AllDigits(s)
    ensures r.Success? ==> 0 <= r.value < Pow10(|s|)
    ensures r.Failure? ==> r.error == ValueError
  {
    if |s| > 0 && AllDigits(s) then Success(DigitsValue(s)) else Failure(ValueError)
  }

  function DigitChar(d: nat): (c: char)
    requires d < 10
    ensures IsDigit(c)
  {
    ('0' as int + d) as char
  }

  /** The `width`-digit decimal text of `v`, with leading zeros, most
      significant digit first. */
  function DigitsText(v: nat, width: nat): (s: string)
    ensures |s| == width && AllDigits(s)
  {
    if width == 0 then [] else DigitsText(v / 10, width - 1) + [DigitChar(v % 10)]
  }

  /** The four-digit text of a year. */
  function YearText(year: nat): (s: string)
    requires year < 10000
    ensures |s| == DateWidth && AllDigits(s)
  {
    DigitsText(year, DateWidth)
  }

  /** Reading the digits of a number that fits the width gives the number. */
  lemma {:induction false} ReadDigitsText(v: nat, width: nat)
    requires v < Pow10(width)
    ensures DigitsValue(DigitsText(v, width)) == v
  {
    if width > 0 {
      var s := DigitsText(v, width);
      ReadDigitsText(v / 10, width - 1);
      assert s[..|s| - 1] == DigitsText(v / 10, width - 1);
    }
  }

  /** Writing back the value of a digit string gives the string. */
  lemma {:induction false} DigitsTextOfValue(s: string)
    requires AllDigits(s)
    ensures DigitsText(DigitsValue(s), |s|) == s
  {
    if |s| > 0 {
      var init := s[..|s| - 1];
      DigitsTextOfValue(init);
      var v := DigitsValue(s);
      assert v / 10 == DigitsValue(init);
      assert s == init + [s[|s| - 1]];
    }
  }

  /** Reading a four-digit year back from its text gives the year, and every
      four-digit year text is the text of the year it reads as. */
  lemma YearRoundTrip(year: nat, s: string)
    requires year < 10000
    ensures ParseYear(YearText(year)) == Success(year)
    ensures |s| == DateWidth && ParseYear(s).Success? ==> YearText(ParseYear(s).value) == s
  {
    ReadDigitsText(year, DateWidth);
    if |s| == DateWidth && ParseYear(s).Success? {
      DigitsTextOfValue(s);
    }
  }

  // ---------------------------------------------------------------------
  // Countries

  const China := "China"
  const Russia := "Russian Federation"

  /** The veto cell split into the vetoing members: a cell that mentions
      China and is longer than "China" names the joint China/Russian
      Federation veto; any other cell is one member. */
  function ExpandCountry(cell: string): (countries: seq<string>)
    ensures |countries| == 2 <==> Contains(cell, China) && |cell| > |China|
    ensures |countries| == 2 ==> countries == [China, Russia]
    ensures |countries| != 2 ==> countries == [cell]
  {
    if Contains(cell, China) && |cell| > 5 then [China, Russia] else [cell]
  }

  /** Expanding again changes nothing: each member the expansion names is
      one member on its own. "China" alone is not longer than "China" and
      "Russian Federation" has no "China" in it. */
  lemma ExpandCountryStable(cell: string)
    ensures forall c :: c in ExpandCountry(cell) ==> ExpandCountry(c) == [c]
  {
    NotContainsByChar(Russia, China, 0);
  }

  // ---------------------------------------------------------------------
  // Rows

  /** A row of the veto table, as the text of its cells. */
  datatype TableRow = TableRow(cells: seq<string>)

  /** One output record: one vetoing member on one draft resolution. */
  datatype VetoRecord = VetoRecord(voteDate: string, resolution: string, topic: string, country: string)

  /** What one row does to the loop: end it, or add its records. */
  datatype RowOutcome = Stop | Emit(records: seq<VetoRecord>)

  /** The table rows the loop walks: `find_all("tr")[3:]`. */
  const HeaderRows := 3

  /** The year text of a row: the last four characters of its first cell. */
  function RowDate(row: TableRow): (date: string)
    requires |row.cells| > 0
    ensures |date| <= DateWidth && |date| <= |row.cells[0]|
    ensures row.cells[0] == row.cells[0][..|row.cells[0]| - |date|] + date
  {
    TakeLast(row.cells[0], DateWidth)
  }

  /** `[-4:]` takes exactly four characters, or the whole of a shorter cell. */
  lemma RowDateLength(row: TableRow)
    requires |row.cells| > 0
    ensures |RowDate(row)| == if |row.cells[0]| < DateWidth then |row.cells[0]| else DateWidth
  {
  }

  /** A record whose year reads as later than `START_DATE`. */
  predicate AfterStart(record: VetoRecord)
  {
    ParseYear(record.voteDate).Success? && ParseYear(record.voteDate).value > StartDate
  }

  /** One pass of the loop body: read the year (a missing first cell is an
      `IndexError`, a non-numeric year a `ValueError`), stop at a year of
      1991 or earlier before touching any other cell, and otherwise read the
      resolution, topic and veto cells (a row of fewer than five cells is an
      `IndexError`) and emit one record per vetoing member. */
  function ProcessRow(row: TableRow): (r: Result<RowOutcome, Fault>)
    ensures |row.cells| == 0 ==> r == Failure(IndexError)
    ensures |row.cells| > 0 && ParseYear(RowDate(row)).Failure? ==> r == Failure(ValueError)
    ensures r.Success? && r.value.Stop? <==>
              |row.cells| > 0 && ParseYear(RowDate(row)).Success? && ParseYear(RowDate(row)).value <= StartDate
    ensures r.Success? && r.value.Emit? <==>
              |row.cells| >= 5 && ParseYear(RowDate(row)).Success? && ParseYear(RowDate(row)).value > StartDate
    ensures r.Success? && r.value.Emit? ==>
              var countries := ExpandCountry(row.cells[4]);
              |r.value.records| == |countries| &&
              forall k :: 0 <= k < |countries| ==>
                r.value.records[k] == VetoRecord(RowDate(row), row.cells[1], TopicCutter(row.cells[3]), countries[k])
                && AfterStart(r.value.records[k])
  {
    if |row.cells| == 0 then Failure(IndexError)
    else
      var date := RowDate(row);
      var year :- ParseYear(date);
      if year <= StartDate then Success(Stop)
      else if |row.cells| < 5 then Failure(IndexError)
      else
        var countries := ExpandCountry(row.cells[4]);
        var topic := TopicCutter(row.cells[3]);
        Success(Emit(seq(|countries|, k requires 0 <= k < |countries| =>
                           VetoRecord(date, row.cells[1], topic, countries[k]))))
  }

  /** A row dated after 1991 with fewer than five cells fails on reading a
      missing cell. */
  lemma ShortRowFault(row: TableRow)
    requires 0 < |row.cells| < 5
    requires ParseYear(RowDate(row)).Success? && ParseYear(RowDate(row)).value > StartDate
    ensures ProcessRow(row) == Failure(IndexError)
  {
  }

  predicate Emits(row: TableRow)
  {
    ProcessRow(row).Success? && ProcessRow(row).value.Emit?
  }

  predicate Stops(row: TableRow)
  {
    ProcessRow(row) == Success(Stop)
  }

  /** The loop over the data rows: each row's records in table order, until
      the first stopping row; a fault in any row before it aborts the
      whole call. */
  function Records(rows: seq<TableRow>): (r: Result<seq<VetoRecord>, Fault>)
    ensures r.Success? ==> |r.value| <= 2 * |rows|
    decreases |rows|
  {
    if |rows| == 0 then Success([])
    else
      var outcome :- ProcessRow(rows[0]);
      if outcome.Stop? then Success([])
      else
        var more :- Records(rows[1..]);
        Success(outcome.records + more)
  }

  /** `get_veto_info` on the rows of the fetched table. */
  function GetVetoInfo(table: seq<TableRow>): (r: Result<seq<VetoRecord>, Fault>)
    ensures |table| <= HeaderRows ==> r == Success([])
    ensures |table| > HeaderRows ==> r == Records(table[HeaderRows..])
    ensures r.Success? && |table| > HeaderRows ==> |r.value| <= 2 * (|table| - HeaderRows)
    ensures r.Success? ==> forall k :: 0 <= k < |r.value| ==> AfterStart(r.value[k])
  {
    var rows := if |table| <= HeaderRows then [] else table[HeaderRows..];
    RecordsAfterStart(rows);
    Records(rows)
  }

  /** The first three rows of the table never matter: the loop reads the
      rows after them, and a table of at most three rows gives no records. */
  lemma HeaderRowsSkipped(header: seq<TableRow>, other: seq<TableRow>, rows: seq<TableRow>)
    requires |header| == HeaderRows && |other| == HeaderRows
    ensures GetVetoInfo(header + rows) == Records(rows)
    ensures GetVetoInfo(header + rows) == GetVetoInfo(other + rows)
    ensures |rows| == 0 ==> GetVetoInfo(header) == Success([])
  {
    assert (header + rows)[HeaderRows..] == rows;
    assert (other + rows)[HeaderRows..] == rows;
  }

  /** Every record the loop returns is dated after 1991. */
  lemma {:induction false} RecordsAfterStart(rows: seq<TableRow>)
    ensures Records(rows).Success? ==> forall k :: 0 <= k < |Records(rows).value| ==> AfterStart(Records(rows).value[k])
    decreases |rows|
  {
    if |rows| > 0 && Emits(rows[0]) {
      RecordsAfterStart(rows[1..]);
      var head := ProcessRow(rows[0]).value.records;
      if Records(rows).Success? {
        var more := Records(rows[1..]).value;
        assert Records(rows).value == head + more;
        forall k | 0 <= k < |head + more|
          ensures AfterStart((head + more)[k])
        {
          if k >= |head| {
            assert (head + more)[k] == more[k - |head|];
          }
        }
      }
    }
  }

  /** Nothing after a stopping row is read: whatever follows it, the result
      is that of the rows before it. */
  lemma {:induction false} StopIgnoresRest(before: seq<TableRow>, row: TableRow, rest: seq<TableRow>)
    requires Stops(row)
    ensures Records(before + [row] + rest) == Records(before)
    decreases |before|
  {
    if |before| == 0 {
      assert before + [row] + rest == [row] + rest;
    } else {
      assert (before + [row] + rest)[0] == before[0];
      assert (before + [row] + rest)[1..] == before[1..] + [row] + rest;
      StopIgnoresRest(before[1..], row, rest);
    }
  }

  /** How many rows from the front emit records: the loop's reach before
      it stops or fails. */
  function EmittingPrefix(rows: seq<TableRow>): (n: nat)
    ensures n <= |rows|
    ensures forall i :: 0 <= i < n ==> Emits(rows[i])
    ensures n < |rows| ==> !Emits(rows[n])
    decreases |rows|
  {
    if |rows| == 0 || !Emits(rows[0]) then 0
    else
      assert forall i :: 0 <= i < |rows| - 1 ==> rows[1..][i] == rows[i + 1];
      1 + EmittingPrefix(rows[1..])
  }

  /** The records a row emits; none for a row that does not emit. */
  function RowRecords(row: TableRow): (records: seq<VetoRecord>)
  {
    if Emits(row) then ProcessRow(row).value.records else []
  }

  /** The records of the rows, concatenated in table order. */
  function Emitted(rows: seq<TableRow>): (records: seq<VetoRecord>)
    decreases |rows|
  {
    if |rows| == 0 then [] else RowRecords(rows[0]) + Emitted(rows[1..])
  }

  /** How many members the rows' veto cells name: one or two per row. */
  function Members(rows: seq<TableRow>): (n: nat)
    requires forall i :: 0 <= i < |rows| ==> |rows[i].cells| >= 5
    ensures |rows| <= n <= 2 * |rows|
    decreases |rows|
  {
    if |rows| == 0 then 0 else |ExpandCountry(rows[0].cells[4])| + Members(rows[1..])
  }

  /** One record per member named, in table order. */
  lemma {:induction false} EmittedLength(rows: seq<TableRow>)
    requires forall i :: 0 <= i < |rows| ==> Emits(rows[i])
    ensures forall i :: 0 <= i < |rows| ==> |rows[i].cells| >= 5
    ensures |Emitted(rows)| == Members(rows)
    decreases |rows|
  {
    if |rows| > 0 {
      EmittedLength(rows[1..]);
    }
  }

  /** The loop's result, in terms of the leading run of emitting rows: it
      succeeds exactly when that run reaches the end of the table or a
      stopping row, and then returns the run's records in table order, one
      per member named; otherwise it fails with the fault of the row that
      ends the run. */
  lemma {:induction false} RecordsShape(rows: seq<TableRow>)
    ensures var n := EmittingPrefix(rows);
            Records(rows).Success? <==> n == |rows| || Stops(rows[n])
    ensures var n := EmittingPrefix(rows);
            Records(rows).Success? ==> Records(rows).value == Emitted(rows[..n])
    ensures var n := EmittingPrefix(rows);
            Records(rows).Failure? ==> n < |rows| && ProcessRow(rows[n]) == Failure(Records(rows).error)
    decreases |rows|
  {
    if |rows| == 0 {
    } else if !Emits(rows[0]) {
      assert EmittingPrefix(rows) == 0;
      assert rows[..0] == [];
    } else {
      RecordsShape(rows[1..]);
      ShapedStep(rows);
    }
  }

  /** How `Records` ends, given the length of the emitting prefix: success
      exactly when the prefix runs to the end or is followed by a stopping
      row, with the prefix's records; otherwise the fault of the row after
      the prefix. */
  predicate Shaped(rows: seq<TableRow>)
  {
    var n := EmittingPrefix(rows);
    && (Records(rows).Success? <==> n == |rows| || Stops(rows[n]))
    && (Records(rows).Success? ==> Records(rows).value == Emitted(rows[..n]))
    && (Records(rows).Failure? ==> n < |rows| && ProcessRow(rows[n]) == Failure(Records(rows).error))
  }

  /** An emitting first row adds its records in front and shifts the prefix. */
  lemma ShapedStep(rows: seq<TableRow>)
    requires |rows| > 0 && Emits(rows[0])
    requires Shaped(rows[1..])
    ensures Shaped(rows)
  {
    EmitStep(rows);
    var n := EmittingPrefix(rows);
    if n < |rows| {
      assert rows[1..][n - 1] == rows[n];
    }
    if Records(rows).Success? {
      EmittedStep(rows, n);
    }
  }

  /** The records of a prefix are its first row's records followed by
      those of the rest. */
  lemma EmittedStep(rows: seq<TableRow>, n: nat)
    requires 0 < n <= |rows|
    ensures Emitted(rows[..n]) == RowRecords(rows[0]) + Emitted(rows[1..][..n - 1])
  {
    assert rows[..n][1..] == rows[1..][..n - 1];
  }

  /** One step of the loop past an emitting row. */
  lemma EmitStep(rows: seq<TableRow>)
    requires |rows| > 0 && Emits(rows[0])
    ensures EmittingPrefix(rows) == 1 + EmittingPrefix(rows[1..])
    ensures var first := ProcessRow(rows[0]).value.records;
            var rest := Records(rows[1..]);
            Records(rows) == if rest.Success? then Success(first + rest.value) else Failure(rest.error)
  {
  }

  // ---------------------------------------------------------------------
  // Examples

  const JointVeto := "China, Russian Federation"
  const SyriaDate := "4 October 2011"
  const SyriaDraft := "S/2011/612"
  const SyriaMeeting := "S/PV.6627"
  const SyriaTopic := "The situation in the Middle East (Syria)"
  const SyriaYear := "2011"

  /** Only a cell longer than "China" that mentions China is a joint veto. */
  lemma ExpandCountryExamples()
    ensures ExpandCountry(China) == [China]
    ensures ExpandCountry(Russia) == [Russia]
    ensures ExpandCountry(JointVeto) == [China, Russia]
  {
    ContainsWitness(JointVeto, China, 0);
    NotContainsByChar(Russia, China, 0);
  }

  /** A topic naming both Syria and the Middle East is filed under Syria,
      whose arm comes first. */
  lemma SyriaBeforeMiddleEast()
    ensures TopicCutter(SyriaTopic) == SyriaKey
  {
    var letters := {' ', '(', ')', 'E', 'M', 'S', 'T', 'a', 'd', 'e', 'h', 'i', 'l', 'n', 'o', 'r', 's', 't', 'u', 'y'};
    assert Within(SyriaTopic, letters);
    ArmsExcluded(SyriaTopic, letters, [0, 0]);
    assert SyriaTopic[34..39] == SyriaKey;
    ContainsWitness(SyriaTopic, SyriaKey, 34);
    TopicFromFirst(SyriaTopic, 0, 2);
  }

  const SyriaRow := TableRow([SyriaDate, SyriaDraft, SyriaMeeting, SyriaTopic, JointVeto])

  lemma SyriaRowYear()
    ensures RowDate(SyriaRow) == SyriaYear
    ensures ParseYear(SyriaYear) == Success(2011)
  {
    assert SyriaDate[10..] == SyriaYear;
    YearRoundTrip(2011, SyriaYear);
    assert YearText(2011) == SyriaYear;
  }

  /** The joint veto of 4 October 2011 gives two records, China's first,
      sharing the year, draft and topic. */
  lemma JointVetoRow()
    ensures ProcessRow(SyriaRow)
            == Success(Emit([VetoRecord(SyriaYear, SyriaDraft, SyriaKey, China),
                             VetoRecord(SyriaYear, SyriaDraft, SyriaKey, Russia)]))
  {
    SyriaRowYear();
    ExpandCountryExamples();
    SyriaBeforeMiddleEast();
    var r := ProcessRow(SyriaRow);
    assert r.Success? && r.value.Emit?;
    var expected := [VetoRecord(SyriaYear, SyriaDraft, SyriaKey, China), VetoRecord(SyriaYear, SyriaDraft, SyriaKey, Russia)];
    assert r.value.records[0] == expected[0];
    assert r.value.records[1] == expected[1];
    assert r.value.records == expected;
  }

  /** A row dated 1991 ends the loop even when it has no other cell. */
  lemma EarlyRowStops()
    ensures Stops(TableRow(["31 May 1991"]))
  {
    var row := TableRow(["31 May 1991"]);
    assert RowDate(row) == "1991";
    assert YearText(1991) == "1991";
    YearRoundTrip(1991, "1991");
  }
}

