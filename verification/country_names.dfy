/** Rebuilding and normalising the country names read from a resolution's
    vote block (UN_parse.py, `transform_country_name` and `country_rename`). */
module CountryNames {
  import opened Strings

  /** How many leading characters of a token keep their case: two when the
      token opens with a parenthesis (`"(ISLAMIC"` keeps `"(I"`), else one. */
  function KeptLength(name: string): (k: nat)
    requires |name| > 0
    ensures 1 <= k <= |name|
  {
    if name[0] == '(' && |name| >= 2 then 2 else 1
  }

  /** Case-folds one token: `name[:2] + name[2:].lower()` for a token that
      opens with `(`, else `name[0] + name[1:].lower()`. */
  function TransformToken(name: string): (r: string)
    requires |name| > 0
    ensures |r| == |name|
    ensures r[..KeptLength(name)] == name[..KeptLength(name)]
    ensures forall i :: KeptLength(name) <= i < |name| ==> r[i] == LowerChar(name[i])
  {
    if name[0] == '(' then
      var cut := if |name| < 2 then |name| else 2;
      name[..cut] + Lower(name[cut..])
    else
      name[..1] + Lower(name[1..])
  }

  /** `transform_country_name`: folds every token of the list, in order. The
      tokens are non-empty because the caller drops empty ones first. */
  function TransformCountryName(names: seq<string>): (r: seq<string>)
    requires forall k :: 0 <= k < |names| ==> |names[k]| > 0
    ensures |r| == |names|
    ensures forall k :: 0 <= k < |names| ==> r[k] == TransformToken(names[k])
  {
    seq(|names|, k requires 0 <= k < |names| => TransformToken(names[k]))
  }

  /** Folding a token keeps its length and its leading character (two when it
      opens with `(`), and turns every later character into lower case. */
  lemma TransformTokenShape(name: string)
    requires |name| > 0
    ensures |TransformToken(name)| == |name|
    ensures TransformToken(name)[0] == name[0]
    ensures name[0] == '(' && |name| >= 2 ==> TransformToken(name)[..2] == name[..2]
    ensures forall i :: KeptLength(name) <= i < |name| ==> !IsUpper(TransformToken(name)[i])
    ensures forall i :: KeptLength(name) <= i < |name| && !IsUpper(name[i]) ==> TransformToken(name)[i] == name[i]
  {
    var k := KeptLength(name);
    assert TransformToken(name)[..k][0] == name[..k][0];
  }

  /** Folding a token twice is folding it once. */
  lemma TransformTokenIdempotent(name: string)
    requires |name| > 0
    ensures |TransformToken(name)| > 0
    ensures TransformToken(TransformToken(name)) == TransformToken(name)
  {
    var r := TransformToken(name);
    var k := KeptLength(name);
    TransformTokenShape(name);
    assert r[..k][0] == name[..k][0];
    assert k == 2 ==> r[..k][1] == name[..k][1];
    assert KeptLength(r) == k;
    var rr := TransformToken(r);
    assert rr[..k] == r[..k];
    forall i | 0 <= i < |r|
      ensures rr[i] == r[i]
    {
      if i < k {
        assert rr[i] == rr[..k][i] && r[i] == r[..k][i];
      }
    }
  }

  /** `transform_country_name` keeps the list length and every token's length,
      and is idempotent. */
  lemma {:induction false} TransformCountryNameIdempotent(names: seq<string>)
    requires forall k :: 0 <= k < |names| ==> |names[k]| > 0
    ensures forall k :: 0 <= k < |names| ==> |TransformCountryName(names)[k]| == |names[k]|
    ensures TransformCountryName(TransformCountryName(names)) == TransformCountryName(names)
  {
    var r := TransformCountryName(names);
    forall k | 0 <= k < |names|
      ensures TransformToken(r[k]) == r[k]
    {
      TransformTokenIdempotent(names[k]);
    }
  }

  // The tests of the cascade, in the source's spelling.
  const IranKey := "Iran"
  const SouthKoreaKey := "Republic Of Korea"
  const NorthKoreaKey := "Democratic People's Republic Of Korea"
  const BosniaKey := "Bosnia"
  const MoldovaKey := "Moldova"
  const CongoKey := "Democratic Republic Of The Congo"
  const TanzaniaKey := "United Republic Of Tanzania"
  const IvoryCoastKey := "Cote D'ivoire"
  const AntiguaKey := "Antigua And Barbuda"
  const TrinidadKey := "Trinidad And Tobago"
  const GuineaBissauKey := "Guinea-bissau"
  const CzechKey := "Czechia"

  // The canonical names it produces.
  const IranName := "Iran"
  const SouthKorea := "South Korea"
  const NorthKorea := "North Korea"
  const Bosnia := "Bosnia and Herzegovina"
  const Moldova := "Republic of Moldova"
  const Congo := "Democratic Republic of the Congo"
  const Tanzania := "United Republic of Tanzania"
  const IvoryCoast := "Ivory Coast"
  const Antigua := "Antigua and Barbuda"
  const Trinidad := "Trinidad and Tobago"
  const GuineaBissau := "Guinea-Bissau"
  const Czech := "Czech Republic"

  /** The number of arms of `country_rename`'s cascade. */
  const RenameArms := 12

  /** The test of arm `arm` of the cascade, in source order: substring tests
      for "Iran", "Bosnia" and "Moldova" between exact comparisons. */
  predicate ArmMatches(country: string, arm: nat)
  {
    if arm == 0 then Contains(country, IranKey)
    else if arm == 1 then country == SouthKoreaKey
    else if arm == 2 then country == NorthKoreaKey
    else if arm == 3 then Contains(country, BosniaKey)
    else if arm == 4 then Contains(country, MoldovaKey)
    else if arm == 5 then country == CongoKey
    else if arm == 6 then country == TanzaniaKey
    else if arm == 7 then country == IvoryCoastKey
    else if arm == 8 then country == AntiguaKey
    else if arm == 9 then country == TrinidadKey
    else if arm == 10 then country == GuineaBissauKey
    else if arm == 11 then country == CzechKey
    else false
  }

  /** The canonical name arm `arm` returns. */
  function ArmName(arm: nat): (name: string)
    requires arm < RenameArms
  {
    if arm == 0 then IranName
    else if arm == 1 then SouthKorea
    else if arm == 2 then NorthKorea
    else if arm == 3 then Bosnia
    else if arm == 4 then Moldova
    else if arm == 5 then Congo
    else if arm == 6 then Tanzania
    else if arm == 7 then IvoryCoast
    else if arm == 8 then Antigua
    else if arm == 9 then Trinidad
    else if arm == 10 then GuineaBissau
    else Czech
  }

  /** The cascade from arm `arm` on: the first arm whose test holds decides
      the name; past the last arm the name is returned as it is. */
  function RenameFrom(country: string, arm: nat): (r: string)
    decreases RenameArms - arm
  {
    if arm >= RenameArms then country
    else if ArmMatches(country, arm) then ArmName(arm)
    else RenameFrom(country, arm + 1)
  }

  /** `country_rename`: the name itself or one of the twelve canonical names. */
  function RenameCountry(country: string): (r: string)
    ensures r == country || exists arm | 0 <= arm < RenameArms :: r == ArmName(arm)
  {
    RenameFromOutcome(country, 0);
    RenameFrom(country, 0)
  }

  /** Arm `arm` is the first arm whose test holds. */
  predicate FirstArm(country: string, arm: nat)
  {
    arm < RenameArms && ArmMatches(country, arm) && forall b | 0 <= b < arm :: !ArmMatches(country, b)
  }

  /** No arm's test holds. */
  predicate NoArm(country: string)
  {
    forall b | 0 <= b < RenameArms :: !ArmMatches(country, b)
  }

  /** Past arms that do not hold, the cascade goes on to the first that does. */
  lemma {:induction false} RenameFromFirst(country: string, from: nat, arm: nat)
    requires from <= arm < RenameArms && ArmMatches(country, arm)
    requires forall b | from <= b < arm :: !ArmMatches(country, b)
    ensures RenameFrom(country, from) == ArmName(arm)
    decreases arm - from
  {
    if from < arm {
      RenameFromFirst(country, from + 1, arm);
    }
  }

  /** When no arm from `from` on holds, the name passes through. */
  lemma {:induction false} RenameFromNone(country: string, from: nat)
    requires forall b | from <= b < RenameArms :: !ArmMatches(country, b)
    ensures RenameFrom(country, from) == country
    decreases RenameArms - from
  {
    if from < RenameArms {
      RenameFromNone(country, from + 1);
    }
  }

  /** The cascade is first-match: the first arm whose test holds decides the
      name, and a name no arm's test holds for comes back unchanged. */
  lemma RenameIsFirstMatch(country: string)
    ensures NoArm(country) ==> RenameCountry(country) == country
    ensures forall arm :: FirstArm(country, arm) ==> RenameCountry(country) == ArmName(arm)
  {
    if NoArm(country) {
      RenameFromNone(country, 0);
    }
    forall arm | FirstArm(country, arm)
      ensures RenameCountry(country) == ArmName(arm)
    {
      RenameFromFirst(country, 0, arm);
    }
  }

  /** From any arm on, the cascade keeps the name or returns the name of an
      arm at or after it. */
  lemma {:induction false} RenameFromOutcome(country: string, from: nat)
    ensures RenameFrom(country, from) == country
            || exists arm | from <= arm < RenameArms :: RenameFrom(country, from) == ArmName(arm)
    decreases RenameArms - from
  {
    if from < RenameArms && !ArmMatches(country, from) {
      RenameFromOutcome(country, from + 1);
    }
  }

  /** Any name containing "Iran" becomes "Iran": the first arm is a substring
      test and is tried before every exact comparison. The other two
      substring tests win over every exact comparison too, "Bosnia" before
      "Moldova", since neither exact key tried before them contains them. */
  lemma RenamePriority(country: string)
    ensures Contains(country, IranKey) ==> RenameCountry(country) == IranName
    ensures !Contains(country, IranKey) && Contains(country, BosniaKey) ==> RenameCountry(country) == Bosnia
    ensures !Contains(country, IranKey) && !Contains(country, BosniaKey) && Contains(country, MoldovaKey)
            ==> RenameCountry(country) == Moldova
  {
    SouthKoreaKeyLacksSubstringKeys();
    NorthKoreaKeyLacksSubstringKeys();
    if Contains(country, IranKey) {
      RenameFromFirst(country, 0, 0);
    } else if Contains(country, BosniaKey) {
      RenameFromFirst(country, 0, 3);
    } else if Contains(country, MoldovaKey) {
      RenameFromFirst(country, 0, 4);
    }
  }

  /** "Republic Of Korea" contains neither "Bosnia" nor "Moldova": it has no
      capital B and no capital M. */
  lemma SouthKoreaKeyLacksSubstringKeys()
    ensures !Contains(SouthKoreaKey, BosniaKey) && !Contains(SouthKoreaKey, MoldovaKey)
  {
    var letters := {'R', 'e', 'p', 'u', 'b', 'l', 'i', 'c', ' ', 'O', 'f', 'K', 'o', 'r', 'a'};
    NotContainsByAlphabet(SouthKoreaKey, letters, BosniaKey, 0);
    NotContainsByAlphabet(SouthKoreaKey, letters, MoldovaKey, 0);
  }

  /** "Democratic People's Republic Of Korea" contains neither "Bosnia" nor
      "Moldova" either. */
  lemma NorthKoreaKeyLacksSubstringKeys()
    ensures !Contains(NorthKoreaKey, BosniaKey) && !Contains(NorthKoreaKey, MoldovaKey)
  {
    var letters := {'D', 'e', 'm', 'o', 'c', 'r', 'a', 't', 'i', ' ', 'P', 'p', 'l', '\'', 's', 'R', 'u', 'b', 'O', 'f', 'K'};
    NotContainsByAlphabet(NorthKoreaKey, letters, BosniaKey, 0);
    NotContainsByAlphabet(NorthKoreaKey, letters, MoldovaKey, 0);
  }

  /** A name that no substring key occurs in and that equals no exact key
      comes back unchanged. The substring keys are ruled out through the
      characters of the name: each of "Iran", "Bosnia" and "Moldova" has a
      character (at the given position) that the name lacks. */
  lemma FallsThrough(name: string, alphabet: set<char>, iran: nat, bosnia: nat, moldova: nat)
    requires forall i :: 0 <= i < |name| ==> name[i] in alphabet
    requires iran < |IranKey| && IranKey[iran] !in alphabet
    requires bosnia < |BosniaKey| && BosniaKey[bosnia] !in alphabet
    requires moldova < |MoldovaKey| && MoldovaKey[moldova] !in alphabet
    requires name != SouthKoreaKey && name != NorthKoreaKey && name != CongoKey && name != TanzaniaKey
    requires name != IvoryCoastKey && name != AntiguaKey && name != TrinidadKey && name != GuineaBissauKey
    requires name != CzechKey
    ensures RenameCountry(name) == name
  {
    NotContainsByChar(name, IranKey, iran);
    NotContainsByChar(name, BosniaKey, bosnia);
    NotContainsByChar(name, MoldovaKey, moldova);
    RenameFromNone(name, 0);
  }

  /** The names the substring arms produce are left alone by the cascade. */
  lemma RenameKeepsSubstringOutputs()
    ensures RenameCountry(IranName) == IranName
    ensures RenameCountry(Bosnia) == Bosnia
    ensures RenameCountry(Moldova) == Moldova
  {
    ContainsWitness(IranName, IranKey, 0);
    RenameFromFirst(IranName, 0, 0);
    NotContainsByChar(Bosnia, IranKey, 0);
    ContainsWitness(Bosnia, BosniaKey, 0);
    RenameFromFirst(Bosnia, 0, 3);
    NotContainsByChar(Moldova, IranKey, 0);
    NotContainsByChar(Moldova, BosniaKey, 0);
    ContainsWitness(Moldova, MoldovaKey, 12);
    RenameFromFirst(Moldova, 0, 4);
  }

  /** The Korean names the exact arms produce are left alone by the cascade. */
  lemma RenameKeepsKoreas()
    ensures RenameCountry(SouthKorea) == SouthKorea
    ensures RenameCountry(NorthKorea) == NorthKorea
  {
    FallsThrough(SouthKorea, {' ', 'K', 'S', 'a', 'e', 'h', 'o', 'r', 't', 'u'}, 0, 0, 0);
    FallsThrough(NorthKorea, {' ', 'K', 'N', 'a', 'e', 'h', 'o', 'r', 't'}, 0, 0, 0);
  }

  /** So are "Ivory Coast" and "Czech Republic". */
  lemma RenameKeepsIvoryCoastAndCzech()
    ensures RenameCountry(IvoryCoast) == IvoryCoast
    ensures RenameCountry(Czech) == Czech
  {
    FallsThrough(IvoryCoast, {' ', 'C', 'I', 'a', 'o', 'r', 's', 't', 'v', 'y'}, 3, 0, 0);
    FallsThrough(Czech, {' ', 'C', 'R', 'b', 'c', 'e', 'h', 'i', 'l', 'p', 'u', 'z'}, 0, 0, 0);
  }

  /** The exact arms that only fix capitalisation produce names that differ
      from their key in the case of one letter; these are left alone too. */
  lemma RenameKeepsCongoAndTanzania()
    ensures RenameCountry(Congo) == Congo
    ensures RenameCountry(Tanzania) == Tanzania
  {
    assert Congo[20] != CongoKey[20];
    FallsThrough(Congo, {' ', 'C', 'D', 'R', 'a', 'b', 'c', 'e', 'f', 'g', 'h', 'i', 'l', 'm', 'n', 'o', 'p', 'r', 't', 'u'}, 0, 0, 0);
    assert Tanzania[16] != TanzaniaKey[16];
    FallsThrough(Tanzania, {' ', 'R', 'T', 'U', 'a', 'b', 'c', 'd', 'e', 'f', 'i', 'l', 'n', 'o', 'p', 't', 'u', 'z'}, 0, 0, 0);
  }

  /** The same for the two island states. */
  lemma RenameKeepsAntiguaAndTrinidad()
    ensures RenameCountry(Antigua) == Antigua
    ensures RenameCountry(Trinidad) == Trinidad
  {
    assert Antigua[8] != AntiguaKey[8];
    FallsThrough(Antigua, {' ', 'A', 'B', 'a', 'b', 'd', 'g', 'i', 'n', 'r', 't', 'u'}, 0, 1, 0);
    assert Trinidad[9] != TrinidadKey[9];
    FallsThrough(Trinidad, {' ', 'T', 'a', 'b', 'd', 'g', 'i', 'n', 'o', 'r'}, 0, 0, 0);
  }

  /** And for "Guinea-Bissau". */
  lemma RenameKeepsGuineaBissau()
    ensures RenameCountry(GuineaBissau) == GuineaBissau
  {
    assert GuineaBissau[7] != GuineaBissauKey[7];
    FallsThrough(GuineaBissau, {'-', 'B', 'G', 'a', 'e', 'i', 'n', 's', 'u'}, 0, 1, 0);
  }

  /** Every canonical name is left alone by the cascade. */
  lemma ArmNamesFixed(arm: nat)
    requires arm < RenameArms
    ensures RenameCountry(ArmName(arm)) == ArmName(arm)
  {
    if arm == 0 || arm == 3 || arm == 4 {
      RenameKeepsSubstringOutputs();
    } else if arm == 1 || arm == 2 {
      RenameKeepsKoreas();
    } else if arm == 7 || arm == 11 {
      RenameKeepsIvoryCoastAndCzech();
    } else if arm == 5 || arm == 6 {
      RenameKeepsCongoAndTanzania();
    } else if arm == 8 || arm == 9 {
      RenameKeepsAntiguaAndTrinidad();
    } else {
      RenameKeepsGuineaBissau();
    }
  }

  /** Renaming twice is renaming once: every canonical name the cascade
      produces is left alone by it, and a name no arm touches stays as it is. */
  lemma RenameIdempotent(country: string)
    ensures RenameCountry(RenameCountry(country)) == RenameCountry(country)
  {
    if RenameCountry(country) != country {
      var arm :| 0 <= arm < RenameArms && RenameCountry(country) == ArmName(arm);
      ArmNamesFixed(arm);
    }
  }
}
