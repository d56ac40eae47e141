/**
 * Looking up a breeding cat on the LOOF registry by its chip number.
 *
 * The lookup fetches the registry's search form, checks the status of that
 * response and the two hidden form tokens, posts the chip number with the
 * tokens, and turns the texts found on the result page into a
 * `ReproducteurData` record. HTTP and HTML parsing are not modelled: the
 * first response is a `FormPage` value, the registry's answer to the POST is
 * the function `registry`, and the result page is given by the texts of its
 * description, sex and qualification spans and of its title list items.
 */
module Reproducteur {
  import opened Wrappers
  import opened JsText
  import opened LoofTypes
  import opened TitleOrder

  const LoofSearchUrl: string := "https://loof.asso.fr/mon-chat-est-il-enregistre-au-loof"
  const FormContentType: string := "application/x-www-form-urlencoded"
  const NetworkErrorPrefix: string := "Erreur réseau: "
  const TokensNotFound: string := "Tokens formulaire introuvables"

  /** The breeds recognised at the start of a description, in the order they are tried. */
  const KnownRaces: seq<string> :=
    ["Maine Coon", "Norvégien", "Bengal", "Ragdoll", "Sacré de Birmanie", "Chartreux", "Sibérien"]

  /** The response to the GET of the search page: its status and the values of the two hidden inputs (`None` when absent). */
  datatype FormPage = FormPage(status: nat, formBuildId: Option<string>, formId: Option<string>)

  /** The search request: target, content type and form parameters in the order they are appended. */
  datatype FormPost = FormPost(url: string, contentType: string, params: seq<(string, string)>)

  /** The texts the lookup extracts from the result page. */
  datatype ResultPage = ResultPage(description: string, sex: string, qualif: string, items: seq<ListItem>)

  /** `Response.ok`. */
  predicate IsOk(status: nat)
  {
    200 <= status <= 299
  }

  function NetworkError(status: nat): (r: string)
    ensures StartsWith(r, NetworkErrorPrefix) && |r| > |NetworkErrorPrefix|
  {
    NetworkErrorPrefix + NatToString(status)
  }

  /** The network error message ends with the decimal status, which reads back as the status. */
  lemma NetworkErrorCarriesStatus(status: nat)
    ensures StartsWith(NetworkError(status), NetworkErrorPrefix)
    ensures var digits := NetworkError(status)[|NetworkErrorPrefix|..];
      AllDigits(digits) && ParseDecimal(digits) == status
  {
    assert NetworkError(status)[|NetworkErrorPrefix|..] == NatToString(status);
    ParseNatToString(status);
  }

  /** The POST the lookup sends, or `None` when it stops before sending one. */
  function SubmittedPost(puce: string, form: FormPage): (r: Option<FormPost>)
    ensures r.Some? <==> IsOk(form.status) && Truthy(form.formBuildId) && Truthy(form.formId)
    ensures r.Some? ==> r.value.url == LoofSearchUrl && r.value.contentType == FormContentType
    ensures r.Some? ==> r.value.params == [("number", puce), ("op", "Rechercher"),
      ("form_build_id", form.formBuildId.value), ("form_id", form.formId.value)]
  {
    if IsOk(form.status) && Truthy(form.formBuildId) && Truthy(form.formId) then
      Some(FormPost(LoofSearchUrl, FormContentType,
        [("number", puce), ("op", "Rechercher"), ("form_build_id", form.formBuildId.value), ("form_id", form.formId.value)]))
    else None
  }

  // ---------------------------------------------------------------------------
  // Breed and colour
  // ---------------------------------------------------------------------------

  /** `desc.toLowerCase().startsWith(race.toLowerCase())`. */
  predicate HasRacePrefix(desc: string, race: string)
  {
    StartsWith(ToLower(desc), ToLower(race))
  }

  /** The first index, from `k` on, of a known breed that starts the description. */
  function FirstRaceFrom(desc: string, k: nat): (r: Option<nat>)
    requires k <= |KnownRaces|
    decreases |KnownRaces| - k
    ensures r.Some? ==> k <= r.value < |KnownRaces| && HasRacePrefix(desc, KnownRaces[r.value])
    ensures r.Some? ==> forall j :: k <= j < r.value ==> !HasRacePrefix(desc, KnownRaces[j])
    ensures r.None? ==> forall j :: k <= j < |KnownRaces| ==> !HasRacePrefix(desc, KnownRaces[j])
  {
    if k == |KnownRaces| then None
    else if HasRacePrefix(desc, KnownRaces[k]) then Some(k)
    else FirstRaceFrom(desc, k + 1)
  }

  /** `descText.split(' ')[0]`: the text before the first space, or all of it. */
  function FirstWord(s: string): (w: string)
    ensures |w| <= |s| && w == s[..|w|]
    ensures forall i :: 0 <= i < |w| ==> w[i] != ' '
    ensures |w| < |s| ==> s[|w|] == ' '
  {
    if s == [] || s[0] == ' ' then [] else [s[0]] + FirstWord(s[1..])
  }

  /** `FirstWord` is determined by the position of the first space. */
  lemma {:induction false} FirstWordBeforeSpace(s: string, n: nat)
    requires n <= |s| && (n == |s| || s[n] == ' ')
    requires forall i :: 0 <= i < n ==> s[i] != ' '
    ensures FirstWord(s) == s[..n]
  {
    if n > 0 {
      FirstWordBeforeSpace(s[1..], n - 1);
      assert [s[0]] + s[1..][..n - 1] == s[..n];
    }
  }

  /**
   * `race` for a trimmed description: the first known breed in list order
   * that starts it case-insensitively, in its canonical spelling; otherwise
   * the first word. Absent for an empty description.
   */
  function RaceOf(descText: string): (r: Option<string>)
    ensures descText == "" <==> r.None?
    ensures r.Some? && FirstRaceFrom(descText, 0).Some? ==>
      exists k :: 0 <= k < |KnownRaces| && r.value == KnownRaces[k] && HasRacePrefix(descText, KnownRaces[k])
        && forall j :: 0 <= j < k ==> !HasRacePrefix(descText, KnownRaces[j])
    ensures r.Some? && FirstRaceFrom(descText, 0).None? ==> r.value == FirstWord(descText)
  {
    if descText == "" then None
    else match FirstRaceFrom(descText, 0)
      case Some(k) => Some(KnownRaces[k])
      case None => Some(FirstWord(descText))
  }

  /**
   * `couleur` for a trimmed description: what follows the recognised breed,
   * trimmed; when no known breed matches, the whole description. Absent for
   * an empty description.
   */
  function CouleurOf(descText: string): (r: Option<string>)
    ensures descText == "" <==> r.None?
    ensures r.Some? && FirstRaceFrom(descText, 0).Some? ==>
      var race := KnownRaces[FirstRaceFrom(descText, 0).value];
      |race| <= |descText| && r.value == Trim(descText[|race|..])
    ensures r.Some? && FirstRaceFrom(descText, 0).None? ==> r.value == descText
  {
    if descText == "" then None
    else match FirstRaceFrom(descText, 0)
      case Some(k) => Some(Trim(descText[|KnownRaces[k]|..]))
      case None => Some(descText)
  }

  /** A recognised breed is the description's own first characters, up to case, and the trimmed rest is the colour. */
  lemma KnownRaceSplitsDescription(descText: string)
    requires FirstRaceFrom(descText, 0).Some?
    ensures var race := KnownRaces[FirstRaceFrom(descText, 0).value];
      |race| <= |descText| && ToLower(descText[..|race|]) == ToLower(race)
      && CouleurOf(descText) == Some(Trim(descText[|race|..]))
  {
    var race := KnownRaces[FirstRaceFrom(descText, 0).value];
    assert ToLower(descText)[..|race|] == ToLower(descText[..|race|]);
    assert race != "" && |race| <= |descText|;
    assert CouleurOf(descText).Some?;
  }

  /** A non-empty description always gives a non-empty `race`. */
  lemma RaceIsNonEmpty(descText: string)
    requires IsTrimmed(descText) && descText != ""
    ensures RaceOf(descText).Some? && RaceOf(descText).value != ""
  {
    if FirstRaceFrom(descText, 0).None? {
      assert FirstWord(descText) != [] by {
        assert descText[0] != ' ';
      }
    }
  }

  // ---------------------------------------------------------------------------
  // Sex and qualification
  // ---------------------------------------------------------------------------

  /** `sexe`: "mâle" or "male" give male, "femelle" gives female, after trimming and lower-casing. */
  function SexeOf(sexRaw: string): (r: Option<Sexe>)
    ensures r == Some(Male) <==> ToLower(Trim(sexRaw)) == "mâle" || ToLower(Trim(sexRaw)) == "male"
    ensures r == Some(Femelle) <==> ToLower(Trim(sexRaw)) == "femelle"
  {
    var sexText := ToLower(Trim(sexRaw));
    if sexText == "mâle" || sexText == "male" then Some(Male)
    else if sexText == "femelle" then Some(Femelle)
    else None
  }

  /** `sqr`: the trimmed qualification text, when there is one. */
  function SqrOf(qualifRaw: string): (r: Option<string>)
    ensures r.Some? <==> Trim(qualifRaw) != ""
    ensures r.Some? ==> r.value == Trim(qualifRaw) && IsTrimmed(r.value)
  {
    var sqrText := Trim(qualifRaw);
    if sqrText != "" then Some(sqrText) else None
  }

  // ---------------------------------------------------------------------------
  // Titles
  // ---------------------------------------------------------------------------

  /**
   * `titres`: the built titles, newest first; absent when no item has a
   * title, so never an empty list.
   */
  function TitresOf(items: seq<ListItem>): (r: Option<seq<Titre>>)
    ensures r.None? <==> NoTitle(items)
    ensures r.Some? ==> r.value != [] && NewestFirst(r.value)
    ensures r.Some? ==> multiset(r.value) == multiset(BuildTitles(items))
    ensures r.Some? ==> forall k :: WithKey(r.value, Rank, k) == WithKey(BuildTitles(items), Rank, k)
  {
    var built := BuildTitles(items);
    BuildTitlesEmpty(items);
    SortByDateSpec(built);
    if |built| > 0 then
      assert |SortByDate(built)| == |built| by { SortDescSpec(built, Rank); }
      Some(SortByDate(built))
    else None
  }

  // ---------------------------------------------------------------------------
  // The lookup
  // ---------------------------------------------------------------------------

  /** The record built from a result page. */
  function ParsePage(puce: string, page: ResultPage): (d: ReproducteurData)
    ensures d.numeroIdentification == puce
    ensures d.race == RaceOf(Trim(page.description)) && d.couleur == CouleurOf(Trim(page.description))
    ensures d.sexe == SexeOf(page.sex) && d.sqr == SqrOf(page.qualif) && d.titres == TitresOf(page.items)
  {
    var descText := Trim(page.description);
    ReproducteurData(puce, RaceOf(descText), CouleurOf(descText), SexeOf(page.sex), SqrOf(page.qualif), TitresOf(page.items))
  }

  /**
   * The result of the lookup: a network error carrying the status of the
   * first response, the missing-tokens error, or (once the POST is sent)
   * always a success, whose record echoes the chip number.
   */
  function Scrape(puce: string, form: FormPage, registry: FormPost -> ResultPage): (r: ScraperResult)
    ensures !IsOk(form.status) ==> r == Failure(NetworkError(form.status))
    ensures IsOk(form.status) && !(Truthy(form.formBuildId) && Truthy(form.formId)) ==> r == Failure(TokensNotFound)
    ensures r.Success? <==> SubmittedPost(puce, form).Some?
    ensures r.Success? ==> r.data.numeroIdentification == puce
    ensures r.Success? ==> r.data == ParsePage(puce, registry(SubmittedPost(puce, form).value))
  {
    if !IsOk(form.status) then Failure(NetworkError(form.status))
    else if !Truthy(form.formBuildId) || !Truthy(form.formId) then Failure(TokensNotFound)
    else Success(ParsePage(puce, registry(SubmittedPost(puce, form).value)))
  }

  /** A success carries a `race` exactly when the page has a non-empty description, and that `race` is never empty. */
  lemma RacePresentIffDescribed(puce: string, form: FormPage, registry: FormPost -> ResultPage)
    requires Scrape(puce, form, registry).Success?
    ensures var d := Scrape(puce, form, registry).data;
      (d.race.Some? <==> Trim(registry(SubmittedPost(puce, form).value).description) != "")
      && (d.race.Some? ==> d.race.value != "")
  {
    var descText := Trim(registry(SubmittedPost(puce, form).value).description);
    if descText != "" {
      RaceIsNonEmpty(descText);
    }
  }

  /** The `for ... of knownRaces` loop: the first known breed starting the description, or `""`. */
  method MatchKnownRace(descText: string) returns (raceFound: string)
    ensures raceFound == match FirstRaceFrom(descText, 0) case Some(k) => KnownRaces[k] case None => ""
    ensures raceFound != "" ==> |raceFound| <= |descText|
  {
    raceFound := "";
    for k := 0 to |KnownRaces|
      invariant raceFound == ""
      invariant FirstRaceFrom(descText, 0) == FirstRaceFrom(descText, k)
    {
      if StartsWith(ToLower(descText), ToLower(KnownRaces[k])) {
        raceFound := KnownRaces[k];
        break;
      }
    }
  }

  /** `race` and `couleur` for a non-empty trimmed description. */
  method RaceAndCouleur(descText: string) returns (race: string, couleur: string)
    requires descText != ""
    ensures Some(race) == RaceOf(descText) && Some(couleur) == CouleurOf(descText)
  {
    var raceFound := MatchKnownRace(descText);
    race := if raceFound != "" then raceFound else FirstWord(descText);
    couleur := if raceFound != "" then Trim(descText[|raceFound|..]) else descText;
  }

  /** The `.each` callback for one list item: its title, when the item has a non-empty one. */
  method ItemTitle(item: ListItem) returns (t: Option<Titre>)
    ensures t == BuildTitle(item)
  {
    var titre := Trim(item.titleText);
    var dateObtention := DateObtention(item.itemText);
    if titre == "" {
      return None;
    }
    var year := if dateObtention != "" then Year(dateObtention) else "";
    var titreFormate := if year != "" then titre + " (" + year + ")" else titre;
    t := Some(Titre(titreFormate, Federation, dateObtention));
  }

  /** The `.each` loop over the list items: one `push` per item with a non-empty title. */
  method CollectTitres(items: seq<ListItem>) returns (titres: seq<Titre>)
    ensures titres == BuildTitles(items)
  {
    titres := [];
    for k := 0 to |items|
      invariant titres == BuildTitles(items[..k])
    {
      var t := ItemTitle(items[k]);
      if t.Some? {
        titres := titres + [t.value];
      }
      assert items[..k + 1][..k] == items[..k];
    }
    assert items[..|items|] == items;
  }

  /** The titles of the list items, sorted in place newest first, or `None` when there are none. */
  method Titres(items: seq<ListItem>) returns (titres: Option<seq<Titre>>)
    ensures titres == TitresOf(items)
  {
    var built := CollectTitres(items);
    if |built| > 0 {
      var sorted := new Titre[|built|](i requires 0 <= i < |built| => built[i]);
      assert sorted[..] == built;
      SortInPlace(sorted, Rank);
      titres := Some(sorted[..]);
    } else {
      titres := None;
    }
  }

  /**
   * Step 3 of the lookup: the fields of `data` are filled one after the
   * other from the result page; the breed comes from a loop that stops at the
   * first match and the titles from a loop that appends, then they are
   * sorted in place.
   */
  method ParseResultPage(puce: string, page: ResultPage) returns (data: ReproducteurData)
    ensures data == ParsePage(puce, page)
  {
    data := Bare(puce);

    var descText := Trim(page.description);
    if descText != "" {
      var race, couleur := RaceAndCouleur(descText);
      data := data.(race := Some(race));
      data := data.(couleur := Some(couleur));
    }

    var sexText := ToLower(Trim(page.sex));
    if sexText == "mâle" || sexText == "male" {
      data := data.(sexe := Some(Male));
    } else if sexText == "femelle" {
      data := data.(sexe := Some(Femelle));
    }

    var sqrText := Trim(page.qualif);
    if sqrText != "" {
      data := data.(sqr := Some(sqrText));
    }

    var titres := Titres(page.items);
    if titres.Some? {
      data := data.(titres := titres);
    }
  }

  /**
   * `scrapeReproducteurByChip`: the status and token gate, the POST, then
   * the parsing of the page the registry answers with.
   */
  method ScrapeReproducteurByChip(puce: string, form: FormPage, registry: FormPost -> ResultPage)
    returns (post: Option<FormPost>, result: ScraperResult)
    ensures post == SubmittedPost(puce, form)
    ensures result == Scrape(puce, form, registry)
  {
    post := None;
    if !IsOk(form.status) {
      result := Failure(NetworkErrorPrefix + NatToString(form.status));
      return;
    }

    var formBuildId := form.formBuildId;
    var formId := form.formId;
    if !Truthy(formBuildId) || !Truthy(formId) {
      result := Failure(TokensNotFound);
      return;
    }

    var params: seq<(string, string)> := [];
    params := params + [("number", puce)];
    params := params + [("op", "Rechercher")];
    params := params + [("form_build_id", formBuildId.value)];
    params := params + [("form_id", formId.value)];
    assert params == [("number", puce), ("op", "Rechercher"), ("form_build_id", formBuildId.value), ("form_id", formId.value)];
    var request := FormPost(LoofSearchUrl, FormContentType, params);
    post := Some(request);
    var page := registry(request);

    var data := ParseResultPage(puce, page);
    result := Success(data);
  }
}

module ReproducteurExamples {
  import opened Wrappers
  import opened JsText
  import opened LoofTypes
  import opened Reproducteur

  const MaineCoonColour: string := "Brown mackerel tabby et blanc"
  const MaineCoonDesc: string := "Maine Coon" + " " + MaineCoonColour
  const UnknownWord: string := "Unknown"
  const UnknownDesc: string := UnknownWord + " " + "Something Else"

  lemma MaineCoonIsRecognised()
    ensures FirstRaceFrom(MaineCoonDesc, 0) == Some(0)
  {
    assert ToLower(MaineCoonDesc)[..10] == ToLower("Maine Coon");
  }

  lemma MaineCoonColourTrimmed()
    ensures Trim(MaineCoonDesc[10..]) == MaineCoonColour
  {
    assert MaineCoonDesc[10..] == [' '] + MaineCoonColour;
    assert IsTrimmed(MaineCoonColour);
    TrimAfterSpace(MaineCoonColour);
  }

  /** A known breed is split off the description and the rest, trimmed, is the colour. */
  lemma MaineCoonExample()
    ensures RaceOf(MaineCoonDesc) == Some("Maine Coon")
    ensures CouleurOf(MaineCoonDesc) == Some(MaineCoonColour)
  {
    MaineCoonIsRecognised();
    assert |KnownRaces[0]| == 10;
    MaineCoonColourTrimmed();
  }

  lemma UnknownIsNotRecognised()
    ensures FirstRaceFrom(UnknownDesc, 0).None?
  {
    assert ToLower(UnknownDesc)[0] == 'u';
    forall k | 0 <= k < |KnownRaces| ensures !HasRacePrefix(UnknownDesc, KnownRaces[k]) {
      assert ToLower(KnownRaces[k])[0] != 'u';
    }
  }

  /** Without a known breed, the first word is the breed. */
  lemma UnknownBreedRace()
    ensures RaceOf(UnknownDesc) == Some(UnknownWord)
  {
    UnknownIsNotRecognised();
    assert UnknownDesc[..7] == UnknownWord;
    forall i | 0 <= i < 7 ensures UnknownDesc[i] != ' ' {
      assert UnknownDesc[i] == UnknownWord[i];
    }
    FirstWordBeforeSpace(UnknownDesc, 7);
  }

  /** Without a known breed, the whole description is the colour. */
  lemma UnknownBreedColour()
    ensures CouleurOf(UnknownDesc) == Some(UnknownDesc)
  {
    UnknownIsNotRecognised();
  }

  /** Upper-case initials and the circumflex are accepted. */
  lemma SexeAccentedExample()
    ensures SexeOf("Mâle") == Some(Male)
  {
    TrimmedIsFixed("Mâle");
    assert ToLower("Mâle") == "mâle";
  }

  lemma SexeMaleExample()
    ensures SexeOf("male") == Some(Male)
  {
    TrimmedIsFixed("male");
    assert ToLower("male") == "male";
  }

  lemma SexeFemelleExample()
    ensures SexeOf("Femelle") == Some(Femelle)
  {
    var text := "Femelle";
    TrimmedIsFixed(text);
    assert ToLower(text) == "femelle";
    assert |"mâle"| == 4 && |"male"| == 4;
  }

  /** A text that is neither spelling of either sex gives no sex. */
  lemma SexeOtherExample()
    ensures SexeOf("inconnu") == None
  {
    var text := "inconnu";
    TrimmedIsFixed(text);
    var low := ToLower(text);
    assert |low| == 7 && low[0] == 'i';
    assert |"mâle"| == 4 && |"male"| == 4 && "femelle"[0] == 'f';
  }
}
