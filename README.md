# LOOF breeder lookup: a Dafny model

This project models how the cattery back office imports a breeding cat's
record from the LOOF registry (Livre Officiel des Origines Félines) and how it
names the cat:

- **The scraper** (`scrapeReproducteurByChip`) runs in three steps.
  1. It fetches the registry's search form and reads its two anti-forgery
     tokens.
  2. It posts the chip number (*puce*) with those tokens.
  3. It reads the result page into a `LoofReproducteurData` record. From the
     description it takes a breed (*race*) and a colour (*couleur*). It also
     takes a sex (*sexe*), a qualification (*sqr*), and the titles (*titres*),
     sorted newest first.
- **The record types** are the record and the scraper's result (success with
  data, or failure with a message).
- **The form component** `LoofSyncField` does three things. It filters what is
  typed into the chip field to 15 digits. It checks the format. On a click, it
  copies the looked-up record into the form: four fields and up to four title
  slots. It also shows a status message and a loading flag.
- **The `nomComplet` hook** of the breeding-cat collection builds the display
  name. It puts the affix (cattery name) before or after the cat's name, as
  the affix's position says.

The modules are:

- `Wrappers`: `Option`.
- `JsText`: the parts of the ECMAScript string library the code uses. These
  are `trim`, `toLowerCase`, `startsWith`, `\d` and `\s`, truthiness, and the
  decimal rendering of a number in a template literal.
- `LoofTypes`: the record and result types.
- `TitleOrder`: building titles from list items, the date match, and the
  newest-first order. This includes the in-place array sort and the pure
  stable sort that specifies it.
- `Reproducteur`: the scraper, as pure specification functions (`Scrape`,
  `ParsePage`, ...). Imperative methods are proved equal to them
  (`ScrapeReproducteurByChip`, `MatchKnownRace`, `CollectTitres`, `Titres`).
- `ReproducteurExamples`: worked examples of breed, colour and sex parsing.
- `LoofSyncField`: the chip filter and the validity check, the pure `Outcome`
  of a response, and the class `SyncField`. The status line is held as a kind
  of message (`Message`), and `Render` gives the exact text the component
  shows for it. That class holds the form's
  fields, `loading` and `msg`, and its methods update them as `handleSync`
  does.
- `Reproducteurs`: the `nomComplet` hook and the collection's `sexe` options.

What the model takes as inputs:

- The registry's two pages are inputs. The form page is its HTTP status and
  the two token values. The result page is the text of the description, sex
  and qualification spans and, for each list item, its title span and its
  whole text.
- The POST is an output: its URL, content type and parameter list.
- The answer to the POST is a function `registry` from the POST to the result
  page.
- The endpoint the component calls is a function `api` from the request URL to
  a response.
- The affix lookup by id is a function `findById` from id to found, nothing or
  exception.

## Model

| member | source | states |
|---|---|---|
| LoofTypes.Sexe.Value | backend/src/utils/loof-scraper/types.ts:5 | a sex is stored as `male` or `femelle` and nothing else, and `male` exactly for a male |
| LoofTypes.SexeFromValue | backend/src/utils/loof-scraper/types.ts:5 | exactly `male` and `femelle` name a sex, and the one named gives that string back |
| LoofTypes.SexeValueRoundTrip | backend/src/utils/loof-scraper/types.ts:5 | every sex survives a round trip through its stored string |
| LoofTypes.Bare | backend/src/utils/loof-scraper/types.ts:1-12 | a fresh record has the identification number and no other field |
| JsText.Trim | backend/src/utils/loof-scraper/scrapers/reproducteur.ts:46 | the trimmed text has no leading or trailing white space, and it is a contiguous part of the input with only white space before and after it |
| JsText.TrimIdempotent | backend/src/utils/loof-scraper/scrapers/reproducteur.ts:46 | trimming twice is trimming once |
| JsText.ToLower | backend/src/utils/loof-scraper/scrapers/reproducteur.ts:59 | lowercasing keeps the length and maps each character on its own |
| JsText.NatToString | backend/src/utils/loof-scraper/scrapers/reproducteur.ts:11 | the rendering of a number is a non-empty digit string with no leading zero |
| JsText.ParseNatToString | backend/src/utils/loof-scraper/scrapers/reproducteur.ts:11 | reading the decimal rendering of a number gives the number back |
| JsText.NatToStringInjective | backend/src/utils/loof-scraper/scrapers/reproducteur.ts:11 | different numbers render differently |
| Reproducteur.NetworkError | backend/src/utils/loof-scraper/scrapers/reproducteur.ts:10-12 | the network error message starts with `Erreur réseau: ` and has more after it |
| Reproducteur.NetworkErrorCarriesStatus | backend/src/utils/loof-scraper/scrapers/reproducteur.ts:10-12 | the network error is `Erreur réseau: ` followed by digits that read back as the status |
| Reproducteur.SubmittedPost | backend/src/utils/loof-scraper/scrapers/reproducteur.ts:9-35 | a POST is made exactly when the form page is ok and both tokens are non-empty; it goes to the search URL as a form-encoded body with the four parameters `number`, `op=Rechercher`, `form_build_id` and `form_id`, in that order |
| Reproducteur.FirstRaceFrom | backend/src/utils/loof-scraper/scrapers/reproducteur.ts:48-63 | finds the first known breed, in list order, that the description starts with, case-insensitively; none found means no known breed matches |
| Reproducteur.FirstWord | backend/src/utils/loof-scraper/scrapers/reproducteur.ts:64 | the first word is the prefix up to the first space, or the whole text |
| Reproducteur.FirstWordBeforeSpace | backend/src/utils/loof-scraper/scrapers/reproducteur.ts:64 | a space-free prefix followed by a space or by the end is the first word |
| Reproducteur.RaceOf | backend/src/utils/loof-scraper/scrapers/reproducteur.ts:46-64 | the breed is absent exactly for an empty description; otherwise it is the matched known breed (its own spelling), or else the first word |
| Reproducteur.CouleurOf | backend/src/utils/loof-scraper/scrapers/reproducteur.ts:46-67 | the colour is absent exactly for an empty description; it is the rest after the known breed, trimmed, or else the whole description |
| Reproducteur.KnownRaceSplitsDescription | backend/src/utils/loof-scraper/scrapers/reproducteur.ts:58-67 | with a known breed, the description starts with the breed's text up to case, and the colour is the rest after it, trimmed |
| Reproducteur.RaceIsNonEmpty | backend/src/utils/loof-scraper/scrapers/reproducteur.ts:46-64 | a non-empty trimmed description always yields a non-empty breed |
| Reproducteur.SexeOf | backend/src/utils/loof-scraper/scrapers/reproducteur.ts:71-76 | the sex is male exactly when the trimmed, lowercased text is `mâle` or `male`, female exactly when it is `femelle`, and absent otherwise |
| Reproducteur.SqrOf | backend/src/utils/loof-scraper/scrapers/reproducteur.ts:79-82 | the qualification is present exactly when its trimmed text is non-empty, and then it is that trimmed text |
| Reproducteur.TitresOf | backend/src/utils/loof-scraper/scrapers/reproducteur.ts:85-118 | titles are absent exactly when no item has a title; otherwise they are non-empty, newest first, a permutation of the titles built in page order, and equal dates keep page order |
| Reproducteur.ParsePage | backend/src/utils/loof-scraper/scrapers/reproducteur.ts:41-118 | the record carries the chip number, and each field is the one its span or list gives |
| Reproducteur.Scrape | backend/src/utils/loof-scraper/scrapers/reproducteur.ts:6-121 | a bad status gives the network error, missing tokens give `Tokens formulaire introuvables`, success happens exactly when a POST is made, and the data are the parse of the answer to that POST |
| Reproducteur.RacePresentIffDescribed | backend/src/utils/loof-scraper/scrapers/reproducteur.ts:46-47 | a successful lookup has a breed exactly when the page's description is non-empty after trimming, and that breed is non-empty |
| Reproducteur.MatchKnownRace | backend/src/utils/loof-scraper/scrapers/reproducteur.ts:57-63 | the loop with `break` finds the first matching known breed, or `''` |
| Reproducteur.RaceAndCouleur | backend/src/utils/loof-scraper/scrapers/reproducteur.ts:64-67 | the two fields the method sets are the breed and colour that the description determines |
| Reproducteur.ItemTitle | backend/src/utils/loof-scraper/scrapers/reproducteur.ts:86-107 | the `.each` callback gives exactly the title the item yields |
| Reproducteur.CollectTitres | backend/src/utils/loof-scraper/scrapers/reproducteur.ts:85-108 | the `push` loop builds the titles of the items in page order |
| Reproducteur.Titres | backend/src/utils/loof-scraper/scrapers/reproducteur.ts:85-118 | building the titles and sorting them in place gives the titles of the page |
| Reproducteur.ParseResultPage | backend/src/utils/loof-scraper/scrapers/reproducteur.ts:41-118 | filling the record field by field gives the record of the page |
| Reproducteur.ScrapeReproducteurByChip | backend/src/utils/loof-scraper/scrapers/reproducteur.ts:6-121 | the method sends the POST and returns the result of the lookup |
| ReproducteurExamples.MaineCoonExample | backend/src/utils/loof-scraper/scrapers/reproducteur.ts:48-67 | `Maine Coon Brown mackerel tabby et blanc` gives breed `Maine Coon` and colour `Brown mackerel tabby et blanc` |
| ReproducteurExamples.UnknownBreedRace | backend/src/utils/loof-scraper/scrapers/reproducteur.ts:64 | with no known breed, `Unknown Something Else` gives the breed `Unknown`, its first word |
| ReproducteurExamples.UnknownBreedColour | backend/src/utils/loof-scraper/scrapers/reproducteur.ts:65-67 | with no known breed, the colour is the whole description `Unknown Something Else` |
| ReproducteurExamples.SexeAccentedExample | backend/src/utils/loof-scraper/scrapers/reproducteur.ts:71-73 | `Mâle` reads as male |
| ReproducteurExamples.SexeMaleExample | backend/src/utils/loof-scraper/scrapers/reproducteur.ts:72-73 | `male` reads as male |
| ReproducteurExamples.SexeFemelleExample | backend/src/utils/loof-scraper/scrapers/reproducteur.ts:74-75 | `Femelle` reads as female |
| ReproducteurExamples.SexeOtherExample | backend/src/utils/loof-scraper/scrapers/reproducteur.ts:71-76 | `inconnu`, which is neither spelling of either sex, gives no sex |
| TitleOrder.DateMatchAt | backend/src/utils/loof-scraper/scrapers/reproducteur.ts:94 | a match at a position starts with `Obtenu le` there and yields a `DD-MM-YYYY` date; `DateMatchAtSound` and `DateMatchAtComplete` say which one |
| TitleOrder.SkipSpacesStopsAt | backend/src/utils/loof-scraper/scrapers/reproducteur.ts:94 | `\s*` consumes exactly the white space up to the next other character |
| TitleOrder.DateMatchAtSound | backend/src/utils/loof-scraper/scrapers/reproducteur.ts:94 | a match found at a position is `Obtenu le`, white space, `:`, white space and a date there, and the result is exactly those ten date characters |
| TitleOrder.DateMatchAtComplete | backend/src/utils/loof-scraper/scrapers/reproducteur.ts:94 | wherever that pattern occurs from a position, the match at that position is found and returns its captured date |
| TitleOrder.FirstDateMatch | backend/src/utils/loof-scraper/scrapers/reproducteur.ts:94 | finds the leftmost position where `Obtenu le`, optional spaces, `:`, optional spaces and a `DD-MM-YYYY` date match, or reports that there is none |
| TitleOrder.DateObtention | backend/src/utils/loof-scraper/scrapers/reproducteur.ts:93-95 | the date is `''` or has the `DD-MM-YYYY` shape |
| TitleOrder.DateObtentionIsLeftmostMatch | backend/src/utils/loof-scraper/scrapers/reproducteur.ts:94-95 | the date is `''` exactly when no position matches; otherwise it is the captured date of the leftmost match |
| TitleOrder.Year | backend/src/utils/loof-scraper/scrapers/reproducteur.ts:99 | the year is the four digits after the second dash |
| TitleOrder.BuildTitle | backend/src/utils/loof-scraper/scrapers/reproducteur.ts:90-107 | an item gives a title exactly when its trimmed title text is non-empty; the title has federation `LOOF` and the matched date, and is named `titre (YYYY)` when dated or plain `titre` otherwise |
| TitleOrder.CollectConcat | backend/src/utils/loof-scraper/scrapers/reproducteur.ts:85-108 | collecting distributes over concatenation, so values come out in element order and once per element |
| TitleOrder.CollectLength | backend/src/utils/loof-scraper/scrapers/reproducteur.ts:85-108 | a filtered collection has no more values than there were elements |
| TitleOrder.CollectEmpty | backend/src/utils/loof-scraper/scrapers/reproducteur.ts:85-108 | nothing is collected exactly when no element yields a value |
| TitleOrder.CollectSound | backend/src/utils/loof-scraper/scrapers/reproducteur.ts:85-108 | every collected value is the one some element yields |
| TitleOrder.CollectComplete | backend/src/utils/loof-scraper/scrapers/reproducteur.ts:85-108 | every value an element yields is collected |
| TitleOrder.BuildTitles | backend/src/utils/loof-scraper/scrapers/reproducteur.ts:85-108 | there are no more titles than list items; the lemmas below say which titles they are |
| TitleOrder.BuildTitlesEmpty | backend/src/utils/loof-scraper/scrapers/reproducteur.ts:86-111 | no title is built exactly when no item has a title text |
| TitleOrder.BuildTitlesSound | backend/src/utils/loof-scraper/scrapers/reproducteur.ts:86-108 | every built title comes from some item |
| TitleOrder.BuildTitlesComplete | backend/src/utils/loof-scraper/scrapers/reproducteur.ts:86-108 | every item with a non-empty trimmed title text yields a title, and that title is in the list |
| TitleOrder.BuiltTitlesAreWellFormed | backend/src/utils/loof-scraper/scrapers/reproducteur.ts:102-106 | every built title is a `LOOF` title with an empty or well-shaped date |
| TitleOrder.Rank | backend/src/utils/loof-scraper/scrapers/reproducteur.ts:112-116 | the sort key is -1 exactly for titles without a well-shaped date, and non-negative otherwise |
| TitleOrder.RankIsDateOrder | backend/src/utils/loof-scraper/scrapers/reproducteur.ts:112-116 | between dated titles, comparing keys is comparing dates by year, then month, then day |
| TitleOrder.InsertPos | backend/src/utils/loof-scraper/scrapers/reproducteur.ts:112-116 | the insertion point is after every element whose key is at least the new one's and before every smaller one |
| TitleOrder.InsertKeepsOrder | backend/src/utils/loof-scraper/scrapers/reproducteur.ts:112-116 | inserting into a descending sequence keeps it descending |
| TitleOrder.InsertIsPermutation | backend/src/utils/loof-scraper/scrapers/reproducteur.ts:112-116 | inserting adds exactly the new element |
| TitleOrder.InsertIsStable | backend/src/utils/loof-scraper/scrapers/reproducteur.ts:112-116 | inserting puts the new element after the ones with the same key |
| TitleOrder.InsertAtIsStable | backend/src/utils/loof-scraper/scrapers/reproducteur.ts:112-116 | putting an element in front of elements with smaller keys adds it last among the elements with its key |
| TitleOrder.SortDescSpec | backend/src/utils/loof-scraper/scrapers/reproducteur.ts:112-116 | the sort gives a permutation of the same length, ordered by descending key, with equal keys in their original order |
| TitleOrder.SortByDate | backend/src/utils/loof-scraper/scrapers/reproducteur.ts:110-117 | sorting titles gives a permutation of them, newest first |
| TitleOrder.SortByDateSpec | backend/src/utils/loof-scraper/scrapers/reproducteur.ts:110-117 | sorting titles gives a permutation, newest first, with equal dates in page order |
| TitleOrder.NewestFirstMeansDescendingDates | backend/src/utils/loof-scraper/scrapers/reproducteur.ts:110-116 | in a newest-first list, an earlier dated title is no older than a later one, and undated titles come after all dated ones |
| TitleOrder.InsertInPlace | backend/src/utils/loof-scraper/scrapers/reproducteur.ts:112-116 | shifting one element left into the sorted prefix of the array is the insertion into that prefix, and the rest of the array is unchanged |
| TitleOrder.SortInPlace | backend/src/utils/loof-scraper/scrapers/reproducteur.ts:111-117 | sorting the array in place leaves it holding the stable descending sort of its old contents |
| LoofSyncField.KeepDigits | backend/src/components/LoofSyncField.tsx:93 | removing non-digits leaves only digits, and no more characters than there were |
| LoofSyncField.KeepDigitsOfNonDigits | backend/src/components/LoofSyncField.tsx:93 | a string without digits leaves nothing; with `KeepDigitsConcat` and `KeepDigitsOfDigits` this fixes the result on every input |
| LoofSyncField.KeepDigitsConcat | backend/src/components/LoofSyncField.tsx:93 | removing non-digits distributes over concatenation, so the kept digits stay in their order |
| LoofSyncField.KeepDigitsOfDigits | backend/src/components/LoofSyncField.tsx:93 | a digit string is left as it is |
| LoofSyncField.CleanValue | backend/src/components/LoofSyncField.tsx:14 | the cleaned value is the field's value (`''` when unset) with only its surrounding white space removed |
| LoofSyncField.IsValid | backend/src/components/LoofSyncField.tsx:15 | only a set field with at least 15 characters can be valid |
| LoofSyncField.ValidIffFilterFixed | backend/src/components/LoofSyncField.tsx:14-15 | a value is valid exactly when its trimmed text has 15 characters and the digit filter leaves it unchanged |
| LoofSyncField.FilterChip | backend/src/components/LoofSyncField.tsx:93 | the filtered value is digits only, at most 15 of them, and a prefix of the input's digits; it holds all of them when there are fewer than 15 |
| LoofSyncField.FilterChipIdempotent | backend/src/components/LoofSyncField.tsx:93 | filtering a filtered value changes nothing |
| LoofSyncField.FilteredValidIffFull | backend/src/components/LoofSyncField.tsx:93 | a filtered value is a valid chip exactly when it has 15 digits |
| LoofSyncField.ValidChipSurvivesFilter | backend/src/components/LoofSyncField.tsx:14-15 | a valid chip, trimmed, passes the filter unchanged |
| LoofSyncField.ChipRequest | backend/src/components/LoofSyncField.tsx:14-28 | a request is made exactly for a valid chip, and it is `/api/loof-sync?puce=` followed by the trimmed chip |
| LoofSyncField.RequestCarriesChip | backend/src/components/LoofSyncField.tsx:28 | every request is the endpoint followed by exactly 15 digits, so the query needs no escaping |
| LoofSyncField.SlotNamesDistinct | backend/src/components/LoofSyncField.tsx:48-56 | the four `titre_k` slot names differ from each other and from `race`, `couleur`, `sexe` and `sqr` |
| LoofSyncField.Render | backend/src/components/LoofSyncField.tsx:20-74 | each kind of message has the text the component shows; its properties are `OnlyNoMessageIsBlank` and `SuccessMarkIffFound` |
| LoofSyncField.OnlyNoMessageIsBlank | backend/src/components/LoofSyncField.tsx:11-74 | every message the component sets is non-empty; only the initial message is `''` |
| LoofSyncField.SuccessMarkIffFound | backend/src/components/LoofSyncField.tsx:20-74 | of all the messages the component shows, exactly the two success messages start with `✅` |
| LoofSyncField.Accepted | backend/src/components/LoofSyncField.tsx:38 | an accepted body carries a record with a non-empty `race` |
| LoofSyncField.ImportMsg | backend/src/components/LoofSyncField.tsx:59-68 | the count message exactly when more than four titles came back, carrying their number; the found message otherwise |
| LoofSyncField.Outcome | backend/src/components/LoofSyncField.tsx:27-74 | only an ok response whose body has `success`, data and a non-empty `race` changes the form. The message is the API error when the response is not ok: its `error`, or `Erreur API` when that is empty. It is the unknown-chip message when the response is ok but not accepted, and the connection-error message when the request throws. An accepted body gives the count message when more than four titles came, and the found message otherwise |
| LoofSyncField.CopiedAndCleared | backend/src/components/LoofSyncField.tsx:42-51 | `race` holds the record's breed, `sexe` is undefined exactly when the record has no sex, and the four title slots hold `null` |
| LoofSyncField.WithSlots | backend/src/components/LoofSyncField.tsx:55-57 | filling slots that already exist adds no field to the form |
| LoofSyncField.WithSlotsAt | backend/src/components/LoofSyncField.tsx:55-57 | after filling n slots, slot k holds title k when k <= n and keeps its old value otherwise |
| LoofSyncField.WithSlotsElsewhere | backend/src/components/LoofSyncField.tsx:55-57 | filling slots touches no other field |
| LoofSyncField.Imported | backend/src/components/LoofSyncField.tsx:38-57 | an accepted record adds exactly the fields `race`, `couleur`, `sexe`, `sqr` and `titre_1` to `titre_4` to the form and removes none |
| LoofSyncField.ImportedNamedFields | backend/src/components/LoofSyncField.tsx:42-45 | an accepted record sets `race` and `sexe` as sent, and `couleur` and `sqr` to their value or `''` |
| LoofSyncField.ImportedSlot | backend/src/components/LoofSyncField.tsx:48-57 | after an accepted record, slot k holds the k-th title when there is one and `null` otherwise, even when no titles came back |
| LoofSyncField.ImportedElsewhere | backend/src/components/LoofSyncField.tsx:38-57 | an accepted record leaves every other field as it was |
| LoofSyncField.SuccessMarkIffImported | backend/src/components/LoofSyncField.tsx:59-74 | the message shown after a response starts with the success mark `✅`, which the component colours green, exactly when the record was imported |
| LoofSyncField.SyncField.constructor | backend/src/components/LoofSyncField.tsx:7-11 | the component starts not loading and with an empty message |
| LoofSyncField.SyncField.OnChange | backend/src/components/LoofSyncField.tsx:91-95 | typing stores the filtered value and changes nothing else |
| LoofSyncField.SyncField.StartSync | backend/src/components/LoofSyncField.tsx:17-28 | an invalid chip sets the format message, sends nothing and leaves the loading flag alone. A valid chip sets loading and the connecting message and sends the request for the trimmed chip |
| LoofSyncField.SyncField.CopyRecord | backend/src/components/LoofSyncField.tsx:42-51 | the eight dispatches leave the form as the accepted record's copy with cleared slots |
| LoofSyncField.SyncField.FillSlots | backend/src/components/LoofSyncField.tsx:53-57 | the `forEach` over the first four titles fills slots 1 to min(4, n) in order |
| LoofSyncField.SyncField.FinishSync | backend/src/components/LoofSyncField.tsx:29-77 | the form and message become the `Outcome` of the response, and loading ends on every path |
| LoofSyncField.SyncField.HandleSync | backend/src/components/LoofSyncField.tsx:17-78 | an invalid chip sends no request and touches only the message; otherwise the endpoint's answer to the chip's request is applied and loading ends |
| Reproducteurs.NewAffixe | backend/src/collections/Affixes.ts:36-44 | an affix created without a position gets `suffix`, and a given position is kept |
| Reproducteurs.HasAffixe | backend/src/collections/Reproducteurs.ts:80 | a truthy affix is a set field, and a populated affix record is always truthy |
| Reproducteurs.AffixeId | backend/src/collections/Reproducteurs.ts:81-83 | the id looked up is the reference's id, both when populated and when raw |
| Reproducteurs.PlainNom | backend/src/collections/Reproducteurs.ts:103 | the fallback is the cat's name, or `''` when it has none |
| Reproducteurs.Compose | backend/src/collections/Reproducteurs.ts:93-96 | a `prefix` affix goes before the name, and any other position puts it after, with one space between |
| Reproducteurs.NomComplet | backend/src/collections/Reproducteurs.ts:79-104 | with a name, an affix and a found affix record, the result is the composition; a missing name, a missing affix, a lookup that finds nothing or one that throws gives the fallback |
| Reproducteurs.NomCompletReadsOneAffixe | backend/src/collections/Reproducteurs.ts:81-90 | the hook depends on the lookup only at the affix's own id |
| Reproducteurs.ComposeHoldsBothNames | backend/src/collections/Reproducteurs.ts:93-96 | the composed name is the two names joined by exactly one space, in the affix's order |
| Reproducteurs.DefaultAffixeIsSuffix | backend/src/collections/Reproducteurs.ts:96 | an affix created without a position follows the cat's name |
| Reproducteurs.SexeOptionsAreScraperValues | backend/src/collections/Reproducteurs.ts:31-34 | the collection's sex options are exactly the values the scraper can store |

## Left out

- HTTP and HTML are not modelled. `fetch`, the response bodies and cheerio's
  HTML parsing and CSS selectors belong to other libraries. The two pages enter
  as values holding the extracted texts, and the answer to the POST is the
  function `registry`.
- The URL encoding of the POST body (`URLSearchParams.toString`) is not
  modelled. The POST is its ordered parameter list.
- The generic `catch` of the scraper (reproducteur.ts:122-126) is left out.
  Nothing in the model can throw. In the component, the `catch`
  (LoofSyncField.tsx:72-74) is the `ConnectionError` response.
- `console.log` and `console.error` are not modelled. They are logging only.
- TitleOrder.Rank: titles are compared by an integer key built from the
  `DD-MM-YYYY` digits, not by JavaScript `Date`. The calendar is not checked,
  so `31-02-2020` is ordered as written.
- TitleOrder.SortByDate: a title without a date gets key -1, so undated titles
  come after all dated ones, and titles with equal keys keep page order. In the
  source, such a title's `Date` is `NaN`, and the comparator then returns
  `NaN`. `Array.prototype.sort` treats that as "equal", which makes the
  comparator inconsistent. The source's order for pages with undated titles is
  then up to the engine.
- JsText.ToLower lowercases ASCII and the Latin-1 capitals (U+00C0 to U+00DE,
  except U+00D7) only. This covers every known breed and `Mâle`, but it is not
  Unicode's full case mapping.
- React rendering, styles and the `useField` / `useAllFormFields` /
  `useCallback` plumbing are not modelled. The form is a map from field path
  to value, and `dispatch` is an update of that map.
- The `/api/loof-sync` route (`route.ts`) is not part of this model. Its
  server-side checks and status codes are not modelled. The component's
  endpoint is the function `api`.
- `req.payload.findByID` is not modelled. The affix lookup is the function
  `findById`.
- Reproducteurs.HasAffixe models a bare relationship id as an integer (the
  SQLite adapter's numeric ids). A bare id is truthy when it is not 0.
- The rest of `Reproducteurs.ts` (labels, field schema, uploads), the rest of
  `Affixes.ts` and `payload.config.ts` are configuration. They are not
  modelled.
- Reproducteur.CouleurOf follows the code: with no known breed, the colour is
  the whole description (reproducteur.ts:65-67), not the description without
  its first word.
- Several source steps are split into more than one method in the model. The
  scraper's parsing is in `ParseResultPage`, `RaceAndCouleur`, `ItemTitle` and
  `Titres`, and
  `handleSync`'s response handling is in `FinishSync`, `CopyRecord` and
  `FillSlots`. Each piece is proved against its own specification function.
