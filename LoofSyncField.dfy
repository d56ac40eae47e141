/**
 * The "Importer" field of the breeding-cat form: it keeps the chip number
 * typed by the user to at most 15 digits, and on a click asks the lookup
 * endpoint for the chip and copies what comes back into the form's fields,
 * leaving a message for the user.
 *
 * The form's shared state is a map from field path to value, the message and
 * the loading flag are fields of the `SyncField` object, and the endpoint is
 * the function `api` from request URL to response.
 */
module LoofSyncField {
  import opened Wrappers
  import opened JsText
  import opened LoofTypes

  const ChipLength: nat := 15
  /** How many titles the form has room for. */
  const TitleSlots: nat := 4
  const SyncEndpoint: string := "/api/loof-sync?puce="

  /** The marks the messages start with; the component colours a message green when it starts with `SuccessMark`. */
  const SuccessMark: string := "✅"
  const ErrorMark: string := "❌"
  const WaitMark: string := "⏳"

  const InvalidFormatMsg: string := ErrorMark + " Format invalide : 15 chiffres requis"
  const ConnectingMsg: string := WaitMark + " Connexion au LOOF..."
  const ApiErrorFallback: string := "Erreur API"
  const UnknownChipMsg: string := ErrorMark + " Puce inconnue au LOOF"
  const ConnectionErrorMsg: string := ErrorMark + " Erreur de connexion"
  const FoundMsg: string := SuccessMark + " Données trouvées ! Enregistrez pour valider."

  const RaceField: string := "race"
  const CouleurField: string := "couleur"
  const SexeField: string := "sexe"
  const SqrField: string := "sqr"

  /** A dispatched field value: `undefined`, `null` or a string. */
  datatype FieldValue = Undefined | Null | Text(s: string)

  /** The parts of the endpoint's JSON body the component reads. */
  datatype ApiBody = ApiBody(success: bool, error: Option<string>, data: Option<ReproducteurData>)

  /** What `fetch` and `res.json()` give: a response with its `ok` flag and body, or an exception. */
  datatype ApiResponse = Response(ok: bool, body: ApiBody) | ConnectionError

  // ---------------------------------------------------------------------------
  // The chip number
  // ---------------------------------------------------------------------------

  /** `(value || '').trim()`. */
  function CleanValue(value: Option<string>): (r: string)
    ensures IsTrimmed(r) && |r| <= |value.GetOr("")|
    ensures exists i: nat :: SurroundedBySpace(value.GetOr(""), i, r)
    ensures value.None? ==> r == ""
  {
    Trim(value.GetOr(""))
  }

  /** `/^\d{15}$/.test(cleanValue)`. */
  predicate IsValid(value: Option<string>): (b: bool)
    ensures b ==> value.Some? && ChipLength <= |value.value|
  {
    |CleanValue(value)| == ChipLength && AllDigits(CleanValue(value))
  }

  /** `s.replace(/[^0-9]/g, '')`: the digits of `s`, in order. */
  function KeepDigits(s: string): (r: string)
    ensures AllDigits(r) && |r| <= |s|
  {
    if s == [] then [] else (if IsDigit(s[0]) then [s[0]] else []) + KeepDigits(s[1..])
  }

  /** Keeping digits distributes over concatenation: nothing is reordered. */
  lemma {:induction false} KeepDigitsConcat(a: string, b: string)
    ensures KeepDigits(a + b) == KeepDigits(a) + KeepDigits(b)
  {
    if a != [] {
      assert (a + b)[1..] == a[1..] + b;
      KeepDigitsConcat(a[1..], b);
    } else {
      assert a + b == b;
    }
  }

  /** A string without digits keeps nothing. */
  lemma {:induction false} KeepDigitsOfNonDigits(s: string)
    requires forall i :: 0 <= i < |s| ==> !IsDigit(s[i])
    ensures KeepDigits(s) == []
  {
    if s != [] {
      KeepDigitsOfNonDigits(s[1..]);
    }
  }

  /** A string of digits keeps all of them. */
  lemma {:induction false} KeepDigitsOfDigits(s: string)
    requires AllDigits(s)
    ensures KeepDigits(s) == s
  {
    if s != [] {
      KeepDigitsOfDigits(s[1..]);
    }
  }

  /** The `onChange` filter: digits only, cut to the first 15 (`.slice(0, 15)`). */
  function FilterChip(input: string): (r: string)
    ensures AllDigits(r) && |r| <= ChipLength && |r| <= |KeepDigits(input)|
    ensures r == KeepDigits(input)[..|r|]
    ensures |r| < ChipLength ==> r == KeepDigits(input)
  {
    var digits := KeepDigits(input);
    if |digits| <= ChipLength then digits else digits[..ChipLength]
  }

  /** Filtering an already filtered value changes nothing. */
  lemma FilterChipIdempotent(input: string)
    ensures FilterChip(FilterChip(input)) == FilterChip(input)
  {
    KeepDigitsOfDigits(FilterChip(input));
  }

  /** A filtered value is a valid chip exactly when it has 15 digits. */
  lemma FilteredValidIffFull(input: string)
    ensures IsValid(Some(FilterChip(input))) <==> |FilterChip(input)| == ChipLength
  {
    DigitsAreTrimmed(FilterChip(input));
  }

  /** A valid chip passes through the filter unchanged once trimmed. */
  lemma ValidChipSurvivesFilter(value: Option<string>)
    requires IsValid(value)
    ensures FilterChip(CleanValue(value)) == CleanValue(value)
  {
    KeepDigitsOfDigits(CleanValue(value));
  }

  /** A value is valid exactly when its trimmed text has 15 characters and the filter leaves it unchanged. */
  lemma ValidIffFilterFixed(value: Option<string>)
    ensures IsValid(value) <==> |CleanValue(value)| == ChipLength && FilterChip(CleanValue(value)) == CleanValue(value)
  {
    if IsValid(value) {
      KeepDigitsOfDigits(CleanValue(value));
    }
  }

  /** The request `handleSync` sends for the chip field's value: none unless the chip is valid. */
  function ChipRequest(value: Option<string>): (r: Option<string>)
    ensures r.Some? <==> IsValid(value)
    ensures r.Some? ==> r.value == SyncEndpoint + CleanValue(value)
  {
    if IsValid(value) then Some(SyncEndpoint + CleanValue(value)) else None
  }

  /** A request is only ever sent for 15 digits, which need no URL escaping. */
  lemma RequestCarriesChip(value: Option<string>)
    requires ChipRequest(value).Some?
    ensures var q := ChipRequest(value).value;
      StartsWith(q, SyncEndpoint) && |q| == |SyncEndpoint| + ChipLength && AllDigits(q[|SyncEndpoint|..])
  {
    var q := ChipRequest(value).value;
    assert q[..|SyncEndpoint|] == SyncEndpoint;
    assert q[|SyncEndpoint|..] == CleanValue(value);
  }

  // ---------------------------------------------------------------------------
  // Applying a lookup result to the form
  // ---------------------------------------------------------------------------

  /** `titre_${k}`. */
  function SlotName(k: nat): string
  {
    "titre_" + NatToString(k)
  }

  lemma SlotNamesDistinct(k: nat, j: nat)
    requires 1 <= k <= TitleSlots && 1 <= j <= TitleSlots && k != j
    ensures SlotName(k) != SlotName(j)
    ensures SlotName(k) != RaceField && SlotName(k) != CouleurField
    ensures SlotName(k) != SexeField && SlotName(k) != SqrField
  {
    assert SlotName(k)[6] == DigitChar(k) && SlotName(j)[6] == DigitChar(j);
    assert SlotName(k)[0] == 't';
  }

  /** The body says success and carries a record with a non-empty `race`. */
  predicate Accepted(body: ApiBody): (b: bool)
    ensures b ==> body.data.Some? && body.data.value.race.Some? && body.data.value.race.value != ""
  {
    body.success && body.data.Some? && Truthy(body.data.value.race)
  }

  /** The form with `race`, `couleur`, `sexe` and `sqr` copied and the four title slots set to `null`. */
  function CopiedAndCleared(fields: map<string, FieldValue>, info: ReproducteurData): (r: map<string, FieldValue>)
    requires info.race.Some?
    ensures RaceField in r && r[RaceField] == Text(info.race.value)
    ensures SexeField in r && (info.sexe.None? <==> r[SexeField] == Undefined)
    ensures forall k :: 1 <= k <= TitleSlots ==> SlotName(k) in r && r[SlotName(k)] == Null
  {
    fields[RaceField := Text(info.race.value)]
          [CouleurField := Text(if Truthy(info.couleur) then info.couleur.value else "")]
          [SexeField := if info.sexe.Some? then Text(info.sexe.value.Value()) else Undefined]
          [SqrField := Text(if Truthy(info.sqr) then info.sqr.value else "")]
          [SlotName(1) := Null][SlotName(2) := Null][SlotName(3) := Null][SlotName(4) := Null]
  }

  /** The first `n` title slots filled from `titres`, one after the other. */
  function WithSlots(fields: map<string, FieldValue>, titres: seq<Titre>, n: nat): (r: map<string, FieldValue>)
    requires n <= |titres|
    ensures (forall j :: 1 <= j <= n ==> SlotName(j) in fields) ==> r.Keys == fields.Keys
  {
    if n == 0 then fields else WithSlots(fields, titres, n - 1)[SlotName(n) := Text(titres[n - 1].titre)]
  }

  function ShownTitles(titres: seq<Titre>): nat
  {
    if |titres| < TitleSlots then |titres| else TitleSlots
  }

  /** The form after an accepted record. */
  function Imported(fields: map<string, FieldValue>, info: ReproducteurData): (r: map<string, FieldValue>)
    requires info.race.Some?
    ensures r.Keys == fields.Keys + {RaceField, CouleurField, SexeField, SqrField}
      + {SlotName(1), SlotName(2), SlotName(3), SlotName(4)}
  {
    var cleared := CopiedAndCleared(fields, info);
    if info.titres.Some? then WithSlots(cleared, info.titres.value, ShownTitles(info.titres.value)) else cleared
  }

  function ManyTitlesMsg(n: nat): string
  {
    SuccessMark + " " + NatToString(n) + " titres trouvés. Les 4 plus récents sont affichés. Vous pouvez éditer les champs pour en ajouter d'autres."
  }

  /** The status line under the field, by kind; `Render` gives its text. */
  datatype Message =
    | NoMessage
    | InvalidFormat
    | Connecting
    | ApiError(detail: string)
    | UnknownChip
    | ConnectionFailed
    | DataFound
    | TitlesFound(count: nat)

  /** The text `setMsg` is given for each kind of message. */
  function Render(m: Message): string
  {
    match m
    case NoMessage => ""
    case InvalidFormat => InvalidFormatMsg
    case Connecting => ConnectingMsg
    case ApiError(detail) => ErrorMark + " " + detail
    case UnknownChip => UnknownChipMsg
    case ConnectionFailed => ConnectionErrorMsg
    case DataFound => FoundMsg
    case TitlesFound(n) => ManyTitlesMsg(n)
  }

  /** Only the initial message renders as `''`; every message the component sets has text. */
  lemma OnlyNoMessageIsBlank(m: Message)
    ensures Render(m) == "" <==> m.NoMessage?
  {
    var r := Render(m);
    if m.DataFound? || m.TitlesFound? {
      assert r[0] == SuccessMark[0];
    } else if m.Connecting? {
      assert r[0] == WaitMark[0];
    } else if !m.NoMessage? {
      assert r[0] == ErrorMark[0];
    }
  }

  /** Exactly the two success messages start with the success mark. */
  lemma SuccessMarkIffFound(m: Message)
    ensures StartsWith(Render(m), SuccessMark) <==> m.DataFound? || m.TitlesFound?
  {
    var r := Render(m);
    if m.DataFound? || m.TitlesFound? {
      assert r[0] == SuccessMark[0];
      assert r[..1] == [r[0]];
    } else if m.Connecting? {
      assert r[0] == WaitMark[0];
    } else if !m.NoMessage? {
      assert r[0] == ErrorMark[0];
    }
  }

  /** The message after an accepted record: the count only when titles had to be left out. */
  function ImportMsg(titres: Option<seq<Titre>>): (m: Message)
    ensures m.TitlesFound? <==> titres.Some? && |titres.value| > TitleSlots
    ensures m.TitlesFound? ==> m.count == |titres.value|
    ensures !m.TitlesFound? ==> m == DataFound
  {
    if titres.Some? && |titres.value| > TitleSlots then TitlesFound(|titres.value|) else DataFound
  }

  datatype SyncOutcome = SyncOutcome(fields: map<string, FieldValue>, msg: Message)

  /**
   * What a response does to the form and the message: the fields change only
   * for an ok response whose body is accepted.
   */
  function Outcome(fields: map<string, FieldValue>, response: ApiResponse): (r: SyncOutcome)
    ensures !(response.Response? && response.ok && Accepted(response.body)) ==> r.fields == fields
    ensures response.ConnectionError? ==> r.msg == ConnectionFailed
    ensures response.Response? && !response.ok ==>
      r.msg == ApiError(if Truthy(response.body.error) then response.body.error.value else ApiErrorFallback)
    ensures response.Response? && response.ok && !Accepted(response.body) ==> r.msg == UnknownChip
    ensures response.Response? && response.ok && Accepted(response.body) ==>
      r == SyncOutcome(Imported(fields, response.body.data.value), ImportMsg(response.body.data.value.titres))
  {
    match response
    case ConnectionError => SyncOutcome(fields, ConnectionFailed)
    case Response(ok, body) =>
      if !ok then SyncOutcome(fields, ApiError(if Truthy(body.error) then body.error.value else ApiErrorFallback))
      else if Accepted(body) then SyncOutcome(Imported(fields, body.data.value), ImportMsg(body.data.value.titres))
      else SyncOutcome(fields, UnknownChip)
  }

  /** Fields other than the slots are not touched by filling slots. */
  lemma {:induction false} WithSlotsElsewhere(fields: map<string, FieldValue>, titres: seq<Titre>, n: nat, key: string)
    requires n <= |titres| && n <= TitleSlots
    requires forall k :: 1 <= k <= TitleSlots ==> key != SlotName(k)
    ensures (key in WithSlots(fields, titres, n)) == (key in fields)
    ensures key in fields ==> WithSlots(fields, titres, n)[key] == fields[key]
  {
    if n > 0 {
      WithSlotsElsewhere(fields, titres, n - 1, key);
    }
  }

  /** After filling `n` slots, slot `k` holds title `k` when `k <= n`, and what it held before otherwise. */
  lemma {:induction false} WithSlotsAt(fields: map<string, FieldValue>, titres: seq<Titre>, n: nat, k: nat)
    requires n <= |titres| && n <= TitleSlots && 1 <= k <= TitleSlots
    requires SlotName(k) in fields
    ensures SlotName(k) in WithSlots(fields, titres, n)
    ensures WithSlots(fields, titres, n)[SlotName(k)] ==
      if k <= n then Text(titres[k - 1].titre) else fields[SlotName(k)]
  {
    if n > 0 {
      WithSlotsAt(fields, titres, n - 1, k);
      if k != n {
        SlotNamesDistinct(k, n);
      }
    }
  }

  /** Slot `k`'s name is none of the four copied fields. */
  lemma SlotIsNotNamedField(k: nat)
    requires 1 <= k <= TitleSlots
    ensures SlotName(k) != RaceField && SlotName(k) != CouleurField
    ensures SlotName(k) != SexeField && SlotName(k) != SqrField
  {
    SlotNamesDistinct(k, if k == 1 then 2 else 1);
  }

  /**
   * An accepted record sets `race` and `sexe` as sent, and `couleur` and
   * `sqr` to their value or `''`.
   */
  lemma ImportedNamedFields(fields: map<string, FieldValue>, info: ReproducteurData)
    requires info.race.Some?
    ensures RaceField in Imported(fields, info) && CouleurField in Imported(fields, info)
    ensures SexeField in Imported(fields, info) && SqrField in Imported(fields, info)
    ensures Imported(fields, info)[RaceField] == Text(info.race.value)
    ensures Imported(fields, info)[CouleurField] == Text(info.couleur.GetOr(""))
    ensures Imported(fields, info)[SexeField] == if info.sexe.Some? then Text(info.sexe.value.Value()) else Undefined
    ensures Imported(fields, info)[SqrField] == Text(info.sqr.GetOr(""))
  {
    SlotIsNotNamedField(1);
    SlotIsNotNamedField(2);
    SlotIsNotNamedField(3);
    SlotIsNotNamedField(4);
    var cleared := CopiedAndCleared(fields, info);
    if info.titres.Some? {
      var n := ShownTitles(info.titres.value);
      WithSlotsElsewhere(cleared, info.titres.value, n, RaceField);
      WithSlotsElsewhere(cleared, info.titres.value, n, CouleurField);
      WithSlotsElsewhere(cleared, info.titres.value, n, SexeField);
      WithSlotsElsewhere(cleared, info.titres.value, n, SqrField);
    }
  }

  /** After an accepted record, slot `k` holds the `k`-th title when there is one, and `null` otherwise. */
  lemma ImportedSlot(fields: map<string, FieldValue>, info: ReproducteurData, k: nat)
    requires info.race.Some? && 1 <= k <= TitleSlots
    ensures SlotName(k) in Imported(fields, info)
    ensures Imported(fields, info)[SlotName(k)] ==
      if info.titres.Some? && k <= |info.titres.value| then Text(info.titres.value[k - 1].titre) else Null
  {
    var cleared := CopiedAndCleared(fields, info);
    if k < 4 { SlotNamesDistinct(k, 4); }
    if k < 3 { SlotNamesDistinct(k, 3); }
    if k < 2 { SlotNamesDistinct(k, 2); }
    assert SlotName(k) in cleared && cleared[SlotName(k)] == Null;
    if info.titres.Some? {
      WithSlotsAt(cleared, info.titres.value, ShownTitles(info.titres.value), k);
    }
  }

  /** An accepted record leaves every field other than the four copied ones and the slots as it was. */
  lemma ImportedElsewhere(fields: map<string, FieldValue>, info: ReproducteurData, key: string)
    requires info.race.Some?
    requires key != RaceField && key != CouleurField && key != SexeField && key != SqrField
    requires forall k :: 1 <= k <= TitleSlots ==> key != SlotName(k)
    ensures key in Imported(fields, info) <==> key in fields
    ensures key in fields ==> Imported(fields, info)[key] == fields[key]
  {
    var cleared := CopiedAndCleared(fields, info);
    assert key != SlotName(1) && key != SlotName(2) && key != SlotName(3) && key != SlotName(4);
    if info.titres.Some? {
      WithSlotsElsewhere(cleared, info.titres.value, ShownTitles(info.titres.value), key);
    }
  }

  /**
   * The message starts with the success mark exactly when the form was
   * filled in; the component colours it green on that mark.
   */
  lemma SuccessMarkIffImported(fields: map<string, FieldValue>, response: ApiResponse)
    ensures StartsWith(Render(Outcome(fields, response).msg), SuccessMark) <==>
      (response.Response? && response.ok && Accepted(response.body))
  {
    SuccessMarkIffFound(Outcome(fields, response).msg);
  }

  // ---------------------------------------------------------------------------
  // The component's state
  // ---------------------------------------------------------------------------

  class SyncField {
    /** The chip number field (`numero_identification`). */
    var value: Option<string>
    /** The rest of the form, by field path. */
    var fields: map<string, FieldValue>
    var loading: bool
    /** The status line, as a kind of message. */
    var msg: Message

    constructor (value0: Option<string>, fields0: map<string, FieldValue>)
      ensures value == value0 && fields == fields0 && !loading && msg == NoMessage
    {
      value := value0;
      fields := fields0;
      loading := false;
      msg := NoMessage;
    }

    /** `onChange`: the typed text, filtered. */
    method OnChange(input: string)
      modifies this
      ensures value == Some(FilterChip(input))
      ensures fields == old(fields) && loading == old(loading) && msg == old(msg)
    {
      var clean := KeepDigits(input);
      if |clean| > ChipLength {
        clean := clean[..ChipLength];
      }
      value := Some(clean);
    }

    /** The part of `handleSync` before the request: the format check, then the loading state. */
    method StartSync() returns (request: Option<string>)
      modifies this
      ensures request == ChipRequest(old(value))
      ensures value == old(value) && fields == old(fields)
      ensures request.None? ==> msg == InvalidFormat && loading == old(loading)
      ensures request.Some? ==> msg == Connecting && loading
    {
      request := ChipRequest(value);
      if request.None? {
        msg := InvalidFormat;
      } else {
        loading := true;
        msg := Connecting;
      }
    }

    /** The dispatches of an accepted record: the four fields, then `null` into each title slot. */
    method CopyRecord(info: ReproducteurData)
      requires info.race.Some?
      modifies this
      ensures fields == CopiedAndCleared(old(fields), info)
      ensures value == old(value) && loading == old(loading) && msg == old(msg)
    {
      var f := fields[RaceField := Text(info.race.value)];
      f := f[CouleurField := Text(if Truthy(info.couleur) then info.couleur.value else "")];
      f := f[SexeField := if info.sexe.Some? then Text(info.sexe.value.Value()) else Undefined];
      f := f[SqrField := Text(if Truthy(info.sqr) then info.sqr.value else "")];
      f := f[SlotName(1) := Null];
      f := f[SlotName(2) := Null];
      f := f[SlotName(3) := Null];
      f := f[SlotName(4) := Null];
      fields := f;
    }

    /** `titres.slice(0, 4).forEach(...)`: title `idx` into slot `idx + 1`. */
    method FillSlots(titres: seq<Titre>)
      modifies this
      ensures fields == WithSlots(old(fields), titres, ShownTitles(titres))
      ensures value == old(value) && loading == old(loading) && msg == old(msg)
    {
      var shown := if |titres| < TitleSlots then |titres| else TitleSlots;
      for idx := 0 to shown
        invariant fields == WithSlots(old(fields), titres, idx)
        invariant value == old(value) && loading == old(loading) && msg == old(msg)
      {
        fields := fields[SlotName(idx + 1) := Text(titres[idx].titre)];
      }
    }

    /** The part of `handleSync` after the response: the dispatches into the form, the message, `finally`. */
    method FinishSync(response: ApiResponse)
      modifies this
      ensures fields == Outcome(old(fields), response).fields
      ensures msg == Outcome(old(fields), response).msg
      ensures value == old(value) && !loading
    {
      match response {
      case ConnectionError =>
        msg := ConnectionFailed;
      case Response(ok, json) =>
        if !ok {
          msg := ApiError(if Truthy(json.error) then json.error.value else ApiErrorFallback);
          loading := false;
          return;
        }
        if Accepted(json) {
          var info := json.data.value;
          CopyRecord(info);
          if info.titres.Some? {
            var titres := info.titres.value;
            FillSlots(titres);
            if |titres| > TitleSlots {
              msg := TitlesFound(|titres|);
            } else {
              msg := DataFound;
            }
          } else {
            msg := DataFound;
          }
        } else {
          msg := UnknownChip;
        }
      }
      loading := false;
    }

    /** `handleSync`: nothing is requested for an invalid chip; otherwise the answer of `api` is applied. */
    method HandleSync(api: string -> ApiResponse) returns (request: Option<string>)
      modifies this
      ensures request == ChipRequest(old(value))
      ensures value == old(value)
      ensures request.None? ==> fields == old(fields) && msg == InvalidFormat && loading == old(loading)
      ensures request.Some? ==>
        fields == Outcome(old(fields), api(request.value)).fields
        && msg == Outcome(old(fields), api(request.value)).msg && !loading
    {
      request := StartSync();
      if request.Some? {
        FinishSync(api(request.value));
      }
    }
  }
}
