/**
 * The breeding-cat collection: its `sexe` options, and the `nomComplet`
 * hook, which recomputes the display name from the cat's `nom` and its
 * affix (the cattery name) before every save. The affix lookup by id is a
 * function given to the hook.
 */
module Reproducteurs {
  import opened Wrappers
  import opened LoofTypes

  /** The `sexe` select options of the collection, by value. */
  const SexeOptions: seq<string> := ["male", "femelle"]

  /** The position an affix gets when created without one. */
  const DefaultPosition: string := "suffix"
  const PrefixPosition: string := "prefix"

  /** An affix record: its (required) name and its position. */
  datatype AffixeDoc = AffixeDoc(nom: string, position: Option<string>)

  /** A new affix record: the position is the default one unless given. */
  function NewAffixe(nom: string, position: Option<string>): (doc: AffixeDoc)
    ensures doc.nom == nom && doc.position.Some?
    ensures position.Some? ==> doc.position == position
    ensures position.None? ==> doc.position == Some(DefaultPosition)
  {
    AffixeDoc(nom, Some(position.GetOr(DefaultPosition)))
  }

  /** The `affixe` relationship as saved: a bare numeric id, or the populated record with its id. */
  datatype AffixeRef = RawId(id: int) | Populated(id: int, doc: AffixeDoc)

  /** The outcome of looking an affix up by id: found, nothing, or an exception. */
  datatype Lookup = Found(doc: AffixeDoc) | NotFound | Threw

  /** The fields of the saved data the hook reads; `None` is an absent field. */
  datatype CatData = CatData(nom: Option<string>, affixe: Option<AffixeRef>)

  /** Truthiness of the `nom` field. */
  predicate HasNom(data: Option<CatData>)
  {
    data.Some? && data.value.nom.Some? && data.value.nom.value != ""
  }

  /** Truthiness of the `affixe` field: a populated record always, a bare id when it is not 0. */
  predicate HasAffixe(data: Option<CatData>): (b: bool)
    ensures b ==> data.Some? && data.value.affixe.Some?
    ensures data.Some? && data.value.affixe.Some? && data.value.affixe.value.Populated? ==> b
  {
    data.Some? && data.value.affixe.Some?
    && (data.value.affixe.value.Populated? || data.value.affixe.value.id != 0)
  }

  /** The id to look up: the record's id when populated, the bare value otherwise. */
  function AffixeId(r: AffixeRef): (id: int)
    ensures id == r.id
  {
    match r
    case RawId(id) => id
    case Populated(id, _) => id
  }

  /** The name on its own, or `''` when there is none. */
  function PlainNom(data: Option<CatData>): (r: string)
    ensures HasNom(data) ==> r == data.value.nom.value
    ensures !HasNom(data) ==> r == ""
  {
    if data.Some? && data.value.nom.Some? then data.value.nom.value else ""
  }

  /** The name composed with a found affix: before it for a `prefix` affix, after it otherwise. */
  function Compose(nom: string, affixe: AffixeDoc): (r: string)
    ensures affixe.position == Some(PrefixPosition) ==> r == affixe.nom + " " + nom
    ensures affixe.position != Some(PrefixPosition) ==> r == nom + " " + affixe.nom
  {
    if affixe.position == Some(PrefixPosition) then affixe.nom + " " + nom else nom + " " + affixe.nom
  }

  /** The `nomComplet` hook. */
  function NomComplet(data: Option<CatData>, findById: int -> Lookup): (r: string)
    ensures HasNom(data) && HasAffixe(data) && findById(AffixeId(data.value.affixe.value)).Found? ==>
      r == Compose(data.value.nom.value, findById(AffixeId(data.value.affixe.value)).doc)
    ensures !(HasNom(data) && HasAffixe(data) && findById(AffixeId(data.value.affixe.value)).Found?) ==>
      r == PlainNom(data)
  {
    if HasNom(data) && HasAffixe(data) then
      match findById(AffixeId(data.value.affixe.value))
      case Found(doc) => Compose(data.value.nom.value, doc)
      case NotFound => PlainNom(data)
      case Threw => PlainNom(data)
    else
      PlainNom(data)
  }

  /** The hook asks the lookup for one id only: lookups that agree on it give the same name. */
  lemma NomCompletReadsOneAffixe(data: Option<CatData>, f: int -> Lookup, g: int -> Lookup)
    requires HasAffixe(data)
    requires f(AffixeId(data.value.affixe.value)) == g(AffixeId(data.value.affixe.value))
    ensures NomComplet(data, f) == NomComplet(data, g)
  {
  }

  /** The composed name holds the cat's name and the affix's name, joined by one space. */
  lemma ComposeHoldsBothNames(nom: string, affixe: AffixeDoc)
    ensures |Compose(nom, affixe)| == |nom| + 1 + |affixe.nom|
    ensures affixe.position == Some(PrefixPosition) ==>
      Compose(nom, affixe)[..|affixe.nom|] == affixe.nom
      && Compose(nom, affixe)[|affixe.nom|] == ' '
      && Compose(nom, affixe)[|affixe.nom| + 1..] == nom
    ensures affixe.position != Some(PrefixPosition) ==>
      Compose(nom, affixe)[..|nom|] == nom
      && Compose(nom, affixe)[|nom|] == ' '
      && Compose(nom, affixe)[|nom| + 1..] == affixe.nom
  {
    var r := Compose(nom, affixe);
    if affixe.position == Some(PrefixPosition) {
      assert r == affixe.nom + ([' '] + nom);
      assert r[..|affixe.nom|] == affixe.nom;
      assert r[|affixe.nom|..] == [' '] + nom;
    } else {
      assert r == nom + ([' '] + affixe.nom);
      assert r[..|nom|] == nom;
      assert r[|nom|..] == [' '] + affixe.nom;
    }
  }

  /** An affix created without a position puts its name after the cat's. */
  lemma DefaultAffixeIsSuffix(nom: string, affixeNom: string)
    ensures Compose(nom, NewAffixe(affixeNom, None)) == nom + " " + affixeNom
  {
  }

  /** The `sexe` options are exactly the values the scraper can produce. */
  lemma SexeOptionsAreScraperValues()
    ensures forall v :: v in SexeOptions <==> SexeFromValue(v).Some?
    ensures forall s: Sexe :: s.Value() in SexeOptions
  {
    forall s: Sexe ensures s.Value() in SexeOptions {
      assert s.Male? ==> s.Value() == SexeOptions[0];
      assert s.Femelle? ==> s.Value() == SexeOptions[1];
    }
  }
}
