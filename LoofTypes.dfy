/** The record a LOOF lookup produces and the result that wraps it. */
module LoofTypes {
  import opened Wrappers

  /** The two values `sexe` may take. */
  datatype Sexe = Male | Femelle {

    /** The string stored for this sex, as the record and the collection spell it. */
    function Value(): (v: string)
      ensures v == "male" || v == "femelle"
      ensures Male? <==> v == "male"
    {
      match this
      case Male => "male"
      case Femelle => "femelle"
    }
  }

  /** The inverse of `Sexe.Value`: which sex a stored string denotes, if any. */
  function SexeFromValue(v: string): (r: Option<Sexe>)
    ensures r.Some? <==> (v == "male" || v == "femelle")
    ensures r.Some? ==> r.value.Value() == v
  {
    if v == "male" then Some(Male)
    else if v == "femelle" then Some(Femelle)
    else None
  }

  /** `Value` and `SexeFromValue` are inverse: a stored sex string names exactly one sex. */
  lemma SexeValueRoundTrip(s: Sexe)
    ensures SexeFromValue(s.Value()) == Some(s)
  {
  }

  /** One title entry: exactly three strings. */
  datatype Titre = Titre(titre: string, federation: string, dateObtention: string)

  /** A registry record: only the identification number is always present. */
  datatype ReproducteurData = ReproducteurData(
    numeroIdentification: string,
    race: Option<string>,
    couleur: Option<string>,
    sexe: Option<Sexe>,
    sqr: Option<string>,
    titres: Option<seq<Titre>>)

  /** A record holding the identification number and nothing else. */
  function Bare(numero: string): (d: ReproducteurData)
    ensures d.numeroIdentification == numero
    ensures d.race.None? && d.couleur.None? && d.sexe.None? && d.sqr.None? && d.titres.None?
  {
    ReproducteurData(numero, None, None, None, None, None)
  }

  /** A lookup either succeeds with a record or fails with a message, never both. */
  datatype ScraperResult = Success(data: ReproducteurData) | Failure(error: string)
}
