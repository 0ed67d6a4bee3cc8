/** The rating tier of a book: a five-way threshold classifier over the
    numeric rating `valoracion`, stored as the label `nivel_valoracion`. */
module Rating {
  import opened Wrappers

  /** The five tiers, lowest first. */
  datatype Tier = Baja | Regular | Buena | MuyBuena | Excelente

  /** Rating a new book receives when none is given. */
  const DefaultRating: real := 5.0

  /** Lower bounds of Regular, Buena, Muy buena and Excelente, ascending.
      A tier of rank n (n > 0) starts at Thresholds[n - 1]; a tier of rank
      n (n < 4) ends, exclusively, at Thresholds[n]. */
  const Thresholds: seq<real> := [5.0, 7.0, 8.5, 9.5]

  /** Every label the classifier can store. */
  const TierLabels: set<string> := {"Baja", "Regular", "Buena", "Muy buena", "Excelente"}

  /** Position of a tier on the scale, Baja = 0 up to Excelente = 4. */
  function Rank(t: Tier): (n: nat)
    ensures n < |Thresholds| + 1
  {
    match t
    case Baja => 0
    case Regular => 1
    case Buena => 2
    case MuyBuena => 3
    case Excelente => 4
  }

  /** The text stored in `nivel_valoracion` for a tier. */
  function Label(t: Tier): (s: string)
    ensures s in TierLabels
  {
    match t
    case Baja => "Baja"
    case Regular => "Regular"
    case Buena => "Buena"
    case MuyBuena => "Muy buena"
    case Excelente => "Excelente"
  }

  /** Reads a stored label back; the inverse of `Label`. */
  function TierOfLabel(s: string): (r: Option<Tier>)
    ensures r.Some? <==> s in TierLabels
    ensures r.Some? ==> Label(r.value) == s
  {
    if s == "Baja" then Some(Baja)
    else if s == "Regular" then Some(Regular)
    else if s == "Buena" then Some(Buena)
    else if s == "Muy buena" then Some(MuyBuena)
    else if s == "Excelente" then Some(Excelente)
    else None
  }

  /** Reference definition of the tiers: the half-open band of ratings a
      tier covers, read off the threshold table. The lowest band has no
      lower end and the highest no upper end: nothing is clamped. */
  ghost predicate InBand(t: Tier, r: real) {
    && (Rank(t) == 0 || Thresholds[Rank(t) - 1] <= r)
    && (Rank(t) == |Thresholds| || r < Thresholds[Rank(t)])
  }

  /** Second reference definition: how many thresholds a rating has reached. */
  function ThresholdsReached(r: real, ts: seq<real>): (n: nat)
    ensures n <= |ts|
  {
    if ts == [] then 0
    else (if ts[0] <= r then 1 else 0) + ThresholdsReached(r, ts[1..])
  }

  /** A missing rating counts as 0 (`valoracion or 0`): the result is 0
      exactly for the falsy ratings, and any other rating is kept. */
  function EffectiveRating(v: Option<real>): (r: real)
    ensures r == 0.0 <==> v.None? || v == Some(0.0)
    ensures v.Some? ==> r == v.value
  {
    v.GetOr(0.0)
  }

  /** The classifier: the first threshold the rating falls below decides. */
  function Classify(r: real): (t: Tier)
    ensures InBand(t, r)
  {
    if r < 5.0 then Baja
    else if r < 7.0 then Regular
    else if r < 8.5 then Buena
    else if r < 9.5 then MuyBuena
    else Excelente
  }

  /** The computed field: the label for a stored, possibly missing rating. */
  function NivelValoracion(v: Option<real>): (s: string)
    ensures s in TierLabels
    ensures TierOfLabel(s) == Some(Classify(EffectiveRating(v)))
  {
    Label(Classify(EffectiveRating(v)))
  }

  /** `Label` is injective, so the stored text identifies the tier. */
  lemma LabelRoundTrip(t: Tier)
    ensures TierOfLabel(Label(t)) == Some(t)
  {
  }

  /** The bands partition the reals: a rating lies in exactly one band,
      and that band's tier is what the classifier returns. */
  lemma ClassifyIsBand(t: Tier, r: real)
    ensures Classify(r) == t <==> InBand(t, r)
  {
  }

  /** The tier's rank is the number of thresholds the rating has reached. */
  lemma RankIsThresholdsReached(r: real)
    ensures Rank(Classify(r)) == ThresholdsReached(r, Thresholds)
  {
    var step := (t: real) => if t <= r then 1 else 0;
    assert [9.5][1..] == [];
    assert ThresholdsReached(r, [9.5]) == step(9.5);
    assert [8.5, 9.5][1..] == [9.5];
    assert ThresholdsReached(r, [8.5, 9.5]) == step(8.5) + step(9.5);
    assert [7.0, 8.5, 9.5][1..] == [8.5, 9.5];
    assert ThresholdsReached(r, [7.0, 8.5, 9.5]) == step(7.0) + step(8.5) + step(9.5);
    assert Thresholds[1..] == [7.0, 8.5, 9.5];
    assert ThresholdsReached(r, Thresholds) == step(5.0) + step(7.0) + step(8.5) + step(9.5);
  }

  /** For any threshold list, a higher rating reaches at least as many. */
  lemma {:induction false} ThresholdsReachedMonotone(r1: real, r2: real, ts: seq<real>)
    requires r1 <= r2
    ensures ThresholdsReached(r1, ts) <= ThresholdsReached(r2, ts)
  {
    if ts != [] {
      ThresholdsReachedMonotone(r1, r2, ts[1..]);
    }
  }

  /** A higher rating never gets a lower tier. */
  lemma ClassifyMonotone(r1: real, r2: real)
    requires r1 <= r2
    ensures Rank(Classify(r1)) <= Rank(Classify(r2))
  {
    RankIsThresholdsReached(r1);
    RankIsThresholdsReached(r2);
    ThresholdsReachedMonotone(r1, r2, Thresholds);
  }

  /** No clamping at the top: any rating from 9.5 up, above 10 included,
      is Excelente. */
  lemma HighRatingIsExcelente(r: real)
    requires r >= 9.5
    ensures Classify(r) == Excelente
    ensures NivelValoracion(Some(r)) == "Excelente"
  {
  }

  /** No clamping at the bottom: any negative rating is Baja. */
  lemma NegativeRatingIsBaja(r: real)
    requires r < 0.0
    ensures NivelValoracion(Some(r)) == "Baja"
  {
  }

  /** A missing rating is treated as 0 and so classifies as Baja. */
  lemma MissingRatingIsBaja()
    ensures EffectiveRating(None) == 0.0
    ensures NivelValoracion(None) == "Baja"
  {
  }

  /** A book left at the default rating is Regular. */
  lemma DefaultRatingIsRegular()
    ensures NivelValoracion(Some(DefaultRating)) == "Regular"
  {
  }

  /** The boundary values on either side of each threshold. */
  lemma BoundaryValues()
    ensures Classify(4.9) == Baja && Classify(5.0) == Regular
    ensures Classify(6.9) == Regular && Classify(7.0) == Buena
    ensures Classify(8.4) == Buena && Classify(8.5) == MuyBuena
    ensures Classify(9.4) == MuyBuena && Classify(9.5) == Excelente
    ensures Classify(10.0) == Excelente && Classify(10.1) == Excelente
  {
  }
}
