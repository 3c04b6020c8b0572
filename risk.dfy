/** The dissolved-oxygen risk classifier and the trend interpretation built on it. */
module Risk {

  datatype Tier = Safe | Caution | Danger | Critical

  /** A classification; its advisory texts and display colour are fixed by the tier. */
  datatype Assessment = Assessment(status: Tier)
  {
    function Message(): string {
      match status
      case Safe => "Optimal oxygen level"
      case Caution => "Oxygen slightly low"
      case Danger => "Oxygen dangerously low"
      case Critical => "Oxygen critically low"
    }

    function Action(): string {
      match status
      case Safe => "Maintain current aeration"
      case Caution => "Increase aeration and monitor closely"
      case Danger => "Add aeration immediately and reduce stocking stressors"
      case Critical => "Activate aerators immediately and consider emergency oxygenation"
    }

    function Color(): string {
      match status
      case Safe => "#00FF00"
      case Caution => "#FFFF00"
      case Danger => "#FFA500"
      case Critical => "#FF0000"
    }
  }

  /** Each band has its own colour, so the colour alone tells the tier. */
  lemma ColorIdentifiesTier(a: Assessment, b: Assessment)
    ensures a.Color() == b.Color() <==> a.status == b.status
  {
    if a.status != b.status {
      assert a.Color()[1] != b.Color()[1] || a.Color()[3] != b.Color()[3];
    }
  }

  /** The tier order used for the monotonicity statement: Critical lowest, Safe highest. */
  function Rank(tier: Tier): nat {
    match tier
    case Critical => 0
    case Danger => 1
    case Caution => 2
    case Safe => 3
  }

  /** assess_koi_risk: the bands are checked in order; every value outside the three inclusive
      bands, including the gaps (3.9, 4.0) and (5.9, 6.0), is CRITICAL. */
  function AssessKoiRisk(y: real): (r: Assessment)
    ensures r.status == Safe <==> y >= 6.0
    ensures r.status == Caution <==> 4.0 <= y <= 5.9
    ensures r.status == Danger <==> 3.0 <= y <= 3.9
    ensures r.status == Critical <==> (y < 3.0 || 3.9 < y < 4.0 || 5.9 < y < 6.0)
  {
    if y >= 6.0 then
      Assessment(Safe)
    else if 4.0 <= y <= 5.9 then
      Assessment(Caution)
    else if 3.0 <= y <= 3.9 then
      Assessment(Danger)
    else
      Assessment(Critical)
  }

  /** A value lies in one of the two gaps left between the bands. */
  predicate InGap(y: real) {
    (3.9 < y < 4.0) || (5.9 < y < 6.0)
  }

  /** Outside the gaps the tier never drops as the oxygen level rises. */
  lemma TierMonotoneOutsideGaps(a: real, b: real)
    requires a <= b && !InGap(a) && !InGap(b)
    ensures Rank(AssessKoiRisk(a).status) <= Rank(AssessKoiRisk(b).status)
  {
  }

  /** The gaps break monotonicity: 5.95 is above 5.9 yet classified lower. */
  lemma GapBreaksMonotonicity()
    ensures AssessKoiRisk(5.9).status == Caution && AssessKoiRisk(5.95).status == Critical
    ensures AssessKoiRisk(3.9).status == Danger && AssessKoiRisk(3.95).status == Critical
  {
  }

  /** The boundary values of the bands. */
  lemma BoundaryValues()
    ensures AssessKoiRisk(6.0).status == Safe && AssessKoiRisk(5.9).status == Caution
    ensures AssessKoiRisk(4.0).status == Caution && AssessKoiRisk(3.9).status == Danger
    ensures AssessKoiRisk(3.0).status == Danger && AssessKoiRisk(2.9).status == Critical
    ensures AssessKoiRisk(-5.0).status == Critical
  {
  }

  datatype Direction = Stable | Rising | Dropping

  datatype Warning = NoWarning | CrossingIntoCaution | CriticalDrop

  /** The numeric and categorical content of the interpretation paragraph. */
  datatype Interpretation = Interpretation(
    direction: Direction,
    change: real,         // |pred_y - current_y|
    horizon: real,        // pred_x - current_x
    currentStatus: Tier,
    futureStatus: Tier,
    warning: Warning)

  function Abs(v: real): (r: real)
    ensures r >= 0.0 && (r == v || r == -v)
  {
    if v < 0.0 then -v else v
  }

  /** generate_interpretation: direction from the change in y, the later "Critical Drop." warning
      overriding the earlier "Crossing into Caution zone.", and both tiers from the classifier. */
  function GenerateInterpretation(currentX: real, currentY: real, predX: real, predY: real): (r: Interpretation)
    ensures r.direction == Stable <==> -0.1 < predY - currentY < 0.1
    ensures r.direction == Rising <==> predY - currentY >= 0.1
    ensures r.direction == Dropping <==> predY - currentY <= -0.1
    ensures r.change >= 0.0 && (r.change == predY - currentY || r.change == currentY - predY)
    ensures r.horizon == predX - currentX
    ensures r.warning == CriticalDrop <==> predY < 3.0
    ensures r.warning == CrossingIntoCaution <==> (currentY > 4.0 && 3.0 <= predY < 4.0)
    ensures r.warning == NoWarning <==> (predY >= 4.0 || (currentY <= 4.0 && predY >= 3.0))
    ensures r.currentStatus == AssessKoiRisk(currentY).status
    ensures r.futureStatus == AssessKoiRisk(predY).status
  {
    var delta := predY - currentY;
    var direction := if Abs(delta) < 0.1 then Stable else if delta > 0.0 then Rising else Dropping;
    var crossing := if currentY > 4.0 && predY < 4.0 then CrossingIntoCaution else NoWarning;
    var warning := if predY < 3.0 then CriticalDrop else crossing;
    Interpretation(direction, Abs(delta), predX - currentX,
                   AssessKoiRisk(currentY).status, AssessKoiRisk(predY).status, warning)
  }

  /** A warning is only raised when the predicted tier is DANGER or CRITICAL, and
      "Critical Drop." only with a CRITICAL prediction. */
  lemma WarningMatchesFutureTier(currentX: real, currentY: real, predX: real, predY: real)
    ensures var r := GenerateInterpretation(currentX, currentY, predX, predY);
      (r.warning != NoWarning ==> r.futureStatus in {Danger, Critical})
      && (r.warning == CriticalDrop ==> r.futureStatus == Critical)
  {
  }
}
