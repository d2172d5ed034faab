/**
  The admission rule of the candidate scanner: five pass/fail conditions over a
  market-snapshot row and its technical indicators, of which at least four must
  hold for the row to be admitted, and the moving-average status label that an
  admitted row's candidate carries.
 */
module Filter {

  /** Dynamic P/E ratio of a snapshot row; the data source writes "--" when it is unavailable. */
  datatype PeRatio = Known(value: real) | Unavailable

  /** One row of the market snapshot: code, name, last price, change %, turnover %, P/E, total market cap. */
  datatype StockRow = StockRow(
    code: string,
    name: string,
    price: real,
    changePct: real,
    turnoverRate: real,
    pe: PeRatio,
    marketCap: real)

  /** The technical indicators looked up for one symbol. */
  datatype Technical = Technical(
    ma5: real,
    ma10: real,
    ma20: real,
    biasMa5: real,
    turnoverRate: real,
    volumeRatio: real)

  // Thresholds of the five conditions (floating-point constants taken as exact reals).
  const TrendTolerance: real := 0.99
  const BiasLimit: real := 10.0
  const TurnoverFloor: real := 1.5
  const VolumeRatioFloor: real := 1.2
  const PeCeiling: real := 60.0
  /** 20 * 10^8 yuan, written 20 * 1e8 in the scanner. */
  const MarketCapFloor: real := 2000000000.0
  /** A row is admitted when at least this many conditions hold. */
  const MinConditions: nat := 4

  function Abs(x: real): (r: real)
    ensures r >= 0.0 && (r == x || r == -x)
  {
    if x < 0.0 then -x else x
  }

  /** Condition 1: a bullish moving-average stack, or within 1% of one. */
  predicate TrendAligned(t: Technical) {
    t.ma5 >= t.ma10 * TrendTolerance && t.ma10 >= t.ma20 * TrendTolerance
  }

  /** Condition 2: the price is not far from its 5-day average. */
  predicate BiasModerate(t: Technical) {
    Abs(t.biasMa5) < BiasLimit
  }

  /** Condition 3: turnover or relative volume is elevated. */
  predicate VolumeActive(t: Technical) {
    t.turnoverRate > TurnoverFloor || t.volumeRatio > VolumeRatioFloor
  }

  /** Condition 4: valuation below the ceiling, or not available at all. */
  predicate ValuationAcceptable(row: StockRow) {
    match row.pe
    case Known(v) => v < PeCeiling
    case Unavailable => true
  }

  /** Condition 5: not a micro-cap. */
  predicate CapAboveFloor(row: StockRow) {
    row.marketCap > MarketCapFloor
  }

  /** The five conditions, in the scanner's order. */
  function Conditions(t: Technical, row: StockRow): (cs: seq<bool>)
    ensures |cs| == 5
  {
    [TrendAligned(t), BiasModerate(t), VolumeActive(t), ValuationAcceptable(row), CapAboveFloor(row)]
  }

  /** Number of true entries, as Python's sum() over a list of booleans. */
  function CountTrue(bs: seq<bool>): (n: nat)
    ensures n <= |bs|
    ensures n == |bs| <==> (forall i :: 0 <= i < |bs| ==> bs[i])
  {
    if bs == [] then 0 else (if bs[0] then 1 else 0) + CountTrue(bs[1..])
  }

  /** The admission rule: at least four of the five conditions hold. */
  predicate Admits(t: Technical, row: StockRow) {
    CountTrue(Conditions(t, row)) >= MinConditions
  }

  /** All but at most one entry are true exactly when no two distinct entries are both false. */
  lemma {:induction false} AllButOneIffNoTwoFail(bs: seq<bool>)
    ensures CountTrue(bs) + 1 >= |bs| <==> (forall i, j :: 0 <= i < j < |bs| ==> bs[i] || bs[j])
  {
    if bs != [] {
      var tail := bs[1..];
      AllButOneIffNoTwoFail(tail);
      assert forall i :: 0 <= i < |tail| ==> tail[i] == bs[i + 1];
      if bs[0] {
        if forall i, j :: 0 <= i < j < |tail| ==> tail[i] || tail[j] {
          forall i, j | 0 <= i < j < |bs| ensures bs[i] || bs[j] {
            if i > 0 { assert tail[i - 1] || tail[j - 1]; }
          }
        } else {
          var i, j :| 0 <= i < j < |tail| && !tail[i] && !tail[j];
          assert !bs[i + 1] && !bs[j + 1];
        }
      } else {
        if forall i :: 0 <= i < |tail| ==> tail[i] {
          forall i, j | 0 <= i < j < |bs| ensures bs[i] || bs[j] {
            assert tail[j - 1];
          }
        } else {
          var i :| 0 <= i < |tail| && !tail[i];
          assert !bs[0] && !bs[i + 1];
        }
      }
    }
  }

  /** Admission holds exactly when no two of the five conditions fail together. */
  lemma AdmitsIffAtMostOneFails(t: Technical, row: StockRow)
    ensures var cs := Conditions(t, row);
      Admits(t, row) <==> (forall i, j :: 0 <= i < j < |cs| ==> cs[i] || cs[j])
  {
    AllButOneIffNoTwoFail(Conditions(t, row));
  }

  /** Admission, stated condition by condition: some four of the five named conditions all hold. */
  lemma AdmitsIffSomeFourHold(t: Technical, row: StockRow)
    ensures Admits(t, row) <==>
      || (BiasModerate(t) && VolumeActive(t) && ValuationAcceptable(row) && CapAboveFloor(row))
      || (TrendAligned(t) && VolumeActive(t) && ValuationAcceptable(row) && CapAboveFloor(row))
      || (TrendAligned(t) && BiasModerate(t) && ValuationAcceptable(row) && CapAboveFloor(row))
      || (TrendAligned(t) && BiasModerate(t) && VolumeActive(t) && CapAboveFloor(row))
      || (TrendAligned(t) && BiasModerate(t) && VolumeActive(t) && ValuationAcceptable(row))
  {
    var cs := Conditions(t, row);
    AdmitsIffAtMostOneFails(t, row);
    assert cs[0] == TrendAligned(t) && cs[1] == BiasModerate(t) && cs[2] == VolumeActive(t);
    assert cs[3] == ValuationAcceptable(row) && cs[4] == CapAboveFloor(row);
  }

  /** A row whose market cap is at or below the floor is admitted only if the other four all hold. */
  lemma SmallCapNeedsOtherFour(t: Technical, row: StockRow)
    requires row.marketCap <= MarketCapFloor
    ensures Admits(t, row) <==>
      TrendAligned(t) && BiasModerate(t) && VolumeActive(t) && ValuationAcceptable(row)
  {
    AdmitsIffSomeFourHold(t, row);
  }

  /** The trend condition is inclusive: exactly 99% of the next average still passes, anything below fails. */
  lemma TrendBoundaryInclusive(t: Technical)
    ensures t.ma5 == t.ma10 * 0.99 && t.ma10 == t.ma20 * 0.99 ==> TrendAligned(t)
    ensures t.ma5 < t.ma10 * 0.99 || t.ma10 < t.ma20 * 0.99 ==> !TrendAligned(t)
  {
  }

  /** An unavailable P/E always passes condition 4; a known one passes exactly below the ceiling. */
  lemma ValuationUnavailablePasses(row: StockRow)
    ensures row.pe == Unavailable ==> ValuationAcceptable(row)
    ensures row.pe.Known? ==> (ValuationAcceptable(row) <==> row.pe.value < PeCeiling)
  {
  }

  /** A row with unavailable P/E, a 3 * 10^9 market cap and a strict bullish stack passes all five conditions. */
  lemma ExampleAllFivePass()
    ensures var t := Technical(10.1, 10.0, 9.9, 2.0, 4.0, 1.0);
      var row := StockRow("000001", "Example", 10.0, 1.0, 4.0, Unavailable, 3000000000.0);
      CountTrue(Conditions(t, row)) == 5 && Admits(t, row)
  {
  }

  /** The moving-average status of a candidate. */
  datatype MaStatus = ApproachingBullish | Entangled {
    /** The label the scanner writes. */
    function Label(): string {
      match this
      case ApproachingBullish => "接近多头"
      case Entangled => "缠绕中"
    }
  }

  /** The status is "approaching bullish" exactly when MA5 is strictly above MA10. */
  function MaStatusOf(t: Technical): (s: MaStatus)
    ensures s.Label() == "接近多头" <==> t.ma5 > t.ma10
    ensures s.Label() == "缠绕中" <==> t.ma5 <= t.ma10
  {
    if t.ma5 > t.ma10 then ApproachingBullish else Entangled
  }

  // ---------------------------------------------------------------------------
  // Condition 4 as written: the P/E cell is a dynamically typed value, and the
  // `< 60` comparison is evaluated before the comparison with the "--" sentinel.

  /** A P/E cell as the snapshot table holds it: a number, a NaN float, or a text such as "--". */
  datatype PeCell = Number(v: real) | NotANumber | Text(s: string)

  /** The P/E a cell stands for: a number is known; a NaN or a text marks it unavailable. */
  function PeOf(cell: PeCell): (pe: PeRatio)
    ensures pe.Known? <==> cell.Number?
    ensures cell.Number? ==> pe.value == cell.v
  {
    match cell
    case Number(v) => Known(v)
    case NotANumber => Unavailable
    case Text(_) => Unavailable
  }

  /** The outcome of evaluating a condition in the source language: a value or a raised TypeError. */
  datatype Evaluation = Value(b: bool) | RaisedTypeError

  /**
    Condition 4 evaluated as written. Ordering a text against a number raises before
    the `or` is reached; a NaN compares false both with 60 and with "--".
   */
  function ValuationAsWritten(cell: PeCell): (e: Evaluation)
    ensures e == RaisedTypeError <==> cell.Text?
    ensures cell.Number? ==> e == Value(cell.v < PeCeiling)
    ensures cell == NotANumber ==> e == Value(false)
  {
    match cell
    case Number(v) => Value(v < PeCeiling)
    case NotANumber => Value(false)
    case Text(_) => RaisedTypeError
  }

  /** A text cell such as "--" never reaches its own test as written; the tagged-union reading passes it. */
  lemma SentinelRaisesAsWritten(cell: PeCell, row: StockRow)
    requires cell.Text? && row.pe == PeOf(cell)
    ensures ValuationAsWritten(cell) == RaisedTypeError
    ensures ValuationAcceptable(row)
  {
  }

  /** A NaN cell fails condition 4 as written, while the tagged-union reading passes it. */
  lemma NotANumberFailsAsWritten(cell: PeCell, row: StockRow)
    requires cell == NotANumber && row.pe == PeOf(cell)
    ensures ValuationAsWritten(cell) == Value(false)
    ensures ValuationAcceptable(row)
  {
  }

  /** The two readings agree on every numeric P/E cell. */
  lemma AsWrittenAgreesOnNumbers(cell: PeCell, row: StockRow)
    requires cell.Number? && row.pe == PeOf(cell)
    ensures ValuationAsWritten(cell) == Value(ValuationAcceptable(row))
  {
  }
}
