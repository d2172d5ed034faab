/**
  The candidate-pool scan: every snapshot row is checked against the admission
  rule, each admitted row becomes a candidate, and the candidates are ranked by
  score (highest first, ties in scan order) and cut to the first thirty.
 */
module Scanner {
  import opened Filter
  import opened Ranking
  import opened Selection

  /** The scan keeps at most this many candidates. */
  const PoolSize: nat := 30

  /** A row that passed the filter, with its score, reason text and moving-average status. */
  datatype Candidate = Candidate(
    code: string,
    name: string,
    price: real,
    score: real,
    keyReason: string,
    maStatus: MaStatus)

  /**
    The scanner's collaborators, which the repository calls but does not define:
    the indicator lookup by code, the opportunity score and the reason text.
   */
  datatype Collaborators = Collaborators(
    technicalData: string -> Technical,
    opportunityScore: (Technical, StockRow) -> real,
    reason: (Technical, StockRow) -> string)

  /** The sort key. */
  function Score(c: Candidate): real {
    c.score
  }

  /** The admission rule applied to a row and the indicators looked up for its code. */
  predicate RowAdmitted(env: Collaborators, row: StockRow) {
    Admits(env.technicalData(row.code), row)
  }

  /** The candidate built for an admitted row: identity and price copied, the rest from the indicators. */
  function MakeCandidate(env: Collaborators, row: StockRow): (c: Candidate)
    ensures c.code == row.code && c.name == row.name && c.price == row.price
    ensures c.score == env.opportunityScore(env.technicalData(row.code), row)
    ensures c.keyReason == env.reason(env.technicalData(row.code), row)
    ensures c.maStatus.Label() == "接近多头" <==> env.technicalData(row.code).ma5 > env.technicalData(row.code).ma10
  {
    var t := env.technicalData(row.code);
    Candidate(row.code, row.name, row.price, env.opportunityScore(t, row), env.reason(t, row), MaStatusOf(t))
  }

  /** The admission test as a value, for selecting rows. */
  function Admission(env: Collaborators): (p: StockRow -> bool)
    ensures forall row :: p(row) == RowAdmitted(env, row)
  {
    row => RowAdmitted(env, row)
  }

  /** Candidate construction as a value, for mapping rows. */
  function Construction(env: Collaborators): (f: StockRow -> Candidate)
    ensures forall row :: f(row) == MakeCandidate(env, row)
  {
    row => MakeCandidate(env, row)
  }

  /** The candidates of the admitted rows, in scan order. */
  function Admit(env: Collaborators, rows: seq<StockRow>): seq<Candidate> {
    FilterMap(rows, Admission(env), Construction(env))
  }

  /** The k-th candidate is built from the k-th admitted row, and from no other: one candidate per admitted row. */
  lemma {:induction false} AdmitOnePerAdmittedRow(env: Collaborators, rows: seq<StockRow>)
    ensures var ps := Positions(rows, Admission(env));
      && |Admit(env, rows)| == |ps|
      && (forall k, m :: 0 <= k < m < |ps| ==> ps[k] < ps[m])
      && (forall j :: 0 <= j < |rows| ==> (j in ps <==> RowAdmitted(env, rows[j])))
      && (forall k :: 0 <= k < |ps| ==> Admit(env, rows)[k] == MakeCandidate(env, rows[ps[k]]))
  {
    FilterMapAtPositions(rows, Admission(env), Construction(env));
  }

  /** A candidate is produced exactly for the admitted rows. */
  lemma {:induction false} AdmitMembers(env: Collaborators, rows: seq<StockRow>, c: Candidate)
    ensures c in Admit(env, rows) <==>
      exists j :: 0 <= j < |rows| && RowAdmitted(env, rows[j]) && c == MakeCandidate(env, rows[j])
  {
    FilterMapMembers(rows, Admission(env), Construction(env), c);
  }

  function Min(a: nat, b: nat): (m: nat)
    ensures m <= a && m <= b && (m == a || m == b)
  {
    if a <= b then a else b
  }

  /** The returned pool: the admitted candidates ranked by score and cut to the first thirty. */
  function RankedPool(env: Collaborators, rows: seq<StockRow>): (pool: seq<Candidate>)
    ensures |pool| == Min(PoolSize, |Admit(env, rows)|)
  {
    var ranked := SortDesc(Admit(env, rows), Score);
    ranked[..Min(PoolSize, |ranked|)]
  }

  /** The scan: filter row by row into a growing list, sort it by score, then keep the first thirty. */
  method FilterCandidatePool(env: Collaborators, rows: seq<StockRow>) returns (pool: seq<Candidate>)
    ensures pool == RankedPool(env, rows)
    ensures |pool| <= PoolSize
  {
    var candidates: seq<Candidate> := [];
    var i := 0;
    while i < |rows|
      invariant 0 <= i <= |rows|
      invariant candidates == FilterMap(rows[..i], Admission(env), Construction(env))
    {
      var row := rows[i];
      var technical := env.technicalData(row.code);
      if Admits(technical, row) {
        var score := env.opportunityScore(technical, row);
        candidates := candidates + [Candidate(row.code, row.name, row.price, score,
                                              env.reason(technical, row), MaStatusOf(technical))];
      }
      assert rows[..i + 1][..i] == rows[..i];
      i := i + 1;
    }
    assert rows[..i] == rows;
    assert candidates == Admit(env, rows);
    candidates := SortDesc(candidates, Score);
    pool := candidates[..Min(PoolSize, |candidates|)];
  }

  /** The pool is ordered by score, highest first. */
  lemma PoolSorted(env: Collaborators, rows: seq<StockRow>)
    ensures SortedDesc(RankedPool(env, rows), Score)
  {
  }

  /** Candidates with equal scores appear in the pool in scan order, and form a prefix of that score's candidates. */
  lemma PoolStableOnTies(env: Collaborators, rows: seq<StockRow>, k: real)
    ensures WithKey(RankedPool(env, rows), Score, k) <= WithKey(Admit(env, rows), Score, k)
  {
    var ranked := SortDesc(Admit(env, rows), Score);
    SortKeepsTies(Admit(env, rows), Score, k);
    WithKeyOfPrefix(ranked, Min(PoolSize, |ranked|), Score, k);
  }

  /** The pool is the first min(30, n) entries of every stable descending ranking of the n admitted candidates. */
  lemma PoolIsPrefixOfStableRanking(env: Collaborators, rows: seq<StockRow>, ranking: seq<Candidate>)
    requires SortedDesc(ranking, Score)
    requires forall k :: WithKey(ranking, Score, k) == WithKey(Admit(env, rows), Score, k)
    ensures |ranking| == |Admit(env, rows)|
    ensures RankedPool(env, rows) == ranking[..Min(PoolSize, |ranking|)]
  {
    SortDescUnique(Admit(env, rows), ranking, Score);
  }

  /** Every pool entry is the candidate of an admitted row; no candidate appears more often than it was admitted. */
  lemma {:induction false} PoolFromAdmittedRows(env: Collaborators, rows: seq<StockRow>)
    ensures multiset(RankedPool(env, rows)) <= multiset(Admit(env, rows))
    ensures forall c :: c in RankedPool(env, rows) ==>
      exists j :: 0 <= j < |rows| && RowAdmitted(env, rows[j]) && c == MakeCandidate(env, rows[j])
  {
    var cs := Admit(env, rows);
    var ranked := SortDesc(cs, Score);
    var m := Min(PoolSize, |ranked|);
    assert ranked == ranked[..m] + ranked[m..];
    assert multiset(ranked) == multiset(ranked[..m]) + multiset(ranked[m..]);
    forall c | c in RankedPool(env, rows)
      ensures exists j :: 0 <= j < |rows| && RowAdmitted(env, rows[j]) && c == MakeCandidate(env, rows[j])
    {
      assert c in multiset(cs);
      AdmitMembers(env, rows, c);
    }
  }

  /** Every admitted candidate left out of the pool scores no higher than every candidate kept. */
  lemma PoolKeepsHighestScores(env: Collaborators, rows: seq<StockRow>)
    ensures forall c, d ::
      (c in RankedPool(env, rows) && d in multiset(Admit(env, rows)) - multiset(RankedPool(env, rows))) ==>
        c.score >= d.score
  {
    var ranked := SortDesc(Admit(env, rows), Score);
    PrefixKeepsHighest(ranked, Score, Min(PoolSize, |ranked|));
  }

  /** When at most thirty rows are admitted, the pool holds all of their candidates. */
  lemma PoolKeepsAllWhenFew(env: Collaborators, rows: seq<StockRow>)
    requires |Admit(env, rows)| <= PoolSize
    ensures multiset(RankedPool(env, rows)) == multiset(Admit(env, rows))
  {
    var ranked := SortDesc(Admit(env, rows), Score);
    assert ranked[..|ranked|] == ranked;
  }

  /** Every pool entry comes from an admitted row that, if at or below the market-cap floor, passed the other four conditions. */
  lemma PoolSmallCapPassedOtherFour(env: Collaborators, rows: seq<StockRow>)
    ensures forall c :: c in RankedPool(env, rows) ==>
      exists j :: 0 <= j < |rows| && c == MakeCandidate(env, rows[j]) && RowAdmitted(env, rows[j]) &&
        (rows[j].marketCap <= MarketCapFloor ==>
          var t := env.technicalData(rows[j].code);
          TrendAligned(t) && BiasModerate(t) && VolumeActive(t) && ValuationAcceptable(rows[j]))
  {
    PoolFromAdmittedRows(env, rows);
    forall j | 0 <= j < |rows| && rows[j].marketCap <= MarketCapFloor {
      SmallCapNeedsOtherFour(env.technicalData(rows[j].code), rows[j]);
    }
  }
}
