/**
 * data_prep/4_transform.py: each labelled article row
 * `[text, _, _, democrat vote, republican vote]` becomes `[text, bias, extent]`,
 * where the two votes are mapped to -2..2 and their difference picks the labels.
 */
module Transform {
  import opened Wrappers
  import Models

  type Row = seq<string>

  const VoteMapping: map<string, int> := map[
    "Positive" := 2,
    "SomewhatPositive" := 1,
    "Neutral" := 0,
    "SomewhatNegative" := -1,
    "Negative" := -2
  ]

  /** Difference of the mapped votes to (extent, bias). */
  const DifferenceMapping: map<int, (string, string)> := map[
    4 := ("extreme", "left"),
    3 := ("strong", "left"),
    2 := ("moderate", "left"),
    1 := ("minimal", "left"),
    0 := ("none", "neutral"),
    -1 := ("minimal", "right"),
    -2 := ("moderate", "right"),
    -3 := ("strong", "right"),
    -4 := ("extreme", "right")
  ]

  datatype TransformError =
    | UnpackError(columns: nat)      // the row does not have exactly five columns
    | UnknownVote(vote: string)      // a vote that is no key of VOTE_MAPPING

  /** The lean a difference stands for: towards the side that rated the article higher. */
  function Lean(d: int): string
  {
    if d > 0 then "left" else if d < 0 then "right" else "neutral"
  }

  /** The strength a difference of magnitude m stands for. */
  function Strength(m: nat): string
    requires m <= 4
  {
    ["none", "minimal", "moderate", "strong", "extreme"][m]
  }

  function Abs(d: int): nat
  {
    if d < 0 then -d else d
  }

  /** The two labels swapped by exchanging the votes. */
  function Mirror(lean: string): string
  {
    if lean == "left" then "right" else if lean == "right" then "left" else lean
  }

  lemma VoteMappingRange()
    ensures VoteMapping.Keys == {"Positive", "SomewhatPositive", "Neutral", "SomewhatNegative", "Negative"}
    ensures forall v :: v in VoteMapping ==> -2 <= VoteMapping[v] <= 2
  {
  }

  /** The differences DIFFERENCE_MAPPING knows are exactly -4..4, and each is labelled by its sign and magnitude. */
  lemma DifferenceMappingSpec()
    ensures forall d :: d in DifferenceMapping <==> -4 <= d <= 4
    ensures forall d :: d in DifferenceMapping ==> DifferenceMapping[d] == (Strength(Abs(d)), Lean(d))
  {
    forall d | -4 <= d <= 4
      ensures d in DifferenceMapping && DifferenceMapping[d] == (Strength(Abs(d)), Lean(d))
    {
      if d == 0 {
      } else if d == 1 {
      } else if d == 2 {
      } else if d == 3 {
      } else if d == 4 {
      } else if d == -1 {
      } else if d == -2 {
      } else if d == -3 {
      } else {
        assert d == -4;
      }
    }
  }

  /** The body of the `for row in reader` loop, with the error the row raises instead of a result. */
  function TransformRow(row: Row): (r: Result<Row, TransformError>)
    ensures r.Success? <==> |row| == 5 && row[3] in VoteMapping && row[4] in VoteMapping
    ensures r == Failure(UnpackError(|row|)) <==> |row| != 5
    ensures r.Success? ==>
      var d := VoteMapping[row[3]] - VoteMapping[row[4]];
      -4 <= d <= 4 && r.value == [row[0], Lean(d), Strength(Abs(d))]
  {
    if |row| != 5 then Failure(UnpackError(|row|))
    else
      var democrat, republican := row[3], row[4];
      if democrat !in VoteMapping then Failure(UnknownVote(democrat))
      else if republican !in VoteMapping then Failure(UnknownVote(republican))
      else
        var d := VoteMapping[democrat] - VoteMapping[republican];
        VoteMappingRange();
        DifferenceMappingSpec();
        var (extent, bias) := DifferenceMapping[d];
        Success([row[0], bias, extent])
  }

  /** Exchanging the two votes mirrors the lean and keeps the strength. */
  lemma SwapVotes(row: Row)
    requires |row| == 5
    ensures var swapped := row[3 := row[4]][4 := row[3]];
      && (TransformRow(swapped).Success? <==> TransformRow(row).Success?)
      && (TransformRow(row).Success? ==>
           && TransformRow(swapped).value[0] == TransformRow(row).value[0]
           && TransformRow(swapped).value[1] == Mirror(TransformRow(row).value[1])
           && TransformRow(swapped).value[2] == TransformRow(row).value[2])
  {
  }

  /**
   * Equal votes give the extent label "none", which the backend's Extent vocabulary
   * does not contain: such a row cannot be read back as a classification.
   */
  lemma EqualVotesGiveNoExtent(row: Row)
    requires |row| == 5 && row[3] in VoteMapping && row[3] == row[4]
    ensures TransformRow(row) == Success([row[0], "neutral", "none"])
    ensures Models.ParseBias(TransformRow(row).value[1]) == Some(Models.Neutral)
    ensures Models.ParseExtent(TransformRow(row).value[2]) == None
  {
  }

  /**
   * The loop over the rows: each row is transformed and written in order; the first
   * row that fails stops the script, and the rows before it stay written.
   */
  method TransformRows(rows: seq<Row>) returns (written: seq<Row>, failure: Option<TransformError>)
    ensures |written| <= |rows|
    ensures forall i :: 0 <= i < |written| ==> TransformRow(rows[i]) == Success(written[i])
    ensures failure.None? <==> |written| == |rows|
    ensures failure.Some? ==> TransformRow(rows[|written|]) == Failure(failure.value)
  {
    written := [];
    for i := 0 to |rows|
      invariant |written| == i
      invariant forall k :: 0 <= k < i ==> TransformRow(rows[k]) == Success(written[k])
    {
      var out := TransformRow(rows[i]);
      if out.Failure? {
        return written, Some(out.error);
      }
      written := written + [out.value];
    }
    failure := None;
  }
}
