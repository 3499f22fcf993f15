/**
 * data_prep/5_dedupe.py: keep the first row for each text (column 0), in input
 * order. A row without columns makes `row[0]` fail, and then nothing is written.
 *
 * `Dedup(rows, n)` is the state of the script after it has read the first `n`
 * rows, so every property below holds after each step of the loop, and for the
 * whole input with `n == |rows|`.
 */
module Dedupe {
  import opened Wrappers
  import opened Subsequences

  type Row = seq<string>

  datatype DedupeError = EmptyRow(index: nat)

  ghost predicate NonEmptyRows(rows: seq<Row>)
  {
    forall i :: 0 <= i < |rows| ==> |rows[i]| > 0
  }

  /** Every one of the first `n` rows has a column 0. */
  ghost predicate NonEmptyBefore(rows: seq<Row>, n: nat)
    requires n <= |rows|
  {
    forall i :: 0 <= i < n ==> |rows[i]| > 0
  }

  /** The first column of every row, in order: what `deduped_text_only` holds for `deduped`. */
  function Texts(rows: seq<Row>): (r: seq<string>)
    requires NonEmptyRows(rows)
    ensures |r| == |rows|
    ensures forall i :: 0 <= i < |rows| ==> r[i] == rows[i][0]
  {
    if rows == [] then [] else Texts(rows[..|rows| - 1]) + [rows[|rows| - 1][0]]
  }

  /** Some row of `kept` has the text `t`: the test `row[0] in deduped_text_only`. */
  function Seen(kept: seq<Row>, t: string): bool
  {
    kept != [] && ((|kept[|kept| - 1]| > 0 && kept[|kept| - 1][0] == t) || Seen(kept[..|kept| - 1], t))
  }

  /**
   * What the script holds after reading the first `n` rows: the rows kept so far, a row
   * being kept when its text is not yet among the kept texts; or the first row without
   * a column 0.
   */
  function Dedup(rows: seq<Row>, n: nat): (r: Result<seq<Row>, DedupeError>)
    requires n <= |rows|
    ensures r.Success? <==> NonEmptyBefore(rows, n)
    ensures r.Success? ==> NonEmptyRows(r.value) && |r.value| <= n
    ensures r.Failure? ==>
      && r.error.index < n && |rows[r.error.index]| == 0
      && NonEmptyBefore(rows, r.error.index)
  {
    if n == 0 then Success([])
    else
      match Dedup(rows, n - 1)
      case Failure(e) => Failure(e)
      case Success(kept) =>
        var row := rows[n - 1];
        if |row| == 0 then Failure(EmptyRow(n - 1))
        else if Seen(kept, row[0]) then Success(kept)
        else Success(kept + [row])
  }

  /** No two of the first `n` rows share a text. */
  ghost predicate DistinctTexts(rows: seq<Row>, n: nat)
    requires n <= |rows| && NonEmptyBefore(rows, n)
  {
    forall i, j :: 0 <= i < j < n ==> rows[i][0] != rows[j][0]
  }

  /** Row i has a text, and no earlier row has the same text. */
  ghost predicate FirstOccurrence(rows: seq<Row>, i: int)
    requires 0 <= i < |rows|
  {
    |rows[i]| > 0 && forall j :: 0 <= j < i && |rows[j]| > 0 ==> rows[j][0] != rows[i][0]
  }

  lemma TextsAppend(rows: seq<Row>, row: Row)
    requires NonEmptyRows(rows) && |row| > 0
    ensures NonEmptyRows(rows + [row])
    ensures Texts(rows + [row]) == Texts(rows) + [row[0]]
  {
    assert (rows + [row])[..|rows|] == rows;
  }

  lemma SeenAppend(kept: seq<Row>, row: Row, t: string)
    ensures Seen(kept + [row], t) <==> (|row| > 0 && row[0] == t) || Seen(kept, t)
  {
    assert (kept + [row])[..|kept|] == kept;
  }

  /** A row's own text is seen. */
  lemma {:induction false} SeenOf(kept: seq<Row>, k: nat)
    requires k < |kept| && |kept[k]| > 0
    ensures Seen(kept, kept[k][0])
  {
    if k < |kept| - 1 {
      SeenOf(kept[..|kept| - 1], k);
    }
  }

  /** A text that no row carries is not seen. */
  lemma {:induction false} NotSeen(kept: seq<Row>, t: string)
    requires forall k :: 0 <= k < |kept| && |kept[k]| > 0 ==> kept[k][0] != t
    ensures !Seen(kept, t)
  {
    if kept != [] {
      NotSeen(kept[..|kept| - 1], t);
    }
  }

  /** Seen is membership in the list of kept texts the script maintains. */
  lemma {:induction false} SeenTexts(kept: seq<Row>, t: string)
    requires NonEmptyRows(kept)
    ensures Seen(kept, t) <==> t in Texts(kept)
  {
    if kept != [] {
      var init := kept[..|kept| - 1];
      SeenTexts(init, t);
      assert init + [kept[|kept| - 1]] == kept;
      TextsAppend(init, kept[|kept| - 1]);
    }
  }

  /** No two kept rows share a text (the check against `deduped_text_only`). */
  lemma {:induction false} DedupDistinct(rows: seq<Row>, n: nat)
    requires n <= |rows| && Dedup(rows, n).Success?
    ensures DistinctTexts(Dedup(rows, n).value, |Dedup(rows, n).value|)
  {
    if n > 0 {
      DedupDistinct(rows, n - 1);
      var kept := Dedup(rows, n - 1).value;
      var row := rows[n - 1];
      if !Seen(kept, row[0]) {
        var out := kept + [row];
        forall i, j | 0 <= i < j < |out| ensures out[i][0] != out[j][0] {
          if j == |kept| {
            SeenOf(kept, i);
          }
        }
      }
    }
  }

  /** Every text among the first `n` rows is the text of some kept row. */
  lemma {:induction false} DedupCovers(rows: seq<Row>, n: nat)
    requires n <= |rows| && Dedup(rows, n).Success?
    ensures forall i :: 0 <= i < n ==> Seen(Dedup(rows, n).value, rows[i][0])
  {
    if n > 0 {
      DedupCovers(rows, n - 1);
      var kept, row := Dedup(rows, n - 1).value, rows[n - 1];
      var out := Dedup(rows, n).value;
      forall i | 0 <= i < n ensures Seen(out, rows[i][0]) {
        SeenAppend(kept, row, rows[i][0]);
      }
    }
  }

  /** One step of the loop: the kept rows after `n` rows from those after `n - 1`. */
  lemma DedupStep(rows: seq<Row>, n: nat)
    requires 0 < n <= |rows| && Dedup(rows, n).Success?
    ensures Dedup(rows, n - 1).Success? && |rows[n - 1]| > 0
    ensures var kept := Dedup(rows, n - 1).value;
      Dedup(rows, n).value == if Seen(kept, rows[n - 1][0]) then kept else kept + [rows[n - 1]]
  {
  }

  lemma SubsequencePrefixStep(rows: seq<Row>, n: nat, kept: seq<Row>, out: seq<Row>)
    requires 0 < n <= |rows|
    requires IsSubsequence(kept, rows[..n - 1])
    requires out == kept || out == kept + [rows[n - 1]]
    ensures IsSubsequence(out, rows[..n])
  {
    assert rows[..n - 1] + [rows[n - 1]] == rows[..n];
    SubsequenceStep(kept, rows[..n - 1], rows[n - 1], out);
  }

  /** The kept rows are the first `n` rows with rows left out, in input order. */
  lemma {:induction false} DedupSubsequence(rows: seq<Row>, n: nat)
    requires n <= |rows| && Dedup(rows, n).Success?
    ensures IsSubsequence(Dedup(rows, n).value, rows[..n])
  {
    if n > 0 {
      DedupSubsequence(rows, n - 1);
      DedupStep(rows, n);
      SubsequencePrefixStep(rows, n, Dedup(rows, n - 1).value, Dedup(rows, n).value);
    }
  }

  /** A text that none of the first `n` rows carries is not among the kept texts. */
  lemma {:induction false} DedupNotSeen(rows: seq<Row>, n: nat, t: string)
    requires n <= |rows| && Dedup(rows, n).Success?
    requires forall j :: 0 <= j < n && |rows[j]| > 0 ==> rows[j][0] != t
    ensures !Seen(Dedup(rows, n).value, t)
  {
    if n > 0 {
      DedupNotSeen(rows, n - 1, t);
      SeenAppend(Dedup(rows, n - 1).value, rows[n - 1], t);
    }
  }

  /** If the script reads `n` rows without failing, it reads every shorter prefix without failing. */
  lemma DedupPrefixSucceeds(rows: seq<Row>, m: nat, n: nat)
    requires m <= n <= |rows| && Dedup(rows, n).Success?
    ensures Dedup(rows, m).Success?
  {
    assert NonEmptyBefore(rows, m);
  }

  /** A row, once kept, stays kept: the script only appends. */
  lemma {:induction false} DedupKeepsKept(rows: seq<Row>, m: nat, n: nat, x: Row)
    requires m <= n <= |rows| && Dedup(rows, m).Success? && Dedup(rows, n).Success?
    requires x in Dedup(rows, m).value
    ensures x in Dedup(rows, n).value
    decreases n - m
  {
    if m < n {
      DedupStep(rows, n);
      DedupKeepsKept(rows, m, n - 1, x);
    }
  }

  /** A first occurrence is kept when the script reads it. */
  lemma FirstKept(rows: seq<Row>, i: nat)
    requires i < |rows| && Dedup(rows, i + 1).Success? && FirstOccurrence(rows, i)
    ensures rows[i] in Dedup(rows, i + 1).value
  {
    DedupStep(rows, i + 1);
    DedupNotSeen(rows, i, rows[i][0]);
  }

  /** The first occurrence of every text among the first `n` rows is kept. */
  lemma DedupKeepsFirstOccurrences(rows: seq<Row>, n: nat)
    requires n <= |rows| && Dedup(rows, n).Success?
    ensures forall i :: 0 <= i < n && FirstOccurrence(rows, i) ==> rows[i] in Dedup(rows, n).value
  {
    forall i | 0 <= i < n && FirstOccurrence(rows, i) ensures rows[i] in Dedup(rows, n).value {
      DedupPrefixSucceeds(rows, i + 1, n);
      FirstKept(rows, i);
      DedupKeepsKept(rows, i + 1, n, rows[i]);
    }
  }

  /** `row` is one of the first `n` rows, and the first of them with its text. */
  ghost predicate FirstOccurrenceRow(rows: seq<Row>, n: nat, row: Row)
    requires n <= |rows|
  {
    exists i :: 0 <= i < n && rows[i] == row && FirstOccurrence(rows, i)
  }

  lemma KeepsOnlyFirstStep(rows: seq<Row>, n: nat, kept: seq<Row>, out: seq<Row>)
    requires 0 < n <= |rows|
    requires forall k :: 0 <= k < |kept| ==> FirstOccurrenceRow(rows, n - 1, kept[k])
    requires out == kept || (out == kept + [rows[n - 1]] && FirstOccurrence(rows, n - 1))
    ensures forall k :: 0 <= k < |out| ==> FirstOccurrenceRow(rows, n, out[k])
  {
    forall k | 0 <= k < |out| ensures FirstOccurrenceRow(rows, n, out[k]) {
      if k < |kept| {
        var i :| 0 <= i < n - 1 && rows[i] == kept[k] && FirstOccurrence(rows, i);
        assert rows[i] == out[k];
      } else {
        assert rows[n - 1] == out[k];
      }
    }
  }

  /** Every kept row is the first occurrence of its text: later rows with that text are dropped. */
  lemma {:induction false} DedupKeepsOnlyFirstOccurrences(rows: seq<Row>, n: nat)
    requires n <= |rows| && Dedup(rows, n).Success?
    ensures forall k :: 0 <= k < |Dedup(rows, n).value| ==> FirstOccurrenceRow(rows, n, Dedup(rows, n).value[k])
  {
    if n > 0 {
      DedupKeepsOnlyFirstOccurrences(rows, n - 1);
      DedupStep(rows, n);
      var kept, row := Dedup(rows, n - 1).value, rows[n - 1];
      if !Seen(kept, row[0]) {
        DedupCovers(rows, n - 1);
        assert FirstOccurrence(rows, n - 1);
      }
      KeepsOnlyFirstStep(rows, n, kept, Dedup(rows, n).value);
    }
  }

  /** With nothing dropped, the kept rows are the input rows, so the input's texts were distinct. */
  lemma NothingDropped(rows: seq<Row>, n: nat, kept: seq<Row>, out: seq<Row>)
    requires 0 < n <= |rows| && NonEmptyBefore(rows, n) && NonEmptyRows(kept) && |kept| <= n - 1
    requires |kept| == n - 1 ==> kept == rows[..n - 1]
    requires out == kept || out == kept + [rows[n - 1]]
    requires NonEmptyRows(out) && DistinctTexts(out, |out|)
    requires |out| == n
    ensures out == rows[..n] && DistinctTexts(rows, n)
  {
    assert out == kept + [rows[n - 1]];
    assert rows[..n - 1] + [rows[n - 1]] == rows[..n];
    forall i, j | 0 <= i < j < n ensures rows[i][0] != rows[j][0] {
      assert out[i] == rows[i] && out[j] == rows[j];
    }
  }

  /** With distinct texts, the new row's text is new, so it is kept. */
  lemma DistinctKeepsAll(rows: seq<Row>, n: nat, kept: seq<Row>)
    requires 0 < n <= |rows| && NonEmptyBefore(rows, n)
    requires DistinctTexts(rows, n)
    requires kept == rows[..n - 1]
    ensures !Seen(kept, rows[n - 1][0])
    ensures kept + [rows[n - 1]] == rows[..n]
  {
    forall k | 0 <= k < |kept| && |kept[k]| > 0 ensures kept[k][0] != rows[n - 1][0] {
      assert kept[k] == rows[k];
    }
    NotSeen(kept, rows[n - 1][0]);
  }

  /** Nothing is dropped exactly when the texts are already distinct. */
  lemma {:induction false} DedupIdentity(rows: seq<Row>, n: nat)
    requires n <= |rows| && Dedup(rows, n).Success?
    ensures Dedup(rows, n).value == rows[..n] <==> DistinctTexts(rows, n)
    ensures |Dedup(rows, n).value| == n <==> DistinctTexts(rows, n)
  {
    if n > 0 {
      DedupIdentity(rows, n - 1);
      DedupDistinct(rows, n);
      DedupStep(rows, n);
      var kept, out := Dedup(rows, n - 1).value, Dedup(rows, n).value;
      if |out| == n {
        NothingDropped(rows, n, kept, out);
      }
      if DistinctTexts(rows, n) {
        assert DistinctTexts(rows, n - 1);
        DistinctKeepsAll(rows, n, kept);
      }
    }
  }

  /** Running the dedup again on its own output changes nothing. */
  lemma DedupIdempotent(rows: seq<Row>, n: nat)
    requires n <= |rows| && Dedup(rows, n).Success?
    ensures var out := Dedup(rows, n).value; Dedup(out, |out|) == Success(out)
  {
    var out := Dedup(rows, n).value;
    DedupDistinct(rows, n);
    DedupIdentity(out, |out|);
    assert out[..|out|] == out;
  }

  /** The loop of data_prep/5_dedupe.py:10-13 over `rows`, with its two growing lists. */
  method DedupeRows(rows: seq<Row>) returns (r: Result<seq<Row>, DedupeError>)
    ensures r == Dedup(rows, |rows|)
  {
    var dedupedTextOnly: seq<string> := [];
    var deduped: seq<Row> := [];
    for i := 0 to |rows|
      invariant Dedup(rows, i) == Success(deduped)
      invariant NonEmptyRows(deduped) && dedupedTextOnly == Texts(deduped)
    {
      var row := rows[i];
      LoopStep(rows, i, deduped, dedupedTextOnly);
      if |row| == 0 {
        DedupFailureSticks(rows, i + 1);
        return Failure(EmptyRow(i));
      }
      if row[0] !in dedupedTextOnly {
        dedupedTextOnly := dedupedTextOnly + [row[0]];
        deduped := deduped + [row];
      }
    }
    r := Success(deduped);
  }

  /** Reading row i when `deduped` is kept and `texts` lists its texts. */
  lemma LoopStep(rows: seq<Row>, i: nat, deduped: seq<Row>, texts: seq<string>)
    requires i < |rows| && Dedup(rows, i) == Success(deduped)
    requires NonEmptyRows(deduped) && texts == Texts(deduped)
    ensures |rows[i]| == 0 ==> Dedup(rows, i + 1) == Failure(EmptyRow(i))
    ensures |rows[i]| > 0 && rows[i][0] in texts ==> Dedup(rows, i + 1) == Success(deduped)
    ensures |rows[i]| > 0 && rows[i][0] !in texts ==>
      && Dedup(rows, i + 1) == Success(deduped + [rows[i]])
      && NonEmptyRows(deduped + [rows[i]])
      && texts + [rows[i][0]] == Texts(deduped + [rows[i]])
  {
    if |rows[i]| > 0 {
      SeenTexts(deduped, rows[i][0]);
      TextsAppend(deduped, rows[i]);
    }
  }

  /** Once the script has failed on a row, reading more rows keeps that failure. */
  lemma {:induction false} DedupFailureSticks(rows: seq<Row>, k: nat)
    requires k <= |rows| && Dedup(rows, k).Failure?
    ensures Dedup(rows, |rows|) == Dedup(rows, k)
    decreases |rows| - k
  {
    if k < |rows| {
      DedupFailureSticks(rows, k + 1);
    }
  }
}
