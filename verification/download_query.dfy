/** What the app reads back from the platform download service: one cursor
    row per download (status code, total size, bytes so far), and the
    percentage both status paths derive from it. */
module DownloadQuery {
  import opened Results
  import opened JvmArith

  // Status codes of the platform's DownloadManager (COLUMN_STATUS values).
  const STATUS_PENDING: Int32 := 1
  const STATUS_RUNNING: Int32 := 2
  const STATUS_PAUSED: Int32 := 4
  const STATUS_SUCCESSFUL: Int32 := 8
  const STATUS_FAILED: Int32 := 16

  /** The five codes the app distinguishes; any other value falls through every `when`. */
  predicate IsKnownCode(code: Int32)
  {
    code == STATUS_PENDING || code == STATUS_RUNNING || code == STATUS_PAUSED
    || code == STATUS_SUCCESSFUL || code == STATUS_FAILED
  }

  /** The first cursor row: COLUMN_STATUS, COLUMN_TOTAL_SIZE_BYTES and
      COLUMN_BYTES_DOWNLOADED_SO_FAR. */
  datatype Row = Row(status: Int32, totalBytes: Int64, bytesDownloaded: Int64)

  /** A query by download id: `None` when `moveToFirst()` finds no row. */
  type Query = Option<Row>

  /** Largest byte count whose percentage `downloaded * 100L` does not overflow a `Long`. */
  const MAX_EXACT_BYTES: int := LONG_MAX / 100

  /** The running percentage exactly as both status paths compute it: guarded
      only by `total >= 0`, so a zero total reaches the division and throws. */
  function ProgressAsWritten(total: Int64, downloaded: Int64): (r: Result<Int32, ArithmeticException>)
    ensures total < 0 ==> r == Success(0)
    ensures r.Failure? <==> total == 0
    ensures r.Failure? ==> r.error == DivideByZero
    ensures total > 0 ==> r == Success(Progress(total, downloaded))
  {
    if total >= 0 then
      match LongDiv(LongMul(downloaded, 100), total)
      case Success(q) => Success(LongToInt(q))
      case Failure(e) => Failure(e)
    else
      Success(0)
  }

  /** The running percentage with the guard the division needs (`total > 0`);
      an unknown or zero total reports 0. Within range it is the floor of
      `downloaded * 100 / total`, and a download that has not overshot its
      total stays within 0..100. */
  function Progress(total: Int64, downloaded: Int64): (p: Int32)
    ensures total <= 0 ==> p == 0
    ensures 0 < total && 0 <= downloaded <= MAX_EXACT_BYTES && downloaded * 100 / total <= INT_MAX
            ==> p == downloaded * 100 / total
    ensures 0 < total && 0 <= downloaded <= total && downloaded <= MAX_EXACT_BYTES ==> 0 <= p <= 100
  {
    if total > 0 then
      var q := LongDiv(LongMul(downloaded, 100), total).value;
      assert 0 <= downloaded <= total && downloaded <= MAX_EXACT_BYTES ==> downloaded * 100 / total <= 100 by {
        if 0 <= downloaded <= total && downloaded <= MAX_EXACT_BYTES {
          PercentageAtMostHundred(downloaded * 100, total);
        }
      }
      LongToInt(q)
    else
      0
  }

  /** A quotient `a / b` with `a <= 100 * b` is at most 100. */
  lemma PercentageAtMostHundred(a: nat, b: nat)
    requires b > 0
    requires a <= 100 * b
    ensures a / b <= 100
  {
    var q := a / b;
    assert q * b <= a;
    if q > 100 {
      MulNonNegative(q - 101, b);
      assert false;
    }
  }

  /** A completed empty file (total 0) passes the `total >= 0` guard and the
      as-written percentage throws, where the guarded one reports 0. */
  lemma ZeroTotalDividesByZero(downloaded: Int64)
    ensures ProgressAsWritten(0, downloaded) == Failure(DivideByZero)
    ensures Progress(0, downloaded) == 0
  {
  }

  /** The worked examples of the percentage: floor, not round, on
      non-negative counts; toward zero on a negative count, so -1 of 3 bytes
      is -33 where Dafny's Euclidean `-100 / 3` would give -34. */
  lemma ProgressExamples()
    ensures Progress(200, 50) == 25
    ensures Progress(3, 2) == 66
    ensures Progress(-1, 12345) == 0
    ensures Progress(3, -1) == -33
  {
  }

  /** Past `MAX_EXACT_BYTES` the product `downloaded * 100L` wraps, and even a
      complete download reads as a negative percentage. */
  lemma ProgressOverflowExample()
    ensures Progress(100_000_000_000_000_000, 100_000_000_000_000_000) == -84
  {
  }
}
