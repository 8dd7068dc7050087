/** `download_file` of riddle.py: one URL fetched to one destination path, then checked by
    the quality gate. The network transfer and the image decoder are inputs (a `Fetch`),
    and the file system is the set of paths of existing files. */
module Download {
  import opened Wrappers
  import opened Arith

  /** The three transfer errors `download_file` catches. */
  datatype TransferError = ConnectionError | HTTPError | URLError

  /** The result of `urlopen(...).read()`: the number of bytes written, or a caught error. */
  datatype Transfer = Received(bytes: nat) | Failed(error: TransferError)

  datatype Dims = Dims(width: nat, height: nat)

  /** What the outside world answers for one URL: the transfer, what opening the written
      file as an image gives (`None` when that raises `IOError`), and whether removing the
      file succeeds (`false` when `os.remove` raises an `OSError`, which the same handler
      catches). */
  datatype Fetch = Fetch(transfer: Transfer, image: Option<Dims>, removable: bool)

  /** The quality thresholds, and whether the gate is active at all: it only runs when
      riddle.py is the main script. */
  datatype Settings = Settings(minSize: int, minMp: real, scriptMode: bool)

  const DefaultMinSize: int := 5
  const DefaultMinMp: real := 0.5

  /** What one call reports and leaves behind: the returned flag, and whether the destination
      file still exists afterwards. */
  datatype Outcome = Outcome(success: bool, kept: bool)

  /** `round(bytes / 1000)`: kilobytes rounded to the nearest integer, ties to even. */
  function RoundKb(bytes: nat): (kb: nat)
    ensures 2 * Abs(1000 * kb - bytes) <= 1000
    ensures 2 * Abs(1000 * kb - bytes) == 1000 ==> kb % 2 == 0
  {
    var q, r := bytes / 1000, bytes % 1000;
    if r > 500 || (r == 500 && q % 2 == 1) then q + 1 else q
  }

  /** `(width * height) / 1000000`: millions of pixels, exactly. */
  function Megapixels(d: Dims): (mp: real)
    ensures mp >= 0.0
    ensures mp * 1000000.0 == (d.width * d.height) as real
  {
    (d.width * d.height) as real / 1000000.0
  }

  /** A decoded image of `bytes` bytes survives the gate: it is not under `minSize`
      kilobytes (after rounding) and not under `minMp` megapixels. */
  predicate PassesGate(bytes: nat, d: Dims, s: Settings)
    ensures PassesGate(bytes, d, s) ==> 2 * bytes >= 2000 * s.minSize - 1000
    ensures bytes >= 1000 * s.minSize && 1000000.0 * s.minMp <= (d.width * d.height) as real ==>
      PassesGate(bytes, d, s)
  {
    RoundKb(bytes) >= s.minSize && Megapixels(d) >= s.minMp
  }

  /** The specification of `download_file`. A removal that fails is caught by the `IOError`
      handler, so a rejected image whose removal fails stays on disk and, because the handler
      skips `success = False`, is still reported as a success. */
  function DownloadOutcome(fetch: Fetch, s: Settings): (o: Outcome)
    ensures o.success <==>
      fetch.transfer.Received? &&
      (fetch.image.None? || !s.scriptMode || !fetch.removable ||
       PassesGate(fetch.transfer.bytes, fetch.image.value, s))
    ensures o.kept <==> o.success || fetch.image.None? || !s.scriptMode || !fetch.removable
  {
    var transferred := fetch.transfer.Received?;
    match fetch.image
    case None => Outcome(transferred, true)
    case Some(d) =>
      if !s.scriptMode then Outcome(transferred, true)
      else if !transferred then Outcome(false, !fetch.removable)
      else if RoundKb(fetch.transfer.bytes) < s.minSize || Megapixels(d) < s.minMp then
        Outcome(!fetch.removable, !fetch.removable)
      else Outcome(true, true)
  }

  /** `download_file(url, dest)`: `files` are the existing files before the call. The
      destination is created (truncated) first; a caught transfer error leaves it empty. */
  method DownloadFile(dest: string, fetch: Fetch, s: Settings, files: set<string>)
    returns (success: bool, filesAfter: set<string>)
    ensures success == DownloadOutcome(fetch, s).success
    ensures filesAfter == if DownloadOutcome(fetch, s).kept then files + {dest} else files - {dest}
  {
    filesAfter := files + {dest};
    var size := 0;
    success := false;
    match fetch.transfer {
      case Received(n) =>
        size := n;
        success := true;
      case Failed(_) =>
    }
    match fetch.image {
      case None =>
      case Some(d) =>
        var fileSize := RoundKb(size);
        if s.scriptMode {
          if !success {
            if fetch.removable {
              filesAfter := filesAfter - {dest};
            }
          } else if fileSize < s.minSize || Megapixels(d) < s.minMp {
            if fetch.removable {
              filesAfter := filesAfter - {dest};
              success := false;
            }
          }
        }
    }
  }

  /** Whole kilobytes round to themselves. */
  lemma RoundKbExact(k: nat)
    ensures RoundKb(1000 * k) == k
  {
    var r := RoundKb(1000 * k);
    assert 2 * Abs(1000 * r - 1000 * k) <= 1000;
  }

  /** More bytes never round to fewer kilobytes. */
  lemma RoundKbMonotone(b1: nat, b2: nat)
    requires b1 <= b2
    ensures RoundKb(b1) <= RoundKb(b2)
  {
  }

  /** The gate's boundary: an image of exactly the minimum size and the minimum megapixels
      passes; one kilobyte less, or fewer megapixels, does not. */
  lemma GateBoundary(k: nat, d: Dims, s: Settings)
    requires s.minSize == k && s.minMp == Megapixels(d)
    ensures PassesGate(1000 * k, d, s)
    ensures k >= 1 ==> !PassesGate(1000 * (k - 1), d, s)
    ensures forall d' :: Megapixels(d') < s.minMp ==> !PassesGate(1000 * k, d', s)
  {
    RoundKbExact(k);
    if k >= 1 {
      RoundKbExact(k - 1);
    }
  }

  /** A bigger file with at least as many pixels passes whenever a smaller one does. */
  lemma GateMonotone(b1: nat, d1: Dims, b2: nat, d2: Dims, s: Settings)
    requires b1 <= b2 && d1.width <= d2.width && d1.height <= d2.height
    requires PassesGate(b1, d1, s)
    ensures PassesGate(b2, d2, s)
  {
    RoundKbMonotone(b1, b2);
    MulLe(d1.width, d2.width, d1.height);
    MulLe(d1.height, d2.height, d2.width);
    assert d1.width * d1.height <= d2.width * d2.height;
  }

  /** A failed transfer whose empty file cannot be decoded is reported as a failure but the
      empty file stays on disk. */
  lemma FailedTransferLeavesFile(e: TransferError, removable: bool, s: Settings)
    ensures DownloadOutcome(Fetch(Failed(e), None, removable), s) == Outcome(false, true)
  {
  }

  /** A rejected image whose removal fails is kept and reported as downloaded. */
  lemma FailedRemovalKeepsRejected(bytes: nat, d: Dims, s: Settings)
    requires s.scriptMode && !PassesGate(bytes, d, s)
    ensures DownloadOutcome(Fetch(Received(bytes), Some(d), false), s) == Outcome(true, true)
    ensures DownloadOutcome(Fetch(Received(bytes), Some(d), true), s) == Outcome(false, false)
  {
  }

  /** The gate at the default thresholds of 5 kilobytes and half a megapixel. */
  lemma DefaultGateExamples()
    ensures var s := Settings(DefaultMinSize, DefaultMinMp, true);
      PassesGate(5000, Dims(1000, 500), s) &&
      PassesGate(4501, Dims(1000, 500), s) &&
      !PassesGate(4500, Dims(1000, 500), s) &&
      !PassesGate(5000, Dims(999, 500), s)
  {
    assert RoundKb(4501) == 5;
    assert RoundKb(4500) == 4;
  }
}
