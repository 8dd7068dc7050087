/** The terminal progress bar of riddle.py: a class whose `progress` and `textlength`
    fields change on every tick, and the pure arithmetic that renders one line of it. */
module Progress {
  import opened Arith

  /** Python's `s * n`: `n` copies of `s`, and the empty string when `n <= 0`. */
  function Repeat(s: string, n: int): (r: string)
    ensures |r| == if n <= 0 then 0 else n * |s|
    ensures |s| == 1 ==> forall i :: 0 <= i < |r| ==> r[i] == s[0]
    ensures |s| > 0 ==> forall i :: 0 <= i < |r| ==> r[i] == s[i % |s|]
  {
    if n <= 0 then []
    else
      var rest := Repeat(s, n - 1);
      PeriodicPrepend(s, rest);
      s + rest
  }

  /** Prepending one period to a string that repeats `s` gives a string that repeats `s`. */
  lemma PeriodicPrepend(s: string, rest: string)
    ensures |s| > 0 && (forall i :: 0 <= i < |rest| ==> rest[i] == s[i % |s|]) ==>
      forall j :: 0 <= j < |s| + |rest| ==> (s + rest)[j] == s[j % |s|]
  {
    if |s| > 0 && (forall i :: 0 <= i < |rest| ==> rest[i] == s[i % |s|]) {
      forall j | 0 <= j < |s| + |rest|
        ensures (s + rest)[j] == s[j % |s|]
      {
        if j >= |s| {
          ModShift(j - |s|, |s|);
          assert (s + rest)[j] == rest[j - |s|];
        } else {
          ModSmall(j, |s|);
        }
      }
    }
  }

  /** Number of filled cells: `length * progress // total` (floor division; `total > 0`). */
  function BarWidth(length: int, progress: int, total: int): (w: int)
    requires total > 0
    ensures w * total <= length * progress < w * total + total
  {
    (length * progress) / total
  }

  /** The bar between the two `|`: filled cells, then `-` up to `length`. */
  function BarText(fill: string, length: int, progress: int, total: int): (bar: string)
    requires total > 0
    ensures var w := BarWidth(length, progress, total);
      |fill| == 1 ==>
        |bar| == (if w > 0 then w else 0) + (if length - w > 0 then length - w else 0) &&
        forall i :: 0 <= i < |bar| ==> bar[i] == if i < w then fill[0] else '-'
  {
    var filled := BarWidth(length, progress, total);
    Repeat(fill, filled) + Repeat("-", length - filled)
  }

  /** The percentage `100 * progress / total` in tenths, rounded to the nearest tenth with
      ties to even, as `"{0:.1f}".format(...)` rounds. */
  function PercentTenths(progress: int, total: int): (tenths: int)
    requires total > 0
    ensures 2 * Abs(total * tenths - 1000 * progress) <= total
    ensures 2 * Abs(total * tenths - 1000 * progress) == total ==> tenths % 2 == 0
  {
    var n := 1000 * progress;
    var q := n / total;
    var rem := n % total;
    assert total * q == n - rem;
    assert total * (q + 1) == n - rem + total;
    if 2 * rem > total || (2 * rem == total && q % 2 == 1) then q + 1 else q
  }

  function DigitChar(d: int): char
    requires 0 <= d < 10
  {
    "0123456789"[d]
  }

  /** Decimal digits of `n`, without leading zeros. */
  function Digits(n: nat): (r: string)
    ensures |r| >= 1 && (|r| > 1 ==> r[0] != '0')
    ensures forall i :: 0 <= i < |r| ==> '0' <= r[i] <= '9'
  {
    if n < 10 then [DigitChar(n)] else Digits(n / 10) + [DigitChar(n % 10)]
  }

  /** The percentage with one decimal, a minus sign for a negative ratio. */
  function PercentText(progress: int, total: int): (text: string)
    requires total > 0
    ensures |text| >= 3 && text[|text| - 2] == '.' && '0' <= text[|text| - 1] <= '9'
    ensures text[0] == '-' <==> progress < 0
  {
    var v := Abs(PercentTenths(progress, total));
    (if progress < 0 then "-" else "") + Digits(v / 10) + "." + [DigitChar(v % 10)]
  }

  /** The line `'\r%s |%s| %s%% %s' % (prefix, bar, percent, suffix)`. */
  function Render(prefix: string, suffix: string, fill: string, length: int, progress: int, total: int): (line: string)
    requires total > 0
    ensures |line| == |prefix| + |BarText(fill, length, progress, total)| + |PercentText(progress, total)| + |suffix| + 7
    ensures line[..|prefix| + 3] == "\r" + prefix + " |"
  {
    "\r" + prefix + " |" + BarText(fill, length, progress, total) + "| "
      + PercentText(progress, total) + "% " + suffix
  }

  /** For `0 <= progress <= total` the filled width lies in `[0, length]`. */
  lemma BarWidthBounds(length: int, progress: int, total: int)
    requires total > 0 && length >= 0 && 0 <= progress <= total
    ensures 0 <= BarWidth(length, progress, total) <= length
  {
    MulLe(progress, total, length);
    MulLe(0, progress, length);
    DivAtMost(length * progress, total, length);
    DivAtLeast(length * progress, total, 0);
  }

  /** The filled width never shrinks as progress grows. */
  lemma BarWidthMonotone(length: int, p1: int, p2: int, total: int)
    requires total > 0 && length >= 0 && p1 <= p2
    ensures BarWidth(length, p1, total) <= BarWidth(length, p2, total)
  {
    var q := BarWidth(length, p1, total);
    assert q * total <= length * p1;
    MulLe(p1, p2, length);
    DivAtLeast(length * p2, total, q);
  }

  /** With a one-character fill and `0 <= progress <= total`, the bar has exactly `length`
      cells: the filled ones first, then `-`. */
  lemma BarTextShape(fill: string, length: int, progress: int, total: int)
    requires total > 0 && length >= 0 && 0 <= progress <= total && |fill| == 1
    ensures |BarText(fill, length, progress, total)| == length
    ensures var w := BarWidth(length, progress, total);
      forall i :: 0 <= i < length ==> BarText(fill, length, progress, total)[i] == if i < w then fill[0] else '-'
  {
    BarWidthBounds(length, progress, total);
  }

  /** The displayed percentage never decreases as progress grows. */
  lemma PercentMonotone(p1: int, p2: int, total: int)
    requires total > 0 && p1 <= p2
    ensures PercentTenths(p1, total) <= PercentTenths(p2, total)
  {
    var r1, r2 := PercentTenths(p1, total), PercentTenths(p2, total);
    if r1 > r2 {
      MulStep(r2, r1, total);
      assert 2000 * p1 >= 2000 * p2;
    }
  }

  /** At `progress == total` the bar is full and reads `100.0`. */
  lemma CompleteRendering(fill: string, length: int, total: int)
    requires total > 0 && length >= 0 && |fill| == 1
    ensures PercentTenths(total, total) == 1000
    ensures PercentText(total, total) == "100.0"
    ensures BarText(fill, length, total, total) == Repeat(fill, length)
  {
    var r := PercentTenths(total, total);
    if r > 1000 {
      MulLe(1001, r, total);
    }
    assert Digits(100) == "100";
    DivAtMost(length * total, total, length);
    DivAtLeast(length * total, total, length);
  }

  class ProgressBar {
    const total: int
    const prefix: string
    const suffix: string
    const length: int
    const fill: string
    var progress: int
    var textlength: nat

    constructor (total: int := 100, prefix: string := "", suffix: string := "",
                 length: int := 50, fill: string := "\U{2588}")
      ensures this.total == total && this.prefix == prefix && this.suffix == suffix
      ensures this.length == length && this.fill == fill
      ensures progress == 0 && textlength == 0
    {
      this.total := total;
      this.prefix := prefix;
      this.suffix := suffix;
      this.length := length;
      this.fill := fill;
      progress := 0;
      textlength := 0;
    }

    /** The line rendered for progress `p`: its bar and percentage between this bar's prefix
        and suffix. */
    function Text(p: int): (line: string)
      requires total > 0
      ensures |line| == |prefix| + |BarText(fill, length, p, total)| + |PercentText(p, total)| + |suffix| + 7
      ensures line[|line| - |suffix|..] == suffix
    {
      Render(prefix, suffix, fill, length, p, total)
    }

    /** What `_print_progress` writes for progress `p`: the line ended by a carriage
        return, and a newline exactly when the bar is complete. */
    function Output(p: int): (out: string)
      requires total > 0
      ensures |out| > |Text(p)| && out[..|Text(p)|] == Text(p)
      ensures out[|out| - 1] == '\n' <==> p == total
    {
      Text(p) + "\r" + (if p == total then "\n" else "")
    }

    /** Re-render; remember the length of the line for `Clear`. */
    method PrintProgress() returns (output: string)
      requires total > 0
      modifies this`textlength
      ensures textlength == |Text(progress)|
      ensures output == Output(progress)
    {
      var text := Text(progress);
      textlength := |text|;
      output := text + "\r";
      if progress == total {
        output := output + "\n";
      }
    }

    /** Advance by exactly one step and re-render. */
    method Tick() returns (output: string)
      requires total > 0
      modifies this
      ensures progress == old(progress) + 1
      ensures textlength == |Text(progress)|
      ensures output == Output(progress)
    {
      progress := progress + 1;
      output := PrintProgress();
    }

    /** Set the progress to `p` and re-render. */
    method SetProgress(p: int) returns (output: string)
      requires total > 0
      modifies this
      ensures progress == p
      ensures textlength == |Text(p)|
      ensures output == Output(p)
    {
      progress := p;
      output := PrintProgress();
    }

    /** Blank out the last rendered line: as many spaces as it had characters, then a
        carriage return. */
    method Clear() returns (output: string)
      ensures |output| == textlength + 1 && output[textlength] == '\r'
      ensures forall i :: 0 <= i < textlength ==> output[i] == ' '
    {
      output := Repeat(" ", textlength) + "\r";
    }
  }
}
