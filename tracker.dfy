/** The counters object the heaps report to (package metrics): four work
    counters, a start/stop timer accumulator, and the CSV line it renders. */
module Metrics {

  /** Work one heap step reports: comparisons, swaps and array accesses.
      Work done in sequence adds up counter by counter; the sums are written
      out field by field wherever two amounts are combined. */
  datatype Cost = Cost(comparisons: int, swaps: int, accesses: int)

  const NoCost := Cost(0, 0, 0)

  /** The six long fields of a tracker, as one value. Java's 64-bit
      wrap-around is not modelled: the counters are unbounded. */
  datatype Counters = Counters(comparisons: int, swaps: int, arrayAccesses: int,
                               allocations: int, startNs: int, elapsedNs: int)
  {
    /** The counters after the heap reports the work c. */
    function Charge(c: Cost): Counters {
      this.(comparisons := comparisons + c.comparisons, swaps := swaps + c.swaps,
            arrayAccesses := arrayAccesses + c.accesses)
    }

    /** The counters after the heap reports an allocation of n slots. */
    function Allocate(n: int): Counters {
      this.(allocations := allocations + n)
    }
  }

  const Zero := Counters(0, 0, 0, 0, 0, 0)

  /** `after` is before.Charge(c): the three work counters grow by c, and
      the allocations and the timer stay as they were. It is stated field by
      field, which the verifier handles much more cheaply than an equation
      between two Counters values. */
  predicate Reported(before: Counters, after: Counters, c: Cost) {
    && after.comparisons == before.comparisons + c.comparisons
    && after.swaps == before.swaps + c.swaps
    && after.arrayAccesses == before.arrayAccesses + c.accesses
    && after.allocations == before.allocations
    && after.startNs == before.startNs
    && after.elapsedNs == before.elapsedNs
  }

  /** Reported is exactly the Charge equation. */
  lemma ReportedIsCharge(before: Counters, after: Counters, c: Cost)
    ensures Reported(before, after, c) <==> after == before.Charge(c)
  {
  }

  /** Two reports in a row are one report of the work added up. */
  lemma ReportsCompose(a: Counters, b: Counters, d: Counters, x: Cost, y: Cost)
    requires Reported(a, b, x) && Reported(b, d, y)
    ensures Reported(a, d, Cost(x.comparisons + y.comparisons, x.swaps + y.swaps, x.accesses + y.accesses))
  {
  }

  /** startTimer with the clock reading `now`: the start mark is overwritten. */
  function Started(c: Counters, now: int): (r: Counters)
    ensures r.startNs == now
    ensures r.(startNs := c.startNs) == c
  {
    c.(startNs := now)
  }

  /** stopTimer with the clock reading `now`. A zero start mark means that
      the timer is not running; then nothing changes. Otherwise the span
      since the start mark is added to the elapsed time and the mark is cleared. */
  function Stopped(c: Counters, now: int): (r: Counters)
    ensures r.startNs == 0
    ensures c.startNs == 0 ==> r == c
    ensures c.startNs != 0 ==> r.elapsedNs - c.elapsedNs == now - c.startNs
    ensures r.(startNs := c.startNs, elapsedNs := c.elapsedNs) == c
  {
    if c.startNs != 0 then c.(elapsedNs := c.elapsedNs + (now - c.startNs), startNs := 0)
    else c
  }

  /** A second stop right after a stop changes nothing. */
  lemma StopTwiceIsStopOnce(c: Counters, now1: int, now2: int)
    ensures Stopped(Stopped(c, now1), now2) == Stopped(c, now1)
  {
  }

  /** A second start before a stop discards the first start mark. */
  lemma RestartDiscardsFirstSpan(c: Counters, now1: int, now2: int, now3: int)
    ensures Stopped(Started(Started(c, now1), now2), now3) == Stopped(Started(c, now2), now3)
  {
  }

  /** Two start/stop cycles accumulate both spans into the elapsed total. */
  lemma SpansAccumulate(c: Counters, t0: int, t1: int, t2: int, t3: int)
    requires t0 != 0 && t2 != 0
    ensures Stopped(Started(Stopped(Started(c, t0), t1), t2), t3).elapsedNs
            == c.elapsedNs + (t1 - t0) + (t3 - t2)
  {
  }

  class PerformanceTracker {
    var comparisons: int
    var swaps: int
    var arrayAccesses: int
    var allocations: int
    var startNs: int
    var elapsedNs: int

    function Snapshot(): Counters
      reads this
    {
      Counters(comparisons, swaps, arrayAccesses, allocations, startNs, elapsedNs)
    }

    /** The implicit Java constructor: every long field starts at 0. */
    constructor ()
      ensures Snapshot() == Zero
    {
      comparisons, swaps, arrayAccesses, allocations := 0, 0, 0, 0;
      startNs, elapsedNs := 0, 0;
    }

    method Reset()
      modifies this
      ensures Snapshot() == Zero
    {
      comparisons := 0;
      swaps := 0;
      arrayAccesses := 0;
      allocations := 0;
      startNs := 0;
      elapsedNs := 0;
    }

    method IncComparisons()
      modifies this
      ensures Reported(old(Snapshot()), Snapshot(), Cost(1, 0, 0))
    {
      comparisons := comparisons + 1;
    }

    method IncComparisonsBy(n: int)
      modifies this
      ensures Reported(old(Snapshot()), Snapshot(), Cost(n, 0, 0))
    {
      comparisons := comparisons + n;
    }

    method IncSwaps()
      modifies this
      ensures Reported(old(Snapshot()), Snapshot(), Cost(0, 1, 0))
    {
      swaps := swaps + 1;
    }

    method IncSwapsBy(n: int)
      modifies this
      ensures Reported(old(Snapshot()), Snapshot(), Cost(0, n, 0))
    {
      swaps := swaps + n;
    }

    method IncArrayAccesses()
      modifies this
      ensures Reported(old(Snapshot()), Snapshot(), Cost(0, 0, 1))
    {
      arrayAccesses := arrayAccesses + 1;
    }

    method IncArrayAccessesBy(n: int)
      modifies this
      ensures Reported(old(Snapshot()), Snapshot(), Cost(0, 0, n))
    {
      arrayAccesses := arrayAccesses + n;
    }

    method IncAllocations()
      modifies this
      ensures Snapshot() == old(Snapshot()).Allocate(1)
    {
      allocations := allocations + 1;
    }

    method IncAllocationsBy(n: int)
      modifies this
      ensures Snapshot() == old(Snapshot()).Allocate(n)
    {
      allocations := allocations + n;
    }

    /** `now` stands for the System.nanoTime() reading. */
    method StartTimer(now: int)
      modifies this
      ensures Snapshot() == Started(old(Snapshot()), now)
    {
      startNs := now;
    }

    /** `now` stands for the System.nanoTime() reading. */
    method StopTimer(now: int)
      modifies this
      ensures Snapshot() == Stopped(old(Snapshot()), now)
    {
      if startNs != 0 {
        elapsedNs := elapsedNs + (now - startNs);
        startNs := 0;
      }
    }

    function GetComparisons(): (r: int)
      reads this
      ensures r == Snapshot().comparisons
    {
      comparisons
    }

    function GetSwaps(): (r: int)
      reads this
      ensures r == Snapshot().swaps
    {
      swaps
    }

    function GetArrayAccesses(): (r: int)
      reads this
      ensures r == Snapshot().arrayAccesses
    {
      arrayAccesses
    }

    function GetAllocations(): (r: int)
      reads this
      ensures r == Snapshot().allocations
    {
      allocations
    }

    function GetElapsedNs(): (r: int)
      reads this
      ensures r == Snapshot().elapsedNs
    {
      elapsedNs
    }

    /** toCsv: the format string has six placeholders for seven arguments, so
        the allocations counter never reaches the line, which therefore has
        one column fewer than the header. */
    function ToCsv(operation: string, n: int): (r: string)
      reads this
      ensures ',' !in operation ==>
                SplitColumns(r) == [operation, Decimal(n), Decimal(elapsedNs), Decimal(comparisons),
                                    Decimal(swaps), Decimal(arrayAccesses)]
      ensures ',' !in operation ==> |SplitColumns(r)| == |SplitColumns(CsvHeader())| - 1
    {
      var fields := [operation, Decimal(n), Decimal(GetElapsedNs()), Decimal(GetComparisons()),
                     Decimal(GetSwaps()), Decimal(GetArrayAccesses())];
      var line := JoinColumns(fields);
      assert ',' !in operation ==> SplitColumns(line) == fields by {
        if ',' !in operation {
          DecimalHasNoComma(n);
          DecimalHasNoComma(elapsedNs);
          DecimalHasNoComma(comparisons);
          DecimalHasNoComma(swaps);
          DecimalHasNoComma(arrayAccesses);
          SplitJoin(fields);
        }
      }
      line
    }
  }

  const CSV_COLUMNS: seq<string> :=
    ["operation", "n", "time_ns", "comparisons", "swaps", "array_accesses", "allocations"]

  /** csvHeader: the seven column names above, separated by commas. */
  function CsvHeader(): (r: string)
    ensures SplitColumns(r) == CSV_COLUMNS
  {
    SplitJoin(CSV_COLUMNS);
    JoinColumns(CSV_COLUMNS)
  }

  // ---------------------------------------------------------------------
  // The text that String.format builds: decimal numbers and comma-separated
  // columns, each with an inverse that recovers what was written.

  predicate IsDigit(c: char) {
    '0' <= c <= '9'
  }

  function DigitChar(d: nat): (c: char)
    requires d < 10
    ensures IsDigit(c) && (c as int) - ('0' as int) == d
  {
    (('0' as int) + d) as char
  }

  /** The decimal digits of n, most significant first, without leading zeros. */
  function Digits(n: nat): (r: string)
    ensures |r| > 0 && forall i :: 0 <= i < |r| ==> IsDigit(r[i])
    ensures n > 0 ==> r[0] != '0'
    decreases n
  {
    if n < 10 then [DigitChar(n)] else Digits(n / 10) + [DigitChar(n % 10)]
  }

  /** What %d prints for a long: a minus sign for negative values, then the digits. */
  function Decimal(x: int): (r: string)
    ensures |r| > 0 && forall i :: 0 <= i < |r| ==> IsDigit(r[i]) || (i == 0 && r[i] == '-')
    ensures (r[0] == '-') == (x < 0) && |r| > (if x < 0 then 1 else 0)
    ensures r == "0" || r[if x < 0 then 1 else 0] != '0'
    ensures r == "0" <==> x == 0
  {
    if x < 0 then "-" + Digits(-x) else Digits(x)
  }

  function ParseDigits(s: string): int
  {
    if s == [] then 0 else ParseDigits(s[..|s| - 1]) * 10 + ((s[|s| - 1] as int) - ('0' as int))
  }

  function ParseDecimal(s: string): int
  {
    if |s| > 0 && s[0] == '-' then -ParseDigits(s[1..]) else ParseDigits(s)
  }

  lemma {:induction false} DigitsRoundTrip(n: nat)
    ensures ParseDigits(Digits(n)) == n
    decreases n
  {
    if n >= 10 {
      DigitsRoundTrip(n / 10);
      var s := Digits(n);
      assert s[..|s| - 1] == Digits(n / 10);
    }
  }

  /** Reading a printed number back gives the number. */
  lemma DecimalRoundTrip(x: int)
    ensures ParseDecimal(Decimal(x)) == x
  {
    if x < 0 {
      DigitsRoundTrip(-x);
      assert Decimal(x)[1..] == Digits(-x);
    } else {
      DigitsRoundTrip(x);
    }
  }

  lemma DecimalHasNoComma(x: int)
    ensures ',' !in Decimal(x)
  {
  }

  /** Columns separated by commas. */
  function JoinColumns(fields: seq<string>): string
    decreases |fields|
  {
    if |fields| == 0 then ""
    else if |fields| == 1 then fields[0]
    else fields[0] + "," + JoinColumns(fields[1..])
  }

  /** The columns of a CSV line: the pieces between commas. */
  function SplitColumns(s: string): (r: seq<string>)
    ensures |r| >= 1
    decreases |s|
  {
    if |s| == 0 then [""]
    else
      var rest := SplitColumns(s[1..]);
      if s[0] == ',' then [""] + rest else [[s[0]] + rest[0]] + rest[1..]
  }

  lemma {:induction false} SplitPrefix(a: string, b: string)
    requires ',' !in a
    ensures SplitColumns(a + b) == [a + SplitColumns(b)[0]] + SplitColumns(b)[1..]
    decreases |a|
  {
    if |a| > 0 {
      SplitPrefix(a[1..], b);
      assert (a + b)[1..] == a[1..] + b;
      assert [a[0]] + (a[1..] + SplitColumns(b)[0]) == a + SplitColumns(b)[0];
    } else {
      assert a + b == b;
      assert a + SplitColumns(b)[0] == SplitColumns(b)[0];
      assert [SplitColumns(b)[0]] + SplitColumns(b)[1..] == SplitColumns(b);
    }
  }

  /** Splitting a joined line gives back its columns when none holds a comma. */
  lemma {:induction false} SplitJoin(fields: seq<string>)
    requires |fields| >= 1
    requires forall i :: 0 <= i < |fields| ==> ',' !in fields[i]
    ensures SplitColumns(JoinColumns(fields)) == fields
    decreases |fields|
  {
    if |fields| == 1 {
      SplitPrefix(fields[0], "");
      assert fields[0] + "" == fields[0];
    } else {
      var tail := JoinColumns(fields[1..]);
      SplitJoin(fields[1..]);
      SplitPrefix(fields[0], "," + tail);
      assert ("," + tail)[1..] == tail;
      assert fields[0] + "," + tail == fields[0] + ("," + tail);
      assert SplitColumns("," + tail) == [""] + fields[1..];
      assert fields[0] + "" == fields[0];
      assert fields == [fields[0]] + fields[1..];
    }
  }
}
