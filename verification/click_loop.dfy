/**
 The click loop run by one started clicker: it captures the pointer position
 once, then on every lap moves to that position, clicks, and advances a
 counting window that triggers a rate report every `threshold` clicks.
 */
module ClickLoop {

  /** Clicks per rate report. */
  const ClicksLogThreshold: int := 400

  /** The click count is an unsigned 64-bit integer and wraps around. */
  const Uint64Modulus: int := 0x1_0000_0000_0000_0000

  /** The loop's local counters: clicks so far in this run, and laps left
      until the next report. */
  datatype Window = Window(clicks: nat, counter: int)

  /** A fresh window, as every started clicker begins with. */
  function NewWindow(threshold: int): Window
  {
    Window(0, threshold)
  }

  /** One lap's bookkeeping: count the click, count down, and on reaching zero
      report and restart the countdown. */
  datatype LapResult = LapResult(window: Window, reported: bool)

  function Lap(w: Window, threshold: int): (r: LapResult)
    requires w.clicks < Uint64Modulus
    ensures r.window.clicks == (w.clicks + 1) % Uint64Modulus
    ensures r.window.clicks < Uint64Modulus
    ensures r.reported <==> w.counter == 1
    ensures r.reported ==> r.window.counter == threshold
    ensures !r.reported ==> r.window.counter == w.counter - 1
  {
    var clicks := (w.clicks + 1) % Uint64Modulus;
    var counter := w.counter - 1;
    if counter == 0 then LapResult(Window(clicks, threshold), true)
    else LapResult(Window(clicks, counter), false)
  }

  /** The window after `n` laps of one run. */
  function Laps(threshold: int, n: nat): (w: Window)
    ensures w.clicks < Uint64Modulus
  {
    if n == 0 then NewWindow(threshold) else Lap(Laps(threshold, n - 1), threshold).window
  }

  /** Division with remainder is unique. */
  lemma ModUnique(a: int, t: int, q: int, r: int)
    requires t > 0 && 0 <= r < t && a == q * t + r
    ensures a % t == r && a / t == q
  {
    var k := a / t - q;
    assert k * t == r - a % t by {
      assert a == (a / t) * t + a % t;
      assert k * t == (a / t) * t - q * t;
    }
  }

  lemma ModSucc(n: nat, t: int)
    requires t > 0
    ensures (n + 1) % t == if n % t == t - 1 then 0 else n % t + 1
    ensures (n + 1) / t == if n % t == t - 1 then n / t + 1 else n / t
  {
    var q := n / t;
    assert n == q * t + n % t;
    if n % t == t - 1 {
      ModUnique(n + 1, t, q + 1, 0);
    } else {
      ModUnique(n + 1, t, q, n % t + 1);
    }
  }

  /** After `n` laps of a run the click count is `n` modulo 2^64. */
  lemma {:induction false} WindowClicks(threshold: int, n: nat)
    ensures Laps(threshold, n).clicks == n % Uint64Modulus
  {
    if n > 0 {
      var prev := Laps(threshold, n - 1);
      WindowClicks(threshold, n - 1);
      assert prev.clicks == (n - 1) % Uint64Modulus;
      assert Laps(threshold, n).clicks == (prev.clicks + 1) % Uint64Modulus;
      ModSucc(n - 1, Uint64Modulus);
      if (n - 1) % Uint64Modulus == Uint64Modulus - 1 {
        assert prev.clicks + 1 == Uint64Modulus;
        assert (prev.clicks + 1) % Uint64Modulus == 0;
      } else {
        assert prev.clicks + 1 < Uint64Modulus;
        ModUnique(prev.clicks + 1, Uint64Modulus, 0, prev.clicks + 1);
      }
    }
  }

  /** After `n` laps of a run the countdown is `threshold - n % threshold`,
      so it always stays between 1 and `threshold`. */
  lemma {:induction false} WindowCounter(threshold: int, n: nat)
    requires threshold > 0
    ensures Laps(threshold, n).counter == threshold - n % threshold
    ensures 1 <= Laps(threshold, n).counter <= threshold
  {
    if n > 0 {
      var prev := Laps(threshold, n - 1);
      WindowCounter(threshold, n - 1);
      assert prev.counter == threshold - (n - 1) % threshold;
      var next := Lap(prev, threshold);
      assert Laps(threshold, n) == next.window;
      ModSucc(n - 1, threshold);
      if prev.counter == 1 {
        assert (n - 1) % threshold == threshold - 1;
        assert n % threshold == 0;
        assert next.window.counter == threshold;
      } else {
        assert (n - 1) % threshold != threshold - 1;
        assert n % threshold == (n - 1) % threshold + 1;
        assert next.window.counter == prev.counter - 1;
      }
    }
  }

  /** The window invariant: after `n` laps the click count is `n` (modulo
      2^64) and the countdown is `threshold - n % threshold`, so it always
      stays between 1 and `threshold`. */
  lemma WindowInvariant(threshold: int, n: nat)
    requires threshold > 0
    ensures Laps(threshold, n).clicks == n % Uint64Modulus
    ensures Laps(threshold, n).counter == threshold - n % threshold
    ensures 1 <= Laps(threshold, n).counter <= threshold
  {
    WindowClicks(threshold, n);
    WindowCounter(threshold, n);
  }

  /** Before the click count wraps, the countdown is determined by the click
      count alone: `counter == threshold - clicks % threshold`. */
  lemma CounterFollowsClicks(threshold: int, n: nat)
    requires threshold > 0 && n < Uint64Modulus
    ensures Laps(threshold, n).clicks == n
    ensures Laps(threshold, n).counter == threshold - Laps(threshold, n).clicks % threshold
  {
    WindowInvariant(threshold, n);
    ModUnique(n, Uint64Modulus, 0, n);
  }

  /** Lap `n + 1` of a run reports exactly when `n + 1` is a multiple of the
      threshold. */
  lemma ReportsOnMultiples(threshold: int, n: nat)
    requires threshold > 0
    ensures Lap(Laps(threshold, n), threshold).reported <==> (n + 1) % threshold == 0
  {
    WindowInvariant(threshold, n);
    ModSucc(n, threshold);
  }

  /** With the program's threshold of 400, a rate report comes exactly on
      laps 400, 800, 1200, ... of a run. */
  lemma ReportEvery400Clicks(n: nat)
    ensures Lap(Laps(ClicksLogThreshold, n), ClicksLogThreshold).reported <==> (n + 1) % 400 == 0
  {
    ReportsOnMultiples(ClicksLogThreshold, n);
  }

  /** What a run does, in order. */
  datatype Output = MoveTo(x: int, y: int) | Click | Report(clicks: nat)

  function CountClicks(out: seq<Output>): nat
  {
    if |out| == 0 then 0 else CountClicks(out[..|out| - 1]) + (if out[|out| - 1].Click? then 1 else 0)
  }

  function CountReports(out: seq<Output>): nat
  {
    if |out| == 0 then 0 else CountReports(out[..|out| - 1]) + (if out[|out| - 1].Report? then 1 else 0)
  }

  /** Reference output of a run of `n` laps: each lap moves to the captured
      position, clicks, and reports the click count when the window closes. */
  function ClickerOutput(x: int, y: int, threshold: int, n: nat): seq<Output>
  {
    if n == 0 then []
    else
      var lap := Lap(Laps(threshold, n - 1), threshold);
      ClickerOutput(x, y, threshold, n - 1) + [MoveTo(x, y), Click]
        + (if lap.reported then [Report(lap.window.clicks)] else [])
  }

  lemma {:induction false} CountAppend(a: seq<Output>, b: seq<Output>)
    ensures CountClicks(a + b) == CountClicks(a) + CountClicks(b)
    ensures CountReports(a + b) == CountReports(a) + CountReports(b)
  {
    if |b| > 0 {
      assert (a + b)[..|a + b| - 1] == a + b[..|b| - 1];
      CountAppend(a, b[..|b| - 1]);
    } else {
      assert a + b == a;
    }
  }

  /** The last lap of a run appends a move, a click and possibly a report. */
  lemma ClickerOutputSucc(x: int, y: int, threshold: int, n: nat)
    ensures var lap := Lap(Laps(threshold, n), threshold);
            ClickerOutput(x, y, threshold, n + 1) ==
              ClickerOutput(x, y, threshold, n) + [MoveTo(x, y), Click]
                + (if lap.reported then [Report(lap.window.clicks)] else [])
  {
  }

  /** Every move of a run goes to the captured position, and every click comes
      right after such a move. */
  lemma {:induction false} ClickerOutputMoves(x: int, y: int, threshold: int, n: nat)
    ensures var out := ClickerOutput(x, y, threshold, n);
            && (forall i :: 0 <= i < |out| && out[i].MoveTo? ==> out[i] == MoveTo(x, y))
            && (forall i :: 0 <= i < |out| && out[i].Click? ==> 0 < i && out[i - 1] == MoveTo(x, y))
  {
    if n > 0 {
      ClickerOutputMoves(x, y, threshold, n - 1);
      ClickerOutputSucc(x, y, threshold, n - 1);
      var prev := ClickerOutput(x, y, threshold, n - 1);
      var out := ClickerOutput(x, y, threshold, n);
      forall i | 0 <= i < |out|
        ensures out[i].MoveTo? ==> out[i] == MoveTo(x, y)
        ensures out[i].Click? ==> 0 < i && out[i - 1] == MoveTo(x, y)
      {
        if i < |prev| {
          assert out[i] == prev[i];
          if 0 < i { assert out[i - 1] == prev[i - 1]; }
        } else if i == |prev| {
          assert out[i] == MoveTo(x, y);
        } else if i == |prev| + 1 {
          assert out[i] == Click && out[i - 1] == MoveTo(x, y);
        } else {
          assert out[i].Report?;
        }
      }
    }
  }

  lemma CountMoveClick(x: int, y: int)
    ensures CountClicks([MoveTo(x, y), Click]) == 1
    ensures CountReports([MoveTo(x, y), Click]) == 0
  {
    var one := [MoveTo(x, y)];
    var two := one + [Click];
    assert one[..0] == [];
    assert CountClicks(one) == 0 && CountReports(one) == 0;
    assert two[..1] == one;
    assert two[1] == Click;
    assert two == [MoveTo(x, y), Click];
  }

  /** One more lap adds one click, and one report when the lap reports. */
  lemma ClickerOutputCountStep(x: int, y: int, threshold: int, n: nat)
    ensures CountClicks(ClickerOutput(x, y, threshold, n + 1)) == CountClicks(ClickerOutput(x, y, threshold, n)) + 1
    ensures CountReports(ClickerOutput(x, y, threshold, n + 1)) ==
              CountReports(ClickerOutput(x, y, threshold, n))
                + (if Lap(Laps(threshold, n), threshold).reported then 1 else 0)
  {
    ClickerOutputSucc(x, y, threshold, n);
    var prev := ClickerOutput(x, y, threshold, n);
    var lap := Lap(Laps(threshold, n), threshold);
    var rep: seq<Output> := if lap.reported then [Report(lap.window.clicks)] else [];
    var moved := prev + [MoveTo(x, y), Click];
    CountMoveClick(x, y);
    CountAppend(prev, [MoveTo(x, y), Click]);
    CountAppend(moved, rep);
    if lap.reported {
      assert rep[..0] == [];
    }
  }

  /** The report count grows by one exactly on laps that close the window. */
  lemma ReportCountStep(threshold: int, n: nat)
    requires threshold > 0
    ensures (n + 1) / threshold == n / threshold + (if Lap(Laps(threshold, n), threshold).reported then 1 else 0)
  {
    ReportsOnMultiples(threshold, n);
    ModSucc(n, threshold);
  }

  /** A run of `n` laps clicks `n` times and reports `n / threshold` times. */
  lemma {:induction false} ClickerOutputCounts(x: int, y: int, threshold: int, n: nat)
    requires threshold > 0
    ensures CountClicks(ClickerOutput(x, y, threshold, n)) == n
    ensures CountReports(ClickerOutput(x, y, threshold, n)) == n / threshold
  {
    if n > 0 {
      ClickerOutputCounts(x, y, threshold, n - 1);
      ClickerOutputCountStep(x, y, threshold, n - 1);
      ReportCountStep(threshold, n - 1);
    }
  }

  /** A lap that reports is lap `n` for a positive multiple `n` of the
      threshold, and the report carries `n` modulo 2^64. */
  lemma ReportAfterLap(threshold: int, n: nat)
    requires threshold > 0 && n > 0
    requires Lap(Laps(threshold, n - 1), threshold).reported
    ensures n >= threshold && n % threshold == 0
    ensures Lap(Laps(threshold, n - 1), threshold).window.clicks == n % Uint64Modulus
  {
    ReportsOnMultiples(threshold, n - 1);
    WindowInvariant(threshold, n);
    if n < threshold {
      ModUnique(n, threshold, 0, n);
    }
  }

  /** Each report of a run comes after a positive multiple of `threshold`
      clicks of this run, and carries exactly that count (modulo 2^64). */
  lemma {:induction false} ClickerOutputReports(x: int, y: int, threshold: int, n: nat)
    requires threshold > 0
    ensures var out := ClickerOutput(x, y, threshold, n);
            forall i :: 0 <= i < |out| && out[i].Report? ==>
              CountClicks(out[..i]) >= threshold &&
              CountClicks(out[..i]) % threshold == 0 &&
              out[i].clicks == CountClicks(out[..i]) % Uint64Modulus
  {
    if n > 0 {
      ClickerOutputReports(x, y, threshold, n - 1);
      ClickerOutputSucc(x, y, threshold, n - 1);
      ClickerOutputCounts(x, y, threshold, n - 1);
      var prev := ClickerOutput(x, y, threshold, n - 1);
      var moved := prev + [MoveTo(x, y), Click];
      var out := ClickerOutput(x, y, threshold, n);
      CountAppend(prev, [MoveTo(x, y), Click]);
      CountMoveClick(x, y);
      assert CountClicks(moved) == n;
      if Lap(Laps(threshold, n - 1), threshold).reported {
        ReportAfterLap(threshold, n);
      }
      forall i | 0 <= i < |out| && out[i].Report?
        ensures CountClicks(out[..i]) >= threshold
        ensures CountClicks(out[..i]) % threshold == 0
        ensures out[i].clicks == CountClicks(out[..i]) % Uint64Modulus
      {
        if i < |prev| {
          assert out[..i] == prev[..i];
          assert out[i] == prev[i];
        } else {
          assert i == |moved|;
          assert out[..i] == moved;
        }
      }
    }
  }

  /** A clicker run of `laps` laps at the position (x, y) captured when it
      started. The output is the reference `ClickerOutput`: every click comes
      right after a move to that one position, there is one click per lap,
      one report per `threshold` clicks, and each report carries the number
      of clicks this run has made so far, nothing from an earlier run.
      How many laps run is decided by the running flag, which the dispatch
      loop clears concurrently; here it is a parameter. */
  method Clicker(x: int, y: int, threshold: int, laps: nat) returns (out: seq<Output>, w: Window)
    requires threshold > 0
    ensures w == Laps(threshold, laps)
    ensures out == ClickerOutput(x, y, threshold, laps)
    ensures forall i :: 0 <= i < |out| && out[i].MoveTo? ==> out[i] == MoveTo(x, y)
    ensures forall i :: 0 <= i < |out| && out[i].Click? ==> 0 < i && out[i - 1] == MoveTo(x, y)
    ensures CountClicks(out) == laps
    ensures CountReports(out) == laps / threshold
    ensures forall i :: 0 <= i < |out| && out[i].Report? ==>
              CountClicks(out[..i]) >= threshold &&
              CountClicks(out[..i]) % threshold == 0 &&
              out[i].clicks == CountClicks(out[..i]) % Uint64Modulus
  {
    out := [];
    w := NewWindow(threshold);
    var n := 0;
    while n < laps
      invariant 0 <= n <= laps
      invariant w == Laps(threshold, n)
      invariant out == ClickerOutput(x, y, threshold, n)
    {
      var lap := Lap(w, threshold);
      out := out + [MoveTo(x, y), Click];
      if lap.reported {
        out := out + [Report(lap.window.clicks)];
      }
      ClickerOutputSucc(x, y, threshold, n);
      w := lap.window;
      n := n + 1;
    }
    ClickerOutputMoves(x, y, threshold, laps);
    ClickerOutputCounts(x, y, threshold, laps);
    ClickerOutputReports(x, y, threshold, laps);
  }
}
