/** The display multiplexer: `displayDigit` pulses one grid with one digit's
    segment pattern, `blinkColon` drives the two colon lines from the
    millisecond counter, and one pass of the main loop shows HH:MM. Each is
    specified by the writes it performs; the lemmas follow the pin levels
    through every prefix of those writes. */
module Multiplexer {
  import opened Board
  import opened PinState

  // --------------------------------------------------------- write sequences

  /** Each pin of `pins`, in order, driven HIGH. */
  function AllHigh(pins: seq<nat>): (r: seq<PinWrite>)
    ensures |r| == |pins|
    ensures forall j :: 0 <= j < |r| ==> r[j].pin == pins[j] && r[j].level == HIGH
  {
    seq(|pins|, i requires 0 <= i < |pins| => PinWrite(pins[i], HIGH))
  }

  /** The first loop of `displayDigit`: every grid is driven HIGH (deselected). */
  function GridsOff(): (r: seq<PinWrite>)
    ensures |r| == NUM_DIGITS && InRange(r, PIN_COUNT)
  {
    AllHigh(GRID_PINS)
  }

  /** What `setup` writes: grids, segments and colon lines HIGH, then the
      colon grid LOW. */
  function SetupWrites(): (r: seq<PinWrite>)
    ensures InRange(r, PIN_COUNT)
  {
    AllHigh(GRID_PINS) + AllHigh(SEGMENT_PINS) + AllHigh(COLON_PINS) + [PinWrite(COLON_GRID, LOW)]
  }

  /** The second loop: segment line i gets entry i of the digit's pattern. */
  function SegmentWrites(digit: nat): (r: seq<PinWrite>)
    requires digit < 10
    ensures |r| == NUM_SEGMENTS && InRange(r, PIN_COUNT)
  {
    seq(NUM_SEGMENTS, i requires 0 <= i < NUM_SEGMENTS => PinWrite(SEGMENT_PINS[i], Pattern(digit)[i]))
  }

  /** Everything `displayDigit(grid, digit)` writes: grids off, segments, then
      the selected grid LOW for the hold interval and HIGH again. */
  function DisplayWrites(grid: nat, digit: nat): (r: seq<PinWrite>)
    requires grid < NUM_DIGITS && digit < 10
    ensures |r| == NUM_DIGITS + NUM_SEGMENTS + 2 && InRange(r, PIN_COUNT)
  {
    GridsOff() + SegmentWrites(digit)
      + [PinWrite(GRID_PINS[grid], LOW), PinWrite(GRID_PINS[grid], HIGH)]
  }

  /** The colon is lit (LOW) during the first half of every second of `millis`. */
  function ColonLevel(millis: nat): Level
  {
    if millis % 1000 < 500 then LOW else HIGH
  }

  /** What `blinkColon` writes: both colon lines to the same level. */
  function ColonWrites(millis: nat): (r: seq<PinWrite>)
    ensures |r| == 2 && InRange(r, PIN_COUNT)
  {
    [PinWrite(COLON_PINS[0], ColonLevel(millis)), PinWrite(COLON_PINS[1], ColonLevel(millis))]
  }

  /** The writes of the first `n` digits of one pass of the main loop. */
  function DigitPassWrites(hour: nat, minute: nat, n: nat): (r: seq<PinWrite>)
    requires hour < 24 && minute < 60 && n <= NUM_DIGITS
    ensures |r| == n * (NUM_DIGITS + NUM_SEGMENTS + 2) && InRange(r, PIN_COUNT)
  {
    if n == 0 then []
    else DigitPassWrites(hour, minute, n - 1) + DisplayWrites(n - 1, DigitAt(n - 1, hour, minute))
  }

  /** One pass of the main loop once the time is known: the four digits of
      HH:MM, then the colon. */
  function FrameWrites(hour: nat, minute: nat, millis: nat): (r: seq<PinWrite>)
    requires hour < 24 && minute < 60
    ensures InRange(r, PIN_COUNT)
  {
    DigitPassWrites(hour, minute, NUM_DIGITS) + ColonWrites(millis)
  }

  // ------------------------------------------------------ states of the grids

  predicate AllGridsHigh(s: seq<Level>)
    requires |s| == PIN_COUNT
  {
    forall i :: 0 <= i < NUM_DIGITS ==> s[GRID_PINS[i]] == HIGH
  }

  /** No grid other than `grid` is selected. */
  predicate OnlyGridMayBeLow(s: seq<Level>, grid: nat)
    requires |s| == PIN_COUNT
  {
    forall i :: 0 <= i < NUM_DIGITS && i != grid ==> s[GRID_PINS[i]] == HIGH
  }

  /** At most one grid is selected: no digit's segments bleed into another's. */
  predicate AtMostOneGridLow(s: seq<Level>)
    requires |s| == PIN_COUNT
  {
    forall i, j :: 0 <= i < NUM_DIGITS && 0 <= j < NUM_DIGITS && s[GRID_PINS[i]] == LOW && s[GRID_PINS[j]] == LOW ==> i == j
  }

  /** Every state visited while performing `w` from `s` selects at most one grid. */
  predicate ExclusiveThroughout(s: seq<Level>, w: seq<PinWrite>)
    requires |s| == PIN_COUNT && InRange(w, PIN_COUNT)
  {
    forall k :: 0 <= k <= |w| ==> AtMostOneGridLow(Apply(s, w[..k]))
  }

  /** A write that cannot select a grid other than `grid`. */
  predicate KeepsOthersOff(x: PinWrite, grid: nat)
    requires grid < NUM_DIGITS
  {
    x.level == HIGH || x.pin == GRID_PINS[grid] || !IsGridPin(x.pin)
  }

  // ----------------------------------------------------------------- lemmas

  /** Selecting one grid implies selecting at most one. */
  lemma OnlyOneMeansAtMostOne(s: seq<Level>, grid: nat)
    requires |s| == PIN_COUNT && OnlyGridMayBeLow(s, grid)
    ensures AtMostOneGridLow(s)
  {
  }

  /** Writes that never select another grid keep "only `grid` may be selected". */
  lemma {:induction false} KeepsOnlyGrid(s: seq<Level>, w: seq<PinWrite>, grid: nat)
    requires |s| == PIN_COUNT && InRange(w, PIN_COUNT) && grid < NUM_DIGITS
    requires OnlyGridMayBeLow(s, grid)
    requires forall j :: 0 <= j < |w| ==> KeepsOthersOff(w[j], grid)
    ensures OnlyGridMayBeLow(Apply(s, w), grid)
    decreases |w|
  {
    if w != [] {
      var init, last := w[..|w| - 1], w[|w| - 1];
      KeepsOnlyGrid(s, init, grid);
      var t := Apply(s, init);
      assert Apply(s, w) == t[last.pin := last.level];
      PinTablesDisjoint();
      forall i | 0 <= i < NUM_DIGITS && i != grid ensures Apply(s, w)[GRID_PINS[i]] == HIGH {
        if last.pin == GRID_PINS[i] {
          assert KeepsOthersOff(last, grid);
        }
      }
    }
  }

  /** The whole of `displayDigit`'s write sequence never selects another grid. */
  lemma DisplayWritesKeepOthersOff(grid: nat, digit: nat)
    requires grid < NUM_DIGITS && digit < 10
    ensures forall j :: 0 <= j < |DisplayWrites(grid, digit)| ==> KeepsOthersOff(DisplayWrites(grid, digit)[j], grid)
  {
    PinTablesDisjoint();
    var w := DisplayWrites(grid, digit);
    forall j | 0 <= j < |w| ensures KeepsOthersOff(w[j], grid) {
      if j < NUM_DIGITS {
        assert w[j] == GridsOff()[j];
      } else if j < NUM_DIGITS + NUM_SEGMENTS {
        assert w[j] == SegmentWrites(digit)[j - NUM_DIGITS];
        assert !IsGridPin(SEGMENT_PINS[j - NUM_DIGITS]);
      }
    }
  }

  /** Grid exclusivity during `displayDigit`: started with every grid off, at
      every instant of the write sequence no grid but `grid` is selected, and
      so at most one grid is. */
  lemma DisplayDigitExclusive(s: seq<Level>, grid: nat, digit: nat)
    requires |s| == PIN_COUNT && grid < NUM_DIGITS && digit < 10
    requires AllGridsHigh(s)
    ensures InRange(DisplayWrites(grid, digit), PIN_COUNT)
    ensures forall k :: 0 <= k <= |DisplayWrites(grid, digit)| ==>
              OnlyGridMayBeLow(Apply(s, DisplayWrites(grid, digit)[..k]), grid)
    ensures ExclusiveThroughout(s, DisplayWrites(grid, digit))
  {
    var w := DisplayWrites(grid, digit);
    DisplayWritesKeepOthersOff(grid, digit);
    forall k | 0 <= k <= |w|
      ensures OnlyGridMayBeLow(Apply(s, w[..k]), grid)
      ensures AtMostOneGridLow(Apply(s, w[..k]))
    {
      assert forall j :: 0 <= j < k ==> w[..k][j] == w[j];
      KeepsOnlyGrid(s, w[..k], grid);
      OnlyOneMeansAtMostOne(Apply(s, w[..k]), grid);
    }
  }

  /** Driving distinct pins HIGH leaves exactly those pins HIGH and the rest alone. */
  lemma AllHighEffect(s: seq<Level>, pins: seq<nat>)
    requires forall i :: 0 <= i < |pins| ==> pins[i] < |s|
    requires forall i, j :: 0 <= i < j < |pins| ==> pins[i] != pins[j]
    ensures InRange(AllHigh(pins), |s|)
    ensures forall i :: 0 <= i < |pins| ==> Apply(s, AllHigh(pins))[pins[i]] == HIGH
    ensures forall p :: 0 <= p < |s| && p !in pins ==> Apply(s, AllHigh(pins))[p] == s[p]
  {
    var w := AllHigh(pins);
    ApplyDistinct(s, w);
    forall i | 0 <= i < |pins| ensures Apply(s, w)[pins[i]] == HIGH {
      assert w[i].pin == pins[i];
    }
    forall p | 0 <= p < |s| && p !in pins ensures Apply(s, w)[p] == s[p] {
      ApplyUnchanged(s, w, p);
    }
  }

  /** The first loop leaves every grid off and touches nothing else. */
  lemma GridsOffEffect(s: seq<Level>)
    requires |s| == PIN_COUNT
    ensures AllGridsHigh(Apply(s, GridsOff()))
    ensures forall p :: 0 <= p < PIN_COUNT && !IsGridPin(p) ==> Apply(s, GridsOff())[p] == s[p]
  {
    PinTablesDisjoint();
    AllHighEffect(s, GRID_PINS);
  }

  /** The second loop puts the pattern on the segment lines and touches nothing else. */
  lemma SegmentsEffect(s: seq<Level>, digit: nat)
    requires |s| == PIN_COUNT && digit < 10
    ensures InRange(SegmentWrites(digit), PIN_COUNT)
    ensures forall i :: 0 <= i < NUM_SEGMENTS ==> Apply(s, SegmentWrites(digit))[SEGMENT_PINS[i]] == Pattern(digit)[i]
    ensures forall p :: 0 <= p < PIN_COUNT && !IsSegmentPin(p) ==> Apply(s, SegmentWrites(digit))[p] == s[p]
  {
    PinTablesDisjoint();
    var sg := SegmentWrites(digit);
    ApplyDistinct(s, sg);
    forall i | 0 <= i < NUM_SEGMENTS ensures Apply(s, sg)[SEGMENT_PINS[i]] == Pattern(digit)[i] {
      assert sg[i].pin == SEGMENT_PINS[i];
    }
    forall p | 0 <= p < PIN_COUNT && !IsSegmentPin(p) ensures Apply(s, sg)[p] == s[p] {
      assert forall j :: 0 <= j < |sg| ==> sg[j].pin == SEGMENT_PINS[j];
      ApplyUnchanged(s, sg, p);
    }
  }

  /** Selecting a line and deselecting it again leaves it HIGH and every other
      line as it was. */
  lemma PulseEffect(s: seq<Level>, pin: nat)
    requires pin < |s|
    ensures InRange([PinWrite(pin, LOW), PinWrite(pin, HIGH)], |s|)
    ensures Apply(s, [PinWrite(pin, LOW), PinWrite(pin, HIGH)])[pin] == HIGH
    ensures forall p :: 0 <= p < |s| && p != pin ==> Apply(s, [PinWrite(pin, LOW), PinWrite(pin, HIGH)])[p] == s[p]
  {
    var lo, hi := PinWrite(pin, LOW), PinWrite(pin, HIGH);
    var w := [lo, hi];
    assert w[..1] == [lo] && [lo][..0] == [];
    var s1 := Apply(s, [lo]);
    assert Apply(s, [lo][..0]) == s;
    assert s1 == s[pin := LOW];
    assert Apply(s, w) == s1[pin := HIGH];
  }

  /** After `displayDigit(grid, digit)`: every grid is off, segment line i is at
      `digitPatterns[digit][i]`, and every other pin (the colon lines and the
      colon grid among them) is as before. */
  lemma DisplayDigitEffect(s: seq<Level>, grid: nat, digit: nat)
    requires |s| == PIN_COUNT && grid < NUM_DIGITS && digit < 10
    ensures InRange(DisplayWrites(grid, digit), PIN_COUNT)
    ensures AllGridsHigh(Apply(s, DisplayWrites(grid, digit)))
    ensures forall i :: 0 <= i < NUM_SEGMENTS ==> Apply(s, DisplayWrites(grid, digit))[SEGMENT_PINS[i]] == Pattern(digit)[i]
    ensures forall p :: 0 <= p < PIN_COUNT && !IsGridPin(p) && !IsSegmentPin(p) ==>
              Apply(s, DisplayWrites(grid, digit))[p] == s[p]
  {
    PinTablesDisjoint();
    var g, sg := GridsOff(), SegmentWrites(digit);
    var pulse := [PinWrite(GRID_PINS[grid], LOW), PinWrite(GRID_PINS[grid], HIGH)];
    assert DisplayWrites(grid, digit) == (g + sg) + pulse;
    ApplyAppend(s, g, sg);
    ApplyAppend(s, g + sg, pulse);
    GridsOffEffect(s);
    var s1 := Apply(s, g);
    SegmentsEffect(s1, digit);
    var s2 := Apply(s1, sg);
    PulseEffect(s2, GRID_PINS[grid]);
    assert forall i :: 0 <= i < NUM_DIGITS ==> s2[GRID_PINS[i]] == HIGH;
  }

  /** After `blinkColon(millis)` both colon lines are at ColonLevel(millis),
      hence equal, and nothing else has changed. */
  lemma BlinkColonEffect(s: seq<Level>, millis: nat)
    requires |s| == PIN_COUNT
    ensures InRange(ColonWrites(millis), PIN_COUNT)
    ensures Apply(s, ColonWrites(millis))[COLON_PINS[0]] == ColonLevel(millis)
    ensures Apply(s, ColonWrites(millis))[COLON_PINS[1]] == ColonLevel(millis)
    ensures forall p :: 0 <= p < PIN_COUNT && !IsColonPin(p) ==> Apply(s, ColonWrites(millis))[p] == s[p]
  {
    PinTablesDisjoint();
    var w := ColonWrites(millis);
    ApplyDistinct(s, w);
    forall p | 0 <= p < PIN_COUNT && !IsColonPin(p) ensures Apply(s, w)[p] == s[p] {
      ApplyUnchanged(s, w, p);
    }
  }

  /** Performing `w2` after `w1` is exclusive throughout when each part is. */
  lemma ExclusiveConcat(s: seq<Level>, w1: seq<PinWrite>, w2: seq<PinWrite>)
    requires |s| == PIN_COUNT && InRange(w1, PIN_COUNT) && InRange(w2, PIN_COUNT)
    requires ExclusiveThroughout(s, w1) && ExclusiveThroughout(Apply(s, w1), w2)
    ensures InRange(w1 + w2, PIN_COUNT)
    ensures ExclusiveThroughout(s, w1 + w2)
  {
    var w := w1 + w2;
    assert InRange(w, PIN_COUNT);
    forall k | 0 <= k <= |w| ensures AtMostOneGridLow(Apply(s, w[..k])) {
      if k <= |w1| {
        assert w[..k] == w1[..k];
      } else {
        assert w[..k] == w1 + w2[..k - |w1|];
        assert InRange(w2[..k - |w1|], PIN_COUNT);
        ApplyAppend(s, w1, w2[..k - |w1|]);
      }
    }
  }

  /** The first `n` digits of a pass, started with every grid off, select at
      most one grid at every instant and end with every grid off. */
  lemma {:induction false} DigitPassExclusive(s: seq<Level>, hour: nat, minute: nat, n: nat)
    requires |s| == PIN_COUNT && hour < 24 && minute < 60 && n <= NUM_DIGITS
    requires AllGridsHigh(s)
    ensures InRange(DigitPassWrites(hour, minute, n), PIN_COUNT)
    ensures ExclusiveThroughout(s, DigitPassWrites(hour, minute, n))
    ensures AllGridsHigh(Apply(s, DigitPassWrites(hour, minute, n)))
  {
    if n == 0 {
      assert DigitPassWrites(hour, minute, 0)[..0] == [];
    } else {
      var before := DigitPassWrites(hour, minute, n - 1);
      var d := DigitAt(n - 1, hour, minute);
      DigitPassExclusive(s, hour, minute, n - 1);
      var t := Apply(s, before);
      DisplayDigitExclusive(t, n - 1, d);
      DisplayDigitEffect(t, n - 1, d);
      ExclusiveConcat(s, before, DisplayWrites(n - 1, d));
      ApplyAppend(s, before, DisplayWrites(n - 1, d));
    }
  }

  /** Grid exclusivity over a whole pass of the main loop: at every instant of
      the four digit pulses and the colon update at most one grid is selected. */
  lemma FrameExclusive(s: seq<Level>, hour: nat, minute: nat, millis: nat)
    requires |s| == PIN_COUNT && hour < 24 && minute < 60
    requires AllGridsHigh(s)
    ensures InRange(FrameWrites(hour, minute, millis), PIN_COUNT)
    ensures ExclusiveThroughout(s, FrameWrites(hour, minute, millis))
  {
    var digits := DigitPassWrites(hour, minute, NUM_DIGITS);
    DigitPassExclusive(s, hour, minute, NUM_DIGITS);
    var t := Apply(s, digits);
    var c := ColonWrites(millis);
    PinTablesDisjoint();
    forall k | 0 <= k <= |c| ensures AtMostOneGridLow(Apply(t, c[..k])) {
      assert forall j :: 0 <= j < k ==> KeepsOthersOff(c[..k][j], 0);
      KeepsOnlyGrid(t, c[..k], 0);
    }
    ExclusiveConcat(s, digits, c);
  }

  /** The levels a whole pass leaves: every grid off, the segments of the ones
      digit of the minute, both colon lines at ColonLevel(millis), all else as before. */
  lemma FrameEffect(s: seq<Level>, hour: nat, minute: nat, millis: nat)
    requires |s| == PIN_COUNT && hour < 24 && minute < 60
    ensures InRange(FrameWrites(hour, minute, millis), PIN_COUNT)
    ensures AllGridsHigh(Apply(s, FrameWrites(hour, minute, millis)))
    ensures forall i :: 0 <= i < NUM_SEGMENTS ==>
              Apply(s, FrameWrites(hour, minute, millis))[SEGMENT_PINS[i]] == Pattern(DigitAt(3, hour, minute))[i]
    ensures Apply(s, FrameWrites(hour, minute, millis))[COLON_PINS[0]] == ColonLevel(millis)
    ensures Apply(s, FrameWrites(hour, minute, millis))[COLON_PINS[1]] == ColonLevel(millis)
    ensures forall p :: 0 <= p < PIN_COUNT && !IsGridPin(p) && !IsSegmentPin(p) && !IsColonPin(p) ==>
              Apply(s, FrameWrites(hour, minute, millis))[p] == s[p]
  {
    var d := DigitAt(3, hour, minute);
    var first, last, c := DigitPassWrites(hour, minute, 3), DisplayWrites(3, d), ColonWrites(millis);
    UnchangedOffDisplay(s, hour, minute, 3);
    var t := Apply(s, first);
    DisplayDigitEffect(t, 3, d);
    var u := Apply(t, last);
    BlinkColonEffect(u, millis);
    var r := Apply(u, c);
    ApplyAppend(s, first, last);
    ApplyAppend(s, first + last, c);
    assert FrameWrites(hour, minute, millis) == (first + last) + c;
    assert Apply(s, FrameWrites(hour, minute, millis)) == r;
    PinTablesDisjoint();
    forall i | 0 <= i < NUM_DIGITS ensures r[GRID_PINS[i]] == HIGH {
      assert !IsColonPin(GRID_PINS[i]);
    }
    forall i | 0 <= i < NUM_SEGMENTS ensures r[SEGMENT_PINS[i]] == Pattern(d)[i] {
      assert !IsColonPin(SEGMENT_PINS[i]);
    }
  }

  /** The digits of a pass touch only grid and segment lines. */
  lemma {:induction false} UnchangedOffDisplay(s: seq<Level>, hour: nat, minute: nat, n: nat)
    requires |s| == PIN_COUNT && hour < 24 && minute < 60 && n <= NUM_DIGITS
    ensures InRange(DigitPassWrites(hour, minute, n), PIN_COUNT)
    ensures forall p :: 0 <= p < PIN_COUNT && !IsGridPin(p) && !IsSegmentPin(p) ==>
              Apply(s, DigitPassWrites(hour, minute, n))[p] == s[p]
  {
    if n > 0 {
      var before := DigitPassWrites(hour, minute, n - 1);
      var d := DigitAt(n - 1, hour, minute);
      UnchangedOffDisplay(s, hour, minute, n - 1);
      DisplayDigitEffect(Apply(s, before), n - 1, d);
      ApplyAppend(s, before, DisplayWrites(n - 1, d));
    }
  }

  /** The colon is lit at 0 and 499 and dark at 500 and 999 of each second. */
  lemma ColonBoundaries(base: nat)
    ensures ColonLevel(1000 * base) == LOW && ColonLevel(1000 * base + 499) == LOW
    ensures ColonLevel(1000 * base + 500) == HIGH && ColonLevel(1000 * base + 999) == HIGH
  {
    assert (1000 * base) % 1000 == 0;
    assert (1000 * base + 499) % 1000 == 499;
    assert (1000 * base + 500) % 1000 == 500;
    assert (1000 * base + 999) % 1000 == 999;
  }

  /** A 1 Hz blink with 50% duty: the level repeats every 1000 ms and flips
      every 500 ms. */
  lemma ColonSquareWave(millis: nat)
    ensures ColonLevel(millis + 1000) == ColonLevel(millis)
    ensures ColonLevel(millis + 500) != ColonLevel(millis)
  {
    var r := millis % 1000;
    assert millis == 1000 * (millis / 1000) + r;
    assert (millis + 1000) % 1000 == r by {
      assert millis + 1000 == 1000 * (millis / 1000 + 1) + r;
    }
    if r < 500 {
      assert (millis + 500) % 1000 == r + 500 by {
        assert millis + 500 == 1000 * (millis / 1000) + (r + 500);
      }
    } else {
      assert (millis + 500) % 1000 == r - 500 by {
        assert millis + 500 == 1000 * (millis / 1000 + 1) + (r - 500);
      }
    }
  }

  /** After `setup`, from any power-on levels: the grid, segment and colon
      lines are HIGH, the colon grid is LOW, every other pin is untouched. */
  lemma SetupEffect(power: seq<Level>)
    requires |power| == PIN_COUNT
    ensures AllGridsHigh(Apply(power, SetupWrites()))
    ensures forall i :: 0 <= i < NUM_SEGMENTS ==> Apply(power, SetupWrites())[SEGMENT_PINS[i]] == HIGH
    ensures forall i :: 0 <= i < 2 ==> Apply(power, SetupWrites())[COLON_PINS[i]] == HIGH
    ensures Apply(power, SetupWrites())[COLON_GRID] == LOW
    ensures forall p :: 0 <= p < PIN_COUNT && !IsGridPin(p) && !IsSegmentPin(p) && !IsColonPin(p) && p != COLON_GRID ==>
              Apply(power, SetupWrites())[p] == power[p]
  {
    var g, sg, c := AllHigh(GRID_PINS), AllHigh(SEGMENT_PINS), AllHigh(COLON_PINS);
    ApplyAppend(power, g, sg);
    ApplyAppend(power, g + sg, c);
    ApplySnoc(power, g + sg + c, PinWrite(COLON_GRID, LOW));
    var s1 := Apply(power, g);
    var s2 := Apply(s1, sg);
    var s3 := Apply(s2, c);
    SetupStages(power, s1, s2, s3);
    ColonGridWrite(power, s3, Apply(power, SetupWrites()));
  }

  /** The last write of `setup` selects the colon grid and nothing else. */
  lemma ColonGridWrite(power: seq<Level>, s3: seq<Level>, r: seq<Level>)
    requires |power| == PIN_COUNT && |s3| == PIN_COUNT && r == s3[COLON_GRID := LOW]
    requires forall i :: 0 <= i < NUM_DIGITS ==> s3[GRID_PINS[i]] == HIGH
    requires forall i :: 0 <= i < NUM_SEGMENTS ==> s3[SEGMENT_PINS[i]] == HIGH
    requires forall i :: 0 <= i < 2 ==> s3[COLON_PINS[i]] == HIGH
    requires forall p :: 0 <= p < PIN_COUNT && !IsGridPin(p) && !IsSegmentPin(p) && !IsColonPin(p) ==> s3[p] == power[p]
    ensures AllGridsHigh(r) && r[COLON_GRID] == LOW
    ensures forall i :: 0 <= i < NUM_SEGMENTS ==> r[SEGMENT_PINS[i]] == HIGH
    ensures forall i :: 0 <= i < 2 ==> r[COLON_PINS[i]] == HIGH
    ensures forall p :: 0 <= p < PIN_COUNT && !IsGridPin(p) && !IsSegmentPin(p) && !IsColonPin(p) && p != COLON_GRID ==>
              r[p] == power[p]
  {
    PinTablesDisjoint();
  }

  /** The three initialisation loops of `setup`, one table after the other. */
  lemma SetupStages(power: seq<Level>, s1: seq<Level>, s2: seq<Level>, s3: seq<Level>)
    requires |power| == PIN_COUNT
    requires s1 == Apply(power, AllHigh(GRID_PINS)) && |s1| == PIN_COUNT
    requires s2 == Apply(s1, AllHigh(SEGMENT_PINS)) && |s2| == PIN_COUNT
    requires s3 == Apply(s2, AllHigh(COLON_PINS))
    ensures forall i :: 0 <= i < NUM_DIGITS ==> s3[GRID_PINS[i]] == HIGH
    ensures forall i :: 0 <= i < NUM_SEGMENTS ==> s3[SEGMENT_PINS[i]] == HIGH
    ensures forall i :: 0 <= i < 2 ==> s3[COLON_PINS[i]] == HIGH
    ensures forall p :: 0 <= p < PIN_COUNT && !IsGridPin(p) && !IsSegmentPin(p) && !IsColonPin(p) ==> s3[p] == power[p]
  {
    PinTablesDisjoint();
    AllHighEffect(power, GRID_PINS);
    AllHighEffect(s1, SEGMENT_PINS);
    AllHighEffect(s2, COLON_PINS);
    forall i | 0 <= i < NUM_DIGITS ensures s3[GRID_PINS[i]] == HIGH {
      assert !IsSegmentPin(GRID_PINS[i]) && !IsColonPin(GRID_PINS[i]);
    }
    forall i | 0 <= i < NUM_SEGMENTS ensures s3[SEGMENT_PINS[i]] == HIGH {
      assert !IsColonPin(SEGMENT_PINS[i]);
    }
  }

  /** The log of `setup` assembled from its three loops and the colon grid write. */
  lemma SetupLog(log1: seq<PinWrite>, log2: seq<PinWrite>, log3: seq<PinWrite>, log4: seq<PinWrite>)
    requires log1 == [] + AllHigh(GRID_PINS) && log2 == log1 + AllHigh(SEGMENT_PINS)
    requires log3 == log2 + AllHigh(COLON_PINS) && log4 == log3 + [PinWrite(COLON_GRID, LOW)]
    ensures log4 == SetupWrites()
  {
    assert log1 == AllHigh(GRID_PINS);
  }

  /** The log of `displayDigit` assembled from its two loops and the pulse. */
  lemma DisplayLog(log0: seq<PinWrite>, log1: seq<PinWrite>, log2: seq<PinWrite>, log3: seq<PinWrite>, grid: nat, digit: nat)
    requires grid < NUM_DIGITS && digit < 10
    requires log1 == log0 + GridsOff() && log2 == log1 + SegmentWrites(digit)
    requires log3 == log2 + [PinWrite(GRID_PINS[grid], LOW)] + [PinWrite(GRID_PINS[grid], HIGH)]
    ensures log3 == log0 + DisplayWrites(grid, digit)
  {
    var pulse := [PinWrite(GRID_PINS[grid], LOW), PinWrite(GRID_PINS[grid], HIGH)];
    assert log3 == log2 + pulse;
    AppendAssoc(log0, GridsOff(), SegmentWrites(digit));
    AppendAssoc(log0, GridsOff() + SegmentWrites(digit), pulse);
  }

  // ----------------------------------------------------------- the hardware

  /** The sketch's output lines: their current levels, every `digitalWrite`
      made so far, and (ghost) the levels at power-on. The levels are always
      the power-on levels with the log replayed over them. */
  class Panel {
    var level: array<Level>
    var log: seq<PinWrite>
    ghost var boot: seq<Level>

    ghost predicate Valid()
      reads this, level
    {
      level.Length == PIN_COUNT && |boot| == PIN_COUNT && InRange(log, PIN_COUNT)
      && level[..] == Apply(boot, log)
    }

    /** Between display pulses no grid is selected. */
    ghost predicate Idle()
      reads this, level
    {
      Valid() && AllGridsHigh(level[..])
    }

    /** `setup`'s three initialisation loops and the colon grid write, from
        arbitrary power-on levels (pin modes, Wi-Fi and UDP start-up are not modelled). */
    constructor Setup(power: seq<Level>)
      requires |power| == PIN_COUNT
      ensures Idle() && fresh(level) && boot == power
      ensures log == SetupWrites() && level[..] == Apply(power, SetupWrites())
      ensures forall i :: 0 <= i < NUM_SEGMENTS ==> level[SEGMENT_PINS[i]] == HIGH
      ensures level[COLON_PINS[0]] == HIGH && level[COLON_PINS[1]] == HIGH && level[COLON_GRID] == LOW
      ensures forall p :: 0 <= p < PIN_COUNT && !IsGridPin(p) && !IsSegmentPin(p) && !IsColonPin(p) && p != COLON_GRID ==>
                level[p] == power[p]
    {
      level := new Level[PIN_COUNT](i requires 0 <= i < PIN_COUNT => power[i]);
      log := [];
      boot := power;
      new;
      PinTablesDisjoint();
      assert level[..] == power;
      DriveAllHigh(GRID_PINS);
      ghost var log1 := log;
      DriveAllHigh(SEGMENT_PINS);
      ghost var log2 := log;
      DriveAllHigh(COLON_PINS);
      ghost var log3 := log;
      DigitalWrite(COLON_GRID, LOW);
      SetupLog(log1, log2, log3, log);
      SetupEffect(power);
    }

    /** One of `setup`'s initialisation loops: drive each pin of `pins` HIGH, in order. */
    method DriveAllHigh(pins: seq<nat>)
      requires Valid() && forall i :: 0 <= i < |pins| ==> pins[i] < PIN_COUNT
      modifies this, level
      ensures Valid() && level == old(level) && boot == old(boot)
      ensures log == old(log) + AllHigh(pins)
    {
      ghost var log0 := log;
      for i := 0 to |pins|
        invariant Valid() && level == old(level) && boot == old(boot)
        invariant log == log0 + AllHigh(pins)[..i]
      {
        PrefixStep(log0, AllHigh(pins), i);
        DigitalWrite(pins[i], HIGH);
      }
      assert AllHigh(pins)[..|pins|] == AllHigh(pins);
    }

    /** `digitalWrite(pin, lvl)`: one line changes and the write is logged. */
    method DigitalWrite(pin: nat, lvl: Level)
      requires Valid() && pin < PIN_COUNT
      modifies this, level
      ensures Valid() && level == old(level) && boot == old(boot)
      ensures log == old(log) + [PinWrite(pin, lvl)]
    {
      level[pin] := lvl;
      ApplySnoc(boot, log, PinWrite(pin, lvl));
      log := log + [PinWrite(pin, lvl)];
    }

    /** `displayDigit(grid, digit)`: deselect every grid, put the digit's
        pattern on the segment lines, then select `grid` for the hold interval
        and deselect it again. */
    method DisplayDigit(grid: nat, digit: nat)
      requires Valid() && grid < NUM_DIGITS && digit < 10
      modifies this, level
      ensures Valid() && level == old(level) && boot == old(boot)
      ensures log == old(log) + DisplayWrites(grid, digit)
      ensures level[..] == Apply(old(level[..]), DisplayWrites(grid, digit))
      ensures AllGridsHigh(level[..])
      ensures forall i :: 0 <= i < NUM_SEGMENTS ==> level[SEGMENT_PINS[i]] == Pattern(digit)[i]
      ensures forall p :: 0 <= p < PIN_COUNT && !IsGridPin(p) && !IsSegmentPin(p) ==> level[p] == old(level[p])
      ensures AllGridsHigh(old(level[..])) ==>
                forall k :: 0 <= k <= |DisplayWrites(grid, digit)| ==>
                  OnlyGridMayBeLow(Apply(old(level[..]), DisplayWrites(grid, digit)[..k]), grid)
    {
      ghost var s0, log0 := level[..], log;
      PinTablesDisjoint();
      DriveAllHigh(GRID_PINS);
      ghost var log1 := log;
      DriveSegments(digit);
      ghost var log2 := log;
      DigitalWrite(GRID_PINS[grid], LOW);
      DigitalWrite(GRID_PINS[grid], HIGH);
      DisplayLog(log0, log1, log2, log, grid, digit);
      ghost var dw := DisplayWrites(grid, digit);
      ApplyAppend(boot, log0, dw);
      assert level[..] == Apply(s0, dw);
      DisplayDigitEffect(s0, grid, digit);
      if AllGridsHigh(s0) {
        DisplayDigitExclusive(s0, grid, digit);
      }
    }

    /** The second loop of `displayDigit`: segment line i gets entry i of the
        digit's pattern. */
    method DriveSegments(digit: nat)
      requires Valid() && digit < 10
      modifies this, level
      ensures Valid() && level == old(level) && boot == old(boot)
      ensures log == old(log) + SegmentWrites(digit)
    {
      ghost var log0 := log;
      PinTablesDisjoint();
      for i := 0 to NUM_SEGMENTS
        invariant Valid() && level == old(level) && boot == old(boot)
        invariant log == log0 + SegmentWrites(digit)[..i]
      {
        assert Pattern(digit)[i] == DIGIT_PATTERNS[digit][i];
        assert SegmentWrites(digit)[i] == PinWrite(SEGMENT_PINS[i], DIGIT_PATTERNS[digit][i]);
        PrefixStep(log0, SegmentWrites(digit), i);
        DigitalWrite(SEGMENT_PINS[i], DIGIT_PATTERNS[digit][i]);
      }
      assert SegmentWrites(digit)[..NUM_SEGMENTS] == SegmentWrites(digit);
    }

    /** `blinkColon` at counter value `millis`: both colon lines LOW in the
        first half of each second, HIGH in the second. */
    method BlinkColon(millis: nat)
      requires Valid()
      modifies this, level
      ensures Valid() && level == old(level) && boot == old(boot)
      ensures log == old(log) + ColonWrites(millis)
      ensures level[..] == Apply(old(level[..]), ColonWrites(millis))
      ensures level[COLON_PINS[0]] == ColonLevel(millis) && level[COLON_PINS[1]] == ColonLevel(millis)
      ensures level[COLON_PINS[0]] == LOW <==> millis % 1000 < 500
      ensures forall p :: 0 <= p < PIN_COUNT && !IsColonPin(p) ==> level[p] == old(level[p])
    {
      ghost var s0, log0 := level[..], log;
      if millis % 1000 < 500 {
        DigitalWrite(COLON_PINS[0], LOW);
        DigitalWrite(COLON_PINS[1], LOW);
      } else {
        DigitalWrite(COLON_PINS[0], HIGH);
        DigitalWrite(COLON_PINS[1], HIGH);
      }
      ghost var cw := ColonWrites(millis);
      assert log == log0 + cw;
      ApplyAppend(boot, log0, cw);
      BlinkColonEffect(s0, millis);
    }

    /** The display part of one pass of `loop`: the four digits of HH:MM, then
        the colon. */
    method ShowTime(hour: nat, minute: nat, millis: nat)
      requires Idle() && hour < 24 && minute < 60
      modifies this, level
      ensures Idle() && level == old(level) && boot == old(boot)
      ensures log == old(log) + FrameWrites(hour, minute, millis)
      ensures level[..] == Apply(old(level[..]), FrameWrites(hour, minute, millis))
      ensures ExclusiveThroughout(old(level[..]), FrameWrites(hour, minute, millis))
    {
      ghost var s0, log0 := level[..], log;
      for i := 0 to NUM_DIGITS
        invariant Idle() && level == old(level) && boot == old(boot)
        invariant log == log0 + DigitPassWrites(hour, minute, i)
      {
        var digit := DigitAt(i, hour, minute);
        AppendAssoc(log0, DigitPassWrites(hour, minute, i), DisplayWrites(i, digit));
        DisplayDigit(i, digit);
      }
      BlinkColon(millis);
      AppendAssoc(log0, DigitPassWrites(hour, minute, NUM_DIGITS), ColonWrites(millis));
      ghost var fw := FrameWrites(hour, minute, millis);
      ApplyAppend(boot, log0, fw);
      assert level[..] == Apply(s0, fw);
      FrameEffect(s0, hour, minute, millis);
      FrameExclusive(s0, hour, minute, millis);
    }
  }
}
