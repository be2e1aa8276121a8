/** The clock's fixed wiring: which GPIO drives which grid, segment and colon
    line, the active-low segment pattern of every decimal digit, and the split
    of an hour and a minute into the four displayed digits. */
module Board {

  /** A pin level: `HIGH` is `true`. The display is active-low, so `LOW` lights
      a segment and selects a grid. */
  type Level = bool
  const HIGH: Level := true
  const LOW: Level := false

  const NUM_DIGITS: nat := 4
  const NUM_SEGMENTS: nat := 7

  /** Pin numbers are 0 .. PIN_COUNT - 1; every pin the sketch drives is below 16. */
  const PIN_COUNT: nat := 16

  /** The grid that feeds the colon; set LOW once at start-up and never touched again. */
  const COLON_GRID: nat := 9

  const GRID_PINS: seq<nat> := [15, 11, 6, 2]
  const SEGMENT_PINS: seq<nat> := [3, 5, 10, 7, 12, 4, 13]
  const COLON_PINS: seq<nat> := [14, 8]

  /** Row d is the level written to segment line i to show digit d (0 lights it). */
  const DIGIT_PATTERNS: seq<seq<Level>> := [
    [LOW,  LOW,  LOW,  LOW,  LOW,  LOW,  HIGH], // 0
    [HIGH, LOW,  LOW,  HIGH, HIGH, HIGH, HIGH], // 1
    [LOW,  LOW,  HIGH, LOW,  LOW,  HIGH, LOW],  // 2
    [LOW,  LOW,  LOW,  LOW,  HIGH, HIGH, LOW],  // 3
    [HIGH, LOW,  LOW,  HIGH, HIGH, LOW,  LOW],  // 4
    [LOW,  HIGH, LOW,  LOW,  HIGH, LOW,  LOW],  // 5
    [LOW,  HIGH, LOW,  LOW,  LOW,  LOW,  LOW],  // 6
    [LOW,  LOW,  LOW,  HIGH, HIGH, HIGH, HIGH], // 7
    [LOW,  LOW,  LOW,  LOW,  LOW,  LOW,  LOW],  // 8
    [LOW,  LOW,  LOW,  LOW,  HIGH, LOW,  LOW]   // 9
  ]

  predicate IsGridPin(p: nat) { p in GRID_PINS }
  predicate IsSegmentPin(p: nat) { p in SEGMENT_PINS }
  predicate IsColonPin(p: nat) { p in COLON_PINS }

  /** Every pin of a table is in range, no pin occurs twice in one table, and
      no pin belongs to two of the tables or is the colon grid. */
  lemma PinTablesDisjoint()
    ensures |GRID_PINS| == NUM_DIGITS && |SEGMENT_PINS| == NUM_SEGMENTS && |COLON_PINS| == 2
    ensures forall i :: 0 <= i < |GRID_PINS| ==> GRID_PINS[i] < PIN_COUNT
    ensures forall i :: 0 <= i < |SEGMENT_PINS| ==> SEGMENT_PINS[i] < PIN_COUNT
    ensures forall i :: 0 <= i < |COLON_PINS| ==> COLON_PINS[i] < PIN_COUNT
    ensures forall i, j :: 0 <= i < j < |GRID_PINS| ==> GRID_PINS[i] != GRID_PINS[j]
    ensures forall i, j :: 0 <= i < j < |SEGMENT_PINS| ==> SEGMENT_PINS[i] != SEGMENT_PINS[j]
    ensures COLON_PINS[0] != COLON_PINS[1]
    ensures forall p :: IsGridPin(p) ==> !IsSegmentPin(p) && !IsColonPin(p) && p != COLON_GRID
    ensures forall p :: IsSegmentPin(p) ==> !IsColonPin(p) && p != COLON_GRID
    ensures !IsColonPin(COLON_GRID) && COLON_GRID < PIN_COUNT
  {
  }

  /** The segment levels for digit `d`. */
  function Pattern(d: nat): (r: seq<Level>)
    requires d < 10
    ensures |r| == NUM_SEGMENTS
  {
    DIGIT_PATTERNS[d]
  }

  /** The strokes of the conventional seven-segment glyph of `d`, with the
      segment lines in the order a, b, c, d, e, f, g (a at the top, then
      clockwise, g in the middle). */
  function LitSegments(d: nat): set<nat>
    requires d < 10
  {
    match d
    case 0 => {0, 1, 2, 3, 4, 5}
    case 1 => {1, 2}
    case 2 => {0, 1, 3, 4, 6}
    case 3 => {0, 1, 2, 3, 6}
    case 4 => {1, 2, 5, 6}
    case 5 => {0, 2, 3, 5, 6}
    case 6 => {0, 2, 3, 4, 5, 6}
    case 7 => {0, 1, 2}
    case 8 => {0, 1, 2, 3, 4, 5, 6}
    case _ => {0, 1, 2, 3, 5, 6}
  }

  /** The table is the conventional glyph set written active-low: segment line
      i is driven LOW exactly when stroke i belongs to the glyph. */
  lemma PatternIsActiveLowGlyph(d: nat, i: nat)
    requires d < 10 && i < NUM_SEGMENTS
    ensures Pattern(d)[i] == LOW <==> i in LitSegments(d)
  {
  }

  /** Digit 8 lights every segment; digit 0 leaves only the middle bar (index 6) dark. */
  lemma EightAndZeroPatterns()
    ensures forall i :: 0 <= i < NUM_SEGMENTS ==> Pattern(8)[i] == LOW
    ensures forall i :: 0 <= i < NUM_SEGMENTS ==> (Pattern(0)[i] == HIGH <==> i == 6)
  {
  }

  /** The digit shown at position `i` of HH:MM: the tens and ones of the hour,
      then the tens and ones of the minute, as the main loop computes them. */
  function DigitAt(i: nat, hour: nat, minute: nat): (r: nat)
    requires i < NUM_DIGITS && hour < 24 && minute < 60
    ensures r < 10
    ensures i == 0 ==> r <= 2
    ensures i == 2 ==> r <= 5
  {
    if i == 0 then hour / 10
    else if i == 1 then hour % 10
    else if i == 2 then minute / 10
    else minute % 10
  }

  /** The four digits give back the hour and the minute they were taken from. */
  lemma DigitsRecompose(hour: nat, minute: nat)
    requires hour < 24 && minute < 60
    ensures 10 * DigitAt(0, hour, minute) + DigitAt(1, hour, minute) == hour
    ensures 10 * DigitAt(2, hour, minute) + DigitAt(3, hour, minute) == minute
  {
  }

  /** Two times of day that show the same four digits are the same time. */
  lemma DigitsDetermineTime(h1: nat, m1: nat, h2: nat, m2: nat)
    requires h1 < 24 && m1 < 60 && h2 < 24 && m2 < 60
    requires forall i :: 0 <= i < NUM_DIGITS ==> DigitAt(i, h1, m1) == DigitAt(i, h2, m2)
    ensures h1 == h2 && m1 == m2
  {
    assert DigitAt(0, h1, m1) == DigitAt(0, h2, m2);
    assert DigitAt(1, h1, m1) == DigitAt(1, h2, m2);
    assert DigitAt(2, h1, m1) == DigitAt(2, h2, m2);
    assert DigitAt(3, h1, m1) == DigitAt(3, h2, m2);
    DigitsRecompose(h1, m1);
    DigitsRecompose(h2, m2);
  }

  /** 09:05 is shown as 0, 9, 0, 5. */
  lemma NineOhFive()
    ensures DigitAt(0, 9, 5) == 0 && DigitAt(1, 9, 5) == 9
    ensures DigitAt(2, 9, 5) == 0 && DigitAt(3, 9, 5) == 5
  {
  }
}
