/** Digital output lines as a vector of levels, changed one `digitalWrite` at a
    time. A sequence of writes is replayed over a starting vector; the states
    visited along the way are the levels after each prefix of the writes. */
module PinState {
  import opened Board

  /** One `digitalWrite(pin, level)`. */
  datatype PinWrite = PinWrite(pin: nat, level: Level)

  predicate InRange(w: seq<PinWrite>, n: nat)
  {
    forall j :: 0 <= j < |w| ==> w[j].pin < n
  }

  /** The levels after performing the writes `w`, in order, starting from `s`. */
  function Apply(s: seq<Level>, w: seq<PinWrite>): (r: seq<Level>)
    requires InRange(w, |s|)
    ensures |r| == |s|
    ensures w != [] ==> r[w[|w| - 1].pin] == w[|w| - 1].level
    decreases |w|
  {
    if w == [] then s
    else
      var last := w[|w| - 1];
      Apply(s, w[..|w| - 1])[last.pin := last.level]
  }

  /** A pin that no write names keeps its level. */
  lemma {:induction false} ApplyUnchanged(s: seq<Level>, w: seq<PinWrite>, p: nat)
    requires InRange(w, |s|) && p < |s|
    requires forall j :: 0 <= j < |w| ==> w[j].pin != p
    ensures Apply(s, w)[p] == s[p]
    decreases |w|
  {
    if w != [] {
      ApplyUnchanged(s, w[..|w| - 1], p);
    }
  }

  /** One more write updates one pin of the replayed state. */
  lemma ApplySnoc(s: seq<Level>, w: seq<PinWrite>, x: PinWrite)
    requires InRange(w, |s|) && x.pin < |s|
    ensures InRange(w + [x], |s|)
    ensures Apply(s, w + [x]) == Apply(s, w)[x.pin := x.level]
  {
    var w' := w + [x];
    forall j | 0 <= j < |w'| ensures w'[j].pin < |s| {
      if j < |w| {
        assert w'[j] == w[j];
      }
    }
    assert w'[..|w|] == w;
    assert w'[|w|] == x;
  }

  /** Replaying a concatenation is replaying its parts one after the other. */
  lemma {:induction false} ApplyAppend(s: seq<Level>, w1: seq<PinWrite>, w2: seq<PinWrite>)
    requires InRange(w1, |s|) && InRange(w2, |s|)
    ensures InRange(w1 + w2, |s|)
    ensures Apply(s, w1 + w2) == Apply(Apply(s, w1), w2)
    decreases |w2|
  {
    if w2 == [] {
      assert w1 + w2 == w1;
    } else {
      var init, last := w2[..|w2| - 1], w2[|w2| - 1];
      assert w2 == init + [last];
      assert w1 + w2 == (w1 + init) + [last];
      ApplyAppend(s, w1, init);
      ApplySnoc(s, w1 + init, last);
      ApplySnoc(Apply(s, w1), init, last);
    }
  }

  /** Writes to pairwise distinct pins all take effect. */
  lemma {:induction false} ApplyDistinct(s: seq<Level>, w: seq<PinWrite>)
    requires InRange(w, |s|)
    requires forall i, j :: 0 <= i < j < |w| ==> w[i].pin != w[j].pin
    ensures forall j :: 0 <= j < |w| ==> Apply(s, w)[w[j].pin] == w[j].level
    decreases |w|
  {
    if w != [] {
      var init := w[..|w| - 1];
      ApplyDistinct(s, init);
      forall j | 0 <= j < |w| ensures Apply(s, w)[w[j].pin] == w[j].level {
        if j < |w| - 1 {
          assert init[j] == w[j];
        }
      }
    }
  }

  /** A prefix of `w` grown by its next element. */
  lemma PrefixStep<T>(a: seq<T>, w: seq<T>, i: nat)
    requires i < |w|
    ensures a + w[..i + 1] == (a + w[..i]) + [w[i]]
  {
    assert w[..i + 1] == w[..i] + [w[i]];
  }

  lemma AppendAssoc<T>(a: seq<T>, b: seq<T>, c: seq<T>)
    ensures a + (b + c) == (a + b) + c
  {
  }
}
