/**
 * The frame synchroniser of the inverter-facing responder, as values: the receive
 * window is the first `_rxBufferIndex` bytes of the 8-byte receive buffer, and each
 * byte read from the UART either joins it, or is dropped while the window is empty and
 * the byte is not the slave id. A full window that is given one more byte first slides
 * to the next slave id it holds after its first byte, or empties.
 */
module LibProtocolFraming {
  import opened Bytes

  /** `DEVICE_QUERY_FRAME_SIZE`. */
  const WindowSize: nat := 8

  /** The reads after which a discard in an empty window ends the read loop. */
  const IterationLimit: nat := 15

  /** At most a frame's worth of bytes and, unless empty, led by the slave id. */
  predicate WellFormed(w: seq<byte>, slaveId: byte) {
    |w| <= WindowSize && (|w| > 0 ==> w[0] == slaveId)
  }

  /** `s` is what is left of `t` after dropping some of its leading bytes. */
  predicate IsSuffix(s: seq<byte>, t: seq<byte>) {
    |s| <= |t| && s == t[|t| - |s|..]
  }

  /** The first position at or after `from` holding the slave id, or |w| when there is none. */
  function FirstSlaveFrom(w: seq<byte>, from: nat, slaveId: byte): (k: nat)
    requires from <= |w|
    ensures from <= k <= |w|
    ensures k < |w| ==> w[k] == slaveId
    decreases |w| - from
  {
    if from == |w| then |w|
    else if w[from] == slaveId then from
    else FirstSlaveFrom(w, from + 1, slaveId)
  }

  /**
   * The full window before a new byte goes in: its bytes from the first slave id at
   * positions 1..7 on, in order, or nothing when none of those is the slave id.
   */
  function Slide(w: seq<byte>, slaveId: byte): (r: seq<byte>)
    requires |w| == WindowSize
    ensures |r| < WindowSize && IsSuffix(r, w)
    ensures |r| > 0 ==> r[0] == slaveId
  {
    w[FirstSlaveFrom(w, 1, slaveId)..]
  }

  /** No position between `from` and the one found holds the slave id. */
  lemma {:induction false} FirstSlaveFromIsFirst(w: seq<byte>, from: nat, slaveId: byte, j: nat)
    requires from <= |w| && from <= j < FirstSlaveFrom(w, from, slaveId)
    ensures w[j] != slaveId
    decreases |w| - from
  {
    if j > from {
      FirstSlaveFromIsFirst(w, from + 1, slaveId, j);
    }
  }

  /** The bytes a slide drops, after the first, are none of them the slave id. */
  lemma SlideDropsNoSlaveId(w: seq<byte>, slaveId: byte, j: nat)
    requires |w| == WindowSize && 1 <= j < WindowSize - |Slide(w, slaveId)|
    ensures w[j] != slaveId
  {
    FirstSlaveFromIsFirst(w, 1, slaveId, j);
  }

  /** The window as the next byte finds it: slid if full, unchanged otherwise. */
  function Slid(w: seq<byte>, slaveId: byte): seq<byte>
    requires |w| <= WindowSize
  {
    if |w| == WindowSize then Slide(w, slaveId) else w
  }

  /** The next byte is dropped: the window it finds is empty and the byte is not the slave id. */
  predicate Discards(w: seq<byte>, b: byte, slaveId: byte)
    requires |w| <= WindowSize
  {
    |Slid(w, slaveId)| == 0 && b != slaveId
  }

  /** The window after one byte has been read. */
  function Accept(w: seq<byte>, b: byte, slaveId: byte): (r: seq<byte>)
    requires |w| <= WindowSize
    ensures |r| <= WindowSize
    ensures WellFormed(w, slaveId) ==> WellFormed(r, slaveId)
    ensures IsSuffix(r, w + [b])
    ensures Discards(w, b, slaveId) <==> r == []
  {
    var s := Slid(w, slaveId);
    if Discards(w, b, slaveId) then s
    else
      assert IsSuffix(s, w) by {
        if |w| == WindowSize {
          assert IsSuffix(Slide(w, slaveId), w);
        }
      }
      assert (w + [b])[|w + [b]| - |s + [b]|..] == w[|w| - |s|..] + [b];
      s + [b]
  }

  /**
   * `readLatestIncoming8BytesFrame` on the pending input, `count` reads already made:
   * the window it leaves and the input it leaves unread. A discard ends the loop once
   * more than 15 bytes have been read.
   */
  function Synchronise(w: seq<byte>, input: seq<byte>, count: nat, slaveId: byte): (r: (seq<byte>, seq<byte>))
    requires |w| <= WindowSize
    decreases |input|
  {
    if input == [] then (w, [])
    else if Discards(w, input[0], slaveId) && count + 1 > IterationLimit then (Slid(w, slaveId), input[1..])
    else Synchronise(Accept(w, input[0], slaveId), input[1..], count + 1, slaveId)
  }

  /** The loop's three ways on with the next byte: drop it and go on, drop it and stop, or keep it. */
  lemma SynchroniseDrops(w: seq<byte>, input: seq<byte>, count: nat, slaveId: byte)
    requires |w| <= WindowSize && input != [] && Discards(w, input[0], slaveId)
    ensures count + 1 <= IterationLimit ==>
      Synchronise(w, input, count, slaveId) == Synchronise(Slid(w, slaveId), input[1..], count + 1, slaveId)
    ensures count + 1 > IterationLimit ==> Synchronise(w, input, count, slaveId) == (Slid(w, slaveId), input[1..])
  {
  }

  lemma SynchroniseKeeps(w: seq<byte>, input: seq<byte>, count: nat, slaveId: byte)
    requires |w| <= WindowSize && input != [] && !Discards(w, input[0], slaveId)
    ensures Synchronise(w, input, count, slaveId) ==
      Synchronise(Slid(w, slaveId) + [input[0]], input[1..], count + 1, slaveId)
  {
  }

  lemma SuffixAppend(s: seq<byte>, t: seq<byte>, x: seq<byte>)
    requires IsSuffix(s, t)
    ensures IsSuffix(s + x, t + x)
  {
    assert (t + x)[|t + x| - |s + x|..] == t[|t| - |s|..] + x;
  }

  lemma SuffixTransitive(r: seq<byte>, s: seq<byte>, t: seq<byte>)
    requires IsSuffix(r, s) && IsSuffix(s, t)
    ensures IsSuffix(r, t)
  {
    assert t[|t| - |s|..][|s| - |r|..] == t[|t| - |r|..];
  }

  lemma TakeCons(s: seq<byte>, n: nat)
    requires 1 <= n <= |s|
    ensures s[..n] == [s[0]] + s[1..][..n - 1]
  {
  }

  /**
   * What the read loop promises about the window `v` and the unread input `rest` it
   * leaves: a well-formed window stays well-formed; the unread input is the tail of the
   * pending input; and input is left unread only after a discard in an empty window
   * past the iteration limit.
   */
  predicate Bounded(w: seq<byte>, input: seq<byte>, count: nat, slaveId: byte, v: seq<byte>, rest: seq<byte>) {
    && |v| <= WindowSize
    && (WellFormed(w, slaveId) ==> WellFormed(v, slaveId))
    && IsSuffix(rest, input)
    && (rest != [] ==> v == [] && count + (|input| - |rest|) > IterationLimit)
  }

  /** The window left holds the latest bytes read, contiguous and in order. */
  predicate Latest(w: seq<byte>, input: seq<byte>, v: seq<byte>, rest: seq<byte>) {
    |rest| <= |input| && IsSuffix(v, w + input[..|input| - |rest|])
  }

  /** One byte accepted: the bounds the rest of the loop keeps, the whole loop keeps. */
  lemma BoundedStep(w: seq<byte>, input: seq<byte>, count: nat, slaveId: byte)
    requires |w| <= WindowSize && input != []
    requires !(Discards(w, input[0], slaveId) && count + 1 > IterationLimit)
    requires var a := Accept(w, input[0], slaveId); var r := Synchronise(a, input[1..], count + 1, slaveId);
      Bounded(a, input[1..], count + 1, slaveId, r.0, r.1)
    ensures var r := Synchronise(w, input, count, slaveId); Bounded(w, input, count, slaveId, r.0, r.1)
  {
    var a := Accept(w, input[0], slaveId);
    var r := Synchronise(a, input[1..], count + 1, slaveId);
    assert Synchronise(w, input, count, slaveId) == r;
    assert IsSuffix(r.1, input) by {
      assert input[1..][|input[1..]| - |r.1|..] == input[|input| - |r.1|..];
    }
  }

  /** One byte accepted: the window still holds the latest bytes read. */
  lemma LatestStep(w: seq<byte>, input: seq<byte>, count: nat, slaveId: byte)
    requires |w| <= WindowSize && input != []
    requires !(Discards(w, input[0], slaveId) && count + 1 > IterationLimit)
    requires var a := Accept(w, input[0], slaveId); var r := Synchronise(a, input[1..], count + 1, slaveId);
      |r.1| <= |input[1..]| && Latest(a, input[1..], r.0, r.1)
    ensures var r := Synchronise(w, input, count, slaveId); Latest(w, input, r.0, r.1)
  {
    var a := Accept(w, input[0], slaveId);
    var r := Synchronise(a, input[1..], count + 1, slaveId);
    assert Synchronise(w, input, count, slaveId) == r;
    LatestCons(w, input, a, r.0, |r.1|);
  }

  /** The sequence fact behind LatestStep: a window within `a`, and `a` a suffix of w plus one byte. */
  lemma LatestCons(w: seq<byte>, input: seq<byte>, a: seq<byte>, v: seq<byte>, unread: nat)
    requires input != [] && unread <= |input| - 1 && IsSuffix(a, w + [input[0]])
    requires IsSuffix(v, a + input[1..][..|input[1..]| - unread])
    ensures IsSuffix(v, w + input[..|input| - unread])
  {
    var used := input[1..][..|input[1..]| - unread];
    SuffixAppend(a, w + [input[0]], used);
    TakeCons(input, |input| - unread);
    assert w + [input[0]] + used == w + input[..|input| - unread];
    SuffixTransitive(v, a + used, w + input[..|input| - unread]);
  }

  /** A discard past the iteration limit: the loop stops with an empty window and one byte read. */
  lemma StopStep(w: seq<byte>, input: seq<byte>, count: nat, slaveId: byte)
    requires |w| <= WindowSize && input != []
    requires Discards(w, input[0], slaveId) && count + 1 > IterationLimit
    ensures var r := Synchronise(w, input, count, slaveId); Bounded(w, input, count, slaveId, r.0, r.1) && Latest(w, input, r.0, r.1)
  {
    var r := Synchronise(w, input, count, slaveId);
    assert r == (Slid(w, slaveId), input[1..]);
    assert r.0 == [];
    assert |input| - |r.1| == 1;
    assert IsSuffix(r.1, input) by {
      assert input[1..] == input[|input| - |input[1..]|..];
    }
  }

  /** The read loop, from any window and any pending input, keeps both promises. */
  lemma {:induction false} SynchroniseProperties(w: seq<byte>, input: seq<byte>, count: nat, slaveId: byte)
    requires |w| <= WindowSize
    ensures var r := Synchronise(w, input, count, slaveId);
      Bounded(w, input, count, slaveId, r.0, r.1) && Latest(w, input, r.0, r.1)
    decreases |input|
  {
    if input == [] {
      assert input[..0] == [] && w + [] == w;
    } else if Discards(w, input[0], slaveId) && count + 1 > IterationLimit {
      StopStep(w, input, count, slaveId);
    } else {
      var a := Accept(w, input[0], slaveId);
      SynchroniseProperties(a, input[1..], count + 1, slaveId);
      BoundedStep(w, input, count, slaveId);
      LatestStep(w, input, count, slaveId);
    }
  }

  /** A full window reports a frame, and then no input is left unread. */
  lemma ReadyConsumesAll(w: seq<byte>, input: seq<byte>, count: nat, slaveId: byte)
    requires |w| <= WindowSize && |Synchronise(w, input, count, slaveId).0| == WindowSize
    ensures Synchronise(w, input, count, slaveId).1 == []
  {
    SynchroniseProperties(w, input, count, slaveId);
  }

  /** A ready frame is the last eight bytes of the window and the input together. */
  lemma ReadyFrameIsLatest(w: seq<byte>, input: seq<byte>, count: nat, slaveId: byte)
    requires |w| <= WindowSize && |Synchronise(w, input, count, slaveId).0| == WindowSize
    ensures |w + input| >= WindowSize
    ensures Synchronise(w, input, count, slaveId).0 == (w + input)[|w + input| - WindowSize..]
  {
    SynchroniseProperties(w, input, count, slaveId);
    assert input[..|input| - 0] == input;
  }

  /**
   * A request frame that starts with the slave id, read from an empty window, ends up
   * whole in the window; so does the remainder of one already begun.
   */
  lemma {:induction false} FrameIsCollected(w: seq<byte>, rest: seq<byte>, count: nat, slaveId: byte)
    requires WellFormed(w, slaveId) && |w| + |rest| <= WindowSize
    requires w == [] && rest != [] ==> rest[0] == slaveId
    ensures Synchronise(w, rest, count, slaveId) == (w + rest, [])
    decreases |rest|
  {
    if rest == [] {
      assert w + rest == w;
    } else {
      var w1 := w + [rest[0]];
      assert WellFormed(w1, slaveId) && |w1| + |rest[1..]| <= WindowSize;
      assert w1 + rest[1..] == w + rest;
      CollectStep(w, rest, count, slaveId);
      FrameIsCollected(w1, rest[1..], count + 1, slaveId);
    }
  }

  /** A window that is not full, given a byte it keeps, grows by that byte. */
  lemma CollectStep(w: seq<byte>, rest: seq<byte>, count: nat, slaveId: byte)
    requires WellFormed(w, slaveId) && |w| < WindowSize && rest != []
    requires w == [] ==> rest[0] == slaveId
    ensures Synchronise(w, rest, count, slaveId) == Synchronise(w + [rest[0]], rest[1..], count + 1, slaveId)
  {
    assert !Discards(w, rest[0], slaveId);
    assert Accept(w, rest[0], slaveId) == w + [rest[0]];
  }

  /** Only the slave id can start a window: other bytes into an empty window are dropped. */
  lemma EmptyWindowWaitsForSlaveId(b: byte, slaveId: byte)
    ensures Accept([], b, slaveId) == if b == slaveId then [b] else []
  {
  }

  /**
   * One more byte into a full window: the window slides to the next slave id at
   * positions 1..7 and keeps the trailing bytes in order, or empties; the byte then
   * goes in unless the window is empty and the byte is not the slave id.
   */
  lemma FullWindowSlides(w: seq<byte>, b: byte, slaveId: byte)
    requires |w| == WindowSize
    ensures var k := FirstSlaveFrom(w, 1, slaveId);
      Accept(w, b, slaveId) == if k == WindowSize && b != slaveId then [] else w[k..] + [b]
  {
  }
}
