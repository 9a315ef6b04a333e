/** Waiting for the user: the tap gesture read from a polled button, against the recogniser it implements. */
module UserPresence {
  import opened Bits
  import opened StoreFormat

  /** One turn of the polling loop: the clock when the timeout is checked, then the clock and the button. */
  datatype Sample = Sample(checkedMs: nat, nowMs: nat, pressed: bool)

  /** The clock does not run backwards, nor wrap. */
  predicate InOrder(startMs: nat, trace: seq<Sample>) {
    && (forall i :: 0 <= i < |trace| ==> startMs <= trace[i].checkedMs <= trace[i].nowMs)
    && (forall i, j :: 0 <= i < j < |trace| ==> trace[i].nowMs <= trace[j].checkedMs)
  }

  /** The samples taken before the request times out. */
  function Taken(startMs: nat, timeoutMs: nat, trace: seq<Sample>): (r: seq<Sample>)
    ensures r <= trace
    decreases |trace|
  {
    if trace == [] || trace[0].checkedMs - startMs >= timeoutMs then []
    else [trace[0]] + Taken(startMs, timeoutMs, trace[1..])
  }

  /** The times of the rising edges: a pressed sample right after a released one. A button that is down from the
      start gives none until it has been released. */
  function Edges(last: bool, samples: seq<Sample>): seq<nat>
    decreases |samples|
  {
    if samples == [] then []
    else
      (if samples[0].pressed && !last then [samples[0].nowMs] else [])
      + Edges(samples[0].pressed, samples[1..])
  }

  /** The greedy recogniser: `seen` taps so far, the window anchored at the first of them. */
  predicate Recognises(taps: nat, windowMs: nat, seen: nat, first: int, edges: seq<nat>)
    decreases |edges|
  {
    if edges == [] then false
    else
      var fits := seen > 0 && edges[0] - first <= windowMs;
      var next := if fits then seen + 1 else 1;
      next >= taps || Recognises(taps, windowMs, next, if fits then first else edges[0], edges[1..])
  }

  lemma {:induction false} StaleFirstDoesNotMatter(taps: nat, windowMs: nat, seen: nat, first: int, edges: seq<nat>)
    requires edges != [] ==> edges[0] - first > windowMs
    ensures Recognises(taps, windowMs, seen, first, edges) == Recognises(taps, windowMs, 0, 0, edges)
  {
  }

  lemma OneMoreEdge(taps: nat, windowMs: nat, seen: nat, first: int, now: nat, rest: seq<nat>)
    ensures var fits := seen > 0 && now - first <= windowMs;
      var next := if fits then seen + 1 else 1;
      Recognises(taps, windowMs, seen, first, [now] + rest)
        == (next >= taps || Recognises(taps, windowMs, next, if fits then first else now, rest))
  {
    assert ([now] + rest)[1..] == rest;
  }

  lemma {:induction false} EdgesAreLate(last: bool, samples: seq<Sample>, bound: nat)
    requires forall i :: 0 <= i < |samples| ==> samples[i].nowMs >= bound
    ensures forall k :: 0 <= k < |Edges(last, samples)| ==> Edges(last, samples)[k] >= bound
    decreases |samples|
  {
    if samples != [] {
      EdgesAreLate(samples[0].pressed, samples[1..], bound);
    }
  }

  // ---- What the recogniser recognises ----

  /** `taps` rising edges in a row, all within the window of the first of them. */
  predicate Gesture(taps: nat, windowMs: nat, edges: seq<nat>, from: nat) {
    && taps > 0 && from + taps <= |edges|
    && forall k :: from <= k < from + taps ==> edges[k] - edges[from] <= windowMs
  }

  predicate Ascending(edges: seq<nat>) {
    forall i, j :: 0 <= i < j < |edges| ==> edges[i] <= edges[j]
  }

  /** Soundness: what is recognised contains the gesture. The first `at` edges have been read, the last `seen` of
      them within the window of the earliest. */
  lemma {:induction false} RecognisedIsGesture(taps: nat, windowMs: nat, edges: seq<nat>, at: nat, seen: nat)
    returns (from: nat)
    requires 0 < taps && at <= |edges| && seen <= at && seen < taps && Ascending(edges)
    requires seen > 0 ==> edges[at - 1] - edges[at - seen] <= windowMs
    requires Recognises(taps, windowMs, seen, if seen > 0 then edges[at - seen] else 0, edges[at..])
    ensures Gesture(taps, windowMs, edges, from)
    decreases |edges| - at
  {
    var rest := edges[at..];
    assert rest[0] == edges[at] && rest[1..] == edges[at + 1..];
    var fits := seen > 0 && edges[at] - edges[at - seen] <= windowMs;
    var next := if fits then seen + 1 else 1;
    if next >= taps {
      from := at + 1 - next;
      forall k | from <= k < from + taps
        ensures edges[k] - edges[from] <= windowMs
      {
        if k < at {
          assert edges[k] <= edges[at];
        }
      }
    } else {
      from := RecognisedIsGesture(taps, windowMs, edges, at + 1, next);
    }
  }

  lemma {:induction false} PairIsRecognised(windowMs: nat, edges: seq<nat>, at: nat, seen: nat, first: int, from: nat)
    requires at <= from && seen <= 1 && Gesture(2, windowMs, edges, from)
    ensures Recognises(2, windowMs, seen, first, edges[at..])
    decreases from - at
  {
    var rest := edges[at..];
    assert rest[0] == edges[at] && rest[1..] == edges[at + 1..];
    if at < from {
      PairIsRecognised(windowMs, edges, at + 1, 1, edges[at], from);
    } else {
      assert edges[at + 1] - edges[at] <= windowMs;
      assert edges[at + 1..][0] == edges[at + 1];
    }
  }

  /** With a window of no length, only taps at the same instant count, and no earlier tap can hide them. */
  lemma {:induction false} InstantIsRecognised(taps: nat, edges: seq<nat>, at: nat, seen: nat, first: int, from: nat)
    requires Gesture(taps, 0, edges, from) && Ascending(edges) && at < from + taps
    requires seen > 0 && at < |edges| ==> first <= edges[at]
    requires at > from ==> seen >= at - from && first == edges[from]
    ensures Recognises(taps, 0, seen, first, edges[at..])
    decreases |edges| - at
  {
    var rest := edges[at..];
    assert rest[0] == edges[at] && rest[1..] == edges[at + 1..];
    var fits := seen > 0 && edges[at] - first <= 0;
    var next := if fits then seen + 1 else 1;
    if next < taps {
      if at >= from {
        assert edges[from] <= edges[at];
      }
      InstantIsRecognised(taps, edges, at + 1, next, if fits then first else edges[at], from);
    }
  }

  /** For one tap and for the default double tap nothing is missed: the wait succeeds if and only if the gesture
      was made. */
  lemma GestureIff(taps: nat, windowMs: nat, edges: seq<nat>)
    requires Ascending(edges) && 1 <= taps <= 2
    ensures Recognises(taps, windowMs, 0, 0, edges) <==> exists from :: Gesture(taps, windowMs, edges, from)
  {
    assert edges[0..] == edges;
    if Recognises(taps, windowMs, 0, 0, edges) {
      var from := RecognisedIsGesture(taps, windowMs, edges, 0, 0);
    }
    if from :| Gesture(taps, windowMs, edges, from) {
      if taps == 2 {
        PairIsRecognised(windowMs, edges, 0, 0, 0, from);
      }
    }
  }

  /** A stray tap, then `taps` taps within a millisecond: the first of them still falls into the stray tap's
      window, and the others do not. */
  function Straddling(taps: nat, windowMs: nat): (edges: seq<nat>)
    requires taps >= 3
    ensures |edges| == taps + 1
  {
    [0, windowMs] + seq(taps - 1, i => windowMs + 1)
  }

  lemma {:induction false} TooFew(taps: nat, windowMs: nat, seen: nat, edges: seq<nat>)
    requires seen > 0 && seen + |edges| < taps
    requires forall i :: 0 <= i < |edges| ==> edges[i] == windowMs + 1
    ensures !Recognises(taps, windowMs, seen, windowMs + 1, edges)
    decreases |edges|
  {
    if edges != [] {
      TooFew(taps, windowMs, seen + 1, edges[1..]);
    }
  }

  lemma StraddlingIsMissed(taps: nat, windowMs: nat)
    requires taps >= 3 && windowMs >= 1
    ensures var edges := Straddling(taps, windowMs);
      Ascending(edges) && Gesture(taps, windowMs, edges, 1) && !Recognises(taps, windowMs, 0, 0, edges)
  {
    var edges := Straddling(taps, windowMs);
    var late := seq(taps - 1, i => windowMs + 1);
    assert edges == [0] + ([windowMs] + late) && late == [windowMs + 1] + late[1..];
    assert !Recognises(taps, windowMs, 0, 0, edges) by {
      hide Recognises;
      OneMoreEdge(taps, windowMs, 0, 0, 0, [windowMs] + late);
      OneMoreEdge(taps, windowMs, 1, 0, windowMs, late);
      OneMoreEdge(taps, windowMs, 2, 0, windowMs + 1, late[1..]);
      TooFew(taps, windowMs, 1, late[1..]);
    }
  }

  /** Nothing the recogniser accepts is not the gesture, and it misses no gesture. */
  ghost predicate Exact(taps: nat, windowMs: nat) {
    forall edges :: Ascending(edges) ==>
      (Recognises(taps, windowMs, 0, 0, edges) <==> exists from :: Gesture(taps, windowMs, edges, from))
  }

  /** The recogniser is exact for one and two taps, and for no longer gesture unless the window is empty: the
      window stays anchored at the first tap, so an early stray tap can hide taps that are close together. */
  lemma RecognitionExactIff(taps: nat, windowMs: nat)
    requires taps > 0
    ensures Exact(taps, windowMs) <==> taps <= 2 || windowMs == 0
  {
    if taps <= 2 || windowMs == 0 {
      forall edges | Ascending(edges)
        ensures Recognises(taps, windowMs, 0, 0, edges) <==> exists from :: Gesture(taps, windowMs, edges, from)
      {
        assert edges[0..] == edges;
        if taps <= 2 {
          GestureIff(taps, windowMs, edges);
        } else {
          if from :| Gesture(taps, windowMs, edges, from) {
            InstantIsRecognised(taps, edges, 0, 0, 0, from);
          }
          if Recognises(taps, windowMs, 0, 0, edges) {
            var from := RecognisedIsGesture(taps, windowMs, edges, 0, 0);
          }
        }
      }
    } else {
      StraddlingIsMissed(taps, windowMs);
      assert !Exact(taps, windowMs);
    }
  }

  /** Of the configurations the store accepts, exactly those for one and two taps miss nothing. */
  lemma ValidConfigExactIff(config: UpConfig)
    requires UpConfigValid(config)
    ensures Exact(config.tapCount, config.gestureWindowMs) <==> config.tapCount <= 2
  {
    hide Exact;
    RecognitionExactIff(config.tapCount, config.gestureWindowMs);
  }

  /** Within the default range: a tap at 0 hides three taps in 300 ms from a window of 750 ms. */
  lemma TripleTapCanBeMissed()
    ensures var edges := [0, 700, 800, 1000];
      && Ascending(edges) && Gesture(3, 750, edges, 1) && !Recognises(3, 750, 0, 0, edges)
  {
    assert [0, 700, 800, 1000][1..] == [700, 800, 1000];
    assert [700, 800, 1000][1..] == [800, 1000];
    assert [800, 1000][1..] == [1000];
    assert [1000][1..] == [];
  }

  // ---- The polling loop ----

  lemma {:induction false} EdgesAscend(last: bool, samples: seq<Sample>)
    requires forall i, j :: 0 <= i < j < |samples| ==> samples[i].nowMs <= samples[j].nowMs
    ensures Ascending(Edges(last, samples))
    decreases |samples|
  {
    if samples != [] {
      EdgesAscend(samples[0].pressed, samples[1..]);
      EdgesAreLate(samples[0].pressed, samples[1..], samples[0].nowMs);
    }
  }

  /** The edges that the wait sees in time. */
  function EdgesInTime(config: UpConfig, startMs: nat, initial: bool, trace: seq<Sample>): seq<nat> {
    Edges(initial, Taken(startMs, config.requestTimeoutMs, trace))
  }

  lemma EdgesInTimeAscend(config: UpConfig, startMs: nat, initial: bool, trace: seq<Sample>)
    requires InOrder(startMs, trace)
    ensures Ascending(EdgesInTime(config, startMs, initial, trace))
  {
    var taken := Taken(startMs, config.requestTimeoutMs, trace);
    forall i, j | 0 <= i < j < |taken|
      ensures taken[i].nowMs <= taken[j].nowMs
    {
      assert taken[i] == trace[i] && taken[j] == trace[j];
    }
    EdgesAscend(initial, taken);
  }

  /** Sample `i` of the trace is a tap: the button is down, was up just before, and the wait has not timed out. */
  predicate TapAt(startMs: nat, timeoutMs: nat, initial: bool, trace: seq<Sample>, i: nat) {
    && i < |trace| && trace[i].pressed && !(if i == 0 then initial else trace[i - 1].pressed)
    && forall j :: 0 <= j <= i ==> trace[j].checkedMs - startMs < timeoutMs
  }

  /** `at` lists the taps of the trace from sample `from` on, all of them, each once and in order, and `edges` has
      their times. */
  ghost predicate AreTaps(startMs: nat, timeoutMs: nat, initial: bool, trace: seq<Sample>, from: nat, at: seq<nat>,
                          edges: seq<nat>) {
    && |at| == |edges|
    && (forall k :: 0 <= k < |at| ==> at[k] >= from && TapAt(startMs, timeoutMs, initial, trace, at[k]))
    && (forall k :: 0 <= k < |at| ==> edges[k] == trace[at[k]].nowMs)
    && (forall i, j :: 0 <= i < j < |at| ==> at[i] < at[j])
    && forall i: nat :: i >= from && TapAt(startMs, timeoutMs, initial, trace, i) ==> i in at
  }

  lemma AnotherTap(startMs: nat, timeoutMs: nat, initial: bool, trace: seq<Sample>, from: nat, rest: seq<nat>,
                   edges: seq<nat>)
    requires AreTaps(startMs, timeoutMs, initial, trace, from + 1, rest, edges)
    requires TapAt(startMs, timeoutMs, initial, trace, from)
    ensures AreTaps(startMs, timeoutMs, initial, trace, from, [from] + rest, [trace[from].nowMs] + edges)
  {
    var at := [from] + rest;
    assert from < |trace|;
    hide TapAt;
    forall i: nat | i >= from && TapAt(startMs, timeoutMs, initial, trace, i)
      ensures i in at
    {
      if i > from {
        var k: nat :| k < |rest| && rest[k] == i;
        assert at[k + 1] == i;
      }
    }
  }

  lemma NoTapHere(startMs: nat, timeoutMs: nat, initial: bool, trace: seq<Sample>, from: nat, rest: seq<nat>,
                  edges: seq<nat>)
    requires AreTaps(startMs, timeoutMs, initial, trace, from + 1, rest, edges)
    requires !TapAt(startMs, timeoutMs, initial, trace, from)
    ensures AreTaps(startMs, timeoutMs, initial, trace, from, rest, edges)
  {
    hide TapAt;
  }

  lemma TapHere(startMs: nat, timeoutMs: nat, initial: bool, trace: seq<Sample>, i: nat)
    requires i < |trace| && forall j :: 0 <= j <= i ==> trace[j].checkedMs - startMs < timeoutMs
    ensures TapAt(startMs, timeoutMs, initial, trace, i)
       <==> trace[i].pressed && !(if i == 0 then initial else trace[i - 1].pressed)
  {
  }

  lemma NoEdgesLeft(startMs: nat, timeoutMs: nat, trace: seq<Sample>, from: nat, last: bool)
    requires from <= |trace| && (from < |trace| ==> trace[from].checkedMs - startMs >= timeoutMs)
    ensures Edges(last, Taken(startMs, timeoutMs, trace[from..])) == []
  {
  }

  lemma NoTapsLeft(startMs: nat, timeoutMs: nat, initial: bool, trace: seq<Sample>, from: nat)
    requires from < |trace| ==> trace[from].checkedMs - startMs >= timeoutMs
    ensures AreTaps(startMs, timeoutMs, initial, trace, from, [], [])
  {
  }

  lemma {:induction false} EdgesAreTaps(startMs: nat, timeoutMs: nat, initial: bool, trace: seq<Sample>, from: nat)
    returns (at: seq<nat>)
    requires from <= |trace| && forall j :: 0 <= j < from ==> trace[j].checkedMs - startMs < timeoutMs
    ensures var last := if from == 0 then initial else trace[from - 1].pressed;
      AreTaps(startMs, timeoutMs, initial, trace, from, at, Edges(last, Taken(startMs, timeoutMs, trace[from..])))
    decreases |trace| - from
  {
    hide AreTaps, TapAt, Edges, Taken;
    var last := if from == 0 then initial else trace[from - 1].pressed;
    if from == |trace| || trace[from].checkedMs - startMs >= timeoutMs {
      at := [];
      NoTapsLeft(startMs, timeoutMs, initial, trace, from);
      NoEdgesLeft(startMs, timeoutMs, trace, from, last);
    } else {
      assert TapAt(startMs, timeoutMs, initial, trace, from) <==> trace[from].pressed && !last by {
        TapHere(startMs, timeoutMs, initial, trace, from);
      }
      var rest := EdgesAreTaps(startMs, timeoutMs, initial, trace, from + 1);
      var edges := Edges(trace[from].pressed, Taken(startMs, timeoutMs, trace[from + 1..]));
      OneMoreSample(startMs, timeoutMs, trace, from, last);
      if trace[from].pressed && !last {
        at := [from] + rest;
        AnotherTap(startMs, timeoutMs, initial, trace, from, rest, edges);
      } else {
        at := rest;
        NoTapHere(startMs, timeoutMs, initial, trace, from, rest, edges);
      }
    }
  }

  /** The user made the gesture: as many taps in the trace as were asked for, all within the window of the first. */
  predicate TapsMade(config: UpConfig, startMs: nat, initial: bool, trace: seq<Sample>, taps: seq<nat>) {
    && |taps| == config.tapCount > 0
    && (forall k :: 0 <= k < |taps| ==> TapAt(startMs, config.requestTimeoutMs, initial, trace, taps[k]))
    && (forall k :: 0 <= k < |taps| ==> trace[taps[k]].nowMs - trace[taps[0]].nowMs <= config.gestureWindowMs)
    && forall i, j :: 0 <= i < j < |taps| ==> taps[i] < taps[j]
  }

  /** Gesture soundness: the wait succeeds only after as many rising edges as taps were asked for, all within the
      window of the first of them. */
  lemma ConfirmationNeedsGesture(config: UpConfig, startMs: nat, initial: bool, trace: seq<Sample>)
    requires InOrder(startMs, trace) && config.tapCount > 0
    requires Recognises(config.tapCount, config.gestureWindowMs, 0, 0, EdgesInTime(config, startMs, initial, trace))
    ensures exists from ::
      Gesture(config.tapCount, config.gestureWindowMs, EdgesInTime(config, startMs, initial, trace), from)
  {
    hide Edges, Taken, InOrder, Recognises, Gesture;
    var edges := EdgesInTime(config, startMs, initial, trace);
    EdgesInTimeAscend(config, startMs, initial, trace);
    assert edges[0..] == edges;
    var from := RecognisedIsGesture(config.tapCount, config.gestureWindowMs, edges, 0, 0);
  }

  lemma OneMoreSample(startMs: nat, timeoutMs: nat, trace: seq<Sample>, i: nat, last: bool)
    requires i < |trace| && trace[i].checkedMs - startMs < timeoutMs
    ensures var rest := Edges(trace[i].pressed, Taken(startMs, timeoutMs, trace[i + 1..]));
      Edges(last, Taken(startMs, timeoutMs, trace[i..]))
        == if trace[i].pressed && !last then [trace[i].nowMs] + rest else rest
  {
    assert trace[i..][0] == trace[i] && trace[i..][1..] == trace[i + 1..];
    var later := Taken(startMs, timeoutMs, trace[i + 1..]);
    assert ([trace[i]] + later)[1..] == later;
  }

  lemma NothingInTime(startMs: nat, timeoutMs: nat, trace: seq<Sample>, last: bool)
    requires trace != [] && trace[0].checkedMs - startMs >= timeoutMs
    ensures Edges(last, Taken(startMs, timeoutMs, trace)) == []
  {
  }

  lemma NoEdges(taps: nat, windowMs: nat, seen: nat, first: int)
    ensures !Recognises(taps, windowMs, seen, first, [])
  {
  }

  lemma NoTapsNoFirst(taps: nat, windowMs: nat, first: int, edges: seq<nat>)
    ensures Recognises(taps, windowMs, 0, first, edges) == Recognises(taps, windowMs, 0, 0, edges)
  {
  }

  lemma RestIsLate(startMs: nat, timeoutMs: nat, trace: seq<Sample>, i: nat)
    requires InOrder(startMs, trace) && i < |trace|
    ensures var edges := Edges(trace[i].pressed, Taken(startMs, timeoutMs, trace[i + 1..]));
      forall k :: 0 <= k < |edges| ==> edges[k] >= trace[i].nowMs
  {
    var later := Taken(startMs, timeoutMs, trace[i + 1..]);
    forall k | 0 <= k < |later|
      ensures later[k].nowMs >= trace[i].nowMs
    {
      assert later[k] == trace[i + 1..][k] == trace[i + 1 + k];
    }
    EdgesAreLate(trace[i].pressed, later, trace[i].nowMs);
  }

  /** What the recogniser finds in the samples taken in time is the gesture; for one and two taps it finds it
      whenever it was made. */
  lemma WaitMeansGesture(config: UpConfig, startMs: nat, initial: bool, trace: seq<Sample>)
    requires InOrder(startMs, trace)
    ensures var edges := EdgesInTime(config, startMs, initial, trace);
      && (config.tapCount > 0 && Recognises(config.tapCount, config.gestureWindowMs, 0, 0, edges) ==>
            exists from :: Gesture(config.tapCount, config.gestureWindowMs, edges, from))
      && (1 <= config.tapCount <= 2 && !Recognises(config.tapCount, config.gestureWindowMs, 0, 0, edges) ==>
            !exists from :: Gesture(config.tapCount, config.gestureWindowMs, edges, from))
  {
    hide Edges, Taken, InOrder, Recognises, Gesture;
    var edges := EdgesInTime(config, startMs, initial, trace);
    if config.tapCount > 0 && Recognises(config.tapCount, config.gestureWindowMs, 0, 0, edges) {
      ConfirmationNeedsGesture(config, startMs, initial, trace);
    }
    if 1 <= config.tapCount <= 2 {
      EdgesInTimeAscend(config, startMs, initial, trace);
      GestureIff(config.tapCount, config.gestureWindowMs, edges);
    }
  }

  /** Taps the user made are among the edges the recogniser sees, next to each other or closer still. */
  lemma MadeIsGesture(config: UpConfig, startMs: nat, initial: bool, trace: seq<Sample>, taps: seq<nat>)
    returns (from: nat)
    requires InOrder(startMs, trace) && TapsMade(config, startMs, initial, trace, taps)
    ensures Gesture(config.tapCount, config.gestureWindowMs, EdgesInTime(config, startMs, initial, trace), from)
  {
    hide Edges, Taken, InOrder;
    var edges, n := EdgesInTime(config, startMs, initial, trace), config.tapCount;
    EdgesInTimeAscend(config, startMs, initial, trace);
    var at := EdgesAreTaps(startMs, config.requestTimeoutMs, initial, trace, 0);
    assert trace[0..] == trace;
    var place := Places(at, taps);
    from := place[0];
    PlacesSpread(place, n - 1);
    forall k | from <= k < from + n
      ensures edges[k] - edges[from] <= config.gestureWindowMs
    {
      assert edges[k] <= edges[place[n - 1]] == trace[taps[n - 1]].nowMs;
    }
  }

  /** Where the elements of an ascending list stand in another that holds them all. */
  lemma {:induction false} Places(at: seq<nat>, some: seq<nat>) returns (place: seq<nat>)
    requires forall i, j :: 0 <= i < j < |at| ==> at[i] < at[j]
    requires forall i, j :: 0 <= i < j < |some| ==> some[i] < some[j]
    requires forall k :: 0 <= k < |some| ==> some[k] in at
    ensures |place| == |some| && forall k :: 0 <= k < |place| ==> place[k] < |at| && at[place[k]] == some[k]
    ensures forall i, j :: 0 <= i < j < |place| ==> place[i] < place[j]
  {
    if some == [] {
      place := [];
    } else {
      var front, last := some[..|some| - 1], some[|some| - 1];
      var before := Places(at, front);
      var k: nat :| k < |at| && at[k] == last;
      place := before + [k];
      forall i | 0 <= i < |before|
        ensures before[i] < k
      {
        assert at[before[i]] == front[i] == some[i] < at[k];
      }
    }
  }

  lemma {:induction false} PlacesSpread(place: seq<nat>, k: nat)
    requires k < |place| && forall i, j :: 0 <= i < j < |place| ==> place[i] < place[j]
    ensures place[k] >= place[0] + k
  {
    if k > 0 {
      PlacesSpread(place, k - 1);
    }
  }

  lemma GestureIsMade(config: UpConfig, startMs: nat, initial: bool, trace: seq<Sample>, from: nat)
    returns (taps: seq<nat>)
    requires Gesture(config.tapCount, config.gestureWindowMs, EdgesInTime(config, startMs, initial, trace), from)
    ensures TapsMade(config, startMs, initial, trace, taps)
  {
    hide Edges, Taken;
    var edges := EdgesInTime(config, startMs, initial, trace);
    var at := EdgesAreTaps(startMs, config.requestTimeoutMs, initial, trace, 0);
    assert trace[0..] == trace;
    taps := at[from..from + config.tapCount];
    forall k | 0 <= k < |taps|
      ensures TapAt(startMs, config.requestTimeoutMs, initial, trace, taps[k])
      ensures trace[taps[k]].nowMs == edges[from + k]
    {
      assert taps[k] == at[from + k];
    }
  }

  /** For one and two taps the wait is confirmed exactly if the user made the gesture before the timeout; for more it
      is confirmed only then. */
  lemma ConfirmedIffMade(config: UpConfig, startMs: nat, initial: bool, trace: seq<Sample>)
    requires InOrder(startMs, trace) && config.tapCount > 0
    ensures var confirmed := Recognises(config.tapCount, config.gestureWindowMs, 0, 0,
                                        EdgesInTime(config, startMs, initial, trace));
      && (confirmed ==> exists taps :: TapsMade(config, startMs, initial, trace, taps))
      && (config.tapCount <= 2 && (exists taps :: TapsMade(config, startMs, initial, trace, taps)) ==> confirmed)
  {
    hide Edges, Taken, InOrder, Recognises, Gesture, TapsMade;
    var edges := EdgesInTime(config, startMs, initial, trace);
    WaitMeansGesture(config, startMs, initial, trace);
    if Recognises(config.tapCount, config.gestureWindowMs, 0, 0, edges) {
      var from :| Gesture(config.tapCount, config.gestureWindowMs, edges, from);
      var taps := GestureIsMade(config, startMs, initial, trace, from);
    }
    if taps :| TapsMade(config, startMs, initial, trace, taps) {
      var from := MadeIsGesture(config, startMs, initial, trace, taps);
    }
  }

  /** meowkey_user_presence_wait_for_confirmation. The trace is what the clock and the button show; it reaches the
      timeout. The result is that of the recogniser over the samples taken in time. */
  method WaitForConfirmation(config: UpConfig, startMs: nat, initial: bool, trace: seq<Sample>) returns (ok: bool)
    requires InOrder(startMs, trace)
    requires trace != [] && trace[|trace| - 1].checkedMs - startMs >= config.requestTimeoutMs
    ensures config.source == 0 ==> ok
    ensures var edges := EdgesInTime(config, startMs, initial, trace);
      config.source != 0 ==>
        && ok == Recognises(config.tapCount, config.gestureWindowMs, 0, 0, edges)
        && (ok && config.tapCount > 0 ==> exists from :: Gesture(config.tapCount, config.gestureWindowMs, edges, from))
        && (1 <= config.tapCount <= 2 && !ok ==>
              !exists from :: Gesture(config.tapCount, config.gestureWindowMs, edges, from))
  {
    hide InOrder, Recognises, Edges, Taken, Gesture;
    if config.source == 0 {
      return true;
    }
    WaitMeansGesture(config, startMs, initial, trace);
    var timeout, window, taps := config.requestTimeoutMs, config.gestureWindowMs, config.tapCount;
    var lastPressed, armed := initial, !initial;
    var seen: nat, first: int := 0, 0;
    var i := 0;
    ghost var goal := Recognises(taps, window, 0, 0, EdgesInTime(config, startMs, initial, trace));
    assert trace[0..] == trace;
    while trace[i].checkedMs - startMs < timeout
      invariant i < |trace|
      invariant !armed ==> lastPressed && seen == 0
      invariant seen == 0 || seen < taps
      invariant goal == Recognises(taps, window, seen, first, Edges(lastPressed, Taken(startMs, timeout, trace[i..])))
      decreases |trace| - i
    {
      var now, pressed := trace[i].nowMs, trace[i].pressed;
      ghost var rest := Edges(pressed, Taken(startMs, timeout, trace[i + 1..]));
      OneMoreSample(startMs, timeout, trace, i, lastPressed);
      OneMoreEdge(taps, window, seen, first, now, rest);
      RestIsLate(startMs, timeout, trace, i);
      if !armed {
        lastPressed := pressed;
        if !pressed {
          armed := true;
        }
        i := i + 1;
        continue;
      }
      if pressed && !lastPressed {
        if taps <= 1 {
          return true;
        }
        if seen == 0 || now - first > window {
          seen := 1;
          first := now;
        } else {
          seen := seen + 1;
        }
        if seen >= taps {
          return true;
        }
      }
      assert goal == Recognises(taps, window, seen, first, rest);
      if seen > 0 && now - first > window {
        StaleFirstDoesNotMatter(taps, window, seen, first, rest);
        NoTapsNoFirst(taps, window, first, rest);
        seen := 0;
      }
      lastPressed := pressed;
      i := i + 1;
    }
    NothingInTime(startMs, timeout, trace[i..], lastPressed);
    NoEdges(taps, window, seen, first);
    ok := false;
  }
}
