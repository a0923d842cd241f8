/**
 * The main `while True` loop (lines 60-83): read a frame, poll a key, and
 * either stop, save the frame under the next photo name, or carry on.
 * Camera reads and key polls are given as a sequence of events.
 */
module CaptureLoop {
  import opened Decimal
  import opened PhotoFiles

  const ESC_KEY: int := 27
  const SPACE_KEY: int := 32

  /** One iteration's input: the frame read failed, or it succeeded and `waitKey` returned `key` (-1 for no key). */
  datatype Event = ReadFailed | Frame(key: int)

  /** Running, or why the loop ended. */
  datatype Status = Running | Escaped | GrabFailed

  /**
   * The loop's state: the photo counter, the names passed to `imwrite` in
   * order, the status, and how many frame reads have been made.
   */
  datatype Loop = Loop(counter: nat, written: seq<string>, status: Status, framesRead: nat)

  datatype KeyAction = Quit | Save | Ignore

  /** Lines 71-83: the key code is reduced modulo 256 (Python's `%` is never negative here). */
  function Action(key: int): (a: KeyAction)
    ensures a == Quit <==> (key - ESC_KEY) % 256 == 0
    ensures a == Save <==> (key - SPACE_KEY) % 256 == 0
  {
    if key % 256 == ESC_KEY then Quit
    else if key % 256 == SPACE_KEY then Save
    else Ignore
  }

  predicate Ends(e: Event) {
    e.ReadFailed? || Action(e.key) == Quit
  }

  function Start(counter: nat): Loop {
    Loop(counter, [], Running, 0)
  }

  /** One iteration of the loop body. */
  function Step(s: Loop, e: Event): (t: Loop)
    requires s.status == Running
    ensures t.framesRead == s.framesRead + 1
    ensures s.written <= t.written && |t.written| <= |s.written| + 1
    ensures t.counter == s.counter + |t.written| - |s.written|
    ensures t.status == Running || t.written == s.written
  {
    var s := s.(framesRead := s.framesRead + 1);
    match e
    case ReadFailed => s.(status := GrabFailed)
    case Frame(k) =>
      match Action(k)
      case Quit => s.(status := Escaped)
      case Save => s.(written := s.written + [FileName(s.counter)], counter := s.counter + 1)
      case Ignore => s
  }

  /** The loop run over the events until it stops or the events run out. */
  function Run(s: Loop, events: seq<Event>): (t: Loop)
    ensures s.written <= t.written
    ensures t.counter == s.counter + |t.written| - |s.written|
    ensures s.framesRead <= t.framesRead <= s.framesRead + |events|
    ensures |t.written| - |s.written| <= t.framesRead - s.framesRead
    decreases |events|
  {
    if s.status != Running || events == [] then s
    else Run(Step(s, events[0]), events[1..])
  }

  /**
   * Lines 60-83 as written, over the first `|events|` iterations: `counter`
   * is `img_counter`, `written` the names saved, `framesRead` the frames pulled.
   */
  method CaptureLoop(start: nat, events: seq<Event>)
    returns (counter: nat, written: seq<string>, status: Status, framesRead: nat)
    ensures Loop(counter, written, status, framesRead) == Run(Start(start), events)
  {
    counter, written, status, framesRead := start, [], Running, 0;
    while framesRead < |events|
      invariant framesRead <= |events|
      invariant Run(Start(start), events) == Run(Loop(counter, written, Running, framesRead), events[framesRead..])
    {
      var e := events[framesRead];
      ghost var rest := events[framesRead + 1..];
      assert events[framesRead..] == [e] + rest;
      framesRead := framesRead + 1;
      if e.ReadFailed? {
        status := GrabFailed;
        break;
      }
      var k := e.key;
      if k % 256 == ESC_KEY {
        status := Escaped;
        break;
      } else if k % 256 == SPACE_KEY {
        var name := FileName(counter);
        written := written + [name];
        counter := counter + 1;
      }
    }
  }

  /** Number of SPACE presses among the events. */
  function Saves(events: seq<Event>): nat {
    if events == [] then 0
    else (if events[0].Frame? && Action(events[0].key) == Save then 1 else 0) + Saves(events[1..])
  }

  /** The counter has moved one step per name written, and the names are those of consecutive indices from `c`. */
  ghost predicate NamedFrom(s: Loop, c: nat) {
    s.counter == c + |s.written| && s.written == SavedNames(c, |s.written|)
  }

  /** The loop keeps `NamedFrom`, and it makes at most one read per event. */
  lemma {:induction false} RunKeepsNaming(s: Loop, events: seq<Event>, c: nat)
    requires NamedFrom(s, c)
    ensures NamedFrom(Run(s, events), c)
    ensures s.framesRead <= Run(s, events).framesRead <= s.framesRead + |events|
    decreases |events|
  {
    if s.status == Running && events != [] {
      var t := Step(s, events[0]);
      if |t.written| != |s.written| {
        assert t.written == SavedNames(c, |s.written|) + [FileName(c + |s.written|)];
      }
      RunKeepsNaming(t, events[1..], c);
    }
  }

  /**
   * After N saves from start counter c, the files written are those of indices
   * c, c+1, ..., c+N-1 in that order, all distinct, and the counter is c+N.
   */
  lemma SessionSavesConsecutive(c: nat, events: seq<Event>)
    ensures Run(Start(c), events).counter == c + |Run(Start(c), events).written|
    ensures Run(Start(c), events).written == SavedNames(c, |Run(Start(c), events).written|)
    ensures forall j, k :: 0 <= j < k < |Run(Start(c), events).written| ==>
      Run(Start(c), events).written[j] != Run(Start(c), events).written[k]
  {
    RunKeepsNaming(Start(c), events, c);
    SavedNamesDistinct(c, |Run(Start(c), events).written|);
  }

  /** One photo is written for each SPACE press among the frames actually read. */
  lemma {:induction false} RunSaveCount(s: Loop, events: seq<Event>)
    requires s.status == Running
    ensures s.framesRead <= Run(s, events).framesRead <= s.framesRead + |events|
    ensures |Run(s, events).written| == |s.written| + Saves(events[..Run(s, events).framesRead - s.framesRead])
    decreases |events|
  {
    if events != [] {
      var t := Step(s, events[0]);
      assert events[..1] == [events[0]];
      if t.status == Running {
        RunSaveCount(t, events[1..]);
        var n := Run(s, events).framesRead - s.framesRead;
        assert events[..n][1..] == events[1..][..n - 1];
      } else {
        assert Saves(events[..1]) == 0;
      }
    } else {
      assert events[..0] == [];
    }
  }

  /**
   * The first ending event stops the loop on that iteration: a failed read or ESC
   * at index i means exactly i + 1 reads, and nothing after it is looked at.
   */
  lemma {:induction false} RunStopsAtFirstEnd(s: Loop, events: seq<Event>, i: nat)
    requires s.status == Running
    requires i < |events| && Ends(events[i])
    requires forall j :: 0 <= j < i ==> !Ends(events[j])
    ensures Run(s, events).framesRead == s.framesRead + i + 1
    ensures Run(s, events).status == if events[i].ReadFailed? then GrabFailed else Escaped
    ensures Run(s, events) == Run(s, events[..i + 1])
    decreases i
  {
    var t := Step(s, events[0]);
    if i > 0 {
      assert events[..i + 1][1..] == events[1..][..i];
      RunStopsAtFirstEnd(t, events[1..], i - 1);
    }
  }

  /** Without an ending event the loop reads every frame and is still running. */
  lemma {:induction false} RunWithoutEnd(s: Loop, events: seq<Event>)
    requires s.status == Running
    requires forall j :: 0 <= j < |events| ==> !Ends(events[j])
    ensures Run(s, events).status == Running
    ensures Run(s, events).framesRead == s.framesRead + |events|
    decreases |events|
  {
    if events != [] {
      RunWithoutEnd(Step(s, events[0]), events[1..]);
    }
  }

  /** Once the loop has stopped, later events change nothing: there are no further reads or saves. */
  lemma {:induction false} StoppedRunIgnoresLaterEvents(s: Loop, events: seq<Event>, later: seq<Event>)
    requires Run(s, events).status != Running
    ensures Run(s, events + later) == Run(s, events)
    decreases |events|
  {
    if s.status == Running {
      assert (events + later)[1..] == events[1..] + later;
      StoppedRunIgnoresLaterEvents(Step(s, events[0]), events[1..], later);
    }
  }

  /** ESC, in any running state, stops the loop without writing a file or changing the counter. */
  lemma EscapeStops(s: Loop, key: int, later: seq<Event>)
    requires s.status == Running && key % 256 == ESC_KEY
    ensures Run(s, [Frame(key)] + later) == s.(status := Escaped, framesRead := s.framesRead + 1)
  {
    assert Action(key) == Quit;
    assert ([Frame(key)] + later)[1..] == later;
  }

  /** A failed read, in any running state, stops the loop on that iteration with no save. */
  lemma FailedReadStops(s: Loop, later: seq<Event>)
    requires s.status == Running
    ensures Run(s, [ReadFailed] + later) == s.(status := GrabFailed, framesRead := s.framesRead + 1)
  {
    assert ([ReadFailed] + later)[1..] == later;
  }

  /** SPACE writes exactly one file, named after the current counter, and increments the counter by one. */
  lemma SpaceSaves(s: Loop, key: int, later: seq<Event>)
    requires s.status == Running && key % 256 == SPACE_KEY
    ensures Run(s, [Frame(key)] + later) ==
      Run(Loop(s.counter + 1, s.written + [FileName(s.counter)], Running, s.framesRead + 1), later)
  {
    assert Action(key) == Save;
    assert Step(s, Frame(key)) == Loop(s.counter + 1, s.written + [FileName(s.counter)], Running, s.framesRead + 1);
    assert ([Frame(key)] + later)[1..] == later;
  }

  /** Any other key, including -1 for "no key", changes nothing but the read count, and the loop goes on. */
  lemma OtherKeyContinues(s: Loop, key: int, later: seq<Event>)
    requires s.status == Running && key % 256 != ESC_KEY && key % 256 != SPACE_KEY
    ensures Run(s, [Frame(key)] + later) == Run(s.(framesRead := s.framesRead + 1), later)
  {
    assert Action(key) == Ignore;
    assert Step(s, Frame(key)) == s.(framesRead := s.framesRead + 1);
    assert ([Frame(key)] + later)[1..] == later;
  }

  /** "No key" (-1) is ignored, and only the low 8 bits of a key code matter. */
  lemma KeyCodeLowByte(key: int, m: int)
    ensures Action(-1) == Ignore
    ensures Action(key + 256 * m) == Action(key)
  {
    assert (key + 256 * m) % 256 == key % 256;
  }

  /** From an empty directory: SPACE, SPACE, ESC writes photos 0 and 1, in that order, and stops. */
  lemma SpaceSpaceEscapeScenario()
    ensures Run(Start(0), [Frame(SPACE_KEY), Frame(SPACE_KEY), Frame(ESC_KEY)]) ==
      Loop(2, ["opencv_frame_0.png", "opencv_frame_1.png"], Escaped, 3)
  {
    var events := [Frame(SPACE_KEY), Frame(SPACE_KEY), Frame(ESC_KEY)];
    assert NatToString(0) == "0" && NatToString(1) == "1";
    var s1 := Loop(1, [FileName(0)], Running, 1);
    var s2 := Loop(2, [FileName(0), FileName(1)], Running, 2);
    assert Step(Start(0), events[0]) == s1;
    assert Step(s1, events[1]) == s2;
    assert Run(s2, [Frame(ESC_KEY)]) == s2.(status := Escaped, framesRead := 3);
    assert events[1..] == [Frame(SPACE_KEY), Frame(ESC_KEY)];
    assert Run(s1, events[1..]) == Run(s2, [Frame(ESC_KEY)]);
    assert Run(Start(0), events) == Run(s1, events[1..]);
    assert FileName(0) == "opencv_frame_0.png" && FileName(1) == "opencv_frame_1.png";
  }
}
