/**
 * The whole script: parse the resolution, open the camera and request that
 * size, pick the first free photo index, run the capture loop, release.
 * The working directory is the set of names of the files in it.
 */
module PyCam {
  import opened Resolution
  import opened PhotoFiles
  import opened CaptureLoop

  datatype Outcome =
    | ConfigError(error: ResolutionError)
    | Finished(requested: Resolution, start: nat, session: Loop, directory: set<string>, released: bool)

  /** The working directory after a session: what was there plus every photo written. */
  function DirectoryAfter(existing: set<string>, written: seq<string>): (after: set<string>)
    ensures forall name :: name in after <==> name in existing || name in written
  {
    existing + set j | 0 <= j < |written| :: written[j]
  }

  /**
   * Lines 39-87. A malformed resolution string raises before the camera is
   * opened; otherwise the camera is asked for the parsed size, numbering starts
   * at the first free index, the loop runs, and the camera is released
   * whichever way the loop ended.
   */
  method PyCam(resolution: string, existing: set<string>, events: seq<Event>) returns (out: Outcome)
    ensures ParseResolution(resolution).Err? ==> out == ConfigError(ParseResolution(resolution).error)
    ensures ParseResolution(resolution).Ok? ==>
      && out.Finished?
      && out.requested == ParseResolution(resolution).value
      && IsFirstFree(existing, out.start)
      && out.session == Run(Start(out.start), events)
      && out.directory == DirectoryAfter(existing, out.session.written)
      && out.directory == existing + (set i | out.start <= i < out.session.counter :: FileName(i))
      && (out.released <==> out.session.status != Running)
  {
    var parsed := ParseResolution(resolution);
    if parsed.Err? {
      return ConfigError(parsed.error);
    }
    var requested := parsed.value;
    var start := FirstFreeIndex(existing);
    var counter, written, status, framesRead := CaptureLoop.CaptureLoop(start, events);
    var session := Loop(counter, written, status, framesRead);
    SessionDirectory(existing, start, events);
    var released := status != Running;
    out := Finished(requested, start, session, DirectoryAfter(existing, written), released);
  }

  /**
   * A session adds to the directory exactly the photos of the consecutive
   * indices from its start index up to its final counter.
   */
  lemma SessionDirectory(existing: set<string>, c: nat, events: seq<Event>)
    ensures DirectoryAfter(existing, Run(Start(c), events).written) ==
      existing + (set i | c <= i < Run(Start(c), events).counter :: FileName(i))
  {
    var r := Run(Start(c), events);
    SessionSavesConsecutive(c, events);
    var added := set i | c <= i < r.counter :: FileName(i);
    forall name | name in r.written ensures name in added {
      var j :| 0 <= j < |r.written| && r.written[j] == name;
      assert name == FileName(c + j);
    }
    forall name | name in added ensures name in r.written {
      var i :| c <= i < r.counter && name == FileName(i);
      assert r.written[i - c] == name;
    }
  }

  /**
   * Running the script a second time never reuses a photo of the first run:
   * the next start index is past every index the first session wrote.
   */
  lemma RerunStartsAfterSession(existing: set<string>, events: seq<Event>, c: nat, m: nat)
    requires IsFirstFree(existing, c)
    requires IsFirstFree(DirectoryAfter(existing, Run(Start(c), events).written), m)
    ensures m >= Run(Start(c), events).counter
  {
    var r := Run(Start(c), events);
    SessionSavesConsecutive(c, events);
    var n := |r.written|;
    assert DirectoryAfter(existing, r.written) == existing + set j | 0 <= j < n :: SavedNames(c, n)[j];
    RescanAfterSession(existing, c, n, m);
  }
}
