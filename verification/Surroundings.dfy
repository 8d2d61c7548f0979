/** What other threads do to the client's monitor while its lock is free, one locked stretch
    after the other: the readers' calls, the user's clicks, and time passing. */
module Surroundings {
  import opened Modes
  import opened Sequences
  import FB = FrameBuffer
  import C = Cascades

  datatype Outside =
    | Incoming(frame: FB.Frame)
    | Pass(ms: nat)
    | UserSync(on: bool)
    | UserAuto(on: bool)
    | UserMovie(first: bool, on: bool)
    | Motion(server: int)

  /** Motion is reported by the readers of the two servers only. */
  predicate Known(o: Outside) {
    o.Motion? ==> o.server == 1 || o.server == 2
  }

  predicate BatchKnown(batch: seq<Outside>) {
    forall i :: 0 <= i < |batch| ==> Known(batch[i])
  }

  /** No click on the settings. */
  predicate HandsOff(batch: seq<Outside>) {
    forall i :: 0 <= i < |batch| ==> !batch[i].UserSync? && !batch[i].UserAuto?
  }

  /** The frames that arrive, in order. */
  function Arriving(batch: seq<Outside>): seq<FB.Frame> {
    if batch == [] then []
    else
      var o := batch[|batch| - 1];
      Arriving(batch[..|batch| - 1]) + (if o.Incoming? then [o.frame] else [])
  }

  function Passing(batch: seq<Outside>): nat {
    if batch == [] then 0
    else
      var o := batch[|batch| - 1];
      Passing(batch[..|batch| - 1]) + (if o.Pass? then o.ms else 0)
  }

  /** The clicks on the settings. */
  function SettingsClicks(batch: seq<Outside>): seq<C.SettingsEvent> {
    if batch == [] then []
    else
      SettingsClicks(batch[..|batch| - 1]) +
      match batch[|batch| - 1]
      case UserSync(on) => [C.UserSync(on)]
      case UserAuto(on) => [C.UserAuto(on)]
      case _ => []
  }

  /** The reported motions and the clicks on cameras. */
  function CameraCalls(batch: seq<Outside>): seq<C.CameraEvent> {
    if batch == [] then []
    else
      CameraCalls(batch[..|batch| - 1]) +
      match batch[|batch| - 1]
      case UserMovie(first, on) => [C.Toggle(if first then 1 else 2, on)]
      case Motion(server) => [C.Change(server, Movie)]
      case _ => []
  }

  /** One more thing at the end. */
  lemma OneMore(batch: seq<Outside>, n: nat)
    requires n < |batch|
    ensures var o := batch[n];
            && Arriving(batch[..n + 1]) == Arriving(batch[..n]) + (if o.Incoming? then [o.frame] else [])
            && Passing(batch[..n + 1]) == Passing(batch[..n]) + (if o.Pass? then o.ms else 0)
            && SettingsClicks(batch[..n + 1]) == SettingsClicks(batch[..n]) + SettingsClicks([o])
            && CameraCalls(batch[..n + 1]) == CameraCalls(batch[..n]) + CameraCalls([o])
  {
    assert batch[..n + 1][..n] == batch[..n];
    assert [batch[n]][..0] == [];
  }

  /** A script holds one batch for each wait; this is all of it in order. */
  function Flat(script: seq<seq<Outside>>): seq<Outside> {
    if script == [] then [] else Flat(script[..|script| - 1]) + script[|script| - 1]
  }

  lemma FlatStep(script: seq<seq<Outside>>, n: nat)
    requires n < |script|
    ensures Flat(script[..n + 1]) == Flat(script[..n]) + script[n]
  {
    assert script[..n + 1][..n] == script[..n];
  }

  /** The waits of one call use up the beginning of its script, the later ones the rest of it. */
  lemma {:induction false} FlatSplits(script: seq<seq<Outside>>, m: nat, n: nat)
    requires m + n <= |script|
    ensures Flat(script[..m]) + Flat(script[m..][..n]) == Flat(script[..m + n])
    decreases n
  {
    if n == 0 {
      assert script[m..][..0] == [];
    } else {
      FlatSplits(script, m, n - 1);
      FlatStep(script[m..], n - 1);
      FlatStep(script, m + n - 1);
      assert script[m..][n - 1] == script[m + n - 1];
      Regroup(Flat(script[..m]), Flat(script[m..][..n - 1]), script[m + n - 1]);
    }
  }

  lemma {:induction false} NoClicks(batch: seq<Outside>)
    requires HandsOff(batch)
    ensures SettingsClicks(batch) == []
  {
    if batch == [] {
    } else {
      NoClicks(batch[..|batch| - 1]);
    }
  }

  lemma {:induction false} FoldsConcat(a: seq<Outside>, b: seq<Outside>)
    ensures Arriving(a + b) == Arriving(a) + Arriving(b)
    ensures CameraCalls(a + b) == CameraCalls(a) + CameraCalls(b)
    ensures HandsOff(a + b) ==> HandsOff(a) && HandsOff(b)
    ensures BatchKnown(a + b) ==> BatchKnown(a) && BatchKnown(b)
  {
    assert forall i :: 0 <= i < |b| ==> (a + b)[|a| + i] == b[i];
    if b == [] {
      assert a + b == a;
    } else {
      var shorter := b[..|b| - 1];
      assert (a + b)[..|a + b| - 1] == a + shorter;
      FoldsConcat(a, shorter);
    }
  }

  // ---------------------------------------------------------------------------
  // What a call leaves of its surroundings' doings
  // ---------------------------------------------------------------------------

  /** The parts of the client that the surroundings act on: the frames added so far, the cameras
      and the settings. */
  datatype Picture = Picture(added: seq<FB.Frame>, cameras: C.Cameras, settings: C.Settings)

  /** Between the two nothing has happened but `heard`, and what the updater does by itself:
      exactly its frames have been added, coherent cameras are as its calls make them, and
      without clicks on them the settings still agree. */
  predicate Follows(before: Picture, after: Picture, heard: seq<Outside>) {
    && after.added == before.added + Arriving(heard)
    && (C.Coherent(before.cameras) && BatchKnown(heard) ==>
          C.Coherent(after.cameras) && after.cameras == C.RunCameras(before.cameras, CameraCalls(heard)))
    && (C.Mirrored(before.settings) && HandsOff(heard) ==> C.Mirrored(after.settings))
  }

  lemma FollowsNothing(p: Picture)
    ensures Follows(p, p, [])
  {
  }

  lemma FollowsOn(a: Picture, b: Picture, c: Picture, first: seq<Outside>, second: seq<Outside>)
    requires Follows(a, b, first) && Follows(b, c, second)
    ensures Follows(a, c, first + second)
  {
    hide C.Coherent, C.Mirrored;
    FoldsConcat(first, second);
    C.RunCamerasConcat(a.cameras, CameraCalls(first), CameraCalls(second));
    Regroup(a.added, Arriving(first), Arriving(second));
    hide Arriving, CameraCalls, HandsOff, BatchKnown, C.RunCameras;
  }
}
