/** Runs of the file system: any sequence of handler calls and changes to the vdir from outside. */
module Runs {
  import opened Wrappers
  import opened Forests
  import opened PathMaps
  import opened Model
  import opened Handlers
  import opened Loads
  import Ical
  import Paths

  /** A handler call, or a file put into the vdir from outside together with the notification it causes. */
  datatype Step =
    | CreateStep(path: string, uid: string, etype: EntryType)
    | UnlinkStep(path: string)
    | RmdirStep(path: string)
    | RenameStep(src: string, dst: string)
    | WriteStep(path: string, buf: string, offset: nat)
    | VdirStep(vdir: string, component: Ical.Component)

  function Edited(s: State, v: string, c: Ical.Component): State {
    s.(disk := s.disk[v := c])
  }

  /** handle_vdir_event for a file that was created or modified: other names than those of calendar files are
      ignored. */
  function Notified(s: State, v: string): State
    requires WellLinked(s.forest) && (HasIcs(v) ==> UpdateAllowed(s, v))
  {
    if HasIcs(v) then VdirUpdate(s, v).0 else s
  }

  ghost predicate Allowed(s: State, step: Step)
    requires Inv(s)
  {
    match step
    case CreateStep(_, uid, _) => FreshUid(s, uid)
    case UnlinkStep(_) => true
    case RmdirStep(path) => GetNode(s, path) != Some(Root)
    case RenameStep(src, dst) => RenameAllowed(s, src, dst)
    case WriteStep(path, _, _) => GetNode(s, path) != Some(Root)
    case VdirStep(v, c) => HasIcs(v) ==> UpdateAllowed(Edited(s, v, c), v)
  }

  ghost function Apply(s: State, step: Step): State
    requires Inv(s) && Allowed(s, step)
  {
    match step
    case CreateStep(path, uid, etype) => Create(s, path, uid, etype).0
    case UnlinkStep(path) => Unlink(s, path).0
    case RmdirStep(path) => Rmdir(s, path).0
    case RenameStep(src, dst) => Rename(s, src, dst).0
    case WriteStep(path, buf, offset) => Write(s, path, buf, offset).0
    case VdirStep(v, c) => Notified(Edited(s, v, c), v)
  }

  lemma StepKeepsInv(s: State, step: Step)
    requires Inv(s) && Allowed(s, step)
    ensures Inv(Apply(s, step))
  {
    hide Lookup, WellLinked, SiblingsDistinct, Acyclic;
    match step
    case CreateStep(path, uid, etype) =>
      var (t, status) := Create(s, path, uid, etype);
      CreateEffect(s, path, uid, etype, t, status);
    case UnlinkStep(path) =>
      var (t, status) := Unlink(s, path);
      UnlinkEffect(s, path, t, status);
    case RmdirStep(path) =>
      var (t, status) := Rmdir(s, path);
      RmdirEffect(s, path, t, status);
    case RenameStep(src, dst) =>
      var (t, status) := Rename(s, src, dst);
      RenameEffect(s, src, dst, t, status);
    case WriteStep(_, _, _) =>
    case VdirStep(v, c) =>
      if HasIcs(v) {
        var (t, status) := VdirUpdate(Edited(s, v, c), v);
        VdirUpdateEffect(Edited(s, v, c), v, t, status);
      }
  }

  /** Every step is allowed in the state the steps before it lead to. */
  ghost predicate AllowedRun(s: State, steps: seq<Step>)
    requires Inv(s)
    decreases |steps|
  {
    steps == [] || (
      Allowed(s, steps[0]) &&
      (StepKeepsInv(s, steps[0]); AllowedRun(Apply(s, steps[0]), steps[1..])))
  }

  /** The state after a run. The invariant holds in it, whatever the steps were. */
  ghost function Run(s: State, steps: seq<Step>): (t: State)
    requires Inv(s) && AllowedRun(s, steps)
    ensures Inv(t)
    decreases |steps|
  {
    if steps == [] then s
    else
      StepKeepsInv(s, steps[0]);
      Run(Apply(s, steps[0]), steps[1..])
  }

  lemma EmptyInv(disk: Disk, ext: string)
    ensures Inv(State(EMPTY, disk, ext))
  {
    EmptyIsWellLinked();
    assert Climb(EMPTY.parent, Root, 1) == None;
  }

  /** After every run a path leads to at most one node, and to exactly those nodes whose ancestor names it lists. */
  lemma RunPathsAreExact(s: State, steps: seq<Step>, n: Id)
    requires Inv(s) && AllowedRun(s, steps)
    ensures forall names :: Lookup(Run(s, steps).forest, Root, names) == Some(n)
                       <==> NamedBy(Run(s, steps).forest, n, names)
    ensures forall path :: GetNode(Run(s, steps), path) == Some(n)
                      <==> NamedBy(Run(s, steps).forest, n, Paths.Split(path))
  {
    hide Lookup, SiblingsDistinct, Acyclic, Run, AllowedRun, NamedBy, Paths.Split;
    var t := Run(s, steps);
    forall names
      ensures Lookup(t.forest, Root, names) == Some(n) <==> NamedBy(t.forest, n, names)
    {
      LookupIffNamed(t.forest, n, names);
    }
  }
}
