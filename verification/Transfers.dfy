/** Texts written to a file and read back through the handlers. */
module Transfers {
  import opened Wrappers
  import opened Forests
  import opened PathMaps
  import opened Model
  import opened Content
  import opened Runs
  import Ical
  import Sizes
  import Paths

  lemma {:induction false} RunSnoc(s: State, steps: seq<Step>, last: Step)
    requires Inv(s) && AllowedRun(s, steps) && Allowed(Run(s, steps), last)
    ensures AllowedRun(s, steps + [last]) && Inv(Apply(Run(s, steps), last))
    ensures Run(s, steps + [last]) == Apply(Run(s, steps), last)
    decreases |steps|
  {
    hide Inv, Apply, Allowed;
    StepKeepsInv(Run(s, steps), last);
    if steps == [] {
      assert steps + [last] == [last] && [last][1..] == [];
    } else {
      assert (steps + [last])[1..] == steps[1..] + [last];
      StepKeepsInv(s, steps[0]);
      RunSnoc(Apply(s, steps[0]), steps[1..], last);
    }
  }

  /** The write calls of a text in chunks, each where the one before ended. */
  ghost function WriteSteps(path: string, chunks: seq<string>): seq<Step> {
    if chunks == [] then []
    else
      var init := chunks[..|chunks| - 1];
      WriteSteps(path, init) + [WriteStep(path, chunks[|chunks| - 1], |Concat(init)|)]
  }

  /** Writing to a file changes its text and no tree, so the path goes on leading to it. */
  lemma WriteApplies(s: State, path: string, n: Id, buf: string, offset: nat)
    requires Inv(s) && !Paths.PathIsHidden(path) && GetNode(s, path) == Some(n) && n != Root
    ensures Allowed(s, WriteStep(path, buf, offset))
    ensures Apply(s, WriteStep(path, buf, offset))
            == s.(disk := s.disk[n.vdir := WrittenText(s.disk[n.vdir], buf, offset)])
    ensures Inv(Apply(s, WriteStep(path, buf, offset)))
            && GetNode(Apply(s, WriteStep(path, buf, offset)), path) == Some(n)
  {
    hide Lookup, WellLinked, SiblingsDistinct, Acyclic, WrittenText;
  }

  lemma {:induction false} ChunksWritten(s: State, path: string, n: Id, chunks: seq<string>)
    requires Inv(s) && !Paths.PathIsHidden(path) && GetNode(s, path) == Some(n) && n != Root
    ensures AllowedRun(s, WriteSteps(path, chunks))
    ensures Run(s, WriteSteps(path, chunks)) == s.(disk := s.disk[n.vdir := WriteChunks(s.disk[n.vdir], chunks)])
    ensures GetNode(Run(s, WriteSteps(path, chunks)), path) == Some(n)
    decreases |chunks|
  {
    hide Lookup, WellLinked, SiblingsDistinct, Acyclic, WrittenText, GetNode, Apply, Allowed;
    if chunks == [] {
      assert s.disk[n.vdir := s.disk[n.vdir]] == s.disk;
    } else {
      var init, last := chunks[..|chunks| - 1], chunks[|chunks| - 1];
      ChunksWritten(s, path, n, init);
      var t := Run(s, WriteSteps(path, init));
      WriteApplies(t, path, n, last, |Concat(init)|);
      RunSnoc(s, WriteSteps(path, init), WriteStep(path, last, |Concat(init)|));
    }
  }

  /** A text written to a path in chunks from offset 0 is what consecutive reads of that path give back, whatever the
      file held before and whatever the chunks and the sizes; the tree and all other files are as before. */
  lemma WrittenIsRead(s: State, path: string, n: Id, chunks: seq<string>, sizes: seq<nat>)
    requires Inv(s) && !Paths.PathIsHidden(path) && GetNode(s, path) == Some(n) && n != Root
    requires chunks != [] && forall i :: 0 <= i < |chunks| ==> '\0' !in chunks[i]
    requires Sum(sizes) >= |Concat(chunks)|
    ensures AllowedRun(s, WriteSteps(path, chunks))
    ensures GetNode(Run(s, WriteSteps(path, chunks)), path) == Some(n)
    ensures ReadChunks(Text(Run(s, WriteSteps(path, chunks)).disk[n.vdir]), sizes) == Concat(chunks)
    ensures Run(s, WriteSteps(path, chunks)).forest == s.forest
    ensures forall v :: v in s.disk && File(v) != n ==>
              v in Run(s, WriteSteps(path, chunks)).disk && Run(s, WriteSteps(path, chunks)).disk[v] == s.disk[v]
  {
    hide Lookup, WellLinked, SiblingsDistinct, Acyclic, Run, WriteSteps, WriteChunks, AllowedRun;
    ChunksWritten(s, path, n, chunks);
    WriteThenRead(s.disk[n.vdir], chunks, sizes);
  }

  /** The size reported for a file is the length of what was written to it. */
  lemma WrittenSize(s: State, path: string, n: Id, chunks: seq<string>)
    requires Inv(s) && !Paths.PathIsHidden(path) && GetNode(s, path) == Some(n) && n != Root
    requires chunks != [] && forall i :: 0 <= i < |chunks| ==> '\0' !in chunks[i]
    ensures AllowedRun(s, WriteSteps(path, chunks))
    ensures Sizes.TextSize(Run(s, WriteSteps(path, chunks)).disk, n) == |Concat(chunks)|
  {
    hide Lookup, WellLinked, SiblingsDistinct, Acyclic, Run, WriteSteps, WriteChunks, AllowedRun;
    ChunksWritten(s, path, n, chunks);
    ChunkedWrite(s.disk[n.vdir], chunks);
  }
}
