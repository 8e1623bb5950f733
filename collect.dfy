/**
 * Row collection (`collect_metadata`): every file the directory walk visits is
 * extracted, and the results that are records are appended in visit order.
 */
module Collect {
  import opened Wrappers
  import Paths
  import Metadata

  /** One `(root, dirs, files)` triple of the walk; the sub-directory names are not used. */
  datatype WalkStep = WalkStep(root: string, files: seq<string>)

  /** The paths `os.path.join(root, file)` of one step, in order. */
  function StepPaths(step: WalkStep): seq<string>
  {
    seq(|step.files|, i requires 0 <= i < |step.files| => Paths.Join(step.root, step.files[i]))
  }

  lemma StepPathsExtend(root: string, names: seq<string>, f: nat)
    requires f < |names|
    ensures StepPaths(WalkStep(root, names[..f + 1])) ==
            StepPaths(WalkStep(root, names[..f])) + [Paths.Join(root, names[f])]
  {
    var a, b := StepPaths(WalkStep(root, names[..f + 1])), StepPaths(WalkStep(root, names[..f]));
    assert |a| == |b| + 1;
    forall i | 0 <= i < |a| ensures a[i] == (b + [Paths.Join(root, names[f])])[i] {
      assert names[..f + 1][i] == names[i];
    }
  }

  /** Every path the walk visits, in visit order. */
  function VisitOrder(walk: seq<WalkStep>): seq<string>
  {
    if walk == [] then [] else VisitOrder(walk[..|walk| - 1]) + StepPaths(walk[|walk| - 1])
  }

  /** `extract_metadata` as a function of the path, for given tag-library answers and files. */
  function Extractor(probe: string -> Metadata.Probe, files: set<string>): string -> Option<Metadata.Track>
  {
    path => Metadata.ExtractMetadata(path, probe(path), files)
  }

  /** The values of the `Some` entries of `xs`, in order. */
  function Somes<T>(xs: seq<Option<T>>): (r: seq<T>)
    ensures |r| <= |xs|
    ensures forall k :: 0 <= k < |r| ==> Some(r[k]) in xs
  {
    if xs == [] then []
    else
      var prefix := Somes(xs[..|xs| - 1]);
      if xs[|xs| - 1].Some? then prefix + [xs[|xs| - 1].value] else prefix
  }

  /** The extraction result of every path, in order. */
  function Results(paths: seq<string>, extract: string -> Option<Metadata.Track>): seq<Option<Metadata.Track>>
  {
    seq(|paths|, i requires 0 <= i < |paths| => extract(paths[i]))
  }

  /** The non-None extraction results of `paths`, in order. */
  function Collected(paths: seq<string>, extract: string -> Option<Metadata.Track>): (r: seq<Metadata.Track>)
    ensures |r| <= |paths|
  {
    Somes(Results(paths, extract))
  }

  /** `collect_metadata`, over the walk and the tag library as parameters. */
  method CollectMetadata(walk: seq<WalkStep>, probe: string -> Metadata.Probe, files: set<string>)
    returns (list: seq<Metadata.Track>)
    ensures list == Collected(VisitOrder(walk), Extractor(probe, files))
  {
    ghost var extract := Extractor(probe, files);
    list := [];
    for w := 0 to |walk|
      invariant list == Collected(VisitOrder(walk[..w]), extract)
    {
      var root, names := walk[w].root, walk[w].files;
      assert StepPaths(WalkStep(root, names[..0])) == [];
      assert VisitOrder(walk[..w]) + [] == VisitOrder(walk[..w]);
      for f := 0 to |names|
        invariant list == Collected(VisitOrder(walk[..w]) + StepPaths(WalkStep(root, names[..f])), extract)
      {
        var filePath := Paths.Join(root, names[f]);
        ghost var before := VisitOrder(walk[..w]) + StepPaths(WalkStep(root, names[..f]));
        StepPathsExtend(root, names, f);
        assert before + [filePath] == VisitOrder(walk[..w]) + StepPaths(WalkStep(root, names[..f + 1]));
        var metadata := Metadata.ExtractMetadata(filePath, probe(filePath), files);
        assert extract(filePath) == metadata;
        ghost var rs := Results(before, extract);
        ResultsSnoc(before, filePath, extract);
        assert (rs + [metadata])[..|rs|] == rs;
        if metadata.Some? {
          list := list + [metadata.value];
        }
      }
      assert names[..|names|] == names;
      assert walk[..w + 1][..w] == walk[..w];
    }
    assert walk[..|walk|] == walk;
  }

  /** One more path adds its extraction result at the end. */
  lemma ResultsSnoc(paths: seq<string>, p: string, extract: string -> Option<Metadata.Track>)
    ensures Results(paths + [p], extract) == Results(paths, extract) + [extract(p)]
  {
    assert forall i :: 0 <= i < |paths| ==> (paths + [p])[i] == paths[i];
  }

  lemma {:induction false} SomesAppend<T>(xs: seq<Option<T>>, ys: seq<Option<T>>)
    ensures Somes(xs + ys) == Somes(xs) + Somes(ys)
    decreases |ys|
  {
    if ys == [] {
      assert xs + ys == xs;
    } else {
      assert (xs + ys)[..|xs + ys| - 1] == xs + ys[..|ys| - 1];
      SomesAppend(xs, ys[..|ys| - 1]);
    }
  }

  lemma {:induction false} SomesLength<T>(xs: seq<Option<T>>)
    ensures |Somes(xs)| <= |xs|
    ensures (forall i :: 0 <= i < |xs| ==> xs[i].Some?) ==> |Somes(xs)| == |xs|
    decreases |xs|
  {
    if xs != [] {
      SomesLength(xs[..|xs| - 1]);
    }
  }

  lemma {:induction false} SomesMembers<T>(xs: seq<Option<T>>, t: T)
    ensures t in Somes(xs) <==> exists i :: 0 <= i < |xs| && xs[i] == Some(t)
    decreases |xs|
  {
    if xs != [] {
      var init, n := xs[..|xs| - 1], |xs| - 1;
      SomesMembers(init, t);
      if t in Somes(xs) && t in Somes(init) {
        var i :| 0 <= i < |init| && init[i] == Some(t);
        assert xs[i] == init[i];
      }
      if t !in Somes(xs) {
        forall i | 0 <= i < |xs| ensures xs[i] != Some(t) {
          if i < n {
            assert xs[i] == init[i];
          }
        }
      }
    }
  }

  /** Collection of two runs of paths is the collection of each, in order. */
  lemma CollectedAppend(a: seq<string>, b: seq<string>, extract: string -> Option<Metadata.Track>)
    ensures Collected(a + b, extract) == Collected(a, extract) + Collected(b, extract)
  {
    assert Results(a + b, extract) == Results(a, extract) + Results(b, extract);
    SomesAppend(Results(a, extract), Results(b, extract));
  }

  /** A record is collected exactly when some visited path extracts to it. */
  lemma CollectedMembers(paths: seq<string>, extract: string -> Option<Metadata.Track>, t: Metadata.Track)
    ensures t in Collected(paths, extract) <==> exists i :: 0 <= i < |paths| && extract(paths[i]) == Some(t)
  {
    var xs := Results(paths, extract);
    SomesMembers(xs, t);
    if exists i :: 0 <= i < |paths| && extract(paths[i]) == Some(t) {
      var i :| 0 <= i < |paths| && extract(paths[i]) == Some(t);
      assert xs[i] == Some(t);
    }
  }

  /**
   * At most one record per visited path, and exactly one when every path is an
   * audio file (a failed read still yields its fallback record).
   */
  lemma CollectedLength(paths: seq<string>, probe: string -> Metadata.Probe, files: set<string>)
    ensures |Collected(paths, Extractor(probe, files))| <= |paths|
    ensures (forall i :: 0 <= i < |paths| ==> !probe(paths[i]).NotAudio?) ==>
              |Collected(paths, Extractor(probe, files))| == |paths|
  {
    SomesLength(Results(paths, Extractor(probe, files)));
  }
}
