/**
 * Cover lookup (`find_cover_image`): the first existing file among `cover.jpg`,
 * `folder.jpg`, `cover.png`, `folder.png` in the audio file's directory. The file
 * system is the set of paths for which `os.path.isfile` holds.
 */
module Cover {
  import opened Wrappers
  import Paths

  const Extensions: seq<string> := [".jpg", ".png"]
  const Names: seq<string> := ["cover", "folder"]

  /** The path tried for extension number `e` and name number `n`. */
  function Candidate(folder: string, e: nat, n: nat): string
    requires e < |Extensions| && n < |Names|
  {
    Paths.Join(folder, Names[n] + Extensions[e])
  }

  /** Every candidate in the order they are tried: extension outer, name inner. */
  function Candidates(folder: string): (c: seq<string>)
    ensures |c| == |Extensions| * |Names|
    ensures forall e, n :: 0 <= e < |Extensions| && 0 <= n < |Names| ==>
              c[|Names| * e + n] == Paths.Join(folder, Names[n] + Extensions[e])
  {
    [Candidate(folder, 0, 0), Candidate(folder, 0, 1), Candidate(folder, 1, 0), Candidate(folder, 1, 1)]
  }

  /** The four candidates spelled out. */
  lemma CandidatesListed(folder: string)
    ensures Candidates(folder) == [Paths.Join(folder, "cover.jpg"), Paths.Join(folder, "folder.jpg"),
                                   Paths.Join(folder, "cover.png"), Paths.Join(folder, "folder.png")]
  {
    assert Names[0] + Extensions[0] == "cover.jpg" && Names[1] + Extensions[0] == "folder.jpg";
    assert Names[0] + Extensions[1] == "cover.png" && Names[1] + Extensions[1] == "folder.png";
  }

  /** The first of `cands` that exists, or None when none does. */
  function FirstExisting(cands: seq<string>, files: set<string>): (r: Option<string>)
    ensures r.None? <==> forall i :: 0 <= i < |cands| ==> cands[i] !in files
    ensures r.Some? ==> exists k :: 0 <= k < |cands| && cands[k] == r.value && cands[k] in files &&
                                    forall j :: 0 <= j < k ==> cands[j] !in files
  {
    if cands == [] then None
    else if cands[0] in files then Some(cands[0])
    else
      var r := FirstExisting(cands[1..], files);
      assert forall i :: 1 <= i < |cands| ==> cands[i] == cands[1..][i - 1];
      r
  }

  /** What `find_cover_image` returns for `filePath`. */
  function CoverLookup(filePath: string, files: set<string>): (r: Option<string>)
    ensures r.None? <==> forall c :: c in Candidates(Paths.Dirname(filePath)) ==> c !in files
    ensures r.Some? ==> r.value in files && r.value in Candidates(Paths.Dirname(filePath))
  {
    FirstExisting(Candidates(Paths.Dirname(filePath)), files)
  }

  lemma FirstExistingAt(cands: seq<string>, files: set<string>, k: nat)
    requires k < |cands| && cands[k] in files
    requires forall j :: 0 <= j < k ==> cands[j] !in files
    ensures FirstExisting(cands, files) == Some(cands[k])
  {
    var r := FirstExisting(cands, files);
    var k' :| 0 <= k' < |cands| && cands[k'] == r.value && cands[k'] in files &&
              forall j :: 0 <= j < k' ==> cands[j] !in files;
    assert k' == k;
  }

  /** `find_cover_image` with its two nested loops and early return. */
  method FindCoverImage(filePath: string, files: set<string>) returns (cover: Option<string>)
    ensures cover == CoverLookup(filePath, files)
  {
    var folder := Paths.Dirname(filePath);
    ghost var cands := Candidates(folder);
    for e := 0 to |Extensions|
      invariant forall j :: 0 <= j < |Names| * e ==> cands[j] !in files
    {
      for n := 0 to |Names|
        invariant forall j :: 0 <= j < |Names| * e + n ==> cands[j] !in files
      {
        var coverPath := Paths.Join(folder, Names[n] + Extensions[e]);
        assert coverPath == cands[|Names| * e + n];
        if coverPath in files {
          FirstExistingAt(cands, files, |Names| * e + n);
          return Some(coverPath);
        }
      }
    }
    return None;
  }
}
