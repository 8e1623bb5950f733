/**
 * The scan and the page together: what `main` writes is `generate_html` applied
 * to the result of `collect_metadata`.
 */
module Report {
  import opened Wrappers
  import Collect
  import Metadata
  import Render

  /** The rows a page holds between its fixed start and end, read back. */
  function PageBody(page: string): Option<seq<seq<string>>>
  {
    if |Render.PageStart()| + |Render.DocumentTail| <= |page|
    then Render.ParseRows(page[|Render.PageStart()|..|page| - |Render.DocumentTail|])
    else None
  }

  /** Any list's page reads back as its table of cells. */
  lemma PageBodyOf(list: seq<Metadata.Track>)
    ensures PageBody(Render.Page(Render.Rows(list))) == Some(Render.Table(list))
  {
    Render.PageRoundTrip(list);
  }

  /** Each collected record comes from some path, and there are no more records than paths. */
  lemma CollectedFrom(paths: seq<string>, extract: string -> Option<Metadata.Track>)
    ensures var list := Collect.Collected(paths, extract);
    && |list| <= |paths|
    && forall k :: 0 <= k < |list| ==>
         exists i :: 0 <= i < |paths| && extract(paths[i]) == Some(list[k])
  {
    var list := Collect.Collected(paths, extract);
    Collect.SomesLength(Collect.Results(paths, extract));
    forall k | 0 <= k < |list|
      ensures exists i :: 0 <= i < |paths| && extract(paths[i]) == Some(list[k])
    {
      Collect.CollectedMembers(paths, extract, list[k]);
    }
  }

  /**
   * The page made from the records collected over `paths` lists exactly those
   * records: one row per record, in visit order, never more rows than paths, and
   * each row the record of some path.
   */
  predicate ReportHolds(paths: seq<string>, extract: string -> Option<Metadata.Track>)
  {
    var list := Collect.Collected(paths, extract);
    && PageBody(Render.Page(Render.Rows(list))) == Some(Render.Table(list))
    && |list| <= |paths|
    && forall k :: 0 <= k < |list| ==>
         exists i :: 0 <= i < |paths| && extract(paths[i]) == Some(list[k])
  }

  lemma ReportHoldsFor(paths: seq<string>, extract: string -> Option<Metadata.Track>)
    ensures ReportHolds(paths, extract)
  {
    PageBodyOf(Collect.Collected(paths, extract));
    CollectedFrom(paths, extract);
  }

  /** The above for the page `main` writes: the paths of the walk, read by `extract_metadata`. */
  lemma ReportRows(walk: seq<Collect.WalkStep>, probe: string -> Metadata.Probe, files: set<string>)
    ensures ReportHolds(Collect.VisitOrder(walk), Collect.Extractor(probe, files))
  {
    ReportHoldsFor(Collect.VisitOrder(walk), Collect.Extractor(probe, files));
  }
}
