/**
 * Record defaulting (`extract_metadata`): one track record from what the tag
 * library reports for a file, each field falling back to a fixed value, and a
 * fixed fallback record when reading the file raises.
 */
module Metadata {
  import opened Wrappers
  import Paths
  import Cover

  /** The "easy" tag view: each key maps to the list of its values. */
  type Tags = map<string, seq<string>>

  /** One row of the exported table. `length` is whole seconds (the truncated float). */
  datatype Track = Track(
    albumArtist: string,
    artist: string,
    trackName: string,
    albumName: string,
    year: string,
    length: nat,
    cover: Option<string>)

  /** What opening a path with the tag library gives. */
  datatype Probe =
    | NotAudio                              // the library returns None: not an audio file
    | ReadError                             // reading raises (also: an `info` without `length`)
    | Audio(tags: Tags, info: Option<nat>)  // the tags, and `info.length` when `info` exists

  const UnknownAlbumArtist := "Unknown Album Artist"
  const UnknownArtist := "Unknown Artist"
  const UnknownAlbum := "Unknown Album"
  const UnknownYear := "Unknown Year"

  /**
   * `tags.get(key, [default])[0]`; None stands for the IndexError raised when the
   * key is present with an empty list of values.
   */
  function FirstTag(tags: Tags, key: string, default: string): (r: Option<string>)
    ensures r.None? <==> key in tags && tags[key] == []
    ensures r.Some? && key in tags ==> r.value == tags[key][0]
    ensures key !in tags ==> r == Some(default)
  {
    if key in tags then (if tags[key] != [] then Some(tags[key][0]) else None) else Some(default)
  }

  /** The record returned from the exception handler. */
  function FallbackTrack(filePath: string, files: set<string>): (t: Track)
    ensures '/' !in t.trackName && t.trackName <= Paths.Basename(filePath)
    ensures t.length == 0 && t.cover == Cover.CoverLookup(filePath, files)
  {
    Track(UnknownAlbumArtist, UnknownArtist, Paths.Stem(filePath), UnknownAlbum, UnknownYear, 0,
          Cover.CoverLookup(filePath, files))
  }

  /**
   * The dictionary built from the tags, or None when one of its lookups raises.
   * The default for `albumartist` is itself a lookup of `artist`, evaluated first.
   */
  function TrackFromTags(filePath: string, tags: Tags, info: Option<nat>, files: set<string>): (r: Option<Track>)
    ensures r.Some? <==> LookupsSucceed(tags)
    ensures r.Some? ==> r.value.length == (if info.Some? then info.value else 0)
    ensures r.Some? ==> r.value.cover == Cover.CoverLookup(filePath, files)
  {
    var artistDefault := FirstTag(tags, "artist", UnknownAlbumArtist);
    if artistDefault.None? then None
    else
      var albumArtist := FirstTag(tags, "albumartist", artistDefault.value);
      var artist := FirstTag(tags, "artist", UnknownArtist);
      var title := FirstTag(tags, "title", Paths.Stem(filePath));
      var album := FirstTag(tags, "album", UnknownAlbum);
      var year := FirstTag(tags, "date", UnknownYear);
      assert artist.Some? && (albumArtist.Some? <==> Readable(tags, "albumartist"));
      assert (title.Some? <==> Readable(tags, "title")) && (album.Some? <==> Readable(tags, "album"));
      assert year.Some? <==> Readable(tags, "date");
      if albumArtist.None? || artist.None? || title.None? || album.None? || year.None? then None
      else
        Some(Track(albumArtist.value, artist.value, title.value, album.value, year.value,
                   if info.Some? then info.value else 0,
                   Cover.CoverLookup(filePath, files)))
  }

  /** `extract_metadata(file_path)`. */
  function ExtractMetadata(filePath: string, probe: Probe, files: set<string>): (r: Option<Track>)
    ensures r.None? <==> probe.NotAudio?
    ensures r.Some? ==> r.value.cover == Cover.CoverLookup(filePath, files)
    ensures probe.ReadError? ==> r == Some(FallbackTrack(filePath, files))
    ensures probe.Audio? && probe.info.None? ==> r.Some? && r.value.length == 0
  {
    match probe
    case NotAudio => None
    case ReadError => Some(FallbackTrack(filePath, files))
    case Audio(tags, info) =>
      var t := TrackFromTags(filePath, tags, info, files);
      if t.Some? then t else Some(FallbackTrack(filePath, files))
  }

  /** `key` is absent or holds at least one value, so looking it up does not raise. */
  predicate Readable(tags: Tags, key: string) { key in tags ==> tags[key] != [] }

  /** No key that `extract_metadata` reads is present with an empty list of values. */
  predicate LookupsSucceed(tags: Tags)
  {
    && Readable(tags, "albumartist") && Readable(tags, "artist") && Readable(tags, "title")
    && Readable(tags, "album") && Readable(tags, "date")
  }

  /**
   * The defaults in force when every lookup succeeds: album artist is the first
   * `albumartist`, else the first `artist`, else "Unknown Album Artist"; the track
   * name falls back to the file name without its extension; artist, album and
   * year to their "Unknown ..." strings; the length to 0 without `info`.
   */
  lemma ExtractDefaults(filePath: string, tags: Tags, info: Option<nat>, files: set<string>)
    requires LookupsSucceed(tags)
    ensures var r := ExtractMetadata(filePath, Audio(tags, info), files);
      && r.Some?
      && r.value.albumArtist == (if "albumartist" in tags then tags["albumartist"][0]
                                 else if "artist" in tags then tags["artist"][0]
                                 else "Unknown Album Artist")
      && r.value.artist == (if "artist" in tags then tags["artist"][0] else "Unknown Artist")
      && r.value.trackName == (if "title" in tags then tags["title"][0] else Paths.Stem(filePath))
      && r.value.albumName == (if "album" in tags then tags["album"][0] else "Unknown Album")
      && r.value.year == (if "date" in tags then tags["date"][0] else "Unknown Year")
      && r.value.length == (if info.Some? then info.value else 0)
      && r.value.cover == Cover.CoverLookup(filePath, files)
  {
    var t := TrackFromTags(filePath, tags, info, files);
    assert t.Some?;
  }

  /**
   * A key that is read but holds no values makes the lookup raise, and the whole
   * record is then the fallback one, whatever the other tags say.
   */
  lemma ExtractEmptyTag(filePath: string, tags: Tags, info: Option<nat>, files: set<string>)
    requires !LookupsSucceed(tags)
    ensures ExtractMetadata(filePath, Audio(tags, info), files) == Some(FallbackTrack(filePath, files))
  {
  }

  /** The fallback record, field by field. */
  lemma ExtractReadError(filePath: string, files: set<string>)
    ensures var r := ExtractMetadata(filePath, ReadError, files);
      r == Some(Track("Unknown Album Artist", "Unknown Artist", Paths.Stem(filePath),
                      "Unknown Album", "Unknown Year", 0, Cover.CoverLookup(filePath, files)))
  {
  }
}
