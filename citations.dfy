/**
 * Citation cards (app/page.tsx, the sources panel): which parts of a citation
 * are displayed, and the embeddable video address derived from a watch URL.
 */
module Citations {
  import opened Wrappers
  import opened Text

  /** One citation of the response; every field may be absent. */
  datatype Citation = Citation(
    sourceType: Option<string>,
    episodeTitle: Option<string>,
    timestamp: Option<string>,
    youtubeUrl: Option<string>,
    text: Option<string>)

  /** JavaScript truthiness of an optional string: present and not "". */
  predicate Truthy(o: Option<string>)
  {
    o.Some? && o.value != ""
  }

  const WatchMarker: string := "watch?v="
  const EmbedMarker: string := "embed/"

  /**
   * `embedUrl`: a truthy URL that contains "watch?v=" has its first occurrence
   * replaced by "embed/"; any other value (absent, "", or without the marker)
   * passes through.
   */
  function EmbedUrl(url: Option<string>): (r: Option<string>)
    ensures r.Some? <==> url.Some?
    ensures Truthy(url) ==> r.value != ""
  {
    if Truthy(url) && Contains(url.value, WatchMarker)
    then Some(ReplaceFirst(url.value, WatchMarker, EmbedMarker))
    else url
  }

  /** Where the first "watch?v=" of `u` is at `i`, the embed URL keeps everything around it. */
  lemma EmbedUrlAt(u: string, i: nat)
    requires OccursAt(u, WatchMarker, i)
    requires forall j: nat :: j < i ==> !OccursAt(u, WatchMarker, j)
    ensures EmbedUrl(Some(u)) == Some(u[..i] + EmbedMarker + u[i + |WatchMarker|..])
    ensures |EmbedUrl(Some(u)).value| == |u| - 2
  {
  }

  /** A URL without "watch?v=" is used unchanged. */
  lemma EmbedUrlUnchanged(u: string)
    requires forall j: nat :: !OccursAt(u, WatchMarker, j)
    ensures EmbedUrl(Some(u)) == Some(u)
  {
  }

  /**
   * A YouTube watch address `p + "watch?v=" + id`, where `p` holds no marker of
   * its own, becomes `p + "embed/" + id`: no occurrence can start inside `p`,
   * since the marker's only 'w' is its first character.
   */
  lemma EmbedWatchUrl(p: string, id: string)
    requires !Contains(p, WatchMarker)
    ensures EmbedUrl(Some(p + WatchMarker + id)) == Some(p + EmbedMarker + id)
  {
    var u := p + WatchMarker + id;
    var i := |p|;
    assert u[i..i + |WatchMarker|] == WatchMarker;
    forall j: nat | j < i ensures !OccursAt(u, WatchMarker, j) {
      if j + |WatchMarker| <= i {
        assert u[j..j + |WatchMarker|] == p[j..j + |WatchMarker|];
        assert !OccursAt(p, WatchMarker, j);
      } else {
        // The marker's 'w' at index i of u would sit at offset i - j > 0 of the marker.
        assert u[i] == 'w';
        assert WatchMarker[i - j] != 'w';
        assert u[j..j + |WatchMarker|][i - j] != WatchMarker[i - j];
      }
    }
    EmbedUrlAt(u, i);
    assert u[..i] == p;
    assert u[i + |WatchMarker|..] == id;
  }

  /** What a citation card displays. */
  datatype CitationView = CitationView(
    meta: Option<string>,
    title: Option<string>,
    timestamp: Option<string>,
    frame: Option<string>,
    brief: Option<string>)

  /**
   * One citation card: the source type and the episode title always, the
   * timestamp when truthy, an embedded video for a podcast with a truthy URL,
   * and the text behind a disclosure for an "hbr" citation.
   */
  function RenderCitation(c: Citation): (v: CitationView)
    ensures v.frame.Some? <==> c.sourceType == Some("podcast") && Truthy(c.youtubeUrl)
    ensures v.brief.Some? <==> c.sourceType == Some("hbr")
    ensures v.timestamp.Some? <==> Truthy(c.timestamp)
    ensures v.frame.Some? ==> v.frame == EmbedUrl(c.youtubeUrl) && v.frame.value != ""
    ensures v.meta == c.sourceType && v.title == c.episodeTitle
    ensures v.timestamp.Some? ==> v.timestamp == c.timestamp
    ensures v.brief.Some? ==> v.brief.value == (if c.text.Some? then c.text.value else "")
  {
    CitationView(
      c.sourceType,
      c.episodeTitle,
      if Truthy(c.timestamp) then c.timestamp else None,
      if c.sourceType == Some("podcast") && Truthy(c.youtubeUrl) then EmbedUrl(c.youtubeUrl) else None,
      if c.sourceType == Some("hbr") then Some(if c.text.Some? then c.text.value else "") else None)
  }
}
