/** The track record fetched from the player's remote API, and the two
    predicates the polling loop asks about it: has it changed since the last
    applied track, and does it carry any text at all. */
module Tracks {

  datatype Option<+T> = None | Some(value: T)

  /** The four fields the remote API reports for the current track. */
  datatype Track = Track(author: string, title: string, album: string, cover: string)

  /** The track a player reports when nothing is playing. */
  const Blank := Track("", "", "", "")

  /** Change detection against the last applied track. `None` is the state
      before any track was applied, in which every stored field is absent, so
      each strict inequality holds; otherwise the four fields are compared one
      by one with exact string inequality. The result is true exactly when the
      fetched track is not the one already applied. */
  function HasTrackChanged(stored: Option<Track>, t: Track): (r: bool)
    ensures r <==> stored != Some(t)
    ensures stored == None ==> r
  {
    match stored
    case None => true
    case Some(s) =>
      s.author != t.author || s.title != t.title || s.album != t.album || s.cover != t.cover
  }

  /** A track is non-empty when its author, title or album is a non-empty
      string; the cover plays no part. Equivalently: with its cover cleared it
      is not the blank track. */
  function IsTrackNonEmpty(t: Track): (r: bool)
    ensures r <==> t.(cover := "") != Blank
  {
    t.author != "" || t.title != "" || t.album != ""
  }

  /** The cover never affects emptiness. */
  lemma CoverIrrelevantToEmptiness(t: Track, c: string)
    ensures IsTrackNonEmpty(t.(cover := c)) == IsTrackNonEmpty(t)
  {
  }
}
