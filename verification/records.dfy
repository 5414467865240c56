/**
 The persisted show record and the one-entry key-value store that holds
 the whole collection under the key `cinemaShows`.
 */
module Records {
  import opened Text

  /** A saved showing, with exactly the fields the save writes. `savedAt` is the wall-clock stamp, kept opaque. */
  datatype Show = Show(
    showId: int,
    showDate: string,
    showTime: string,
    movieTitle: string,
    theater: string,
    subtitles: bool,
    imax: bool,
    notes: string,
    savedAt: string)

  /** The identity of a showing: no two stored records may share it. */
  datatype ShowKey = ShowKey(theater: string, movieTitle: string, showDate: string, showTime: string)

  function KeyOf(s: Show): ShowKey
  {
    ShowKey(s.theater, s.movieTitle, s.showDate, s.showTime)
  }

  /** The store entry: None when the key is absent, otherwise the saved array in insertion order. */
  type Store = Option<seq<Show>>

  /** `JSON.parse(localStorage.getItem('cinemaShows') || '[]')`: an absent key reads as the empty list. */
  function Load(st: Store): (shows: seq<Show>)
    ensures st.None? ==> shows == []
    ensures st.Some? ==> shows == st.value
  {
    match st
    case None => []
    case Some(shows) => shows
  }

  /** The designed invariant: no two stored records share a key. */
  predicate UniqueKeys(shows: seq<Show>)
  {
    forall i, j :: 0 <= i < j < |shows| ==> KeyOf(shows[i]) != KeyOf(shows[j])
  }
}
