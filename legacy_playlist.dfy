/** The playlist of the older player in music_visualizer/music_visualizer.ts:
    the same list, index and play flag, with every field of a song required
    and no way to add a song. The index update is the one of the newer
    player. */
module LegacyPlaylist {
  import Playlist

  /** A song; every field is present. */
  datatype Song = Song(path: string, displayName: string, cover: string, artist: string)

  /** The list the player starts with. */
  const INITIAL_TRACKS: seq<Song> := [
    Song("/Music/Nujabes-Nowayback.mp3", "No way back", "/Music/nujabes-departure.jpg", "Nujabes"),
    Song("/Music/[dko]-fnk.mp3", "[dko] - fnk", "/Music/dko-fnk.png", "Lush Loops"),
    Song("/Music/ODESZA-WeWereYoung.mp3", "We Were Young", "/Music/odesza-wewereyoung.png", "ODESZA")
  ]

  /** The older player's playlist state; `loaded` is the song loadTrack last
      showed. The list is fixed after construction. */
  class Player {
    const tracks: seq<Song>
    var index: int
    var isPlaying: bool
    var loaded: Song

    ghost predicate Valid()
      reads this
    {
      0 <= index < |tracks| && loaded == tracks[index]
    }

    /** The field initialisers and the constructor's loadTrack(index). */
    constructor ()
      ensures Valid() && tracks == INITIAL_TRACKS && index == 0 && !isPlaying
    {
      tracks := INITIAL_TRACKS;
      index := 0;
      isPlaying := false;
      loaded := INITIAL_TRACKS[0];
      new;
      LoadTrack(index);
    }

    /** loadTrack: reads the song at the index, which must exist. */
    method LoadTrack(index: int)
      requires 0 <= index < |tracks|
      modifies this
      ensures loaded == tracks[index] && this.index == old(this.index) && isPlaying == old(isPlaying)
    {
      var track := tracks[index];
      loaded := track;
    }

    /** changeTrack: one step round the list, then load and play. */
    method ChangeTrack(dir: int)
      requires Valid() && (dir == 1 || dir == -1)
      modifies this
      ensures Valid() && index == Playlist.Step(old(index), dir, |tracks|) && isPlaying
    {
      Playlist.StepInRange(index, dir, |tracks|);
      index := Playlist.Step(index, dir, |tracks|);
      LoadTrack(index);
      isPlaying := true;
    }
  }
}
