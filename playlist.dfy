/** The playlist of the music player in
    pages/music_visualizer/music_visualizer.ts: a list of songs, the index of
    the one loaded, and whether it plays. The buttons step the index round
    the list; a dropped audio file is appended and played. The audio element
    and the page are reduced to the song the player has loaded. */
module Playlist {
  import opened JsNumber

  datatype Option<T> = None | Some(value: T)

  /** A song; cover and artist are optional. */
  datatype Song = Song(path: string, displayName: string, cover: Option<string>, artist: Option<string>)

  /** The list the player starts with. */
  const INITIAL_TRACKS: seq<Song> := [
    Song("/Music/Nujabes-Nowayback.mp3", "No way back", Some("/Music/nujabes-departure.jpg"), Some("Nujabes")),
    Song("/Music/[dko]-fnk.mp3", "[dko] - fnk", Some("/Music/dko-fnk.png"), Some("Lush Loops")),
    Song("/Music/ODESZA-WeWereYoung.mp3", "We Were Young", Some("/Music/odesza-wewereyoung.png"), Some("ODESZA"))
  ]

  /** The index update of changeTrack: (index + dir + length) % length, with
      JavaScript's remainder. */
  function Step(index: int, dir: int, length: int): int
    requires 0 < length
  {
    Rem(index + dir + length, length)
  }

  /** A step of one either way from a valid index lands on a valid index. */
  lemma {:induction false} StepInRange(index: int, dir: int, length: int)
    requires 0 <= index < length && (dir == 1 || dir == -1)
    ensures 0 <= Step(index, dir, length) < length
  {
    RemSmall(index + dir + length, length);
  }

  /** Forward is the next index, and 0 after the last; backward is the
      previous index, and the last before 0. */
  lemma {:induction false} StepMoves(index: int, length: int)
    requires 0 <= index < length
    ensures Step(index, 1, length) == if index == length - 1 then 0 else index + 1
    ensures Step(index, -1, length) == if index == 0 then length - 1 else index - 1
  {
    RemSmall(index + 1 + length, length);
    RemSmall(index - 1 + length, length);
  }

  /** Forward then backward, or backward then forward, comes back. */
  lemma {:induction false} StepUndone(index: int, length: int)
    requires 0 <= index < length
    ensures Step(Step(index, 1, length), -1, length) == index
    ensures Step(Step(index, -1, length), 1, length) == index
  {
    StepMoves(index, length);
    StepMoves(Step(index, 1, length), length);
    StepMoves(Step(index, -1, length), length);
  }

  /** The player's playlist state. `loaded` is the song loadTrack last put
      into the audio element, the title, the artist line and the cover. */
  class Player {
    var tracks: seq<Song>
    var index: int
    var isPlaying: bool
    var loaded: Song

    /** The index points into a list that is not empty, at the song loaded. */
    ghost predicate Valid()
      reads this
    {
      0 <= index < |tracks| && loaded == tracks[index]
    }

    /** The field initialisers and the constructor's loadTrack(index). */
    constructor ()
      ensures Valid() && tracks == INITIAL_TRACKS && index == 0 && !isPlaying
    {
      tracks := INITIAL_TRACKS;
      index := 0;
      isPlaying := false;
      loaded := INITIAL_TRACKS[0];
      new;
      LoadTrack(index);
    }

    /** loadTrack: reads the song at the index, which must exist. */
    method LoadTrack(index: int)
      requires 0 <= index < |tracks|
      modifies this
      ensures tracks == old(tracks) && this.index == old(this.index) && isPlaying == old(isPlaying)
      ensures loaded == tracks[index]
    {
      var track := tracks[index];
      loaded := track;
    }

    /** changeTrack, as the previous and next buttons and the end of a song
        call it: one step round the list, then load and play. */
    method ChangeTrack(dir: int)
      requires Valid() && (dir == 1 || dir == -1)
      modifies this
      ensures Valid() && index == Step(old(index), dir, |old(tracks)|)
      ensures tracks == old(tracks) && isPlaying
    {
      StepInRange(index, dir, |tracks|);
      index := Step(index, dir, |tracks|);
      LoadTrack(index);
      isPlaying := true;
    }

    /** addAndPlaySong: append the song, select it, load and play it. */
    method AddAndPlaySong(song: Song)
      modifies this
      ensures Valid() && tracks == old(tracks) + [song] && index == |tracks| - 1
      ensures loaded == song && isPlaying
    {
      tracks := tracks + [song];
      index := |tracks| - 1;
      LoadTrack(index);
      isPlaying := true;
    }
  }
}
