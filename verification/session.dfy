/**
 * The control flow of `main` and the path-returning parts of
 * `download_audio` and `convert_to_wav` (run.py lines 24-48, 64-69,
 * 101-132). Search, download, decoding, playback and the filesystem are
 * foreign. The search results, the downloaded name (or the download's
 * failure), and how decoding the .mp3 and loading the .wav end are
 * parameters; searching, creating the folder and removing files are taken
 * to return normally. A run of `main` is modelled by what it asks of them. `main` always asks in the same order: create
 * the folder, fetch, convert, play, remove, report.
 */
module Session {
  import opened Wrappers
  import opened PathRule
  import Selection

  /** A search result: title, display duration and link. */
  datatype Video = Video(title: string, duration: string, link: string)

  /**
   * The outcome messages `main` prints: "Invalid choice.", "Please enter a
   * valid number." and "Playback finished and temporary files deleted.".
   */
  datatype Notice = InvalidChoiceMsg | EnterNumberMsg | FilesDeletedMsg

  /** How a foreign call ends. */
  datatype Step = Succeeds | RaisesValueError | RaisesOther

  /** What one run of `main` asked for, and whether an exception escaped it. */
  datatype Run = Run(
    madeFolder: bool,             // os.makedirs(TMP_FOLDER)
    fetched: Option<string>,      // download_audio(link, TMP_FOLDER) with this link
    converted: Option<string>,    // convert_to_wav with this .mp3 path
    played: Option<string>,       // play_audio_with_time_tracking with this .wav path
    removed: seq<string>,         // os.remove calls, in order
    notice: Option<Notice>,       // the outcome message printed by main
    crashed: bool)                // an exception escaped main

  /**
   * `download_audio`: `downloaded` is the name yt-dlp's `prepare_filename`
   * gives, or None when the download raised (the error is swallowed and
   * None returned). The result is that name with its extension made `.mp3`.
   */
  function DownloadAudio(downloaded: Option<string>): (r: Option<string>)
    ensures r.Some? <==> downloaded.Some?
    ensures r.Some? ==> EndsWith(r.value, ".mp3") && Stem(r.value) == Stem(downloaded.value)
  {
    match downloaded
    case None => None
    case Some(name) =>
      Mp3ThenWav(name);
      Some(SwapExtension(name, ".mp3"))
  }

  /** The path `convert_to_wav` writes and returns: the .mp3 path with its extension made `.wav`. */
  function WavPath(mp3: string): (wav: string)
    ensures EndsWith(wav, ".wav") && Stem(wav) == Stem(mp3)
  {
    assert IsExtension(".wav");
    SwapKeepsStem(mp3, ".wav");
    SwapExtension(mp3, ".wav")
  }

  /** Python truthiness of `mp3_file` in `if mp3_file:`. */
  predicate Truthy(s: Option<string>) {
    s.Some? && s.value != ""
  }

  /** A path download_audio returns is never empty, so `if mp3_file:` only tests for None. */
  lemma DownloadedPathTruthy(downloaded: Option<string>)
    ensures Truthy(DownloadAudio(downloaded)) <==> downloaded.Some?
  {
  }

  /** The run of a session that stops right after `main`'s choice check. */
  function Stopped(tmpExists: bool, notice: Notice): Run {
    Run(!tmpExists, None, None, None, [], Some(notice), false)
  }

  /** Whether `main` reaches the cleanup: decoding and loading the .wav both return. */
  predicate CleansUp(decode: Step, load: Step) {
    decode == Succeeds && load == Succeeds
  }

  /** Whether an exception other than ValueError escapes from converting or from loading the .wav. */
  predicate Escapes(decode: Step, load: Step) {
    decode == RaisesOther || (decode == Succeeds && load == RaisesOther)
  }

  /**
   * Conversion, playback and cleanup of a downloaded `.mp3` (lines 120-131).
   * `decode` is how `convert_to_wav` ends; `load` is how loading the .wav
   * ends at the start of `play_audio_with_time_tracking` (line 83, before
   * its own `try`; errors of the playback itself are caught at lines 91-94).
   * Either error ends the session before the cleanup. A ValueError is
   * caught by the `except ValueError` of line 131, which covers the whole
   * block, and so prints "Please enter a valid number.".
   */
  function ConvertAndPlay(madeFolder: bool, link: string, mp3File: string, decode: Step, load: Step): (r: Run)
    ensures r.madeFolder == madeFolder && r.fetched == Some(link)
    ensures r.converted == Some(mp3File)
    ensures r.crashed <==> Escapes(decode, load)
    ensures r.played.Some? <==> decode == Succeeds
    ensures r.played.Some? ==> EndsWith(r.played.value, ".wav") && Stem(r.played.value) == Stem(mp3File)
    ensures r.removed != [] <==> CleansUp(decode, load)
    ensures r.removed != [] ==> r.removed == [mp3File, r.played.value]
    ensures r.notice == Some(EnterNumberMsg) <==>
      decode == RaisesValueError || (decode == Succeeds && load == RaisesValueError)
    ensures r.notice == Some(FilesDeletedMsg) <==> CleansUp(decode, load)
    ensures r.notice.None? <==> r.crashed
    ensures r.played.Some? ==> r.played == Some(WavPath(mp3File))
  {
    var converting := Run(madeFolder, Some(link), Some(mp3File), None, [], None, false);
    match decode
    case RaisesOther => converting.(crashed := true)
    case RaisesValueError => converting.(notice := Some(EnterNumberMsg))
    case Succeeds =>
      var wavFile := WavPath(mp3File);
      var playing := converting.(played := Some(wavFile));
      match load
      case RaisesOther => playing.(crashed := true)
      case RaisesValueError => playing.(notice := Some(EnterNumberMsg))
      case Succeeds => playing.(removed := [mp3File, wavFile], notice := Some(FilesDeletedMsg))
  }

  /**
   * One run of `main`. `tmpExists`: whether TMP_FOLDER already exists;
   * `choice`: the parsed answer (None when int() raised ValueError);
   * `results`: the search results; `downloaded`: the downloaded name, or
   * None when the download failed;
   * `decode`: how the .mp3 decoding ends; `load`: how loading the .wav for
   * playback ends.
   */
  function Main(tmpExists: bool, choice: Option<int>, results: seq<Video>,
                downloaded: Option<string>, decode: Step, load: Step): (r: Run)
    ensures r.madeFolder <==> !tmpExists
    ensures choice.None? ==> r.notice == Some(EnterNumberMsg) && r.fetched.None?
    ensures choice.Some? && !(1 <= choice.value <= |results|) ==>
      r.notice == Some(InvalidChoiceMsg) && r.fetched.None?
    ensures choice.Some? && 1 <= choice.value <= |results| ==>
      r.fetched == Some(results[choice.value - 1].link)
    ensures r.converted.Some? <==> r.fetched.Some? && downloaded.Some?
    ensures r.played.Some? ==> r.converted.Some?
    ensures r.removed != [] <==> r.converted.Some? && CleansUp(decode, load)
    ensures r.removed != [] ==> r.played.Some? && r.removed == [r.converted.value, r.played.value]
    ensures r.crashed <==> r.converted.Some? && Escapes(decode, load)
    ensures r.notice == Some(InvalidChoiceMsg) <==> choice.Some? && !(1 <= choice.value <= |results|)
    ensures r.notice == Some(EnterNumberMsg) <==>
      choice.None? ||
      (r.converted.Some? && (decode == RaisesValueError || (decode == Succeeds && load == RaisesValueError)))
    ensures r.notice == Some(FilesDeletedMsg) <==> r.removed != []
    ensures r.converted.Some? ==> r.converted == DownloadAudio(downloaded)
    ensures r.played.Some? <==> r.converted.Some? && decode == Succeeds
    ensures r.played.Some? ==> r.played == Some(WavPath(r.converted.value))
  {
    match Selection.Choose(choice, results)
    case NotANumber => Stopped(tmpExists, EnterNumberMsg)
    case InvalidChoice => Stopped(tmpExists, InvalidChoiceMsg)
    case Picked(_, video) =>
      var mp3File := DownloadAudio(downloaded);
      if !Truthy(mp3File) then Run(!tmpExists, Some(video.link), None, None, [], None, false)
      else ConvertAndPlay(!tmpExists, video.link, mp3File.value, decode, load)
  }

  /**
   * The happy path: the selected link is downloaded, the .mp3 derived from
   * the downloaded name is converted, the .wav derived from the same name is
   * played, then both are deleted and the final notice printed.
   */
  lemma HappyPath(tmpExists: bool, k: int, results: seq<Video>, name: string)
    requires 1 <= k <= |results|
    ensures var mp3 := SwapExtension(name, ".mp3");
            var wav := SwapExtension(name, ".wav");
            Main(tmpExists, Some(k), results, Some(name), Succeeds, Succeeds) ==
              Run(!tmpExists, Some(results[k - 1].link), Some(mp3), Some(wav), [mp3, wav],
                  Some(FilesDeletedMsg), false)
  {
    var mp3 := SwapExtension(name, ".mp3");
    assert Selection.Choose(Some(k), results) == Selection.Picked(k - 1, results[k - 1]);
    assert Main(tmpExists, Some(k), results, Some(name), Succeeds, Succeeds) ==
           ConvertAndPlay(!tmpExists, results[k - 1].link, mp3, Succeeds, Succeeds) by {
      DerivedPaths(name);
    }
    assert WavPath(mp3) == SwapExtension(name, ".wav") by {
      DerivedPaths(name);
    }
  }

  /** The paths `main` works on are both derived from the downloaded name. */
  lemma DerivedPaths(name: string)
    ensures DownloadAudio(Some(name)) == Some(SwapExtension(name, ".mp3"))
    ensures Truthy(DownloadAudio(Some(name)))
    ensures WavPath(SwapExtension(name, ".mp3")) == SwapExtension(name, ".wav")
  {
    Mp3ThenWav(name);
  }

  /**
   * When decoding raises, the session ends before the cleanup: the .mp3
   * already on disk is left behind.
   */
  lemma DecodeFailureOrphans(tmpExists: bool, k: int, results: seq<Video>, name: string,
                             decode: Step, load: Step)
    requires 1 <= k <= |results|
    requires decode != Succeeds
    ensures var r := Main(tmpExists, Some(k), results, Some(name), decode, load);
            r.converted == Some(SwapExtension(name, ".mp3")) && r.played.None? && r.removed == []
  {
  }

  /**
   * When loading the .wav raises, playback was asked for but the session
   * ends before the cleanup: both the .mp3 and the .wav are left behind.
   */
  lemma LoadFailureOrphans(tmpExists: bool, k: int, results: seq<Video>, name: string, load: Step)
    requires 1 <= k <= |results|
    requires load != Succeeds
    ensures var r := Main(tmpExists, Some(k), results, Some(name), Succeeds, load);
            r.played.Some? && r.removed == [] && r.notice != Some(FilesDeletedMsg) &&
            (r.crashed <==> load == RaisesOther)
  {
  }

  /** A failed download stops the session: nothing is converted, played or deleted. */
  lemma FailedDownloadStops(tmpExists: bool, choice: Option<int>, results: seq<Video>, decode: Step, load: Step)
    ensures var r := Main(tmpExists, choice, results, None, decode, load);
            !r.crashed && r.converted.None? && r.played.None? && r.removed == []
  {
  }

  /** Three results and the answer 2 fetch the second result's link. */
  lemma SecondOfThree(a: Video, b: Video, c: Video, name: string)
    ensures Main(true, Some(2), [a, b, c], Some(name), Succeeds, Succeeds).fetched == Some(b.link)
  {
  }
}
