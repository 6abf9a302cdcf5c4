/**
 * The first phase of the chat reconstruction (main.py:25-31): every voice message of the
 * extracted archive is transcribed, and the stripped text is recorded under the file's name.
 *
 * The speech-to-text engine is the parameter `transcribe`: it receives the path of an audio
 * file and gives `Some(text)`, or `None` when the call raises. Nothing in the loop catches that
 * exception, so one failing file ends the whole run and no map is produced.
 */
module Transcription {
  import opened Wrappers
  import opened PyStr

  /** The directory the archive is extracted into (main.py:17). */
  const ExtractPath := "whatsapp_chat"

  /** `str(audio_folder / name)`: the path handed to the engine for a file of the extracted folder. */
  function AudioPath(name: string): string {
    ExtractPath + "/" + name
  }

  /** No transcription of a file in `files` raises. */
  predicate AllTranscribed(files: seq<string>, transcribe: string -> Option<string>) {
    forall f :: f in files ==> transcribe(AudioPath(f)).Some?
  }

  /** The map a successful run ends with, as a comprehension: one entry per file name,
      holding that file's transcription with surrounding whitespace removed. */
  function TranscriptionsOf(files: seq<string>, transcribe: string -> Option<string>): map<string, string>
    requires AllTranscribed(files, transcribe)
  {
    map f | f in files :: Strip(transcribe(AudioPath(f)).value)
  }

  /**
   * The loop of main.py:28-31 over the (already sorted) audio files. It yields the filled map,
   * or the path of the first file whose transcription raised.
   */
  method TranscribeAll(files: seq<string>, transcribe: string -> Option<string>)
    returns (r: Result<map<string, string>, string>)
    ensures r.Success? <==> AllTranscribed(files, transcribe)
    ensures r.Success? ==> r.value == TranscriptionsOf(files, transcribe)
    ensures r.Success? ==> r.value.Keys == set f | f in files
    ensures r.Failure? ==> exists i :: 0 <= i < |files| && r.error == AudioPath(files[i])
                                       && transcribe(r.error).None? && AllTranscribed(files[..i], transcribe)
  {
    var transcriptions: map<string, string> := map[];
    for i := 0 to |files|
      invariant AllTranscribed(files[..i], transcribe)
      invariant transcriptions == TranscriptionsOf(files[..i], transcribe)
    {
      var path := AudioPath(files[i]);
      var result := transcribe(path);
      if result.None? {
        return Failure(path);
      }
      assert files[..i + 1] == files[..i] + [files[i]];
      transcriptions := transcriptions[files[i] := Strip(result.value)];
    }
    assert files[..|files|] == files;
    return Success(transcriptions);
  }

  /** The names in `files` are pairwise different, as the names of one directory are. */
  predicate Distinct(files: seq<string>) {
    forall i, j :: 0 <= i < j < |files| ==> files[i] != files[j]
  }

  lemma {:induction false} DistinctCard(files: seq<string>)
    requires Distinct(files)
    ensures |set f | f in files| == |files|
  {
    if files != [] {
      var init := files[..|files| - 1];
      var last := files[|files| - 1];
      assert Distinct(init);
      DistinctCard(init);
      assert (set f | f in files) == (set f | f in init) + {last} by {
        assert files == init + [last];
      }
      assert last !in init;
    }
  }

  /** The map has exactly one entry per discovered file, keyed by the file's name, and each value is a stripped transcription. */
  lemma TranscriptionsEntries(files: seq<string>, transcribe: string -> Option<string>)
    requires AllTranscribed(files, transcribe)
    requires Distinct(files)
    ensures var m := TranscriptionsOf(files, transcribe);
      && |m| == |files|
      && (forall i :: 0 <= i < |files| ==> files[i] in m && m[files[i]] == Strip(transcribe(AudioPath(files[i])).value))
      && (forall f :: f in m ==> Trimmed(m[f]))
  {
    var m := TranscriptionsOf(files, transcribe);
    DistinctCard(files);
    assert m.Keys == set f | f in files;
  }

  /** The order in which the files are visited changes neither whether the run succeeds nor the map it builds. */
  lemma TranscriptionsOrderFree(files: seq<string>, other: seq<string>, transcribe: string -> Option<string>)
    requires multiset(files) == multiset(other)
    ensures AllTranscribed(files, transcribe) <==> AllTranscribed(other, transcribe)
    ensures AllTranscribed(files, transcribe) ==> TranscriptionsOf(files, transcribe) == TranscriptionsOf(other, transcribe)
  {
    assert forall f :: f in files <==> f in other by {
      forall f
        ensures f in files <==> f in other
      {
        assert f in files <==> f in multiset(files);
        assert f in other <==> f in multiset(other);
      }
    }
  }
}
