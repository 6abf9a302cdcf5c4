/**
 * The two phases of main.py chained: transcribe every audio file, then merge the transcriptions
 * into the lines of the chat (main.py:25-50).
 */
module Pipeline {
  import opened Wrappers
  import opened PyStr
  import opened Transcription
  import opened ChatMerge

  /**
   * The reconstruction a run writes out: the merged lines when every transcription succeeds,
   * otherwise the path of the first file whose transcription raised, which ends the run
   * before the chat is touched.
   */
  method ReconstructChat(files: seq<string>, lines: seq<string>, transcribe: string -> Option<string>)
    returns (r: Result<seq<string>, string>)
    ensures r.Success? <==> AllTranscribed(files, transcribe)
    ensures r.Success? ==> r.value == Reconstructed(lines, TranscriptionsOf(files, transcribe))
    ensures r.Failure? ==> transcribe(r.error).None? && exists i :: 0 <= i < |files| && r.error == AudioPath(files[i])
  {
    var transcriptions := TranscribeAll(files, transcribe);
    if transcriptions.Failure? {
      return Failure(transcriptions.error);
    }
    var merged := Integrate(lines, transcriptions.value);
    return Success(merged);
  }

  /**
   * Against the map of a successful run, a line is annotated exactly when it passes the test and
   * the name cut out of it is one of the audio files, and the annotation carries the stripped
   * transcription of that file.
   */
  lemma AnnotatedFromFiles(files: seq<string>, lines: seq<string>, transcribe: string -> Option<string>, k: nat)
    requires AllTranscribed(files, transcribe) && k < |lines|
    ensures var m := TranscriptionsOf(files, transcribe);
      && (Annotated(lines[k], m) <==> HasAudioReference(lines[k]) && ExtractName(lines[k]) in files)
      && (Annotated(lines[k], m) ==>
            Pos(lines, m, k) + 1 < |Reconstructed(lines, m)|
            && Reconstructed(lines, m)[Pos(lines, m, k) + 1]
               == AnnotationLine(Strip(transcribe(AudioPath(ExtractName(lines[k]))).value)))
  {
    ReconstructedAt(lines, TranscriptionsOf(files, transcribe), k);
  }

  /** The texts of the scenario, spelled out. */
  lemma ExampleText(pre: string, base: string, post: string, text: string)
    requires pre == "[10:00] Alice: " && base == "00001" && post == ">\n" && text == "hello there"
    ensures pre + AttachedOpen + base + OpusExt + post == "[10:00] Alice: <attached: 00001.opus>\n"
    ensures base + OpusExt == "00001.opus"
    ensures AnnotationLine(text) == "    (Transcrição: hello there)\n"
  {
  }

  /**
   * The scenario of the design: the line `[10:00] Alice: <attached: 00001.opus>` with its
   * terminator gains one annotation line when "00001.opus" is transcribed, and passes through
   * alone when the map is empty. (The parts are parameters so that the verifier does not try
   * to evaluate the searches on the literal.)
   */
  lemma ExampleScenario(pre: string, base: string, post: string, text: string)
    requires pre == "[10:00] Alice: " && base == "00001" && post == ">\n" && text == "hello there"
    ensures var line := pre + AttachedOpen + base + OpusExt + post;
      && line == "[10:00] Alice: <attached: 00001.opus>\n"
      && ExtractName(line) == "00001.opus"
      && Reconstructed([line], map["00001.opus" := text]) == [line, "    (Transcrição: hello there)\n"]
      && Reconstructed([line], map[]) == [line]
  {
    ExampleText(pre, base, post, text);
    AbsentFirstChar(pre, AttachedMarker, AttachedOpen);
    AbsentFirstChar(pre + AttachedOpen + base, ".opu", OpusExt);
    assert pre + AttachedOpen + base + ".opu" == (pre + AttachedOpen + base) + ".opu";
    ExtractNameWellFormed(pre, base, post);
    var line := pre + AttachedOpen + base + OpusExt + post;
    ReconstructedCons([line], map["00001.opus" := text]);
    ReconstructedCons([line], map[]);
    assert [line][1..] == [];
  }
}
