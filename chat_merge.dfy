/**
 * The second phase of the chat reconstruction (main.py:37-50): a linear scan over the lines of
 * `_chat.txt`, each with its line terminator, that copies every line and inserts one annotation
 * line after each voice-message reference whose file has a transcription.
 */
module ChatMerge {
  import opened PyStr
  import opened Expansion

  /** The token whose presence marks an attachment (main.py:39). */
  const AttachedMarker := "<attached:"
  /** The token whose position anchors the file name (main.py:41); note the trailing space. */
  const AttachedOpen := "<attached: "
  /** The audio extension, tested for (main.py:39) and used to end the name (main.py:42). */
  const OpusExt := ".opus"

  const AnnotationPrefix := "    (Transcrição: "
  const AnnotationSuffix := ")\n"

  /** The test of main.py:39: both tokens occur somewhere in the line, in any order. */
  predicate HasAudioReference(line: string) {
    Contains(line, AttachedMarker) && Contains(line, OpusExt)
  }

  /** Index just past the first "<attached: " (main.py:41); 10 when the anchor with its space is missing. */
  function NameStart(line: string): int {
    Find(line, AttachedOpen) + 11
  }

  /** Index just past the first ".opus" (main.py:42); 4 when the extension is missing. */
  function NameEnd(line: string): int {
    Find(line, OpusExt) + 5
  }

  /** The attachment's file name, cut out between the two bounds with Python slicing (main.py:43). */
  function ExtractName(line: string): string {
    Slice(line, NameStart(line), NameEnd(line))
  }

  /** The line inserted under a referenced voice message (main.py:48). */
  function AnnotationLine(text: string): string {
    AnnotationPrefix + text + AnnotationSuffix
  }

  /** The line gets an annotation: it passes the test and the name cut out of it is a key of the map (main.py:39, 47). */
  predicate Annotated(line: string, transcriptions: map<string, string>) {
    HasAudioReference(line) && ExtractName(line) in transcriptions
  }

  /** What one input line contributes to the output. */
  function Emit(line: string, transcriptions: map<string, string>): seq<string> {
    if Annotated(line, transcriptions) then [line, AnnotationLine(transcriptions[ExtractName(line)])]
    else [line]
  }

  /** `Emit` with the map fixed, as a function of the line. */
  function EmitWith(transcriptions: map<string, string>): string -> seq<string> {
    line => Emit(line, transcriptions)
  }

  /** The reconstructed chat: each line's contribution, in the order of the input. */
  function Reconstructed(lines: seq<string>, transcriptions: map<string, string>): seq<string> {
    Expand(lines, EmitWith(transcriptions))
  }

  /** The number of lines that get an annotation. */
  function CountAnnotated(lines: seq<string>, transcriptions: map<string, string>): nat {
    if lines == [] then 0
    else (if Annotated(lines[0], transcriptions) then 1 else 0) + CountAnnotated(lines[1..], transcriptions)
  }

  /** Where input line `k` lands in the output: after the `k` lines before it and their annotations. */
  function Pos(lines: seq<string>, transcriptions: map<string, string>, k: nat): nat
    requires k <= |lines|
  {
    k + CountAnnotated(lines[..k], transcriptions)
  }

  /** The inverse of the reconstruction: keep each line and drop the annotation that follows an annotated one. */
  function Erase(output: seq<string>, transcriptions: map<string, string>): seq<string>
    decreases |output|
  {
    if output == [] then []
    else if Annotated(output[0], transcriptions) && |output| >= 2 then [output[0]] + Erase(output[2..], transcriptions)
    else [output[0]] + Erase(output[1..], transcriptions)
  }

  /**
   * The loop of main.py:37-50, growing the output list by appends. Its result is the
   * reconstruction of the input, so it keeps every input line, in order, and adds one line per
   * annotated input line.
   */
  method Integrate(lines: seq<string>, transcriptions: map<string, string>) returns (output: seq<string>)
    ensures output == Reconstructed(lines, transcriptions)
    ensures |output| == |lines| + CountAnnotated(lines, transcriptions)
    ensures Erase(output, transcriptions) == lines
  {
    output := [];
    for k := 0 to |lines|
      invariant output == Reconstructed(lines[..k], transcriptions)
    {
      var line := lines[k];
      ReconstructedSnoc(lines[..k], line, transcriptions);
      assert lines[..k + 1] == lines[..k] + [line];
      if HasAudioReference(line) {
        var name := ExtractName(line);
        output := output + [line];
        if name in transcriptions {
          output := output + [AnnotationLine(transcriptions[name])];
        }
      } else {
        output := output + [line];
      }
    }
    assert lines[..|lines|] == lines;
    ReconstructedLength(lines, transcriptions);
    EraseReconstructed(lines, transcriptions);
  }

  /** The reconstruction of a non-empty text starts with what its first line contributes. */
  lemma ReconstructedCons(lines: seq<string>, transcriptions: map<string, string>)
    requires lines != []
    ensures Reconstructed(lines, transcriptions) == Emit(lines[0], transcriptions) + Reconstructed(lines[1..], transcriptions)
  {
    assert EmitWith(transcriptions)(lines[0]) == Emit(lines[0], transcriptions);
  }

  /** Appending a line to the input appends its contribution to the output. */
  lemma ReconstructedSnoc(lines: seq<string>, line: string, transcriptions: map<string, string>)
    ensures Reconstructed(lines + [line], transcriptions) == Reconstructed(lines, transcriptions) + Emit(line, transcriptions)
  {
    ExpandConcat(lines, [line], EmitWith(transcriptions));
    ReconstructedCons([line], transcriptions);
    assert [line][1..] == [];
  }

  /** The line-count invariant: one output line per input line plus one per annotated input line. */
  lemma {:induction false} ReconstructedLength(lines: seq<string>, transcriptions: map<string, string>)
    ensures |Reconstructed(lines, transcriptions)| == |lines| + CountAnnotated(lines, transcriptions)
  {
    if lines != [] {
      ReconstructedCons(lines, transcriptions);
      ReconstructedLength(lines[1..], transcriptions);
    }
  }

  /** Removing the annotations gives back the input exactly. */
  lemma {:induction false} EraseReconstructed(lines: seq<string>, transcriptions: map<string, string>)
    ensures Erase(Reconstructed(lines, transcriptions), transcriptions) == lines
  {
    if lines != [] {
      var out := Reconstructed(lines, transcriptions);
      var rest := Reconstructed(lines[1..], transcriptions);
      ReconstructedCons(lines, transcriptions);
      EraseReconstructed(lines[1..], transcriptions);
      if Annotated(lines[0], transcriptions) {
        assert out[2..] == rest;
      } else {
        assert out[1..] == rest;
      }
    }
  }

  /** Between the landing places of input lines `k` and `k + 1` stands exactly what line `k` contributes. */
  lemma ReconstructedSlice(lines: seq<string>, transcriptions: map<string, string>, k: nat)
    requires k < |lines|
    ensures Pos(lines, transcriptions, k + 1) == Pos(lines, transcriptions, k) + |Emit(lines[k], transcriptions)|
    ensures var out := Reconstructed(lines, transcriptions);
      && Pos(lines, transcriptions, k + 1) <= |out|
      && out[Pos(lines, transcriptions, k)..Pos(lines, transcriptions, k + 1)] == Emit(lines[k], transcriptions)
  {
    ExpandSlice(lines, EmitWith(transcriptions), k);
    ReconstructedLength(lines[..k], transcriptions);
    ReconstructedLength(lines[..k + 1], transcriptions);
    assert EmitWith(transcriptions)(lines[k]) == Emit(lines[k], transcriptions);
  }

  /**
   * Input line `k` appears unchanged at position `Pos(k)`, and the next input line lands right
   * after it, unless line `k` is annotated: then the one line in between is the annotation built
   * from the transcription of the name cut out of line `k`.
   */
  lemma ReconstructedAt(lines: seq<string>, transcriptions: map<string, string>, k: nat)
    requires k < |lines|
    ensures var out, p := Reconstructed(lines, transcriptions), Pos(lines, transcriptions, k);
      && p < |out| && out[p] == lines[k]
      && (Annotated(lines[k], transcriptions) ==>
            p + 1 < |out| && out[p + 1] == AnnotationLine(transcriptions[ExtractName(lines[k])])
            && Pos(lines, transcriptions, k + 1) == p + 2)
      && (!Annotated(lines[k], transcriptions) ==> Pos(lines, transcriptions, k + 1) == p + 1)
  {
    ReconstructedSlice(lines, transcriptions, k);
    var out, p := Reconstructed(lines, transcriptions), Pos(lines, transcriptions, k);
    assert out[p] == out[p..Pos(lines, transcriptions, k + 1)][0];
    if Annotated(lines[k], transcriptions) {
      assert out[p + 1] == out[p..Pos(lines, transcriptions, k + 1)][1];
    }
  }

  /** Output position `j` holds input line `k`, or the annotation inserted after it. */
  predicate ComesFrom(lines: seq<string>, transcriptions: map<string, string>, k: nat, j: nat)
    requires k < |lines|
  {
    j == Pos(lines, transcriptions, k) || (Annotated(lines[k], transcriptions) && j == Pos(lines, transcriptions, k) + 1)
  }

  /** Every output line is either an input line or the annotation directly after an annotated input line. */
  lemma ReconstructedCover(lines: seq<string>, transcriptions: map<string, string>, j: nat)
    requires j < |Reconstructed(lines, transcriptions)|
    ensures exists k :: 0 <= k < |lines| && ComesFrom(lines, transcriptions, k, j)
  {
    ExpandCover(lines, EmitWith(transcriptions), j);
    var k :| 0 <= k < |lines| && |Reconstructed(lines[..k], transcriptions)| <= j < |Reconstructed(lines[..k + 1], transcriptions)|;
    ReconstructedLength(lines[..k], transcriptions);
    ReconstructedLength(lines[..k + 1], transcriptions);
    ReconstructedSlice(lines, transcriptions, k);
    assert ComesFrom(lines, transcriptions, k, j);
  }

  /** Input lines keep their relative order in the output. */
  lemma {:induction false} PosIncreasing(lines: seq<string>, transcriptions: map<string, string>, k1: nat, k2: nat)
    requires k1 < k2 <= |lines|
    ensures Pos(lines, transcriptions, k1) < Pos(lines, transcriptions, k2)
  {
    ReconstructedSlice(lines, transcriptions, k2 - 1);
    if k1 < k2 - 1 {
      PosIncreasing(lines, transcriptions, k1, k2 - 1);
    }
  }

  /** No line is annotated exactly when the count of annotated lines is zero. */
  lemma {:induction false} CountAnnotatedZero(lines: seq<string>, transcriptions: map<string, string>)
    ensures CountAnnotated(lines, transcriptions) == 0 <==> forall k :: 0 <= k < |lines| ==> !Annotated(lines[k], transcriptions)
  {
    if lines != [] {
      CountAnnotatedZero(lines[1..], transcriptions);
      assert forall k :: 1 <= k < |lines| ==> lines[k] == lines[1..][k - 1];
    }
  }

  /** The output equals the input exactly when no line is annotated; in particular when the map is empty. */
  lemma ReconstructedIdentity(lines: seq<string>, transcriptions: map<string, string>)
    ensures Reconstructed(lines, transcriptions) == lines <==> forall k :: 0 <= k < |lines| ==> !Annotated(lines[k], transcriptions)
    ensures transcriptions == map[] ==> Reconstructed(lines, transcriptions) == lines
  {
    ReconstructedLength(lines, transcriptions);
    CountAnnotatedZero(lines, transcriptions);
    if forall k :: 0 <= k < |lines| ==> !Annotated(lines[k], transcriptions) {
      NoAnnotationPassThrough(lines, transcriptions);
    }
  }

  lemma {:induction false} NoAnnotationPassThrough(lines: seq<string>, transcriptions: map<string, string>)
    requires forall k :: 0 <= k < |lines| ==> !Annotated(lines[k], transcriptions)
    ensures Reconstructed(lines, transcriptions) == lines
  {
    if lines != [] {
      ReconstructedCons(lines, transcriptions);
      assert forall k :: 0 <= k < |lines| - 1 ==> lines[1..][k] == lines[k + 1];
      NoAnnotationPassThrough(lines[1..], transcriptions);
    }
  }

  /**
   * Where main.py:41-42 put the bounds of the name. Without the space after "<attached:" the
   * search fails and the start is 10; otherwise the start is just after the first anchor.
   */
  lemma NameBounds(line: string)
    ensures !Contains(line, AttachedOpen) ==> NameStart(line) == 10
    ensures Contains(line, AttachedOpen) ==> OccursAt(line, AttachedOpen, NameStart(line) - 11)
    ensures !Contains(line, OpusExt) ==> NameEnd(line) == 4
    ensures Contains(line, OpusExt) ==> OccursAt(line, OpusExt, NameEnd(line) - 5)
  {
  }

  /**
   * When main.py:43 cuts out nothing: the line has no ".opus", or the end falls before the
   * start, as it does when the first ".opus" comes before the first anchor.
   */
  lemma ExtractNameEmpty(line: string)
    ensures !Contains(line, OpusExt) ==> ExtractName(line) == []
    ensures NameEnd(line) < NameStart(line) ==> ExtractName(line) == []
    ensures 0 <= Find(line, OpusExt) < Find(line, AttachedOpen) ==> ExtractName(line) == []
  {
  }

  /**
   * Otherwise the name runs from the start to the end of the first ".opus". It ends with
   * ".opus" when it is at least that long; when the start falls inside the first ".opus" it is
   * only a shorter tail of it. The slice never fails.
   */
  lemma ExtractNameSpan(line: string)
    requires Contains(line, OpusExt) && NameStart(line) <= NameEnd(line)
    ensures var start, end, name := NameStart(line), NameEnd(line), ExtractName(line);
      && end <= |line| && name == line[start..end]
      && (start + 5 <= end ==> |name| >= 5 && name[|name| - 5..] == OpusExt)
      && (end < start + 5 ==> |name| < 5 && name == OpusExt[5 - |name|..])
  {
    var start, end, name := NameStart(line), NameEnd(line), ExtractName(line);
    var p := Find(line, OpusExt);
    assert line[p..p + 5] == OpusExt;
    if start + 5 <= end {
      assert name[|name| - 5..] == line[p..p + 5];
    } else {
      assert name == line[p..p + 5][5 - |name|..];
    }
  }

  /** The anchor found first is the one right after `pre` when nothing in `pre` and the first ten characters of the anchor forms it. */
  lemma AnchorAfter(pre: string, rest: string)
    requires !Contains(pre + AttachedMarker, AttachedOpen)
    ensures Find(pre + AttachedOpen + rest, AttachedOpen) == |pre|
    ensures Contains(pre + AttachedOpen + rest, AttachedMarker)
  {
    var line := pre + AttachedOpen + rest;
    var q := |pre|;
    assert line[q..q + 11] == AttachedOpen;
    assert line[..q + 10] == pre + AttachedMarker;
    FindFirst(line, AttachedOpen, q);
    assert line[q..q + 10] == AttachedMarker;
    assert OccursAt(line, AttachedMarker, q);
  }

  /** The extension found first is the one right after `head` when no ".opus" ends before it. */
  lemma ExtensionAfter(head: string, post: string)
    requires !Contains(head + ".opu", OpusExt)
    ensures Find(head + OpusExt + post, OpusExt) == |head|
  {
    var line := head + OpusExt + post;
    var p := |head|;
    assert line[p..p + 5] == OpusExt;
    assert line[..p + 4] == head + ".opu";
    FindFirst(line, OpusExt, p);
  }

  /** With the anchor first found at `q` and the extension first found at `p`, well after it, the name runs from just after the anchor to the end of the extension. */
  lemma ExtractNameBetween(line: string, q: nat, p: nat)
    requires Find(line, AttachedOpen) == q && Find(line, OpusExt) == p && q + 11 <= p
    ensures HasAudioReference(line) && ExtractName(line) == line[q + 11..p + 5]
  {
    assert line[q..q + 10] == line[q..q + 11][..10] == AttachedMarker;
    assert OccursAt(line, AttachedMarker, q);
  }

  /**
   * A well-formed reference line: nothing before the anchor looks like the anchor, and no
   * ".opus" ends before the one that closes the file name. For such a line the test passes and
   * the name cut out is exactly the file name.
   */
  lemma ExtractNameWellFormed(pre: string, base: string, post: string)
    requires !Contains(pre + AttachedMarker, AttachedOpen)
    requires !Contains(pre + AttachedOpen + base + ".opu", OpusExt)
    ensures var line := pre + AttachedOpen + base + OpusExt + post;
      HasAudioReference(line) && ExtractName(line) == base + OpusExt
  {
    var head := pre + AttachedOpen + base;
    var line := head + OpusExt + post;
    assert line == pre + AttachedOpen + (base + OpusExt + post);
    AnchorAfter(pre, base + OpusExt + post);
    ExtensionAfter(head, post);
    ExtractNameBetween(line, |pre|, |head|);
    assert line[|pre| + 11..|head| + 5] == base + OpusExt;
  }
}
