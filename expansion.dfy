/**
 * Line-by-line expansion: every line of a text is replaced, in order, by the lines some function
 * gives for it. The reconstruction of the chat is one such expansion; the facts here hold for
 * any of them.
 */
module Expansion {

  /** The lines produced when each line is replaced, in order, by the lines `emit` gives for it. */
  function Expand(lines: seq<string>, emit: string -> seq<string>): seq<string> {
    if lines == [] then [] else emit(lines[0]) + Expand(lines[1..], emit)
  }

  /** Expansion distributes over concatenation. */
  lemma {:induction false} ExpandConcat(a: seq<string>, b: seq<string>, emit: string -> seq<string>)
    ensures Expand(a + b, emit) == Expand(a, emit) + Expand(b, emit)
  {
    if a == [] {
      assert a + b == b;
    } else {
      assert (a + b)[1..] == a[1..] + b;
      ExpandConcat(a[1..], b, emit);
    }
  }

  /** Line `k` expands in place: its lines stand right after the expansion of the lines before it. */
  lemma ExpandSlice(lines: seq<string>, emit: string -> seq<string>, k: nat)
    requires k < |lines|
    ensures |Expand(lines[..k + 1], emit)| == |Expand(lines[..k], emit)| + |emit(lines[k])| <= |Expand(lines, emit)|
    ensures Expand(lines, emit)[|Expand(lines[..k], emit)|..|Expand(lines[..k + 1], emit)|] == emit(lines[k])
  {
    var before, after := lines[..k], lines[k + 1..];
    assert [lines[k]][1..] == [];
    assert Expand([lines[k]], emit) == emit(lines[k]) + [];
    assert lines[..k + 1] == before + [lines[k]];
    ExpandConcat(before, [lines[k]], emit);
    assert lines == lines[..k + 1] + after;
    ExpandConcat(lines[..k + 1], after, emit);
    var a, e := Expand(before, emit), emit(lines[k]);
    assert Expand(lines, emit) == (a + e) + Expand(after, emit);
    assert ((a + e) + Expand(after, emit))[|a|..|a| + |e|] == e;
  }

  /** A prefix of `lines` that takes in line 0 expands to line 0's lines and then the expansion of the rest of the prefix. */
  lemma ExpandPrefix(lines: seq<string>, emit: string -> seq<string>, k: nat)
    requires k < |lines|
    ensures |Expand(lines[..k + 1], emit)| == |emit(lines[0])| + |Expand(lines[1..][..k], emit)|
  {
    assert lines[..k + 1] == [lines[0]] + lines[1..][..k];
    ExpandConcat([lines[0]], lines[1..][..k], emit);
    assert [lines[0]][1..] == [];
  }

  /** Every line of the expansion comes from some input line. */
  lemma {:induction false} ExpandCover(lines: seq<string>, emit: string -> seq<string>, j: nat)
    requires j < |Expand(lines, emit)|
    ensures exists k :: 0 <= k < |lines| && |Expand(lines[..k], emit)| <= j < |Expand(lines[..k + 1], emit)|
  {
    var e := emit(lines[0]);
    ExpandPrefix(lines, emit, 0);
    assert lines[..0] == [] && lines[1..][..0] == [];
    if j < |e| {
      assert |Expand(lines[..0], emit)| <= j < |Expand(lines[..1], emit)|;
    } else {
      var rest := lines[1..];
      ExpandCover(rest, emit, j - |e|);
      var k :| 0 <= k < |rest| && |Expand(rest[..k], emit)| <= j - |e| < |Expand(rest[..k + 1], emit)|;
      ExpandPrefix(lines, emit, k);
      ExpandPrefix(lines, emit, k + 1);
      assert |Expand(lines[..k + 1], emit)| <= j < |Expand(lines[..k + 2], emit)|;
    }
  }
}
