/**
 * The character-scanning tokenizer `tokenize_string` (modules/evaluate.py, lines 54-67).
 * A string is cut into segments: every character that is a token by itself becomes its own
 * segment, and each maximal run of other characters becomes one "word" segment.
 */
module Tokenizer {
  import opened Vocabulary

  /** A non-empty run of characters none of which is a token by itself. */
  predicate IsWord(w: string) {
    |w| > 0 && forall k :: 0 <= k < |w| ==> w[k] !in TokenChars
  }

  /** A one-character segment that is a vocabulary token. */
  predicate IsSingleCharTokenSegment(w: string) {
    |w| == 1 && w[0] in TokenChars
  }

  /** The segments joined back together (`"".join(segments)`). */
  function Concat(segments: seq<string>): string {
    if segments == [] then "" else segments[0] + Concat(segments[1..])
  }

  /** Every segment is a character token or a word, and no two words are adjacent. */
  predicate WellFormed(segments: seq<string>) {
    && (forall k :: 0 <= k < |segments| ==> IsSingleCharTokenSegment(segments[k]) || IsWord(segments[k]))
    && (forall k :: 0 < k < |segments| ==> !(IsWord(segments[k - 1]) && IsWord(segments[k])))
  }

  /** `segments` cuts `s` into character tokens and maximal words. */
  predicate IsSegmentation(s: string, segments: seq<string>) {
    Concat(segments) == s && WellFormed(segments)
  }

  /** The length of the word at the front of `s`: the number of leading non-token characters. */
  function WordLength(s: string): (n: nat)
    ensures n <= |s|
    ensures forall k :: 0 <= k < n ==> s[k] !in TokenChars
    ensures n < |s| ==> s[n] in TokenChars
  {
    if s == [] || s[0] in TokenChars then 0 else 1 + WordLength(s[1..])
  }

  /** Reference definition of the segmentation, one segment at a time from the front. */
  function Tokenize(s: string): seq<string>
    decreases |s|
  {
    if s == [] then []
    else if s[0] in TokenChars then [s[..1]] + Tokenize(s[1..])
    else [s[..WordLength(s)]] + Tokenize(s[WordLength(s)..])
  }

  /** The segment still being accumulated, as a list of zero or one segments. */
  function Pending(current: string): seq<string> {
    if current == "" then [] else [current]
  }

  /**
   * `tokenize_string`: scans `s` once, accumulating non-token characters in `current` and
   * flushing it whenever a token character (or the end of the input) is reached.
   */
  method TokenizeString(s: string) returns (segments: seq<string>)
    ensures segments == Tokenize(s)
  {
    segments := [];
    var current := "";
    for i := 0 to |s|
      invariant IsSegmentation(s[..i], segments + Pending(current))
      invariant segments != [] ==> IsSingleCharTokenSegment(segments[|segments| - 1])
      invariant current == "" || IsWord(current)
    {
      var c := s[i];
      assert s[..i + 1] == s[..i] + [c];
      if c in TokenChars {
        ScanTokenChar(s[..i], segments, current, c);
        ghost var flushed := segments + Pending(current);
        if current != "" {
          segments := segments + [current];
          current := "";
        }
        assert segments == flushed && Pending(current) == [];
        segments := segments + [[c]];
        assert segments + Pending(current) == flushed + [[c]];
      } else {
        ScanWordChar(s[..i], segments, current, c);
        current := current + [c];
      }
    }
    assert s[..|s|] == s;
    ScanFinished(s, segments + Pending(current));
    ghost var flushed := segments + Pending(current);
    if current != "" {
      segments := segments + [current];
    }
    assert segments == flushed;
  }

  /** Once the scan has covered all of `s`, what it produced is the reference segmentation. */
  lemma ScanFinished(s: string, segments: seq<string>)
    requires IsSegmentation(s, segments)
    ensures segments == Tokenize(s)
  {
    TokenizeIsSegmentation(s);
    SegmentationUnique(s, segments, Tokenize(s));
  }

  /** One scanning step on a token character: flush the pending word, then emit the character. */
  lemma ScanTokenChar(p: string, segments: seq<string>, current: string, c: char)
    requires IsSegmentation(p, segments + Pending(current))
    requires current == "" || IsWord(current)
    requires c in TokenChars
    ensures IsSegmentation(p + [c], segments + Pending(current) + [[c]])
  {
    ConcatSnoc(segments + Pending(current), [c]);
    WellFormedSnoc(segments + Pending(current), [c]);
  }

  /** One scanning step on any other character: it extends the pending word. */
  lemma ScanWordChar(p: string, segments: seq<string>, current: string, c: char)
    requires IsSegmentation(p, segments + Pending(current))
    requires segments != [] ==> IsSingleCharTokenSegment(segments[|segments| - 1])
    requires current == "" || IsWord(current)
    requires c !in TokenChars
    ensures IsWord(current + [c])
    ensures IsSegmentation(p + [c], segments + [current + [c]])
  {
    ConcatSnoc(segments, current);
    ConcatSnoc(segments, current + [c]);
    if current == "" {
      assert segments + Pending(current) == segments;
    } else {
      assert segments + Pending(current) == segments + [current];
      WellFormedPrefix(segments, current);
    }
    WellFormedSnoc(segments, current + [c]);
  }

  lemma {:induction false} ConcatAppend(a: seq<string>, b: seq<string>)
    ensures Concat(a + b) == Concat(a) + Concat(b)
    decreases |a|
  {
    if a != [] {
      assert (a + b)[1..] == a[1..] + b;
      ConcatAppend(a[1..], b);
    } else {
      assert a + b == b;
    }
  }

  lemma ConcatSnoc(a: seq<string>, x: string)
    ensures Concat(a + [x]) == Concat(a) + x
  {
    ConcatAppend(a, [x]);
    assert Concat([x]) == x + Concat([]);
  }

  lemma WellFormedSnoc(a: seq<string>, x: string)
    requires WellFormed(a)
    requires IsSingleCharTokenSegment(x) || IsWord(x)
    requires a != [] && IsWord(a[|a| - 1]) ==> !IsWord(x)
    ensures WellFormed(a + [x])
  {
    var b := a + [x];
    assert forall k :: 0 <= k < |a| ==> b[k] == a[k];
  }

  lemma WellFormedPrefix(a: seq<string>, x: string)
    requires WellFormed(a + [x])
    ensures WellFormed(a)
  {
    var b := a + [x];
    assert forall k :: 0 <= k < |a| ==> b[k] == a[k];
  }

  lemma WellFormedCons(x: string, a: seq<string>)
    requires WellFormed(a)
    requires IsSingleCharTokenSegment(x) || IsWord(x)
    requires a != [] && IsWord(x) ==> !IsWord(a[0])
    ensures WellFormed([x] + a)
  {
    var b := [x] + a;
    assert forall k :: 0 < k < |b| ==> b[k] == a[k - 1];
  }

  /** The reference segmentation joins back to `s` and cuts it into tokens and maximal words. */
  lemma {:induction false} TokenizeIsSegmentation(s: string)
    ensures IsSegmentation(s, Tokenize(s))
    decreases |s|
  {
    if s != [] {
      var n := if s[0] in TokenChars then 1 else WordLength(s);
      var rest := Tokenize(s[n..]);
      assert Tokenize(s) == [s[..n]] + rest;
      TokenizeIsSegmentation(s[n..]);
      assert ([s[..n]] + rest)[1..] == rest;
      assert s[..n] + s[n..] == s;
      if rest != [] && s[0] !in TokenChars {
        assert s[n] in TokenChars && rest[0] == s[n..][..1];
      }
      WellFormedCons(s[..n], rest);
    }
  }

  /** A segmentation that covers `s` cannot be empty unless `s` is. */
  lemma EmptySegmentation(s: string, a: seq<string>)
    requires IsSegmentation(s, a)
    ensures a == [] <==> s == ""
  {
    if a != [] {
      assert |a[0]| > 0;
      assert Concat(a) == a[0] + Concat(a[1..]);
    }
  }

  /** The first segment of any segmentation of `s` is fixed by `s` alone. */
  lemma FirstSegment(s: string, a: seq<string>)
    requires IsSegmentation(s, a) && s != ""
    ensures a != []
    ensures a[0] == s[..if s[0] in TokenChars then 1 else WordLength(s)]
    ensures IsSegmentation(s[|a[0]|..], a[1..])
  {
    EmptySegmentation(s, a);
    var m := |a[0]|;
    assert Concat(a) == a[0] + Concat(a[1..]);
    assert a[0][0] == s[0];
    assert s[..m] == a[0] && s[m..] == Concat(a[1..]);
    var tail := a[1..];
    assert forall k :: 0 <= k < |tail| ==> tail[k] == a[k + 1];
    assert forall k :: 0 < k < |tail| ==> tail[k - 1] == a[k];
    assert WellFormed(tail);
    if s[0] !in TokenChars {
      assert IsWord(a[0]);
      assert forall k :: 0 <= k < m ==> s[k] == a[0][k];
      if m < |s| {
        EmptySegmentation(s[m..], tail);
        assert Concat(tail) == tail[0] + Concat(tail[1..]);
        assert s[m] == tail[0][0];
        assert !IsWord(a[1]);
      }
      WordLengthUnique(s, m);
    }
  }

  /** `WordLength` is the only length whose prefix is token-free and is followed by a token. */
  lemma WordLengthUnique(s: string, m: nat)
    requires m <= |s|
    requires forall k :: 0 <= k < m ==> s[k] !in TokenChars
    requires m < |s| ==> s[m] in TokenChars
    ensures m == WordLength(s)
  {
  }

  /** The segmentation properties determine the segments: there is only one segmentation. */
  lemma {:induction false} SegmentationUnique(s: string, a: seq<string>, b: seq<string>)
    requires IsSegmentation(s, a) && IsSegmentation(s, b)
    ensures a == b
    decreases |s|
  {
    EmptySegmentation(s, a);
    EmptySegmentation(s, b);
    if s != "" {
      FirstSegment(s, a);
      FirstSegment(s, b);
      SegmentationUnique(s[|a[0]|..], a[1..], b[1..]);
      assert a == [a[0]] + a[1..] && b == [b[0]] + b[1..];
    }
  }

  /**
   * `,output` is in the vocabulary but is never produced as a segment: its first character
   * `,` is a token by itself, so the scanner always cuts `,output` into `,` and `output`.
   */
  lemma OutputMarkerNeverSegment(s: string)
    ensures ",output" !in Tokenize(s)
  {
    TokenizeIsSegmentation(s);
  }

  /** A worked instance: the input marker word survives, the output marker is cut in two. */
  lemma TokenizeExample()
    ensures Tokenize("(input,output)") == ["(", "input", ",", "output", ")"]
    ensures Tokenize("") == []
  {
    var segments := ["(", "input", ",", "output", ")"];
    assert Concat(segments[4..]) == ")";
    assert Concat(segments[3..]) == "output)";
    assert Concat(segments[2..]) == ",output)";
    assert Concat(segments[1..]) == "input,output)";
    assert IsWord("input") && IsWord("output");
    assert IsSingleCharTokenSegment("(") && IsSingleCharTokenSegment(",") && IsSingleCharTokenSegment(")");
    assert forall k :: 0 <= k < |segments| ==> IsSingleCharTokenSegment(segments[k]) == (k % 2 == 0);
    assert IsSegmentation("(input,output)", segments);
    ScanFinished("(input,output)", segments);
  }
}
