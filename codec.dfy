/**
 * The lossy sequence codec: `preprocess_input` (modules/evaluate.py, lines 69-72) and
 * `decode_output` (lines 74-77).  Encoding keeps only the segments that are vocabulary
 * tokens; decoding keeps only the ids that name a token.
 */
module Codec {
  import opened Vocabulary
  import opened Tokenizer

  /** The ids of the segments that are vocabulary tokens, in order (the list comprehension at line 72). */
  function EncodeSegments(segments: seq<string>): (ids: seq<int>)
    ensures forall k :: 0 <= k < |ids| ==> 1 <= ids[k] <= |Tokens|
  {
    TokenIdsInRange();
    if segments == [] then []
    else
      (if segments[0] in TokenToId() then [TokenToId()[segments[0]]] else [])
      + EncodeSegments(segments[1..])
  }

  /** The segments that are vocabulary tokens, in order; the part of the input the codec keeps. */
  function VocabularySegments(segments: seq<string>): seq<string> {
    if segments == [] then []
    else (if segments[0] in TokenToId() then [segments[0]] else []) + VocabularySegments(segments[1..])
  }

  /** `preprocess_input`: tokenize, then map each vocabulary segment to its id. */
  function PreprocessInput(s: string): (ids: seq<int>)
    ensures forall k :: 0 <= k < |ids| ==> 1 <= ids[k] <= 9
  {
    IdsAreListPositions();
    EncodeSegments(Tokenize(s))
  }

  /** The tokens named by the ids that are keys of `id2token`, in order. */
  function KnownTokens(ids: seq<int>): seq<string> {
    if ids == [] then []
    else (if ids[0] in IdToToken() then [IdToToken()[ids[0]]] else []) + KnownTokens(ids[1..])
  }

  /** `decode_output`: join the tokens of the known ids, silently skipping every other id. */
  function DecodeOutput(ids: seq<int>): string {
    Concat(KnownTokens(ids))
  }

  lemma {:induction false} KnownTokensAppend(a: seq<int>, b: seq<int>)
    ensures KnownTokens(a + b) == KnownTokens(a) + KnownTokens(b)
    decreases |a|
  {
    if a != [] {
      assert (a + b)[1..] == a[1..] + b;
      KnownTokensAppend(a[1..], b);
    } else {
      assert a + b == b;
    }
  }

  /** Decoding distributes over concatenation of id sequences. */
  lemma DecodeAppend(a: seq<int>, b: seq<int>)
    ensures DecodeOutput(a + b) == DecodeOutput(a) + DecodeOutput(b)
  {
    KnownTokensAppend(a, b);
    ConcatAppend(KnownTokens(a), KnownTokens(b));
  }

  /** A single id decodes to its listed token when it lies in 1..9, and to nothing otherwise. */
  lemma DecodeSingle(id: int)
    ensures DecodeOutput([id]) == if 1 <= id <= 9 then Tokens[id - 1] else ""
  {
    IdsAreListPositions();
    assert [id][1..] == [];
    assert KnownTokens([id]) == (if id in IdToToken() then [IdToToken()[id]] else []) + KnownTokens([]);
    if 1 <= id <= 9 {
      assert Concat([Tokens[id - 1]]) == Tokens[id - 1] + Concat([]);
    }
  }

  /** Decoding keeps exactly the ids in 1..9: ids outside that range contribute nothing. */
  lemma {:induction false} DecodeDropsUnknown(ids: seq<int>)
    requires forall k :: 0 <= k < |ids| ==> !(1 <= ids[k] <= 9)
    ensures DecodeOutput(ids) == ""
    decreases |ids|
  {
    if ids != [] {
      assert ids == [ids[0]] + ids[1..];
      DecodeSingle(ids[0]);
      DecodeAppend([ids[0]], ids[1..]);
      DecodeDropsUnknown(ids[1..]);
    }
  }

  lemma {:induction false} DecodeEncodeSegments(segments: seq<string>)
    ensures DecodeOutput(EncodeSegments(segments)) == Concat(VocabularySegments(segments))
    decreases |segments|
  {
    if segments != [] {
      var t := segments[0];
      var head := if t in TokenToId() then [TokenToId()[t]] else [];
      DecodeAppend(head, EncodeSegments(segments[1..]));
      DecodeEncodeSegments(segments[1..]);
      var kept := if t in TokenToId() then [t] else [];
      ConcatAppend(kept, VocabularySegments(segments[1..]));
      if t in TokenToId() {
        MapsAreInverse();
        TokenIdsInRange();
        IdsAreListPositions();
        DecodeSingle(TokenToId()[t]);
        assert Concat(kept) == t + Concat([]);
      }
    }
  }

  /**
   * The codec round trip: decoding the encoding of `s` gives back exactly the vocabulary-token
   * segments of `s`, joined in order; every other word is lost.
   */
  lemma DecodePreprocess(s: string)
    ensures DecodeOutput(PreprocessInput(s)) == Concat(VocabularySegments(Tokenize(s)))
  {
    DecodeEncodeSegments(Tokenize(s));
  }

  lemma {:induction false} EncodeSegmentsWithoutMarker(segments: seq<string>)
    requires ",output" !in segments
    ensures 8 !in EncodeSegments(segments)
    decreases |segments|
  {
    if segments != [] {
      TokenIdsInRange();
      EncodeSegmentsWithoutMarker(segments[1..]);
    }
  }

  /** `preprocess_input` never yields id 8, the id of `,output`. */
  lemma PreprocessNeverOutputMarker(s: string)
    ensures 8 !in PreprocessInput(s)
  {
    OutputMarkerNeverSegment(s);
    EncodeSegmentsWithoutMarker(Tokenize(s));
  }

  /** A worked instance: `input` is kept, `,output` becomes `,` (id 9) and `output` is dropped. */
  lemma PreprocessExample()
    ensures PreprocessInput("input,output") == [7, 9]
  {
    var segments := ["input", ",", "output"];
    TokenizeMarkerExample();
    IdsAreListPositions();
    TokensDistinct();
    assert Tokens[6] == "input" && Tokens[8] == ",";
    OutputWordNotAToken();
    assert EncodeSegments(segments[2..]) == [];
    assert EncodeSegments(segments[1..]) == [9] + EncodeSegments(segments[2..]);
  }

  lemma TokenizeMarkerExample()
    ensures Tokenize("input,output") == ["input", ",", "output"]
  {
    var segments := ["input", ",", "output"];
    assert Concat(segments[2..]) == "output";
    assert Concat(segments[1..]) == ",output";
    assert IsWord("input") && IsWord("output") && IsSingleCharTokenSegment(",");
    assert forall k :: 0 <= k < |segments| ==> IsSingleCharTokenSegment(segments[k]) == (k == 1);
    assert IsSegmentation("input,output", segments);
    ScanFinished("input,output", segments);
  }
}
