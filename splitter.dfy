/**
 * The record splitter `split_input_output` (modules/evaluate.py, lines 79-88), with the part
 * of Python's `str.split` it relies on.  Each dataset record is cut on the literal `,output:`;
 * the input is the text before the first marker with `,output` put back, and the expected
 * output is the second piece of the split.
 */
module Splitter {
  import opened Results

  /** The separator every record is split on. */
  const Marker: string := ",output:"

  /** What is put back at the end of the input: the marker without its colon. */
  const InputSuffix: string := ",output"

  /** One entry of the dataset's JSON array: a string, or any other JSON value. */
  datatype Item = Text(text: string) | NonText

  /** One evaluation sample: the text given to the predictor and the text it should produce. */
  datatype Sample = Sample(input: string, expected: string)

  /** `sep` occurs in `s` starting at position `i`. */
  predicate OccursAt(s: string, sep: string, i: int) {
    0 <= i && i + |sep| <= |s| && s[i..i + |sep|] == sep
  }

  /** `sep` occurs nowhere in `s`. */
  predicate Free(s: string, sep: string) {
    forall j :: 0 <= j <= |s| ==> !OccursAt(s, sep, j)
  }

  /** The first position at or after `from` where `sep` occurs, if any (`str.find`). */
  function IndexOf(s: string, sep: string, from: nat): (r: Option<nat>)
    requires from <= |s|
    ensures r.Some? ==> from <= r.value && OccursAt(s, sep, r.value)
    ensures r.Some? ==> forall j :: from <= j < r.value ==> !OccursAt(s, sep, j)
    ensures r.None? ==> forall j :: from <= j ==> !OccursAt(s, sep, j)
    decreases |s| - from
  {
    if from + |sep| > |s| then None
    else if s[from..from + |sep|] == sep then Some(from)
    else IndexOf(s, sep, from + 1)
  }

  /** Python's `s.split(sep)` for a non-empty separator: the pieces between the occurrences. */
  function Split(s: string, sep: string): (pieces: seq<string>)
    requires |sep| > 0
    ensures |pieces| >= 1
    decreases |s|
  {
    match IndexOf(s, sep, 0)
    case None => [s]
    case Some(i) => [s[..i]] + Split(s[i + |sep|..], sep)
  }

  /** `sep.join(pieces)`. */
  function Join(pieces: seq<string>, sep: string): string
    requires |pieces| >= 1
  {
    if |pieces| == 1 then pieces[0] else pieces[0] + sep + Join(pieces[1..], sep)
  }

  /** Joining the pieces with the separator gives back the string that was split. */
  lemma {:induction false} SplitJoin(s: string, sep: string)
    requires |sep| > 0
    ensures Join(Split(s, sep), sep) == s
    decreases |s|
  {
    var found := IndexOf(s, sep, 0);
    if found.Some? {
      var i := found.value;
      var rest := s[i + |sep|..];
      SplitJoin(rest, sep);
      SplitAt(s, sep, i);
      JoinCons(s[..i], Split(rest, sep), sep);
    }
  }

  /** At the first occurrence `i`, the string is its head, the separator and the rest. */
  lemma SplitAt(s: string, sep: string, i: nat)
    requires |sep| > 0 && IndexOf(s, sep, 0) == Some(i)
    ensures Split(s, sep) == [s[..i]] + Split(s[i + |sep|..], sep)
    ensures s == s[..i] + sep + s[i + |sep|..]
  {
    var rest := s[i + |sep|..];
    assert s[i..i + |sep|] == sep;
    PrefixParts(s, i, i + |sep|, |s|);
    assert s[..|s|] == s && s[i + |sep|..|s|] == rest;
  }

  lemma JoinCons(x: string, pieces: seq<string>, sep: string)
    requires |pieces| >= 1
    ensures Join([x] + pieces, sep) == x + sep + Join(pieces, sep)
  {
    assert ([x] + pieces)[1..] == pieces;
  }

  lemma SliceOfPrefix(s: string, i: nat, j: nat, k: nat)
    requires j <= k <= i <= |s|
    ensures s[..i][j..k] == s[j..k]
  {
    assert forall t :: 0 <= t < k - j ==> s[..i][j..k][t] == s[j + t];
  }

  lemma SliceOfSuffix(s: string, d: nat, x: nat, y: nat)
    requires x <= y && d + y <= |s|
    ensures s[d..][x..y] == s[d + x..d + y]
  {
    assert forall t :: 0 <= t < y - x ==> s[d..][x..y][t] == s[d + x + t];
  }

  lemma PrefixParts(s: string, a: nat, b: nat, c: nat)
    requires a <= b <= c <= |s|
    ensures s[..c] == s[..a] + s[a..b] + s[b..c]
  {
  }

  /** A string splits into more than one piece exactly when the separator occurs in it. */
  lemma SplitCount(s: string, sep: string)
    requires |sep| > 0
    ensures |Split(s, sep)| > 1 <==> !Free(s, sep)
  {
    match IndexOf(s, sep, 0)
    case None =>
    case Some(i) =>
  }

  /** No piece of a split contains the separator. */
  lemma {:induction false} SplitPiecesFree(s: string, sep: string)
    requires |sep| > 0
    ensures forall k :: 0 <= k < |Split(s, sep)| ==> Free(Split(s, sep)[k], sep)
    decreases |s|
  {
    match IndexOf(s, sep, 0)
    case None =>
    case Some(i) =>
      var rest := s[i + |sep|..];
      SplitPiecesFree(rest, sep);
      forall j | 0 <= j <= i
        ensures OccursAt(s[..i], sep, j) ==> OccursAt(s, sep, j)
      {
        if j + |sep| <= i {
          SliceOfPrefix(s, i, j, j + |sep|);
        }
      }
      var pieces := Split(s, sep);
      assert forall k :: 1 <= k < |pieces| ==> pieces[k] == Split(rest, sep)[k - 1];
  }

  /** The record contains the marker, so indexing the second piece of its split succeeds. */
  predicate HasMarker(record: string) {
    IndexOf(record, Marker, 0).Some?
  }

  /** The sample built from one string record (lines 83-84). */
  function SampleOf(record: string): Sample
    requires HasMarker(record)
  {
    var pieces := Split(record, Marker);
    Sample(pieces[0] + InputSuffix, pieces[1])
  }

  /**
   * What a sample is, independently of how `split` computes it: the record starts with the
   * input's head (input minus `,output`), the marker and the expected text, neither of which
   * contains the marker; and the expected text runs to the end or up to the next marker.
   */
  lemma SampleOfParts(record: string)
    requires HasMarker(record)
    ensures var sample := SampleOf(record);
      && |sample.input| >= |InputSuffix|
      && var head := sample.input[..|sample.input| - |InputSuffix|];
      && sample.input == head + InputSuffix
      && Free(head, Marker) && Free(sample.expected, Marker)
      && var n := |head| + |Marker| + |sample.expected|;
      && n <= |record| && record[..n] == head + Marker + sample.expected
      && (n == |record| || OccursAt(record, Marker, n))
  {
    var pieces := Split(record, Marker);
    FirstTwoPieces(record, Marker, IndexOf(record, Marker, 0).value);
    SplitPiecesFree(record, Marker);
    assert Free(pieces[0], Marker) && Free(pieces[1], Marker);
    var input := pieces[0] + InputSuffix;
    assert input[..|input| - |InputSuffix|] == pieces[0];
  }

  /**
   * When the separator first occurs at `i`, the first piece is the text before it, and the
   * string up to the end of the second piece is the first piece, the separator and the second
   * piece, followed by the end of the string or by another separator.
   */
  lemma FirstTwoPieces(s: string, sep: string, i: nat)
    requires |sep| > 0 && IndexOf(s, sep, 0) == Some(i)
    ensures |Split(s, sep)| >= 2 && Split(s, sep)[0] == s[..i]
    ensures i + |sep| + |Split(s, sep)[1]| <= |s|
    ensures s[..i + |sep| + |Split(s, sep)[1]|] == s[..i] + sep + Split(s, sep)[1]
    ensures var n := i + |sep| + |Split(s, sep)[1]|; n == |s| || OccursAt(s, sep, n)
  {
    var rest := s[i + |sep|..];
    SplitHeads(s, sep, i);
    FirstPiece(rest, sep);
    PieceLayout(s, sep, i, Split(rest, sep)[0]);
  }

  /** The first two pieces: the text before the first separator, and the first piece after it. */
  lemma SplitHeads(s: string, sep: string, i: nat)
    requires |sep| > 0 && IndexOf(s, sep, 0) == Some(i)
    ensures |Split(s, sep)| >= 2 && Split(s, sep)[0] == s[..i]
    ensures Split(s, sep)[1] == Split(s[i + |sep|..], sep)[0]
    ensures OccursAt(s, sep, i)
  {
  }

  /** A separator at `i` followed by a prefix of the rest that ends at the end or a separator. */
  lemma PieceLayout(s: string, sep: string, i: nat, piece: string)
    requires OccursAt(s, sep, i)
    requires var rest := s[i + |sep|..];
      |piece| <= |rest| && rest[..|piece|] == piece
      && (|piece| == |rest| || OccursAt(rest, sep, |piece|))
    ensures i + |sep| + |piece| <= |s|
    ensures s[..i + |sep| + |piece|] == s[..i] + sep + piece
    ensures var n := i + |sep| + |piece|; n == |s| || OccursAt(s, sep, n)
  {
    var d := i + |sep|;
    var rest := s[d..];
    var m := |piece|;
    SliceOfSuffix(s, d, 0, m);
    assert rest[..m] == rest[0..m];
    assert s[d..d + m] == piece;
    PrefixParts(s, i, d, d + m);
    if m < |rest| {
      SliceOfSuffix(s, d, m, m + |sep|);
      assert s[d + m..d + m + |sep|] == sep;
    }
  }

  /** The first piece of a split is a prefix of the string ending at its end or at a separator. */
  lemma FirstPiece(s: string, sep: string)
    requires |sep| > 0
    ensures var piece := Split(s, sep)[0];
      && |piece| <= |s| && s[..|piece|] == piece
      && (|piece| == |s| || OccursAt(s, sep, |piece|))
  {
  }

  /**
   * A record made of a comma-free head, the marker and a marker-free tail gives the head with
   * `,output` put back as input and the tail as expected output.
   */
  lemma SampleOfSingleMarker(head: string, tail: string)
    requires forall k :: 0 <= k < |head| ==> head[k] != ','
    requires Free(tail, Marker)
    ensures HasMarker(head + Marker + tail)
    ensures SampleOf(head + Marker + tail) == Sample(head + InputSuffix, tail)
  {
    var record := head + Marker + tail;
    assert record[|head|..|head| + |Marker|] == Marker;
    assert OccursAt(record, Marker, |head|);
    forall j | 0 <= j < |head|
      ensures !OccursAt(record, Marker, j)
    {
      if j + |Marker| <= |record| {
        assert record[j..j + |Marker|][0] == head[j] != Marker[0];
      }
    }
    assert IndexOf(record, Marker, 0) == Some(|head|);
    SplitAt(record, Marker, |head|);
    assert record[..|head|] == head && record[|head| + |Marker|..] == tail;
    assert IndexOf(tail, Marker, 0) == None;
    assert Split(record, Marker) == [head, tail];
  }

  /** A worked instance: the re-appended suffix ends the input, the rest is the expected output. */
  lemma SampleOfExample()
    ensures HasMarker("(input:A,output:B)")
    ensures SampleOf("(input:A,output:B)") == Sample("(input:A,output", "B)")
  {
    var head, tail := "(input:A", "B)";
    assert forall k :: 0 <= k < |head| ==> head[k] != ',';
    assert Free(tail, Marker);
    SampleOfSingleMarker(head, tail);
    assert head + Marker + tail == "(input:A,output:B)";
    assert head + InputSuffix == "(input:A,output";
  }

  /**
   * Reference definition of the whole split: the samples of the string records in order,
   * non-string records skipped, and the first string record without a marker aborting all.
   */
  function SplitPairs(data: seq<Item>): Result<seq<Sample>, HarnessError> {
    if data == [] then Ok([])
    else
      match SplitPairs(data[..|data| - 1])
      case Err(e) => Err(e)
      case Ok(samples) =>
        match data[|data| - 1]
        case NonText => Ok(samples)
        case Text(t) => if HasMarker(t) then Ok(samples + [SampleOf(t)]) else Err(MissingMarker(t))
  }

  /** The string records of `data`, in order. */
  function TextRecords(data: seq<Item>): (texts: seq<string>)
    ensures |texts| <= |data|
  {
    if data == [] then []
    else TextRecords(data[..|data| - 1]) + (if data[|data| - 1].Text? then [data[|data| - 1].text] else [])
  }

  /** Every string record carries the marker. */
  predicate AllMarked(data: seq<Item>) {
    forall k :: 0 <= k < |data| && data[k].Text? ==> HasMarker(data[k].text)
  }

  /**
   * The split succeeds exactly when every string record has the marker, and then yields one
   * sample per string record, in order, so never more samples than records.
   */
  lemma {:induction false} SplitPairsOk(data: seq<Item>)
    ensures SplitPairs(data).Ok? <==> AllMarked(data)
    ensures SplitPairs(data).Ok? ==>
      && |SplitPairs(data).value| == |TextRecords(data)| <= |data|
      && forall k :: 0 <= k < |TextRecords(data)| ==>
           HasMarker(TextRecords(data)[k]) && SplitPairs(data).value[k] == SampleOf(TextRecords(data)[k])
    decreases |data|
  {
    if data != [] {
      var init := data[..|data| - 1];
      SplitPairsOk(init);
      assert forall k :: 0 <= k < |init| ==> init[k] == data[k];
      if AllMarked(init) {
        var texts := TextRecords(data);
        assert TextRecords(init) == texts[..|TextRecords(init)|];
      }
    }
  }

  /** When the split fails, it names the first string record that lacks the marker. */
  lemma {:induction false} SplitPairsErr(data: seq<Item>)
    requires SplitPairs(data).Err?
    ensures SplitPairs(data).error.MissingMarker?
    ensures exists k :: (0 <= k < |data| && data[k] == Text(SplitPairs(data).error.record)
                         && !HasMarker(data[k].text) && AllMarked(data[..k]))
    decreases |data|
  {
    var init := data[..|data| - 1];
    SplitPairsOk(init);
    if SplitPairs(init).Err? {
      SplitPairsErr(init);
      var k :| 0 <= k < |init| && init[k] == Text(SplitPairs(init).error.record)
        && !HasMarker(init[k].text) && AllMarked(init[..k]);
      assert data[..k] == init[..k];
    } else {
      assert data[..|data| - 1] == init;
    }
  }

  /** Once a prefix of the records has failed, the whole split fails the same way. */
  lemma {:induction false} SplitPairsErrPersists(data: seq<Item>, i: nat)
    requires i <= |data| && SplitPairs(data[..i]).Err?
    ensures SplitPairs(data) == SplitPairs(data[..i])
    decreases |data| - i
  {
    if i < |data| {
      assert data[..i + 1][..i] == data[..i];
      SplitPairsErrPersists(data, i + 1);
    } else {
      assert data[..i] == data;
    }
  }

  /**
   * `split_input_output`: loops over the records, skipping non-strings (they are only logged)
   * and appending one pair per string; `item.split(",output:")[1]` raises on a record with no
   * marker, which ends the call.
   */
  method SplitInputOutput(data: seq<Item>) returns (r: Result<seq<Sample>, HarnessError>)
    ensures r == SplitPairs(data)
  {
    var pairs: seq<Sample> := [];
    for i := 0 to |data|
      invariant SplitPairs(data[..i]) == Ok(pairs)
    {
      assert data[..i + 1][..i] == data[..i];
      match data[i]
      case Text(t) =>
        var pieces := Split(t, Marker);
        SplitCount(t, Marker);
        if |pieces| < 2 {
          assert SplitPairs(data[..i + 1]) == Err(MissingMarker(t));
          SplitPairsErrPersists(data, i + 1);
          return Err(MissingMarker(t));
        }
        pairs := pairs + [Sample(pieces[0] + InputSuffix, pieces[1])];
      case NonText =>
    }
    assert data[..|data|] == data;
    r := Ok(pairs);
  }
}
