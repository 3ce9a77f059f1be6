/**
 * The fixed vocabulary of the bracket-completion harness (modules/evaluate.py, lines 28-30):
 * nine tokens, numbered 1..9 in list order.  Id 0 is the padding id and names no token.
 */
module Vocabulary {

  /** The literal ordered token list; a token's id is its position plus one. */
  const Tokens: seq<string> := ["(", ")", "【", "】", "{", "}", "input", ",output", ","]

  /** Id used for padding; never assigned to a token. */
  const PadId: int := 0

  /** The `token2id` dictionary, built from the list by enumeration. */
  function TokenToId(): map<string, int> {
    map i | 0 <= i < |Tokens| :: Tokens[i] := i + 1
  }

  /** The token listed at position `id - 1`. */
  function ListedToken(id: int): string
    requires 1 <= id <= |Tokens|
  {
    Tokens[id - 1]
  }

  /** The `id2token` dictionary, built from the list by enumeration. */
  function IdToToken(): map<int, string> {
    map id | 1 <= id <= |Tokens| :: ListedToken(id)
  }

  /**
   * The characters that are vocabulary tokens on their own. The scanner tests
   * `char in token2id`; `SingleCharTokens` shows that test is membership in this set.
   */
  const TokenChars: set<char> := {'(', ')', '【', '】', '{', '}', ','}

  /** No token occurs twice in the list, so neither dictionary loses an entry. */
  lemma TokensDistinct()
    ensures forall i, j :: 0 <= i < j < |Tokens| ==> Tokens[i] != Tokens[j]
  {
    forall i, j | 0 <= i < j < |Tokens|
      ensures Tokens[i] != Tokens[j]
    {
      if |Tokens[i]| == |Tokens[j]| {
        assert Tokens[i][0] != Tokens[j][0];
      }
    }
  }

  /** Ids are exactly 1..9, assigned in list order; the padding id 0 names no token. */
  lemma IdsAreListPositions()
    ensures |Tokens| == 9
    ensures TokenToId().Keys == set t | t in Tokens
    ensures forall i :: 0 <= i < |Tokens| ==> Tokens[i] in TokenToId() && TokenToId()[Tokens[i]] == i + 1
    ensures forall id :: id in IdToToken() <==> 1 <= id <= 9
    ensures forall id :: id in IdToToken() ==> IdToToken()[id] == Tokens[id - 1]
    ensures PadId !in IdToToken()
  {
    TokensDistinct();
  }

  /** `token2id` and `id2token` are inverse bijections between the nine tokens and 1..9. */
  lemma MapsAreInverse()
    ensures forall t :: t in TokenToId() ==> TokenToId()[t] in IdToToken() && IdToToken()[TokenToId()[t]] == t
    ensures forall id :: id in IdToToken() ==> IdToToken()[id] in TokenToId() && TokenToId()[IdToToken()[id]] == id
  {
    IdsAreListPositions();
  }

  /** A one-character string is a key of `token2id` exactly when its character is in `TokenChars`. */
  lemma SingleCharTokens(c: char)
    ensures c in TokenChars <==> [c] in TokenToId()
  {
    IdsAreListPositions();
    if [c] in TokenToId() {
      var i :| 0 <= i < |Tokens| && Tokens[i] == [c];
      assert c == Tokens[i][0];
    } else {
      assert [','] == Tokens[8];
      assert ['('] == Tokens[0] && [')'] == Tokens[1] && ['【'] == Tokens[2] && ['】'] == Tokens[3];
      assert ['{'] == Tokens[4] && ['}'] == Tokens[5];
    }
  }

  /** Every id `token2id` hands out is a real id in 1..9, and only `,output` gets id 8. */
  lemma TokenIdsInRange()
    ensures forall t :: t in TokenToId() ==> 1 <= TokenToId()[t] <= |Tokens|
    ensures forall t :: t in TokenToId() && TokenToId()[t] == 8 ==> t == ",output"
  {
    MapsAreInverse();
    IdsAreListPositions();
  }

  /** The bare word `output` is not a token: only `,output` is. */
  lemma OutputWordNotAToken()
    ensures "output" !in TokenToId()
  {
    assert forall i :: 0 <= i < |Tokens| ==> |Tokens[i]| != |"output"|;
  }
}
