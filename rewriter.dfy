/** The effect of the token-stream rewriter the update pass edits through: the text of a
    file is the concatenation of its tokens, a range replacement puts the new text in the
    first token of the range and empties the rest, and an insertion after a token appends to
    that token's text. */
module Rewriter {

  /** The rendered text of a token sequence. */
  function Text(tokens: seq<string>): string {
    if tokens == [] then "" else tokens[0] + Text(tokens[1..])
  }

  lemma {:induction false} TextAppend(a: seq<string>, b: seq<string>)
    ensures Text(a + b) == Text(a) + Text(b)
  {
    if a != [] {
      assert (a + b)[1..] == a[1..] + b;
      TextAppend(a[1..], b);
    } else {
      assert a + b == b;
    }
  }

  lemma {:induction false} TextBlank(tokens: seq<string>)
    requires forall k :: 0 <= k < |tokens| ==> tokens[k] == ""
    ensures Text(tokens) == ""
  {
    if tokens != [] {
      TextBlank(tokens[1..]);
    }
  }

  /** The tokens after `replaceRange(from, to, text)`. */
  function Replaced(tokens: seq<string>, from: nat, to: nat, text: string): (r: seq<string>)
    requires from <= to < |tokens|
    ensures |r| == |tokens|
  {
    seq(|tokens|, j requires 0 <= j < |tokens| =>
      if j == from then text else if from < j <= to then "" else tokens[j])
  }

  /** The tokens after `insertAfter(index, text)`. */
  function Inserted(tokens: seq<string>, index: nat, text: string): (r: seq<string>)
    requires index < |tokens|
    ensures |r| == |tokens|
  {
    tokens[index := tokens[index] + text]
  }

  /** A range replacement renders as the text before the range, the new text, and the text
      after the range: the replaced tokens are gone and nothing else moves. */
  lemma ReplacedText(tokens: seq<string>, from: nat, to: nat, text: string)
    requires from <= to < |tokens|
    ensures Text(Replaced(tokens, from, to, text)) == Text(tokens[..from]) + text + Text(tokens[to + 1..])
  {
    var r := Replaced(tokens, from, to, text);
    var blanks := r[from + 1..to + 1];
    assert r == tokens[..from] + [text] + blanks + tokens[to + 1..];
    TextBlank(blanks);
    TextAppend(tokens[..from] + [text] + blanks, tokens[to + 1..]);
    TextAppend(tokens[..from] + [text], blanks);
    TextAppend(tokens[..from], [text]);
    assert Text([text]) == text by {
      assert [text][1..] == [];
    }
  }

  /** An insertion renders as the text up to and including the token, the new text, and the
      rest. */
  lemma InsertedText(tokens: seq<string>, index: nat, text: string)
    requires index < |tokens|
    ensures Text(Inserted(tokens, index, text)) == Text(tokens[..index + 1]) + text + Text(tokens[index + 1..])
  {
    var r := Inserted(tokens, index, text);
    assert r == tokens[..index] + [tokens[index] + text] + tokens[index + 1..];
    assert tokens[..index + 1] == tokens[..index] + [tokens[index]];
    TextAppend(tokens[..index] + [tokens[index] + text], tokens[index + 1..]);
    TextAppend(tokens[..index], [tokens[index] + text]);
    TextAppend(tokens[..index], [tokens[index]]);
    assert [tokens[index] + text][1..] == [] && [tokens[index]][1..] == [];
  }

  /** The rewriter over the token stream of one build file. */
  class TokenRewriter {
    const tokens: array<string>

    constructor (source: seq<string>)
      ensures tokens[..] == source && fresh(tokens)
    {
      tokens := new string[|source|](j requires 0 <= j < |source| => source[j]);
    }

    /** `replaceRange(from, to, text)` */
    method ReplaceRange(from: nat, to: nat, text: string)
      requires from <= to < tokens.Length
      modifies tokens
      ensures tokens[..] == Replaced(old(tokens[..]), from, to, text)
    {
      tokens[from] := text;
      var k := from + 1;
      while k <= to
        invariant from + 1 <= k <= to + 1
        invariant forall j :: 0 <= j < tokens.Length ==>
          tokens[j] == if j == from then text else if from < j < k then "" else old(tokens[j])
      {
        tokens[k] := "";
        k := k + 1;
      }
    }

    /** `insertAfter(index, text)` */
    method InsertAfter(index: nat, text: string)
      requires index < tokens.Length
      modifies tokens
      ensures tokens[..] == Inserted(old(tokens[..]), index, text)
    {
      tokens[index] := tokens[index] + text;
    }
  }
}
