/** The `join` helper of the curl generators: the command-line tokens are
    concatenated with a caller-chosen delimiter between adjacent tokens. */
module Joining {

  /** `CurlInterceptor.Delimiter.EMPTY_SPACE`: a one-line command. */
  const EMPTY_SPACE: string := " "
  /** `CurlInterceptor.Delimiter.BACKSLASH_NEW_LINE`: one token per line, each
      line but the last ending in a shell line continuation. */
  const BACKSLASH_NEW_LINE: string := " \\\n"

  /** The joined text, defined the way the loop builds it: left to right. */
  function Join(delimiter: string, tokens: seq<string>): string
    decreases |tokens|
  {
    if |tokens| == 0 then ""
    else if |tokens| == 1 then tokens[0]
    else Join(delimiter, tokens[..|tokens| - 1]) + delimiter + tokens[|tokens| - 1]
  }

  /** Sum of the token lengths. */
  function TotalLength(tokens: seq<string>): nat
    decreases |tokens|
  {
    if |tokens| == 0 then 0 else TotalLength(tokens[..|tokens| - 1]) + |tokens[|tokens| - 1]|
  }

  /** The position at which token `i` starts in the joined text: every earlier
      token is followed by exactly one delimiter. */
  function Offset(delimiter: string, tokens: seq<string>, i: nat): nat
    requires i <= |tokens|
  {
    if i == 0 then 0 else Offset(delimiter, tokens, i - 1) + |tokens[i - 1]| + |delimiter|
  }

  /** Joining adds exactly `n - 1` delimiters to the `n` tokens. */
  lemma {:induction false} JoinLength(delimiter: string, tokens: seq<string>)
    requires tokens != []
    ensures |Join(delimiter, tokens)| == TotalLength(tokens) + (|tokens| - 1) * |delimiter|
  {
    if |tokens| > 1 {
      JoinLength(delimiter, tokens[..|tokens| - 1]);
      assert tokens[..|tokens| - 1][..|tokens| - 2] == tokens[..|tokens| - 2];
      assert (|tokens| - 1) * |delimiter| == (|tokens| - 2) * |delimiter| + |delimiter|;
    }
  }

  /** The first `i` tokens, joined, end one delimiter short of `Offset(i)`. */
  lemma {:induction false} JoinPrefixLength(delimiter: string, tokens: seq<string>, i: nat)
    requires 0 < i <= |tokens|
    ensures |Join(delimiter, tokens[..i])| + |delimiter| == Offset(delimiter, tokens, i)
  {
    if i > 1 {
      JoinPrefixLength(delimiter, tokens, i - 1);
      assert tokens[..i][..i - 1] == tokens[..i - 1];
    }
  }

  /** Token `i` sits at `Offset(i)`; it is followed by exactly one delimiter and
      then by token `i + 1`, or it ends the text when it is the last token. So
      nothing precedes the first token and nothing follows the last. */
  lemma {:induction false} JoinLayout(delimiter: string, tokens: seq<string>, i: nat)
    requires i < |tokens|
    ensures Offset(delimiter, tokens, i) + |tokens[i]| <= |Join(delimiter, tokens)|
    ensures Join(delimiter, tokens)[Offset(delimiter, tokens, i)..Offset(delimiter, tokens, i) + |tokens[i]|] == tokens[i]
    ensures i + 1 < |tokens| ==>
      Offset(delimiter, tokens, i + 1) <= |Join(delimiter, tokens)| &&
      Join(delimiter, tokens)[Offset(delimiter, tokens, i) + |tokens[i]|..Offset(delimiter, tokens, i + 1)] == delimiter
    ensures i + 1 == |tokens| ==> Offset(delimiter, tokens, i) + |tokens[i]| == |Join(delimiter, tokens)|
  {
    var o := Offset(delimiter, tokens, i);
    var upTo := Join(delimiter, tokens[..i + 1]);
    // `upTo` ends with token `i`, which starts at `o`
    if i == 0 {
      assert upTo == tokens[0];
    } else {
      assert tokens[..i + 1][..i] == tokens[..i];
      assert upTo == Join(delimiter, tokens[..i]) + delimiter + tokens[i];
      JoinPrefixLength(delimiter, tokens, i);
    }
    assert |upTo| == o + |tokens[i]| && upTo[o..] == tokens[i];
    if i + 1 == |tokens| {
      assert tokens[..i + 1] == tokens;
    } else {
      var rest := tokens[i + 1..];
      assert tokens == tokens[..i + 1] + rest;
      JoinConcat(delimiter, tokens[..i + 1], rest);
      JoinPrefixLength(delimiter, tokens, i + 1);
      var whole := Join(delimiter, tokens);
      assert whole == upTo + delimiter + Join(delimiter, rest);
      assert whole[o..o + |tokens[i]|] == upTo[o..];
      assert whole[o + |tokens[i]|..Offset(delimiter, tokens, i + 1)] == delimiter;
    }
  }

  /** A token list cut in two joins to the two halves with one delimiter between. */
  lemma {:induction false} JoinConcat(delimiter: string, a: seq<string>, b: seq<string>)
    requires a != [] && b != []
    ensures Join(delimiter, a + b) == Join(delimiter, a) + delimiter + Join(delimiter, b)
    decreases |b|
  {
    var ab := a + b;
    if |b| == 1 {
      assert ab[..|ab| - 1] == a;
    } else {
      var b' := b[..|b| - 1];
      assert ab[..|ab| - 1] == a + b';
      JoinConcat(delimiter, a, b');
    }
  }

  /** Appending one token adds the delimiter and the token at the end. */
  lemma JoinSnoc(delimiter: string, tokens: seq<string>, token: string)
    requires tokens != []
    ensures Join(delimiter, tokens + [token]) == Join(delimiter, tokens) + delimiter + token
  {
    assert (tokens + [token])[..|tokens|] == tokens;
  }

  /** The joined text starts with the first two tokens, each followed by the
      delimiter, and ends with the delimiter and the last token. */
  lemma {:induction false} JoinFrame(delimiter: string, tokens: seq<string>)
    requires |tokens| >= 3
    ensures tokens[0] + delimiter + tokens[1] + delimiter <= Join(delimiter, tokens)
    ensures var text := Join(delimiter, tokens);
            var tail := delimiter + tokens[|tokens| - 1];
            |tail| <= |text| && text[|text| - |tail|..] == tail
  {
    var rest := tokens[2..];
    assert tokens == [tokens[0]] + ([tokens[1]] + rest);
    JoinConcat(delimiter, [tokens[0]], [tokens[1]] + rest);
    JoinConcat(delimiter, [tokens[1]], rest);
    assert Join(delimiter, tokens)
        == (tokens[0] + delimiter + tokens[1] + delimiter) + Join(delimiter, rest);
    var init := tokens[..|tokens| - 1];
    assert tokens == init + [tokens[|tokens| - 1]];
    JoinSnoc(delimiter, init, tokens[|tokens| - 1]);
  }

  /** The `join` loop: a string builder, and a `firstTime` flag that keeps the
      delimiter out of the front. */
  method JoinTokens(delimiter: string, tokens: seq<string>) returns (s: string)
    ensures s == Join(delimiter, tokens)
  {
    var sb := "";
    var firstTime := true;
    var i := 0;
    while i < |tokens|
      invariant 0 <= i <= |tokens|
      invariant firstTime <==> i == 0
      invariant sb == Join(delimiter, tokens[..i])
    {
      if firstTime {
        firstTime := false;
      } else {
        sb := sb + delimiter;
      }
      sb := sb + tokens[i];
      assert tokens[..i + 1][..i] == tokens[..i];
      i := i + 1;
    }
    assert tokens[..|tokens|] == tokens;
    s := sb;
  }
}
