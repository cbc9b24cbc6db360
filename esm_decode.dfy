/** The token-to-string half of the ESM-2 wrapper in `PLMs/src/esm_model.py`.
    The language-model head, the argmax over logits and the id-to-token lookup
    are one abstract function `head`, from the embedding of one batch row to
    its token list. */
module EsmDecode {
  import opened Common

  type Token = string

  /** The structural markers the decoder strips. */
  predicate IsSpecial(t: Token)
    ensures IsSpecial(t) ==> |t| == 5 && t[0] == '<' && t[4] == '>'
    ensures |t| == 1 ==> !IsSpecial(t)
  {
    t == "<cls>" || t == "<eos>" || t == "<pad>"
  }

  /** `remove_special_tokens`: every token that is not a structural marker, in order. */
  function RemoveSpecialTokens(tokens: seq<Token>): (r: seq<Token>)
    ensures |r| <= |tokens|
    ensures forall i :: 0 <= i < |r| ==> !IsSpecial(r[i])
    ensures forall t :: t in r <==> t in tokens && !IsSpecial(t)
  {
    if tokens == [] then []
    else (if IsSpecial(tokens[0]) then [] else [tokens[0]]) + RemoveSpecialTokens(tokens[1..])
  }

  /** The filter works token by token: it distributes over concatenation.
      With the one-token case this pins it down as the order-preserving filter. */
  lemma {:induction false} RemoveAppend(a: seq<Token>, b: seq<Token>)
    ensures RemoveSpecialTokens(a + b) == RemoveSpecialTokens(a) + RemoveSpecialTokens(b)
  {
    if a == [] {
      assert a + b == b;
    } else {
      assert (a + b)[0] == a[0];
      assert (a + b)[1..] == a[1..] + b;
      RemoveAppend(a[1..], b);
    }
  }

  /** Each token is kept exactly as many times as it occurs, unless it is special. */
  lemma {:induction false} RemoveCounts(tokens: seq<Token>, t: Token)
    ensures multiset(RemoveSpecialTokens(tokens))[t] == if IsSpecial(t) then 0 else multiset(tokens)[t]
  {
    if tokens != [] {
      var head := if IsSpecial(tokens[0]) then [] else [tokens[0]];
      RemoveCounts(tokens[1..], t);
      assert RemoveSpecialTokens(tokens) == head + RemoveSpecialTokens(tokens[1..]);
      assert multiset(tokens) == multiset([tokens[0]]) + multiset(tokens[1..]) by {
        assert tokens == [tokens[0]] + tokens[1..];
      }
    }
  }

  /** A list without structural markers comes back unchanged. */
  lemma {:induction false} RemoveUnchanged(tokens: seq<Token>)
    requires forall i :: 0 <= i < |tokens| ==> !IsSpecial(tokens[i])
    ensures RemoveSpecialTokens(tokens) == tokens
  {
    if tokens != [] {
      RemoveUnchanged(tokens[1..]);
    }
  }

  /** Filtering twice is filtering once. */
  lemma RemoveIdempotent(tokens: seq<Token>)
    ensures RemoveSpecialTokens(RemoveSpecialTokens(tokens)) == RemoveSpecialTokens(tokens)
  {
    RemoveUnchanged(RemoveSpecialTokens(tokens));
  }

  /** One batch row turned into text: drop the markers, join the rest. */
  function Detokenize(tokens: seq<Token>): (r: string)
    ensures (forall i :: 0 <= i < |tokens| ==> IsSpecial(tokens[i])) ==> r == ""
  {
    var kept := RemoveSpecialTokens(tokens);
    assert (forall i :: 0 <= i < |tokens| ==> IsSpecial(tokens[i])) ==> kept == [] by {
      if kept != [] {
        assert kept[0] in kept;
      }
    }
    Concat(kept)
  }

  /** A marker anywhere in a row contributes nothing to the text, and any other
      token contributes itself at its own place. */
  lemma DetokenizeSplit(a: seq<Token>, t: Token, b: seq<Token>)
    ensures Detokenize(a + [t] + b) == Detokenize(a) + (if IsSpecial(t) then "" else t) + Detokenize(b)
  {
    RemoveAppend(a + [t], b);
    RemoveAppend(a, [t]);
    assert RemoveSpecialTokens([t]) == if IsSpecial(t) then [] else [t];
    ConcatAppend(RemoveSpecialTokens(a) + RemoveSpecialTokens([t]), RemoveSpecialTokens(b));
    ConcatAppend(RemoveSpecialTokens(a), RemoveSpecialTokens([t]));
    assert Concat([t]) == Concat([]) + t;
  }

  /** The example of a decoder output framed by markers. */
  lemma DetokenizeExample()
    ensures Detokenize(["<cls>", "M", "K", "<eos>"]) == "MK"
  {
    var row: seq<Token> := ["<cls>", "M", "K", "<eos>"];
    assert RemoveSpecialTokens(row[3..]) == [];
    assert RemoveSpecialTokens(row[2..]) == ["K"];
    assert RemoveSpecialTokens(row[1..]) == ["M", "K"];
    assert RemoveSpecialTokens(row) == ["M", "K"];
    assert Concat(["M", "K"]) == Concat(["M"]) + "K";
    assert Concat(["M"]) == Concat([]) + "M";
  }

  /** `ESM2.decode`: the text of batch row 0; an empty batch has no row 0
      (the source raises an index error there). */
  function Decode<E>(head: E -> seq<Token>, batch: seq<E>): (r: Option<string>)
    ensures r.None? <==> |batch| == 0
    ensures r.Some? ==> r.value == Detokenize(head(batch[0]))
  {
    if |batch| == 0 then None else Some(Detokenize(head(batch[0])))
  }

  /** `ESM2.batch_decode` with `detokenized=True`: one string per batch row,
      in row order, each built as `decode` builds row 0. */
  method BatchDecode<E>(head: E -> seq<Token>, batch: seq<E>) returns (decoded: seq<string>)
    ensures |decoded| == |batch|
    ensures forall i :: 0 <= i < |batch| ==> decoded[i] == Detokenize(head(batch[i]))
    ensures |batch| > 0 ==> Decode(head, batch) == Some(decoded[0])
  {
    decoded := [];
    for i := 0 to |batch|
      invariant |decoded| == i
      invariant forall j :: 0 <= j < i ==> decoded[j] == Detokenize(head(batch[j]))
    {
      var tokens := head(batch[i]);
      tokens := RemoveSpecialTokens(tokens);
      var decodedSequence := Concat(tokens);
      decoded := decoded + [decodedSequence];
    }
  }
}
