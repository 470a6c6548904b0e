/**
 * Token trees as the derive macro builds them (the proc_macro2 model):
 * identifiers, punctuation with its spacing, the two kinds of literal
 * the macro emits, and delimited groups. Also the comma-separated
 * repetition that `quote!`'s `#(#items),*` produces, with its inverse.
 */
module TokenTrees {

  /** `Joint` when the punctuation is glued to the next one (the `=` of `=>`). */
  datatype Spacing = Alone | Joint

  datatype Delimiter = Parenthesis | Brace | Bracket | NoDelimiter

  datatype Token =
    | Ident(name: string)
    | Punct(ch: char, spacing: Spacing)
      /** `Literal::usize_unsuffixed`: an integer literal without a type suffix. */
    | UsizeLit(value: nat)
      /** `Literal::string`: a string literal; its escaping is not modelled. */
    | StrLit(text: string)
    | Group(delimiter: Delimiter, stream: seq<Token>)

  /** The separator `quote!` puts between repeated items. */
  const Comma: Token := Punct(',', Alone)

  predicate IsComma(t: Token) {
    t.Punct? && t.ch == ','
  }

  /** No comma at the top level of `ts` (commas nested inside groups do not count). */
  predicate CommaFree(ts: seq<Token>) {
    forall i :: 0 <= i < |ts| ==> !IsComma(ts[i])
  }

  function CommaCount(ts: seq<Token>): nat {
    if ts == [] then 0 else (if IsComma(ts[0]) then 1 else 0) + CommaCount(ts[1..])
  }

  /** The tokens of `#(#items),*`: the items in order, a comma between each two, none at the end. */
  function Join(items: seq<seq<Token>>): (r: seq<Token>)
    ensures items == [] ==> r == []
    ensures items != [] ==> |r| >= |items[0]| && r[..|items[0]|] == items[0]
    ensures |items| > 1 ==> |r| > |items[0]| && r[|items[0]|] == Comma
  {
    if |items| == 0 then []
    else if |items| == 1 then items[0]
    else items[0] + [Comma] + Join(items[1..])
  }

  /** Index of the first top-level comma, or `|ts|` when there is none. */
  function FirstComma(ts: seq<Token>): (k: nat)
    ensures k <= |ts|
    ensures k < |ts| ==> IsComma(ts[k])
    ensures forall i :: 0 <= i < k ==> !IsComma(ts[i])
  {
    if ts == [] then 0
    else if IsComma(ts[0]) then 0
    else 1 + FirstComma(ts[1..])
  }

  /** Cuts a token sequence at its top-level commas: the pieces a Rust parser sees between them. */
  function SplitAtCommas(ts: seq<Token>): (r: seq<seq<Token>>)
    decreases |ts|
  {
    var k := FirstComma(ts);
    if k == |ts| then [ts] else [ts[..k]] + SplitAtCommas(ts[k + 1..])
  }

  /** The comma-separated items of `ts`; no tokens means no items. */
  function Items(ts: seq<Token>): seq<seq<Token>> {
    if ts == [] then [] else SplitAtCommas(ts)
  }

  lemma CommaCountAppend(a: seq<Token>, b: seq<Token>)
    ensures CommaCount(a + b) == CommaCount(a) + CommaCount(b)
  {
    if a != [] {
      assert (a + b)[1..] == a[1..] + b;
      CommaCountAppend(a[1..], b);
    } else {
      assert a + b == b;
    }
  }

  lemma {:induction false} CommaFreeCount(ts: seq<Token>)
    requires CommaFree(ts)
    ensures CommaCount(ts) == 0
  {
    if ts != [] {
      CommaFreeCount(ts[1..]);
    }
  }

  lemma FirstCommaOfJoin(a: seq<Token>, rest: seq<Token>)
    requires CommaFree(a)
    ensures FirstComma(a + [Comma] + rest) == |a|
  {
    if a != [] {
      assert (a + [Comma] + rest)[1..] == a[1..] + [Comma] + rest;
      FirstCommaOfJoin(a[1..], rest);
    }
  }

  /** Reading a joined repetition back at its commas gives the same items, in the same order. */
  lemma {:induction false} SplitJoin(items: seq<seq<Token>>)
    requires items != []
    requires forall i :: 0 <= i < |items| ==> CommaFree(items[i])
    ensures SplitAtCommas(Join(items)) == items
  {
    if |items| == 1 {
      assert FirstComma(items[0]) == |items[0]|;
    } else {
      var j := Join(items);
      FirstCommaOfJoin(items[0], Join(items[1..]));
      assert j[..|items[0]|] == items[0];
      assert j[|items[0]| + 1..] == Join(items[1..]);
      SplitJoin(items[1..]);
    }
  }

  /** `n` items are joined by exactly `n - 1` commas: none before the first, none after the last. */
  lemma {:induction false} JoinCommaCount(items: seq<seq<Token>>)
    requires items != []
    requires forall i :: 0 <= i < |items| ==> CommaFree(items[i])
    ensures CommaCount(Join(items)) == |items| - 1
  {
    CommaFreeCount(items[0]);
    if |items| > 1 {
      JoinCommaCount(items[1..]);
      CommaCountAppend(items[0], [Comma]);
      CommaCountAppend(items[0] + [Comma], Join(items[1..]));
    }
  }

  /** The last token of a non-empty repetition is the last token of its last item, never a comma. */
  lemma {:induction false} JoinEnd(items: seq<seq<Token>>)
    requires items != [] && items[|items| - 1] != []
    ensures Join(items) != []
    ensures Join(items)[|Join(items)| - 1] == items[|items| - 1][|items[|items| - 1]| - 1]
  {
    if |items| > 1 {
      JoinEnd(items[1..]);
    }
  }

  /** A token stream that `ToTokens` implementations append to in place. */
  class TokenStream {
    var trees: seq<Token>

    constructor ()
      ensures trees == []
    {
      trees := [];
    }

    method Append(t: Token)
      modifies this
      ensures trees == old(trees) + [t]
    {
      trees := trees + [t];
    }
  }
}
