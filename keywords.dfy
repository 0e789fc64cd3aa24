/** The keyword registry of the controller: how the text typed into the
    keyword field becomes keywords (`textFieldDidEndEditing`), and the text
    `displayKeywords` builds from them. */
module Keywords {
  import opened Text

  /** The normal form of one comma-separated piece: trimmed of whitespace
      and newlines, then lower-cased. */
  function Normalize(piece: string): (r: string)
    ensures |r| <= |piece|
  {
    Lower(Trim(piece))
  }

  /** What a stored keyword looks like: not empty, no comma, no whitespace
      at either end, no upper-case letter. */
  predicate IsKeyword(k: string) {
    && k != []
    && ',' !in k
    && !IsWhitespace(k[0])
    && !IsWhitespace(k[|k| - 1])
    && forall i :: 0 <= i < |k| ==> !IsUpper(k[i])
  }

  predicate NoDuplicates<T(==)>(s: seq<T>) {
    forall i, j :: 0 <= i < j < |s| ==> s[i] != s[j]
  }

  /** The invariant of `arrayWithAllTheKeywords`: keywords only, none twice. */
  predicate ValidKeywords(keywords: seq<string>) {
    && NoDuplicates(keywords)
    && forall i :: 0 <= i < |keywords| ==> IsKeyword(keywords[i])
  }

  /** A piece normalizes to the empty string exactly when it is all
      whitespace. */
  lemma NormalizeEmpty(piece: string)
    ensures Normalize(piece) == [] <==> forall i :: 0 <= i < |piece| ==> IsWhitespace(piece[i])
  {
    TrimProperties(piece);
  }

  /** The normal form of a non-blank piece without a comma is a keyword. */
  lemma NormalizeIsKeyword(piece: string)
    requires ',' !in piece
    requires Normalize(piece) != []
    ensures IsKeyword(Normalize(piece))
  {
    TrimEnds(piece);
    TrimKeepsOut(piece, ',');
    LowerIsKeyword(Trim(piece));
  }

  /** Lower-casing a non-empty string without a comma or whitespace at
      either end gives a keyword. */
  lemma LowerIsKeyword(t: string)
    requires t != [] && ',' !in t
    requires !IsWhitespace(t[0]) && !IsWhitespace(t[|t| - 1])
    ensures IsKeyword(Lower(t))
  {
    var k := Lower(t);
    LowerKeepsOut(t, ',');
    assert k[0] == LowerChar(t[0]) && k[|k| - 1] == LowerChar(t[|t| - 1]);
  }

  /** Normalizing a keyword gives the keyword back. */
  lemma NormalizeKeyword(k: string)
    requires IsKeyword(k)
    ensures Normalize(k) == k
  {
    TrimFixed(k);
    assert Lower(k) == k;
  }

  /** The normal forms of the pieces, position by position. */
  function Tokens(pieces: seq<string>): (tokens: seq<string>)
    ensures |tokens| == |pieces|
    ensures forall i :: 0 <= i < |pieces| ==> tokens[i] == Normalize(pieces[i])
  {
    seq(|pieces|, i requires 0 <= i < |pieces| => Normalize(pieces[i]))
  }

  /** Pieces without a comma give tokens that are empty or keywords. */
  lemma TokensAreKeywords(pieces: seq<string>)
    requires forall i :: 0 <= i < |pieces| ==> ',' !in pieces[i]
    ensures forall i :: 0 <= i < |pieces| ==> Tokens(pieces)[i] == [] || IsKeyword(Tokens(pieces)[i])
  {
    forall i | 0 <= i < |pieces|
      ensures Tokens(pieces)[i] == [] || IsKeyword(Tokens(pieces)[i])
    {
      if Normalize(pieces[i]) != [] {
        NormalizeIsKeyword(pieces[i]);
      }
    }
  }

  /** One pass of the loop in `textFieldDidEndEditing`: the token is
      appended unless it is empty or already registered. */
  function AddToken(keywords: seq<string>, token: string): (r: seq<string>)
    ensures r == keywords || (r == keywords + [token] && token != [] && token !in keywords)
  {
    if token == [] || token in keywords then keywords else keywords + [token]
  }

  /** The whole loop: the tokens are added one after the other. */
  function AddTokens(keywords: seq<string>, tokens: seq<string>): (r: seq<string>)
    ensures |keywords| <= |r| <= |keywords| + |tokens|
  {
    if tokens == [] then keywords
    else AddToken(AddTokens(keywords, tokens[..|tokens| - 1]), tokens[|tokens| - 1])
  }

  /** Adding tokens that are empty or keywords keeps the registry free of
      duplicates and of empty or unnormalized entries. */
  lemma {:induction false} AddTokensValid(keywords: seq<string>, tokens: seq<string>)
    requires ValidKeywords(keywords)
    requires forall i :: 0 <= i < |tokens| ==> tokens[i] == [] || IsKeyword(tokens[i])
    ensures ValidKeywords(AddTokens(keywords, tokens))
  {
    if tokens != [] {
      AddTokensValid(keywords, tokens[..|tokens| - 1]);
    }
  }

  /** Adding tokens only appends: the old registry is a prefix of the new. */
  lemma {:induction false} AddTokensExtends(keywords: seq<string>, tokens: seq<string>)
    ensures keywords <= AddTokens(keywords, tokens)
  {
    if tokens != [] {
      AddTokensExtends(keywords, tokens[..|tokens| - 1]);
    }
  }

  /** Every appended keyword is one of the tokens. */
  lemma {:induction false} AddTokensFrom(keywords: seq<string>, tokens: seq<string>)
    ensures var added := AddTokens(keywords, tokens);
      forall j :: |keywords| <= j < |added| ==> added[j] in tokens
  {
    if tokens != [] {
      var init := tokens[..|tokens| - 1];
      AddTokensFrom(keywords, init);
      AddTokensExtends(keywords, init);
      assert forall t :: t in init ==> t in tokens;
    }
  }

  /** Every non-empty token is registered afterwards. */
  lemma {:induction false} AddTokensComplete(keywords: seq<string>, tokens: seq<string>)
    ensures forall t :: t in tokens && t != [] ==> t in AddTokens(keywords, tokens)
  {
    if tokens != [] {
      var init := tokens[..|tokens| - 1];
      AddTokensComplete(keywords, init);
      AddTokensExtends(AddTokens(keywords, init), [tokens[|tokens| - 1]]);
      assert tokens == init + [tokens[|tokens| - 1]];
    }
  }

  /** The registry is left as it was exactly when every token is empty or
      already registered. */
  lemma {:induction false} AddTokensUnchanged(keywords: seq<string>, tokens: seq<string>)
    ensures AddTokens(keywords, tokens) == keywords <==>
      forall t :: t in tokens ==> t == [] || t in keywords
  {
    if tokens != [] {
      var init := tokens[..|tokens| - 1];
      var last := tokens[|tokens| - 1];
      assert tokens == init + [last];
      AddTokensUnchanged(keywords, init);
      AddTokensExtends(keywords, init);
      if AddTokens(keywords, tokens) == keywords {
        AddTokensComplete(keywords, tokens);
      }
    }
  }

  /** The position of the first occurrence of `k` in `tokens`, or the number
      of tokens when there is none. */
  function FirstIndex(tokens: seq<string>, k: string): (f: nat)
    ensures f <= |tokens|
    ensures f < |tokens| ==> tokens[f] == k
    ensures forall i :: 0 <= i < f ==> tokens[i] != k
  {
    if tokens == [] then 0
    else
      var f := FirstIndex(tokens[..|tokens| - 1], k);
      if f < |tokens| - 1 || tokens[|tokens| - 1] == k then f else |tokens|
  }

  /** Appended keywords come in the order in which they first occur among
      the tokens. */
  lemma {:induction false} AddTokensOrder(keywords: seq<string>, tokens: seq<string>)
    ensures var added := AddTokens(keywords, tokens);
      forall a, b :: |keywords| <= a < b < |added| ==>
        FirstIndex(tokens, added[a]) < FirstIndex(tokens, added[b])
  {
    if tokens != [] {
      var init := tokens[..|tokens| - 1];
      var before := AddTokens(keywords, init);
      AddTokensOrder(keywords, init);
      AddTokensFrom(keywords, init);
      AddTokensComplete(keywords, init);
      AddTokensExtends(keywords, init);
      forall j | |keywords| <= j < |before|
        ensures FirstIndex(tokens, before[j]) == FirstIndex(init, before[j]) < |init|
      {
        var i :| 0 <= i < |init| && init[i] == before[j];
      }
      var added := AddTokens(keywords, tokens);
      if |added| > |before| {
        var k := tokens[|tokens| - 1];
        assert added == before + [k];
        assert k !in init;
      }
    }
  }

  /** Adding the tokens up to position `i` inclusive adds the token at `i`
      last. */
  lemma AddTokensStep(keywords: seq<string>, tokens: seq<string>, i: nat)
    requires i < |tokens|
    ensures AddTokens(keywords, tokens[..i + 1]) == AddToken(AddTokens(keywords, tokens[..i]), tokens[i])
  {
    assert tokens[..i + 1][..i] == tokens[..i];
  }

  /** A token entered three times is registered once. */
  lemma AddTokensRepeated(tokens: seq<string>, k: string)
    requires |tokens| == 3 && tokens[0] == k && tokens[1] == k && tokens[2] == k
    requires k != []
    ensures AddTokens([], tokens) == [k]
  {
    assert tokens[..0] == [] && tokens[..3] == tokens;
    AddTokensStep([], tokens, 0);
    AddTokensStep([], tokens, 1);
    AddTokensStep([], tokens, 2);
  }

  /** Normalization makes differently spelled pieces one keyword: entering
      " Alpha ,alpha,ALPHA" into an empty registry registers "alpha" alone. */
  lemma NormalizationExample(text: string, alpha: string)
    requires text == " Alpha ,alpha,ALPHA" && alpha == "alpha"
    ensures AddTokens([], Tokens(Split(text, ','))) == [alpha]
  {
    var p0, p2 := " Alpha ", "ALPHA";
    AlphaText(text, p0, alpha, p2);
    SpellingsOfAlpha(p0, alpha, p2);
    SameNormalForm(p0, alpha, p2, alpha);
  }

  /** The text of the normalization example as three pieces. */
  lemma AlphaText(text: string, p0: string, p1: string, p2: string)
    requires text == " Alpha ,alpha,ALPHA"
    requires p0 == " Alpha " && p1 == "alpha" && p2 == "ALPHA"
    ensures text == p0 + [','] + p1 + [','] + p2
    ensures ',' !in p0 && ',' !in p1 && ',' !in p2
  {
  }

  /** Three comma-free pieces with one non-empty normal form `k`, entered
      together into an empty registry, register `k` alone. */
  lemma SameNormalForm(p0: string, p1: string, p2: string, k: string)
    requires ',' !in p0 && ',' !in p1 && ',' !in p2
    requires Normalize(p0) == k && Normalize(p1) == k && Normalize(p2) == k && k != []
    ensures AddTokens([], Tokens(Split(p0 + [','] + p1 + [','] + p2, ','))) == [k]
  {
    ThreePieces(p0, p1, p2);
    var tokens := Tokens([p0, p1, p2]);
    AddTokensRepeated(tokens, k);
  }

  /** Three comma-free pieces joined by commas split back into the three. */
  lemma ThreePieces(p0: string, p1: string, p2: string)
    requires ',' !in p0 && ',' !in p1 && ',' !in p2
    ensures Split(p0 + [','] + p1 + [','] + p2, ',') == [p0, p1, p2]
  {
    var rest := p1 + [','] + p2;
    assert p0 + [','] + p1 + [','] + p2 == p0 + [','] + rest;
    SplitPrepend(p0, ',', rest);
    SplitPrepend(p1, ',', p2);
    SplitSingle(p2, ',');
  }

  /** The three spellings " Alpha ", "alpha" and "ALPHA" share one normal form. */
  lemma SpellingsOfAlpha(p0: string, p1: string, p2: string)
    requires p0 == " Alpha " && p1 == "alpha" && p2 == "ALPHA"
    ensures Normalize(p0) == Normalize(p1) == Normalize(p2) == p1
  {
    var w := "Alpha";
    AlphaLiterals(p0, p1, p2, w);
    TrimPadding(w);
    TrimFixed(p1);
    TrimFixed(p2);
    LowerAlpha(w, p1);
    LowerAlpha(p1, p1);
    LowerAlpha(p2, p1);
  }

  /** The literal facts the spellings need: " Alpha " is "Alpha" padded with
      one space on either side, and no spelling starts or ends with
      whitespace once unpadded. */
  lemma AlphaLiterals(p0: string, p1: string, p2: string, w: string)
    requires p0 == " Alpha " && p1 == "alpha" && p2 == "ALPHA" && w == "Alpha"
    ensures p0 == [' '] + w + [' ']
    ensures w != [] && !IsWhitespace(w[0]) && !IsWhitespace(w[|w| - 1])
    ensures p1 != [] && !IsWhitespace(p1[0]) && !IsWhitespace(p1[|p1| - 1])
    ensures p2 != [] && !IsWhitespace(p2[0]) && !IsWhitespace(p2[|p2| - 1])
  {
  }

  /** "Alpha", "ALPHA" and "alpha" lower-case to `lower`, which is "alpha". */
  lemma LowerAlpha(upper: string, lower: string)
    requires upper == "Alpha" || upper == "ALPHA" || upper == "alpha"
    requires lower == "alpha"
    ensures Lower(upper) == lower
  {
    var r := Lower(upper);
    assert r[0] == 'a' && r[1] == 'l' && r[2] == 'p' && r[3] == 'h' && r[4] == 'a';
  }

  /** A word with one space on either side trims to the word. */
  lemma TrimPadding(w: string)
    requires w != [] && !IsWhitespace(w[0]) && !IsWhitespace(w[|w| - 1])
    ensures Trim([' '] + w + [' ']) == w
  {
    var padded := [' '] + w + [' '];
    assert padded[1] == w[0] && padded[|padded| - 2] == w[|w| - 1];
    assert SkipLeading(padded, 0) == SkipLeading(padded, 1) == 1;
    assert SkipTrailing(padded, 1, |padded|) == SkipTrailing(padded, 1, |padded| - 1) == |padded| - 1;
    assert padded[1..|padded| - 1] == w;
  }

  /** Duplicates are ignored and new keywords appended: entering "a,b" and
      then "c,a" registers "a", "b", "c" in that order. */
  lemma AppendOrderExample(first: string, second: string, a: string, b: string, c: string)
    requires first == "a,b" && second == "c,a"
    requires a == "a" && b == "b" && c == "c"
    ensures AddTokens(AddTokens([], Tokens(Split(first, ','))), Tokens(Split(second, ','))) == [a, b, c]
  {
    LetterTexts(first, second, a, b, c);
    TwoKeywords(first, a, b);
    TwoKeywords(second, c, a);
    AddTokensTwice(Tokens(Split(first, ',')), Tokens(Split(second, ',')), a, b, c);
  }

  /** The texts of the order example as keywords joined by commas. */
  lemma LetterTexts(first: string, second: string, a: string, b: string, c: string)
    requires first == "a,b" && second == "c,a"
    requires a == "a" && b == "b" && c == "c"
    ensures first == a + [','] + b && second == c + [','] + a
    ensures IsKeyword(a) && IsKeyword(b) && IsKeyword(c)
    ensures a != b && b != c && a != c
  {
  }

  /** Entering the tokens a, b and then c, a, for three distinct non-empty
      tokens, registers a, b, c. */
  lemma AddTokensTwice(first: seq<string>, second: seq<string>, a: string, b: string, c: string)
    requires |first| == 2 && first[0] == a && first[1] == b
    requires |second| == 2 && second[0] == c && second[1] == a
    requires a != [] && b != [] && c != []
    requires a != b && b != c && a != c
    ensures AddTokens(AddTokens([], first), second) == [a, b, c]
  {
    assert first[..0] == [] && first[..2] == first;
    AddTokensStep([], first, 0);
    AddTokensStep([], first, 1);
    var ks := AddTokens([], first);
    assert ks == [a, b];
    assert second[..0] == [] && second[..2] == second;
    AddTokensStep(ks, second, 0);
    AddTokensStep(ks, second, 1);
  }

  /** Two keywords separated by a comma give exactly these two tokens. */
  lemma TwoKeywords(text: string, x: string, y: string)
    requires IsKeyword(x) && IsKeyword(y) && text == x + [','] + y
    ensures var tokens := Tokens(Split(text, ','));
      |tokens| == 2 && tokens[0] == x && tokens[1] == y
  {
    SplitPrepend(x, ',', y);
    SplitSingle(y, ',');
    NormalizeKeyword(x);
    NormalizeKeyword(y);
  }

  /** The text `displayKeywords` builds: each keyword in turn is put in
      front of the text so far, separated by a comma unless the text so far
      is empty. */
  function KeywordsText(keywords: seq<string>): (r: string)
    ensures keywords == [] ==> r == []
    ensures forall i :: 0 <= i < |keywords| ==> |keywords[i]| <= |r|
  {
    if keywords == [] then ""
    else
      var shown := KeywordsText(keywords[..|keywords| - 1]);
      var k := keywords[|keywords| - 1];
      if shown == [] then k else k + "," + shown
  }

  function Reverse<T>(s: seq<T>): (r: seq<T>)
    ensures |r| == |s|
  {
    if s == [] then [] else [s[|s| - 1]] + Reverse(s[..|s| - 1])
  }

  /** For a registry of keywords, the displayed text is the keywords joined
      by commas, newest first, and splitting it on commas gives the reversed
      registry back; it is empty exactly when the registry is. */
  lemma {:induction false} KeywordsTextReversed(keywords: seq<string>)
    requires forall i :: 0 <= i < |keywords| ==> IsKeyword(keywords[i])
    ensures keywords == [] <==> KeywordsText(keywords) == []
    ensures keywords != [] ==> KeywordsText(keywords) == Join(Reverse(keywords), ',')
    ensures keywords != [] ==> Split(KeywordsText(keywords), ',') == Reverse(keywords)
  {
    if keywords != [] {
      var init := keywords[..|keywords| - 1];
      var k := keywords[|keywords| - 1];
      KeywordsTextReversed(init);
      assert IsKeyword(k);
      if init == [] {
        SplitSingle(k, ',');
      } else {
        var parts := [k] + Reverse(init);
        assert parts[1..] == Reverse(init);
        SplitPrepend(k, ',', KeywordsText(init));
      }
    }
  }
}
