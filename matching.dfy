/** Matching keywords against the transcript: the string of matched keywords
    that `searchFullSpeech` grows, and the pass `displayKeywords` makes over
    the whole registry. */
module Matching {
  import opened Text
  import opened Keywords

  /** The matched-keywords string after `searchFullSpeech(with: keyword)`:
      a keyword found in the lower-cased transcript becomes the whole string
      when the string is empty, and is put in front, followed by a comma,
      when the string does not already contain it as a substring. */
  function Search(matched: string, transcript: string, keyword: string): (r: string)
    ensures |matched| <= |r|
    ensures !IsPresent(transcript, keyword) ==> r == matched
  {
    if IsPresent(transcript, keyword) then
      if matched == [] then keyword
      else if !Contains(matched, keyword) then keyword + "," + matched
      else matched
    else matched
  }

  /** The string stays as it was exactly when the keyword is not in the
      transcript or the string already contains it. */
  lemma SearchUnchanged(matched: string, transcript: string, keyword: string)
    ensures Search(matched, transcript, keyword) == matched <==>
      !IsPresent(transcript, keyword) || Contains(matched, keyword)
  {
    if IsPresent(transcript, keyword) && !Contains(matched, keyword) {
      assert keyword != [];
      assert |Search(matched, transcript, keyword)| > |matched|;
    }
  }

  /** Matches are never dropped: the old string is a suffix of the new. */
  lemma SearchKeepsMatches(matched: string, transcript: string, keyword: string)
    ensures var r := Search(matched, transcript, keyword);
      |matched| <= |r| && r[|r| - |matched|..] == matched
  {
  }

  /** A keyword found in the transcript is contained in the string afterwards. */
  lemma SearchRecords(matched: string, transcript: string, keyword: string)
    requires IsPresent(transcript, keyword)
    ensures Contains(Search(matched, transcript, keyword), keyword)
  {
    if matched == [] {
      ContainsPrefix(keyword, []);
      assert keyword + [] == keyword;
    } else if !Contains(matched, keyword) {
      ContainsPrefix(keyword, "," + matched);
      assert keyword + ("," + matched) == keyword + "," + matched;
    }
  }

  /** Searching twice for the same keyword in the same transcript does what
      searching once does. */
  lemma SearchIdempotent(matched: string, transcript: string, keyword: string)
    ensures Search(Search(matched, transcript, keyword), transcript, keyword) ==
      Search(matched, transcript, keyword)
  {
    if IsPresent(transcript, keyword) {
      SearchRecords(matched, transcript, keyword);
      SearchUnchanged(Search(matched, transcript, keyword), transcript, keyword);
    }
  }

  /** The matched keywords as a list: the comma-separated pieces of the
      string, newest first; none when the string is empty. */
  function MatchedList(matched: string): (r: seq<string>)
    ensures matched == [] <==> r == []
  {
    if matched == [] then [] else Split(matched, ',')
  }

  /** For a keyword, a successful search puts it in front of the list; the
      list is otherwise unchanged. */
  lemma SearchPrepends(matched: string, transcript: string, keyword: string)
    requires IsKeyword(keyword)
    ensures MatchedList(Search(matched, transcript, keyword)) ==
      if IsPresent(transcript, keyword) && !Contains(matched, keyword)
      then [keyword] + MatchedList(matched)
      else MatchedList(matched)
  {
    if IsPresent(transcript, keyword) && !Contains(matched, keyword) {
      if matched == [] {
        SplitSingle(keyword, ',');
      } else {
        SplitPrepend(keyword, ',', matched);
        assert keyword + "," + matched == keyword + [','] + matched;
      }
    }
  }

  /** The invariant of the matched-keywords string relative to the registry:
      its pieces are registered keywords, none twice. */
  predicate ValidMatches(matched: string, keywords: seq<string>) {
    var list := MatchedList(matched);
    && NoDuplicates(list)
    && forall i :: 0 <= i < |list| ==> list[i] in keywords
  }

  /** Searching for a registered keyword keeps the invariant. */
  lemma SearchValid(matched: string, transcript: string, keyword: string, keywords: seq<string>)
    requires ValidMatches(matched, keywords)
    requires keyword in keywords && IsKeyword(keyword)
    ensures ValidMatches(Search(matched, transcript, keyword), keywords)
  {
    SearchPrepends(matched, transcript, keyword);
    if IsPresent(transcript, keyword) && !Contains(matched, keyword) && matched != [] {
      var list := MatchedList(matched);
      forall i | 0 <= i < |list| ensures list[i] != keyword {
        ContainsSplitPiece(matched, ',', i);
      }
    }
  }

  /** The pass of `displayKeywords`: `searchFullSpeech` for each registered
      keyword in registry order. */
  function MatchAll(matched: string, transcript: string, keywords: seq<string>): (r: string)
    ensures |matched| <= |r|
  {
    if keywords == [] then matched
    else Search(MatchAll(matched, transcript, keywords[..|keywords| - 1]), transcript, keywords[|keywords| - 1])
  }

  /** The pass never drops a match: the old string is a suffix of the new. */
  lemma {:induction false} MatchAllKeepsMatches(matched: string, transcript: string, keywords: seq<string>)
    ensures var r := MatchAll(matched, transcript, keywords);
      |matched| <= |r| && r[|r| - |matched|..] == matched
  {
    if keywords != [] {
      var before := MatchAll(matched, transcript, keywords[..|keywords| - 1]);
      MatchAllKeepsMatches(matched, transcript, keywords[..|keywords| - 1]);
      SearchKeepsMatches(before, transcript, keywords[|keywords| - 1]);
    }
  }

  /** After the pass, every registered keyword found in the lower-cased
      transcript is contained in the string. */
  lemma {:induction false} MatchAllRecords(matched: string, transcript: string, keywords: seq<string>)
    ensures forall i :: 0 <= i < |keywords| && IsPresent(transcript, keywords[i]) ==>
      Contains(MatchAll(matched, transcript, keywords), keywords[i])
  {
    if keywords != [] {
      var init := keywords[..|keywords| - 1];
      var last := keywords[|keywords| - 1];
      var before := MatchAll(matched, transcript, init);
      var after := MatchAll(matched, transcript, keywords);
      MatchAllRecords(matched, transcript, init);
      SearchKeepsMatches(before, transcript, last);
      assert after == after[..|after| - |before|] + before;
      forall i | 0 <= i < |keywords| && IsPresent(transcript, keywords[i])
        ensures Contains(after, keywords[i])
      {
        if i == |keywords| - 1 {
          SearchRecords(before, transcript, last);
        } else {
          assert keywords[i] == init[i];
          ContainsInSuffix(after[..|after| - |before|], before, keywords[i]);
        }
      }
    }
  }

  /** The pass records nothing else: every keyword listed afterwards was
      listed before, or is a registered keyword occurring in the lower-cased
      transcript. */
  lemma {:induction false} MatchAllSound(matched: string, transcript: string, keywords: seq<string>)
    requires forall i :: 0 <= i < |keywords| ==> IsKeyword(keywords[i])
    ensures forall x :: x in MatchedList(MatchAll(matched, transcript, keywords)) ==>
      x in MatchedList(matched) || (x in keywords && IsPresent(transcript, x))
  {
    if keywords != [] {
      var init := keywords[..|keywords| - 1];
      var last := keywords[|keywords| - 1];
      assert forall i :: 0 <= i < |init| ==> init[i] == keywords[i];
      MatchAllSound(matched, transcript, init);
      SearchPrepends(MatchAll(matched, transcript, init), transcript, last);
      assert forall x :: x in init ==> x in keywords;
    }
  }

  /** Keywords added by one pass, newest-registered first: each is
      registered, and a keyword registered later comes earlier. */
  predicate NewestFirst(added: seq<string>, keywords: seq<string>) {
    && (forall a :: 0 <= a < |added| ==> FirstIndex(keywords, added[a]) < |keywords|)
    && (forall a, b :: 0 <= a < b < |added| ==>
          FirstIndex(keywords, added[b]) < FirstIndex(keywords, added[a]))
  }

  /** The first occurrence of a keyword in the registry without its last
      entry is its first occurrence in the whole registry. */
  lemma FirstIndexInit(keywords: seq<string>, x: string)
    requires keywords != [] && FirstIndex(keywords[..|keywords| - 1], x) < |keywords| - 1
    ensures FirstIndex(keywords, x) == FirstIndex(keywords[..|keywords| - 1], x)
  {
  }

  /** In a registry without duplicates the last keyword first occurs last. */
  lemma FirstIndexLast(keywords: seq<string>)
    requires keywords != [] && NoDuplicates(keywords)
    ensures FirstIndex(keywords, keywords[|keywords| - 1]) == |keywords| - 1
  {
  }

  /** Putting the last registered keyword in front of a newest-first list
      of earlier keywords keeps it newest first. */
  lemma NewestFirstExtend(added: seq<string>, keywords: seq<string>)
    requires keywords != [] && NoDuplicates(keywords)
    requires NewestFirst(added, keywords[..|keywords| - 1])
    ensures NewestFirst(added, keywords)
    ensures NewestFirst([keywords[|keywords| - 1]] + added, keywords)
  {
    forall a | 0 <= a < |added|
      ensures FirstIndex(keywords, added[a]) == FirstIndex(keywords[..|keywords| - 1], added[a])
    {
      FirstIndexInit(keywords, added[a]);
    }
    FirstIndexLast(keywords);
  }

  /** A list of matches that holds the old list `before` at its end, after
      new matches in newest-first order. */
  predicate AddedInFront(list: seq<string>, before: seq<string>, keywords: seq<string>) {
    && |before| <= |list|
    && list[|list| - |before|..] == before
    && NewestFirst(list[..|list| - |before|], keywords)
  }

  /** The order of one pass: the matches it adds go in front of the old
      list, the newest-registered keyword first. */
  lemma {:induction false} MatchAllOrder(matched: string, transcript: string, keywords: seq<string>)
    requires NoDuplicates(keywords)
    requires forall i :: 0 <= i < |keywords| ==> IsKeyword(keywords[i])
    ensures AddedInFront(MatchedList(MatchAll(matched, transcript, keywords)), MatchedList(matched), keywords)
  {
    if keywords == [] {
      var list := MatchedList(matched);
      assert list[|list| - |list|..] == list;
    } else {
      var init := keywords[..|keywords| - 1];
      var last := keywords[|keywords| - 1];
      assert forall i :: 0 <= i < |init| ==> init[i] == keywords[i];
      MatchAllOrder(matched, transcript, init);
      var prev := MatchAll(matched, transcript, init);
      var after := MatchAll(matched, transcript, keywords);
      assert after == Search(prev, transcript, last);
      SearchPrepends(prev, transcript, last);
      OrderStep(MatchedList(prev), MatchedList(matched), keywords,
        IsPresent(transcript, last) && !Contains(prev, last), MatchedList(after));
    }
  }

  /** One step of that pass: putting the last registered keyword in front
      keeps the new matches newest first. */
  lemma OrderStep(r0: seq<string>, before: seq<string>, keywords: seq<string>, grow: bool, r: seq<string>)
    requires keywords != [] && NoDuplicates(keywords)
    requires AddedInFront(r0, before, keywords[..|keywords| - 1])
    requires r == if grow then [keywords[|keywords| - 1]] + r0 else r0
    ensures AddedInFront(r, before, keywords)
  {
    var n0 := |r0| - |before|;
    NewestFirstExtend(r0[..n0], keywords);
    if grow {
      assert r[..n0 + 1] == [keywords[|keywords| - 1]] + r0[..n0];
      assert r[n0 + 1..] == r0[n0..];
    }
  }

  /** The new matches come newest-registered first: with "cat" already
      matched, the registry cat, dog, bird and the transcript "cat dog bird",
      the pass gives "bird,dog,cat". */
  lemma NewMatchOrderExample(transcript: string, cat: string, dog: string, bird: string)
    requires transcript == "cat dog bird" && cat == "cat" && dog == "dog" && bird == "bird"
    ensures MatchAll(cat, transcript, [cat, dog, bird]) == bird + "," + dog + "," + cat
  {
    ThreePresent(transcript, cat, dog, bird);
    ThreeApart(cat, dog, bird);
    ThreeMatches(transcript, cat, dog, bird);
  }

  /** The three keywords all occur in "cat dog bird". */
  lemma ThreePresent(transcript: string, cat: string, dog: string, bird: string)
    requires transcript == "cat dog bird" && cat == "cat" && dog == "dog" && bird == "bird"
    ensures IsPresent(transcript, cat) && IsPresent(transcript, dog) && IsPresent(transcript, bird)
  {
    PresentAt(transcript, cat, 0, "cat");
    PresentAt(transcript, dog, 4, "dog");
    PresentAt(transcript, bird, 8, "bird");
  }

  /** A literal keyword occurs in "cat dog bird" at the position given. */
  lemma PresentAt(transcript: string, keyword: string, at: nat, literal: string)
    requires transcript == "cat dog bird" && keyword == literal
    requires (at, literal) in {(0, "cat"), (4, "dog"), (8, "bird")}
    ensures IsPresent(transcript, keyword)
  {
    IsPresentIff(transcript, keyword);
    assert OccursAt(Lower(transcript), keyword, at);
  }

  /** "cat" contains itself but not "dog", and "dog,cat" does not contain
      "bird". */
  lemma ThreeApart(cat: string, dog: string, bird: string)
    requires cat == "cat" && dog == "dog" && bird == "bird"
    ensures cat != [] && Contains(cat, cat)
    ensures !Contains(cat, dog) && !Contains(dog + "," + cat, bird)
  {
    LacksFirst(cat, dog);
    LacksFirst(dog + "," + cat, bird);
  }

  /** Three present keywords, the first already matched and each other one
      not contained in the string before it, are listed in reverse. */
  lemma ThreeMatches(transcript: string, k1: string, k2: string, k3: string)
    requires IsPresent(transcript, k1) && IsPresent(transcript, k2) && IsPresent(transcript, k3)
    requires k1 != [] && Contains(k1, k1)
    requires !Contains(k1, k2) && !Contains(k2 + "," + k1, k3)
    ensures MatchAll(k1, transcript, [k1, k2, k3]) == k3 + "," + k2 + "," + k1
  {
    var keywords := [k1, k2, k3];
    assert keywords[..2] == [k1, k2];
    assert keywords[..2][..1] == [k1];
    assert keywords[..2][..1][..0] == [];
    assert MatchAll(k1, transcript, [k1]) == Search(k1, transcript, k1) == k1;
    var two := MatchAll(k1, transcript, [k1, k2]);
    assert two == Search(k1, transcript, k2) == k2 + "," + k1;
    assert MatchAll(k1, transcript, keywords) == Search(two, transcript, k3);
  }

  /** The pass leaves the string as it was exactly when every registered
      keyword is either absent from the transcript or already contained in
      the string. */
  lemma {:induction false} MatchAllUnchanged(matched: string, transcript: string, keywords: seq<string>)
    ensures MatchAll(matched, transcript, keywords) == matched <==>
      forall i :: 0 <= i < |keywords| ==> !IsPresent(transcript, keywords[i]) || Contains(matched, keywords[i])
  {
    if keywords != [] {
      var init := keywords[..|keywords| - 1];
      var last := keywords[|keywords| - 1];
      if forall i :: 0 <= i < |keywords| ==> !IsPresent(transcript, keywords[i]) || Contains(matched, keywords[i]) {
        assert forall i :: 0 <= i < |init| ==> init[i] == keywords[i];
        MatchAllUnchanged(matched, transcript, init);
        SearchUnchanged(matched, transcript, last);
      }
      if MatchAll(matched, transcript, keywords) == matched {
        MatchAllRecords(matched, transcript, keywords);
      }
    }
  }

  /** Running the pass again with the same transcript and registry changes
      nothing: matching depends on the transcript only through the first
      pass after it changed. */
  lemma MatchAllIdempotent(matched: string, transcript: string, keywords: seq<string>)
    ensures MatchAll(MatchAll(matched, transcript, keywords), transcript, keywords) ==
      MatchAll(matched, transcript, keywords)
  {
    MatchAllRecords(matched, transcript, keywords);
    MatchAllUnchanged(MatchAll(matched, transcript, keywords), transcript, keywords);
  }

  /** The pass keeps the invariant for keywords drawn from the registry. */
  lemma {:induction false} MatchAllValid(matched: string, transcript: string, keywords: seq<string>, registry: seq<string>)
    requires ValidMatches(matched, registry)
    requires forall i :: 0 <= i < |keywords| ==> keywords[i] in registry && IsKeyword(keywords[i])
    ensures ValidMatches(MatchAll(matched, transcript, keywords), registry)
  {
    if keywords != [] {
      var init := keywords[..|keywords| - 1];
      assert forall i :: 0 <= i < |init| ==> init[i] == keywords[i];
      MatchAllValid(matched, transcript, init, registry);
      SearchValid(MatchAll(matched, transcript, init), transcript, keywords[|keywords| - 1], registry);
    }
  }

  /** An empty transcript matches no keyword, so the pass changes nothing. */
  lemma EmptyTranscriptMatchesNothing(matched: string, keywords: seq<string>)
    requires forall i :: 0 <= i < |keywords| ==> keywords[i] != []
    ensures MatchAll(matched, [], keywords) == matched
  {
    forall i | 0 <= i < |keywords| ensures !IsPresent([], keywords[i]) {
      assert Lower([]) == [];
    }
    MatchAllUnchanged(matched, [], keywords);
  }

  /** Matching ignores the case of the transcript: "I SAW A CAT" contains the
      keyword "cat". */
  lemma CaseInsensitiveExample(transcript: string, keyword: string)
    requires transcript == "I SAW A CAT" && keyword == "cat"
    ensures IsPresent(transcript, keyword)
  {
    IsPresentIff(transcript, keyword);
    assert Lower(transcript)[8..11] == keyword;
    assert OccursAt(Lower(transcript), keyword, 8);
  }

  /** Only keywords in the transcript are listed: with "cat" and "dog"
      registered and the transcript "I have a cat", the pass lists "cat"
      alone. */
  lemma OnlyPresentKeywordsListed(transcript: string, cat: string, dog: string)
    requires transcript == "I have a cat" && cat == "cat" && dog == "dog"
    ensures MatchedList(MatchAll([], transcript, [cat, dog])) == [cat]
  {
    CatAndDog(transcript, cat, dog);
    assert [cat, dog][..1] == [cat];
    assert [cat][..0] == [];
    assert MatchAll([], transcript, [cat]) == Search([], transcript, cat) == cat;
    assert MatchAll([], transcript, [cat, dog]) == Search(cat, transcript, dog) == cat;
    SplitSingle(cat, ',');
  }

  /** The literal facts of that example. */
  lemma CatAndDog(transcript: string, cat: string, dog: string)
    requires transcript == "I have a cat" && cat == "cat" && dog == "dog"
    ensures IsKeyword(cat) && IsKeyword(dog) && cat != dog
    ensures IsPresent(transcript, cat) && !IsPresent(transcript, dog)
  {
    CatPresent(transcript, cat);
    DogAbsent(transcript, dog);
  }

  /** "cat" occurs in "I have a cat" once lower-cased. */
  lemma CatPresent(transcript: string, cat: string)
    requires transcript == "I have a cat" && cat == "cat"
    ensures IsPresent(transcript, cat)
  {
    IsPresentIff(transcript, cat);
    assert Lower(transcript)[9..12] == cat;
    assert OccursAt(Lower(transcript), cat, 9);
  }

  /** "dog" does not occur in "I have a cat", which holds no "d" in either
      case. */
  lemma DogAbsent(transcript: string, dog: string)
    requires transcript == "I have a cat" && dog == "dog"
    ensures !IsPresent(transcript, dog)
  {
    LowerLacks(transcript, 'd');
    LacksFirst(Lower(transcript), dog);
  }

  /** The duplicate check is substring containment: with "cats" registered
      before "cat" and the transcript "cats", the pass records "cats" and
      never lists "cat", although "cat" is in the transcript too. */
  lemma SubstringShadowsKeyword(transcript: string, cats: string, cat: string)
    requires transcript == "cats" && cats == "cats" && cat == "cat"
    ensures IsPresent(transcript, cat)
    ensures MatchAll([], transcript, [cats, cat]) == cats
    ensures MatchedList(MatchAll([], transcript, [cats, cat])) == [cats]
  {
    IsPresentIff(transcript, cats);
    assert OccursAt(Lower(transcript), cats, 0);
    IsPresentIff(transcript, cat);
    assert OccursAt(Lower(transcript), cat, 0);
    assert [cats, cat][..1] == [cats];
    assert [cats][..0] == [];
    ContainsPrefix(cat, "s");
    assert cat + "s" == cats;
    assert MatchAll([], transcript, [cats]) == Search([], transcript, cats) == cats;
    assert Search(cats, transcript, cat) == cats;
    assert IsKeyword(cats);
    SplitSingle(cats, ',');
  }
}
