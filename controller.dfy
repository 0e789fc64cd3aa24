/** The screen controller of the speech-to-text app: the microphone status
    machine, the transcript the recognizer keeps replacing, the keyword
    registry the user types into, and the string of matched keywords. Text
    views are plain output fields; audio, the recognizer and layout are not
    part of this model. */
module SpeechController {
  import opened Text
  import opened Keywords
  import opened Matching

  datatype Option<T> = None | Some(value: T)

  /** The state of the microphone button. */
  datatype SpeechStatus = Ready | Recognizing | Unavailable

  /** The speech recognizer's authorization status as the platform reports it. */
  datatype AuthorizationStatus = NotDetermined | Authorized | Denied | Restricted

  /** The status right after the synchronous authorization check: an
      undetermined authorization leaves the decision to the permission
      prompt and the status as it was; otherwise the microphone is ready
      exactly when recognition is authorized, and unavailable when not. */
  function StatusAfterAuthorizationCheck(auth: AuthorizationStatus, current: SpeechStatus): (r: SpeechStatus)
    ensures auth == NotDetermined ==> r == current
    ensures auth != NotDetermined ==> r != Recognizing && (r == Ready <==> auth == Authorized)
  {
    match auth
    case NotDetermined => current
    case Authorized => Ready
    case Denied => Unavailable
    case Restricted => Unavailable
  }

  /** The tokens entered through the keyword field: the normal forms of the
      comma-separated pieces of its text, none when it has no text. */
  function EnteredTokens(text: Option<string>): (r: seq<string>)
    ensures text.None? ==> r == []
    ensures forall i :: 0 <= i < |r| ==> r[i] == [] || IsKeyword(r[i])
  {
    match text
    case None => []
    case Some(s) =>
      TokensAreKeywords(Split(s, ','));
      Tokens(Split(s, ','))
  }

  class ViewController {
    var status: SpeechStatus
    /** The recognizer's latest full transcript. */
    var fullSpeechString: string
    /** The matched keywords, newest first, separated by commas. */
    var stringWithMatchedKeywords: string
    /** The registered keywords, oldest first. */
    var arrayWithAllTheKeywords: seq<string>

    /** The text views showing the transcript, the registered keywords and
        the matched keywords, and whether the keyword entry view is shown. */
    var speechText: string
    var definedKeywordsText: string
    var keywordsFoundText: string
    var keywordSearchVisible: bool

    /** Everything but the text of registered keywords, which is stale
        between appending keywords and displaying them. */
    ghost predicate ValidRegistry()
      reads this
    {
      && ValidKeywords(arrayWithAllTheKeywords)
      && ValidMatches(stringWithMatchedKeywords, arrayWithAllTheKeywords)
      && keywordsFoundText == stringWithMatchedKeywords
      && (keywordSearchVisible ==> status != Recognizing)
    }

    /** The invariant of the controller: keywords are normalized and
        distinct, the matched keywords are distinct registered keywords, the
        text views show the registry and the matches, and keyword entry is
        hidden while recognizing. */
    ghost predicate Valid()
      reads this
    {
      ValidRegistry() && definedKeywordsText == KeywordsText(arrayWithAllTheKeywords)
    }

    /** A freshly loaded screen: ready, nothing registered, keyword entry hidden. */
    constructor ()
      ensures Valid()
      ensures status == Ready && keywordSearchVisible == false
      ensures fullSpeechString == [] && stringWithMatchedKeywords == [] && arrayWithAllTheKeywords == []
    {
      status := Ready;
      fullSpeechString := "";
      stringWithMatchedKeywords := "";
      arrayWithAllTheKeywords := [];
      speechText := "";
      definedKeywordsText := "";
      keywordsFoundText := "";
      keywordSearchVisible := false;
    }

    /** The synchronous part of checking the recognizer's authorization. */
    method RequestAndCheckSpeechAuthorization(auth: AuthorizationStatus)
      requires Valid()
      modifies this`status
      ensures Valid()
      ensures status == StatusAfterAuthorizationCheck(auth, old(status))
    {
      match auth
      case NotDetermined =>
        // The permission prompt answers asynchronously; not modelled.
      case Authorized =>
        status := Ready;
      case Denied =>
        status := Unavailable;
      case Restricted =>
        status := Unavailable;
    }

    /** The microphone button: ready starts a new session, recognizing ends
        it, unavailable ignores the tap. */
    method OnTapOfMicButton()
      requires Valid()
      modifies this
      ensures Valid()
      ensures old(status) == Ready ==>
        && status == Recognizing
        && arrayWithAllTheKeywords == [] && stringWithMatchedKeywords == []
        && fullSpeechString == old(fullSpeechString)
        && speechText == [] && !keywordSearchVisible
      ensures old(status) == Recognizing ==>
        && status == Ready && keywordSearchVisible
        && arrayWithAllTheKeywords == old(arrayWithAllTheKeywords)
        && stringWithMatchedKeywords == old(stringWithMatchedKeywords)
        && fullSpeechString == old(fullSpeechString)
        && speechText == old(speechText)
        && definedKeywordsText == old(definedKeywordsText)
        && keywordsFoundText == old(keywordsFoundText)
      ensures old(status) == Unavailable ==> unchanged(this)
    {
      match status
      case Ready =>
        ResetTextForNewSpeech();
        // Starting the audio engine and the recognition task is not modelled.
      case Recognizing =>
        ResetTextAfterRecognitionIsCompleted();
        // Stopping the audio engine and cancelling the recognition task is not modelled.
      case Unavailable =>
    }

    /** Clears the registry, the matches and the text views for a new
        session; the last transcript is kept. */
    method ResetTextForNewSpeech()
      requires Valid()
      modifies this
      ensures Valid()
      ensures status == Recognizing && !keywordSearchVisible
      ensures arrayWithAllTheKeywords == [] && stringWithMatchedKeywords == []
      ensures speechText == [] && definedKeywordsText == [] && keywordsFoundText == []
      ensures fullSpeechString == old(fullSpeechString)
    {
      status := Recognizing;
      keywordSearchVisible := false;
      stringWithMatchedKeywords := "";
      arrayWithAllTheKeywords := [];
      speechText := "";
      definedKeywordsText := "";
      keywordsFoundText := "";
    }

    /** Back to ready once a session ends, with keyword entry shown. */
    method ResetTextAfterRecognitionIsCompleted()
      requires Valid()
      modifies this`status, this`keywordSearchVisible
      ensures Valid()
      ensures status == Ready && keywordSearchVisible
    {
      status := Ready;
      keywordSearchVisible := true;
    }

    /** A recognition callback: a result replaces the transcript wholesale;
        an error changes nothing. Matching is not rerun here. */
    method OnRecognitionResult(bestTranscription: Option<string>)
      requires Valid()
      modifies this`fullSpeechString, this`speechText
      ensures Valid()
      ensures bestTranscription.Some? ==> fullSpeechString == speechText == bestTranscription.value
      ensures bestTranscription.None? ==> fullSpeechString == old(fullSpeechString) && speechText == old(speechText)
    {
      if bestTranscription.Some? {
        var bestString := bestTranscription.value;
        speechText := bestString;
        fullSpeechString := bestString;
      }
    }

    /** The keyword field's text was committed: each non-blank
        comma-separated piece, trimmed and lower-cased, is appended unless
        already registered; then the registry is displayed, which matches
        every registered keyword against the transcript. */
    method TextFieldDidEndEditing(text: Option<string>)
      requires Valid()
      modifies this`arrayWithAllTheKeywords, this`stringWithMatchedKeywords,
        this`definedKeywordsText, this`keywordsFoundText
      ensures Valid()
      ensures arrayWithAllTheKeywords == AddTokens(old(arrayWithAllTheKeywords), EnteredTokens(text))
      ensures definedKeywordsText == KeywordsText(arrayWithAllTheKeywords)
      ensures stringWithMatchedKeywords ==
        MatchAll(old(stringWithMatchedKeywords), fullSpeechString, arrayWithAllTheKeywords)
    {
      ghost var registered := arrayWithAllTheKeywords;
      if text.Some? {
        var keyWordString := text.value;
        if keyWordString != [] {
          AppendKeywords(keyWordString);
        } else {
          BlankTextAddsNothing(registered, keyWordString);
        }
        TokensAreKeywords(Split(keyWordString, ','));
      }
      AddTokensValid(registered, EnteredTokens(text));
      AddTokensExtends(registered, EnteredTokens(text));
      ValidMatchesExtend(stringWithMatchedKeywords, registered, arrayWithAllTheKeywords);
      DisplayKeywords();
    }

    /** The loop of `textFieldDidEndEditing` over the comma-separated pieces
        of the keyword field's text. */
    method AppendKeywords(keyWordString: string)
      modifies this`arrayWithAllTheKeywords
      ensures arrayWithAllTheKeywords == AddTokens(old(arrayWithAllTheKeywords), Tokens(Split(keyWordString, ',')))
    {
      var stringComponents := Split(keyWordString, ',');
      ghost var tokens := Tokens(stringComponents);
      for i := 0 to |stringComponents|
        invariant arrayWithAllTheKeywords == AddTokens(old(arrayWithAllTheKeywords), tokens[..i])
      {
        var trimmedKeyword := Normalize(stringComponents[i]);
        AddTokensStep(old(arrayWithAllTheKeywords), tokens, i);
        // A blank piece is skipped.
        if trimmedKeyword != [] {
          if arrayWithAllTheKeywords == [] {
            arrayWithAllTheKeywords := arrayWithAllTheKeywords + [trimmedKeyword];
          } else if trimmedKeyword !in arrayWithAllTheKeywords {
            arrayWithAllTheKeywords := arrayWithAllTheKeywords + [trimmedKeyword];
          }
        }
      }
      assert tokens[..|tokens|] == tokens;
    }

    /** Shows the registry, newest first, and matches each registered
        keyword, in registry order, against the transcript. */
    method DisplayKeywords()
      requires ValidRegistry()
      modifies this`stringWithMatchedKeywords, this`definedKeywordsText, this`keywordsFoundText
      ensures Valid()
      ensures definedKeywordsText == KeywordsText(arrayWithAllTheKeywords)
      ensures stringWithMatchedKeywords ==
        MatchAll(old(stringWithMatchedKeywords), fullSpeechString, arrayWithAllTheKeywords)
    {
      var searchString := "";
      for i := 0 to |arrayWithAllTheKeywords|
        invariant stringWithMatchedKeywords ==
          MatchAll(old(stringWithMatchedKeywords), fullSpeechString, arrayWithAllTheKeywords[..i])
        invariant searchString == KeywordsText(arrayWithAllTheKeywords[..i])
        invariant ValidRegistry()
      {
        var keyword := arrayWithAllTheKeywords[i];
        assert arrayWithAllTheKeywords[..i + 1][..i] == arrayWithAllTheKeywords[..i];
        SearchValid(stringWithMatchedKeywords, fullSpeechString, keyword, arrayWithAllTheKeywords);
        SearchFullSpeech(keyword);
        if searchString == [] {
          searchString := keyword;
        } else {
          searchString := keyword + "," + searchString;
        }
      }
      assert arrayWithAllTheKeywords[..|arrayWithAllTheKeywords|] == arrayWithAllTheKeywords;
      definedKeywordsText := searchString;
    }

    /** Records `keywordString` as matched if the lower-cased transcript
        contains it and the matched string does not contain it yet. */
    method SearchFullSpeech(keywordString: string)
      modifies this`stringWithMatchedKeywords, this`keywordsFoundText
      ensures stringWithMatchedKeywords == Search(old(stringWithMatchedKeywords), fullSpeechString, keywordString)
      ensures keywordsFoundText ==
        if IsPresent(fullSpeechString, keywordString) then stringWithMatchedKeywords else old(keywordsFoundText)
    {
      if Contains(Lower(fullSpeechString), keywordString) {
        if stringWithMatchedKeywords == [] {
          stringWithMatchedKeywords := keywordString;
        } else if !Contains(stringWithMatchedKeywords, keywordString) {
          stringWithMatchedKeywords := keywordString + "," + stringWithMatchedKeywords;
        }
        keywordsFoundText := stringWithMatchedKeywords;
      }
    }
  }

  /** Empty text leaves the registry as it was: its one piece is blank. */
  lemma BlankTextAddsNothing(keywords: seq<string>, text: string)
    requires text == []
    ensures AddTokens(keywords, Tokens(Split(text, ','))) == keywords
  {
    NormalizeEmpty(text);
    AddTokensUnchanged(keywords, Tokens(Split(text, ',')));
  }

  /** Matches valid for a registry stay valid for any registry extending it. */
  lemma ValidMatchesExtend(matched: string, keywords: seq<string>, extended: seq<string>)
    requires ValidMatches(matched, keywords)
    requires keywords <= extended
    ensures ValidMatches(matched, extended)
  {
  }
}
