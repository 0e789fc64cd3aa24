# Speech-to-text keyword spotting: a Dafny model

This project models the logic inside the screen controller of the
SpeechToTextRecognition iOS app. The app shows a live transcript from the
platform speech recognizer. The user can type comma-separated keywords, and
the app lists the keywords that occur in the transcript. The model covers:

- the **keyword registry** (`arrayWithAllTheKeywords`): committed text is
  split on `,`, and each piece is trimmed of whitespace and newlines and
  lower-cased. Blank pieces are skipped. Each new keyword is appended unless
  it is already registered.
- the **registry display** (`displayKeywords`): the registered keywords
  joined by commas, newest first.
- the **match accumulator** (`stringWithMatchedKeywords`, grown by
  `searchFullSpeech`): a registered keyword found in the lower-cased
  transcript is put in front of the matched string, unless that string
  already contains it as a substring.
- the **transcript** (`fullSpeechString`): each recognition result replaces
  it wholesale.
- the **microphone status machine** (`ready`, `recognizing`, `unavailable`):
  the mic button toggles between ready and recognizing and clears the
  registry and the matches when a session starts. The synchronous
  authorization check sets the status.
- `String.isPresent(in:)`: a substring test on the lower-cased receiver.

Modules:

- `Text` (text.dfy) writes out the Foundation string operations the
  controller relies on. It proves their properties: split and join undo each
  other, what trimming keeps, and that the recursive search finds a substring
  exactly when it occurs.
- `Keywords` (keywords.dfy) specifies keyword entry as a fold over the
  normalized pieces (`AddTokens`), and the display text (`KeywordsText`).
- `Matching` (matching.dfy) specifies `searchFullSpeech` (`Search`) and the
  pass of `displayKeywords` over the registry (`MatchAll`).
- `SpeechController` (controller.dfy) holds the class `ViewController`. Its
  fields are the ones the source updates in place, with the text views as
  plain output fields. Its methods carry the source's loops and assignments.
  Each method is proved against the functions above. The methods that
  change the controller's state, except the helpers below, keep the
  invariant `Valid()`. The helpers `AppendKeywords` and
  `SearchFullSpeech` are specified by `AddTokens` and `Search` alone, and
  `DisplayKeywords` needs only the registry part of the invariant
  (`ValidRegistry()`) and restores all of it. The invariant says:
  - keywords are normalized and distinct;
  - the matched keywords are distinct registered keywords;
  - the text views show the registry and the matches;
  - keyword entry is hidden while recognizing.

Facts about the code that shape the model:
- No match is ever removed.
- One pass lists its new matches newest-registered first, ahead of the old
  ones, because each hit is put in front of the matched string.
  `Matching.MatchAllOrder` states this, and
  `Matching.NewMatchOrderExample` shows "bird,dog,cat" for the registry
  cat, dog, bird.
- Matching runs only when keywords are committed, as the pass of
  `displayKeywords` over the registry. A new transcript does not rerun it.
- The duplicate check for matches is substring containment on the joined
  string, not equality of keywords. `Matching.SubstringShadowsKeyword`
  shows the consequence: with "cats" registered before "cat" and the
  transcript "cats", "cat" is never listed.
- The states are ready, recognizing and unavailable. Starting a session
  clears the registry and the matches but keeps the last transcript.

## Model

| member | source | states |
|---|---|---|
| `Text.Lower` | SpeechToTextRecognition/ViewController.swift:309 | lower-casing keeps the length and maps each character on its own, upper-case ASCII letters to their lower-case forms; `Text.LowerProperties` states what it leaves behind |
| `Text.Trim` | SpeechToTextRecognition/ViewController.swift:309 | trimming never lengthens a string; `Text.TrimProperties`, `Text.TrimEnds` and `Text.TrimKeepsOut` characterize it |
| `Text.LowerProperties` | SpeechToTextRecognition/ViewController.swift:309 | after lower-casing no upper-case letter remains, whitespace and commas stay where they were, and lower-casing twice equals lower-casing once |
| `Text.TrimProperties` | SpeechToTextRecognition/ViewController.swift:309 | trimming keeps the slice after the leading whitespace, with whitespace only outside it and at neither end; the result is empty exactly when the input is all whitespace |
| `Text.TrimEnds` | SpeechToTextRecognition/ViewController.swift:309 | a trimmed string that is not empty starts and ends with a character that is not whitespace |
| `Text.TrimKeepsOut` | SpeechToTextRecognition/ViewController.swift:309 | trimming introduces no character the input did not hold |
| `Text.Split` | SpeechToTextRecognition/ViewController.swift:304 | splitting on `,` yields at least one piece and no piece holds the separator |
| `Text.JoinSplit` | SpeechToTextRecognition/ViewController.swift:304 | joining the pieces with the separator gives the original text back |
| `Text.SplitJoin` | SpeechToTextRecognition/ViewController.swift:304 | splitting a join of separator-free pieces gives the pieces back |
| `Text.SplitPrepend` | SpeechToTextRecognition/ViewController.swift:304 | a separator-free prefix followed by the separator becomes a piece of its own in front of the rest |
| `Text.Contains` | SpeechToTextRecognition/ViewController.swift:269-274 | a prefix is found, and a found string is no longer than the one searched; `Text.ContainsIff` characterizes the search |
| `Text.ContainsIff` | SpeechToTextRecognition/ViewController.swift:269-274 | the substring search succeeds exactly when the needle occurs at some position of the haystack |
| `Text.ContainsInSuffix` | SpeechToTextRecognition/ViewController.swift:274-275 | whatever a string contains, any string ending with it contains too |
| `Text.ContainsSplitPiece` | SpeechToTextRecognition/ViewController.swift:274 | a string contains every one of its comma-separated pieces |
| `Text.IsPresent` | SpeechToTextRecognition/ViewController.swift:352-359 | a present argument is no longer than the receiver; `Text.IsPresentIff` characterizes it |
| `Text.IsPresentIff` | SpeechToTextRecognition/ViewController.swift:352-359 | `isPresent(in:)` holds exactly when the argument occurs in the lower-cased receiver, so an argument with an upper-case letter is never present |
| `Keywords.Normalize` | SpeechToTextRecognition/ViewController.swift:309 | the normal form is no longer than the piece; `Keywords.NormalizeEmpty`, `Keywords.NormalizeIsKeyword` and `Keywords.NormalizeKeyword` characterize it |
| `Keywords.NormalizeEmpty` | SpeechToTextRecognition/ViewController.swift:309-314 | a piece normalizes to the empty string, and is skipped, exactly when it is all whitespace |
| `Keywords.NormalizeIsKeyword` | SpeechToTextRecognition/ViewController.swift:307-309 | the normal form of a non-blank comma-free piece is non-empty, comma-free, lower-case and trimmed |
| `Keywords.NormalizeKeyword` | SpeechToTextRecognition/ViewController.swift:309 | normalizing a stored keyword gives it back |
| `Keywords.TokensAreKeywords` | SpeechToTextRecognition/ViewController.swift:304-309 | every normalized piece of a split is empty or a keyword |
| `Keywords.AddToken` | SpeechToTextRecognition/ViewController.swift:312-323 | one pass of the loop either leaves the registry as it was or appends the token, which is then non-empty and was not registered |
| `Keywords.AddTokens` | SpeechToTextRecognition/ViewController.swift:307-325 | the loop never shrinks the registry and adds at most one keyword per piece; the `Keywords.AddTokens…` lemmas below characterize it |
| `Keywords.AddTokensValid` | SpeechToTextRecognition/ViewController.swift:307-325 | keyword entry keeps the registry free of duplicates and of empty or unnormalized keywords |
| `Keywords.AddTokensExtends` | SpeechToTextRecognition/ViewController.swift:316-323 | keyword entry only appends: the old registry is a prefix of the new one |
| `Keywords.AddTokensFrom` | SpeechToTextRecognition/ViewController.swift:307-323 | every appended keyword is the normal form of some piece of the input |
| `Keywords.AddTokensComplete` | SpeechToTextRecognition/ViewController.swift:307-323 | the normal form of every non-blank piece is registered afterwards |
| `Keywords.AddTokensUnchanged` | SpeechToTextRecognition/ViewController.swift:302-323 | the registry is unchanged exactly when every piece is blank or already registered, so input such as ",, ," changes nothing |
| `Keywords.AddTokensOrder` | SpeechToTextRecognition/ViewController.swift:307-323 | appended keywords come in the order in which their first pieces occur in the input |
| `Keywords.FirstIndex` | SpeechToTextRecognition/ViewController.swift:307-321 | the index returned is the first occurrence of the token, or the length when there is none |
| `Keywords.AddTokensStep` | SpeechToTextRecognition/ViewController.swift:307-323 | one more pass of the loop adds the next token last |
| `Keywords.AddTokensRepeated` | SpeechToTextRecognition/ViewController.swift:316-323 | three entries of the same non-empty token register it once |
| `Keywords.SameNormalForm` | SpeechToTextRecognition/ViewController.swift:304-323 | three comma-free pieces with one non-empty normal form, entered together into an empty registry, register that normal form alone |
| `Keywords.NormalizationExample` | SpeechToTextRecognition/ViewController.swift:304-323 | entering " Alpha ,alpha,ALPHA" into an empty registry registers "alpha" alone |
| `Keywords.SpellingsOfAlpha` | SpeechToTextRecognition/ViewController.swift:309 | " Alpha ", "alpha" and "ALPHA" share the normal form "alpha" |
| `Keywords.AppendOrderExample` | SpeechToTextRecognition/ViewController.swift:316-323 | entering "a,b" and then "c,a" registers "a", "b", "c" in that order |
| `Keywords.TwoKeywords` | SpeechToTextRecognition/ViewController.swift:304-309 | two keywords separated by a comma yield exactly those two tokens |
| `Keywords.AddTokensTwice` | SpeechToTextRecognition/ViewController.swift:316-323 | adding a, b and then c, a registers a, b, c |
| `Keywords.KeywordsText` | SpeechToTextRecognition/ViewController.swift:247-259 | the display text of an empty registry is empty and holds room for every keyword; `Keywords.KeywordsTextReversed` characterizes it |
| `Keywords.KeywordsTextReversed` | SpeechToTextRecognition/ViewController.swift:247-259 | the displayed text is empty exactly when the registry is, and is otherwise the keywords joined by commas in reverse order; splitting it gives the reversed registry back |
| `Matching.Search` | SpeechToTextRecognition/ViewController.swift:267-280 | the matched string never shrinks and is left alone when the keyword is not in the lower-cased transcript; the `Matching.Search…` lemmas below characterize it |
| `Matching.SearchUnchanged` | SpeechToTextRecognition/ViewController.swift:269-277 | the matched string stays as it was exactly when the lower-cased transcript lacks the keyword or the string already contains it |
| `Matching.SearchKeepsMatches` | SpeechToTextRecognition/ViewController.swift:271-276 | a search never drops a match: the old matched string is a suffix of the new |
| `Matching.SearchRecords` | SpeechToTextRecognition/ViewController.swift:269-276 | a keyword found in the transcript is contained in the matched string afterwards |
| `Matching.SearchIdempotent` | SpeechToTextRecognition/ViewController.swift:267-280 | searching twice with the same transcript and keyword equals searching once |
| `Matching.SearchPrepends` | SpeechToTextRecognition/ViewController.swift:271-276 | a successful search puts the keyword in front of the list of matches, which is otherwise unchanged |
| `Matching.SearchValid` | SpeechToTextRecognition/ViewController.swift:269-276 | searching for a registered keyword keeps the matches distinct registered keywords |
| `Matching.MatchAll` | SpeechToTextRecognition/ViewController.swift:250-253 | the pass never shortens the matched string; the `Matching.MatchAll…` lemmas below characterize which matches it adds and `Matching.MatchAllOrder` their order |
| `Matching.MatchAllKeepsMatches` | SpeechToTextRecognition/ViewController.swift:250-253 | the pass over the registry never drops a match |
| `Matching.MatchAllRecords` | SpeechToTextRecognition/ViewController.swift:250-253 | after the pass, every registered keyword found in the transcript is contained in the matched string |
| `Matching.MatchAllSound` | SpeechToTextRecognition/ViewController.swift:250-276 | the pass records nothing else: every keyword listed afterwards was listed before or is a registered keyword occurring in the lower-cased transcript |
| `Matching.MatchAllUnchanged` | SpeechToTextRecognition/ViewController.swift:250-276 | the pass changes nothing exactly when every registered keyword is absent from the transcript or already contained in the matched string |
| `Matching.MatchAllIdempotent` | SpeechToTextRecognition/ViewController.swift:250-253 | a second pass with the same transcript and registry changes nothing |
| `Matching.MatchAllOrder` | SpeechToTextRecognition/ViewController.swift:250-276 | for a registry without duplicates, the list after the pass is the new matches followed by the old list, and the new matches are registered keywords in reverse registry order |
| `Matching.NewMatchOrderExample` | SpeechToTextRecognition/ViewController.swift:250-276 | with "cat" already matched, the registry cat, dog, bird and the transcript "cat dog bird", the pass gives "bird,dog,cat" |
| `Matching.MatchAllValid` | SpeechToTextRecognition/ViewController.swift:250-276 | the pass keeps the matches distinct registered keywords |
| `Matching.EmptyTranscriptMatchesNothing` | SpeechToTextRecognition/ViewController.swift:269 | with an empty transcript the pass changes nothing |
| `Matching.CaseInsensitiveExample` | SpeechToTextRecognition/ViewController.swift:269 | the keyword "cat" is found in the transcript "I SAW A CAT" |
| `Matching.OnlyPresentKeywordsListed` | SpeechToTextRecognition/ViewController.swift:250-276 | with "cat" and "dog" registered and the transcript "I have a cat", the pass lists "cat" alone |
| `Matching.SubstringShadowsKeyword` | SpeechToTextRecognition/ViewController.swift:274 | with "cats" registered before "cat" and the transcript "cats", the pass lists "cats" only, though "cat" is present |
| `SpeechController.SpeechStatus` | SpeechToTextRecognition/ViewController.swift:18-22 | the three states of the microphone: ready, recognizing and unavailable |
| `SpeechController.EnteredTokens` | SpeechToTextRecognition/ViewController.swift:296-309 | a field without text enters no token, and every entered token is empty or a keyword |
| `SpeechController.StatusAfterAuthorizationCheck` | SpeechToTextRecognition/ViewController.swift:126-135 | an undetermined authorization leaves the status as it was; otherwise the status is ready exactly when authorized and unavailable when denied or restricted |
| `SpeechController.BlankTextAddsNothing` | SpeechToTextRecognition/ViewController.swift:302 | empty text adds no keyword, so skipping the loop for it changes nothing |
| `SpeechController.ValidMatchesExtend` | SpeechToTextRecognition/ViewController.swift:316-323 | matches valid for a registry stay valid once keywords are appended |
| `SpeechController.ViewController.constructor` | SpeechToTextRecognition/ViewController.swift:37-59 | a new controller is ready, with an empty transcript, registry and matched string, and keyword entry hidden |
| `SpeechController.ViewController.RequestAndCheckSpeechAuthorization` | SpeechToTextRecognition/ViewController.swift:124-136 | the status becomes the one the authorization check gives; the invariant is kept |
| `SpeechController.ViewController.OnTapOfMicButton` | SpeechToTextRecognition/ViewController.swift:106-119 | ready becomes recognizing with an empty registry and matched string and the transcript kept; recognizing becomes ready with keyword entry shown and nothing else changed; unavailable changes nothing |
| `SpeechController.ViewController.ResetTextForNewSpeech` | SpeechToTextRecognition/ViewController.swift:220-237 | the status is recognizing, keyword entry is hidden, the registry, the matches and the text views are cleared, and the transcript is kept |
| `SpeechController.ViewController.ResetTextAfterRecognitionIsCompleted` | SpeechToTextRecognition/ViewController.swift:239-243 | the status is ready and keyword entry is shown |
| `SpeechController.ViewController.OnRecognitionResult` | SpeechToTextRecognition/ViewController.swift:189-201 | a result replaces the transcript and its text view wholesale; an error changes nothing; the matches are not touched |
| `SpeechController.ViewController.TextFieldDidEndEditing` | SpeechToTextRecognition/ViewController.swift:294-336 | the registry becomes the old one with the new normalized pieces appended; the display shows it newest first; the matched string is the result of the pass over the new registry; the invariant is kept |
| `SpeechController.ViewController.AppendKeywords` | SpeechToTextRecognition/ViewController.swift:304-325 | the loop over the pieces leaves the registry equal to the fold of its normalized pieces over the old one |
| `SpeechController.ViewController.DisplayKeywords` | SpeechToTextRecognition/ViewController.swift:245-264 | the loop leaves the display text equal to the registry joined newest first and the matched string equal to the pass over the registry; it restores the invariant |
| `SpeechController.ViewController.SearchFullSpeech` | SpeechToTextRecognition/ViewController.swift:267-280 | the matched string becomes the one `Search` gives, and the found-keywords view shows it whenever the keyword is in the transcript |

## Left out

- Layout and styling in `viewDidLoad`, the tap gesture and keyboard dismissal, `textFieldShouldReturn`, the title label, the mic button's selected state, the wave animation, the clearing of the keyword field after entry, and every `print`: these are user interface with no bearing on the keywords or the matches.
- Audio engine and recognition task setup, start, stop and cancellation (`recordAndRecognizeSpeech`, `cancelRecording`): these are platform audio and recognizer calls. Only the recognizer callback's transcript assignment is modelled, as `OnRecognitionResult`. The `recognizing` status that `recordAndRecognizeSpeech` sets after the engine starts is the one `resetTextForNewSpeech` has already set.
- `askSpeechPermission`, the asynchronous permission prompt: its callback runs later on the main queue. For an undetermined authorization the model keeps the status as it was.
- The `@unknown default: fatalError()` branch of the authorization check: the modelled authorization status has only the four known cases.
- `speechRecognizer(_:availabilityDidChange:)`: it only prints.
- The instance field `searchString`: it is only ever set to the empty string. `displayKeywords` shadows it with a local of the same name.
- Text.Lower: lower-cases ASCII letters only, not the full Unicode case mapping of `lowercased()`.
- Text.Trim: trims per Unicode scalar using the scalar set of `whitespacesAndNewlines`, not per grapheme cluster.
- Text.Contains: treats the empty string as contained in every string. Foundation's answer for an empty argument has varied between releases. The controller never searches for an empty keyword.
- Text.Contains: searches over sequences of Unicode scalars. Swift's `String.contains` matches up to canonical equivalence, so "\u{E9}" and "e\u{301}" find each other there but not here.
- Keywords.AddToken: compares keywords as sequences of Unicode scalars. Swift's `==`, and so `Array.contains` on strings, uses canonical equivalence, so the registry here can hold two keywords the app treats as one.
- SpeechController.ViewController.constructor: starts the text views empty. Their initial storyboard contents are not part of this model.

## Findings

None. The model keeps the substring-based duplicate check for matches as
written. `Matching.SubstringShadowsKeyword` records the behaviour it leads to.
