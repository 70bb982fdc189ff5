# Gemini flashcard generator: parser and session, in Dafny

This project models the core of `gemini-flashcards/app.py`. That single-file
Streamlit page takes an uploaded document and extracts its text. It asks a
Gemini model for "Q: ... / A: ..." pairs about that text and parses the reply
into flashcards. The user then pages through, flips and shuffles the cards.

The files:

- `wrappers.dfy` (`Wrappers`) holds the `Option` type. It stands for a value
  that Python tests for `None`.
- `pystr.dfy` (`PyStr`) holds the parts of Python's `str` that the parser
  relies on:
  - `strip()` with no argument, over the characters for which `str.isspace()` holds;
  - `split(sep)`, which cuts at every leftmost, non-overlapping occurrence;
  - `sep.join(pieces)`;
  - `endswith`.

  The lemmas about them include `join(split(s)) == s`, the converse for
  pieces that do not contain the separator, and the number of pieces.
- `flashcards.dfy` (`Flashcards`) models `parse_flashcards`:
  - `Parse` is a specification function.
  - `ParseFlashcards` is a method with the source's loop, proved equal to `Parse`.
  - The lemmas cover what the parser promises. The text before the first "Q:"
    is ignored. A segment without exactly one "A:" is dropped. There is at most
    one card per "Q:". Fields come out stripped. A reply written in the
    prompt's "Q: ... A: ..." format parses back to the cards it was written from.
- `extract.dfy` (`Extract`) models the suffix dispatch of `extract_text`.
- `session.dfy` (`Session`) models the four `st.session_state` entries and
  the buttons:
  - `SessionState` is the state as a value, with one function per button.
  - `FlashcardSession` is a class with the same four fields. Each of its
    methods is proved to keep the invariant and to change the fields exactly
    as the matching function does. The card on screen is `State().Face()`.
  - The lemmas about the functions state the page's invariant and what the
    buttons promise. The invariant: the index names a card whenever there
    are cards, and is 0 otherwise. It holds after any sequence of uploads
    and button presses.

Where the behaviour of the code could be read differently, the model follows
the code:

- "Regenerate" and "Generate Flashcards" leave the same state. Only
  "Generate Flashcards" reports a reply that parsed to no cards
  (app.py:123-126 against app.py:135-139).
- Nothing makes a card's sides non-empty: the reply "Q:A:" gives one card
  with two empty sides (`ParseEmptyCard`).
- A segment is kept only when it holds exactly one "A:". This follows from
  the two-name unpacking at app.py:56: any other count raises `ValueError`,
  which the loop skips.

## Model

| member | source | states |
|---|---|---|
| PyStr.Strip | gemini-flashcards/app.py:53 | `strip()` leaves a text that neither starts nor ends with whitespace, and is no longer than its argument |
| PyStr.StripBounds | gemini-flashcards/app.py:53 | the stripped text is a slice of the argument with only whitespace before and after it |
| PyStr.StripSurrounded | gemini-flashcards/app.py:53 | whitespace around a core that neither starts nor ends with whitespace is exactly what `strip()` removes |
| PyStr.StripFixed | gemini-flashcards/app.py:57 | `strip()` leaves a text unchanged exactly when it neither starts nor ends with whitespace |
| PyStr.StripIdempotent | gemini-flashcards/app.py:57 | stripping twice is stripping once |
| PyStr.TrimEndAfter | gemini-flashcards/app.py:53 | right-stripping stops at the last non-whitespace character |
| PyStr.StripTrimEnd | gemini-flashcards/app.py:53-57 | stripping a right-stripped text is stripping the text |
| PyStr.Split | gemini-flashcards/app.py:53 | `split(sep)` gives at least one piece; the first is a prefix of the text; no piece contains the separator |
| PyStr.JoinSplit | gemini-flashcards/app.py:53 | joining the pieces of a split with the same separator gives the text back |
| PyStr.SplitJoin | gemini-flashcards/app.py:53 | splitting a join of pieces that do not contain the separator gives the pieces back |
| PyStr.SplitCons | gemini-flashcards/app.py:53 | a text cut at its first separator splits into that first piece followed by the split of the rest |
| PyStr.SplitCount | gemini-flashcards/app.py:53-56 | `split` on "Q:" or "A:" gives one piece more than there are occurrences of the separator |
| PyStr.StripOccurrences | gemini-flashcards/app.py:53 | stripping never adds an occurrence of a two-character separator |
| PyStr.Join | gemini-flashcards/app.py:15-18 | `sep.join(pieces)`: no pieces give the empty text, otherwise the text starts with the first piece |
| PyStr.EndsWith | gemini-flashcards/app.py:13-19 | `endswith` holds exactly when the text is some prefix followed by the suffix |
| PyStr.JoinSnoc | gemini-flashcards/app.py:53 | joining one piece more appends the separator and that piece |
| Flashcards.CardOf | gemini-flashcards/app.py:56-57 | a segment yields a card only when it holds a single "A:", and that card's sides are stripped |
| Flashcards.Cards | gemini-flashcards/app.py:54-59 | the segments yield at most one card each |
| Flashcards.ParseFlashcards | gemini-flashcards/app.py:50-60 | the loop returns exactly `Parse(text)`: the cards of the segments after the first "Q:" of the stripped text, in order |
| Flashcards.CardsPrefixStep | gemini-flashcards/app.py:54-59 | proof step for `ParseFlashcards`'s loop invariant: one more segment appends its card, if it has one, and nothing else |
| Flashcards.CardsAppend | gemini-flashcards/app.py:54-59 | segments contribute independently and in order: the cards of `a + b` are those of `a` followed by those of `b` |
| Flashcards.CardOfExactlyOneAnswer | gemini-flashcards/app.py:56-58 | a segment yields a card if and only if it holds exactly one "A:" |
| Flashcards.CardOfNotOneAnswer | gemini-flashcards/app.py:58-59 | a segment with no "A:" or with several yields nothing |
| Flashcards.CardsSkipMalformed | gemini-flashcards/app.py:55-59 | a segment without exactly one "A:" is dropped, and the segments around it parse as if it were absent |
| Flashcards.CardsSingle | gemini-flashcards/app.py:54-59 | proof step for `CardsPrefixStep`: a single segment yields its card or nothing |
| Flashcards.CardOfSplitsAtAnswer | gemini-flashcards/app.py:56-57 | the question is the stripped text before the "A:" and the answer the stripped text after it |
| Flashcards.CardsStripped | gemini-flashcards/app.py:57 | every card built from segments has stripped sides |
| Flashcards.Parse | gemini-flashcards/app.py:50-60 | what `parse_flashcards` returns: every question and every answer in it is stripped |
| Flashcards.ParseAtMostOnePerQuestion | gemini-flashcards/app.py:53-59 | there are never more cards than occurrences of "Q:" in the reply |
| Flashcards.ParseWithoutQuestion | gemini-flashcards/app.py:53 | a reply without "Q:" gives no cards |
| Flashcards.ParseNothing | gemini-flashcards/app.py:52-53 | the empty reply gives no cards |
| Flashcards.StripAroundQuestion | gemini-flashcards/app.py:53 | stripping a reply with a "Q:" removes only the whitespace before the text before it and at the end |
| Flashcards.ParseIgnoresPreamble | gemini-flashcards/app.py:53 | text before the first "Q:" never changes the result |
| Flashcards.ParseOneSegment | gemini-flashcards/app.py:53-59 | a reply with a single "Q:" at its start parses as its one right-stripped segment |
| Flashcards.ParseOneCard | gemini-flashcards/app.py:53-59 | one question and one answer without markers give exactly their stripped card |
| Flashcards.ParseEmptyCard | gemini-flashcards/app.py:56-57 | "Q:A:" gives one card with two empty sides |
| Flashcards.Bodies | gemini-flashcards/app.py:37-39 | the text after each "Q:" of the prompt's format, one per card, in order |
| Flashcards.RenderIsJoin | gemini-flashcards/app.py:37-39 | a reply in the prompt's format is its card bodies joined with "Q:" |
| Flashcards.Render | gemini-flashcards/app.py:37-39 | the reply in the prompt's format: empty for no cards, otherwise starting with "Q:" |
| Flashcards.RenderSnoc | gemini-flashcards/app.py:37-39 | proof step for `RenderSnocJoin`: one card more appends its "Q: ... A: ..." block |
| Flashcards.RenderSnocJoin | gemini-flashcards/app.py:37-39 | a formatted reply is the join of its bodies followed by the last card's trailing whitespace |
| Flashcards.StripRender | gemini-flashcards/app.py:37-39 | stripping a formatted reply removes only the last card's trailing whitespace |
| Flashcards.SplitRender | gemini-flashcards/app.py:37-39 | splitting a stripped formatted reply on "Q:" gives an empty preamble followed by one body per card |
| Flashcards.CardsOfBodies | gemini-flashcards/app.py:37-39 | the bodies of marker-free, stripped cards parse back to those cards |
| Flashcards.CardsOfRendered | gemini-flashcards/app.py:37-39 | the bodies of a formatted reply, the last one right-stripped, parse back to its cards |
| Flashcards.ParseRenderSnoc | gemini-flashcards/app.py:37-39 | a non-empty reply in the prompt's format parses back to its cards |
| Flashcards.ParseRender | gemini-flashcards/app.py:37-39 | `parse_flashcards` of a reply in the prompt's format gives back the cards it was written from, in order |
| Extract.SuffixesExclusive | gemini-flashcards/app.py:13-19 | no file name ends with two of ".pdf", ".docx" and ".txt" |
| Extract.KindOf | gemini-flashcards/app.py:13-22 | the branch taken is "pdf" exactly when the name ends with ".pdf", and likewise for ".docx" and ".txt", whatever the order of the tests |
| Extract.ExtractText | gemini-flashcards/app.py:11-23 | PDF pages run together, DOCX paragraphs one per line, a text file as decoded, anything else the empty text |
| Extract.UnsupportedGivesNothing | gemini-flashcards/app.py:21-22 | a file of any other type gives the empty text |
| Session.SessionState.Upload | gemini-flashcards/app.py:106-107 | an upload replaces the extracted text, changes nothing else, and keeps the invariant |
| Session.SessionState.Replace | gemini-flashcards/app.py:120-122 | the parsed reply replaces the cards, shown from the first one, question side up; the invariant holds |
| Session.SessionState.Regenerated | gemini-flashcards/app.py:114-141 | the state changes only when text was extracted and the reply is truthy, and then it is the parsed reply; the invariant is kept |
| Session.SessionState.Clear | gemini-flashcards/app.py:153-158 | no cards, index 0, question side up; the invariant holds; the extracted text stays |
| Session.SessionState.Previous | gemini-flashcards/app.py:167-172 | the state changes if and only if the index is above 0, and then the index drops by one and the question side is up; the cards and the text stay; the invariant is kept |
| Session.SessionState.Next | gemini-flashcards/app.py:173-178 | the state changes if and only if the index is below the last card, and then the index rises by one and the question side is up; the cards and the text stay; the invariant is kept |
| Session.SessionState.Shuffle | gemini-flashcards/app.py:179-184 | the same cards, as a multiset, from the first one, question side up, the text unchanged |
| Session.SessionState.Face | gemini-flashcards/app.py:188-196 | the text on screen is the current card's question, or its answer once flipped |
| Session.SessionState.Flip | gemini-flashcards/app.py:198-200 | only the flip flag changes, to its negation |
| Session.Truthy | gemini-flashcards/app.py:119 | a reply counts only when it is present and not the empty text |
| Session.InitialValid | gemini-flashcards/app.py:101-104 | `Initial`, the page's first state: no cards, index 0, question side up, no text, and the invariant holds |
| Session.GenerateOutcome | gemini-flashcards/app.py:114-128 | "upload first" exactly when no text was extracted; "no cards" exactly when a truthy reply parsed to nothing |
| Session.RegenerateOutcome | gemini-flashcards/app.py:130-141 | "Regenerate" never reports an empty result |
| Session.OutcomesAgree | gemini-flashcards/app.py:114-141 | the two buttons report the same, except that only "Generate Flashcards" reports no cards |
| Session.GeneratedCardsBound | gemini-flashcards/app.py:118-126 | a reply that replaced the cards yields at least one and at most one card per "Q:" |
| Session.ReplyWithoutQuestions | gemini-flashcards/app.py:119-124 | a truthy reply without "Q:" empties the cards and is reported as giving none |
| Session.NextThenPrevious | gemini-flashcards/app.py:167-178 | "Next" then "Previous" comes back to the same card, question side up |
| Session.PreviousThenNext | gemini-flashcards/app.py:167-178 | "Previous" then "Next" comes back to the same card, question side up |
| Session.FlipTwice | gemini-flashcards/app.py:198-200 | flipping twice restores the state |
| Session.FlipShowsOtherSide | gemini-flashcards/app.py:189-200 | after a flip the card on screen shows its other side |
| Session.ClearForgets | gemini-flashcards/app.py:153-158 | "Clear" forgets everything but the extracted text |
| Session.Step | gemini-flashcards/app.py:106-200 | one upload or button press: keeps the invariant; only an upload changes the text; only generating or clearing changes which cards there are |
| Session.Run | gemini-flashcards/app.py:101-200 | presses in order: none leave the state alone, one is that press's `Step` |
| Session.RunKeepsValid | gemini-flashcards/app.py:101-200 | any sequence of uploads and button presses keeps the invariant |
| Session.ReachableValid | gemini-flashcards/app.py:101-104 | the invariant holds from the page's first run on |
| Session.RunKeepsDocument | gemini-flashcards/app.py:106-107 | only an upload changes the extracted text |
| Session.RunKeepsDeck | gemini-flashcards/app.py:153-184 | without generating or clearing, the cards stay the same multiset |
| Session.NextRepeated | gemini-flashcards/app.py:173-178 | pressing "Next" k times moves k cards on and stops at the last card |
| Session.Swap | gemini-flashcards/app.py:181 | a swap keeps the length |
| Session.SwapPermutes | gemini-flashcards/app.py:181 | a swap keeps the same cards |
| Session.ShuffledFrom | gemini-flashcards/app.py:181 | the swaps from a position on keep the length |
| Session.ShuffledFromStep | gemini-flashcards/app.py:181 | proof step for `ShuffleCards`'s loop invariant: each step of the shuffle swaps its position with one at or below it |
| Session.ShuffledFromPermutes | gemini-flashcards/app.py:181 | the swaps from a position on keep the same cards |
| Session.ShuffledFromFirst | gemini-flashcards/app.py:181 | position 0 can only be swapped with itself |
| Session.Shuffled | gemini-flashcards/app.py:181 | `random.shuffle` keeps the same cards |
| Session.ShuffleCards | gemini-flashcards/app.py:181 | the swap loop of `random.shuffle` computes `Shuffled` |
| Session.FlashcardSession.constructor | gemini-flashcards/app.py:101-104 | no cards, index 0, not flipped, no text; the invariant holds |
| Session.FlashcardSession.Upload | gemini-flashcards/app.py:106-107 | the invariant is kept; the fields change as `SessionState.Upload` with the extracted text |
| Session.FlashcardSession.Replace | gemini-flashcards/app.py:120-122 | the invariant is kept; the fields change as `SessionState.Replace` |
| Session.FlashcardSession.Generate | gemini-flashcards/app.py:114-128 | the invariant is kept; the fields change as `SessionState.Regenerated`, and the report is `GenerateOutcome` |
| Session.FlashcardSession.Regenerate | gemini-flashcards/app.py:130-141 | the invariant is kept; the fields change as `SessionState.Regenerated`, and the report is `RegenerateOutcome` |
| Session.FlashcardSession.Clear | gemini-flashcards/app.py:153-158 | the invariant is kept; the fields change as `SessionState.Clear` |
| Session.FlashcardSession.Previous | gemini-flashcards/app.py:167-172 | the invariant is kept; the fields change as `SessionState.Previous` |
| Session.FlashcardSession.Next | gemini-flashcards/app.py:173-178 | the invariant is kept; the fields change as `SessionState.Next` |
| Session.FlashcardSession.Shuffle | gemini-flashcards/app.py:179-184 | the invariant is kept; the fields change as `SessionState.Shuffle`, and the cards are a permutation of the old ones |
| Session.FlashcardSession.Flip | gemini-flashcards/app.py:198-200 | the invariant is kept; the fields change as `SessionState.Flip` |

## Left out

- `generate_flashcards` (app.py:25-48) is left out: the API key check, the Gemini call and its exceptions. Its result is the `reply: Option<string>` parameter of the generate buttons, with `None` for every failure. The prompt's wording is not modelled. Only the reply format it asks for is modelled, as `Render`.
- `convert_to_csv` and the download button (app.py:62-65, 143-151) are left out: they are pandas serialisation with no state change.
- The Streamlit page is left out: the page setup, CSS, title, sidebar, spinners, `st.rerun()` and the "Card k of n" caption. The error and warning messages appear only as the `Outcome` values.
- The PDF and DOCX libraries and the UTF-8 decoding are left out. What they return is a field of `UploadedFile`. A decoding error, which the code does not catch, is not modelled.
- The randomness of `random.shuffle` is a parameter: `pick(i) % (i + 1)` stands for the draw below `i + 1`. Nothing is claimed about uniformity.
- Session.FlashcardSession.Shuffle: the cards are a sequence that the method replaces as a whole. Aliasing of the list by other references is not modelled.
- The navigation, shuffle and flip buttons are drawn only while there are cards (app.py:163). The model's operations are total on every state: "Next" and "Previous" change nothing without cards, and "Flip" toggles the flag.
- PyStr.SplitJoin, PyStr.SplitCons, PyStr.SplitCount: these are proved only for two-character separators made of two different characters, as "Q:" and "A:" are. They are not proved for every separator Python accepts.
- PyStr.Strip: whitespace is the fixed set of characters for which `str.isspace()` holds. Python's Unicode database is not modelled beyond that set.
- Flashcards.ParseRender: the round trip is stated for cards that are already stripped and contain neither marker. Other cards cannot survive the format.
