/**
 * The page's session state (`st.session_state`) and the buttons that change
 * it. `SessionState` is the state as a value, with one function per button;
 * `FlashcardSession` holds the same four fields and updates them in place,
 * each method proved to move its fields as the matching function says.
 */
module Session {

  import opened Wrappers
  import opened PyStr
  import opened Flashcards
  import Extract

  /** What a press of "Generate Flashcards" or "Regenerate" reports. */
  datatype Outcome =
    | NoDocument  // nothing extracted yet: "Please upload a file first."
    | NoReply     // the model gave nothing (`None` or ""): the state is left alone
    | NoCards     // the reply parsed to no cards: "No flashcards generated."
    | Replaced    // the new cards are shown from the first one, question side up

  /** A model reply is used only when it is truthy: present and not empty. */
  predicate Truthy(reply: Option<string>)
    ensures Truthy(reply) <==> reply != None && reply != Some("")
  {
    reply.Some? && reply.value != ""
  }

  datatype SessionState = SessionState(
    flashcards: seq<Card>,
    cardIndex: int,
    flipped: bool,
    extractedText: string)
  {
    /** The index names a card whenever there are cards, and is 0 otherwise. */
    predicate Valid()
    {
      if flashcards == [] then cardIndex == 0 else 0 <= cardIndex < |flashcards|
    }

    /** A new upload replaces the extracted text and nothing else. */
    function Upload(text: string): (r: SessionState)
      ensures Valid() ==> r.Valid()
      ensures r.extractedText == text
      ensures r.(extractedText := extractedText) == this
    {
      this.(extractedText := text)
    }

    /** The cards parsed from `reply`, shown from the first one, question side up. */
    function Replace(reply: string): (r: SessionState)
      ensures r.Valid()
      ensures r.flashcards == Parse(reply) && r.cardIndex == 0 && !r.flipped
      ensures r.extractedText == extractedText
    {
      this.(flashcards := Parse(reply), cardIndex := 0, flipped := false)
    }

    /**
     * The state after either generate button: the reply replaces the cards
     * only when a document was extracted and the reply is truthy.
     */
    function Regenerated(reply: Option<string>): (r: SessionState)
      ensures Valid() ==> r.Valid()
      ensures r != this ==> extractedText != "" && Truthy(reply)
      ensures extractedText != "" && Truthy(reply) ==> r == Replace(reply.value)
    {
      if extractedText != "" && Truthy(reply) then Replace(reply.value) else this
    }

    /** "Clear": no cards, back to the start; the extracted text stays. */
    function Clear(): (r: SessionState)
      ensures r.Valid()
      ensures r.flashcards == [] && r.cardIndex == 0 && !r.flipped
      ensures r.extractedText == extractedText
    {
      SessionState([], 0, false, extractedText)
    }

    /** "Previous": one card back, question side up, unless already at the first card. */
    function Previous(): (r: SessionState)
      ensures Valid() ==> r.Valid()
      ensures r.flashcards == flashcards && r.extractedText == extractedText
      ensures cardIndex > 0 <==> r != this
      ensures cardIndex > 0 ==> r.cardIndex == cardIndex - 1 && !r.flipped
    {
      if cardIndex > 0 then this.(cardIndex := cardIndex - 1, flipped := false) else this
    }

    /** "Next": one card on, question side up, unless already at the last card. */
    function Next(): (r: SessionState)
      ensures Valid() ==> r.Valid()
      ensures r.flashcards == flashcards && r.extractedText == extractedText
      ensures cardIndex < |flashcards| - 1 <==> r != this
      ensures cardIndex < |flashcards| - 1 ==> r.cardIndex == cardIndex + 1 && !r.flipped
    {
      if cardIndex < |flashcards| - 1 then this.(cardIndex := cardIndex + 1, flipped := false) else this
    }

    /** "Shuffle": the cards in a new order, shown from the first one, question side up. */
    function Shuffle(pick: nat -> nat): (r: SessionState)
      ensures r.Valid()
      ensures multiset(r.flashcards) == multiset(flashcards)
      ensures r.cardIndex == 0 && !r.flipped && r.extractedText == extractedText
    {
      this.(flashcards := Shuffled(flashcards, pick), cardIndex := 0, flipped := false)
    }

    /** "Flip Card": the other side of the same card. */
    function Flip(): (r: SessionState)
      ensures Valid() ==> r.Valid()
      ensures r.flipped != flipped
      ensures r.(flipped := flipped) == this
    {
      this.(flipped := !flipped)
    }

    /** The text on the card on screen: its question, or its answer once flipped. */
    function Face(): (text: string)
      requires Valid() && flashcards != []
      ensures !flipped ==> text == flashcards[cardIndex].question
      ensures flipped ==> text == flashcards[cardIndex].answer
    {
      var card := flashcards[cardIndex];
      if flipped then card.answer else card.question
    }
  }

  /** The state the page starts from. */
  const Initial: SessionState := SessionState([], 0, false, "")

  /** The page starts with no cards, at the first position, question side up, with no text. */
  lemma InitialValid()
    ensures Initial.Valid()
    ensures Initial.flashcards == [] && Initial.cardIndex == 0 && !Initial.flipped
    ensures Initial.extractedText == ""
  {
  }

  /** What "Generate Flashcards" reports. */
  function GenerateOutcome(s: SessionState, reply: Option<string>): (outcome: Outcome)
    ensures outcome == NoDocument <==> s.extractedText == ""
    ensures outcome == NoReply <==> s.extractedText != "" && !Truthy(reply)
    ensures outcome == NoCards <==> s.extractedText != "" && Truthy(reply) && s.Regenerated(reply).flashcards == []
    ensures outcome == Replaced <==> s.extractedText != "" && Truthy(reply) && s.Regenerated(reply).flashcards != []
  {
    if s.extractedText == "" then NoDocument
    else if !Truthy(reply) then NoReply
    else if Parse(reply.value) == [] then NoCards
    else Replaced
  }

  /** What "Regenerate" reports: the same, except that no cards is not reported. */
  function RegenerateOutcome(s: SessionState, reply: Option<string>): (outcome: Outcome)
    ensures outcome != NoCards
  {
    if s.extractedText == "" then NoDocument
    else if !Truthy(reply) then NoReply
    else Replaced
  }

  // ---------------------------------------------------------------------
  // What the buttons promise
  // ---------------------------------------------------------------------

  /** The two generate buttons leave the same state and differ only in reporting no cards. */
  lemma OutcomesAgree(s: SessionState, reply: Option<string>)
    ensures RegenerateOutcome(s, reply) ==
            if GenerateOutcome(s, reply) == NoCards then Replaced else GenerateOutcome(s, reply)
  {
  }

  /** A reply never yields more cards than it has "Q:" markers. */
  lemma GeneratedCardsBound(s: SessionState, reply: Option<string>)
    requires GenerateOutcome(s, reply) == Replaced
    ensures 0 < |s.Regenerated(reply).flashcards| <= Occurrences(reply.value, QuestionMarker)
  {
    ParseAtMostOnePerQuestion(reply.value);
  }

  /** A truthy reply with no "Q:" in it is reported as giving no cards. */
  lemma ReplyWithoutQuestions(s: SessionState, reply: Option<string>)
    requires s.extractedText != "" && Truthy(reply)
    requires !Contains(reply.value, QuestionMarker)
    ensures GenerateOutcome(s, reply) == NoCards
    ensures s.Regenerated(reply) == s.(flashcards := [], cardIndex := 0, flipped := false)
  {
    ParseWithoutQuestion(reply.value);
  }

  /** "Next" then "Previous" comes back to the same card, question side up. */
  lemma NextThenPrevious(s: SessionState)
    requires s.Valid() && s.cardIndex < |s.flashcards| - 1
    ensures s.Next().Previous() == s.(flipped := false)
  {
  }

  /** "Previous" then "Next" comes back to the same card, question side up. */
  lemma PreviousThenNext(s: SessionState)
    requires s.Valid() && s.cardIndex > 0
    ensures s.Previous().Next() == s.(flipped := false)
  {
  }

  /** Flipping twice shows the side that was shown before. */
  lemma FlipTwice(s: SessionState)
    ensures s.Flip().Flip() == s
  {
  }

  /** Flipping shows the other side of the same card. */
  lemma FlipShowsOtherSide(s: SessionState)
    requires s.Valid() && s.flashcards != []
    ensures s.Flip().Face() ==
            if s.flipped then s.flashcards[s.cardIndex].question else s.flashcards[s.cardIndex].answer
  {
  }

  /** "Clear" forgets everything but the extracted text. */
  lemma ClearForgets(s: SessionState, t: SessionState)
    requires s.extractedText == t.extractedText
    ensures s.Clear() == t.Clear()
  {
  }

  // ---------------------------------------------------------------------
  // Sequences of button presses
  // ---------------------------------------------------------------------

  /** One interaction with the page. */
  datatype Action =
    | UploadFile(file: Extract.UploadedFile)
    | PressGenerate(reply: Option<string>)
    | PressRegenerate(reply: Option<string>)
    | PressClear
    | PressPrevious
    | PressNext
    | PressShuffle(pick: nat -> nat)
    | PressFlip

  function Step(s: SessionState, a: Action): (r: SessionState)
    ensures s.Valid() ==> r.Valid()
    ensures !IsUpload(a) ==> r.extractedText == s.extractedText
    ensures !ChangesDeck(a) ==> multiset(r.flashcards) == multiset(s.flashcards)
  {
    match a
    case UploadFile(file) => s.Upload(Extract.ExtractText(file))
    case PressGenerate(reply) => s.Regenerated(reply)
    case PressRegenerate(reply) => s.Regenerated(reply)
    case PressClear => s.Clear()
    case PressPrevious => s.Previous()
    case PressNext => s.Next()
    case PressShuffle(pick) => s.Shuffle(pick)
    case PressFlip => s.Flip()
  }

  /** The state after `actions`, in order. */
  function Run(s: SessionState, actions: seq<Action>): (r: SessionState)
    ensures actions == [] ==> r == s
    ensures |actions| == 1 ==> r == Step(s, actions[0])
    decreases |actions|
  {
    if actions == [] then s else Run(Step(s, actions[0]), actions[1..])
  }

  /** However the page is used, the index always names a card when there are cards. */
  lemma {:induction false} RunKeepsValid(s: SessionState, actions: seq<Action>)
    requires s.Valid()
    ensures Run(s, actions).Valid()
    decreases |actions|
  {
    if actions != [] {
      RunKeepsValid(Step(s, actions[0]), actions[1..]);
    }
  }

  /** From the first run of the page on, the index always names a card when there are cards. */
  lemma ReachableValid(actions: seq<Action>)
    ensures Run(Initial, actions).Valid()
  {
    RunKeepsValid(Initial, actions);
  }

  predicate IsUpload(a: Action) { a.UploadFile? }

  predicate ChangesDeck(a: Action)
  {
    a.PressGenerate? || a.PressRegenerate? || a.PressClear?
  }

  /** Only an upload changes the extracted text. */
  lemma {:induction false} RunKeepsDocument(s: SessionState, actions: seq<Action>)
    requires forall k | 0 <= k < |actions| :: !IsUpload(actions[k])
    ensures Run(s, actions).extractedText == s.extractedText
    decreases |actions|
  {
    if actions != [] {
      RunKeepsDocument(Step(s, actions[0]), actions[1..]);
    }
  }

  /** Without generating or clearing, the deck keeps the same cards, in whatever order. */
  lemma {:induction false} RunKeepsDeck(s: SessionState, actions: seq<Action>)
    requires forall k | 0 <= k < |actions| :: !ChangesDeck(actions[k])
    ensures multiset(Run(s, actions).flashcards) == multiset(s.flashcards)
    decreases |actions|
  {
    if actions != [] {
      RunKeepsDeck(Step(s, actions[0]), actions[1..]);
    }
  }

  /** Pressing "Next" `k` times moves `k` cards on, and stops at the last card. */
  lemma {:induction false} NextRepeated(s: SessionState, k: nat)
    requires s.Valid() && s.flashcards != []
    ensures Run(s, seq(k, _ => PressNext)).cardIndex ==
            if s.cardIndex + k < |s.flashcards| then s.cardIndex + k else |s.flashcards| - 1
    ensures Run(s, seq(k, _ => PressNext)).flashcards == s.flashcards
    decreases k
  {
    if k > 0 {
      var presses := seq(k, _ => PressNext);
      assert presses[0] == PressNext;
      assert presses[1..] == seq(k - 1, _ => PressNext);
      NextRepeated(s.Next(), k - 1);
    }
  }

  // ---------------------------------------------------------------------
  // Shuffling
  // ---------------------------------------------------------------------

  /** `x[i], x[j] = x[j], x[i]` */
  function Swap(cards: seq<Card>, i: nat, j: nat): (r: seq<Card>)
    requires i < |cards| && j < |cards|
    ensures |r| == |cards|
  {
    cards[i := cards[j]][j := cards[i]]
  }

  lemma SwapPermutes(cards: seq<Card>, i: nat, j: nat)
    requires i < |cards| && j < |cards|
    ensures multiset(Swap(cards, i, j)) == multiset(cards)
  {
  }

  /**
   * `random.shuffle` from position `k` on: the positions `|cards| - 1` down to
   * `k` are each swapped with a position at or below them, the `pick(i) % (i + 1)`
   * standing for the random draw below `i + 1`.
   */
  function ShuffledFrom(cards: seq<Card>, pick: nat -> nat, k: nat): (r: seq<Card>)
    ensures |r| == |cards|
    decreases |cards| - k
  {
    if k >= |cards| then cards
    else Swap(ShuffledFrom(cards, pick, k + 1), k, pick(k) % (k + 1))
  }

  lemma ShuffledFromStep(cards: seq<Card>, pick: nat -> nat, i: nat)
    requires i < |cards|
    ensures ShuffledFrom(cards, pick, i) == Swap(ShuffledFrom(cards, pick, i + 1), i, pick(i) % (i + 1))
  {
  }

  /** Every swap exchanges two cards, so the shuffled cards are the same cards. */
  lemma {:induction false} ShuffledFromPermutes(cards: seq<Card>, pick: nat -> nat, k: nat)
    ensures multiset(ShuffledFrom(cards, pick, k)) == multiset(cards)
    decreases |cards| - k
  {
    if k < |cards| {
      ShuffledFromPermutes(cards, pick, k + 1);
      SwapPermutes(ShuffledFrom(cards, pick, k + 1), k, pick(k) % (k + 1));
    }
  }

  /** Position 0 can only be swapped with itself. */
  lemma ShuffledFromFirst(cards: seq<Card>, pick: nat -> nat)
    ensures ShuffledFrom(cards, pick, 0) == Shuffled(cards, pick)
  {
    if cards != [] {
      var rest := ShuffledFrom(cards, pick, 1);
      assert Swap(rest, 0, 0) == rest;
    }
  }

  /** `random.shuffle(cards)`: the positions from the last down to 1. */
  function Shuffled(cards: seq<Card>, pick: nat -> nat): (r: seq<Card>)
    ensures multiset(r) == multiset(cards)
  {
    ShuffledFromPermutes(cards, pick, 1);
    ShuffledFrom(cards, pick, 1)
  }

  /** The swap loop of `random.shuffle`, from the last position down to position 1. */
  method ShuffleCards(cards: seq<Card>, pick: nat -> nat) returns (r: seq<Card>)
    ensures r == Shuffled(cards, pick)
  {
    r := cards;
    var n: nat := |r|;
    while n > 1
      invariant n <= |r| == |cards|
      invariant r == ShuffledFrom(cards, pick, n)
    {
      var i := n - 1;
      var j := pick(i) % (i + 1);
      ShuffledFromStep(cards, pick, i);
      r := Swap(r, i, j);
      n := i;
    }
    if n == 0 {
      ShuffledFromFirst(cards, pick);
    }
  }

  // ---------------------------------------------------------------------
  // The session as the page keeps it
  // ---------------------------------------------------------------------

  class FlashcardSession {
    var flashcards: seq<Card>
    var cardIndex: int
    var flipped: bool
    var extractedText: string

    function State(): SessionState
      reads this
    {
      SessionState(flashcards, cardIndex, flipped, extractedText)
    }

    predicate Valid()
      reads this
    {
      State().Valid()
    }

    /** The first run of the page: no cards, index 0, not flipped, no text. */
    constructor ()
      ensures State() == Initial && Valid()
    {
      flashcards := [];
      cardIndex := 0;
      flipped := false;
      extractedText := "";
    }

    /** A file in the uploader: its text replaces the extracted text. */
    method Upload(file: Extract.UploadedFile)
      modifies this
      ensures old(Valid()) ==> Valid()
      ensures State() == old(State()).Upload(Extract.ExtractText(file))
    {
      extractedText := Extract.ExtractText(file);
    }

    /** The cards of a truthy reply, shown from the first one, question side up. */
    method Replace(reply: string)
      modifies this
      ensures old(Valid()) ==> Valid()
      ensures State() == old(State()).Replace(reply)
    {
      flashcards := ParseFlashcards(reply);
      cardIndex := 0;
      flipped := false;
    }

    /** "Generate Flashcards", with `reply` what the model answered to the extracted text. */
    method Generate(reply: Option<string>) returns (outcome: Outcome)
      modifies this
      ensures old(Valid()) ==> Valid()
      ensures State() == old(State()).Regenerated(reply)
      ensures outcome == GenerateOutcome(old(State()), reply)
    {
      if extractedText != "" {
        if Truthy(reply) {
          Replace(reply.value);
          if flashcards == [] {
            outcome := NoCards;
          } else {
            outcome := Replaced;
          }
        } else {
          outcome := NoReply;
        }
      } else {
        outcome := NoDocument;
      }
    }

    /** "Regenerate": as "Generate Flashcards", but an empty result is not reported. */
    method Regenerate(reply: Option<string>) returns (outcome: Outcome)
      modifies this
      ensures old(Valid()) ==> Valid()
      ensures State() == old(State()).Regenerated(reply)
      ensures outcome == RegenerateOutcome(old(State()), reply)
    {
      if extractedText != "" {
        if Truthy(reply) {
          Replace(reply.value);
          outcome := Replaced;
        } else {
          outcome := NoReply;
        }
      } else {
        outcome := NoDocument;
      }
    }

    method Clear()
      modifies this
      ensures old(Valid()) ==> Valid()
      ensures State() == old(State()).Clear()
    {
      flashcards := [];
      cardIndex := 0;
      flipped := false;
    }

    method Previous()
      modifies this
      ensures old(Valid()) ==> Valid()
      ensures State() == old(State()).Previous()
    {
      if cardIndex > 0 {
        cardIndex := cardIndex - 1;
        flipped := false;
      }
    }

    method Next()
      modifies this
      ensures old(Valid()) ==> Valid()
      ensures State() == old(State()).Next()
    {
      if cardIndex < |flashcards| - 1 {
        cardIndex := cardIndex + 1;
        flipped := false;
      }
    }

    /** "Shuffle": `random.shuffle` on the cards, then back to the first one. */
    method Shuffle(pick: nat -> nat)
      modifies this
      ensures old(Valid()) ==> Valid()
      ensures State() == old(State()).Shuffle(pick)
      ensures multiset(flashcards) == multiset(old(flashcards))
    {
      var cards := ShuffleCards(flashcards, pick);
      flashcards := cards;
      cardIndex := 0;
      flipped := false;
    }

    method Flip()
      modifies this
      ensures old(Valid()) ==> Valid()
      ensures State() == old(State()).Flip()
    {
      flipped := !flipped;
    }
  }
}
