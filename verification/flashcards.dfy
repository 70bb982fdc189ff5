/**
 * The flashcard parser: the completion text is stripped, cut at every
 * "Q:", the text before the first "Q:" is dropped, and every remaining
 * segment that holds exactly one "A:" becomes a card whose question and
 * answer are the stripped text on either side of that "A:".
 */
module Flashcards {

  import opened Wrappers
  import opened PyStr

  datatype Card = Card(question: string, answer: string)

  const QuestionMarker: string := "Q:"
  const AnswerMarker: string := "A:"

  lemma MarkersAreMarkers()
    ensures Marker(QuestionMarker) && Marker(AnswerMarker)
    ensures !Contains(AnswerMarker, QuestionMarker)
  {
  }

  // ---------------------------------------------------------------------
  // Specification
  // ---------------------------------------------------------------------

  /** The card a segment after a "Q:" yields, if splitting it on "A:" gives two pieces. */
  function CardOf(segment: string): (r: Option<Card>)
    ensures r.Some? ==> Stripped(r.value.question) && Stripped(r.value.answer)
    ensures r.Some? ==> Occurrences(segment, AnswerMarker) == 1
  {
    MarkersAreMarkers();
    SplitCount(segment, AnswerMarker);
    var parts := Split(segment, AnswerMarker);
    if |parts| == 2 then Some(Card(Strip(parts[0]), Strip(parts[1]))) else None
  }

  /** The cards of a sequence of segments, in segment order; the others are skipped. */
  function Cards(segments: seq<string>): (cards: seq<Card>)
    ensures |cards| <= |segments|
  {
    if segments == [] then []
    else
      var init := Cards(segments[..|segments| - 1]);
      match CardOf(segments[|segments| - 1])
      case Some(c) => init + [c]
      case None => init
  }

  /** What `parse_flashcards(text)` returns. */
  function Parse(text: string): (r: seq<Card>)
    ensures forall c | c in r :: Stripped(c.question) && Stripped(c.answer)
  {
    var segments := Split(Strip(text), QuestionMarker)[1..];
    CardsStripped(segments);
    Cards(segments)
  }

  // ---------------------------------------------------------------------
  // The parser as the program runs it
  // ---------------------------------------------------------------------

  /** `parse_flashcards`: one pass over the segments, appending each card found. */
  method ParseFlashcards(text: string) returns (flashcards: seq<Card>)
    ensures flashcards == Parse(text)
  {
    flashcards := [];
    var qaPairs := Split(Strip(text), QuestionMarker)[1..];
    for i := 0 to |qaPairs|
      invariant flashcards == Cards(qaPairs[..i])
    {
      var parts := Split(qaPairs[i], AnswerMarker);
      if |parts| == 2 {
        flashcards := flashcards + [Card(Strip(parts[0]), Strip(parts[1]))];
      }
      CardsPrefixStep(qaPairs, i);
    }
    assert qaPairs[..|qaPairs|] == qaPairs;
  }

  /** One more segment adds its card, if it has one. */
  lemma CardsPrefixStep(segments: seq<string>, i: nat)
    requires i < |segments|
    ensures Cards(segments[..i + 1]) ==
            match CardOf(segments[i])
            case Some(c) => Cards(segments[..i]) + [c]
            case None => Cards(segments[..i])
  {
    assert segments[..i + 1][..i] == segments[..i];
  }

  // ---------------------------------------------------------------------
  // Properties of the parser
  // ---------------------------------------------------------------------

  /** Segments contribute independently and in order. */
  lemma {:induction false} CardsAppend(a: seq<string>, b: seq<string>)
    ensures Cards(a + b) == Cards(a) + Cards(b)
    decreases |b|
  {
    if b == [] {
      assert a + b == a;
    } else {
      var b' := b[..|b| - 1];
      assert (a + b)[..|a + b| - 1] == a + b';
      CardsAppend(a, b');
    }
  }

  /** A segment yields a card exactly when it holds a single "A:". */
  lemma CardOfExactlyOneAnswer(segment: string)
    ensures CardOf(segment).Some? <==> Occurrences(segment, AnswerMarker) == 1
  {
    MarkersAreMarkers();
    SplitCount(segment, AnswerMarker);
  }

  lemma CardOfNotOneAnswer(x: string)
    requires Occurrences(x, AnswerMarker) != 1
    ensures CardOf(x).None?
  {
    CardOfExactlyOneAnswer(x);
  }

  /** A segment with no "A:", or with more than one, is dropped and the segments around it still parse. */
  lemma CardsSkipMalformed(pre: seq<string>, x: string, post: seq<string>)
    requires Occurrences(x, AnswerMarker) != 1
    ensures Cards(pre + [x] + post) == Cards(pre) + Cards(post)
  {
    CardOfNotOneAnswer(x);
    CardsSingle(x);
    CardsAppend(pre, [x]);
    CardsAppend(pre + [x], post);
  }

  lemma CardsSingle(x: string)
    ensures Cards([x]) == if CardOf(x).Some? then [CardOf(x).value] else []
  {
    assert [x][..0] == [];
  }

  /** The question is the stripped text before the "A:", the answer the stripped text after it. */
  lemma CardOfSplitsAtAnswer(q: string, a: string)
    requires !Contains(q, AnswerMarker) && !Contains(a, AnswerMarker)
    ensures CardOf(q + AnswerMarker + a) == Some(Card(Strip(q), Strip(a)))
  {
    MarkersAreMarkers();
    SplitCons(q, AnswerMarker, a);
    SplitWithout(a, AnswerMarker);
  }

  lemma {:induction false} CardsStripped(segments: seq<string>)
    ensures forall c | c in Cards(segments) :: Stripped(c.question) && Stripped(c.answer)
    decreases |segments|
  {
    if segments != [] {
      CardsStripped(segments[..|segments| - 1]);
    }
  }

  /** Each card needs its own "Q:": there are never more cards than occurrences of "Q:". */
  lemma ParseAtMostOnePerQuestion(text: string)
    ensures |Parse(text)| <= Occurrences(text, QuestionMarker)
  {
    MarkersAreMarkers();
    SplitCount(Strip(text), QuestionMarker);
    StripOccurrences(text, QuestionMarker);
  }

  /** Text without any "Q:" (the empty text among it) gives no cards. */
  lemma ParseWithoutQuestion(text: string)
    requires !Contains(text, QuestionMarker)
    ensures Parse(text) == []
  {
    ParseAtMostOnePerQuestion(text);
  }

  /** Whitespace around the first "Q:" and at the end is what the initial `strip()` removes. */
  lemma StripAroundQuestion(preamble: string, rest: string)
    ensures Strip(preamble + QuestionMarker + rest) == TrimStart(preamble) + QuestionMarker + TrimEnd(rest)
  {
    var i := SpanStart(preamble, 0);
    var j := SpanEnd(rest, |rest|);
    var lead, head := preamble[..i], preamble[i..];
    var body, tail := rest[..j], rest[j..];
    assert AllSpace(lead) && AllSpace(tail);
    var m := head + QuestionMarker + body;
    assert m[|head|] == 'Q';
    assert !IsSpace(m[0]) && !IsSpace(m[|m| - 1]);
    assert preamble + QuestionMarker + rest == lead + m + tail;
    StripSurrounded(lead, m, tail);
  }

  /** Whatever precedes the first "Q:" never contributes to the result. */
  lemma ParseIgnoresPreamble(preamble: string, rest: string)
    requires !Contains(preamble, QuestionMarker)
    ensures Parse(preamble + QuestionMarker + rest) == Parse(QuestionMarker + rest)
  {
    MarkersAreMarkers();
    var head, body := TrimStart(preamble), TrimEnd(rest);
    NoSepInSlice(preamble, SpanStart(preamble, 0), |preamble|, QuestionMarker);
    assert preamble[SpanStart(preamble, 0)..|preamble|] == head;
    StripAroundQuestion(preamble, rest);
    SplitCons(head, QuestionMarker, body);
    StripAroundQuestion([], rest);
    assert [] + QuestionMarker + rest == QuestionMarker + rest;
    assert TrimStart([]) == [];
    SplitCons([], QuestionMarker, body);
  }

  // ---------------------------------------------------------------------
  // Round trip with the format the prompt asks for
  // ---------------------------------------------------------------------

  /** A card as the prompt asks the model to write it: "Q: ..." then "A: ...", one per line. */
  function Block(c: Card): string
  {
    QuestionMarker + Body(c)
  }

  function QuestionPart(c: Card): string { " " + c.question + "\n" }
  function AnswerPart(c: Card): string { " " + c.answer + "\n" }
  function Body(c: Card): string { QuestionPart(c) + AnswerMarker + AnswerPart(c) }

  /** The whole reply for `cards`, in the prompt's format. */
  function Render(cards: seq<Card>): (r: string)
    ensures cards == [] ==> r == ""
    ensures cards != [] ==> QuestionMarker <= r
  {
    if cards == [] then "" else Render(cards[..|cards| - 1]) + Block(cards[|cards| - 1])
  }

  /** A card that survives the format: already stripped, with neither marker inside. */
  predicate WellFormed(c: Card)
  {
    && Stripped(c.question)
    && Stripped(c.answer)
    && !Contains(c.question, QuestionMarker) && !Contains(c.question, AnswerMarker)
    && !Contains(c.answer, QuestionMarker) && !Contains(c.answer, AnswerMarker)
  }

  function Bodies(cards: seq<Card>): (r: seq<string>)
    ensures |r| == |cards| && forall k | 0 <= k < |cards| :: r[k] == Body(cards[k])
  {
    seq(|cards|, k requires 0 <= k < |cards| => Body(cards[k]))
  }

  lemma {:induction false} RenderIsJoin(cards: seq<Card>)
    ensures Render(cards) == Join([""] + Bodies(cards), QuestionMarker)
    decreases |cards|
  {
    if cards != [] {
      var init, last := cards[..|cards| - 1], cards[|cards| - 1];
      assert init + [last] == cards;
      var front := [""] + Bodies(init);
      assert Render(cards) == Render(init) + Block(last) by {
        RenderSnoc(init, last);
      }
      assert Join([""] + Bodies(cards), QuestionMarker) == Join(front, QuestionMarker) + QuestionMarker + Body(last) by {
        BodiesSnoc(init, last);
        assert [""] + Bodies(cards) == front + [Body(last)];
        JoinSnoc(front, QuestionMarker, Body(last));
      }
      RenderIsJoin(init);
    }
  }

  lemma ShortFree(s: string, sep: string)
    requires |s| < 2 && |sep| == 2
    ensures !Contains(s, sep)
  {
    if s != [] {
      assert !(sep <= s);
      assert s[1..] == [];
      assert Occurrences(s[1..], sep) == 0;
    }
  }

  /** Padding a marker-free part with a space and a newline creates no marker. */
  lemma PaddedFree(x: string, sep: string)
    requires Marker(sep) && sep[0] != ' ' && sep[1] != '\n'
    requires !Contains(x, sep)
    ensures !Contains(" " + x + "\n", sep)
  {
    ShortFree(" ", sep);
    ShortFree("\n", sep);
    NoSepInConcat(" ", x, sep);
    NoSepInConcat(" " + x, "\n", sep);
  }

  lemma StripPadded(x: string)
    requires Stripped(x)
    ensures Strip(" " + x + "\n") == x
  {
    StripSurrounded(" ", x, "\n");
  }

  lemma PartsFree(c: Card)
    requires WellFormed(c)
    ensures !Contains(QuestionPart(c), AnswerMarker) && !Contains(AnswerPart(c), AnswerMarker)
    ensures !Contains(QuestionPart(c), QuestionMarker) && !Contains(AnswerPart(c), QuestionMarker)
  {
    MarkersAreMarkers();
    PaddedFree(c.question, AnswerMarker);
    PaddedFree(c.answer, AnswerMarker);
    PaddedFree(c.question, QuestionMarker);
    PaddedFree(c.answer, QuestionMarker);
  }

  lemma BodyFree(c: Card)
    requires WellFormed(c)
    ensures !Contains(Body(c), QuestionMarker)
  {
    MarkersAreMarkers();
    PartsFree(c);
    NoSepInConcat(QuestionPart(c), AnswerMarker, QuestionMarker);
    NoSepInConcat(QuestionPart(c) + AnswerMarker, AnswerPart(c), QuestionMarker);
  }

  lemma CardOfBody(c: Card)
    requires WellFormed(c)
    ensures CardOf(Body(c)) == Some(c)
  {
    PartsFree(c);
    CardOfSplitsAtAnswer(QuestionPart(c), AnswerPart(c));
    StripPadded(c.question);
    StripPadded(c.answer);
  }

  lemma BodiesSnoc(init: seq<Card>, last: Card)
    ensures Bodies(init + [last]) == Bodies(init) + [Body(last)]
  {
  }

  lemma {:induction false} CardsOfBodies(cards: seq<Card>)
    requires forall c | c in cards :: WellFormed(c)
    ensures Cards(Bodies(cards)) == cards
    decreases |cards|
  {
    if cards != [] {
      var init, last := cards[..|cards| - 1], cards[|cards| - 1];
      assert init + [last] == cards;
      CardsOfBodies(init);
      BodiesSnoc(init, last);
      CardsAppend(Bodies(init), [Body(last)]);
      CardOfBody(last);
      CardsSingle(Body(last));
    }
  }

  /**
   * The last body without its trailing whitespace, which the initial
   * `strip()` of the whole reply removes.
   */
  function LastAnswerPart(c: Card): string
  {
    if c.answer == [] then [] else " " + c.answer
  }

  function LastBody(c: Card): string
  {
    QuestionPart(c) + AnswerMarker + LastAnswerPart(c)
  }

  function LastTail(c: Card): string
  {
    if c.answer == [] then " \n" else "\n"
  }

  lemma LastBodySplit(c: Card)
    ensures Body(c) == LastBody(c) + LastTail(c)
    ensures AllSpace(LastTail(c))
  {
    assert AnswerPart(c) == LastAnswerPart(c) + LastTail(c);
  }

  lemma LastBodyEnds(c: Card)
    requires WellFormed(c)
    ensures LastBody(c) != [] && !IsSpace(LastBody(c)[|LastBody(c)| - 1])
  {
  }

  lemma LastBodyFree(c: Card)
    requires WellFormed(c)
    ensures !Contains(LastBody(c), QuestionMarker)
  {
    BodyFree(c);
    LastBodySplit(c);
    OccurrencesConcat(LastBody(c), LastTail(c), QuestionMarker);
  }

  lemma LastBodyCard(c: Card)
    requires WellFormed(c)
    ensures CardOf(LastBody(c)) == Some(c)
  {
    PartsFree(c);
    var a := LastAnswerPart(c);
    if c.answer != [] {
      MarkersAreMarkers();
      ShortFree(" ", AnswerMarker);
      NoSepInConcat(" ", c.answer, AnswerMarker);
      assert " " + c.answer + [] == a;
      StripSurrounded(" ", c.answer, []);
    }
    CardOfSplitsAtAnswer(QuestionPart(c), a);
    StripPadded(c.question);
  }

  lemma RenderSnoc(init: seq<Card>, last: Card)
    ensures Render(init + [last]) == Render(init) + Block(last)
  {
    assert (init + [last])[..|init|] == init;
  }

  /** The reply is the join of the bodies, followed by the last body's trailing whitespace. */
  lemma RenderSnocJoin(init: seq<Card>, last: Card)
    ensures Render(init + [last]) ==
            Join([""] + Bodies(init) + [LastBody(last)], QuestionMarker) + LastTail(last)
  {
    RenderSnoc(init, last);
    RenderIsJoin(init);
    LastBodySplit(last);
    JoinSnoc([""] + Bodies(init), QuestionMarker, LastBody(last));
  }

  lemma JoinedRenderStart(init: seq<Card>, last: Card)
    ensures Join([""] + Bodies(init) + [LastBody(last)], QuestionMarker)[0] == 'Q'
  {
    var front := [""] + Bodies(init);
    JoinSnoc(front, QuestionMarker, LastBody(last));
    var j := Join(front, QuestionMarker);
    assert (j + QuestionMarker)[0] == 'Q' by {
      if init != [] {
        assert front[1..] == Bodies(init);
      }
    }
  }

  /** The stripped reply is the join of the bodies, the last one without its trailing whitespace. */
  lemma StripRender(init: seq<Card>, last: Card)
    requires WellFormed(last)
    ensures Strip(Render(init + [last])) == Join([""] + Bodies(init) + [LastBody(last)], QuestionMarker)
  {
    var m := Join([""] + Bodies(init) + [LastBody(last)], QuestionMarker);
    RenderSnocJoin(init, last);
    JoinedRenderStart(init, last);
    LastBodySplit(last);
    LastBodyEnds(last);
    JoinSnoc([""] + Bodies(init), QuestionMarker, LastBody(last));
    assert m[|m| - 1] == LastBody(last)[|LastBody(last)| - 1];
    StripSurrounded([], m, LastTail(last));
    assert [] + m + LastTail(last) == m + LastTail(last);
  }

  lemma PiecesFree(init: seq<Card>, last: Card)
    requires forall c | c in init :: WellFormed(c)
    requires WellFormed(last)
    ensures forall k | 0 <= k < |init| + 2 ::
      !Contains(([""] + (Bodies(init) + [LastBody(last)]))[k], QuestionMarker)
  {
    var pieces := [""] + (Bodies(init) + [LastBody(last)]);
    forall k | 0 <= k < |pieces| ensures !Contains(pieces[k], QuestionMarker) {
      if k == 0 {
        assert pieces[0] == "";
      } else if k <= |init| {
        assert pieces[k] == Body(init[k - 1]);
        BodyFree(init[k - 1]);
      } else {
        assert pieces[k] == LastBody(last);
        LastBodyFree(last);
      }
    }
  }

  lemma SplitRender(init: seq<Card>, last: Card)
    requires forall c | c in init :: WellFormed(c)
    requires WellFormed(last)
    ensures Split(Strip(Render(init + [last])), QuestionMarker) == [""] + (Bodies(init) + [LastBody(last)])
  {
    MarkersAreMarkers();
    StripRender(init, last);
    assert [""] + Bodies(init) + [LastBody(last)] == [""] + (Bodies(init) + [LastBody(last)]);
    PiecesFree(init, last);
    SplitJoin([""] + (Bodies(init) + [LastBody(last)]), QuestionMarker);
  }

  lemma CardsOfRendered(init: seq<Card>, last: Card)
    requires forall c | c in init :: WellFormed(c)
    requires WellFormed(last)
    ensures Cards(Bodies(init) + [LastBody(last)]) == init + [last]
  {
    CardsAppend(Bodies(init), [LastBody(last)]);
    CardsOfBodies(init);
    LastBodyCard(last);
    CardsSingle(LastBody(last));
  }

  lemma ParseRenderSnoc(init: seq<Card>, last: Card)
    requires forall c | c in init :: WellFormed(c)
    requires WellFormed(last)
    ensures Parse(Render(init + [last])) == init + [last]
  {
    var rest := Bodies(init) + [LastBody(last)];
    SplitRender(init, last);
    assert ([""] + rest)[1..] == rest;
    CardsOfRendered(init, last);
  }

  /** An empty reply gives no cards. */
  lemma ParseNothing()
    ensures Parse("") == []
  {
    MarkersAreMarkers();
    assert Strip("") == "";
    SplitWithout("", QuestionMarker);
  }

  /**
   * Parsing a reply written in the prompt's format gives back the cards it
   * was written from, in order.
   */
  lemma ParseRender(cards: seq<Card>)
    requires forall c | c in cards :: WellFormed(c)
    ensures Parse(Render(cards)) == cards
  {
    if cards == [] {
      ParseNothing();
    } else {
      var init, last := cards[..|cards| - 1], cards[|cards| - 1];
      assert init + [last] == cards;
      ParseRenderSnoc(init, last);
    }
  }

  // ---------------------------------------------------------------------
  // Examples
  // ---------------------------------------------------------------------

  /** A reply with a single "Q:", at its start, parses as its one segment, right-stripped. */
  lemma ParseOneSegment(x: string)
    requires !Contains(x, QuestionMarker)
    ensures Parse(QuestionMarker + x) == Cards([TrimEnd(x)])
  {
    MarkersAreMarkers();
    var body := TrimEnd(x);
    StripAroundQuestion([], x);
    assert [] + QuestionMarker + x == QuestionMarker + x;
    assert TrimStart([]) == [];
    NoSepInSlice(x, 0, SpanEnd(x, |x|), QuestionMarker);
    assert x[0..SpanEnd(x, |x|)] == body;
    SplitCons([], QuestionMarker, body);
    SplitWithout(body, QuestionMarker);
  }

  /** One question and one answer, with no marker inside either, give exactly their card. */
  lemma ParseOneCard(q: string, a: string)
    requires !Contains(q, QuestionMarker) && !Contains(q, AnswerMarker)
    requires !Contains(a, QuestionMarker) && !Contains(a, AnswerMarker)
    ensures Parse(QuestionMarker + q + AnswerMarker + a) == [Card(Strip(q), Strip(a))]
  {
    MarkersAreMarkers();
    var x := q + AnswerMarker + a;
    NoSepInConcat(q, AnswerMarker, QuestionMarker);
    NoSepInConcat(q + AnswerMarker, a, QuestionMarker);
    assert QuestionMarker + q + AnswerMarker + a == QuestionMarker + x;
    ParseOneSegment(x);
    TrimEndAfter(q + AnswerMarker, a);
    NoSepInSlice(a, 0, SpanEnd(a, |a|), AnswerMarker);
    assert a[0..SpanEnd(a, |a|)] == TrimEnd(a);
    CardOfSplitsAtAnswer(q, TrimEnd(a));
    StripTrimEnd(a);
    CardsSingle(TrimEnd(x));
  }

  /** Nothing demands non-empty fields: "Q:A:" is one card with two empty sides. */
  lemma ParseEmptyCard(reply: string)
    requires reply == "Q:A:"
    ensures Parse(reply) == [Card("", "")]
  {
    ParseOneCard([], []);
    assert QuestionMarker + [] + AnswerMarker + [] == reply;
  }
}
