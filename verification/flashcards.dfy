/** The flashcard deck view (components/Flashcards.tsx) as a state machine.
    The handlers are pure functions from one `State` to the next; the awaited
    generation call is collapsed into `Generate`, with the service's answer
    passed in as an `Outcome`, and the delayed index update of the navigation
    buttons is taken as immediate. */
module Flashcards {
  import opened Types
  import opened Generation

  /** The view's React state (Flashcards.tsx:8-11); the topic is a form input
      and only reaches the model as the handler's argument. */
  datatype State = State(cards: seq<Flashcard>, currentIndex: int, isFlipped: bool, loading: bool)

  /** The state on first render. */
  const Initial := State([], 0, false, false)

  /** Which of the three screens the component renders (Flashcards.tsx:51, 76, 81). */
  datatype Screen = CreateForm | Spinner | CardView

  function ScreenOf(d: State): Screen
  {
    if |d.cards| == 0 && !d.loading then CreateForm
    else if d.loading then Spinner
    else CardView
  }

  // ---------------------------------------------------------------------------
  // Handlers
  // ---------------------------------------------------------------------------

  /** `handleGenerate` (Flashcards.tsx:13-28): an empty topic is ignored.
      Otherwise the old deck is cleared first; a generated deck then replaces
      it, opened face up on its first card, while a failure leaves the deck
      empty with position and face as they were. Loading ends either way. */
  function Generate(d: State, topic: string, outcome: Outcome<Flashcard>): (r: State)
    ensures topic == "" ==> r == d
    ensures topic != "" && outcome.Generated? ==> r == State(outcome.items, 0, false, false)
    ensures topic != "" && outcome.Failed? ==>
      r.cards == [] && !r.loading && r.currentIndex == d.currentIndex && r.isFlipped == d.isFlipped
  {
    if topic == "" then d
    else
      var pending := d.(loading := true, cards := []);
      match outcome
      case Generated(xs) => pending.(cards := xs, currentIndex := 0, isFlipped := false, loading := false)
      case Failed => pending.(loading := false)
  }

  /** `handleNext` (Flashcards.tsx:30-35): before the last card it turns the
      card face up and moves one forward; on the last card it does nothing. */
  function Next(d: State): (r: State)
    ensures d.currentIndex < |d.cards| - 1 ==>
      r.currentIndex == d.currentIndex + 1 && !r.isFlipped && r.cards == d.cards && r.loading == d.loading
    ensures d.currentIndex >= |d.cards| - 1 ==> r == d
  {
    if d.currentIndex < |d.cards| - 1 then d.(isFlipped := false, currentIndex := d.currentIndex + 1)
    else d
  }

  /** `handlePrev` (Flashcards.tsx:37-42): after the first card it turns the
      card face up and moves one back; on the first card it does nothing. */
  function Prev(d: State): (r: State)
    ensures d.currentIndex > 0 ==>
      r.currentIndex == d.currentIndex - 1 && !r.isFlipped && r.cards == d.cards && r.loading == d.loading
    ensures d.currentIndex <= 0 ==> r == d
  {
    if d.currentIndex > 0 then d.(isFlipped := false, currentIndex := d.currentIndex - 1)
    else d
  }

  /** Clicking the card (Flashcards.tsx:97) turns it over and changes nothing else. */
  function Flip(d: State): (r: State)
    ensures r.isFlipped != d.isFlipped && r.(isFlipped := d.isFlipped) == d
  {
    d.(isFlipped := !d.isFlipped)
  }

  /** "New Deck" (Flashcards.tsx:88) drops the deck, which brings back the
      creation form, and leaves the position untouched. */
  function NewDeck(d: State): (r: State)
    ensures r.cards == [] && r.(cards := d.cards) == d
    ensures !d.loading ==> ScreenOf(r) == CreateForm
  {
    d.(cards := [])
  }

  // ---------------------------------------------------------------------------
  // What the rendered page allows
  // ---------------------------------------------------------------------------

  datatype Action =
    | GenerateDeck(topic: string, outcome: Outcome<Flashcard>)
    | NextCard
    | PrevCard
    | FlipCard
    | NewDeckClick

  /** The render guards: the form submits only on the creation screen
      (Flashcards.tsx:51-59); the card and its controls exist on the card
      screen (Flashcards.tsx:81-142), where the previous button is disabled
      on the first card (Flashcards.tsx:119) and the next button on the last
      (Flashcards.tsx:137). */
  predicate Enabled(d: State, a: Action)
  {
    match a
    case GenerateDeck(_, _) => ScreenOf(d) == CreateForm
    case NextCard => ScreenOf(d) == CardView && d.currentIndex != |d.cards| - 1
    case PrevCard => ScreenOf(d) == CardView && d.currentIndex != 0
    case FlipCard => ScreenOf(d) == CardView
    case NewDeckClick => ScreenOf(d) == CardView
  }

  function Step(d: State, a: Action): State
  {
    match a
    case GenerateDeck(topic, outcome) => Generate(d, topic, outcome)
    case NextCard => Next(d)
    case PrevCard => Prev(d)
    case FlipCard => Flip(d)
    case NewDeckClick => NewDeck(d)
  }

  /** Every action of `acts`, in order, is allowed by the page it is taken on. */
  predicate Allowed(d: State, acts: seq<Action>)
    decreases |acts|
  {
    |acts| == 0 || (Enabled(d, acts[0]) && Allowed(Step(d, acts[0]), acts[1..]))
  }

  function Run(d: State, acts: seq<Action>): State
    decreases |acts|
  {
    if |acts| == 0 then d else Run(Step(d, acts[0]), acts[1..])
  }

  // ---------------------------------------------------------------------------
  // The invariant
  // ---------------------------------------------------------------------------

  /** Between user actions nothing is loading, and whenever there is a deck
      the position is one of its cards. */
  predicate Inv(d: State)
  {
    !d.loading && (|d.cards| > 0 ==> 0 <= d.currentIndex < |d.cards|)
  }

  lemma InitialInv()
    ensures Inv(Initial)
  {
  }

  lemma StepPreservesInv(d: State, a: Action)
    requires Inv(d) && Enabled(d, a)
    ensures Inv(Step(d, a))
  {
  }

  lemma {:induction false} RunPreservesInv(d: State, acts: seq<Action>)
    requires Inv(d) && Allowed(d, acts)
    ensures Inv(Run(d, acts))
    decreases |acts|
  {
    if |acts| > 0 {
      StepPreservesInv(d, acts[0]);
      RunPreservesInv(Step(d, acts[0]), acts[1..]);
    }
  }

  /** Whatever the user does, whenever the card screen is shown the reads
      `cards[currentIndex]` of its front and back (Flashcards.tsx:103, 110)
      are in range. */
  lemma CardReadInRange(acts: seq<Action>)
    requires Allowed(Initial, acts)
    ensures var r := Run(Initial, acts);
            ScreenOf(r) == CardView ==> 0 <= r.currentIndex < |r.cards|
  {
    RunPreservesInv(Initial, acts);
  }

  /** Actions that only look through the current deck. */
  predicate Browsing(a: Action)
  {
    a.NextCard? || a.PrevCard? || a.FlipCard?
  }

  /** Looking through a deck never changes it: the cards and the loading flag
      stay as they were, and each action moves the position by at most one. */
  lemma {:induction false} BrowsingKeepsDeck(d: State, acts: seq<Action>)
    requires Allowed(d, acts)
    requires forall k :: 0 <= k < |acts| ==> Browsing(acts[k])
    ensures var r := Run(d, acts);
            && r.cards == d.cards && r.loading == d.loading
            && d.currentIndex - |acts| <= r.currentIndex <= d.currentIndex + |acts|
    decreases |acts|
  {
    if |acts| > 0 {
      assert Browsing(acts[0]);
      BrowsingKeepsDeck(Step(d, acts[0]), acts[1..]);
    }
  }

  /** The card the view shows, front and back (Flashcards.tsx:103, 110). */
  function ShownCard(d: State): (card: Flashcard)
    requires Inv(d) && ScreenOf(d) == CardView
    ensures card in d.cards
  {
    d.cards[d.currentIndex]
  }

  /** On the card screen the next button is disabled exactly when `Next`
      would do nothing, and the previous button exactly when `Prev` would. */
  lemma DisabledButtonsAreNoOps(d: State)
    requires Inv(d) && ScreenOf(d) == CardView
    ensures d.currentIndex == |d.cards| - 1 <==> Next(d) == d
    ensures d.currentIndex == 0 <==> Prev(d) == d
  {
  }

  /** Stepping forward and back returns to the same card, face up. */
  lemma PrevUndoesNext(d: State)
    requires Inv(d) && Enabled(d, NextCard)
    ensures Prev(Next(d)) == d.(isFlipped := false)
  {
  }

  /** Stepping back and forward returns to the same card, face up. */
  lemma NextUndoesPrev(d: State)
    requires Inv(d) && Enabled(d, PrevCard)
    ensures Next(Prev(d)) == d.(isFlipped := false)
  {
  }

  /** Turning the card over twice restores the state. */
  lemma FlipTwiceIsIdentity(d: State)
    ensures Flip(Flip(d)) == d
  {
  }

  /** The form is only shown with an empty deck, so a failed generation
      started from it brings the view back exactly to where it was. */
  lemma FailedGenerateRestores(d: State, topic: string)
    requires Inv(d) && Enabled(d, GenerateDeck(topic, Failed))
    ensures Step(d, GenerateDeck(topic, Failed)) == d
  {
  }

  /** An empty answer and a failed call look the same to the user: both land
      back on the creation form. They differ only in that the empty answer
      also resets position and face. */
  lemma EmptyDeckShowsCreateForm(d: State, topic: string)
    requires topic != ""
    ensures ScreenOf(Generate(d, topic, Generated([]))) == CreateForm
    ensures ScreenOf(Generate(d, topic, Failed)) == CreateForm
  {
  }
}
