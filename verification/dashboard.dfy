/**
 * The language dashboard as a state machine: the search text and the
 * selection, driven by the events the screen wires to its handlers.
 */
module Dashboard {
  import opened Catalog
  import opened Effects
  import opened Selection
  import opened Navigation

  /** The component's state that affects behaviour. */
  datatype State = State(query: string, selection: seq<Language>)

  /** Empty search text, nothing selected. */
  const Initial: State := State("", [])

  /**
   * Typing in the search bar, pressing its clear button, tapping the card at
   * a position of the shown list, and pressing the navigate button.
   */
  datatype Event = Search(text: string) | ClearSearch | TapCard(index: nat) | PressNavigate

  /** The state after one event and what the user sees happen. */
  datatype Transition = Transition(state: State, outcome: Outcome)

  /** A reachable state: at most four selected, identifiers unique, all from the catalogue. */
  predicate Inv(s: State) {
    |s.selection| <= MaxSelected &&
    UniqueIds(s.selection) &&
    forall l :: l in s.selection ==> l in Languages
  }

  /** One event. A tap at a position with no card shown changes nothing. */
  function Handle(s: State, e: Event): (t: Transition)
    ensures Inv(s) ==> Inv(t.state)
    ensures e.Search? ==> t == Transition(State(e.text, s.selection), NoEffect)
    ensures e.ClearSearch? ==> t == Transition(State("", s.selection), NoEffect)
    ensures !e.TapCard? ==> t.state.selection == s.selection
    ensures !e.Search? && !e.ClearSearch? ==> t.state.query == s.query
    ensures e.PressNavigate? && Inv(s) ==> t.outcome != Alert(LimitReached)
  {
    match e
    case Search(text) => Transition(State(text, s.selection), NoEffect)
    case ClearSearch => Transition(State("", s.selection), NoEffect)
    case TapCard(i) =>
      var shown := Visible(s.query);
      if i < |shown| then
        assert shown[i] in Languages by {
          assert shown[i] in shown;
        }
        var step := Select(s.selection, shown[i]);
        Transition(State(s.query, step.selection), step.outcome)
      else Transition(s, NoEffect)
    case PressNavigate => Transition(s, HandleNavigate(s.selection))
  }

  /** The final state and the outcome of every event, in order. */
  datatype Trace = Trace(final: State, outcomes: seq<Outcome>)

  /** Handles the events one after another. */
  function Run(s: State, events: seq<Event>): (tr: Trace)
    ensures |tr.outcomes| == |events|
    decreases |events|
  {
    if |events| == 0 then Trace(s, [])
    else
      var t := Handle(s, events[0]);
      var rest := Run(t.state, events[1..]);
      Trace(rest.final, [t.outcome] + rest.outcomes)
  }

  /** The invariant holds after any sequence of events. */
  lemma {:induction false} RunPreservesInv(s: State, events: seq<Event>)
    requires Inv(s)
    ensures Inv(Run(s, events).final)
    decreases |events|
  {
    if |events| > 0 {
      RunPreservesInv(Handle(s, events[0]).state, events[1..]);
    }
  }

  /** From the initial screen, every navigate press either asks for a selection or opens the dictionary. */
  lemma NavigateFromInitial(events: seq<Event>)
    ensures forall i :: 0 <= i < |events| && events[i] == PressNavigate ==>
              Run(Initial, events).outcomes[i] in {Alert(SelectionRequired), Navigate(DictionaryRoute)}
  {
    NavigateOutcomes(Initial, events);
  }

  /** A navigate press in a reachable state asks for a selection or opens the dictionary. */
  lemma {:induction false} NavigateOutcomes(s: State, events: seq<Event>)
    requires Inv(s)
    ensures forall i :: 0 <= i < |events| && events[i] == PressNavigate ==>
              Run(s, events).outcomes[i] in {Alert(SelectionRequired), Navigate(DictionaryRoute)}
    decreases |events|
  {
    if |events| > 0 {
      var t := Handle(s, events[0]);
      NavigateOutcomes(t.state, events[1..]);
      forall i | 0 < i < |events| && events[i] == PressNavigate
        ensures Run(s, events).outcomes[i] in {Alert(SelectionRequired), Navigate(DictionaryRoute)}
      {
        assert events[1..][i - 1] == events[i];
        assert Run(s, events).outcomes[i] == Run(t.state, events[1..]).outcomes[i - 1];
      }
    }
  }

  /** The selection never grows beyond four from the initial screen. */
  lemma SelectionBoundedFromInitial(events: seq<Event>)
    ensures |Run(Initial, events).final.selection| <= MaxSelected
    ensures UniqueIds(Run(Initial, events).final.selection)
  {
    RunPreservesInv(Initial, events);
  }
}
