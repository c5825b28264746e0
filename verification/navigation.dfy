/** The "Go to Dictionary" button's guard. */
module Navigation {
  import opened Catalog
  import opened Effects

  /**
   * `handleNavigate`: an empty selection raises the selection-required alert,
   * more than four raises the limit alert, and anything else opens the
   * dictionary route.
   */
  function HandleNavigate(sel: seq<Language>): (o: Outcome)
    ensures o == Alert(SelectionRequired) <==> |sel| == 0
    ensures o == Alert(LimitReached) <==> |sel| > MaxSelected
    ensures o == Navigate(DictionaryRoute) <==> 1 <= |sel| <= MaxSelected
    ensures o != NoEffect
  {
    if |sel| == 0 then Alert(SelectionRequired)
    else if |sel| > MaxSelected then Alert(LimitReached)
    else Navigate(DictionaryRoute)
  }
}
