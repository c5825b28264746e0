/** What a dashboard handler does besides updating the selection. */
module Effects {

  /** The two alert dialogs the dashboard can raise. */
  datatype AlertKind = SelectionRequired | LimitReached {

    function Title(): string {
      match this
      case SelectionRequired => "Selection Required"
      case LimitReached => "Limit Reached"
    }

    function Message(): string {
      match this
      case SelectionRequired => "Please select at least one language."
      case LimitReached => "You can only select up to 4 languages."
    }
  }

  /** An alert dialog, a route push, or nothing visible beyond a state update. */
  datatype Outcome = NoEffect | Alert(kind: AlertKind) | Navigate(route: string)

  /** The route the dashboard opens. */
  const DictionaryRoute: string := "/dictionary"

  /** The most languages a selection may hold. */
  const MaxSelected: nat := 4
}
