/** What a form handler asks of the surrounding application, as a value
    rather than an effect: stay on the page, or move to another route,
    optionally carrying the identifier the user typed as router state. */
module Ui {

  datatype Outcome =
    | Stay
    | Navigate(path: string)
    | NavigateWithEmail(path: string, email: string)
}
