/** The row that shows one to-do item. Besides the title it shows exactly one
    button: "Done" while the item is open, "Delete" once it is done. "Delete"
    does not remove the item by itself; it asks the user to confirm, and only
    the answer "Yes" calls the row's delete callback. */
module TodoRow {
  import opened TodoList

  datatype Button = DoneButton | DeleteButton

  /** The answers the deletion prompt offers. */
  datatype Answer = Yes | No

  /** The button the row shows for `item`. */
  function OfferedButton(item: TodoItem): (b: Button)
    ensures b == DoneButton <==> !item.done
    ensures b == DeleteButton <==> item.done
  {
    if item.done then DeleteButton else DoneButton
  }

  /** Whether answering the deletion prompt with `answer` calls the row's
      delete callback; "No" only dismisses the prompt. */
  predicate ConfirmsDeletion(answer: Answer)
    ensures ConfirmsDeletion(answer) <==> answer == Yes
  {
    match answer
    case Yes => true
    case No => false
  }
}
