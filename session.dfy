/** A session on the home screen: the list starts as the seed list and then
    follows the user's actions one at a time, in the order the UI delivers
    them. An action is only possible on a button the screen shows, so "Done"
    is pressed only on open items and "Delete" only on done items. Each item
    therefore runs open -> done -> removed, and nothing reopens it. */
module Session {
  import opened TodoList
  import opened TodoRow

  datatype Option<T> = None | Some(value: T)

  /** One user action on the screen. */
  datatype Event =
      /** The input field is submitted with `text` at time `now`. */
    | Submitted(text: string, now: Timestamp)
      /** The "Done" button of the row at `index` is pressed. */
    | DonePressed(index: nat)
      /** The "Delete" button of the row at `index` is pressed and the
          confirmation prompt is answered with `answer`. */
    | DeleteAnswered(index: nat, answer: Answer)

  /** Whether `e` can happen while the screen shows `s`: the row exists and
      shows the button that is pressed. */
  predicate Enabled(s: seq<TodoItem>, e: Event)
    ensures e.Submitted? ==> Enabled(s, e)
    ensures e.DonePressed? ==> (Enabled(s, e) <==> e.index < |s| && !s[e.index].done)
    ensures e.DeleteAnswered? ==> (Enabled(s, e) <==> e.index < |s| && s[e.index].done)
  {
    match e
    case Submitted(_, _) => true
    case DonePressed(i) => i < |s| && OfferedButton(s[i]) == DoneButton
    case DeleteAnswered(i, _) => i < |s| && OfferedButton(s[i]) == DeleteButton
  }

  /** The list after `e`. */
  function Step(s: seq<TodoItem>, e: Event): (r: seq<TodoItem>)
    requires Enabled(s, e)
    ensures |r| == match e
                   case Submitted(_, _) => |s| + 1
                   case DonePressed(_) => |s|
                   case DeleteAnswered(_, a) => if ConfirmsDeletion(a) then |s| - 1 else |s|
    ensures e.DeleteAnswered? && !ConfirmsDeletion(e.answer) ==> r == s
    ensures e.Submitted? ==> r[..|s|] == s && r[|s|] == TodoItem(e.text, false, e.now)
  {
    match e
    case Submitted(text, now) => Add(s, text, now)
    case DonePressed(i) => MarkDone(s, i)
    case DeleteAnswered(i, answer) => if ConfirmsDeletion(answer) then Delete(s, i) else s
  }

  /** Where the item at position `p` of `s` is after `e`, or None if `e`
      removed it. */
  function Where(s: seq<TodoItem>, e: Event, p: nat): (w: Option<nat>)
    requires Enabled(s, e) && p < |s|
    ensures w.Some? ==> w.value < |Step(s, e)| && SameTask(Step(s, e)[w.value], s[p])
    ensures w.Some? ==> w.value == p || w.value + 1 == p
    ensures w.Some? ==> (Step(s, e)[w.value].done <==> s[p].done || e == DonePressed(p))
    ensures w.None? <==> e == DeleteAnswered(p, Yes)
    ensures w.None? ==> s[p].done
  {
    match e
    case DeleteAnswered(i, answer) =>
      if !ConfirmsDeletion(answer) || p < i then Some(p)
      else if p == i then None
      else Some(p - 1)
    case _ => Some(p)
  }

  /** Every event of `evs`, in turn, can happen starting from `s`. */
  predicate Admissible(s: seq<TodoItem>, evs: seq<Event>)
    decreases |evs|
  {
    evs == [] || (Enabled(s, evs[0]) && Admissible(Step(s, evs[0]), evs[1..]))
  }

  /** The list after the events `evs`, starting from `s`. */
  function Run(s: seq<TodoItem>, evs: seq<Event>): seq<TodoItem>
    requires Admissible(s, evs)
    decreases |evs|
  {
    if evs == [] then s else Run(Step(s, evs[0]), evs[1..])
  }

  /** Where the item at position `p` of `s` is after the events `evs`, or
      None if one of them removed it. While present it is the same task. */
  function Follow(s: seq<TodoItem>, evs: seq<Event>, p: nat): (f: Option<nat>)
    requires Admissible(s, evs) && p < |s|
    ensures f.Some? ==> f.value < |Run(s, evs)| && SameTask(Run(s, evs)[f.value], s[p])
    decreases |evs|
  {
    if evs == [] then Some(p)
    else match Where(s, evs[0], p)
      case None => None
      case Some(q) => Follow(Step(s, evs[0]), evs[1..], q)
  }

  /** Once an item is done it stays done for as long as it is in the list. */
  lemma {:induction false} DoneIsOneWay(s: seq<TodoItem>, evs: seq<Event>, p: nat)
    requires Admissible(s, evs) && p < |s| && s[p].done
    ensures Follow(s, evs, p).Some? ==> Run(s, evs)[Follow(s, evs, p).value].done
    decreases |evs|
  {
    if evs != [] {
      match Where(s, evs[0], p)
      case None =>
      case Some(q) => DoneIsOneWay(Step(s, evs[0]), evs[1..], q);
    }
  }

  /** After the first `k` events of `evs` the tracked item is done, and event
      `k` is a confirmed deletion of it. */
  predicate RemovedAt(s: seq<TodoItem>, evs: seq<Event>, p: nat, k: nat)
    requires k < |evs| && Admissible(s, evs[..k]) && p < |s|
  {
    match Follow(s, evs[..k], p)
    case None => false
    case Some(q) => Run(s, evs[..k])[q].done && evs[k] == DeleteAnswered(q, Yes)
  }

  /** An item leaves the list only by a confirmed deletion made while it is
      done: it went open -> done -> removed. */
  lemma {:induction false} RemovedOnlyAfterDone(s: seq<TodoItem>, evs: seq<Event>, p: nat)
    requires Admissible(s, evs) && p < |s| && Follow(s, evs, p).None?
    ensures exists k: nat | k < |evs| && Admissible(s, evs[..k]) :: RemovedAt(s, evs, p, k)
    decreases |evs|
  {
    var e := evs[0];
    match Where(s, e, p)
    case None =>
      assert evs[..0] == [];
      assert RemovedAt(s, evs, p, 0);
    case Some(q) =>
      var t := Step(s, e);
      RemovedOnlyAfterDone(t, evs[1..], q);
      var k: nat :| k < |evs[1..]| && Admissible(t, evs[1..][..k]) && RemovedAt(t, evs[1..], q, k);
      var pre := evs[..k + 1];
      assert pre[0] == e && pre[1..] == evs[1..][..k];
      assert Admissible(s, pre);
      assert Follow(s, pre, p) == Follow(t, evs[1..][..k], q);
      assert Run(s, pre) == Run(t, evs[1..][..k]);
      assert RemovedAt(s, evs, p, k + 1);
  }

  /** Items appear in the order they were created, oldest first. */
  predicate OldestFirst(s: seq<TodoItem>) {
    forall i, j | 0 <= i < j < |s| :: s[i].createdAt <= s[j].createdAt
  }

  /** Every submission in `evs` happens no earlier than `t` and no earlier
      than the submissions before it: the clock does not run backwards. */
  predicate ClockFrom(t: Timestamp, evs: seq<Event>)
    decreases |evs|
  {
    evs == [] ||
    match evs[0]
    case Submitted(_, now) => t <= now && ClockFrom(now, evs[1..])
    case _ => ClockFrom(t, evs[1..])
  }

  /** One event keeps the list oldest first, given that an item submitted
      now is no older than any item already there. */
  lemma StepKeepsOldestFirst(s: seq<TodoItem>, e: Event)
    requires Enabled(s, e) && OldestFirst(s)
    requires e.Submitted? ==> forall i | 0 <= i < |s| :: s[i].createdAt <= e.now
    ensures OldestFirst(Step(s, e))
  {
  }

  /** With a clock that does not run backwards, the list stays oldest first
      whatever the user does: new items are appended last. */
  lemma {:induction false} RunKeepsOldestFirst(s: seq<TodoItem>, evs: seq<Event>, t: Timestamp)
    requires Admissible(s, evs) && OldestFirst(s) && ClockFrom(t, evs)
    requires forall i | 0 <= i < |s| :: s[i].createdAt <= t
    ensures OldestFirst(Run(s, evs))
    decreases |evs|
  {
    if evs != [] {
      var e := evs[0];
      StepKeepsOldestFirst(s, e);
      var next := Step(s, e);
      var t' := if e.Submitted? then e.now else t;
      RunKeepsOldestFirst(next, evs[1..], t');
    }
  }

  /** A short session: add "Buy milk", mark "Learn React" done, then answer
      the deletion prompt for it with "No" and with "Yes". */
  lemma BuyMilkScenario(t: Timestamp)
    ensures var added := Step(Initial(), Submitted("Buy milk", t));
            && added == [TodoItem("Learn React", false, SeedTime), TodoItem("Buy milk", false, t)]
            && var marked := Step(added, DonePressed(0));
               && marked == [TodoItem("Learn React", true, SeedTime), TodoItem("Buy milk", false, t)]
               && Step(marked, DeleteAnswered(0, No)) == marked
               && Step(marked, DeleteAnswered(0, Yes)) == [TodoItem("Buy milk", false, t)]
  {
  }
}
