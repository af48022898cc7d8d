/** The to-do items held by the home screen and the three ways the list of
    them changes: an item is appended, marked done, or spliced out. Items are
    addressed by their current position in the list; there is no other key. */
module TodoList {

  /** A point in time, in milliseconds since the Unix epoch. The screen reads
      the wall clock when an item is created; here the caller supplies it. */
  type Timestamp = nat

  /** A to-do item. The title is arbitrary text, the empty string included. */
  datatype TodoItem = TodoItem(title: string, done: bool, createdAt: Timestamp)

  /** The creation time of the seed item, 2025-08-25T11:18:43.863Z. */
  const SeedTime: Timestamp := 1756120723863

  /** Two items describe the same task: only `done` may differ. */
  predicate SameTask(a: TodoItem, b: TodoItem) {
    a.title == b.title && a.createdAt == b.createdAt
  }

  /** The list the screen starts with: one open "Learn React" item. */
  function Initial(): (s: seq<TodoItem>)
    ensures |s| == 1
    ensures s[0].title == "Learn React" && !s[0].done && s[0].createdAt == SeedTime
  {
    [TodoItem("Learn React", false, SeedTime)]
  }

  /** The list after the item at `index` is marked done. */
  function MarkDone(s: seq<TodoItem>, index: nat): (r: seq<TodoItem>)
    requires index < |s|
    ensures |r| == |s|
    ensures r[index].done && SameTask(r[index], s[index])
    ensures forall j | 0 <= j < |s| && j != index :: r[j] == s[j]
  {
    s[index := s[index].(done := true)]
  }

  /** The list after the item at `index` is spliced out; later items move
      up. Splicing at or past the end removes nothing. */
  function Delete(s: seq<TodoItem>, index: nat): (r: seq<TodoItem>)
    ensures index < |s| ==> |r| == |s| - 1
    ensures index < |s| ==> forall j | 0 <= j < index :: r[j] == s[j]
    ensures index < |s| ==> forall j | index <= j < |r| :: r[j] == s[j + 1]
    ensures |s| <= index ==> r == s
  {
    if index < |s| then s[..index] + s[index + 1..] else s
  }

  /** The list after a new open item titled `text`, created at `now`, is
      appended. Any text is accepted. */
  function Add(s: seq<TodoItem>, text: string, now: Timestamp): (r: seq<TodoItem>)
    ensures |r| == |s| + 1
    ensures r[..|s|] == s
    ensures r[|s|].title == text && !r[|s|].done && r[|s|].createdAt == now
  {
    s + [TodoItem(text, false, now)]
  }

  /** Marking an item done a second time changes nothing. */
  lemma MarkDoneIdempotent(s: seq<TodoItem>, index: nat)
    requires index < |s|
    ensures MarkDone(MarkDone(s, index), index) == MarkDone(s, index)
  {
  }

  /** Marking an item that is already done leaves the list as it was. */
  lemma MarkDoneOnDoneIsNoOp(s: seq<TodoItem>, index: nat)
    requires index < |s| && s[index].done
    ensures MarkDone(s, index) == s
  {
  }

  /** Deleting removes exactly the one item at `index`: the items left are
      those of the old list less that one. */
  lemma DeleteRemovesExactlyOne(s: seq<TodoItem>, index: nat)
    requires index < |s|
    ensures multiset(Delete(s, index)) + multiset{s[index]} == multiset(s)
  {
    assert s == s[..index] + [s[index]] + s[index + 1..];
  }
}
