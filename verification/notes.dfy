/** The quick-note and inspiration lists (App.tsx, `addTodo`,
    `toggleTodo`, `deleteTodo`, `addIdea`, `deleteIdea`,
    `updateIdeaCategory`): new entries go to the front, the other updates
    map or filter by id. */
module Notes {
  import opened Collections

  /** A sticky note; its tilt is drawn at random and its creation time read
      from the clock, so both arrive as parameters. */
  datatype Todo = Todo(id: string, content: string, isDone: bool, rotation: real, createdAt: int)

  datatype IdeaCategory = Life | Work | Art | Random

  datatype Idea = Idea(id: string, title: string, category: IdeaCategory, content: string, createdAt: int)

  function TodoIs(id: string): Todo -> bool {
    (n: Todo) => n.id == id
  }

  function TodoIsNot(id: string): Todo -> bool {
    (n: Todo) => n.id != id
  }

  function IdeaIs(id: string): Idea -> bool {
    (i: Idea) => i.id == id
  }

  function IdeaIsNot(id: string): Idea -> bool {
    (i: Idea) => i.id != id
  }

  predicate HasTodo(todos: seq<Todo>, id: string) {
    exists i :: 0 <= i < |todos| && todos[i].id == id
  }

  predicate HasIdea(ideas: seq<Idea>, id: string) {
    exists i :: 0 <= i < |ideas| && ideas[i].id == id
  }

  // ---------------------------------------------------------------------
  // Quick notes.

  /** `addTodo(text)`: a fresh, unfinished note in front of the others. */
  function AddTodo(todos: seq<Todo>, freshId: string, text: string, rotation: real, now: int): (r: seq<Todo>)
    ensures |r| == |todos| + 1 && r[1..] == todos
    ensures r[0].id == freshId && r[0].content == text && !r[0].isDone
    ensures r[0].rotation == rotation && r[0].createdAt == now
  {
    [Todo(freshId, text, false, rotation, now)] + todos
  }

  /** `toggleTodo(id)`: flip the done mark of the notes carrying `id`. */
  function ToggleTodo(todos: seq<Todo>, id: string): (r: seq<Todo>)
    ensures |r| == |todos|
    ensures forall i :: 0 <= i < |todos| && todos[i].id == id ==>
      r[i] == todos[i].(isDone := !todos[i].isDone)
    ensures forall i :: 0 <= i < |todos| && todos[i].id != id ==> r[i] == todos[i]
  {
    MapWhere(todos, TodoIs(id), (n: Todo) => n.(isDone := !n.isDone))
  }

  /** `deleteTodo(id)`. */
  function DeleteTodo(todos: seq<Todo>, id: string): (r: seq<Todo>)
    ensures !HasTodo(r, id)
    ensures forall i :: 0 <= i < |todos| && todos[i].id != id ==> todos[i] in r
    ensures forall i :: 0 <= i < |r| ==> r[i] in todos
  {
    Filter(todos, TodoIsNot(id))
  }

  /** Deletion keeps the surviving notes in order: it distributes over
      concatenation, and a single note is dropped exactly when it carries
      the id. */
  lemma DeleteTodoKeepsOrder(a: seq<Todo>, b: seq<Todo>, id: string, n: Todo)
    ensures DeleteTodo(a + b, id) == DeleteTodo(a, id) + DeleteTodo(b, id)
    ensures DeleteTodo([n], id) == if n.id == id then [] else [n]
  {
    FilterAppend(a, b, TodoIsNot(id));
    assert [n][1..] == [];
  }

  /** Deletion removes exactly as many notes as carry the id. */
  lemma DeleteTodoCount(todos: seq<Todo>, id: string)
    ensures |DeleteTodo(todos, id)| == |todos| - CountFailing(todos, TodoIsNot(id))
  {
    FilterLength(todos, TodoIsNot(id));
  }

  /** Toggling twice restores every note. */
  lemma ToggleTwice(todos: seq<Todo>, id: string)
    ensures ToggleTodo(ToggleTodo(todos, id), id) == todos
  {
  }

  /** A note added with a fresh id and deleted again leaves the list as it was. */
  lemma AddThenDeleteTodo(todos: seq<Todo>, freshId: string, text: string, rotation: real, now: int)
    requires !HasTodo(todos, freshId)
    ensures DeleteTodo(AddTodo(todos, freshId, text, rotation, now), freshId) == todos
  {
    var n := Todo(freshId, text, false, rotation, now);
    FilterAppend([n], todos, TodoIsNot(freshId));
    assert Filter([n], TodoIsNot(freshId)) == [];
    FilterAllPass(todos, TodoIsNot(freshId));
    assert [n] + todos == AddTodo(todos, freshId, text, rotation, now);
  }

  // ---------------------------------------------------------------------
  // Inspiration.

  /** `addIdea(title, category, content)`: a fresh idea in front. */
  function AddIdea(ideas: seq<Idea>, freshId: string, title: string, category: IdeaCategory, content: string, now: int): (r: seq<Idea>)
    ensures |r| == |ideas| + 1 && r[1..] == ideas
    ensures r[0].id == freshId && r[0].title == title
    ensures r[0].category == category && r[0].content == content && r[0].createdAt == now
  {
    [Idea(freshId, title, category, content, now)] + ideas
  }

  /** `deleteIdea(id)`. */
  function DeleteIdea(ideas: seq<Idea>, id: string): (r: seq<Idea>)
    ensures !HasIdea(r, id)
    ensures forall i :: 0 <= i < |ideas| && ideas[i].id != id ==> ideas[i] in r
    ensures forall i :: 0 <= i < |r| ==> r[i] in ideas
  {
    Filter(ideas, IdeaIsNot(id))
  }

  /** Deletion keeps the surviving ideas in order: it distributes over
      concatenation, and a single idea is dropped exactly when it carries
      the id. */
  lemma DeleteIdeaKeepsOrder(a: seq<Idea>, b: seq<Idea>, id: string, n: Idea)
    ensures DeleteIdea(a + b, id) == DeleteIdea(a, id) + DeleteIdea(b, id)
    ensures DeleteIdea([n], id) == if n.id == id then [] else [n]
  {
    FilterAppend(a, b, IdeaIsNot(id));
    assert [n][1..] == [];
  }

  /** Deletion removes exactly as many ideas as carry the id. */
  lemma DeleteIdeaCount(ideas: seq<Idea>, id: string)
    ensures |DeleteIdea(ideas, id)| == |ideas| - CountFailing(ideas, IdeaIsNot(id))
  {
    FilterLength(ideas, IdeaIsNot(id));
  }

  /** `updateIdeaCategory(id, cat)`: recategorise the ideas carrying `id`. */
  function UpdateIdeaCategory(ideas: seq<Idea>, id: string, category: IdeaCategory): (r: seq<Idea>)
    ensures |r| == |ideas|
    ensures forall i :: 0 <= i < |ideas| && ideas[i].id == id ==> r[i] == ideas[i].(category := category)
    ensures forall i :: 0 <= i < |ideas| && ideas[i].id != id ==> r[i] == ideas[i]
  {
    MapWhere(ideas, IdeaIs(id), (i: Idea) => i.(category := category))
  }

  /** Recategorising keeps every id in its place and the last category wins. */
  lemma RecategoriseTwice(ideas: seq<Idea>, id: string, c1: IdeaCategory, c2: IdeaCategory)
    ensures UpdateIdeaCategory(UpdateIdeaCategory(ideas, id, c1), id, c2)
      == UpdateIdeaCategory(ideas, id, c2)
  {
  }

  /** An idea added with a fresh id and deleted again leaves the list as it was. */
  lemma AddThenDeleteIdea(ideas: seq<Idea>, freshId: string, title: string, category: IdeaCategory, content: string, now: int)
    requires !HasIdea(ideas, freshId)
    ensures DeleteIdea(AddIdea(ideas, freshId, title, category, content, now), freshId) == ideas
  {
    var n := Idea(freshId, title, category, content, now);
    FilterAppend([n], ideas, IdeaIsNot(freshId));
    assert Filter([n], IdeaIsNot(freshId)) == [];
    FilterAllPass(ideas, IdeaIsNot(freshId));
    assert [n] + ideas == AddIdea(ideas, freshId, title, category, content, now);
  }

}
