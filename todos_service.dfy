/**
 * The in-memory todo store (TodosService): an ordered list of Todo objects and
 * the counter that hands out their ids.
 */
module Todos {
  import opened Wrappers
  import opened Text
  import opened Entities

  /** The text findAll filters by: nothing when the search is absent, empty or
      whitespace only; otherwise the lower-cased search with its surrounding
      whitespace removed, which is never empty and is taken from the
      lower-cased search. */
  function SearchKey(search: Option<string>): (key: Option<string>)
    ensures key.None? <==> search.None? || IsBlank(search.value)
    ensures key.Some? ==> key.value != []
    ensures key.Some? ==> !IsWhitespace(key.value[0]) && !IsWhitespace(key.value[|key.value| - 1])
    ensures key.Some? ==> Contains(Lower(search.value), key.value)
    ensures key.Some? ==> key.value == Trim(Lower(search.value))
  {
    match search
    case None => None
    case Some(s) =>
      if Trim(s) == [] then None
      else
        LowerKeepsBlank(s);
        Some(Trim(Lower(s)))
  }

  /** The test findAll applies to each title: it contains the key, ignoring case. */
  predicate Matches(title: string, key: string) {
    Contains(Lower(title), key)
  }

  /** r is what remains of s after deleting some of its elements, so r keeps
      the relative order of s. */
  predicate Subsequence<T(==)>(r: seq<T>, s: seq<T>)
    decreases |s|
  {
    r == [] ||
    (s != [] && ((r[0] == s[0] && Subsequence(r[1..], s[1..])) || Subsequence(r, s[1..])))
  }

  /** The todos of ts whose title matches key, in their original order, each
      as often as it occurs in ts. */
  function Select(ts: seq<Todo>, key: string): (r: seq<Todo>)
    reads ts
    ensures Subsequence(r, ts)
    ensures forall t :: t in r ==> t in ts && Matches(t.title, key)
    ensures forall t :: t in ts && Matches(t.title, key) ==> t in r
    ensures forall t :: t in ts ==>
      multiset(r)[t] == if Matches(t.title, key) then multiset(ts)[t] else 0
  {
    if ts == [] then []
    else
      var rest := Select(ts[1..], key);
      assert ts == [ts[0]] + ts[1..];
      assert forall t :: t in rest ==> t in ts[1..];
      if Matches(ts[0].title, key) then [ts[0]] + rest else rest
  }

  /** Filtering a filtered list by the same key changes nothing. */
  lemma {:induction false} SelectIdempotent(ts: seq<Todo>, key: string)
    ensures Select(Select(ts, key), key) == Select(ts, key)
    decreases |ts|
  {
    if ts != [] {
      SelectIdempotent(ts[1..], key);
    }
  }

  /** Filtering distributes over concatenation: the matches of an earlier part
      of the list all come before the matches of a later part. */
  lemma {:induction false} SelectAppend(a: seq<Todo>, b: seq<Todo>, key: string)
    ensures Select(a + b, key) == Select(a, key) + Select(b, key)
    decreases |a|
  {
    if a == [] {
      assert a + b == b;
    } else {
      assert (a + b)[1..] == a[1..] + b;
      SelectAppend(a[1..], b, key);
    }
  }

  /** Appending one todo to a list appends it to the filtered list exactly
      when its title matches. */
  lemma SelectSnoc(ts: seq<Todo>, t: Todo, key: string)
    ensures Select(ts + [t], key) == Select(ts, key) + (if Matches(t.title, key) then [t] else [])
  {
    SelectAppend(ts, [t], key);
    assert [t][1..] == [];
  }

  /** Index of the first todo in ts with the given id, or |ts| when there is none. */
  function FirstWithId(ts: seq<Todo>, id: int): (k: nat)
    reads ts
    ensures k <= |ts|
    ensures forall j :: 0 <= j < k ==> ts[j].id != id
    ensures k < |ts| ==> ts[k].id == id
  {
    if ts == [] || ts[0].id == id then 0 else 1 + FirstWithId(ts[1..], id)
  }

  class TodosService {
    var todos: seq<Todo>
    var nextId: int

    /** The store's invariant: the todo at position i carries id i + 1, and
        nextId is the id the next create hands out. */
    ghost predicate Valid()
      reads this, todos
    {
      nextId == |todos| + 1 &&
      forall i :: 0 <= i < |todos| ==> todos[i].id == i + 1
    }

    /** A new store is empty and its counter starts at 1. */
    constructor ()
      ensures Valid()
      ensures todos == [] && nextId == 1
    {
      todos := [];
      nextId := 1;
    }

    /** Consequences of the invariant: ids are positive, strictly increasing in
        list order and below nextId, so no id and no object is stored twice. */
    lemma IdsIncreasing()
      requires Valid()
      ensures forall i, j :: 0 <= i < j < |todos| ==> todos[i].id < todos[j].id
      ensures forall i :: 0 <= i < |todos| ==> 1 <= todos[i].id < nextId
      ensures forall i, j :: 0 <= i < j < |todos| ==> todos[i] != todos[j]
    {
    }

    /** findAll(search): every stored todo, in insertion order, when the search
        is absent or blank; otherwise exactly the todos whose lower-cased title
        contains the trimmed, lower-cased search, in their original order. The
        result is a new sequence whose elements are the stored objects. */
    function FindAll(search: Option<string>): (r: seq<Todo>)
      reads this, todos
      ensures search.None? || IsBlank(search.value) ==> r == todos
      ensures search.Some? && !IsBlank(search.value) ==>
        Subsequence(r, todos) &&
        (forall t :: t in r ==> t in todos && Matches(t.title, Trim(Lower(search.value)))) &&
        (forall t :: t in todos && Matches(t.title, Trim(Lower(search.value))) ==> t in r) &&
        (forall t :: t in todos ==>
          multiset(r)[t] == if Matches(t.title, Trim(Lower(search.value))) then multiset(todos)[t] else 0)
    {
      match SearchKey(search)
      case None => todos
      case Some(key) => Select(todos, key)
    }

    /** findOne(id): the stored todo with that id, or nothing when no todo has it. */
    function FindOne(id: int): (r: Option<Todo>)
      reads this, todos
      ensures r.Some? ==> r.value in todos && r.value.id == id
      ensures r.None? <==> forall t :: t in todos ==> t.id != id
    {
      var k := FirstWithId(todos, id);
      if k < |todos| then Some(todos[k]) else None
    }

    /** In a valid store the todo with id n sits at position n - 1, and ids
        outside 1 .. nextId - 1 are not found. */
    lemma FindOneAt(id: int)
      requires Valid()
      ensures FindOne(id) == if 1 <= id < nextId then Some(todos[id - 1]) else None
    {
      if 1 <= id < nextId {
        assert todos[id - 1].id == id;
      }
    }

    /** create(dto): builds a Todo (whose clock-based id is overwritten at once),
        gives it the next id, appends it and returns it. Earlier todos are not
        touched, so the unfiltered listing afterwards is the one before followed
        by the new todo. */
    method Create(title: string, clock: int, now: Timestamp) returns (t: Todo)
      requires Valid()
      modifies this
      ensures Valid()
      ensures fresh(t)
      ensures todos == old(todos) + [t]
      ensures t.id == old(nextId) && nextId == old(nextId) + 1
      ensures t.title == title && !t.completed && t.createdAt == now
      ensures FindAll(None) == old(FindAll(None)) + [t]
    {
      t := new Todo(title, clock, now);
      t.id := nextId;
      nextId := nextId + 1;
      todos := todos + [t];
    }

    /** toggleCompleted(id): flips `completed` on the todo with that id and
        returns it; returns nothing and changes nothing when there is none. Only
        that one object, and only its `completed` field, is written. */
    method ToggleCompleted(id: int) returns (r: Option<Todo>)
      requires Valid()
      modifies if FindOne(id).Some? then {FindOne(id).value} else {}
      ensures Valid()
      ensures r == old(FindOne(id))
      ensures todos == old(todos) && nextId == old(nextId)
      ensures r.Some? ==> r.value.completed == !old(r.value.completed)
      ensures r.Some? ==> r.value.id == old(r.value.id) && r.value.title == old(r.value.title)
                          && r.value.createdAt == old(r.value.createdAt)
      ensures forall t :: t in todos && r != Some(t) ==> unchanged(t)
    {
      r := FindOne(id);
      if r.Some? {
        var todo := r.value;
        todo.completed := !todo.completed;
      }
    }
  }

  /** Toggling the same id twice hands back the same todo both times and leaves
      every stored todo exactly as it was. */
  method ToggleTwice(store: TodosService, id: int) returns (first: Option<Todo>, second: Option<Todo>)
    requires store.Valid()
    modifies if store.FindOne(id).Some? then {store.FindOne(id).value} else {}
    ensures store.Valid()
    ensures first == second == old(store.FindOne(id))
    ensures store.todos == old(store.todos) && store.nextId == old(store.nextId)
    ensures forall t :: t in store.todos ==>
      t.id == old(t.id) && t.title == old(t.title) &&
      t.completed == old(t.completed) && t.createdAt == old(t.createdAt)
  {
    first := store.ToggleCompleted(id);
    second := store.ToggleCompleted(id);
  }

  /** Listing after a create gives the listing before it, followed by the new
      todo when the search lets it through: creating keeps insertion order in
      every listing. */
  method CreateThenFindAll(store: TodosService, title: string, clock: int, now: Timestamp,
                           search: Option<string>)
    returns (t: Todo)
    requires store.Valid()
    modifies store
    ensures store.Valid()
    ensures fresh(t) && store.todos == old(store.todos) + [t]
    ensures store.FindAll(search) == old(store.FindAll(search)) +
      (if search.None? || IsBlank(search.value) || Matches(title, Trim(Lower(search.value))) then [t] else [])
  {
    t := store.Create(title, clock, now);
    if search.Some? && !IsBlank(search.value) {
      var key := Trim(Lower(search.value));
      assert SearchKey(search) == Some(key);
      assert old(store.FindAll(search)) == old(Select(store.todos, key)) == Select(old(store.todos), key);
      SelectSnoc(old(store.todos), t, key);
    }
  }
}
